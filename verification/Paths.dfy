/** Path strings: how tmpfs cuts them into tokens, how it splits off a leaf, and how the VFS
    layer normalises them before handing them to tmpfs. */
module Paths {
  import opened Bytes

  const SLASH: byte := 47
  const DOT: byte := 46
  const NAME_MAX := 32
  const PATH_MAX := 256
  const CWD_MAX := 128

  predicate NoSlash(s: Str) {
    forall i :: 0 <= i < |s| ==> s[i] != SLASH
  }

  /** A path at whose end a new component starts. */
  predicate AtBoundary(p: Str) {
    p == [] || Last(p) == SLASH
  }

  predicate NoDoubleSlash(p: Str) {
    forall i :: 0 < i < |p| ==> p[i] != SLASH || p[i - 1] != SLASH
  }

  /** Length of the leading slash-free run. */
  function Run(p: Str): (n: nat)
    ensures n <= |p| && NoSlash(p[..n])
    ensures n < |p| ==> p[n] == SLASH
  {
    if p == [] || p[0] == SLASH then 0 else
      var n := 1 + Run(p[1..]);
      assert p[..n] == [p[0]] + p[1..][..n - 1];
      n
  }

  /** The tokens `resolve_path` walks: slash-free pieces, none longer than its 32-byte token
      buffer allows, so that an over-long component is walked as several tokens. */
  function Tokens(p: Str): (ts: seq<Str>)
    ensures forall i :: 0 <= i < |ts| ==> 0 < |ts[i]| < NAME_MAX && NoSlash(ts[i])
    decreases |p|
  {
    if p == [] then []
    else if p[0] == SLASH then Tokens(p[1..])
    else
      var n := Min(Run(p), NAME_MAX - 1);
      [p[..n]] + Tokens(p[n..])
  }

  lemma RunConcat(a: Str, b: Str)
    requires AtBoundary(a) || b == [] || b[0] == SLASH
    requires a != []
    ensures Run(a + b) == Run(a)
  {
    if a[0] != SLASH {
      assert (a + b)[1..] == a[1..] + b;
      if a[1..] != [] {
        RunConcat(a[1..], b);
      }
    }
  }

  /** Tokens never span a slash, so cutting a path at one splits its tokens. */
  lemma {:induction false} TokensConcat(a: Str, b: Str)
    requires AtBoundary(a) || b == [] || b[0] == SLASH
    ensures Tokens(a + b) == Tokens(a) + Tokens(b)
    decreases |a|
  {
    if a == [] {
      assert a + b == b;
    } else if a[0] == SLASH {
      assert (a + b)[1..] == a[1..] + b;
      TokensConcat(a[1..], b);
    } else {
      var n := Min(Run(a), NAME_MAX - 1);
      TokensConcat(a[n..], b);
      FirstTokenConcat(a, b, n);
    }
  }

  lemma FirstTokenConcat(a: Str, b: Str, n: nat)
    requires AtBoundary(a) || b == [] || b[0] == SLASH
    requires a != [] && a[0] != SLASH && n == Min(Run(a), NAME_MAX - 1)
    ensures Tokens(a + b) == [a[..n]] + Tokens(a[n..] + b)
    ensures Tokens(a) == [a[..n]] + Tokens(a[n..])
  {
    RunConcat(a, b);
    CutConcat(a, b, n);
  }

  lemma TokensOfName(p: Str)
    requires 0 < |p| < NAME_MAX && NoSlash(p)
    ensures Tokens(p) == [p]
  {
    assert Run(p) == |p|;
    assert p[..|p|] == p && p[|p|..] == [];
  }

  /** Thirty-one bytes without a slash are one token; a thirty-second starts another. */
  lemma TokenLimit(p: Str)
    requires forall i :: 0 <= i < |p| ==> p[i] != 47
    ensures 0 < |p| <= 31 ==> Tokens(p) == [p]
    ensures 31 < |p| <= 62 ==> Tokens(p) == [p[..31], p[31..]]
    ensures Tokens([47] + p) == Tokens(p)
  {
    hide Tokens;
    LeadingSlash(p);
    if 0 < |p| <= 31 {
      TokensOfName(p);
    } else if 31 < |p| <= 62 {
      TokenEnds(p, 31);
      TokensOfName(p[31..]);
    }
  }

  lemma LeadingSlash(p: Str)
    ensures Tokens([47] + p) == Tokens(p)
  {
    assert ([47] + p)[1..] == p;
  }

  /** The cursor loops of `resolve_path`. */
  method SkipSlashes(path: Str, start: nat) returns (cursor: nat)
    requires start <= |path|
    ensures start <= cursor <= |path| && (cursor < |path| ==> path[cursor] != SLASH)
    ensures Tokens(path[cursor..]) == Tokens(path[start..])
  {
    cursor := start;
    while cursor < |path| && path[cursor] == SLASH
      invariant start <= cursor <= |path|
      invariant Tokens(path[cursor..]) == Tokens(path[start..])
    {
      assert path[cursor..][1..] == path[cursor + 1..];
      cursor := cursor + 1;
    }
  }

  method TakeToken(path: Str, start: nat) returns (token: Str, cursor: nat)
    requires start < |path| && path[start] != SLASH
    ensures start < cursor <= |path| && token == path[start..cursor] && NoSlash(token)
    ensures Tokens(path[start..]) == [token] + Tokens(path[cursor..])
  {
    hide Tokens;
    token, cursor := [], start;
    while cursor < |path| && path[cursor] != SLASH && |token| + 1 < NAME_MAX
      invariant start <= cursor <= |path|
      invariant token == path[start..cursor] && |token| < NAME_MAX && NoSlash(token)
    {
      token := token + [path[cursor]];
      cursor := cursor + 1;
    }
    assert path[start..][cursor - start..] == path[cursor..];
    assert path[start..][..cursor - start] == token;
    TokenEnds(path[start..], cursor - start);
  }

  lemma TokenEnds(p: Str, n: nat)
    requires 0 < n <= |p| && NoSlash(p[..n])
    requires n == NAME_MAX - 1 || (n < NAME_MAX - 1 && (n == |p| || p[n] == SLASH))
    ensures Tokens(p) == [p[..n]] + Tokens(p[n..])
  {
    var r := Run(p);
    assert forall i :: 0 <= i < n ==> p[i] == p[..n][i];
    assert forall i :: 0 <= i < r ==> p[i] == p[..r][i];
  }

  /** The token list after one more byte. */
  function Extend(ts: seq<Str>, atStart: bool, c: byte): seq<Str> {
    if c == SLASH then ts
    else if atStart || ts == [] || |Last(ts)| >= NAME_MAX - 1 then ts + [[c]]
    else DropLast(ts) + [Last(ts) + [c]]
  }

  lemma {:induction false} TokensSnoc(p: Str, c: byte)
    ensures Tokens(p + [c]) == Extend(Tokens(p), AtBoundary(p), c)
    decreases |p|
  {
    if c == SLASH {
      TokensConcat(p, [c]);
      assert Tokens([c]) == Tokens([c][1..]) == [];
    } else if AtBoundary(p) {
      TokensConcat(p, [c]);
      TokensOfName([c]);
    } else if p[0] == SLASH {
      assert (p + [c])[1..] == p[1..] + [c];
      TokensSnoc(p[1..], c);
    } else {
      TokensSnocInRun(p, c);
    }
  }

  lemma {:induction false} TokensSnocInRun(p: Str, c: byte)
    requires p != [] && p[0] != SLASH && Last(p) != SLASH && c != SLASH
    ensures Tokens(p + [c]) == Extend(Tokens(p), false, c)
    decreases |p|, 0
  {
    RunSnoc(p, c);
    if Run(p) == |p| && |p| < NAME_MAX - 1 {
      TokensOfName(p);
      TokensOfName(p + [c]);
    } else {
      TokensSnocAfterToken(p, c);
    }
  }

  lemma {:induction false} TokensSnocAfterToken(p: Str, c: byte)
    requires p != [] && p[0] != SLASH && Last(p) != SLASH && c != SLASH
    requires Run(p + [c]) >= Run(p) && (Run(p) < |p| ==> Run(p + [c]) == Run(p))
    requires Run(p) == |p| ==> |p| >= NAME_MAX - 1
    ensures Tokens(p + [c]) == Extend(Tokens(p), false, c)
    decreases |p|, 0, 0
  {
    hide Tokens, Run;
    var q := p + [c];
    var n := Min(Run(p), NAME_MAX - 1);
    var rest := p[n..];
    CutConcat(p, [c], n);
    FirstToken(p);
    FirstToken(q);
    TokensSnoc(rest, c);
    if rest != [] {
      assert Last(rest) == Last(p);
      TokensNonEmpty(rest);
      SnocUnderHead(p[..n], Tokens(rest), c);
    }
  }

  lemma FirstToken(p: Str)
    requires p != [] && p[0] != SLASH
    ensures Tokens([]) == []
    ensures var n := Min(Run(p), NAME_MAX - 1); Tokens(p) == [p[..n]] + Tokens(p[n..])
  {
  }

  lemma SnocUnderHead(t: Str, ts: seq<Str>, c: byte)
    requires ts != []
    ensures [t] + Extend(ts, false, c) == Extend([t] + ts, false, c)
  {
    assert DropLast([t] + ts) == [t] + DropLast(ts);
  }

  lemma {:induction false} TokensNonEmpty(p: Str)
    requires p != [] && Last(p) != SLASH
    ensures Tokens(p) != []
    decreases |p|
  {
    if p[0] == SLASH {
      TokensNonEmpty(p[1..]);
    }
  }

  lemma RunSnoc(p: Str, c: byte)
    requires c != SLASH
    ensures Run(p + [c]) == if Run(p) == |p| then |p| + 1 else Run(p)
  {
    if p != [] {
      assert (p + [c])[1..] == p[1..] + [c];
    }
  }

  // ---------------------------------------------------------------------------------------
  // Normalisation
  // ---------------------------------------------------------------------------------------

  /** Drop every slash that directly follows another one. */
  function Squeeze(s: Str): Str {
    if s == [] then []
    else
      var q := Squeeze(DropLast(s));
      if Last(s) == SLASH && q != [] && Last(q) == SLASH then q else q + [Last(s)]
  }

  lemma {:induction false} SqueezeForm(s: Str)
    ensures NoDoubleSlash(Squeeze(s))
    ensures s != [] ==> Squeeze(s) != [] && Squeeze(s)[0] == s[0] && Last(Squeeze(s)) == Last(s)
  {
    if s != [] {
      SqueezeForm(DropLast(s));
    }
  }

  lemma {:induction false} SqueezeTokens(s: Str)
    ensures Tokens(Squeeze(s)) == Tokens(s)
  {
    if s != [] {
      var r := DropLast(s);
      SqueezeTokens(r);
      SqueezeForm(r);
      assert s == r + [Last(s)];
      TokensSnoc(r, Last(s));
      TokensSnoc(Squeeze(r), Last(s));
    }
  }

  lemma {:induction false} SqueezeFixed(s: Str)
    requires NoDoubleSlash(s)
    ensures Squeeze(s) == s
  {
    if s != [] {
      var r := DropLast(s);
      assert forall i :: 0 <= i < |r| ==> r[i] == s[i];
      SqueezeFixed(r);
      assert s == r + [Last(s)];
    }
  }

  lemma SqueezeStep(base: Str, path: Str, i: nat)
    requires i < |path|
    ensures var q := Squeeze(base + path[..i]);
            Squeeze(base + path[..i + 1])
            == if path[i] == SLASH && q != [] && Last(q) == SLASH then q else q + [path[i]]
  {
    assert DropLast(base + path[..i + 1]) == base + path[..i];
  }

  lemma {:induction false} SqueezePrefix(s: Str, k: nat)
    requires k <= |s|
    ensures Squeeze(s[..k]) <= Squeeze(s)
    decreases |s| - k
  {
    if k < |s| {
      assert DropLast(s[..k + 1]) == s[..k];
      SqueezePrefix(s, k + 1);
    } else {
      assert s[..k] == s;
    }
  }

  /** What a path is read after: nothing if absolute, otherwise the cwd and a slash. */
  function Prefix(cwd: Str, path: Str): Str
    requires cwd != [] && path != []
  {
    if path[0] == SLASH then []
    else if |cwd| > 1 && Last(cwd) != SLASH then cwd + [SLASH]
    else cwd
  }

  function Based(cwd: Str, path: Str): Str
    requires cwd != [] && path != []
  {
    Prefix(cwd, path) + path
  }

  lemma PrefixFixed(cwd: Str, path: Str)
    requires CwdForm(cwd) && path != []
    ensures Squeeze(Prefix(cwd, path)) == Prefix(cwd, path)
  {
    SqueezeFixed(Prefix(cwd, path));
  }

  function Truncated(s: Str, n: nat): Str {
    if |s| <= n then s else s[..n]
  }

  /** The normal form `normalize_path` leaves in its 256-byte buffer. */
  function Normalized(cwd: Str, path: Str): Str
    requires cwd != []
  {
    if path == [] then [SLASH] else Truncated(Squeeze(Based(cwd, path)), PATH_MAX - 1)
  }

  /** Every working directory string: absolute, squeezed, and within its 128-byte buffer. */
  predicate CwdForm(cwd: Str) {
    0 < |cwd| < CWD_MAX && cwd[0] == SLASH && NoDoubleSlash(cwd)
  }

  method NormalizePath(path: Str, cwd: Str) returns (out: Str)
    requires CwdForm(cwd)
    ensures out == Normalized(cwd, path)
  {
    if path == [] {
      return [SLASH];
    }
    out := [];
    if path[0] != SLASH {
      out := cwd;
      if |out| > 1 && Last(out) != SLASH {
        out := out + [SLASH];
      }
    }
    ghost var base := Prefix(cwd, path);
    PrefixFixed(cwd, path);
    assert base + path[..0] == base;
    var i := 0;
    while i < |path| && |out| + 1 < PATH_MAX
      invariant 0 <= i <= |path|
      invariant |out| < PATH_MAX
      invariant out == Squeeze(base + path[..i])
    {
      SqueezeStep(base, path, i);
      if path[i] == SLASH && |out| > 0 && out[|out| - 1] == SLASH {
        i := i + 1;
      } else {
        out := out + [path[i]];
        i := i + 1;
      }
    }
    StoppedAt(base, path, i);
  }

  /** A prefix that is squeezed completely, or fills the buffer, gives the truncated whole. */
  lemma StoppedAt(base: Str, path: Str, i: nat)
    requires i <= |path|
    requires i == |path| || |Squeeze(base + path[..i])| == PATH_MAX - 1
    requires |Squeeze(base + path[..i])| < PATH_MAX
    ensures Squeeze(base + path[..i]) == Truncated(Squeeze(base + path), PATH_MAX - 1)
  {
    assert (base + path)[..|base| + i] == base + path[..i];
    SqueezePrefix(base + path, |base| + i);
    if i == |path| {
      assert path[..i] == path;
    }
  }

  /** The result is absolute and squeezed whatever the input was, and normalising it again,
      from any working directory, changes nothing. */
  lemma NormalizedForm(cwd: Str, path: Str, cwd': Str)
    requires CwdForm(cwd) && cwd' != []
    ensures var n := Normalized(cwd, path);
            0 < |n| < 256 && n[0] == 47 && NoDoubleSlash(n) && Normalized(cwd', n) == n
  {
    hide Squeeze;
    if path != [] {
      SqueezeForm(Based(cwd, path));
    }
    var n := Normalized(cwd, path);
    SqueezeFixed(n);
    assert Based(cwd', n) == n;
  }

  /** When nothing but a final slash is cut off by the buffer. */
  predicate Fits(cwd: Str, path: Str)
    requires cwd != [] && path != []
  {
    var s := Squeeze(Based(cwd, path));
    |s| < 256 || (|s| == 256 && Last(s) == SLASH)
  }

  /** Normalising keeps exactly the components of the path, after those of the cwd when the
      path is relative, if and only if the result fits its buffer. */
  lemma NormalizedTokens(cwd: Str, path: Str)
    requires CwdForm(cwd) && path != []
    ensures Fits(cwd, path)
            <==> Tokens(Normalized(cwd, path))
                 == (if path[0] == SLASH then [] else Tokens(cwd)) + Tokens(path)
  {
    hide Tokens;
    BasedTokens(cwd, path);
    SqueezeTokens(Based(cwd, path));
    SqueezeForm(Based(cwd, path));
    CutTokens(Squeeze(Based(cwd, path)), PATH_MAX - 1);
  }

  /** Cutting a squeezed path short keeps its components exactly when at most one slash, at the
      very end, is lost. */
  lemma CutTokens(s: Str, n: nat)
    requires NoDoubleSlash(s)
    ensures Tokens(Truncated(s, n)) == Tokens(s) <==> |s| <= n || (|s| == n + 1 && Last(s) == SLASH)
  {
    hide Tokens;
    if |s| > n {
      var front, rest := s[..n], s[n..];
      assert s == front + rest;
      if |s| == n + 1 && Last(s) == SLASH {
        assert rest == [SLASH];
        TokensSnoc(front, SLASH);
      } else {
        CountConcat(front, rest);
        CountIsTokenBytes(front);
        CountIsTokenBytes(s);
        assert |rest| >= 2 ==> rest[0] == s[n] && rest[1] == s[n + 1];
        CountPositive(rest);
      }
    }
  }

  /** A slash and 255 letters do not fit. */
  lemma LongNameLoses(cwd: Str)
    requires CwdForm(cwd)
    ensures var path := [SLASH] + seq(255, _ => 97); Tokens(Normalized(cwd, path)) != Tokens(path)
  {
    hide Tokens;
    var path := [SLASH] + seq(255, _ => 97);
    assert Based(cwd, path) == path && forall i :: 0 < i < |path| ==> path[i] == 97;
    SqueezeFixed(path);
    NormalizedTokens(cwd, path);
    assert [] + Tokens(path) == Tokens(path);
  }

  lemma BasedTokens(cwd: Str, path: Str)
    requires CwdForm(cwd) && path != []
    ensures Tokens(Based(cwd, path)) == (if path[0] == SLASH then [] else Tokens(cwd)) + Tokens(path)
  {
    if path[0] != SLASH {
      if |cwd| > 1 && Last(cwd) != SLASH {
        TokensSnoc(cwd, SLASH);
        TokensConcat(cwd + [SLASH], path);
      } else {
        TokensConcat(cwd, path);
      }
    } else {
      assert Based(cwd, path) == path;
    }
  }

  // Counting non-slash bytes shows that a cut component is always noticed.

  ghost function Count(s: Str): nat {
    if s == [] then 0 else Count(DropLast(s)) + (if Last(s) == SLASH then 0 else 1)
  }

  ghost function TokenBytes(ts: seq<Str>): nat {
    if ts == [] then 0 else TokenBytes(DropLast(ts)) + |Last(ts)|
  }

  lemma {:induction false} CountConcat(a: Str, b: Str)
    ensures Count(a + b) == Count(a) + Count(b)
    decreases |b|
  {
    if b == [] {
      assert a + b == a;
    } else {
      assert DropLast(a + b) == a + DropLast(b);
      CountConcat(a, DropLast(b));
    }
  }

  lemma {:induction false} CountIsTokenBytes(s: Str)
    ensures Count(s) == TokenBytes(Tokens(s))
  {
    if s != [] {
      var r, c := DropLast(s), Last(s);
      assert s == r + [c];
      CountIsTokenBytes(r);
      TokensSnoc(r, c);
      var ts := Tokens(r);
      if c != SLASH && ts != [] {
        assert DropLast(ts + [[c]]) == ts;
        assert DropLast(DropLast(ts) + [Last(ts) + [c]]) == DropLast(ts);
      }
    }
  }

  lemma CountPositive(s: Str)
    requires exists i :: 0 <= i < |s| && s[i] != SLASH
    ensures Count(s) > 0
  {
    if Last(s) == SLASH {
      var i :| 0 <= i < |s| && s[i] != SLASH;
      assert DropLast(s)[i] != SLASH;
      CountPositive(DropLast(s));
    }
  }
}
