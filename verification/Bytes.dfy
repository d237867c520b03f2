/** Bytes, fixed-width words and the sequence facts every other module shares. */
module Bytes {

  type byte = x: int | 0 <= x < 0x100
  type u16 = x: int | 0 <= x < 0x1_0000
  type u32 = x: int | 0 <= x < 0x1_0000_0000

  /** A byte string. C strings are modelled without their terminating NUL. */
  type Str = seq<byte>

  datatype Option<+T> = None | Some(value: T)

  function Zeros(n: nat): (s: seq<byte>)
    ensures |s| == n && forall i :: 0 <= i < n ==> s[i] == 0
  {
    seq(n, _ => 0)
  }

  predicate NoNul(s: Str) {
    forall i :: 0 <= i < |s| ==> s[i] != 0
  }

  /** The C string at `at`; a missing terminator ends it with the bytes. */
  function CString(s: Str, at: nat): (r: Str)
    ensures NoNul(r)
    decreases |s| - at
  {
    if at >= |s| || s[at] == 0 then [] else [s[at]] + CString(s, at + 1)
  }

  lemma {:induction false} CStringReads(s: Str, at: nat, name: Str)
    requires NoNul(name) && at + |name| < |s|
    requires s[at..at + |name|] == name && s[at + |name|] == 0
    ensures CString(s, at) == name
    decreases |name|
  {
    if name != [] {
      assert s[at] == s[at..at + |name|][0] == name[0];
      assert s[at + 1..at + |name|] == s[at..at + |name|][1..];
      CStringReads(s, at + 1, name[1..]);
    }
  }

  function Min(a: int, b: int): int {
    if a < b then a else b
  }

  function Last<T>(s: seq<T>): T
    requires s != []
  {
    s[|s| - 1]
  }

  function DropLast<T>(s: seq<T>): seq<T>
    requires s != []
  {
    s[..|s| - 1]
  }

  predicate Any<T>(s: seq<T>, p: T -> bool) {
    exists i :: 0 <= i < |s| && p(s[i])
  }

  lemma AnyConcat<T>(a: seq<T>, b: seq<T>, p: T -> bool)
    ensures Any(a + b, p) <==> Any(a, p) || Any(b, p)
  {
    var s := a + b;
    if Any(a, p) {
      var i :| 0 <= i < |a| && p(a[i]);
      assert s[i] == a[i];
    }
    if Any(b, p) {
      var i :| 0 <= i < |b| && p(b[i]);
      assert s[|a| + i] == b[i];
    }
  }

  lemma Regroup<T>(x: seq<T>, y: seq<T>, z: seq<T>)
    ensures x + y + z == x + (y + z)
  {
  }

  /** Every piece preceded by a separator. */
  function Joined<T>(sep: T, pieces: seq<seq<T>>): (s: seq<T>)
    ensures pieces != [] ==> s != [] && s[0] == sep
  {
    if pieces == [] then [] else Joined(sep, DropLast(pieces)) + [sep] + Last(pieces)
  }

  lemma SliceOfSlice<T>(s: seq<T>, a: nat, b: nat, c: nat, d: nat)
    requires a <= b <= |s| && c <= d <= b - a
    ensures s[a..b][c..d] == s[a + c..a + d]
  {
    var x, y := s[a..b][c..d], s[a + c..a + d];
    forall i | 0 <= i < |x| ensures x[i] == y[i] {
      assert x[i] == s[a..b][c + i];
    }
  }

  lemma CutConcat<T>(a: seq<T>, b: seq<T>, n: nat)
    requires n <= |a|
    ensures (a + b)[..n] == a[..n] && (a + b)[n..] == a[n..] + b
  {
  }

  /** The numbers below `n`. */
  ghost function Below(n: nat): (s: set<int>)
    ensures |s| == n && forall i :: i in s <==> 0 <= i < n
  {
    if n == 0 then {} else Below(n - 1) + {n - 1}
  }

  lemma SubsetCard(a: set<int>, b: set<int>)
    requires a <= b
    ensures |a| <= |b| && (|a| == |b| ==> a == b)
  {
    assert b == a + (b - a);
  }
}
