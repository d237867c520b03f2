/** Network byte order and the Internet checksum (section 1 of RFC 1071). */
module Wire {
  import opened Bytes

  function Word(hi: byte, lo: byte): u16 {
    (hi as int) * 0x100 + lo as int
  }

  function Be16(p: Str, at: nat): u16
    requires at + 2 <= |p|
  {
    Word(p[at], p[at + 1])
  }

  function Be32(p: Str, at: nat): u32
    requires at + 4 <= |p|
  {
    (Word(p[at], p[at + 1]) as int) * 0x1_0000 + Word(p[at + 2], p[at + 3]) as int
  }

  function Put16(v: u16): Str {
    [v / 0x100, v % 0x100]
  }

  function Put32(v: u32): Str {
    Put16(v / 0x1_0000) + Put16(v % 0x1_0000)
  }

  lemma Put32Length(v: u32)
    ensures |Put32(v)| == 4
  {
  }

  lemma Put16Reads(p: Str, at: nat, v: u16)
    requires at + 2 <= |p| && p[at..at + 2] == Put16(v)
    ensures Be16(p, at) == v
  {
    assert p[at] == p[at..at + 2][0] && p[at + 1] == p[at..at + 2][1];
  }

  lemma Put32Reads(p: Str, at: nat, v: u32)
    requires at + 4 <= |p| && p[at..at + 4] == Put32(v)
    ensures Be32(p, at) == v
  {
    var s := p[at..at + 4];
    assert p[at..at + 2] == s[..2] == Put16(v / 0x1_0000) && p[at + 2..at + 4] == s[2..] == Put16(v % 0x1_0000);
    Put16Reads(p, at, v / 0x1_0000);
    Put16Reads(p, at + 2, v % 0x1_0000);
  }

  /** Most significant byte first. */
  lemma ByteOrder(a: byte, b: byte)
    ensures Be16([a, b], 0) == 0x100 * a as int + b as int && Put16(0x100 * a as int + b as int) == [a, b]
  {
  }

  lemma WordOrder(a: byte, b: byte, c: byte, d: byte)
    ensures var hi, lo := 0x100 * a as int + b as int, 0x100 * c as int + d as int;
            Be32([a, b, c, d], 0) == 0x1_0000 * hi + lo && Put32(0x1_0000 * hi + lo) == [a, b, c, d]
  {
    hide Put16;
    ByteOrder(a, b);
    ByteOrder(c, d);
    var hi, lo := 0x100 * a as int + b as int, 0x100 * c as int + d as int;
    WordParts(hi, lo);
  }

  lemma WordParts(hi: u16, lo: u16)
    ensures Put32((hi as int) * 0x1_0000 + lo as int) == Put16(hi) + Put16(lo)
  {
    hide Put16;
  }

  // ---------------------------------------------------------------------------------------
  // Checksum
  // ---------------------------------------------------------------------------------------

  /** One's complement addition: a carry out of the top wraps around to the bottom. */
  function EndAround(a: u16, b: u16): u16 {
    if a + b > 0xFFFF then a + b - 0xFFFF else a + b
  }

  /** The one's complement sum of the 16-bit words, an odd last byte padded with zero. */
  function OnesSum(d: Str): u16 {
    if |d| == 0 then 0
    else if |d| == 1 then Word(d[0], 0)
    else EndAround(Be16(d, 0), OnesSum(d[2..]))
  }

  function Checksum(d: Str): u16 {
    0xFFFF - OnesSum(d)
  }

  /** An odd last byte counts as if a zero followed it. */
  lemma {:induction false} OddIsPadded(d: Str)
    requires |d| % 2 == 1
    ensures OnesSum(d + [0]) == OnesSum(d)
    decreases |d|
  {
    hide EndAround;
    if |d| == 1 {
      assert (d + [0])[2..] == [];
      ZeroAdds(Be16(d + [0], 0));
    } else {
      assert (d + [0])[2..] == d[2..] + [0];
      OddIsPadded(d[2..]);
    }
  }

  lemma ZeroAdds(a: u16)
    ensures EndAround(a, 0) == a
  {
  }

  /** The example of RFC 1071, section 3: the words 0001, f203, f4f5 and f6f7 sum to ddf2. */
  lemma RfcExample()
    ensures Checksum([0x00, 0x01, 0xF2, 0x03, 0xF4, 0xF5, 0xF6, 0xF7]) == 0x220D
  {
    var d: Str := [0x00, 0x01, 0xF2, 0x03, 0xF4, 0xF5, 0xF6, 0xF7];
    assert d[2..] == [0xF2, 0x03, 0xF4, 0xF5, 0xF6, 0xF7] && d[2..][2..] == [0xF4, 0xF5, 0xF6, 0xF7];
    assert d[2..][2..][2..] == [0xF6, 0xF7] && d[2..][2..][2..][2..] == [];
    assert OnesSum([0xF6, 0xF7]) == 0xF6F7;
    assert OnesSum([0xF4, 0xF5, 0xF6, 0xF7]) == 0xEBED;
    assert OnesSum([0xF2, 0x03, 0xF4, 0xF5, 0xF6, 0xF7]) == 0xDDF1;
  }

  function WordSum(d: Str): nat {
    if |d| == 0 then 0
    else if |d| == 1 then Word(d[0], 0)
    else Be16(d, 0) + WordSum(d[2..])
  }

  /** The representative of a sum modulo 0xFFFF that is 0 only for 0. */
  function Ones(s: nat): (r: u16)
    ensures r == 0 <==> s == 0
  {
    if s == 0 then 0 else (s - 1) % 0xFFFF + 1
  }

  lemma OnesAdd(a: u16, s: nat)
    ensures Ones(a + s) == EndAround(a, Ones(s))
  {
    if s > 0 {
      var q := (s - 1) / 0xFFFF;
      assert s == q * 0xFFFF + Ones(s);
      OnesPlus(a + Ones(s), q);
    }
  }

  lemma OnesPlus(s: nat, q: nat)
    requires s > 0
    ensures Ones(s + q * 0xFFFF) == Ones(s)
  {
    var m := (s - 1) / 0xFFFF;
    assert s - 1 == m * 0xFFFF + (s - 1) % 0xFFFF;
    assert s + q * 0xFFFF - 1 == (m + q) * 0xFFFF + (s - 1) % 0xFFFF;
  }

  lemma OnesFold(s: nat)
    ensures Ones(s % 0x1_0000 + s / 0x1_0000) == Ones(s)
  {
    var hi, lo := s / 0x1_0000, s % 0x1_0000;
    if s > 0 {
      assert s == (lo + hi) + hi * 0xFFFF;
      OnesPlus(lo + hi, hi);
    }
  }

  lemma {:induction false} OnesSumIsOnes(d: Str)
    ensures OnesSum(d) == Ones(WordSum(d))
    decreases |d|
  {
    hide Ones;
    if |d| >= 2 {
      OnesSumIsOnes(d[2..]);
      OnesAdd(Be16(d, 0), WordSum(d[2..]));
    } else {
      SmallOnes(WordSum(d));
    }
  }

  lemma SmallOnes(s: u16)
    ensures Ones(s) == s
  {
  }

  lemma {:induction false} WordSumBound(d: Str)
    ensures WordSum(d) <= (|d| + 1) / 2 * 0xFFFF
    decreases |d|
  {
    if |d| >= 2 {
      WordSumBound(d[2..]);
    }
  }

  lemma {:induction false} WordSumSplit(d: Str, k: nat)
    requires k <= |d| && k % 2 == 0
    ensures WordSum(d) == WordSum(d[..k]) + WordSum(d[k..])
    decreases k
  {
    if k == 0 {
      assert d[..0] == [] && d[0..] == d;
    } else {
      WordSumSplit(d[2..], k - 2);
      assert d[2..][..k - 2] == d[..k][2..] && d[2..][k - 2..] == d[k..];
    }
  }

  /** The kernel's loop, in 32-bit arithmetic: for every string of up to 65535 bytes nothing
      overflows, the folding ends, and the result is the complement of the sum above. */
  method Checksum16(data: Str) returns (r: u16)
    requires |data| <= 0xFFFF
    ensures r == Checksum(data)
  {
    hide WordSum, OnesSum, Ones;
    var sum: u32 := 0;
    var i := 0;
    NoWords(data);
    while i + 1 < |data|
      invariant 0 <= i <= |data| && i % 2 == 0
      invariant sum == WordSum(data[..i])
    {
      SumStep(data, i);
      sum := (sum + Word(data[i], data[i + 1])) % 0x1_0000_0000;
      i := i + 2;
    }
    if |data| % 2 == 1 {
      SumTail(data);
      sum := (sum + Word(data[|data| - 1], 0)) % 0x1_0000_0000;
    } else {
      assert data[..i] == data;
    }
    assert sum == WordSum(data);
    while sum / 0x1_0000 != 0
      invariant Ones(sum) == Ones(WordSum(data))
      decreases sum
    {
      OnesFold(sum);
      sum := sum % 0x1_0000 + sum / 0x1_0000;
    }
    SmallOnes(sum);
    OnesSumIsOnes(data);
    return 0xFFFF - sum;
  }

  lemma NoWords(d: Str)
    ensures WordSum(d[..0]) == 0
  {
  }

  lemma SumStep(d: Str, i: nat)
    requires i + 1 < |d| <= 0xFFFF && i % 2 == 0
    ensures WordSum(d[..i + 2]) == WordSum(d[..i]) + Word(d[i], d[i + 1]) < 0x1_0000_0000
  {
    var e := d[..i + 2];
    WordSumSplit(e, i);
    WordSumBound(e);
    assert e[..i] == d[..i] && e[i..] == [d[i], d[i + 1]];
    assert WordSum([d[i], d[i + 1]]) == Be16([d[i], d[i + 1]], 0) + WordSum([]);
  }

  lemma SumTail(d: Str)
    requires |d| % 2 == 1 && |d| <= 0xFFFF
    ensures WordSum(d) == WordSum(d[..|d| - 1]) + Word(d[|d| - 1], 0) < 0x1_0000_0000
  {
    WordSumSplit(d, |d| - 1);
    WordSumBound(d);
    assert d[|d| - 1..] == [d[|d| - 1]];
  }

  /** Overwrite the two bytes at `k`. */
  function Patch16(d: Str, k: nat, v: u16): Str
    requires k + 2 <= |d|
  {
    d[..k] + Put16(v) + d[k + 2..]
  }

  /** Storing the checksum in a zeroed field at an even offset makes the whole sum check. */
  lemma ChecksumLaw(d: Str, k: nat)
    requires k + 2 <= |d| && k % 2 == 0 && d[k] == 0 && d[k + 1] == 0
    ensures Checksum(Patch16(d, k, Checksum(d))) == 0
  {
    var c := Checksum(d);
    var d' := Patch16(d, k, c);
    PatchedSum(d, k, c);
    var s := WordSum(d);
    OnesSumIsOnes(d);
    OnesSumIsOnes(d');
    FullOnes(s);
  }

  lemma FullOnes(s: nat)
    ensures Ones(s + (0xFFFF - Ones(s))) == 0xFFFF
  {
    if s > 0 {
      var q := (s - 1) / 0xFFFF;
      assert s == q * 0xFFFF + Ones(s);
      OnesPlus(0xFFFF, q);
    }
  }

  lemma PatchedSum(d: Str, k: nat, v: u16)
    requires k + 2 <= |d| && k % 2 == 0 && d[k] == 0 && d[k + 1] == 0
    ensures WordSum(Patch16(d, k, v)) == WordSum(d) + v
  {
    hide WordSum;
    var d' := Patch16(d, k, v);
    AroundField(d, k);
    AroundField(d', k);
    assert d'[..k] == d[..k] && d'[k + 2..] == d[k + 2..];
    assert d'[k] == Put16(v)[0] && d'[k + 1] == Put16(v)[1];
  }

  lemma AroundField(d: Str, k: nat)
    requires k + 2 <= |d| && k % 2 == 0
    ensures WordSum(d) == WordSum(d[..k]) + Be16(d, k) + WordSum(d[k + 2..])
  {
    WordSumSplit(d, k);
    assert d[k..][2..] == d[k + 2..];
  }
}
