/** The "newc" archive: what scripts/mkinitramfs.py writes and what the kernel reads back. */
module Cpio {
  import opened Bytes
  import opened Errno

  const MAGIC: Str := [48, 55, 48, 55, 48, 49]
  const TRAILER: Str := [84, 82, 65, 73, 76, 69, 82, 33, 33, 33]
  const SELF: Str := [46]
  const HEADER_SIZE := 110
  const DIR_MODE := 0x41ED
  const FILE_MODE := 0x81ED

  // ---------------------------------------------------------------------------------------
  // Names
  // ---------------------------------------------------------------------------------------

  /** A Unicode character; lone surrogates have no encoding. */
  type Code = c: int | 0 <= c < 0xD800 || 0xE000 <= c < 0x11_0000

  /** A file name as Python sees it, by characters. */
  type Name = seq<Code>

  function EncodeChar(c: Code): (s: Str)
    ensures 1 <= |s| <= 4 && (if c < 0x80 then s == [c] else |s| > 1 && s[0] >= 0x80)
  {
    if c < 0x80 then [c]
    else if c < 0x800 then [0xC0 + c / 0x40, 0x80 + c % 0x40]
    else if c < 0x1_0000 then [0xE0 + c / 0x1000, 0x80 + c / 0x40 % 0x40, 0x80 + c % 0x40]
    else [0xF0 + c / 0x4_0000, 0x80 + c / 0x1000 % 0x40, 0x80 + c / 0x40 % 0x40, 0x80 + c % 0x40]
  }

  /** `name.encode("utf-8")`. */
  function Utf8(name: Name): (s: Str)
    ensures |s| >= |name|
  {
    if name == [] then [] else EncodeChar(name[0]) + Utf8(name[1..])
  }

  /** The bytes of a character spell its number as UTF-8 does: the lead byte tells how many
      follow, and each that follows carries six bits. */
  lemma EncodeDenotes(c: Code)
    ensures var s := EncodeChar(c);
            && (forall i :: 1 <= i < |s| ==> 0x80 <= s[i] < 0xC0)
            && (if c < 0x80 then s == [c]
                else if c < 0x800 then |s| == 2 && c == SixBits(s[0] as int - 0xC0, s[1])
                else if c < 0x1_0000 then |s| == 3 && c == SixBits(SixBits(s[0] as int - 0xE0, s[1]), s[2])
                else |s| == 4 && c == SixBits(SixBits(SixBits(s[0] as int - 0xF0, s[1]), s[2]), s[3]))
  {
    SixBitParts(c);
    SixBitParts(c / 0x40);
    SixBitParts(c / 0x1000);
    assert c / 0x40 / 0x40 == c / 0x1000 && c / 0x1000 / 0x40 == c / 0x4_0000;
  }

  /** A value extended by the six bits of a continuation byte. */
  function SixBits(lead: int, next: byte): int {
    lead * 0x40 + (next as int - 0x80)
  }

  lemma SixBitParts(v: nat)
    ensures SixBits(v / 0x40, 0x80 + v % 0x40) == v
  {
  }

  predicate Ascii(name: Name) {
    forall i :: 0 <= i < |name| ==> name[i] < 0x80
  }

  /** How many more bytes than characters a name has. */
  function Excess(name: Name): nat {
    |Utf8(name)| - |name|
  }

  /** The bytes of a name are its characters exactly when there are as many of them, exactly
      when none has its high bit set, exactly when the name is ASCII. */
  lemma {:induction false} AsciiBytes(name: Name)
    ensures Ascii(name) <==> Excess(name) == 0
    ensures Ascii(name) <==> Utf8(name) == name
    ensures Ascii(name) <==> forall i :: 0 <= i < |Utf8(name)| ==> Utf8(name)[i] < 0x80
  {
    if name != [] {
      AsciiBytes(name[1..]);
      var h, t := EncodeChar(name[0]), Utf8(name[1..]);
      assert Utf8(name) == h + t && Utf8(name)[0] == h[0];
      assert name == [name[0]] + name[1..];
      if name[0] < 0x80 {
        assert forall i :: 0 <= i < |t| ==> t[i] == Utf8(name)[i + 1];
        assert Ascii(name) <==> Ascii(name[1..]) by {
          assert forall i :: 0 <= i < |name| - 1 ==> name[1..][i] == name[i + 1];
        }
      } else {
        assert Utf8(name)[0] != name[0] || Utf8(name)[0] >= 0x80;
      }
    }
  }

  lemma {:induction false} Utf8Concat(a: Name, b: Name)
    ensures Utf8(a + b) == Utf8(a) + Utf8(b)
    decreases |a|
  {
    hide EncodeChar;
    if a == [] {
      assert a + b == b;
    } else {
      assert (a + b)[1..] == a[1..] + b;
      Utf8Concat(a[1..], b);
    }
  }

  /** The names the kernel treats specially are ASCII, so comparing bytes compares characters. */
  lemma SpecialNames(name: Name)
    ensures Utf8(name) == TRAILER <==> name == TRAILER
    ensures Utf8(name) == SELF <==> name == SELF
  {
    AsciiBytes(name);
    assert forall i :: 0 <= i < |TRAILER| ==> TRAILER[i] < 0x80;
    assert Ascii(TRAILER) && Ascii(SELF);
    AsciiBytes(TRAILER);
    AsciiBytes(SELF);
  }

  // ---------------------------------------------------------------------------------------
  // Hexadecimal fields
  // ---------------------------------------------------------------------------------------

  function HexDigit(d: int): byte
    requires 0 <= d < 16
  {
    if d < 10 then 48 + d else 87 + d
  }

  /** The low `n` hexadecimal digits of `v`, lower case, zero padded. */
  function Hex(v: nat, n: nat): (s: Str)
    ensures |s| == n && NoNul(s)
  {
    if n == 0 then [] else Hex(v / 16, n - 1) + [HexDigit(v % 16)]
  }

  function DigitValue(c: byte): Option<nat> {
    if 48 <= c <= 57 then Some(c - 48)
    else if 97 <= c <= 102 then Some(c - 87)
    else if 65 <= c <= 70 then Some(c - 55)
    else None
  }

  lemma DigitValues(c: byte)
    ensures DigitValue(c)
            == if 48 <= c <= 57 then Some(c as int - 48) else if 97 <= c <= 102 then Some(c as int - 97 + 10)
               else if 65 <= c <= 70 then Some(c as int - 65 + 10) else None
  {
  }

  /** Value of a digit string in 32-bit arithmetic, if all its bytes are digits. */
  function HexValue(s: Str): (r: Option<nat>)
    ensures r.Some? ==> r.value < 0x1_0000_0000
  {
    if s == [] then Some(0)
    else
      match (HexValue(DropLast(s)), DigitValue(Last(s)))
      case (Some(v), Some(d)) => Some(v * 16 % 0x1_0000_0000 + d)
      case _ => None
  }

  lemma EmptyHex(text: Str)
    ensures HexValue(text[..0]) == Some(0)
  {
  }

  lemma HexStep(text: Str, i: nat)
    requires i < |text|
    ensures HexValue(text[..i + 1])
            == match (HexValue(text[..i]), DigitValue(text[i]))
               case (Some(v), Some(d)) => Some(v * 16 % 0x1_0000_0000 + d)
               case _ => None
  {
    assert DropLast(text[..i + 1]) == text[..i];
  }

  method ParseHex(text: Str) returns (r: Option<nat>)
    ensures r == HexValue(text)
  {
    hide HexValue;
    EmptyHex(text);
    var value: nat := 0;
    var i := 0;
    while i < |text|
      invariant 0 <= i <= |text| && 0 <= value < 0x1_0000_0000
      invariant HexValue(text[..i]) == Some(value)
    {
      var c := text[i];
      HexStep(text, i);
      value := value * 16 % 0x1_0000_0000;
      if 48 <= c <= 57 {
        value := value + (c - 48);
      } else if 97 <= c <= 102 {
        value := value + (c - 97 + 10);
      } else if 65 <= c <= 70 {
        value := value + (c - 65 + 10);
      } else {
        BadDigit(text, i);
        return None;
      }
      i := i + 1;
    }
    assert text[..i] == text;
    return Some(value);
  }

  lemma {:induction false} BadDigit(s: Str, i: nat)
    requires i < |s| && DigitValue(s[i]) == None
    ensures HexValue(s) == None
    decreases |s|
  {
    if i < |s| - 1 {
      BadDigit(DropLast(s), i);
    }
  }

  function Pow16(n: nat): nat {
    if n == 0 then 1 else 16 * Pow16(n - 1)
  }

  lemma {:induction false} HexRoundTrip(v: nat, n: nat)
    requires v < Pow16(n) && v < 0x1_0000_0000
    ensures HexValue(Hex(v, n)) == Some(v)
    decreases n
  {
    if n > 0 {
      OneDigit(v, Pow16(n - 1));
      HexRoundTrip(v / 16, n - 1);
      assert DropLast(Hex(v, n)) == Hex(v / 16, n - 1);
      assert DigitValue(HexDigit(v % 16)) == Some(v % 16);
    }
  }

  /** Small values leave zero digits at the front. */
  lemma {:induction false} HexZeros(v: nat, n: nat, k: nat)
    requires k <= n && v < Pow16(n - k)
    ensures forall i :: 0 <= i < k ==> Hex(v, n)[i] == 48
    decreases n
  {
    if k == n && n > 0 {
      HexZeros(0, n - 1, n - 1);
    } else if k > 0 {
      HexZeros(v / 16, n - 1, k);
    }
  }

  lemma {:induction false} ZeroText(s: Str)
    requires forall i :: 0 <= i < |s| ==> s[i] == 48
    ensures HexValue(s) == Some(0)
  {
    if s != [] {
      ZeroText(DropLast(s));
    }
  }

  lemma OneDigit(v: nat, p: nat)
    requires v < 16 * p && v < 0x1_0000_0000
    ensures v / 16 < p && v / 16 * 16 % 0x1_0000_0000 + v % 16 == v
  {
  }

  // ---------------------------------------------------------------------------------------
  // Writer
  // ---------------------------------------------------------------------------------------

  function Align4(x: nat): (r: nat)
    ensures x <= r < x + 4 && r % 4 == 0
  {
    (x + 3) / 4 * 4
  }

  function HexAll(vs: seq<nat>): (h: Str)
    ensures |h| == 8 * |vs|
  {
    if vs == [] then [] else Hex(vs[0], 8) + HexAll(vs[1..])
  }

  /** Magic, then ino, mode, uid, gid, nlink, mtime, filesize, four device numbers, namesize
      and checksum. */
  function Header(mode: nat, size: nat, nameSize: nat): (h: Str)
    ensures |h| == HEADER_SIZE
  {
    MAGIC + HexAll([0, mode, 0, 0, 1, 0, size, 0, 0, 0, 0, nameSize, 0])
  }

  /** The name size counts characters, while the name is written in bytes. */
  function EntryBytes(name: Name, mode: nat, data: Str): (s: Str)
    ensures |s| == Align4(HEADER_SIZE + |name| + 1) + Excess(name) + Align4(|data|)
  {
    var namesz := |name| + 1;
    Header(mode, |data|, namesz) + (Utf8(name) + [0]) + Zeros(Align4(110 + namesz) - (110 + namesz))
    + data + Zeros(Align4(|data|) - |data|)
  }

  /** One file or directory of the tree being packed; `name` is its path relative to the root. */
  datatype Entry = Entry(name: Name, isDir: bool, data: Str)

  /** What the reader recovers from one archive entry. */
  datatype Raw = Raw(name: Str, mode: nat, data: Str)

  function RawOf(e: Entry): Raw {
    Raw(Utf8(e.name), ModeOf(e), DataOf(e))
  }

  function ModeOf(e: Entry): nat {
    if e.isDir then DIR_MODE else FILE_MODE
  }

  function DataOf(e: Entry): Str {
    if e.isDir then [] else e.data
  }

  function BytesOf(e: Entry): Str {
    EntryBytes(e.name, ModeOf(e), DataOf(e))
  }

  function Raws(entries: seq<Entry>): seq<Raw> {
    if entries == [] then [] else [RawOf(entries[0])] + Raws(entries[1..])
  }

  function BodyBytes(entries: seq<Entry>): Str {
    if entries == [] then []
    else BytesOf(entries[0]) + BodyBytes(entries[1..])
  }

  function Archive(entries: seq<Entry>): Str {
    EntryBytes(SELF, DIR_MODE, []) + BodyBytes(entries) + EntryBytes(TRAILER, 0, [])
  }

  class ArchiveWriter {
    var out: Str

    constructor ()
      ensures out == []
    {
      out := [];
    }

    method WriteEntry(name: Name, mode: nat, data: Str)
      modifies this
      ensures out == old(out) + EntryBytes(name, mode, data)
    {
      var namesz := |name| + 1;
      out := out + Header(mode, |data|, namesz);
      out := out + (Utf8(name) + [0]);
      out := out + Zeros(Align4(110 + namesz) - (110 + namesz));
      out := out + data;
      out := out + Zeros(Align4(|data|) - |data|);
      WrittenInPieces(old(out), Header(mode, |data|, namesz), Utf8(name) + [0],
                      Zeros(Align4(110 + namesz) - (110 + namesz)), data, Zeros(Align4(|data|) - |data|));
    }

    method EmitTree(entries: seq<Entry>)
      modifies this
      ensures out == old(out) + Archive(entries)
    {
      hide EntryBytes, BodyBytes, Utf8;
      WriteEntry(SELF, DIR_MODE, []);
      ghost var start := out;
      var i := 0;
      EmptyBody(entries);
      while i < |entries|
        invariant 0 <= i <= |entries|
        invariant out == start + BodyBytes(entries[..i])
      {
        BodySnoc(entries, i);
        if entries[i].isDir {
          WriteEntry(entries[i].name, DIR_MODE, []);
        } else {
          WriteEntry(entries[i].name, FILE_MODE, entries[i].data);
        }
        i := i + 1;
      }
      assert entries[..i] == entries;
      WriteEntry(TRAILER, 0, []);
    }
  }

  lemma EmptyBody(entries: seq<Entry>)
    ensures BodyBytes(entries[..0]) == []
  {
  }

  lemma WrittenInPieces(out: Str, h: Str, n: Str, p: Str, d: Str, q: Str)
    ensures out + h + n + p + d + q == out + (h + n + p + d + q)
  {
  }

  lemma {:induction false} BodySnoc(entries: seq<Entry>, i: nat)
    requires i < |entries|
    ensures BodyBytes(entries[..i + 1]) == BodyBytes(entries[..i]) + BytesOf(entries[i])
    decreases i
  {
    hide BytesOf;
    if i == 0 {
      assert entries[..1][1..] == [] && entries[..0] == [];
    } else {
      BodySnoc(entries[1..], i - 1);
      assert entries[..i + 1][1..] == entries[1..][..i];
      assert entries[..i][1..] == entries[1..][..i - 1];
    }
  }

  // ---------------------------------------------------------------------------------------
  // Reader
  // ---------------------------------------------------------------------------------------

  /** `(x + 3) & ~3U` in 32-bit arithmetic. */
  function Align4U(x: nat): (r: nat)
    ensures x <= 0xFFFF_FFFC ==> x <= r < x + 4
  {
    (x + 3) % 0x1_0000_0000 / 4 * 4
  }

  function Drop(s: Str, k: nat): Str {
    if k <= |s| then s[k..] else []
  }

  /** A header field; a malformed one leaves the kernel's zero in place. */
  function Field(s: Str, at: nat): (v: nat)
    requires at + 8 <= |s|
    ensures v < 0x1_0000_0000
  {
    match HexValue(s[at..at + 8])
    case Some(v) => v
    case None => 0
  }

  /** How one entry at the front of `s` is read. */
  datatype Reading = Stop(code: int) | Skip(next: nat) | Item(raw: Raw, next: nat)

  function ReadEntry(s: Str): (r: Reading)
    requires |s| <= 0xFFFF_FFF0
    ensures r.Skip? || r.Item? ==> r.next >= HEADER_SIZE && |s| >= HEADER_SIZE
    ensures r.Item? ==> |r.raw.data| <= |s|
  {
    if |s| < HEADER_SIZE then Stop(0)
    else if s[..6] != MAGIC then Stop(-EINVAL)
    else
      var mode, size, nameSize := Field(s, 14), Field(s, 54), Field(s, 94);
      var name := CString(s, HEADER_SIZE);
      if nameSize == 0 || HEADER_SIZE + nameSize > |s| then Stop(-EINVAL)
      else if name == TRAILER then Stop(0)
      else
        var at := Align4U(HEADER_SIZE + nameSize);
        if name == SELF then Skip(at + Align4U(size))
        else if at + size > |s| then Stop(-EINVAL)
        else Item(Raw(name, mode, s[at..at + size]), at + Align4U(size))
  }

  /** The entries of an archive, in order, and the status the reader ends with. */
  function Parse(s: Str): (r: (seq<Raw>, int))
    requires |s| <= 0xFFFF_FFF0
    decreases |s|
  {
    match ReadEntry(s)
    case Stop(code) => ([], code)
    case Skip(next) => Parse(Drop(s, next))
    case Item(raw, next) => var (rest, code) := Parse(Drop(s, next)); ([raw] + rest, code)
  }

  lemma {:induction false} HexAllAt(vs: seq<nat>, k: nat)
    requires k < |vs|
    ensures HexAll(vs)[8 * k..8 * k + 8] == Hex(vs[k], 8)
    decreases k
  {
    hide Hex;
    var h, t := Hex(vs[0], 8), HexAll(vs[1..]);
    if k == 0 {
      assert (h + t)[0..8] == h;
    } else {
      HexAllAt(vs[1..], k - 1);
      assert (h + t)[8 * k..8 * k + 8] == t[8 * (k - 1)..8 * (k - 1) + 8];
    }
  }

  /** The `k`-th field of a header at the front of `s`. */
  lemma HeaderField(s: Str, vs: seq<nat>, k: nat)
    requires |s| >= HEADER_SIZE && |vs| == 13 && s[..HEADER_SIZE] == MAGIC + HexAll(vs)
    requires k < 13 && vs[k] < 0x1_0000_0000
    ensures Field(s, 6 + 8 * k) == vs[k]
  {
    hide Hex, HexAll, HexValue;
    HexAllAt(vs, k);
    var at := 6 + 8 * k;
    SliceOfSlice(s, 0, HEADER_SIZE, at, at + 8);
    assert (MAGIC + HexAll(vs))[at..at + 8] == HexAll(vs)[8 * k..8 * k + 8];
    assert Pow16(8) == 0x1_0000_0000 by { assert Pow16(4) == 0x1_0000; }
    HexRoundTrip(vs[k], 8);
  }

  /** The header of an entry, field by field: "070701", then thirteen numbers of eight hexadecimal
      digits, all 0 but the mode (second), link count (fifth, 1), file size (seventh) and name
      size (twelfth). */
  lemma HeaderMeans(mode: nat, size: nat, nameSize: nat, k: nat)
    requires k < 13 && mode < 0x1_0000_0000 && size < 0x1_0000_0000 && nameSize < 0x1_0000_0000
    ensures var h := Header(mode, size, nameSize);
            && |h| == 110 && h[..6] == [48, 55, 48, 55, 48, 49]
            && HexValue(h[6 + 8 * k..14 + 8 * k])
               == Some(if k == 1 then mode else if k == 4 then 1 else if k == 6 then size
                       else if k == 11 then nameSize else 0)
  {
    hide Hex, HexAll, HexValue;
    var vs: seq<nat> := [0, mode, 0, 0, 1, 0, size, 0, 0, 0, 0, nameSize, 0];
    var h := Header(mode, size, nameSize);
    assert h == MAGIC + HexAll(vs) && h[..6] == MAGIC;
    HexAllAt(vs, k);
    assert h[6 + 8 * k..14 + 8 * k] == HexAll(vs)[8 * k..8 * k + 8];
    assert Pow16(8) == 0x1_0000_0000 by { assert Pow16(4) == 0x1_0000; }
    HexRoundTrip(vs[k], 8);
  }

  /** Directories are packed with mode 040755 and no data, files with mode 0100755. */
  lemma ModesPacked(e: Entry)
    ensures RawOf(e) == if e.isDir then Raw(Utf8(e.name), 0x41ED, []) else Raw(Utf8(e.name), 0x81ED, e.data)
  {
  }

  /** A field with anything but digits in it counts as 0. */
  lemma BadFieldIsZero(s: Str, at: nat, i: nat)
    requires at + 8 <= |s| && at <= i < at + 8
    requires !(48 <= s[i] <= 57 || 65 <= s[i] <= 70 || 97 <= s[i] <= 102)
    ensures Field(s, at) == 0
  {
    hide HexValue;
    assert s[at..at + 8][i - at] == s[i];
    BadDigit(s[at..at + 8], i - at);
  }

  /** Every outcome of reading what lies at the cursor: the end of the archive and a trailer end
      the reading with 0, a broken header or sizes beyond the end with EINVAL; "." is skipped. */
  lemma EntryOutcome(s: Str)
    requires |s| <= 0xFFFF_FFF0
    ensures var r := ReadEntry(s);
            if |s| < 110 then r == Stop(0)
            else if s[..6] != [48, 55, 48, 55, 48, 49] then r == Stop(-22)
            else
              var mode, size, nameSize, name := Field(s, 14), Field(s, 54), Field(s, 94), CString(s, 110);
              var at := Align4(110 + nameSize);
              if nameSize == 0 || 110 + nameSize > |s| then r == Stop(-22)
              else if name == [84, 82, 65, 73, 76, 69, 82, 33, 33, 33] then r == Stop(0)
              else if name == [46] then
                r == Skip(at + if size <= 0xFFFF_FFFC then Align4(size) else 0)
              else if at + size > |s| then r == Stop(-22)
              else r == Item(Raw(name, mode, s[at..at + size]), at + Align4(size))
  {
    hide Field, CString, Align4, Align4U;
    if |s| >= 110 {
      AlignAgrees(110 + Field(s, 94));
      AlignAgrees(Field(s, 54));
    }
  }

  /** Slices of an entry followed by more archive. */
  lemma EntryLayout(name: Name, mode: nat, data: Str, more: Str)
    ensures var s := EntryBytes(name, mode, data) + more;
            var end := HEADER_SIZE + |Utf8(name)|;
            var at := Align4(HEADER_SIZE + |name| + 1) + Excess(name);
            && |s| >= at + Align4(|data|) && end < |s|
            && s[..HEADER_SIZE] == Header(mode, |data|, |name| + 1)
            && s[HEADER_SIZE..end] == Utf8(name) && s[end] == 0
            && s[at..at + |data|] == data
            && s[at + Align4(|data|)..] == more
  {
    hide Header, Align4, Utf8;
  }

  /** The kernel's view of a written entry. It takes the data where the name would end if its
      characters were bytes, and goes on from there. */
  lemma EntryReads(name: Name, mode: nat, data: Str, more: Str)
    requires NoNul(Utf8(name)) && mode < 0x1_0000_0000
    requires |EntryBytes(name, mode, data) + more| <= 0xFFFF_FFF0
    ensures var s := EntryBytes(name, mode, data) + more;
            var at := Align4(HEADER_SIZE + |name| + 1);
            var next := at + Align4(|data|);
            && next + Excess(name) == |EntryBytes(name, mode, data)| && s[next + Excess(name)..] == more
            && ReadEntry(s)
               == (if name == [84, 82, 65, 73, 76, 69, 82, 33, 33, 33] then Stop(0)
                   else if name == [46] then Skip(next)
                   else Item(Raw(Utf8(name), mode, s[at..at + |data|]), next))
  {
    hide EntryBytes, Header, Hex, HexValue, Field, ReadEntry, Align4, Utf8;
    var s := EntryBytes(name, mode, data) + more;
    EntryLayout(name, mode, data, more);
    SpecialNames(name);
    HeaderFields(s, mode, |data|, |name| + 1);
    CStringReads(s, HEADER_SIZE, Utf8(name));
    ReadsFields(s, Utf8(name), |name| + 1, mode, |data|);
  }

  /** An entry reads back as it was written, with the cursor where the writer stopped, if and
      only if its name is ASCII. */
  lemma ReadsBack(name: Name, mode: nat, data: Str, more: Str)
    requires NoNul(Utf8(name)) && name != TRAILER && name != SELF && mode < 0x1_0000_0000
    requires |EntryBytes(name, mode, data) + more| <= 0xFFFF_FFF0
    ensures ReadEntry(EntryBytes(name, mode, data) + more)
            == Item(Raw(Utf8(name), mode, data), |EntryBytes(name, mode, data)|)
            <==> Ascii(name)
  {
    hide EntryBytes, Header, ReadEntry, Align4, Utf8;
    EntryReads(name, mode, data, more);
    EntryLayout(name, mode, data, more);
    AsciiBytes(name);
  }

  lemma ReadsFields(s: Str, name: Str, nameSize: nat, mode: nat, size: nat)
    requires |s| <= 0xFFFF_FFF0 && 0 < nameSize && HEADER_SIZE + nameSize <= |s|
    requires Align4(HEADER_SIZE + nameSize) + Align4(size) <= |s|
    requires s[..6] == MAGIC && Field(s, 14) == mode && Field(s, 54) == size && Field(s, 94) == nameSize
    requires CString(s, HEADER_SIZE) == name
    ensures var at := Align4(HEADER_SIZE + nameSize);
            ReadEntry(s)
            == (if name == TRAILER then Stop(0)
                else if name == SELF then Skip(at + Align4(size))
                else Item(Raw(name, mode, s[at..at + size]), at + Align4(size)))
  {
    hide Field, CString, Align4, Align4U;
    AlignAgrees(HEADER_SIZE + nameSize);
    AlignAgrees(size);
  }

  /** The 32-bit rounding of the kernel agrees with Python's on everything below 2^32 - 3, where it
      wraps to 0. */
  lemma AlignAgrees(x: nat)
    ensures x <= 0xFFFF_FFFC ==> Align4U(x) == Align4(x)
    ensures 0xFFFF_FFFD <= x <= 0xFFFF_FFFF ==> Align4U(x) == 0
  {
  }

  lemma HeaderFields(s: Str, mode: nat, size: nat, nameSize: nat)
    requires |s| >= HEADER_SIZE && mode < 0x1_0000_0000 && size < 0x1_0000_0000 && nameSize < 0x1_0000_0000
    requires s[..HEADER_SIZE] == Header(mode, size, nameSize)
    ensures s[..6] == MAGIC && Field(s, 14) == mode && Field(s, 54) == size && Field(s, 94) == nameSize
  {
    hide HexAll, Field;
    var vs := [0, mode, 0, 0, 1, 0, size, 0, 0, 0, 0, nameSize, 0];
    HeaderField(s, vs, 1);
    HeaderField(s, vs, 6);
    HeaderField(s, vs, 11);
    assert s[..6] == s[..HEADER_SIZE][..6] == (MAGIC + HexAll(vs))[..6] == MAGIC;
  }

  // ---------------------------------------------------------------------------------------
  // A reader that has drifted
  // ---------------------------------------------------------------------------------------

  /** The four device fields of a header and the top of its name size are the digit 0. */
  lemma ZeroStretch(mode: nat, size: nat, nameSize: nat)
    requires nameSize < 0x100_0000
    ensures forall i :: 62 <= i < 96 ==> Header(mode, size, nameSize)[i] == 48
  {
    hide Hex, HexAll;
    var vs := [0, mode, 0, 0, 1, 0, size, 0, 0, 0, 0, nameSize, 0];
    var all := HexAll(vs);
    HexZeros(0, 8, 8);
    assert Pow16(6) == 0x100_0000 by { assert Pow16(3) == 0x1000; }
    HexZeros(nameSize, 8, 2);
    HexAllAt(vs, 7);
    HexAllAt(vs, 8);
    HexAllAt(vs, 9);
    HexAllAt(vs, 10);
    HexAllAt(vs, 11);
    forall i | 62 <= i < 96 ensures (MAGIC + all)[i] == 48 {
      var k := (i - 6) / 8;
      assert all[i - 6] == all[8 * k..8 * k + 8][i - 6 - 8 * k];
    }
  }

  /** No tail of the magic is also a head of it, so a reader that starts a few bytes early sees
      a broken header. */
  lemma MagicHasNoBorder(t: Str, e: nat)
    requires 0 < e < 6 && |t| >= e + 6 && t[e..e + 6] == MAGIC
    ensures t[..6] != MAGIC
  {
    var k := if e % 2 == 1 then e else 5;
    assert t[..6][k] == t[k] == t[e..e + 6][k - e] != MAGIC[k];
  }

  /** Reading up to 32 bytes too early always fails: either the magic does not match or the name
      size read comes out of the zero fields. */
  lemma DriftStops(early: Str, name: Name, mode: nat, data: Str, more: Str)
    requires 0 < |early| <= 32 && |name| < 0xFF_FFFF
    requires |early + (EntryBytes(name, mode, data) + more)| <= 0xFFFF_FFF0
    ensures ReadEntry(early + (EntryBytes(name, mode, data) + more)) == Stop(-EINVAL)
  {
    hide EntryBytes, Header, Utf8, Align4, Align4U, HexValue, CString;
    var e, rest := |early|, EntryBytes(name, mode, data) + more;
    var t, h := early + rest, Header(mode, |data|, |name| + 1);
    EntryLayout(name, mode, data, more);
    assert forall i :: 0 <= i < HEADER_SIZE ==> t[e + i] == rest[..HEADER_SIZE][i] == h[i];
    if t[..6] == MAGIC {
      if e < 6 {
        HeaderMagic(mode, |data|, |name| + 1);
        assert t[e..e + 6] == h[..6];
        MagicHasNoBorder(t, e);
      } else {
        ZeroStretch(mode, |data|, |name| + 1);
        ZeroText(t[94..102]);
        assert Field(t, 94) == 0;
      }
    }
  }

  lemma HeaderMagic(mode: nat, size: nat, nameSize: nat)
    ensures Header(mode, size, nameSize)[..6] == MAGIC
  {
    hide HexAll;
  }

  // ---------------------------------------------------------------------------------------
  // The round trip
  // ---------------------------------------------------------------------------------------

  /** Names of real files: without NUL, and never the root's own. */
  predicate Legible(entries: seq<Entry>) {
    forall i :: 0 <= i < |entries| ==> NoNul(Utf8(entries[i].name)) && entries[i].name != SELF
  }

  predicate AllAscii(entries: seq<Entry>) {
    forall i :: 0 <= i < |entries| ==> Ascii(entries[i].name)
  }

  predicate NoTrailer(entries: seq<Entry>) {
    forall i :: 0 <= i < |entries| ==> entries[i].name != TRAILER
  }

  /** Every name is ASCII up to the first that is the trailer's. */
  predicate AsciiToTrailer(entries: seq<Entry>) {
    entries == [] || entries[0].name == TRAILER || (Ascii(entries[0].name) && AsciiToTrailer(entries[1..]))
  }

  lemma {:induction false} AsciiWithoutTrailer(entries: seq<Entry>)
    requires NoTrailer(entries)
    ensures AsciiToTrailer(entries) <==> AllAscii(entries)
  {
    hide Ascii;
    if entries != [] {
      OneMore(entries);
      AsciiWithoutTrailer(entries[1..]);
    }
  }

  lemma OneMore(entries: seq<Entry>)
    requires entries != []
    ensures AllAscii(entries) <==> Ascii(entries[0].name) && AllAscii(entries[1..])
    ensures NoTrailer(entries) <==> entries[0].name != TRAILER && NoTrailer(entries[1..])
  {
    hide Ascii;
    assert entries == [entries[0]] + entries[1..];
  }

  /** The first name that is not ASCII, if there is one, has at most 32 bytes more than
      characters, and no huge name follows it. */
  predicate Steady(entries: seq<Entry>) {
    entries == []
    || if Ascii(entries[0].name) then Steady(entries[1..])
       else Excess(entries[0].name) <= 32 && (|entries| > 1 ==> |entries[1].name| < 0xFF_FFFF)
  }

  lemma {:induction false} AsciiSteady(entries: seq<Entry>)
    requires AllAscii(entries)
    ensures Steady(entries)
  {
    if entries != [] {
      AsciiSteady(entries[1..]);
    }
  }

  /** The reader inverts the writer, recovering every packed entry in order and succeeding, if
      and only if all names are ASCII and none is the trailer's. The status is success if and
      only if the names up to the first trailer are ASCII. Whatever is read comes under the
      right names. */
  lemma ParseInvertsArchive(entries: seq<Entry>)
    requires Legible(entries) && Steady(entries) && |Archive(entries)| <= 0xFFFF_FFF0
    ensures Parse(Archive(entries)) == (Raws(entries), 0) <==> AllAscii(entries) && NoTrailer(entries)
    ensures Parse(Archive(entries)).1 == 0 <==> AsciiToTrailer(entries)
    ensures NamesRead(Parse(Archive(entries)).0, entries)
  {
    hide EntryBytes, ReadEntry, Parse, Steady, Legible, AllAscii, NoTrailer, AsciiToTrailer, NamesRead, Archive;
    RootSkipped(entries);
    ParseBody(entries);
  }

  predicate NamesRead(raws: seq<Raw>, entries: seq<Entry>) {
    |raws| <= |entries| && forall i :: 0 <= i < |raws| ==> raws[i].name == Utf8(entries[i].name)
  }

  function End(): Str {
    EntryBytes(TRAILER, 0, [])
  }

  lemma RootSkipped(entries: seq<Entry>)
    requires |Archive(entries)| <= 0xFFFF_FFF0
    ensures Parse(Archive(entries)) == Parse(BodyBytes(entries) + End()) && |BodyBytes(entries) + End()| <= 0xFFFF_FFF0
  {
    hide EntryBytes, ReadEntry, BodyBytes, Utf8, Excess, NoNul, Align4;
    var more := BodyBytes(entries) + End();
    assert Archive(entries) == EntryBytes(SELF, DIR_MODE, []) + more;
    SelfIsAscii();
    EntryReads(SELF, DIR_MODE, [], more);
  }

  lemma SelfIsAscii()
    ensures NoNul(Utf8(SELF)) && Excess(SELF) == 0 && NoNul(Utf8(TRAILER)) && Excess(TRAILER) == 0
  {
    hide Utf8, Excess;
    assert Ascii(SELF) && Ascii(TRAILER);
    AsciiBytes(SELF);
    AsciiBytes(TRAILER);
  }

  /** The trailer entry ends any archive. */
  lemma EndStops()
    ensures Parse(End()) == ([], 0)
  {
    hide EntryBytes, ReadEntry;
    SelfIsAscii();
    EndSize();
    assert End() + [] == End();
    EntryReads(TRAILER, 0, [], []);
  }

  lemma EndSize()
    ensures |End()| == 124
  {
    hide EntryBytes, Utf8, Excess;
    assert Align4(HEADER_SIZE + |TRAILER| + 1) == 124 && Align4(0) == 0;
    SelfIsAscii();
  }

  /** What reading should yield, from the names alone. */
  predicate Verdict(entries: seq<Entry>, raws: seq<Raw>, code: int) {
    && ((raws == Raws(entries) && code == 0) <==> AllAscii(entries) && NoTrailer(entries))
    && (code == 0 <==> AsciiToTrailer(entries))
    && NamesRead(raws, entries)
  }

  lemma {:induction false} ParseBody(entries: seq<Entry>)
    requires Legible(entries) && Steady(entries) && |BodyBytes(entries) + End()| <= 0xFFFF_FFF0
    ensures var (raws, code) := Parse(BodyBytes(entries) + End()); Verdict(entries, raws, code)
    decreases |entries|
  {
    hide Parse, BytesOf, Utf8, Ascii, AllAscii, NoTrailer, AsciiToTrailer, Legible, NamesRead, Verdict, Excess, End,
         EntryBytes, NoNul, RawOf;
    if entries == [] {
      assert BodyBytes(entries) + End() == End();
      EndStops();
      NothingToRead();
    } else {
      var e, rest := entries[0], entries[1..];
      var more := BodyBytes(rest) + End();
      assert BodyBytes(entries) + End() == BytesOf(e) + more;
      var (raws, code) := Parse(BytesOf(e) + more);
      LegibleFirst(entries);
      FirstRead(e, more);
      AsciiBytes(e.name);
      if e.name != TRAILER && Ascii(e.name) {
        ParseBody(rest);
        VerdictGoesOn(entries, Parse(more).0, code);
      } else {
        if e.name != TRAILER {
          Drifted(e, rest);
        }
        VerdictStops(entries, raws, code);
      }
    }
  }

  lemma NothingToRead()
    ensures Verdict([], [], 0)
  {
  }

  lemma LegibleFirst(entries: seq<Entry>)
    requires Legible(entries) && entries != []
    ensures Legible(entries[1..]) && NoNul(Utf8(entries[0].name)) && entries[0].name != SELF
  {
    hide Utf8, NoNul;
  }

  lemma VerdictGoesOn(entries: seq<Entry>, raws: seq<Raw>, code: int)
    requires entries != [] && entries[0].name != TRAILER && Ascii(entries[0].name) && Verdict(entries[1..], raws, code)
    ensures Verdict(entries, [RawOf(entries[0])] + raws, code)
  {
    hide Ascii, Utf8;
    var e, rest, all := entries[0], entries[1..], [RawOf(entries[0])] + raws;
    OneMore(entries);
    assert entries == [e] + rest && all[1..] == raws;
    assert Raws(entries) == [RawOf(e)] + Raws(rest) && Raws(entries)[1..] == Raws(rest);
  }

  lemma VerdictStops(entries: seq<Entry>, raws: seq<Raw>, code: int)
    requires entries != []
    requires if entries[0].name == TRAILER then raws == [] && code == 0
             else !Ascii(entries[0].name) && code != 0 && |raws| == 1 && raws[0].name == Utf8(entries[0].name)
    ensures Verdict(entries, raws, code)
  {
    hide Ascii, Utf8;
    OneMore(entries);
    assert raws == [] ==> raws != Raws(entries);
  }

  /** How the first entry of a body is read. */
  lemma FirstRead(e: Entry, more: Str)
    requires NoNul(Utf8(e.name)) && e.name != SELF && |BytesOf(e) + more| <= 0xFFFF_FFF0
    ensures e.name == TRAILER ==> Parse(BytesOf(e) + more) == ([], 0)
    ensures e.name != TRAILER && Ascii(e.name) ==>
              var (rest, code) := Parse(more); Parse(BytesOf(e) + more) == ([RawOf(e)] + rest, code)
  {
    hide EntryBytes, ReadEntry, Utf8, Align4;
    EntryReads(e.name, ModeOf(e), DataOf(e), more);
    if e.name != TRAILER && Ascii(e.name) {
      ReadsBackIfAscii(e, more);
    }
  }

  lemma ReadsBackIfAscii(e: Entry, more: Str)
    requires NoNul(Utf8(e.name)) && e.name != SELF && e.name != TRAILER && Ascii(e.name)
    requires |BytesOf(e) + more| <= 0xFFFF_FFF0
    ensures ReadEntry(BytesOf(e) + more) == Item(RawOf(e), |BytesOf(e)|)
            && Drop(BytesOf(e) + more, |BytesOf(e)|) == more
  {
    hide EntryBytes, ReadEntry, Utf8, Align4;
    ReadsBack(e.name, ModeOf(e), DataOf(e), more);
    EntryReads(e.name, ModeOf(e), DataOf(e), more);
    AsciiBytes(e.name);
  }

  /** After an entry whose name is not ASCII nothing more is read. */
  lemma Drifted(e: Entry, rest: seq<Entry>)
    requires NoNul(Utf8(e.name)) && e.name != SELF && e.name != TRAILER
    requires 0 < Excess(e.name) <= 32 && (rest != [] ==> |rest[0].name| < 0xFF_FFFF)
    requires |BytesOf(e) + (BodyBytes(rest) + End())| <= 0xFFFF_FFF0
    ensures var (raws, code) := Parse(BytesOf(e) + (BodyBytes(rest) + End()));
            code == -EINVAL && |raws| == 1 && raws[0].name == Utf8(e.name)
  {
    hide EntryBytes, ReadEntry, Utf8, Align4;
    var more := BodyBytes(rest) + End();
    var s := BytesOf(e) + more;
    EntryReads(e.name, ModeOf(e), DataOf(e), more);
    var next := |BytesOf(e)| - Excess(e.name);
    var early := s[next..|BytesOf(e)|];
    assert Drop(s, next) == early + more;
    DriftedNext(early, rest);
  }

  lemma DriftedNext(early: Str, rest: seq<Entry>)
    requires 0 < |early| <= 32 && (rest != [] ==> |rest[0].name| < 0xFF_FFFF)
    requires |early + (BodyBytes(rest) + End())| <= 0xFFFF_FFF0
    ensures Parse(early + (BodyBytes(rest) + End())) == ([], -EINVAL)
  {
    hide EntryBytes, ReadEntry, Utf8, Align4;
    if rest == [] {
      assert BodyBytes(rest) + End() == End() + [];
      DriftStops(early, TRAILER, 0, [], []);
    } else {
      var after := BodyBytes(rest[1..]) + End();
      assert BodyBytes(rest) + End() == BytesOf(rest[0]) + after;
      DriftStops(early, rest[0].name, ModeOf(rest[0]), DataOf(rest[0]), after);
    }
  }

  /** A root-level file or directory called "TRAILER!!!" ends the mount early: it and everything
      after it is lost, although the reader reports success. */
  lemma {:induction false} TrailerNameTruncates(before: seq<Entry>, e: Entry, after: seq<Entry>)
    requires Legible(before) && AllAscii(before) && NoTrailer(before) && e.name == TRAILER
    requires |Archive(before + [e] + after)| <= 0xFFFF_FFF0
    ensures Parse(Archive(before + [e] + after)) == (Raws(before), 0)
  {
    hide EntryBytes, ReadEntry, BodyBytes;
    RootSkipped(before + [e] + after);
    TruncatedBody(before, e, after);
  }

  lemma {:induction false} TruncatedBody(before: seq<Entry>, e: Entry, after: seq<Entry>)
    requires Legible(before) && AllAscii(before) && NoTrailer(before) && e.name == TRAILER
    requires |BodyBytes(before + [e] + after) + End()| <= 0xFFFF_FFF0
    ensures Parse(BodyBytes(before + [e] + after) + End()) == (Raws(before), 0)
    decreases |before|
  {
    hide EntryBytes, ReadEntry, Utf8, Ascii;
    var all := before + [e] + after;
    var more := BodyBytes(all[1..]) + End();
    assert BodyBytes(all) + End() == BytesOf(all[0]) + more;
    SelfIsAscii();
    FirstRead(all[0], more);
    if before != [] {
      assert all[1..] == before[1..] + [e] + after;
      TruncatedBody(before[1..], e, after);
    }
  }

  /** One file named with a single accented letter makes the mount fail. */
  lemma AccentFails(data: Str)
    requires |Archive([Entry([0xE9], false, data)])| <= 0xFFFF_FFF0
    ensures Parse(Archive([Entry([0xE9], false, data)])).1 != 0
  {
    hide Archive, Parse;
    var es := [Entry([0xE9], false, data)];
    assert Utf8([0xE9]) == EncodeChar(0xE9) + Utf8([0xE9][1..]) == [0xC3, 0xA9];
    assert !Ascii(es[0].name) && es[0].name != TRAILER && es[0].name != SELF;
    assert !AsciiToTrailer(es);
    ParseInvertsArchive(es);
  }
}
