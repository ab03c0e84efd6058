/**
 * Reading one file out of an npm tarball: the walk over the ustar blocks of the unpacked archive,
 * and archives laid out entry by entry as the ustar interchange format prescribes.
 */
module TarReader {
  import opened Options

  type byte = x: int | 0 <= x < 256

  /** A Unicode code point, and a path as a sequence of them. */
  type Point = x: int | 0 <= x < 0x11_0000

  type Path = seq<Point>

  datatype Fault = InvalidSize | TooLarge | Truncated | Unsafe | Missing

  datatype Outcome = Found(data: seq<byte>) | Failed(fault: Fault)

  // ---------------------------------------------------------------- fields

  function UpToNul(s: seq<byte>): seq<byte> {
    if s == [] || s[0] == 0 then [] else [s[0]] + UpToNul(s[1..])
  }

  /** A field's text: its bytes before the first NUL, or all of them. */
  function TarString(block: seq<byte>, start: nat, length: nat): seq<byte>
    requires start + length <= |block|
  {
    UpToNul(block[start..start + length])
  }

  // ---------------------------------------------------------------- text

  const Replacement: Point := 0xFFFD

  predicate Continues(s: seq<byte>, i: nat, low: byte, high: byte) {
    i < |s| && low <= s[i] <= high
  }

  /** How many bytes follow a leading byte, and which values the next one may have; none for no leading byte. */
  function Lead(b: byte): Option<(nat, byte, byte)> {
    if 0xC2 <= b <= 0xDF then Some((1, 0x80, 0xBF))
    else if b == 0xE0 then Some((2, 0xA0, 0xBF))
    else if b == 0xED then Some((2, 0x80, 0x9F))
    else if 0xE1 <= b <= 0xEF then Some((2, 0x80, 0xBF))
    else if b == 0xF0 then Some((3, 0x90, 0xBF))
    else if b == 0xF4 then Some((3, 0x80, 0x8F))
    else if 0xF1 <= b <= 0xF3 then Some((3, 0x80, 0xBF))
    else None
  }

  /** The first code point of a text and the bytes it takes; what is no UTF-8 becomes a replacement character. */
  function FirstPoint(s: seq<byte>): (r: (Point, nat))
    requires s != []
    ensures 1 <= r.1 <= |s|
  {
    var lead := Lead(s[0]);
    if s[0] < 0x80 then (s[0], 1)
    else if lead.None? || !Continues(s, 1, lead.value.1, lead.value.2) then (Replacement, 1)
    else if lead.value.0 == 1 then ((s[0] as int - 0xC0) * 64 + (s[1] as int - 0x80), 2)
    else if !Continues(s, 2, 0x80, 0xBF) then (Replacement, 2)
    else if lead.value.0 == 2 then
      ((s[0] as int - 0xE0) * 4096 + (s[1] as int - 0x80) * 64 + (s[2] as int - 0x80), 3)
    else if !Continues(s, 3, 0x80, 0xBF) then (Replacement, 3)
    else
      ((s[0] as int - 0xF0) * 262144 + (s[1] as int - 0x80) * 4096 + (s[2] as int - 0x80) * 64 + (s[3] as int - 0x80), 4)
  }

  /** `toString('utf8')`. */
  function Utf8(s: seq<byte>): Path
    decreases |s|
  {
    if s == [] then []
    else
      var (point, taken) := FirstPoint(s);
      [point] + Utf8(s[taken..])
  }

  /** ASCII texts are their bytes. */
  lemma {:induction false} AsciiIsItself(s: seq<byte>)
    requires forall i | 0 <= i < |s| :: s[i] < 0x80
    ensures Utf8(s) == s
    decreases |s|
  {
    if s != [] {
      AsciiIsItself(s[1..]);
    }
  }

  /** A code point that is no surrogate. */
  predicate Scalar(p: Point) {
    !(0xD800 <= p <= 0xDFFF)
  }

  /** RFC 3629, section 3: one to four bytes, by the size of the code point. */
  function Encoded(p: Point): (b: seq<byte>)
    requires Scalar(p)
    ensures b != []
  {
    if p < 0x80 then [p]
    else if p < 0x800 then [0xC0 + p / 64, 0x80 + p % 64]
    else if p < 0x1_0000 then [0xE0 + p / 4096, 0x80 + p / 64 % 64, 0x80 + p % 64]
    else [0xF0 + p / 262144, 0x80 + p / 4096 % 64, 0x80 + p / 64 % 64, 0x80 + p % 64]
  }

  function EncodedText(path: Path): seq<byte>
    requires forall p | p in path :: Scalar(p)
  {
    if path == [] then [] else Encoded(path[0]) + EncodedText(path[1..])
  }

  lemma SixBits(p: nat)
    ensures p == p / 64 * 64 + p % 64 && 0 <= p % 64 < 64
  {
  }

  lemma Sixes(p: nat)
    ensures p / 4096 == p / 64 / 64 && p / 262144 == p / 64 / 64 / 64
    ensures p == p / 4096 * 4096 + p / 64 % 64 * 64 + p % 64
    ensures p / 4096 == p / 262144 * 64 + p / 4096 % 64
  {
    SixBits(p);
    SixBits(p / 64);
    SixBits(p / 64 / 64);
  }

  lemma TwoBytes(s: seq<byte>, a: nat, b: nat)
    requires |s| >= 2 && 2 <= a < 32 && b < 64 && s[0] == 0xC0 + a && s[1] == 0x80 + b
    ensures FirstPoint(s) == (a * 64 + b, 2)
  {
  }

  lemma ThreeBytes(s: seq<byte>, a: nat, b: nat, c: nat)
    requires |s| >= 3 && a < 16 && b < 64 && c < 64 && s[0] == 0xE0 + a && s[1] == 0x80 + b && s[2] == 0x80 + c
    requires (a == 0 ==> b >= 32) && (a == 13 ==> b < 32)
    ensures FirstPoint(s) == (a * 4096 + b * 64 + c, 3)
  {
  }

  lemma FourBytes(s: seq<byte>, a: nat, b: nat, c: nat, d: nat)
    requires |s| >= 4 && a <= 4 && b < 64 && c < 64 && d < 64
    requires s[0] == 0xF0 + a && s[1] == 0x80 + b && s[2] == 0x80 + c && s[3] == 0x80 + d
    requires (a == 0 ==> b >= 16) && (a == 4 ==> b < 16)
    ensures FirstPoint(s) == (a * 262144 + b * 4096 + c * 64 + d, 4)
  {
  }

  lemma EncodedReads(p: Point, more: seq<byte>)
    requires Scalar(p)
    ensures FirstPoint(Encoded(p) + more) == (p, |Encoded(p)|)
  {
    hide FirstPoint;
    var s := Encoded(p) + more;
    SixBits(p);
    Sixes(p);
    if p < 0x80 {
      OneByte(s);
    } else if p < 0x800 {
      TwoBytes(s, p / 64, p % 64);
    } else if p < 0x1_0000 {
      ThreeBytes(s, p / 4096, p / 64 % 64, p % 64);
    } else {
      FourBytes(s, p / 262144, p / 4096 % 64, p / 64 % 64, p % 64);
    }
  }

  lemma OneByte(s: seq<byte>)
    requires s != [] && s[0] < 0x80
    ensures FirstPoint(s) == (s[0], 1)
  {
  }

  /** Every Unicode text that is encoded in UTF-8 is read back. */
  lemma {:induction false} Utf8ReadsEncoded(path: Path)
    requires forall p | p in path :: Scalar(p)
    ensures Utf8(EncodedText(path)) == path
    decreases |path|
  {
    if path != [] {
      var rest := path[1..];
      assert path == [path[0]] + rest;
      EncodedReads(path[0], EncodedText(rest));
      var s := EncodedText(path);
      assert s[|Encoded(path[0])|..] == EncodedText(rest);
      Utf8ReadsEncoded(rest);
    }
  }

  /** What is read is encoded in front, or a replacement character, and never a surrogate. */
  lemma FirstPointMeans(s: seq<byte>)
    requires s != []
    ensures var (p, n) := FirstPoint(s);
      Scalar(p) && (s[..n] == Encoded(p) || p == 0xFFFD)
  {
    var (p, n) := FirstPoint(s);
    if p != 0xFFFD {
      if n == 1 {
        assert s[..1] == [p];
      } else if n == 2 {
        Digits64(s[0] - 0xC0, s[1] - 0x80, p);
        assert s[..2] == [s[0], s[1]];
      } else if n == 3 {
        PointOfThree(s, p);
      } else {
        PointOfFour(s, p);
      }
    }
  }

  lemma Digits64(a: nat, b: nat, p: nat)
    requires b < 64 && p == a * 64 + b
    ensures p / 64 == a && p % 64 == b
  {
  }

  lemma PointOfThree(s: seq<byte>, p: Point)
    requires |s| >= 3 && 0xE0 <= s[0] <= 0xEF && 0x80 <= s[1] <= 0xBF && 0x80 <= s[2] <= 0xBF
    requires (s[0] == 0xE0 ==> s[1] >= 0xA0) && (s[0] == 0xED ==> s[1] <= 0x9F)
    requires p == (s[0] as int - 0xE0) * 4096 + (s[1] as int - 0x80) * 64 + (s[2] as int - 0x80)
    ensures Scalar(p) && s[..3] == Encoded(p)
  {
    var high: nat := (s[0] as int - 0xE0) * 64 + (s[1] as int - 0x80);
    Digits64(high, s[2] - 0x80, p);
    Digits64(s[0] - 0xE0, s[1] - 0x80, high);
    Sixes(p);
    assert s[..3] == [s[0], s[1], s[2]];
  }

  lemma PointOfFour(s: seq<byte>, p: Point)
    requires |s| >= 4 && 0xF0 <= s[0] <= 0xF4 && 0x80 <= s[1] <= 0xBF && 0x80 <= s[2] <= 0xBF && 0x80 <= s[3] <= 0xBF
    requires (s[0] == 0xF0 ==> s[1] >= 0x90) && (s[0] == 0xF4 ==> s[1] <= 0x8F)
    requires p == (s[0] as int - 0xF0) * 262144 + (s[1] as int - 0x80) * 4096 + (s[2] as int - 0x80) * 64 + (s[3] as int - 0x80)
    ensures Scalar(p) && s[..4] == Encoded(p)
  {
    var high: nat := (s[0] as int - 0xF0) * 64 + (s[1] as int - 0x80);
    var middle: nat := high * 64 + (s[2] as int - 0x80);
    Digits64(middle, s[3] - 0x80, p);
    Digits64(high, s[2] - 0x80, middle);
    Digits64(s[0] - 0xF0, s[1] - 0x80, high);
    Sixes(p);
    assert s[..4] == [s[0], s[1], s[2], s[3]];
  }

  // ---------------------------------------------------------------- numbers

  /** What `trim` removes. */
  predicate White(c: Point) {
    || 9 <= c <= 13 || c == 32 || c == 0xA0 || c == 0x1680 || 0x2000 <= c <= 0x200A
    || c == 0x2028 || c == 0x2029 || c == 0x202F || c == 0x205F || c == 0x3000 || c == 0xFEFF
  }

  /** The white space and line terminators of ECMA-262, sections 12.2 and 12.3. */
  lemma WhiteIs(c: Point)
    ensures White(c) <==>
            c in {0x9, 0xA, 0xB, 0xC, 0xD, 0x20, 0xA0, 0x1680, 0x2000, 0x2001, 0x2002, 0x2003, 0x2004, 0x2005, 0x2006,
                  0x2007, 0x2008, 0x2009, 0x200A, 0x2028, 0x2029, 0x202F, 0x205F, 0x3000, 0xFEFF}
  {
  }

  function TrimStart(s: Path): Path {
    if s != [] && White(s[0]) then TrimStart(s[1..]) else s
  }

  function TrimEnd(s: Path): Path {
    if s != [] && White(s[|s| - 1]) then TrimEnd(s[..|s| - 1]) else s
  }

  predicate Octal(s: Path) {
    forall i | 0 <= i < |s| :: 48 <= s[i] <= 55
  }

  function OctalValue(s: Path): nat
    requires Octal(s)
  {
    if s == [] then 0 else OctalValue(s[..|s| - 1]) * 8 + (s[|s| - 1] - 48)
  }

  function Pow8(n: nat): nat {
    if n == 0 then 1 else 8 * Pow8(n - 1)
  }

  /** Each digit times the power of eight that its place stands for. */
  function DigitSum(s: Path): nat
    requires Octal(s)
  {
    if s == [] then 0 else (s[0] - 48) * Pow8(|s| - 1) + DigitSum(s[1..])
  }

  lemma {:induction false} OctalIsDigitSum(s: Path)
    requires Octal(s)
    ensures OctalValue(s) == DigitSum(s)
    decreases |s|
  {
    if s != [] {
      var t, c := s[..|s| - 1], s[|s| - 1];
      OctalIsDigitSum(t);
      assert s == t + [c];
      LastDigit(t, c);
    }
  }

  lemma DigitSumStep(s: Path)
    requires Octal(s) && s != []
    ensures DigitSum(s) == (s[0] - 48) * Pow8(|s| - 1) + DigitSum(s[1..])
  {
  }

  lemma EightTimes(d: nat, p: nat)
    ensures d * (8 * p) == 8 * (d * p)
  {
  }

  lemma {:induction false} LastDigit(s: Path, c: Point)
    requires Octal(s) && 48 <= c <= 55
    ensures Octal(s + [c]) && DigitSum(s + [c]) == DigitSum(s) * 8 + (c - 48)
    decreases |s|
  {
    hide DigitSum;
    var t := s + [c];
    DigitSumStep(t);
    if s == [] {
      assert t[1..] == [] && s == [];
      NoDigits();
    } else {
      LastDigit(s[1..], c);
      DigitSumStep(s);
      assert t[1..] == s[1..] + [c];
      EightTimes(s[0] - 48, Pow8(|s| - 1));
      assert Pow8(|t| - 1) == 8 * Pow8(|s| - 1);
    }
  }

  lemma NoDigits()
    ensures DigitSum([]) == 0 && Pow8(0) == 1
  {
  }

  const MaxSafe: nat := 9_007_199_254_740_991

  function SizeOf(header: seq<byte>): Option<nat>
    requires |header| == 512
  {
    var raw := TrimEnd(TrimStart(Utf8(TarString(header, 124, 12))));
    if raw != [] && Octal(raw) then Some(OctalValue(raw)) else None
  }

  const Slash: Point := 47

  function Joined(prefix: Path, name: Path): Path {
    if prefix == [] then name else prefix + [Slash] + name
  }

  function PathOf(header: seq<byte>): Path
    requires |header| == 512
  {
    Joined(Utf8(TarString(header, 345, 155)), Utf8(TarString(header, 0, 100)))
  }

  /** Type `0`, or the NUL that older archives write for it. */
  predicate Regular(header: seq<byte>)
    requires |header| == 512
  {
    header[156] == 0 || header[156] == 48
  }

  predicate AllZero(s: seq<byte>) {
    forall i | 0 <= i < |s| :: s[i] == 0
  }

  // ---------------------------------------------------------------- safe paths

  function Segments(p: Path): (r: seq<Path>)
    ensures r != []
  {
    if p == [] then [[]]
    else
      var rest := Segments(p[1..]);
      if p[0] == Slash then [[]] + rest else [[p[0]] + rest[0]] + rest[1..]
  }

  const Dot: Path := [46]
  const DotDot: Path := [46, 46]

  function Join(parts: seq<Path>): Path {
    if parts == [] then [] else if |parts| == 1 then parts[0] else parts[0] + [Slash] + Join(parts[1..])
  }

  function Named(parts: seq<Path>): seq<Path> {
    if parts == [] then []
    else (if parts[0] == [] || parts[0] == Dot then [] else [parts[0]]) + Named(parts[1..])
  }

  /** POSIX normalisation of a relative path without `..`. */
  function Normalize(p: Path): Path {
    if p == [] then Dot
    else
      var body := Join(Named(Segments(p)));
      (if body == [] then Dot else body) + (if p[|p| - 1] == Slash then [Slash] else [])
  }

  predicate Safe(p: Path) {
    p != [] && p[0] != Slash && DotDot !in Segments(p) && Normalize(p) == p
  }

  // ---------------------------------------------------------------- the reader

  /** Where the block after `size` bytes of data begins. */
  function Blocks(size: nat): nat {
    (size + 511) / 512 * 512
  }

  /** The first multiple of the block length that holds the data. */
  lemma BlocksHold(size: nat)
    ensures size <= Blocks(size) < size + 512 && Blocks(size) % 512 == 0
  {
  }

  lemma BlocksOf(size: nat, padding: nat)
    requires padding < 512 && (size + padding) % 512 == 0
    ensures Blocks(size) == size + padding
  {
    BlocksHold(size);
  }

  /** What one header decides: the outcome, or where to go on and which names are taken. */
  datatype Turn = Stop(outcome: Outcome) | Go(next: nat, seen: set<Path>)

  function TurnAt(archive: seq<byte>, offset: nat, seen: set<Path>, wanted: Path): (t: Turn)
    requires offset + 512 <= |archive|
    ensures t.Go? ==> t.next >= offset + 512
  {
    var header := archive[offset..offset + 512];
    var size := SizeOf(header);
    if AllZero(header) then Stop(Failed(Missing))
    else if size.None? then Stop(Failed(InvalidSize))
    else if size.value > MaxSafe then Stop(Failed(TooLarge))
    else Decided(archive, offset + 512, size.value, Regular(header), PathOf(header), seen, wanted)
  }

  /** The same, once the size, the type and the path are read. */
  function Decided(archive: seq<byte>, start: nat, size: nat, regular: bool, path: Path,
                   seen: set<Path>, wanted: Path): (t: Turn)
    ensures t.Go? ==> t.next >= start
  {
    if start + size > |archive| then Stop(Failed(Truncated))
    else if !regular then Go(start + Blocks(size), seen)
    else if !Safe(path) || path in seen then Stop(Failed(Unsafe))
    else if path == wanted then Stop(Found(archive[start..start + size]))
    else Go(start + Blocks(size), seen + {path})
  }

  /** The walk from `offset` on, when the regular entries in `seen` were passed. */
  function ReadFrom(archive: seq<byte>, offset: nat, seen: set<Path>, wanted: Path): Outcome
    decreases |archive| - offset
  {
    if offset + 512 > |archive| then Failed(Missing)
    else
      match TurnAt(archive, offset, seen, wanted)
      case Stop(outcome) => outcome
      case Go(next, passed) => ReadFrom(archive, next, passed, wanted)
  }

  /** A block that is not all zeros is a header, and without a size in it an error. */
  lemma NotTheEnd(archive: seq<byte>, offset: nat, seen: set<Path>, wanted: Path)
    requires offset + 512 <= |archive| && SizeOf(archive[offset..offset + 512]).None?
    ensures ReadFrom(archive, offset, seen, wanted) ==
            if forall i | offset <= i < offset + 512 :: archive[i] == 0 then Failed(Missing) else Failed(InvalidSize)
  {
    var header := archive[offset..offset + 512];
    assert forall i | offset <= i < offset + 512 :: archive[i] == header[i - offset];
    assert forall i | 0 <= i < 512 :: header[i] == archive[offset + i];
  }

  lemma ReadFromTurns(archive: seq<byte>, offset: nat, seen: set<Path>, wanted: Path, t: Turn)
    requires offset + 512 <= |archive| && t == TurnAt(archive, offset, seen, wanted)
    ensures ReadFrom(archive, offset, seen, wanted) ==
            if t.Stop? then t.outcome else ReadFrom(archive, t.next, t.seen, wanted)
  {
  }

  method NpmTarballFile(archive: seq<byte>, wanted: Path) returns (r: Outcome)
    ensures r == ReadFrom(archive, 0, {}, wanted)
  {
    hide Safe, SizeOf, PathOf, Blocks;
    var seen: set<Path> := {};
    var offset := 0;
    ghost var result := ReadFrom(archive, offset, seen, wanted);
    while offset + 512 <= |archive|
      invariant result == ReadFrom(archive, offset, seen, wanted)
      decreases |archive| - offset
    {
      ghost var turn := TurnAt(archive, offset, seen, wanted);
      ReadFromTurns(archive, offset, seen, wanted, turn);
      var header := archive[offset..offset + 512];
      if AllZero(header) {
        assert turn == Stop(Failed(Missing));
        break;
      }
      var pathname := PathOf(header);
      var rawSize := SizeOf(header);
      if rawSize.None? {
        return Failed(InvalidSize);
      }
      var size := rawSize.value;
      if size > MaxSafe {
        return Failed(TooLarge);
      }
      var dataStart := offset + 512;
      var dataEnd := dataStart + size;
      assert turn == Decided(archive, dataStart, size, Regular(header), pathname, seen, wanted);
      if dataEnd > |archive| {
        return Failed(Truncated);
      }
      if Regular(header) {
        if !Safe(pathname) || pathname in seen {
          return Failed(Unsafe);
        }
        if pathname == wanted {
          return Found(archive[dataStart..dataEnd]);
        }
        seen := seen + {pathname};
      }
      offset := dataStart + Blocks(size);
      assert turn == Go(offset, seen);
    }
    r := Failed(Missing);
  }

  // ---------------------------------------------------------------- archives

  /**
   * One archive member. The size field is `spaces` blanks, the octal digits of the data's length,
   * and a tail of NULs and blanks; `early` to `last` are the header's other fields and `padding`
   * fills the last data block, all with any content.
   */
  datatype Entry = Entry(
    name: seq<byte>, prefix: seq<byte>, kind: byte, data: seq<byte>,
    spaces: nat, digits: seq<byte>, tail: seq<byte>,
    early: seq<byte>, middle: seq<byte>, late: seq<byte>, last: seq<byte>, padding: seq<byte>)

  predicate WellFormed(e: Entry) {
    && |e.name| <= 100 && 0 !in e.name
    && |e.prefix| <= 155 && 0 !in e.prefix
    && e.spaces + |e.digits| + |e.tail| == 12
    && e.digits != [] && Octal(e.digits) && DigitSum(e.digits) == |e.data|
    && (forall i | 0 <= i < |e.tail| :: e.tail[i] == 0 || e.tail[i] == 32)
    && |e.early| == 24 && |e.middle| == 20 && |e.late| == 188 && |e.last| == 12
    && |e.padding| < 512 && (|e.data| + |e.padding|) % 512 == 0
  }

  function Filled(b: byte, n: nat): (s: seq<byte>)
    ensures |s| == n
    ensures forall i | 0 <= i < n :: s[i] == b
  {
    seq(n, _ => b)
  }

  function SizeField(e: Entry): seq<byte> {
    Filled(32, e.spaces) + e.digits + e.tail
  }

  /** Members as the format allows them. */
  type Member = e: Entry | WellFormed(e)
    witness Empty()

  /** A nameless empty member whose size field is one digit. */
  function Empty(): Entry {
    Entry([], [], 48, [], 11, [48], [], Filled(0, 24), Filled(0, 20), Filled(0, 188), Filled(0, 12), [])
  }

  function Header(e: Member): (h: seq<byte>)
    ensures |h| == 512
  {
    e.name + Filled(0, 100 - |e.name|) + e.early + SizeField(e) + e.middle + [e.kind] + e.late
    + e.prefix + Filled(0, 155 - |e.prefix|) + e.last
  }

  function Block(e: Member): (b: seq<byte>)
    ensures |b| == 512 + Blocks(|e.data|)
  {
    BlocksOf(|e.data|, |e.padding|);
    Header(e) + e.data + e.padding
  }

  function Layout(es: seq<Member>): seq<byte>
  {
    if es == [] then [] else Block(es[0]) + Layout(es[1..])
  }

  function FullName(e: Member): Path {
    if e.prefix == [] then Utf8(e.name) else Utf8(e.prefix) + [47] + Utf8(e.name)
  }

  predicate IsRegular(e: Member) {
    e.kind == 0 || e.kind == 48
  }

  // ---------------------------------------------------------------- headers read back

  lemma {:induction false} UpToNulPads(s: seq<byte>, n: nat)
    requires 0 !in s
    ensures UpToNul(s + Filled(0, n)) == s
    decreases |s|
  {
    var t := s + Filled(0, n);
    if s != [] {
      assert t[0] == s[0] && t[0] in s;
      assert t[1..] == s[1..] + Filled(0, n);
      UpToNulPads(s[1..], n);
    }
  }

  /** Without a NUL in front, the text is that and the text of what follows. */
  lemma {:induction false} UpToNulAppends(s: seq<byte>, t: seq<byte>)
    requires 0 !in s
    ensures UpToNul(s + t) == s + UpToNul(t)
    decreases |s|
  {
    if s == [] {
      assert s + t == t;
    } else {
      assert (s + t)[0] == s[0] && s[0] in s;
      assert (s + t)[1..] == s[1..] + t;
      UpToNulAppends(s[1..], t);
    }
  }

  lemma {:induction false} UpToNulIsPrefix(s: seq<byte>)
    ensures UpToNul(s) <= s
    decreases |s|
  {
    if s != [] && s[0] != 0 {
      UpToNulIsPrefix(s[1..]);
    }
  }

  function Blanks(n: nat): (s: Path)
    ensures |s| == n
    ensures forall i | 0 <= i < n :: s[i] == 32
  {
    seq(n, _ => 32)
  }

  lemma {:induction false} TrimStartSkips(n: nat, s: Path)
    requires s != [] && !White(s[0])
    ensures TrimStart(Blanks(n) + s) == s
    decreases n
  {
    var t := Blanks(n) + s;
    if n == 0 {
      assert t == s;
    } else {
      assert t[1..] == Blanks(n - 1) + s;
      TrimStartSkips(n - 1, s);
    }
  }

  lemma {:induction false} TrimEndSkips(s: Path, blanks: Path)
    requires s != [] && !White(s[|s| - 1])
    requires forall i | 0 <= i < |blanks| :: White(blanks[i])
    ensures TrimEnd(s + blanks) == s
    decreases |blanks|
  {
    var t := s + blanks;
    if blanks == [] {
      assert t == s;
    } else {
      assert t[..|t| - 1] == s + blanks[..|blanks| - 1];
      TrimEndSkips(s, blanks[..|blanks| - 1]);
    }
  }

  /** A field of blanks, digits and a tail of NULs and blanks, as text. */
  lemma FieldText(spaces: nat, digits: seq<byte>, tail: seq<byte>) returns (blanks: seq<byte>)
    requires Octal(digits) && forall i | 0 <= i < |tail| :: tail[i] == 0 || tail[i] == 32
    ensures forall i | 0 <= i < |blanks| :: blanks[i] == 32
    ensures Utf8(UpToNul(Filled(32, spaces) + digits + tail)) == Filled(32, spaces) + digits + blanks
  {
    hide Utf8;
    var lead := Filled(32, spaces) + digits;
    UpToNulAppends(lead, tail);
    blanks := UpToNul(tail);
    UpToNulIsPrefix(tail);
    NoNul(tail);
    AsciiIsItself(lead + blanks);
  }

  lemma SizeReads(e: Member)
    ensures TrimEnd(TrimStart(Utf8(UpToNul(SizeField(e))))) == e.digits
  {
    hide Utf8, UpToNul;
    var blanks := FieldText(e.spaces, e.digits, e.tail);
    var digits: Path, after: Path := e.digits, blanks;
    assert Filled(32, e.spaces) + e.digits + blanks == Blanks(e.spaces) + (digits + after);
    TrimStartSkips(e.spaces, digits + after);
    TrimEndSkips(digits, after);
  }

  lemma {:induction false} NoNul(s: seq<byte>)
    ensures 0 !in UpToNul(s)
    decreases |s|
  {
    if s != [] && s[0] != 0 {
      NoNul(s[1..]);
    }
  }

  lemma {:induction false} OctalBound(s: Path)
    requires Octal(s)
    ensures OctalValue(s) < Pow8(|s|)
    decreases |s|
  {
    if s != [] {
      OctalBound(s[..|s| - 1]);
    }
  }

  lemma {:induction false} Pow8Grows(m: nat, n: nat)
    requires m <= n
    ensures Pow8(m) <= Pow8(n)
    decreases n
  {
    if m < n {
      Pow8Grows(m, n - 1);
    }
  }

  /** Twelve octal digits never leave the safe integers. */
  lemma SizeIsSafe(s: Path)
    requires Octal(s) && |s| <= 12
    ensures OctalValue(s) <= MaxSafe
  {
    OctalBound(s);
    Pow8Grows(|s|, 12);
    assert Pow8(12) == 68_719_476_736;
  }

  /** Where the header's fields lie. */
  lemma HeaderFields(e: Member)
    ensures var h := Header(e);
      && h[0..100] == e.name + Filled(0, 100 - |e.name|)
      && h[124..136] == SizeField(e)
      && h[156] == e.kind
      && h[345..500] == e.prefix + Filled(0, 155 - |e.prefix|)
  {
    var name, prefix := e.name + Filled(0, 100 - |e.name|), e.prefix + Filled(0, 155 - |e.prefix|);
    assert Header(e) == name + e.early + SizeField(e) + e.middle + [e.kind] + e.late + prefix + e.last;
  }

  lemma Utf8Empty(s: seq<byte>)
    ensures Utf8(s) == [] <==> s == []
  {
  }

  lemma PathReads(h: seq<byte>, e: Member)
    requires |h| == 512
    requires h[0..100] == e.name + Filled(0, 100 - |e.name|)
    requires h[345..500] == e.prefix + Filled(0, 155 - |e.prefix|)
    ensures PathOf(h) == FullName(e)
  {
    Utf8Empty(e.prefix);
    hide Utf8;
    UpToNulPads(e.name, 100 - |e.name|);
    UpToNulPads(e.prefix, 155 - |e.prefix|);
  }

  lemma SizeFieldReads(h: seq<byte>, e: Member)
    requires |h| == 512 && h[124..136] == SizeField(e)
    ensures SizeOf(h) == Some(|e.data|) && !AllZero(h)
  {
    SizeReads(e);
    OctalIsDigitSum(e.digits);
    HasDigit(h[124..136], e);
    assert h[124 + e.spaces] == h[124..136][e.spaces];
  }

  lemma HeaderReads(e: Member)
    ensures var h := Header(e);
      && PathOf(h) == FullName(e) && SizeOf(h) == Some(|e.data|) && |e.data| <= MaxSafe
      && Regular(h) == IsRegular(e) && !AllZero(h)
  {
    HeaderFields(e);
    PathReads(Header(e), e);
    SizeFieldReads(Header(e), e);
    OctalIsDigitSum(e.digits);
    SizeIsSafe(e.digits);
  }

  lemma HasDigit(field: seq<byte>, e: Member)
    requires field == SizeField(e)
    ensures field[e.spaces] != 0
  {
    assert field[e.spaces] == e.digits[0];
  }

  // ---------------------------------------------------------------- the walk over entries

  /** What may follow the entries: a block of zeros and anything, or less than a block. */
  predicate Ends(rest: seq<byte>) {
    |rest| < 512 || forall i | 0 <= i < 512 :: rest[i] == 0
  }

  /** The walk over the entries themselves, of which the first `room` bytes are there. */
  function Scan(es: seq<Member>, wanted: Path, seen: set<Path>, room: nat): Outcome {
    if es == [] || room < 512 then Failed(Missing)
    else if 512 + |es[0].data| > room then Failed(Truncated)
    else
      var left := Left(es[0], room);
      var path := FullName(es[0]);
      if !IsRegular(es[0]) then Scan(es[1..], wanted, seen, left)
      else if !Safe(path) || path in seen then Failed(Unsafe)
      else if path == wanted then Found(es[0].data)
      else Scan(es[1..], wanted, seen + {path}, left)
  }

  /** The bytes at `offset` are the start of this layout. */
  predicate LaidOut(archive: seq<byte>, offset: nat, es: seq<Member>, rest: seq<byte>)
  {
    offset <= |archive| && archive[offset..] <= Layout(es) + rest
  }

  lemma SlicesOfPrefix(part: seq<byte>, whole: seq<byte>, low: nat, high: nat)
    requires part <= whole && low <= high <= |part|
    ensures part[low..high] == whole[low..high] && part[low..] <= whole[low..]
  {
    assert whole[low..][..|part| - low] == whole[low..|part|];
  }

  lemma ConcatParts(h: seq<byte>, d: seq<byte>, p: seq<byte>, after: seq<byte>)
    ensures var whole := h + d + p + after;
      && whole[0..|h|] == h && whole[|h|..|h| + |d|] == d && whole[|h| + |d| + |p|..] == after
  {
  }

  lemma Regrouped<T>(a: seq<T>, b: seq<T>, c: seq<T>)
    ensures a + b + c == a + (b + c)
  {
  }

  lemma LayoutParts(es: seq<Member>, rest: seq<byte>)
    requires es != []
    ensures var whole, n, m := Layout(es) + rest, |es[0].data|, 512 + Blocks(|es[0].data|);
      && |whole| >= m
      && whole[0..512] == Header(es[0]) && whole[512..512 + n] == es[0].data && whole[m..] == Layout(es[1..]) + rest
  {
    var h, d, p, after := Header(es[0]), es[0].data, es[0].padding, Layout(es[1..]) + rest;
    ConcatParts(h, d, p, after);
    Regrouped(Block(es[0]), Layout(es[1..]), rest);
  }

  /** The first whole header of a layout, and where its data lies. */
  lemma FirstEntry(archive: seq<byte>, offset: nat, es: seq<Member>, rest: seq<byte>)
    requires LaidOut(archive, offset, es, rest) && es != []
    requires offset + 512 <= |archive|
    ensures archive[offset..offset + 512] == Header(es[0])
    ensures var stop := offset + 512 + |es[0].data|;
      stop <= |archive| ==> archive[offset + 512..stop] == es[0].data
    ensures var next := offset + 512 + Blocks(|es[0].data|);
      next <= |archive| ==> LaidOut(archive, next, es[1..], rest)
  {
    hide Header, Blocks;
    var part, whole := archive[offset..], Layout(es) + rest;
    var n, m := |es[0].data|, 512 + Blocks(|es[0].data|);
    LayoutParts(es, rest);
    SlicesOfPrefix(part, whole, 0, 512);
    assert part[0..512] == archive[offset..offset + 512];
    if offset + 512 + n <= |archive| {
      SlicesOfPrefix(part, whole, 512, 512 + n);
      assert part[512..512 + n] == archive[offset + 512..offset + 512 + n];
    }
    if offset + m <= |archive| {
      SlicesOfPrefix(part, whole, m, m);
      assert part[m..] == archive[offset + m..];
    }
  }

  /** What the reader makes of one entry whose header is there. */
  lemma ReadsOne(archive: seq<byte>, offset: nat, e: Member, seen: set<Path>, wanted: Path)
    requires offset + 512 <= |archive| && archive[offset..offset + 512] == Header(e)
    ensures TurnAt(archive, offset, seen, wanted) ==
            Decided(archive, offset + 512, |e.data|, IsRegular(e), FullName(e), seen, wanted)
  {
    HeaderReads(e);
  }

  lemma ReadsEnd(archive: seq<byte>, offset: nat, rest: seq<byte>, seen: set<Path>, wanted: Path)
    requires Ends(rest) && offset <= |archive| && archive[offset..] <= rest
    ensures ReadFrom(archive, offset, seen, wanted) == Failed(Missing)
  {
    if offset + 512 <= |archive| {
      SlicesOfPrefix(archive[offset..], rest, 0, 512);
      assert archive[offset..][0..512] == archive[offset..offset + 512];
      assert rest[0..512] == rest[..512];
    }
  }

  /** The walk over entries turns as the reader decides. */
  lemma ScanTurns(
      archive: seq<byte>, offset: nat, es: seq<Member>, seen: set<Path>, wanted: Path, t: Turn, further: Outcome)
    requires es != [] && offset + 512 <= |archive|
    requires t == Decided(archive, offset + 512, |es[0].data|, IsRegular(es[0]), FullName(es[0]), seen, wanted)
    requires var stop := offset + 512 + |es[0].data|;
      stop <= |archive| ==> archive[offset + 512..stop] == es[0].data
    requires further == Scan(es[1..], wanted, Passed(es[0], seen), Left(es[0], |archive| - offset))
    ensures Scan(es, wanted, seen, |archive| - offset) == (if t.Stop? then t.outcome else further)
    ensures t.Go? ==> t == Go(offset + 512 + Blocks(|es[0].data|), Passed(es[0], seen))
  {
  }

  lemma ReadsOneMore(
      archive: seq<byte>, offset: nat, es: seq<Member>, rest: seq<byte>, seen: set<Path>, wanted: Path,
      go: Turn, further: Outcome)
    requires LaidOut(archive, offset, es, rest) && es != [] && offset + 512 <= |archive|
    requires go == Go(offset + 512 + Blocks(|es[0].data|), Passed(es[0], seen))
    requires further == ReadFrom(archive, go.next, go.seen, wanted)
    requires further == Scan(es[1..], wanted, Passed(es[0], seen), Left(es[0], |archive| - offset))
    ensures ReadFrom(archive, offset, seen, wanted) == Scan(es, wanted, seen, |archive| - offset)
  {
    FirstEntry(archive, offset, es, rest);
    ReadsOne(archive, offset, es[0], seen, wanted);
    var t := TurnAt(archive, offset, seen, wanted);
    ReadFromTurns(archive, offset, seen, wanted, t);
    ScanTurns(archive, offset, es, seen, wanted, t, further);
  }

  /** Nothing is read where less than a header is left. */
  lemma NothingLeft(archive: seq<byte>, offset: nat, es: seq<Member>, seen: set<Path>, wanted: Path, room: nat)
    requires offset + 512 > |archive| && room < 512
    ensures ReadFrom(archive, offset, seen, wanted) == Failed(Missing) == Scan(es, wanted, seen, room)
  {
  }

  /** On every layout, whole or cut short, the reader does what the walk over its entries does. */
  lemma {:induction false} ReadsEntries(
      archive: seq<byte>, offset: nat, es: seq<Member>, rest: seq<byte>, seen: set<Path>, wanted: Path)
    requires Ends(rest) && LaidOut(archive, offset, es, rest)
    ensures ReadFrom(archive, offset, seen, wanted) == Scan(es, wanted, seen, |archive| - offset)
    decreases |es|
  {
    if es == [] {
      assert Layout(es) + rest == rest;
      ReadsEnd(archive, offset, rest, seen, wanted);
    } else if offset + 512 > |archive| {
      NothingLeft(archive, offset, es, seen, wanted, |archive| - offset);
    } else {
      var go := Go(offset + 512 + Blocks(|es[0].data|), Passed(es[0], seen));
      if go.next <= |archive| {
        FirstEntry(archive, offset, es, rest);
        ReadsEntries(archive, go.next, es[1..], rest, go.seen, wanted);
      } else {
        NothingLeft(archive, go.next, es[1..], go.seen, wanted, Left(es[0], |archive| - offset));
      }
      ReadsOneMore(archive, offset, es, rest, seen, wanted, go, ReadFrom(archive, go.next, go.seen, wanted));
    }
  }

  // ---------------------------------------------------------------- what is found

  predicate Wanted(e: Member, wanted: Path) {
    IsRegular(e) && FullName(e) == wanted
  }

  /** Where the data of entry `i` stops. */
  function DataEnd(es: seq<Member>, i: nat): nat
    requires i < |es|
  {
    if i == 0 then 512 + |es[0].data| else 512 + Blocks(|es[0].data|) + DataEnd(es[1..], i - 1)
  }

  /** The regular ones among the first `n` entries have safe names, distinct from each other and from `seen`. */
  predicate Clean(es: seq<Member>, seen: set<Path>, n: nat)
    requires n <= |es|
  {
    && (forall i | 0 <= i < n && IsRegular(es[i]) :: Safe(FullName(es[i])) && FullName(es[i]) !in seen)
    && (forall i, j | 0 <= i < j < n && IsRegular(es[i]) && IsRegular(es[j]) :: FullName(es[i]) != FullName(es[j]))
  }

  /** Entry `i` is the wanted one, wholly there, and nothing before it is refused. */
  predicate Reached(es: seq<Member>, i: nat, wanted: Path, seen: set<Path>, room: nat) {
    i < |es| && Wanted(es[i], wanted) && Clean(es, seen, i + 1) && DataEnd(es, i) <= room
  }

  lemma CleanTail(es: seq<Member>, seen: set<Path>, n: nat)
    requires 0 < n <= |es|
    ensures var e := es[0];
      Clean(es, seen, n)
      <==> (IsRegular(e) ==> Safe(FullName(e)) && FullName(e) !in seen) && Clean(es[1..], Passed(e, seen), n - 1)
  {
    var tail := es[1..];
    assert forall i | 0 < i < n :: es[i] == tail[i - 1];
    assert forall i | 0 <= i < n - 1 :: tail[i] == es[i + 1];
  }

  lemma {:induction false} DataEndIsPast(es: seq<Member>, i: nat)
    requires i < |es|
    ensures DataEnd(es, i) >= 512 + |es[0].data|
    decreases i
  {
    BlocksHold(|es[0].data|);
    if i > 0 {
      DataEndIsPast(es[1..], i - 1);
    }
  }

  function Passed(e: Member, seen: set<Path>): set<Path> {
    if IsRegular(e) then seen + {FullName(e)} else seen
  }

  function Left(e: Member, room: nat): nat {
    var taken := 512 + Blocks(|e.data|);
    if taken < room then room - taken else 0
  }

  /** An entry behind the first is reached if the first is passed and it is reached from there. */
  lemma ReachedLater(es: seq<Member>, i: nat, wanted: Path, seen: set<Path>, room: nat)
    requires 0 < i < |es|
    ensures var e := es[0];
      Reached(es, i, wanted, seen, room) <==>
        && (IsRegular(e) ==> Safe(FullName(e)) && FullName(e) !in seen && FullName(e) != wanted)
        && Reached(es[1..], i - 1, wanted, Passed(e, seen), Left(e, room))
  {
    CleanTail(es, seen, i + 1);
    DataEndIsPast(es[1..], i - 1);
    assert es[i] == es[1..][i - 1];
  }

  lemma {:induction false} FoundIsReached(
      es: seq<Member>, wanted: Path, seen: set<Path>, room: nat) returns (i: nat)
    requires Scan(es, wanted, seen, room).Found?
    ensures Reached(es, i, wanted, seen, room) && Scan(es, wanted, seen, room) == Found(es[i].data)
    decreases |es|
  {
    hide Safe, FullName, Blocks;
    if Wanted(es[0], wanted) {
      i := 0;
      CleanTail(es, seen, 1);
    } else {
      var j := FoundIsReached(es[1..], wanted, Passed(es[0], seen), Left(es[0], room));
      i := j + 1;
      ReachedLater(es, i, wanted, seen, room);
    }
  }

  lemma {:induction false} ReachedIsFound(
      es: seq<Member>, i: nat, wanted: Path, seen: set<Path>, room: nat)
    requires Reached(es, i, wanted, seen, room)
    ensures Scan(es, wanted, seen, room) == Found(es[i].data)
    decreases |es|
  {
    hide Safe, FullName, Blocks;
    DataEndIsPast(es, i);
    if i > 0 {
      ReachedLater(es, i, wanted, seen, room);
      ReachedIsFound(es[1..], i - 1, wanted, Passed(es[0], seen), Left(es[0], room));
    }
  }

  lemma ReadsCut(es: seq<Member>, rest: seq<byte>, n: nat, wanted: Path)
    requires Ends(rest) && n <= |Layout(es) + rest|
    ensures ReadFrom((Layout(es) + rest)[..n], 0, {}, wanted) == Scan(es, wanted, {}, n)
  {
    hide Layout, ReadFrom, Scan, Ends;
    var archive := (Layout(es) + rest)[..n];
    assert archive[0..] == archive;
    ReadsEntries(archive, 0, es, rest, {}, wanted);
  }

  /**
   * Of an archive cut after `n` bytes, or not cut at all, the reader returns some data exactly if
   * they are the whole data of a regular entry of the wanted name, and all regular entries up to
   * it have safe and distinct names.
   */
  lemma ReadsExactly(es: seq<Member>, rest: seq<byte>, n: nat, wanted: Path, data: seq<byte>)
    requires Ends(rest) && n <= |Layout(es) + rest|
    ensures ReadFrom((Layout(es) + rest)[..n], 0, {}, wanted) == Found(data) <==>
            exists i: nat :: Reached(es, i, wanted, {}, n) && es[i].data == data
  {
    ReadsCut(es, rest, n, wanted);
    if Scan(es, wanted, {}, n) == Found(data) {
      var i := FoundIsReached(es, wanted, {}, n);
    }
    forall i: nat | Reached(es, i, wanted, {}, n)
      ensures Scan(es, wanted, {}, n) == Found(es[i].data)
    {
      ReachedIsFound(es, i, wanted, {}, n);
    }
  }

  lemma {:induction false} DataIsInside(es: seq<Member>, i: nat)
    requires i < |es|
    ensures DataEnd(es, i) <= |Layout(es)|
    decreases i
  {
    BlocksHold(|es[0].data|);
    if i > 0 {
      DataIsInside(es[1..], i - 1);
    }
  }

  /** Reading back: every regular entry of an archive with safe, distinct names. */
  lemma RoundTrip(es: seq<Member>, rest: seq<byte>, i: nat)
    requires Ends(rest) && Clean(es, {}, |es|)
    requires i < |es| && IsRegular(es[i])
    ensures ReadFrom(Layout(es) + rest, 0, {}, FullName(es[i])) == Found(es[i].data)
  {
    DataIsInside(es, i);
    var archive := Layout(es) + rest;
    assert archive[..|archive|] == archive;
    assert Reached(es, i, FullName(es[i]), {}, |archive|);
    ReadsExactly(es, rest, |archive|, FullName(es[i]), es[i].data);
  }

  lemma {:induction false} ScanMisses(es: seq<Member>, wanted: Path, seen: set<Path>, room: nat)
    requires Clean(es, seen, |es|) && forall e | e in es :: !Wanted(e, wanted)
    requires forall i | 0 <= i < |es| :: DataEnd(es, i) <= room
    ensures Scan(es, wanted, seen, room) == Failed(Missing)
    decreases |es|
  {
    if es != [] {
      CleanTail(es, seen, |es|);
      assert DataEnd(es, 0) <= room && es[0] in es;
      forall i | 0 <= i < |es[1..]|
        ensures DataEnd(es[1..], i) <= Left(es[0], room)
      {
        assert DataEnd(es, i + 1) <= room;
      }
      ScanMisses(es[1..], wanted, Passed(es[0], seen), Left(es[0], room));
    }
  }

  /** A name that no regular entry has is reported missing. */
  lemma AbsentIsMissing(es: seq<Member>, rest: seq<byte>, wanted: Path)
    requires Ends(rest) && Clean(es, {}, |es|)
    requires forall e | e in es :: !Wanted(e, wanted)
    ensures ReadFrom(Layout(es) + rest, 0, {}, wanted) == Failed(Missing)
  {
    var archive := Layout(es) + rest;
    assert archive[..|archive|] == archive;
    ReadsCut(es, rest, |archive|, wanted);
    forall i | 0 <= i < |es|
      ensures DataEnd(es, i) <= |archive|
    {
      DataIsInside(es, i);
    }
    ScanMisses(es, wanted, {}, |archive|);
  }
}
