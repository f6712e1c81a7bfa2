/**
 * A zero-copy reader over a decompressed tar buffer laid out in 512-byte
 * records (bzlreg/tar_view.cc). A view of an entry is the offset of its
 * header in the buffer; the buffer itself is never copied.
 *
 * Whenever the C++ reader would abort, hang or read outside its span, the
 * model yields one error value (`Malformed` for a lookup, an iteration that
 * ends `Broken`). That covers: a header record that does not fit in the
 * buffer, a size field that does not start with an octal digit, and every
 * entry of type 'x' (building its view either loops forever on a non-empty
 * PAX block, or aborts while parsing the empty PAX size).
 */
module TarView {
  import opened Common

  const BlockSize: nat := 512
  const NameFieldLength: nat := 100
  const SizeFieldOffset: nat := 124
  const SizeFieldLength: nat := 12
  const TypeflagOffset: nat := 156
  const MagicOffset: nat := 257
  const PrefixOffset: nat := 345
  const PrefixMaxLength: nat := 155

  /** Typeflag 'g': global extended header (POSIX.1-2001). */
  const GlobalExtendedHeader: byte := 103
  /** Typeflag 'x': extended header for the next entry (POSIX.1-2001). */
  const ExtendedHeader: byte := 120
  const Slash: byte := 47
  const Space: byte := 32
  /** The magic "ustar" of the ustar Interchange Format. */
  const UstarMagic: seq<byte> := [117, 115, 116, 97, 114]

  // ---------------------------------------------------------------------
  // Block arithmetic

  predicate IsPowerOfTwo(m: nat)
    decreases m
  {
    m == 1 || (m >= 2 && m % 2 == 0 && IsPowerOfTwo(m / 2))
  }

  /** `round_up_to_multiple`: `(num + multiple - 1) & -multiple`. For a power
      of two, masking with `-multiple` clears the low bits, which is rounding
      down to a multiple; the model writes that rounding with `/` and `*`. */
  function RoundUpToMultiple(n: nat, m: nat): (r: nat)
    requires IsPowerOfTwo(m)
    ensures r % m == 0
    ensures n <= r < n + m
  {
    PowerOfTwoPositive(m);
    var x := n + m - 1;
    ModUnique((x / m) * m, x / m, m, 0);
    (x / m) * m
  }

  lemma {:induction false} PowerOfTwoPositive(m: nat)
    requires IsPowerOfTwo(m)
    ensures m >= 1
  {
  }

  lemma {:induction false} MulAtLeast(a: int, m: int)
    requires a >= 1 && m >= 0
    ensures a * m >= m
    decreases a
  {
    if a > 1 {
      MulAtLeast(a - 1, m);
      assert a * m == (a - 1) * m + m;
    }
  }

  /** Euclidean division is unique: `k * m + r` with `0 <= r < m` has
      quotient `k` and remainder `r`. */
  lemma ModUnique(n: int, k: int, m: int, r: int)
    requires m > 0 && 0 <= r < m && n == k * m + r
    ensures n % m == r && n / m == k
  {
    var q := n / m;
    var s := n % m;
    assert (k - q) * m == s - r;
    if k - q >= 1 {
      MulAtLeast(k - q, m);
    } else if q - k >= 1 {
      MulAtLeast(q - k, m);
    }
  }

  lemma BlockSizeIsPowerOfTwo()
    ensures IsPowerOfTwo(BlockSize)
  {
    assert IsPowerOfTwo(1);
    assert IsPowerOfTwo(2);
    assert IsPowerOfTwo(4);
    assert IsPowerOfTwo(8);
    assert IsPowerOfTwo(16);
    assert IsPowerOfTwo(32);
    assert IsPowerOfTwo(64);
    assert IsPowerOfTwo(128);
    assert IsPowerOfTwo(256);
  }

  /** Content bytes rounded up to whole records. */
  function PaddedSize(size: nat): (r: nat)
    ensures r % BlockSize == 0 && size <= r < size + BlockSize
  {
    BlockSizeIsPowerOfTwo();
    RoundUpToMultiple(size, BlockSize)
  }

  // ---------------------------------------------------------------------
  // Records

  predicate AllZero(s: seq<byte>) {
    forall i :: 0 <= i < |s| ==> s[i] == 0
  }

  /** `is_all0`: a loop over the bytes that stops at the first non-zero one. */
  method IsAll0(s: seq<byte>) returns (r: bool)
    ensures r <==> AllZero(s)
  {
    var i := 0;
    while i < |s|
      invariant 0 <= i <= |s|
      invariant AllZero(s[..i])
    {
      if s[i] != 0 {
        return false;
      }
      i := i + 1;
    }
    assert s[..i] == s;
    return true;
  }

  predicate HeaderFits(buf: seq<byte>, off: nat) {
    off + BlockSize <= |buf|
  }

  function Header(buf: seq<byte>, off: nat): (h: seq<byte>)
    requires HeaderFits(buf, off)
    ensures |h| == BlockSize
  {
    buf[off..off + BlockSize]
  }

  /** A 512-byte header record. */
  type Record = h: seq<byte> | |h| == BlockSize witness seq(BlockSize, _ => 0)

  function Typeflag(h: Record): byte {
    h[TypeflagOffset]
  }

  // ---------------------------------------------------------------------
  // Octal size field (`std::from_chars` with base 8 on the 12-byte field)

  predicate IsOctalDigit(b: byte) {
    48 <= b <= 55
  }

  /** Number of leading octal digits of `s`: how far `from_chars` reads. */
  function OctalPrefixLength(s: seq<byte>): (k: nat)
    ensures k <= |s|
    ensures forall i :: 0 <= i < k ==> IsOctalDigit(s[i])
    ensures k == |s| || !IsOctalDigit(s[k])
  {
    if s == [] || !IsOctalDigit(s[0]) then 0 else 1 + OctalPrefixLength(s[1..])
  }

  /** Value of a string of octal digits, most significant first. */
  function OctalValue(digits: seq<byte>): nat
    requires forall i :: 0 <= i < |digits| ==> IsOctalDigit(digits[i])
  {
    if digits == [] then 0
    else
      var last := digits[|digits| - 1];
      assert IsOctalDigit(last);
      8 * OctalValue(digits[..|digits| - 1]) + (last as int - 48)
  }

  /** `from_chars(first, last, value, 8)` on an unsigned value: the leading
      octal digits, or an error when there are none. Twelve octal digits
      never overflow a 64-bit `size_t`. */
  function ParseOctal(field: seq<byte>): Option<nat> {
    var k := OctalPrefixLength(field);
    if k == 0 then None else Some(OctalValue(field[..k]))
  }

  /** `get_tar_header_file_size`: the octal number in bytes 124..135. */
  function SizeField(h: Record): Option<nat> {
    ParseOctal(h[SizeFieldOffset..SizeFieldOffset + SizeFieldLength])
  }

  function Pow8(w: nat): (r: nat)
    ensures r >= 1
  {
    if w == 0 then 1 else 8 * Pow8(w - 1)
  }

  /** How an archiver writes a size: `w` octal digits, zero padded. */
  function FormatOctal(n: nat, w: nat): (r: seq<byte>)
    ensures |r| == w
    ensures forall i :: 0 <= i < w ==> IsOctalDigit(r[i])
  {
    if w == 0 then [] else FormatOctal(n / 8, w - 1) + [(48 + n % 8) as byte]
  }

  lemma {:induction false} FormatOctalValue(n: nat, w: nat)
    ensures OctalValue(FormatOctal(n, w)) == n % Pow8(w)
  {
    if w > 0 {
      var f := FormatOctal(n, w);
      assert f[..w - 1] == FormatOctal(n / 8, w - 1);
      FormatOctalValue(n / 8, w - 1);
      DivModPow8(n, w);
    }
  }

  lemma DivModPow8(n: nat, w: nat)
    requires w > 0
    ensures 8 * ((n / 8) % Pow8(w - 1)) + n % 8 == n % Pow8(w)
  {
    var p := Pow8(w - 1);
    var q := n / 8;
    var r := n % 8;
    assert n == 8 * q + r;
    assert q == (q / p) * p + q % p;
    assert n == (q / p) * (8 * p) + (8 * (q % p) + r);
    assert 0 <= 8 * (q % p) + r < 8 * p;
    ModUnique(n, q / p, 8 * p, 8 * (q % p) + r);
  }

  /** The size field round-trips: a size written as `w` octal digits and a
      NUL (archivers use eleven digits in the twelve-byte field) is read
      back exactly. */
  lemma SizeFieldRoundTrip(n: nat, w: nat)
    requires n < Pow8(w)
    requires w >= 1
    ensures ParseOctal(FormatOctal(n, w) + [0]) == Some(n)
  {
    var digits := FormatOctal(n, w);
    var field := digits + [0];
    OctalPrefixOfDigitsThenStop(digits, 0);
    assert field[..w] == digits;
    FormatOctalValue(n, w);
    ModUnique(n, 0, Pow8(w), n);
  }

  lemma {:induction false} OctalPrefixOfDigitsThenStop(digits: seq<byte>, stop: byte)
    requires forall i :: 0 <= i < |digits| ==> IsOctalDigit(digits[i])
    requires !IsOctalDigit(stop)
    ensures OctalPrefixLength(digits + [stop]) == |digits|
  {
    if digits != [] {
      assert (digits + [stop])[1..] == digits[1..] + [stop];
      OctalPrefixOfDigitsThenStop(digits[1..], stop);
    }
  }

  // ---------------------------------------------------------------------
  // Names

  /** `strnlen(s, max)`: bytes before the first NUL among the first `max`. */
  function CStrLen(s: seq<byte>, max: nat): (n: nat)
    requires max <= |s|
    ensures n <= max
    ensures forall i :: 0 <= i < n ==> s[i] != 0
    ensures n == max || s[n] == 0
  {
    match FindFrom(s[..max], 0 as byte, 0)
    case Some(i) => i
    case None => max
  }

  /** The 100-byte name field: all of it when its last byte is not NUL,
      otherwise the bytes before the first NUL. */
  function StaticName(h: Record): (name: seq<byte>)
    ensures h[NameFieldLength - 1] != 0 ==> name == h[..NameFieldLength]
    ensures h[NameFieldLength - 1] == 0 ==> |name| < NameFieldLength
    ensures h[NameFieldLength - 1] == 0 ==>
      0 !in name && name == h[..|name|] && h[|name|] == 0
  {
    if h[NameFieldLength - 1] != 0 then h[..NameFieldLength]
    else h[..CStrLen(h, NameFieldLength)]
  }

  /** Bytes 257..261 are "ustar" and byte 262 is NUL or a space. */
  predicate IsUstar(h: Record) {
    h[MagicOffset..MagicOffset + 5] == UstarMagic && (h[MagicOffset + 5] == 0 || h[MagicOffset + 5] == Space)
  }

  /** The ustar prefix field: at most 155 bytes at 345, up to the first NUL. */
  function NamePrefix(h: Record): (p: seq<byte>)
    ensures |p| <= PrefixMaxLength && 0 !in p
    ensures p == h[PrefixOffset..PrefixOffset + |p|]
  {
    var field := h[PrefixOffset..];
    var n := CStrLen(field, PrefixMaxLength);
    assert forall i :: 0 <= i < n ==> field[i] == h[PrefixOffset + i];
    field[..n]
  }

  /** `tar_view_file::name()`: `prefix + "/" + name` for a ustar header with
      a non-empty prefix, the static name otherwise. */
  function EntryName(h: Record): (name: seq<byte>)
    ensures IsUstar(h) && NamePrefix(h) != [] ==> name == NamePrefix(h) + [Slash] + StaticName(h)
    ensures !(IsUstar(h) && NamePrefix(h) != []) ==> name == StaticName(h)
  {
    if IsUstar(h) && |NamePrefix(h)| > 0 then NamePrefix(h) + [Slash] + StaticName(h)
    else StaticName(h)
  }

  /** An all-zero record has an empty name, so iteration stops on it. */
  lemma ZeroRecordHasEmptyName(h: Record)
    requires AllZero(h)
    ensures EntryName(h) == []
  {
    assert h[NameFieldLength - 1] == 0;
    assert h[0] == 0;
    assert !IsUstar(h) by {
      assert h[MagicOffset] == 0;
      assert h[MagicOffset..MagicOffset + 5][0] == h[MagicOffset];
    }
  }

  // ---------------------------------------------------------------------
  // Sizes and contents of one entry

  /** `header_byte_size()`: one record, plus the padded PAX block for 'x'. */
  function HeaderByteSize(h: Record): (r: Option<nat>)
    ensures Typeflag(h) != ExtendedHeader ==> r == Some(BlockSize)
    ensures Typeflag(h) == ExtendedHeader ==> (r.Some? <==> SizeField(h).Some?)
    ensures r.Some? ==> r.value % BlockSize == 0 && r.value >= BlockSize
    ensures r.Some? && Typeflag(h) == ExtendedHeader ==>
      SizeField(h).value + BlockSize <= r.value < SizeField(h).value + 2 * BlockSize
  {
    if Typeflag(h) == ExtendedHeader then
      match SizeField(h)
      case None => None
      case Some(s) => Some(BlockSize + PaddedSize(s))
    else Some(BlockSize)
  }

  /** A view can be built on the entry at `off` without aborting or hanging,
      and its `size()` is defined. */
  predicate EntryOk(buf: seq<byte>, off: nat) {
    HeaderFits(buf, off) && Typeflag(Header(buf, off)) != ExtendedHeader && SizeField(Header(buf, off)).Some?
  }

  function EntrySize(buf: seq<byte>, off: nat): nat
    requires EntryOk(buf, off)
  {
    SizeField(Header(buf, off)).value
  }

  /** Offset of the record after the entry at `off`: its header records and
      its content rounded up to whole records. */
  function NextOffset(buf: seq<byte>, off: nat): (n: nat)
    requires EntryOk(buf, off)
    ensures n >= off + BlockSize && n % BlockSize == off % BlockSize
    ensures n >= off + BlockSize + EntrySize(buf, off)
  {
    off + HeaderByteSize(Header(buf, off)).value + PaddedSize(EntrySize(buf, off))
  }

  /** `contents()`: the `size()` bytes that follow the header records, or
      None when they run past the end of the buffer (an unchecked span in
      the source). */
  function Contents(buf: seq<byte>, off: nat): (r: Option<seq<byte>>)
    requires EntryOk(buf, off)
    ensures r.None? <==> off + BlockSize + EntrySize(buf, off) > |buf|
    ensures r.Some? ==> |r.value| == EntrySize(buf, off)
    ensures r.Some? ==> r.value == buf[off + BlockSize..off + BlockSize + EntrySize(buf, off)]
  {
    var start := off + HeaderByteSize(Header(buf, off)).value;
    if start + EntrySize(buf, off) <= |buf| then Some(buf[start..start + EntrySize(buf, off)]) else None
  }

  // ---------------------------------------------------------------------
  // Lookup by name: `tar_view::file`

  datatype Lookup = Found(offset: nat) | Absent | Malformed

  /** What `file(target)` returns when its loop is at `off` having seen
      `zeros` consecutive all-zero records. */
  function FileFrom(buf: seq<byte>, target: seq<byte>, off: nat, zeros: nat): Lookup
    requires zeros < 2
    decreases |buf| - off
  {
    if off >= |buf| then Absent
    else if !HeaderFits(buf, off) then Malformed
    else if AllZero(Header(buf, off)) then
      if zeros == 1 then Absent else FileFrom(buf, target, off + BlockSize, 1)
    else if !EntryOk(buf, off) then Malformed
    else if EntryName(Header(buf, off)) == target then Found(off)
    else FileFrom(buf, target, NextOffset(buf, off), 0)
  }

  /** `tar_view::file`: scan the records from the start of the archive. */
  method File(buf: seq<byte>, target: seq<byte>) returns (r: Lookup)
    ensures r == FileFrom(buf, target, 0, 0)
  {
    var offset := 0;
    var consecutiveAll0 := 0;
    while offset < |buf|
      invariant 0 <= consecutiveAll0 < 2
      invariant FileFrom(buf, target, offset, consecutiveAll0) == FileFrom(buf, target, 0, 0)
      decreases |buf| - offset
    {
      if !HeaderFits(buf, offset) {
        return Malformed;
      }
      var zero := IsAll0(buf[offset..offset + BlockSize]);
      if zero {
        offset := offset + BlockSize;
        consecutiveAll0 := consecutiveAll0 + 1;
        if consecutiveAll0 >= 2 {
          return Absent;
        }
        continue;
      }
      consecutiveAll0 := 0;
      var h := buf[offset..offset + BlockSize];
      if Typeflag(h) == ExtendedHeader || SizeField(h).None? {
        return Malformed;
      }
      if EntryName(h) == target {
        return Found(offset);
      }
      offset := NextOffset(buf, offset);
    }
    return Absent;
  }

  /** Two all-zero records end the lookup, whatever follows them. */
  lemma {:induction false} TwoZeroRecordsEndLookup(buf: seq<byte>, target: seq<byte>, off: nat)
    requires HeaderFits(buf, off + BlockSize)
    requires AllZero(Header(buf, off)) && AllZero(Header(buf, off + BlockSize))
    ensures FileFrom(buf, target, off, 0) == Absent
  {
    assert FileFrom(buf, target, off, 0) == FileFrom(buf, target, off + BlockSize, 1);
  }

  /** A found entry is a well-formed header carrying the requested name. */
  lemma {:induction false} FoundEntryHasName(buf: seq<byte>, target: seq<byte>, off: nat, zeros: nat)
    requires zeros < 2
    requires FileFrom(buf, target, off, zeros).Found?
    ensures var o := FileFrom(buf, target, off, zeros).offset;
      off <= o && EntryOk(buf, o) && EntryName(Header(buf, o)) == target
    decreases |buf| - off
  {
    if off >= |buf| || !HeaderFits(buf, off) {
    } else if AllZero(Header(buf, off)) {
      if zeros == 0 {
        FoundEntryHasName(buf, target, off + BlockSize, 1);
      }
    } else if EntryOk(buf, off) && EntryName(Header(buf, off)) != target {
      FoundEntryHasName(buf, target, NextOffset(buf, off), 0);
    }
  }

  // ---------------------------------------------------------------------
  // The entries a lookup inspects, and the entries iteration yields

  /** How a walk over the records ended. */
  datatype End = ZeroRecords | EmptyName | BufferEnd | Broken

  /** The header offsets a walk visits, in archive order, and how it ended. */
  datatype Walk = Walk(entries: seq<nat>, end: End)

  predicate AllFit(buf: seq<byte>, es: seq<nat>) {
    forall k :: 0 <= k < |es| ==> HeaderFits(buf, es[k])
  }

  /** The entries whose names `file()` compares, when nothing matches. */
  function ScanFrom(buf: seq<byte>, off: nat, zeros: nat): (w: Walk)
    requires zeros < 2
    ensures AllFit(buf, w.entries)
    decreases |buf| - off
  {
    if off >= |buf| then Walk([], BufferEnd)
    else if !HeaderFits(buf, off) then Walk([], Broken)
    else if AllZero(Header(buf, off)) then
      if zeros == 1 then Walk([], ZeroRecords) else ScanFrom(buf, off + BlockSize, 1)
    else if !EntryOk(buf, off) then Walk([], Broken)
    else
      var rest := ScanFrom(buf, NextOffset(buf, off), 0);
      Walk([off] + rest.entries, rest.end)
  }

  predicate Named(buf: seq<byte>, off: nat, target: seq<byte>) {
    HeaderFits(buf, off) && EntryName(Header(buf, off)) == target
  }

  /** Index of the first of `es` whose entry carries the name `target`. */
  function FirstNamed(buf: seq<byte>, es: seq<nat>, target: seq<byte>): (r: Option<nat>)
    ensures r.Some? ==> r.value < |es| && Named(buf, es[r.value], target)
    ensures forall k :: 0 <= k < |es| && (r.None? || k < r.value) ==> !Named(buf, es[k], target)
  {
    if es == [] then None
    else if Named(buf, es[0], target) then Some(0)
    else match FirstNamed(buf, es[1..], target)
      case None => None
      case Some(k) => Some(k + 1)
  }

  /** The lookup result that matches a walk: the first entry named `target`,
      else nothing, unless the walk broke down before its end. */
  function FirstMatch(buf: seq<byte>, w: Walk, target: seq<byte>): Lookup {
    match FirstNamed(buf, w.entries, target)
    case Some(k) => Found(w.entries[k])
    case None => if w.end == Broken then Malformed else Absent
  }

  /** `file(target)` returns the first entry, in archive order, whose
      resolved name is `target`. */
  lemma {:induction false} FileIsFirstMatch(buf: seq<byte>, target: seq<byte>, off: nat, zeros: nat)
    requires zeros < 2
    ensures FileFrom(buf, target, off, zeros) == FirstMatch(buf, ScanFrom(buf, off, zeros), target)
    decreases |buf| - off
  {
    if off >= |buf| || !HeaderFits(buf, off) {
    } else if AllZero(Header(buf, off)) {
      if zeros == 0 {
        FileIsFirstMatch(buf, target, off + BlockSize, 1);
      }
    } else if EntryOk(buf, off) {
      var next := NextOffset(buf, off);
      var rest := ScanFrom(buf, next, 0);
      assert ScanFrom(buf, off, zeros) == Walk([off] + rest.entries, rest.end);
      if !Named(buf, off, target) {
        FileIsFirstMatch(buf, target, next, 0);
        FirstMatchAfterSkipped(buf, [off], rest, target);
      }
    }
  }

  /** `operator++`: the position after the entry at `pos`. One all-zero
      record after the entry is skipped; a second one ends the iteration. */
  datatype Step = StepTo(pos: nat) | StepEnd | StepBroken

  function Advance(buf: seq<byte>, pos: nat): (s: Step)
    requires HeaderFits(buf, pos)
    ensures s.StepTo? ==> s.pos > pos && HeaderFits(buf, s.pos) && !AllZero(Header(buf, s.pos))
  {
    if !EntryOk(buf, pos) then StepBroken
    else
      var next := NextOffset(buf, pos);
      if !HeaderFits(buf, next) then StepBroken
      else if !AllZero(Header(buf, next)) then StepTo(next)
      else if !HeaderFits(buf, next + BlockSize) then StepBroken
      else if AllZero(Header(buf, next + BlockSize)) then StepEnd
      else StepTo(next + BlockSize)
  }

  /** The entries a range-for loop visits from an iterator at `pos`. The
      loop stops when the span is empty or the entry's name is empty
      (`operator!=`); a body runs on an entry before `operator++` moves on. */
  function IterFrom(buf: seq<byte>, pos: nat): (w: Walk)
    requires pos == |buf| || HeaderFits(buf, pos)
    ensures AllFit(buf, w.entries)
    decreases |buf| - pos
  {
    if pos == |buf| then Walk([], BufferEnd)
    else if Typeflag(Header(buf, pos)) == ExtendedHeader then Walk([], Broken)
    else if EntryName(Header(buf, pos)) == [] then Walk([], EmptyName)
    else match Advance(buf, pos)
      case StepBroken => Walk([pos], Broken)
      case StepEnd => Walk([pos], ZeroRecords)
      case StepTo(n) =>
        var rest := IterFrom(buf, n);
        Walk([pos] + rest.entries, rest.end)
  }

  /** Where `begin()` leaves the iterator: leading 'g' records are stepped
      over (`skipped`). Reading the typeflag past the span is undefined. */
  datatype Start = Start(skipped: seq<nat>, pos: nat) | StartBroken

  function BeginFrom(buf: seq<byte>, pos: nat): (s: Start)
    ensures s.Start? ==> HeaderFits(buf, s.pos) && Typeflag(Header(buf, s.pos)) != GlobalExtendedHeader
    decreases |buf| - pos
  {
    if !HeaderFits(buf, pos) then StartBroken
    else if Typeflag(Header(buf, pos)) != GlobalExtendedHeader then Start([], pos)
    else match Advance(buf, pos)
      case StepTo(n) =>
        (match BeginFrom(buf, n)
         case Start(s, p) => Start([pos] + s, p)
         case StartBroken => StartBroken)
      case _ => StartBroken
  }

  /** The entries `for(auto file : tar_view)` visits. */
  function Iteration(buf: seq<byte>): Walk {
    match BeginFrom(buf, 0)
    case StartBroken => Walk([], Broken)
    case Start(_, p) => IterFrom(buf, p)
  }

  /** The name comparison in `file()` ignores the zero-record count at a
      non-zero record. */
  lemma ScanAtEntryIgnoresCount(buf: seq<byte>, off: nat)
    requires HeaderFits(buf, off) && !AllZero(Header(buf, off))
    ensures ScanFrom(buf, off, 1) == ScanFrom(buf, off, 0)
  {
  }

  /** One iterator step is one step of the lookup's scan. */
  lemma ScanFollowsStep(buf: seq<byte>, pos: nat)
    requires HeaderFits(buf, pos) && !AllZero(Header(buf, pos))
    requires !Advance(buf, pos).StepBroken?
    ensures Advance(buf, pos).StepEnd? ==> ScanFrom(buf, pos, 0) == Walk([pos], ZeroRecords)
    ensures Advance(buf, pos).StepTo? ==>
      var rest := ScanFrom(buf, Advance(buf, pos).pos, 0);
      ScanFrom(buf, pos, 0) == Walk([pos] + rest.entries, rest.end)
  {
    var next := NextOffset(buf, pos);
    if AllZero(Header(buf, next)) {
      assert ScanFrom(buf, next, 0) == ScanFrom(buf, next + BlockSize, 1);
      if !AllZero(Header(buf, next + BlockSize)) {
        ScanAtEntryIgnoresCount(buf, next + BlockSize);
      }
    }
  }

  /** Iteration that ends at two zero records visits exactly the entries
      the lookup's scan visits. */
  lemma {:induction false} IterationIsScan(buf: seq<byte>, pos: nat)
    requires pos == |buf| || HeaderFits(buf, pos)
    requires IterFrom(buf, pos).end == ZeroRecords
    ensures ScanFrom(buf, pos, 0) == IterFrom(buf, pos)
    decreases |buf| - pos
  {
    if pos < |buf| && Typeflag(Header(buf, pos)) != ExtendedHeader && EntryName(Header(buf, pos)) != [] {
      if AllZero(Header(buf, pos)) {
        ZeroRecordHasEmptyName(Header(buf, pos));
      }
      ScanFollowsStep(buf, pos);
      match Advance(buf, pos)
      case StepEnd =>
      case StepTo(n) => IterationIsScan(buf, n);
    }
  }

  /** The scan from the start visits the skipped global headers, then what
      the scan from `begin()`'s position visits. */
  /** Stepping over one global header, for `begin()` and for the scan. */
  lemma GlobalHeaderStep(buf: seq<byte>, pos: nat)
    requires BeginFrom(buf, pos).Start?
    requires Typeflag(Header(buf, pos)) == GlobalExtendedHeader
    ensures Advance(buf, pos).StepTo?
    ensures var n := Advance(buf, pos).pos;
      BeginFrom(buf, n).Start? &&
      BeginFrom(buf, pos) == Start([pos] + BeginFrom(buf, n).skipped, BeginFrom(buf, n).pos)
    ensures var n := Advance(buf, pos).pos;
      ScanFrom(buf, pos, 0) == Walk([pos] + ScanFrom(buf, n, 0).entries, ScanFrom(buf, n, 0).end)
  {
    assert !AllZero(Header(buf, pos)) by {
      assert Header(buf, pos)[TypeflagOffset] != 0;
    }
    ScanFollowsStep(buf, pos);
  }

  lemma {:induction false} ScanCoversSkippedGlobals(buf: seq<byte>, pos: nat)
    requires BeginFrom(buf, pos).Start?
    ensures var b := BeginFrom(buf, pos);
      var rest := ScanFrom(buf, b.pos, 0);
      ScanFrom(buf, pos, 0) == Walk(b.skipped + rest.entries, rest.end)
    decreases |buf| - pos, 1
  {
    if Typeflag(Header(buf, pos)) == GlobalExtendedHeader {
      ScanCoversSkippedGlobal(buf, pos);
    } else {
      NoGlobalHeaderStart(buf, pos);
    }
  }

  lemma {:induction false} ScanCoversSkippedGlobal(buf: seq<byte>, pos: nat)
    requires BeginFrom(buf, pos).Start?
    requires Typeflag(Header(buf, pos)) == GlobalExtendedHeader
    ensures var b := BeginFrom(buf, pos);
      var rest := ScanFrom(buf, b.pos, 0);
      ScanFrom(buf, pos, 0) == Walk(b.skipped + rest.entries, rest.end)
    decreases |buf| - pos, 0
  {
    GlobalHeaderStep(buf, pos);
    var n := Advance(buf, pos).pos;
    ScanCoversSkippedGlobals(buf, n);
    var b := BeginFrom(buf, n);
    var rest := ScanFrom(buf, b.pos, 0);
    WalkPrepend(pos, b.skipped, ScanFrom(buf, n, 0), rest);
  }

  lemma WalkPrepend(pos: nat, skipped: seq<nat>, tail: Walk, rest: Walk)
    requires tail == Walk(skipped + rest.entries, rest.end)
    ensures Walk([pos] + tail.entries, tail.end) == Walk(([pos] + skipped) + rest.entries, rest.end)
  {
    assert [pos] + (skipped + rest.entries) == ([pos] + skipped) + rest.entries;
  }

  lemma NoGlobalHeaderStart(buf: seq<byte>, pos: nat)
    requires HeaderFits(buf, pos)
    requires Typeflag(Header(buf, pos)) != GlobalExtendedHeader
    ensures BeginFrom(buf, pos) == Start([], pos)
    ensures [] + ScanFrom(buf, pos, 0).entries == ScanFrom(buf, pos, 0).entries
  {
  }

  function Shift(o: Option<nat>, d: nat): Option<nat> {
    match o
    case None => None
    case Some(k) => Some(k + d)
  }

  lemma {:induction false} FirstNamedSkipsUnnamed(buf: seq<byte>, skipped: seq<nat>, es: seq<nat>, target: seq<byte>)
    requires forall k :: 0 <= k < |skipped| ==> !Named(buf, skipped[k], target)
    ensures FirstNamed(buf, skipped + es, target) == Shift(FirstNamed(buf, es, target), |skipped|)
  {
    if skipped == [] {
      assert skipped + es == es;
    } else {
      var all := skipped + es;
      assert all[0] == skipped[0] && !Named(buf, all[0], target);
      assert all[1..] == skipped[1..] + es;
      FirstNamedSkipsUnnamed(buf, skipped[1..], es, target);
      assert FirstNamed(buf, all, target) == Shift(FirstNamed(buf, all[1..], target), 1);
    }
  }

  /** Lookup agrees with iteration: on an archive that iterates to its two
      terminating zero records, `file(target)` returns the first iterated
      entry named `target`, provided no skipped global header is so named
      (the lookup, unlike `begin()`, does not skip them). */
  lemma LookupMatchesIteration(buf: seq<byte>, target: seq<byte>)
    requires Iteration(buf).end == ZeroRecords
    requires BeginFrom(buf, 0).Start?
    requires forall k :: 0 <= k < |BeginFrom(buf, 0).skipped| ==> !Named(buf, BeginFrom(buf, 0).skipped[k], target)
    ensures FileFrom(buf, target, 0, 0) == FirstMatch(buf, Iteration(buf), target)
    ensures FileFrom(buf, target, 0, 0) != Malformed
  {
    var b := BeginFrom(buf, 0);
    FileIsFirstMatch(buf, target, 0, 0);
    ScanCoversSkippedGlobals(buf, 0);
    IterationIsScan(buf, b.pos);
    FirstMatchAfterSkipped(buf, b.skipped, IterFrom(buf, b.pos), target);
  }

  lemma FirstMatchAfterSkipped(buf: seq<byte>, skipped: seq<nat>, w: Walk, target: seq<byte>)
    requires forall k :: 0 <= k < |skipped| ==> !Named(buf, skipped[k], target)
    ensures FirstMatch(buf, Walk(skipped + w.entries, w.end), target) == FirstMatch(buf, w, target)
  {
    FirstNamedSkipsUnnamed(buf, skipped, w.entries, target);
    match FirstNamed(buf, w.entries, target)
    case None =>
    case Some(k) => assert (skipped + w.entries)[k + |skipped|] == w.entries[k];
  }

  // ---------------------------------------------------------------------
  // The iterator object

  /** `tar_view::iterator`: the span `_data` is the suffix of the buffer
      from `pos`; the end of iteration empties it (`pos == |buf|`). */
  class TarIterator {
    const buf: seq<byte>
    var pos: nat

    ghost predicate Valid()
      reads this
    {
      pos == |buf| || HeaderFits(buf, pos)
    }

    /** `itr._data = _tar_bytes` */
    constructor (buf: seq<byte>)
      ensures this.buf == buf && pos == 0
    {
      this.buf := buf;
      pos := 0;
    }

    /** `operator!=(sentinel)`: None when building the entry view would
        hang or abort (an 'x' record). */
    method NotAtEnd() returns (r: Option<bool>)
      requires Valid()
      ensures r == None <==> pos < |buf| && Typeflag(Header(buf, pos)) == ExtendedHeader
      ensures r == Some(true) <==>
        (pos < |buf| && Typeflag(Header(buf, pos)) != ExtendedHeader && EntryName(Header(buf, pos)) != [])
    {
      if pos == |buf| {
        return Some(false);
      }
      var h := buf[pos..pos + BlockSize];
      if Typeflag(h) == ExtendedHeader {
        return None;
      }
      return Some(EntryName(h) != []);
    }

    /** `operator++`; false when the source would abort or read past the
        span. */
    method Increment() returns (ok: bool)
      requires Valid() && pos < |buf|
      modifies this
      ensures ok <==> !Advance(buf, old(pos)).StepBroken?
      ensures Advance(buf, old(pos)).StepTo? ==> pos == Advance(buf, old(pos)).pos
      ensures Advance(buf, old(pos)).StepEnd? ==> pos == |buf|
      ensures ok ==> Valid()
    {
      var h := buf[pos..pos + BlockSize];
      if Typeflag(h) == ExtendedHeader || SizeField(h).None? {
        return false;
      }
      var fileSize := SizeField(h).value;
      var headerSize := HeaderByteSize(h).value;
      var next := pos + headerSize + PaddedSize(fileSize);
      if next + BlockSize > |buf| {
        return false;
      }
      var zero := IsAll0(buf[next..next + BlockSize]);
      if zero {
        next := next + BlockSize;
        if next + BlockSize > |buf| {
          return false;
        }
        zero := IsAll0(buf[next..next + BlockSize]);
        if zero {
          pos := |buf|;
          return true;
        }
      }
      pos := next;
      return true;
    }
  }

  /** `tar_view::begin()`: an iterator past the leading global headers;
      `ok` is false when the source would read past the span. */
  method Begin(buf: seq<byte>) returns (it: TarIterator, ok: bool)
    ensures fresh(it) && it.buf == buf
    ensures ok <==> BeginFrom(buf, 0).Start?
    ensures ok ==> it.Valid() && it.pos == BeginFrom(buf, 0).pos
  {
    it := new TarIterator(buf);
    while true
      invariant it.buf == buf && fresh(it)
      invariant BeginFrom(buf, it.pos).Start? <==> BeginFrom(buf, 0).Start?
      invariant BeginFrom(buf, 0).Start? ==> BeginFrom(buf, it.pos).pos == BeginFrom(buf, 0).pos
      decreases |buf| - it.pos
    {
      if it.pos + BlockSize > |buf| {
        return it, false;
      }
      if Typeflag(buf[it.pos..it.pos + BlockSize]) != GlobalExtendedHeader {
        return it, true;
      }
      var stepped := it.Increment();
      if !stepped || it.pos == |buf| {
        return it, false;
      }
    }
  }
}
