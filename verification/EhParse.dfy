// Reading an .eh_frame section back (eh_frame.c): the parser for native sections and
// the loop that collects the synthetic one.
module EhParse {
  import opened Bits
  import opened Leb
  import opened Words
  import opened CString

  // --- Encoded pointers ---

  const OMIT: int := 0xff

  // Operand size of the low half of an encoding, 0 for one that is not supported.
  function Size(encoding: U8): nat {
    match encoding % 16
    case 0 => 8
    case 2 => 2
    case 3 => 4
    case 4 => 8
    case 10 => 2
    case 11 => 4
    case 12 => 8
    case _ => 0
  }

  // The operand at p as 64 bits, sign-extended for the signed forms.
  function Operand(s: seq<U8>, p: nat, encoding: U8): U64 {
    var n := Size(encoding);
    WordBound(s, p, n);
    Pow2Values();
    var v := Word(s, p, n);
    if encoding % 16 >= 10 && 0 < n < 8 && v >= Pow2(8 * n - 1) then Wrap(v - Pow2(8 * n)) else Wrap(v)
  }

  datatype Reading = Reading(value: U64, next: nat)

  // eh_read_encoded_value
  function ReadValue(s: seq<U8>, p: nat, end: nat, encoding: U8): Reading {
    if Size(encoding) == 0 || p + Size(encoding) > end then Reading(0, p)
    else Reading(Operand(s, p, encoding), p + Size(encoding))
  }

  // Where the section lies, and what an indirect pointer finds at an address.
  datatype Mapping = Mapping(base: U64, deref: U64 -> U64)

  // eh_read_encoded_ptr
  function ReadPtr(env: Mapping, s: seq<U8>, p: nat, end: nat, encoding: U8): Reading {
    if encoding == OMIT || Size(encoding) == 0 || p + Size(encoding) > end then Reading(0, p)
    else
      var v := Operand(s, p, encoding);
      var w := if encoding / 16 % 8 == 1 then Wrap(v + env.base + p) else v;
      Reading(if encoding >= 128 then env.deref(w) else w, p + Size(encoding))
  }

  // --- CIEs ---

  // The augmentation letters from k on, with their data from p to end: the operand of R.
  function AugEncoding(d: seq<U8>, k: nat, p: nat, end: nat): U8
    requires k <= |d| && end <= |d|
    decreases |d| - k
  {
    if k == |d| || d[k] == 0 || p >= end then 0
    else if d[k] == 0x4c then AugEncoding(d, k + 1, p + 1, end) // L
    else if d[k] == 0x50 then AugEncoding(d, k + 1, SkipPtr(p + 1, end, d[p]), end) // P
    else if d[k] == 0x52 then d[p] // R
    else 0
  }

  // Past a pointer whose value is not wanted.
  function SkipPtr(p: nat, end: nat, encoding: U8): nat {
    if encoding == OMIT || Size(encoding) == 0 || p + Size(encoding) > end then p else p + Size(encoding)
  }

  function Min(a: int, b: int): int {
    if a < b then a else b
  }

  // Where the length of the augmentation data stands: after the string, the two
  // alignment factors and the return column.
  function AugLengthAt(d: seq<U8>): (p: nat)
    requires |d| > 4 && NameEnd(d, 5) < |d|
    ensures p <= |d|
  {
    var p2 := LebEnd(d, LebEnd(d, NameEnd(d, 5) + 1));
    if d[4] == 1 then Min(p2 + 1, |d|) else LebEnd(d, p2)
  }

  // Where the data ends and the initial instructions start.
  function AugEnd(d: seq<U8>): nat
    requires |d| > 4 && NameEnd(d, 5) < |d|
  {
    Min(LebEnd(d, AugLengthAt(d)) + Wrap(UlebValue(d, AugLengthAt(d))), |d|)
  }

  // parse_cie_fde_encoding on the bytes after the length field.
  function CieEncoding(d: seq<U8>): U8 {
    if |d| <= 4 || NameEnd(d, 5) == |d| || d[5] != 0x7a then 0
    else AugEncoding(d, 6, LebEnd(d, AugLengthAt(d)), AugEnd(d))
  }

  // parse_cie_has_z_augmentation
  predicate HasZ(d: seq<U8>) {
    |d| > 5 && d[5] == 0x7a
  }

  // --- FDEs ---

  // initial_location, address_range, fde_ptr, cfi_ptr, cfi_size, the pointers as
  // offsets into the section
  datatype Entry = Entry(start: U64, range: U64, fde: nat, cfi: nat, cfiSize: U64)

  // The data of the CIE at c; its length is not checked against the section, so it may run
  // on into what is mapped after it.
  function CieAt(s: seq<U8>, c: nat): seq<U8>
    requires c <= |s|
  {
    var from := Min(c + 4, |s|);
    s[from..Min(from + Word(s, c, 4), |s|)]
  }

  // The FDE at pos whose data runs from start to end, if it has a non-zero address.
  function FdeAt(env: Mapping, s: seq<U8>, pos: nat, start: nat, end: nat): seq<Entry>
    requires start <= end <= |s|
  {
    var back := Word(s, start, 4);
    if back == 0 || back > start then []
    else
      var d := CieAt(s, start - back);
      var loc := ReadPtr(env, s, start + 4, end, CieEncoding(d));
      var range := ReadValue(s, loc.next, end, CieEncoding(d));
      var cfi := if HasZ(d) && range.next < end then SkipAug(s[..end], range.next) else range.next;
      if loc.value == 0 then [] else [Entry(loc.value, range.value, pos, cfi, Wrap(end - cfi))]
  }

  function SkipAug(s: seq<U8>, p: nat): nat
    requires p <= |s|
  {
    var (q, n) := (LebEnd(s, p), Wrap(UlebValue(s, p)));
    if |s| - q >= n then q + n else |s|
  }

  // parse_native_eh_frame_fdes from pos on: the section is the first size bytes of s, and
  // the rest of s is what is mapped after it.
  function FdesFrom(env: Mapping, s: seq<U8>, size: nat, pos: nat): seq<Entry>
    requires size <= |s|
    decreases size - pos
  {
    if pos + 4 > size then []
    else
      var length := Word(s, pos, 4);
      if length == 0 || (length == 0xffff_ffff && pos + 12 > size) then []
      else
        var start := if length == 0xffff_ffff then pos + 12 else pos + 4;
        var end := start + if length == 0xffff_ffff then Word(s, pos + 4, 8) else length;
        if end > size then [] else FdeAt(env, s, pos, start, end) + FdesFrom(env, s, size, end)
  }

  // --- The parser ---

  method ReadCie(d: seq<U8>, stale: U8) returns (encoding: U8)
    ensures encoding == CieEncoding(d)
  {
    hide LebEnd, UlebValue, NameEnd, Size, Operand;
    if |d| < 4 {
      return 0;
    }
    var p := 4;
    if p >= |d| {
      return 0;
    }
    var version := d[p];
    p := p + 1;
    p := ScanName(d, p);
    if p >= |d| {
      return 0;
    }
    p := p + 1;
    var factor, signed;
    factor, p := ReadUleb(d, p);
    signed, p := EhReadSleb(d, p, stale);
    if version == 1 {
      if p < |d| {
        p := p + 1;
      }
    } else {
      factor, p := ReadUleb(d, p);
    }
    if d[5] != 0x7a {
      return 0;
    }
    var augLen;
    augLen, p := ReadUleb(d, p);
    var augEnd := p + augLen;
    if augEnd > |d| {
      augEnd := |d|;
    }
    encoding := ReadAugmentation(d, p, augEnd);
  }

  method ReadAugmentation(d: seq<U8>, start: nat, end: nat) returns (encoding: U8)
    requires |d| > 5 && end <= |d|
    ensures encoding == AugEncoding(d, 6, start, end)
  {
    hide Size;
    var p: nat, k := start, 6;
    while k < |d| && d[k] != 0 && p < end
      invariant 6 <= k <= |d|
      invariant AugEncoding(d, k, p, end) == AugEncoding(d, 6, start, end)
      decreases |d| - k
    {
      match d[k] {
        case 0x4c =>
          p := p + 1;
        case 0x50 =>
          p := SkipPtr(p + 1, end, d[p]);
        case 0x52 =>
          return d[p];
        case _ =>
          return 0;
      }
      k := k + 1;
    }
    encoding := 0;
  }

  method Parse(env: Mapping, s: seq<U8>, size: nat, stale: U8) returns (entries: seq<Entry>)
    requires size <= |s|
    ensures entries == FdesFrom(env, s, size, 0)
  {
    hide FdeAt, Word;
    var pos: nat := 0;
    entries := [];
    while pos + 4 <= size
      invariant 0 <= pos <= size
      invariant entries + FdesFrom(env, s, size, pos) == FdesFrom(env, s, size, 0)
      decreases size - pos
    {
      var length := Word(s, pos, 4);
      if length == 0 {
        break;
      }
      var start, end := pos + 4, pos + 4 + length;
      if length == 0xffff_ffff {
        if pos + 12 > size {
          break;
        }
        start := pos + 12;
        end := start + Word(s, pos + 4, 8);
      }
      if end > size {
        break;
      }
      var found := ParseFde(env, s, pos, start, end, stale);
      Joined(entries, found, FdesFrom(env, s, size, end));
      entries := entries + found;
      pos := end;
    }
  }

  lemma Joined<T>(a: seq<T>, b: seq<T>, c: seq<T>)
    ensures a + (b + c) == (a + b) + c
  {
  }

  // The body of the loop for one record.
  method ParseFde(env: Mapping, s: seq<U8>, pos: nat, start: nat, end: nat, stale: U8) returns (found: seq<Entry>)
    requires start <= end <= |s|
    ensures found == FdeAt(env, s, pos, start, end)
  {
    hide CieEncoding, ReadPtr, ReadValue, LebEnd, UlebValue, Word;
    found := [];
    var back := Word(s, start, 4);
    if back != 0 && back <= start {
      var d := CieAt(s, start - back);
      var encoding := ReadCie(d, stale);
      var loc := ReadPtr(env, s, start + 4, end, encoding);
      var range := ReadValue(s, loc.next, end, encoding);
      var p := range.next;
      if HasZ(d) && p < end {
        var augLen;
        augLen, p := ReadUleb(s[..end], p);
        if end - p >= augLen {
          p := p + augLen;
        } else {
          p := end;
        }
      }
      if loc.value != 0 {
        found := [Entry(loc.value, range.value, pos, p, Wrap(end - p))];
      }
    }
  }

  // --- The synthetic section's own collector ---

  datatype Header = Header(start: U64, range: U64, fde: nat)

  function HeadersFrom(s: seq<U8>, pos: nat): seq<Header>
    decreases |s| - pos
  {
    if pos + 4 >= |s| || Word(s, pos, 4) == 0 then []
    else (if Word(s, pos + 4, 4) == 0 then []
          else [Header(Wrap(Word(s, pos + 8, 8)), Wrap(Word(s, pos + 16, 8)), pos)])
         + HeadersFrom(s, pos + 4 + Word(s, pos, 4))
  }

  method CollectHeaders(s: seq<U8>) returns (headers: seq<Header>)
    ensures headers == HeadersFrom(s, 0)
  {
    hide Word, Wrap;
    var pos := 0;
    headers := [];
    while pos + 4 < |s|
      invariant headers + HeadersFrom(s, pos) == HeadersFrom(s, 0)
      decreases |s| - pos
    {
      var length := Word(s, pos, 4);
      if length == 0 {
        break;
      }
      Joined(headers, if Word(s, pos + 4, 4) == 0 then []
                      else [Header(Wrap(Word(s, pos + 8, 8)), Wrap(Word(s, pos + 16, 8)), pos)],
             HeadersFrom(s, pos + 4 + length));
      if Word(s, pos + 4, 4) != 0 {
        headers := headers + [Header(Wrap(Word(s, pos + 8, 8)), Wrap(Word(s, pos + 16, 8)), pos)];
      }
      pos := pos + 4 + length;
    }
  }
}
