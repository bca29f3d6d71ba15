/** What an encoded pointer stands for: the formats as a table, and numbers as they are written in
    them, against the reader of the personality function. */
module PointerFormats {
  import opened Sequences
  import opened Leb128
  import opened Personality
  import opened ExceptionTable

  datatype Format = Fixed(width: nat, signed: bool) | Unsigned | Signed | Unknown

  /** The format that the lower half of an encoding selects. */
  function FormatOf(code: nat): Format {
    match code
    case 0x00 => Fixed(8, false)
    case 0x01 => Unsigned
    case 0x02 => Fixed(2, false)
    case 0x03 => Fixed(4, false)
    case 0x04 => Fixed(8, false)
    case 0x09 => Signed
    case 0x0A => Fixed(2, true)
    case 0x0B => Fixed(4, true)
    case 0x0C => Fixed(8, true)
    case _ => Unknown
  }

  /** The number n is written at p, and ends before `next`. Variable length numbers are in the range
      that survives decoding. */
  ghost predicate Written(mem: Memory, p: nat, format: Format, n: int, next: nat) {
    match format
    case Fixed(width, false) => 0 <= n < Pow256(width) && CodeAt(mem, p, FixedBytes(n, width)) && next == p + width
    case Fixed(width, true) =>
      -(Pow256(width) as int) <= 2 * n < Pow256(width) && next == p + width
      && CodeAt(mem, p, FixedBytes(if n < 0 then Pow256(width) + n else n, width))
    case Unsigned => 0 <= n < TWO31 && CodeAt(mem, p, EncodeU(n)) && next == p + |EncodeU(n)|
    case Signed => Readable(n) && CodeAt(mem, p, EncodeS(n)) && next == p + |EncodeS(n)|
    case Unknown => false
  }

  lemma Widths()
    ensures Pow256(2) == 0x1_0000 && Pow2(16) == 0x1_0000
    ensures Pow256(4) == 0x1_0000_0000 && Pow2(32) == 0x1_0000_0000
    ensures Pow256(8) == TWO64
  {
    FourBytes();
    EightBytes();
    SmallPowers();
    assert Pow256(2) == 256 * Pow256(1);
    hide Pow2, Pow256;
    Pow2Add(8, 8);
    Pow2Add(16, 16);
  }

  lemma FixedRead(mem: Memory, p: nat, width: nat, signed: bool, n: int, next: nat)
    requires width in {2, 4, 8} && Written(mem, p, Fixed(width, signed), n, next)
    ensures var raw := Load(mem, p, width);
            var r := if signed && width < 8 then Extended(raw, 8 * width) else raw;
            -(TWO64 as int) <= n && r == Defined(Unsigned64(n), next)
  {
    hide LittleEndian, FixedBytes, CodeAt, Pow2, Pow256;
    Widths();
    FixedReadBack(mem, p, if n < 0 then Pow256(width) + n else n, width);
  }

  /** The reading that a format calls for. */
  function ReadAs(mem: Memory, p: nat, format: Format): Reading {
    match format
    case Fixed(width, signed) => if signed && width < 8 then Extended(Load(mem, p, width), 8 * width) else Load(mem, p, width)
    case Unsigned => DigitsFrom(mem, p, 0)
    case Signed => SignedFrom(mem, p, 0)
    case Unknown => Undefined
  }

  lemma PlainIsReadAs(mem: Memory, p: nat, code: nat)
    ensures var format := FormatOf(code);
            PlainPointer(mem, p, code) ==
              if format.Unknown? then Aborts
              else if ReadAs(mem, p, format).Defined? then Got(ReadAs(mem, p, format).value, ReadAs(mem, p, format).next)
              else OutOfBounds
  {
    hide Load, Extended, DigitsFrom, SignedFrom;
  }

  lemma WidthIsKnown(code: nat)
    ensures FormatOf(code).Fixed? ==> FormatOf(code).width in {2, 4, 8}
  {
  }

  /** The plain value: the number written, negative ones in two's complement. */
  lemma NumberRead(mem: Memory, p: nat, code: nat, n: int, next: nat)
    requires Written(mem, p, FormatOf(code), n, next)
    ensures -(TWO64 as int) <= n < TWO64 && PlainPointer(mem, p, code) == Got(Unsigned64(n), next)
  {
    hide PlainPointer, FormatOf, Load, Extended, DigitsFrom, SignedFrom, EncodeU, EncodeS, FixedBytes, CodeAt, Pow256;
    Widths();
    WidthIsKnown(code);
    PlainIsReadAs(mem, p, code);
    match FormatOf(code)
    case Fixed(width, signed) => FixedRead(mem, p, width, signed, n, next);
    case Unsigned => ReadUnsigned(mem, p, n);
    case Signed => ReadBack(mem, p, n);
  }

  lemma Residue(n: int, base: nat)
    requires -(TWO64 as int) <= n < TWO64
    ensures (Unsigned64(n) + base) % TWO64 == (n + base) % TWO64
    ensures Unsigned64(n) == n % TWO64
  {
    if n < 0 { Around(n + base); }
  }

  lemma Around(a: int)
    ensures (a + TWO64) % TWO64 == a % TWO64
  {
  }

  /** A pointer read is the number written, relative to the place where it is written if the encoding
      says so, as a 64-bit address; or what is stored at that address. */
  lemma PointerRead(mem: Memory, p: nat, encoding: Byte, n: int, next: nat)
    requires encoding != DW_EH_PE_OMIT && Written(mem, p, FormatOf(encoding % 16), n, next)
    ensures var application := encoding / 16 % 8;
            var address := (n + if application == 1 then p else 0) % TWO64;
            var r := EncodedPointer(mem, p, encoding);
            && (application > 1 ==> r == Aborts)
            && (application <= 1 && encoding < 0x80 ==> r == Got(address, next))
            && (application <= 1 && encoding >= 0x80 ==>
                 if address + 8 <= |mem| then r == Got(LittleEndian(mem, address, 8), next) else r == OutOfBounds)
  {
    hide PlainPointer, LittleEndian, Written;
    NumberRead(mem, p, encoding % 16, n, next);
    Residue(n, p);
  }

  /** Every other format aborts, and an omitted pointer takes no bytes. */
  lemma OtherEncodings(mem: Memory, p: nat, encoding: Byte)
    ensures encoding == DW_EH_PE_OMIT ==> EncodedPointer(mem, p, encoding) == Got(0, p)
    ensures encoding != DW_EH_PE_OMIT && FormatOf(encoding % 16).Unknown? ==> EncodedPointer(mem, p, encoding) == Aborts
  {
    hide Load, Extended, DigitsFrom, SignedFrom;
  }

  /** A header as it is written: the landing pad base; where the type infos end, unless they are
      omitted; the encoding of the call sites, and the size of their table. */
  lemma HeaderRead(mem: Memory, lsda: nat, base: nat, p: nat, typeOffset: nat, q: nat, size: nat)
    requires lsda < |mem| && EncodedPointer(mem, lsda + 1, mem[lsda]) == Got(base, p)
    requires p < |mem| && typeOffset < TWO31
    requires if mem[p] == 0xff then q == p + 1
             else CodeAt(mem, p + 1, EncodeU(typeOffset)) && q == p + 1 + |EncodeU(typeOffset)|
    requires q < |mem| && CodeAt(mem, q + 1, EncodeU(size)) && size < TWO31
    ensures var table := q + 1 + |EncodeU(size)|;
            HeaderAt(mem, lsda) == Header(if mem[p] == 0xff then 0 else q + typeOffset, mem[q], table, table + size)
  {
    hide EncodedPointer, DigitsFrom, EncodeU, CodeAt;
    if mem[p] != 0xff { ReadUnsigned(mem, p + 1, typeOffset); }
    ReadUnsigned(mem, q + 1, size);
  }

  /** A call site as it is written: three pointers in the table's encoding, and the action. */
  lemma EntryRead(mem: Memory, p: nat, encoding: Byte, start: nat, p1: nat, length: nat, p2: nat, pad: nat, p3: nat, action: nat)
    requires EncodedPointer(mem, p, encoding) == Got(start, p1)
    requires EncodedPointer(mem, p1, encoding) == Got(length, p2)
    requires EncodedPointer(mem, p2, encoding) == Got(pad, p3)
    requires CodeAt(mem, p3, EncodeU(action)) && action < TWO31
    ensures EntryAt(mem, p, encoding) == Entry(start, length, pad, action, p3 + |EncodeU(action)|)
  {
    hide EncodedPointer, DigitsFrom, EncodeU, CodeAt;
    ReadUnsigned(mem, p3, action);
  }
}
