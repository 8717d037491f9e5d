/** The a.out executable header and the offset macros of include/a.out.h.
    The fields are unsigned 32-bit and the macros add them in unsigned
    arithmetic, so every sum wraps modulo 2^32. */
module AOut {
  import opened FsDefs

  const OMAGIC: int := 0x107   // 0407
  const NMAGIC: int := 0x108   // 0410
  const ZMAGIC: int := 0x10b   // 0413

  /** sizeof(struct exec): eight 32-bit words. */
  const EXEC_SIZE: int := 32
  const SEGMENT_SIZE: int := 1024

  /** struct exec */
  datatype Exec = Exec(magic: U32, text: U32, data: U32, bss: U32, syms: U32, entry: U32,
                       trsize: U32, drsize: U32)

  /** Unsigned 32-bit addition. */
  function Add(a: U32, b: U32): (r: U32)
    ensures a + b < 0x1_0000_0000 ==> r == a + b
    ensures a + b >= 0x1_0000_0000 ==> r == a + b - 0x1_0000_0000
  {
    (a + b) % 0x1_0000_0000
  }

  /** N_BADMAG(x) */
  predicate BadMag(x: Exec)
  {
    x.magic != OMAGIC && x.magic != NMAGIC && x.magic != ZMAGIC
  }

  /** N_TXTOFF(x): demand-paged files start their text at the next
      segment, the others right after the header. */
  function TxtOff(x: Exec): (r: U32)
    ensures r == if x.magic == ZMAGIC then SEGMENT_SIZE else EXEC_SIZE
  {
    if x.magic == ZMAGIC then (SEGMENT_SIZE - EXEC_SIZE) + EXEC_SIZE else EXEC_SIZE
  }

  function DatOff(x: Exec): U32 { Add(TxtOff(x), x.text) }
  function TrelOff(x: Exec): U32 { Add(DatOff(x), x.data) }
  function DrelOff(x: Exec): U32 { Add(TrelOff(x), x.trsize) }
  function SymOff(x: Exec): U32 { Add(DrelOff(x), x.drsize) }
  function StrOff(x: Exec): U32 { Add(SymOff(x), x.syms) }

  /** The header's sizes summed in file order, without wrap-around. */
  function FileEnd(x: Exec): int
  {
    TxtOff(x) + x.text + x.data + x.trsize + x.drsize + x.syms
  }

  /** When the file's parts fit in 32 bits the offsets lie each after the
      previous by the size of the part between them, so they never
      decrease. */
  lemma OffsetsChain(x: Exec)
    requires FileEnd(x) < 0x1_0000_0000
    ensures DatOff(x) == TxtOff(x) + x.text && TrelOff(x) == DatOff(x) + x.data
    ensures DrelOff(x) == TrelOff(x) + x.trsize && SymOff(x) == DrelOff(x) + x.drsize
    ensures StrOff(x) == SymOff(x) + x.syms && StrOff(x) == FileEnd(x)
    ensures TxtOff(x) <= DatOff(x) <= TrelOff(x) <= DrelOff(x) <= SymOff(x) <= StrOff(x)
  {
  }

  /** _N_SEGMENT_ROUND(x): (x + 1023) & ~1023 in unsigned arithmetic. */
  function SegmentRound(x: U32): (r: U32)
  {
    ((x + SEGMENT_SIZE - 1) % 0x1_0000_0000) / SEGMENT_SIZE * SEGMENT_SIZE
  }

  /** Without wrap-around the rounding gives the least multiple of 1024
      not below x. */
  lemma SegmentRoundMeans(x: U32)
    requires x + SEGMENT_SIZE - 1 < 0x1_0000_0000
    ensures var r := SegmentRound(x);
      r % SEGMENT_SIZE == 0 && x <= r < x + SEGMENT_SIZE
  {
    var q := (x + SEGMENT_SIZE - 1) / SEGMENT_SIZE;
    assert SegmentRound(x) == q * SEGMENT_SIZE;
  }

  /** N_DATADDR(x): the end of the text (N_TXTADDR is 0), rounded up to a
      segment unless the file is impure. */
  function DatAddr(x: Exec): (r: U32)
  {
    if x.magic == OMAGIC then x.text else SegmentRound(x.text)
  }

  /** N_BSSADDR(x) */
  function BssAddr(x: Exec): (r: U32)
  {
    Add(DatAddr(x), x.data)
  }

  /** The data segment starts at the end of the text for OMAGIC and at
      the text end rounded up to 1024 otherwise, and bss follows it. */
  lemma AddrsMeans(x: Exec)
    requires x.text + SEGMENT_SIZE + x.data < 0x1_0000_0000
    ensures x.magic == OMAGIC ==> DatAddr(x) == x.text
    ensures x.magic != OMAGIC ==> DatAddr(x) % SEGMENT_SIZE == 0 && x.text <= DatAddr(x) < x.text + SEGMENT_SIZE
    ensures BssAddr(x) == DatAddr(x) + x.data
  {
    SegmentRoundMeans(x.text);
  }
}
