/** One `.ARM.exidx` index table entry and the plausibility test the converter applies
    to it while scanning a flat firmware image (`armfw_is_proper_ARMexidx_entry`). */
module ExidxEntry {
  import opened Outcomes
  import opened Prel31

  type Byte = b: int | 0 <= b < 256

  /** The firmware file: a flat memory image, byte 0 at the base address. */
  type Image = seq<Byte>

  type U32 = x: int | 0 <= x < 0x1_0000_0000

  /** `sizeof(ExIdxEntry)`: two packed 32-bit words. */
  const EntrySize: int := 8

  /** `EXIDX_CANTUNWIND` */
  const CantUnwind: int := 1

  /** A little-endian 32-bit word stored at `off`. */
  function U32At(img: Image, off: nat): U32
    requires off + 4 <= |img|
  {
    var b0: int, b1: int, b2: int, b3: int := img[off], img[off + 1], img[off + 2], img[off + 3];
    b0 + 0x100 * b1 + 0x1_0000 * b2 + 0x100_0000 * b3
  }

  /** `readinto` of a 4-byte `c_uint` after a seek to `off`: fewer than four bytes left
      is a failed read. */
  function ReadU32(img: Image, off: nat): (w: Option<U32>)
    ensures w.Some? <==> off + 4 <= |img|
  {
    if off + 4 <= |img| then Some(U32At(img, off)) else None
  }

  /** `ExIdxEntry`: the offset of the function the entry covers, and the unwinding word. */
  datatype IndexEntry = IndexEntry(tboffs: U32, entry: U32)

  function DecodeEntry(img: Image, off: nat): IndexEntry
    requires off + EntrySize <= |img|
  {
    IndexEntry(U32At(img, off), U32At(img, off + 4))
  }

  /** The test applied to the first word and to the personality routine word: an
      address strictly inside the presumed `.text` region `(base, base + arrPos)` and a
      multiple of the function alignment. */
  predicate InCode(addr: int, base: int, arrPos: int, funcAlign: int)
    requires funcAlign > 0
  {
    base < addr < base + arrPos && addr % funcAlign == 0
  }

  /** The checks on the first word: a legal prel31 field (non-zero, bit 31 clear) that
      designates a function inside `.text`. */
  predicate FirstWordOk(e: IndexEntry, base: int, funcAlign: int, arrPos: int, entPos: nat)
    requires funcAlign > 0
  {
    0 < e.tboffs < 0x8000_0000 && InCode(Prel31ToAddr(e.tboffs, base + entPos), base, arrPos, funcAlign)
  }

  /** Bits 30-28 of an inline unwinding word, which the ABI reserves as zero. */
  predicate ReservedBitsClear(x: U32) {
    (x / 0x1000_0000) % 8 == 0
  }

  /** The two windows where an out-of-line `.ARM.extab` entry may sit: near the end of
      the code region, or shortly after the current record. */
  predicate InExtabWindow(tbent: int, base: int, expectSectAlign: int, arrPos: int, entPos: int) {
    || (base + arrPos - expectSectAlign * 0x10 <= tbent <= base + arrPos - 4)
    || (base + entPos + EntrySize <= tbent < base + entPos + expectSectAlign * 0x20)
  }

  /** `armfw_is_proper_ARMexidx_entry`: whether record `e`, read at image position
      `entPos` of a candidate section starting at `arrPos`, is a plausible index entry.
      `Err` is the exception a seek to a negative file offset raises. */
  function IsProperEntry(img: Image, e: IndexEntry, base: int, funcAlign: int,
                         expectSectAlign: int, arrPos: int, entPos: nat): (r: Result<bool>)
    requires funcAlign > 0
    // the first word must be a legal prel31 field designating a function in .text
    ensures !FirstWordOk(e, base, funcAlign, arrPos, entPos) ==> r == Ok(false)
    // once it is, EXIDX_CANTUNWIND is always accepted
    ensures FirstWordOk(e, base, funcAlign, arrPos, entPos) && e.entry == CantUnwind ==> r == Ok(true)
    // an inline entry (bit 31 set) is accepted exactly when bits 30-28 are clear
    ensures FirstWordOk(e, base, funcAlign, arrPos, entPos) && e.entry >= 0x8000_0000 ==>
      r == Ok(ReservedBitsClear(e.entry))
    // an out-of-line entry is accepted only when it points into an extab window, at a
    // word-aligned address, whose first word is readable and designates code
    ensures r == Ok(true) && e.entry != CantUnwind && e.entry < 0x8000_0000 ==>
      var tbent := Prel31ToAddr(e.entry, base + entPos);
      && InExtabWindow(tbent, base, expectSectAlign, arrPos, entPos)
      && tbent % 4 == 0
      && tbent >= base
      && ReadU32(img, tbent - base).Some?
      && InCode(ReadU32(img, tbent - base).value, base, arrPos, funcAlign)
    // and it is accepted whenever all of these hold
    ensures FirstWordOk(e, base, funcAlign, arrPos, entPos) && e.entry != CantUnwind && e.entry < 0x8000_0000 ==>
      var tbent := Prel31ToAddr(e.entry, base + entPos);
      (&& InExtabWindow(tbent, base, expectSectAlign, arrPos, entPos)
       && tbent % 4 == 0
       && tbent >= base
       && ReadU32(img, tbent - base).Some?
       && InCode(ReadU32(img, tbent - base).value, base, arrPos, funcAlign))
      ==> r == Ok(true)
    // the seek error can only come from the window before the section start, which
    // reaches below the image only for candidates in its first 0x10 alignment units
    ensures r.Err? ==> r.error.NegativeSeek? && arrPos < expectSectAlign * 0x10
  {
    if e.tboffs == 0 || e.tboffs >= 0x8000_0000 then Ok(false)
    else
      var globOffs := Prel31ToAddr(e.tboffs, base + entPos);
      if !InCode(globOffs, base, arrPos, funcAlign) then Ok(false)
      else if e.entry == CantUnwind then Ok(true)
      else if e.entry >= 0x8000_0000 then Ok(ReservedBitsClear(e.entry))
      else
        var tbentOffs := Prel31ToAddr(e.entry, base + entPos);
        if !InExtabWindow(tbentOffs, base, expectSectAlign, arrPos, entPos) then Ok(false)
        else if tbentOffs % 4 != 0 then Ok(false)
        else if tbentOffs - base < 0 then Err(NegativeSeek(tbentOffs - base))
        else
          match ReadU32(img, tbentOffs - base)
          case None => Ok(false)
          case Some(persRoutine) => Ok(InCode(persRoutine, base, arrPos, funcAlign))
  }

  /** The sentinel and inline accept paths never look at the image: their verdict is the
      same whatever else the firmware file holds. */
  lemma VerdictIgnoresImageUnlessOutOfLine(img1: Image, img2: Image, e: IndexEntry, base: int,
                                           funcAlign: int, expectSectAlign: int, arrPos: int, entPos: nat)
    requires funcAlign > 0
    requires e.entry == CantUnwind || e.entry >= 0x8000_0000
    ensures IsProperEntry(img1, e, base, funcAlign, expectSectAlign, arrPos, entPos)
         == IsProperEntry(img2, e, base, funcAlign, expectSectAlign, arrPos, entPos)
  {
  }

  /** The validator raises exactly when an out-of-line entry with a good first word points,
      word aligned, into an extab window that starts below the image. */
  lemma SeekErrorExactly(img: Image, e: IndexEntry, base: int, funcAlign: int, expectSectAlign: int,
                         arrPos: int, entPos: nat)
    requires funcAlign > 0
    ensures var tbent := Prel31ToAddr(e.entry, base + entPos);
      IsProperEntry(img, e, base, funcAlign, expectSectAlign, arrPos, entPos).Err?
      <==> (&& FirstWordOk(e, base, funcAlign, arrPos, entPos)
            && e.entry != CantUnwind && e.entry < 0x8000_0000
            && InExtabWindow(tbent, base, expectSectAlign, arrPos, entPos)
            && tbent % 4 == 0
            && tbent < base)
  {
  }
}
