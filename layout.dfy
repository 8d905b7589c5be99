/** Layout inference (`armfw_bin2elf_settle_sect_*`): fill the section address and size
    tables of the options object, one section at a time, never replacing what the user
    gave on the command line.

    Each step is a method on the options object, proved against a function on the
    tables before the step, which the lemmas below describe. */
module Layout {
  import opened Outcomes
  import opened OrderedDict
  import opened ExidxEntry
  import Prel31
  import ExidxScan
  import EmptyScan

  /** Fixed by the command-line entry point, not user options. */
  const ExpectFuncAlign: nat := 2
  const ExpectSectAlign: nat := 0x10

  const ExidxName: string := ".ARM.exidx"
  const TextName: string := ".text"
  const DataName: string := ".data"
  const BssName: string := ".bss"

  /** The two section tables: start address and size by section name. */
  datatype Sections = Sections(addr: ODict, size: ODict) {
    ghost predicate Valid() {
      addr.Valid() && size.Valid()
    }
  }

  /** The parts of the parsed options that the section recovery reads and updates. */
  class Options {
    var baseaddr: int
    var addrspacelen: int
    var sectionAddr: ODict
    var sectionSize: ODict

    constructor (baseaddr: int, addrspacelen: int, sectionAddr: ODict, sectionSize: ODict)
      ensures this.baseaddr == baseaddr && this.addrspacelen == addrspacelen
      ensures this.sectionAddr == sectionAddr && this.sectionSize == sectionSize
    {
      this.baseaddr := baseaddr;
      this.addrspacelen := addrspacelen;
      this.sectionAddr := sectionAddr;
      this.sectionSize := sectionSize;
    }

    function Tables(): Sections
      reads this
    {
      Sections(sectionAddr, sectionSize)
    }
  }

  /** The table `b` keeps every entry of `a` and adds exactly the entry `name`. */
  ghost predicate AddsAtMost(a: ODict, b: ODict, name: string) {
    Extends(a, b) && b.vals.Keys <= a.vals.Keys + {name}
  }

  function Max0(x: int): int {
    if x < 0 then 0 else x
  }

  function ProperEntries(img: Image, base: int): ExidxScan.EntryTest {
    ExidxScan.ProperEntryTest(img, base, ExpectFuncAlign, ExpectSectAlign)
  }

  /** Where the `.ARM.exidx` search places the section, as (file position, size): the
      last match on the 16-byte grid, else on the 8-byte grid, else the end of the first
      run of zero windows, else no section at all. */
  function ExidxPlacement(img: Image, base: int): Result<(int, int)> {
    var test := ProperEntries(img, base);
    match ExidxScan.ScanOf(img, test, 0, ExpectSectAlign)
    case Err(e) => Err(e)
    case Ok(first) =>
      if first.0 >= 0 then Ok(first)
      else
        match ExidxScan.ScanOf(img, test, 0, ExpectSectAlign / 2)
        case Err(e) => Err(e)
        case Ok(second) =>
          if second.0 >= 0 then Ok(second)
          else
            var third := EmptyScan.EmptyScanOf(img, 0, ExpectSectAlign);
            if third.0 >= 0 then Ok(third) else Err(ExidxNotFound)
  }

  /** A found `.ARM.exidx` section lies within the image, on the 8-byte grid, and holds
      whole 8-byte records. */
  lemma ExidxPlacementInImage(img: Image, base: int)
    requires ExidxPlacement(img, base).Ok?
    ensures var p := ExidxPlacement(img, base).value;
      && 0 <= p.0 && p.0 + p.1 <= |img|
      && p.0 % EntrySize == 0 && p.1 % EntrySize == 0
  {
    var test := ProperEntries(img, base);
    var first := ExidxScan.ScanOf(img, test, 0, ExpectSectAlign);
    if first.value.0 >= 0 {
      ScanPlacement(img, test, ExpectSectAlign);
    } else {
      var second := ExidxScan.ScanOf(img, test, 0, ExpectSectAlign / 2);
      if second.value.0 >= 0 {
        ScanPlacement(img, test, ExpectSectAlign / 2);
      } else {
        EmptyScan.EmptyFound(img, 0, ExpectSectAlign);
        var r := EmptyScan.EmptyScanOf(img, 0, ExpectSectAlign).0;
        GridOfEight(r, ExpectSectAlign);
      }
    }
  }

  /** A match of the scan on a grid of 8 or 16 bytes from position 0 lies within the
      image and on the 8-byte grid. */
  lemma ScanPlacement(img: Image, test: ExidxScan.EntryTest, sectAlign: nat)
    requires sectAlign == 8 || sectAlign == 16
    requires ExidxScan.ScanOf(img, test, 0, sectAlign).Ok?
    requires ExidxScan.ScanOf(img, test, 0, sectAlign).value.0 >= 0
    ensures var p := ExidxScan.ScanOf(img, test, 0, sectAlign).value;
      && 0 <= p.0 && p.0 + p.1 <= |img|
      && p.0 % EntrySize == 0 && p.1 % EntrySize == 0
  {
    var p := ExidxScan.ScanOf(img, test, 0, sectAlign).value;
    var pos: nat := p.0;
    var c := ExidxScan.TryCandidate(img, test, sectAlign, pos);
    assert (pos - 0) % sectAlign == 0 && c.Ok? && c.value.Match? && p.1 == EntrySize * c.value.count by {
      ExidxScan.ScanFound(img, test, 0, sectAlign);
    }
    var n := c.value.count;
    assert pos + EntrySize * n + EntrySize <= |img|;
    Prel31.MulModZero(n, EntrySize);
    GridOfEight(pos, sectAlign);
  }

  lemma GridOfEight(x: int, sectAlign: nat)
    requires sectAlign == 8 || sectAlign == 16
    requires (x - 0) % sectAlign == 0
    ensures x % 8 == 0
  {
    if sectAlign == 16 {
      var q := x / 16;
      assert x == 8 * (2 * q);
      Prel31.MulModZero(2 * q, 8);
    }
  }

  /** No `.ARM.exidx` section is found exactly when none of the three searches finds one;
      an error of a search ends the settling with that error. */
  lemma ExidxNotFoundExactly(img: Image, base: int)
    ensures var test := ProperEntries(img, base);
      ExidxPlacement(img, base) == Err(ExidxNotFound)
      <==> (&& ExidxScan.ScanOf(img, test, 0, ExpectSectAlign) == Ok(ExidxScan.NotFound)
            && ExidxScan.ScanOf(img, test, 0, ExpectSectAlign / 2) == Ok(ExidxScan.NotFound)
            && EmptyScan.EmptyScanOf(img, 0, ExpectSectAlign) == ExidxScan.NotFound)
  {
    var test := ProperEntries(img, base);
    var first := ExidxScan.ScanOf(img, test, 0, ExpectSectAlign);
    var second := ExidxScan.ScanOf(img, test, 0, ExpectSectAlign / 2);
    var third := EmptyScan.EmptyScanOf(img, 0, ExpectSectAlign);
    if first.Ok? && first.value != ExidxScan.NotFound {
      ExidxScan.ScanFound(img, test, 0, ExpectSectAlign);
    }
    if second.Ok? && second.value != ExidxScan.NotFound {
      ExidxScan.ScanFound(img, test, 0, ExpectSectAlign / 2);
    }
    if third != ExidxScan.NotFound {
      EmptyScan.EmptyFound(img, 0, ExpectSectAlign);
    }
    ExidxScan.ProperEntryTestSeekErrorsOnly(img, base, ExpectFuncAlign, ExpectSectAlign);
    if first.Err? {
      ExidxScan.ScanSeekErrors(img, test, 0, ExpectSectAlign);
    } else if first.value.0 < 0 && second.Err? {
      ExidxScan.ScanSeekErrors(img, test, 0, ExpectSectAlign / 2);
    }
  }

  // ----- .ARM.exidx -----

  /** `armfw_bin2elf_settle_sect_ARMexidx` on the tables `t`, given the outcome `found`
      of the search (consulted only without a user-given address): a section address the
      user did not give is the one found; a size the user did not give is the one found,
      or 16 bytes next to a user-given address. */
  function SettledExidx(found: Result<(int, int)>, base: int, t: Sections): (r: Result<Sections>)
    ensures r.Ok? ==> AddsAtMost(t.addr, r.value.addr, ExidxName) && AddsAtMost(t.size, r.value.size, ExidxName)
    ensures r.Ok? ==> ExidxName in r.value.addr.vals && ExidxName in r.value.size.vals
    ensures r.Err? <==> ExidxName !in t.addr.vals && found.Err?
    ensures r.Err? ==> r.error == found.error
  {
    if ExidxName !in t.addr.vals then
      match found
      case Err(e) => Err(e)
      case Ok(place) =>
        var size := if ExidxName in t.size.vals then t.size else Put(t.size, ExidxName, place.1);
        Ok(Sections(Put(t.addr, ExidxName, base + place.0), size))
    else
      var size := if ExidxName in t.size.vals then t.size else Put(t.size, ExidxName, ExpectSectAlign);
      Ok(Sections(t.addr, size))
  }

  /** Without a user-given address, `.ARM.exidx` is placed where the search of the image
      found it, within the image mapped at `base`; with one, the default size is 16
      bytes. */
  lemma ExidxDefaults(img: Image, base: int, t: Sections)
    ensures var found := ExidxPlacement(img, base);
      var r := SettledExidx(found, base, t);
      && (ExidxName !in t.addr.vals && r.Ok? ==>
            && r.value.addr.vals[ExidxName] == base + found.value.0
            && base <= r.value.addr.vals[ExidxName] <= base + |img|
            && (ExidxName !in t.size.vals ==>
                  && r.value.size.vals[ExidxName] == found.value.1
                  && r.value.addr.vals[ExidxName] + r.value.size.vals[ExidxName] <= base + |img|))
      && (ExidxName in t.addr.vals && ExidxName !in t.size.vals ==>
            r.Ok? && r.value.size.vals[ExidxName] == ExpectSectAlign)
  {
    var found := ExidxPlacement(img, base);
    if ExidxName !in t.addr.vals && found.Ok? {
      ExidxPlacementInImage(img, base);
    }
  }

  /** The search part of `armfw_bin2elf_settle_sect_ARMexidx`. */
  method LocateExidx(img: Image, base: int) returns (r: Result<(int, int)>)
    ensures r == ExidxPlacement(img, base)
  {
    var test := ProperEntries(img, base);
    r := ExidxScan.DetectExidx(img, test, 0, ExpectSectAlign);
    if r.Ok? && r.value.0 < 0 {
      r := ExidxScan.DetectExidx(img, test, 0, ExpectSectAlign / 2);
      if r.Ok? && r.value.0 < 0 {
        var empty := EmptyScan.DetectEmptyExidx(img, 0, ExpectSectAlign);
        r := if empty.0 < 0 then Err(ExidxNotFound) else Ok(empty);
      }
    }
  }

  /** `armfw_bin2elf_settle_sect_ARMexidx`; the image is the firmware file's contents.
      The search runs only when the user gave no address. */
  method SettleExidx(po: Options, img: Image) returns (o: Outcome)
    modifies po
    ensures po.baseaddr == old(po.baseaddr) && po.addrspacelen == old(po.addrspacelen)
    ensures match SettledExidx(ExidxPlacement(img, po.baseaddr), po.baseaddr, old(po.Tables()))
      case Ok(t) => o == Pass && po.sectionAddr == t.addr && po.sectionSize == t.size
      case Err(e) => o == Fail(e) && po.Tables() == old(po.Tables())
  {
    ghost var placement := ExidxPlacement(img, po.baseaddr);
    var found: Result<(int, int)> := Ok((0, 0));
    if ExidxName !in po.sectionAddr.vals {
      found := LocateExidx(img, po.baseaddr);
    }
    assert SettledExidx(found, po.baseaddr, po.Tables()) == SettledExidx(placement, po.baseaddr, po.Tables());
    o := RecordExidx(po, found);
  }

  /** The updates of `armfw_bin2elf_settle_sect_ARMexidx` once the outcome `found` of the
      search is known. */
  method RecordExidx(po: Options, found: Result<(int, int)>) returns (o: Outcome)
    modifies po
    ensures po.baseaddr == old(po.baseaddr) && po.addrspacelen == old(po.addrspacelen)
    ensures match SettledExidx(found, po.baseaddr, old(po.Tables()))
      case Ok(t) => o == Pass && po.sectionAddr == t.addr && po.sectionSize == t.size
      case Err(e) => o == Fail(e) && po.Tables() == old(po.Tables())
  {
    var len: int;
    if ExidxName !in po.sectionAddr.vals {
      if found.Err? {
        return Fail(found.error);
      }
      po.sectionAddr := Put(po.sectionAddr, ExidxName, po.baseaddr + found.value.0);
      len := found.value.1;
    } else {
      len := ExpectSectAlign;
    }
    assert po.sectionAddr == SettledExidx(found, po.baseaddr, old(po.Tables())).value.addr;
    if ExidxName !in po.sectionSize.vals {
      po.sectionSize := Put(po.sectionSize, ExidxName, len);
    }
    o := Pass;
  }

  // ----- .text -----

  /** `armfw_bin2elf_settle_sect_text` on the tables `t`: `.text` defaults to the start
      of the image and to ending where `.ARM.exidx` starts; without a user-given address
      there must be more than `8 * ExpectFuncAlign` bytes before `.ARM.exidx`. */
  function SettledText(base: int, t: Sections): (r: Result<Sections>)
    requires ExidxName in t.addr.vals
    ensures r.Ok? ==> AddsAtMost(t.addr, r.value.addr, TextName) && AddsAtMost(t.size, r.value.size, TextName)
    ensures r.Ok? ==> TextName in r.value.addr.vals && TextName in r.value.size.vals
    ensures r.Err? <==> TextName !in t.addr.vals && t.addr.vals[ExidxName] - base <= ExpectFuncAlign * 8
    ensures r.Err? ==> r.error == NoPlaceForText
  {
    var exidxPos := t.addr.vals[ExidxName] - base;
    if TextName !in t.addr.vals && exidxPos <= ExpectFuncAlign * 8 then Err(NoPlaceForText)
    else
      var addr := if TextName in t.addr.vals then t.addr else Put(t.addr, TextName, base + 0);
      var size :=
        if TextName in t.size.vals then t.size
        else Put(t.size, TextName, exidxPos - (addr.vals[TextName] - base));
      Ok(Sections(addr, size))
  }

  /** The default `.text` starts at `base`, and a default size makes it end exactly where
      `.ARM.exidx` starts; with neither given it is longer than `8 * ExpectFuncAlign`. */
  lemma TextReachesExidx(base: int, t: Sections)
    requires ExidxName in t.addr.vals
    requires SettledText(base, t).Ok?
    ensures var r := SettledText(base, t).value;
      && (TextName !in t.addr.vals ==> r.addr.vals[TextName] == base)
      && (TextName !in t.size.vals ==>
            r.addr.vals[TextName] + r.size.vals[TextName] == r.addr.vals[ExidxName])
      && (TextName !in t.addr.vals && TextName !in t.size.vals ==>
            r.size.vals[TextName] > ExpectFuncAlign * 8)
  {
  }

  /** `armfw_bin2elf_settle_sect_text`. */
  method SettleText(po: Options) returns (o: Outcome)
    requires ExidxName in po.sectionAddr.vals
    modifies po
    ensures po.baseaddr == old(po.baseaddr) && po.addrspacelen == old(po.addrspacelen)
    ensures match SettledText(po.baseaddr, old(po.Tables()))
      case Ok(t) => o == Pass && po.sectionAddr == t.addr && po.sectionSize == t.size
      case Err(e) => o == Fail(e) && po.Tables() == old(po.Tables())
  {
    var sectPos := po.sectionAddr.vals[ExidxName] - po.baseaddr;
    if TextName !in po.sectionAddr.vals {
      if sectPos > ExpectFuncAlign * 8 {
        po.sectionAddr := Put(po.sectionAddr, TextName, po.baseaddr + 0);
      } else {
        return Fail(NoPlaceForText);
      }
    }
    assert po.sectionAddr == SettledText(po.baseaddr, old(po.Tables())).value.addr;
    if TextName !in po.sectionSize.vals {
      po.sectionSize := Put(po.sectionSize, TextName, sectPos - (po.sectionAddr.vals[TextName] - po.baseaddr));
    }
    o := Pass;
  }

  // ----- .data -----

  /** `armfw_bin2elf_settle_sect_data` on the tables `t`, for an image of `fileLen`
      bytes: `.data` defaults to starting where `.ARM.exidx` ends and to running to the
      end of the image. */
  function SettledData(fileLen: nat, base: int, t: Sections): (r: Sections)
    requires ExidxName in t.addr.vals && ExidxName in t.size.vals
    ensures AddsAtMost(t.addr, r.addr, DataName) && AddsAtMost(t.size, r.size, DataName)
    ensures DataName in r.addr.vals && DataName in r.size.vals
  {
    var addr :=
      if DataName in t.addr.vals then t.addr
      else Put(t.addr, DataName, base + (t.addr.vals[ExidxName] - base + t.size.vals[ExidxName]));
    var sectPos := addr.vals[DataName] - base;
    var size := if DataName in t.size.vals then t.size else Put(t.size, DataName, fileLen - sectPos);
    Sections(addr, size)
  }

  /** The default `.data` follows `.ARM.exidx` directly, and a default size makes it end
      at the end of the image. */
  lemma DataFollowsExidx(fileLen: nat, base: int, t: Sections)
    requires ExidxName in t.addr.vals && ExidxName in t.size.vals
    ensures var r := SettledData(fileLen, base, t);
      && (DataName !in t.addr.vals ==>
            r.addr.vals[DataName] == t.addr.vals[ExidxName] + t.size.vals[ExidxName])
      && (DataName !in t.size.vals ==> r.addr.vals[DataName] + r.size.vals[DataName] == base + fileLen)
  {
  }

  /** `armfw_bin2elf_settle_sect_data`; the image is the firmware file's contents. */
  method SettleData(po: Options, img: Image)
    requires ExidxName in po.sectionAddr.vals && ExidxName in po.sectionSize.vals
    modifies po
    ensures po.baseaddr == old(po.baseaddr) && po.addrspacelen == old(po.addrspacelen)
    ensures po.sectionAddr == SettledData(|img|, po.baseaddr, old(po.Tables())).addr
    ensures po.sectionSize == SettledData(|img|, po.baseaddr, old(po.Tables())).size
  {
    var sectPos := po.sectionAddr.vals[ExidxName] - po.baseaddr;
    var sectLen := po.sectionSize.vals[ExidxName];
    if DataName !in po.sectionAddr.vals {
      sectPos := sectPos + sectLen;
      po.sectionAddr := Put(po.sectionAddr, DataName, po.baseaddr + sectPos);
    } else {
      sectPos := po.sectionAddr.vals[DataName] - po.baseaddr;
    }
    assert po.sectionAddr == SettledData(|img|, po.baseaddr, old(po.Tables())).addr;
    if DataName !in po.sectionSize.vals {
      po.sectionSize := Put(po.sectionSize, DataName, |img| - sectPos);
    }
  }

  // ----- .bss and .bssN -----

  /** `^[.]bss[0-9]+$`: `.bss` followed by one or more decimal digits. */
  predicate IsNumberedBss(name: string) {
    && |name| > 4
    && name[0] == '.' && name[1] == 'b' && name[2] == 's' && name[3] == 's'
    && forall i | 4 <= i < |name| :: '0' <= name[i] <= '9'
  }

  /** The loop over the size table's keys `ks`, from index `j` on, that places the
      numbered `.bss` sections one after the other: `pos` and `len` are the file position
      and size of the section placed last. A section with a user-given address restarts
      the chain there. Other keys are skipped; a key without a size (which a well-formed
      table does not have) would end the loop. */
  function BssChain(ks: seq<string>, j: nat, size: map<string, int>, base: int, pos: int, len: int,
                    addr: ODict): ODict
    requires j <= |ks|
    decreases |ks| - j
  {
    if j == |ks| then addr
    else
      var name := ks[j];
      if !IsNumberedBss(name) then BssChain(ks, j + 1, size, base, pos, len, addr)
      else if name !in size then addr
      else
        var p := if name in addr.vals then addr.vals[name] - base else pos + len;
        var a := if name in addr.vals then addr else Put(addr, name, base + p);
        BssChain(ks, j + 1, size, base, p, size[name], a)
  }

  /** The chain keeps every address already in the table and adds only numbered
      `.bss` sections of `ks` that have a size; when every key from `j` on has a size,
      it places every numbered one. */
  lemma {:induction false} BssChainGrows(ks: seq<string>, j: nat, size: map<string, int>, base: int,
                                         pos: int, len: int, addr: ODict)
    requires j <= |ks|
    ensures var r := BssChain(ks, j, size, base, pos, len, addr);
      && Extends(addr, r)
      && (forall k :: k in r.vals ==> k in addr.vals || (k in ks && IsNumberedBss(k) && k in size))
      && ((forall i :: j <= i < |ks| ==> ks[i] in size) ==>
            forall i :: j <= i < |ks| && IsNumberedBss(ks[i]) ==> ks[i] in r.vals)
    decreases |ks| - j
  {
    if j < |ks| {
      var name := ks[j];
      if !IsNumberedBss(name) {
        BssChainGrows(ks, j + 1, size, base, pos, len, addr);
      } else if name in size {
        var p := if name in addr.vals then addr.vals[name] - base else pos + len;
        var a := if name in addr.vals then addr else Put(addr, name, base + p);
        BssChainGrows(ks, j + 1, size, base, p, size[name], a);
      }
    }
  }

  /** `armfw_bin2elf_settle_sect_bss` on the tables `t`: `.bss` defaults to starting
      where `.data` ends and to reaching the end of the address space (or to size 0 when
      it starts past it); then the numbered `.bss` sections with a size are chained. */
  function SettledBss(base: int, addrspacelen: int, t: Sections): Sections
    requires DataName in t.addr.vals && DataName in t.size.vals
  {
    var dataPos := t.addr.vals[DataName] - base;
    var dataLen := t.size.vals[DataName];
    var bssPos := if BssName in t.addr.vals then t.addr.vals[BssName] - base else dataPos + dataLen;
    var addr := if BssName in t.addr.vals then t.addr else Put(t.addr, BssName, base + bssPos);
    var size := if BssName in t.size.vals then t.size else Put(t.size, BssName, Max0(addrspacelen - bssPos));
    Sections(BssChain(size.keys, 0, size.vals, base, bssPos, size.vals[BssName], addr), size)
  }

  /** The tables after `.bss` itself is settled, before the chain. */
  function BssPlaced(base: int, addrspacelen: int, t: Sections): (r: (Sections, int))
    requires DataName in t.addr.vals && DataName in t.size.vals
    ensures BssName in r.0.addr.vals && BssName in r.0.size.vals
    ensures r.1 == r.0.addr.vals[BssName] - base
    ensures SettledBss(base, addrspacelen, t)
         == Sections(BssChain(r.0.size.keys, 0, r.0.size.vals, base, r.1, r.0.size.vals[BssName], r.0.addr), r.0.size)
  {
    var dataPos := t.addr.vals[DataName] - base;
    var dataLen := t.size.vals[DataName];
    var bssPos := if BssName in t.addr.vals then t.addr.vals[BssName] - base else dataPos + dataLen;
    var addr := if BssName in t.addr.vals then t.addr else Put(t.addr, BssName, base + bssPos);
    var size := if BssName in t.size.vals then t.size else Put(t.size, BssName, Max0(addrspacelen - bssPos));
    (Sections(addr, size), bssPos)
  }

  /** Settling `.bss` keeps every address and size already in the tables, adds the size
      of `.bss` only, and adds addresses only for `.bss` and the numbered `.bss`
      sections that have a size. */
  lemma BssKeepsOverrides(base: int, addrspacelen: int, t: Sections)
    requires DataName in t.addr.vals && DataName in t.size.vals
    ensures var r := SettledBss(base, addrspacelen, t);
      && AddsAtMost(t.size, r.size, BssName) && Extends(t.addr, r.addr)
      && BssName in r.addr.vals && BssName in r.size.vals
      && forall k :: k in r.addr.vals ==>
           k in t.addr.vals || k == BssName || (IsNumberedBss(k) && k in t.size.vals)
  {
    var (mid, bssPos) := BssPlaced(base, addrspacelen, t);
    BssChainGrows(mid.size.keys, 0, mid.size.vals, base, bssPos, mid.size.vals[BssName], mid.addr);
  }

  /** The default `.bss` follows `.data` directly; a default size is never negative and
      makes `.bss` end at the end of the address space when it starts within it. */
  lemma BssDefaults(base: int, addrspacelen: int, t: Sections)
    requires DataName in t.addr.vals && DataName in t.size.vals
    ensures var r := SettledBss(base, addrspacelen, t);
      && BssName in r.addr.vals && BssName in r.size.vals
      && (BssName !in t.addr.vals ==>
            r.addr.vals[BssName] == t.addr.vals[DataName] + t.size.vals[DataName])
      && (BssName !in t.size.vals ==>
            && r.size.vals[BssName] >= 0
            && (r.addr.vals[BssName] <= base + addrspacelen ==>
                  r.addr.vals[BssName] + r.size.vals[BssName] == base + addrspacelen)
            && (r.addr.vals[BssName] > base + addrspacelen ==> r.size.vals[BssName] == 0))
  {
    var (mid, bssPos) := BssPlaced(base, addrspacelen, t);
    BssChainGrows(mid.size.keys, 0, mid.size.vals, base, bssPos, mid.size.vals[BssName], mid.addr);
  }

  /** The section that the numbered `.bss` section at index `i` of `ks` is placed after,
      for a chain that starts at index `j` after section `first`: the last numbered one
      from `j` to before `i`, or `first` when there is none. */
  function Predecessor(ks: seq<string>, j: nat, i: nat, first: string): string
    requires j <= i <= |ks|
    decreases i - j
  {
    if i == j then first
    else Predecessor(ks, j + 1, i, if IsNumberedBss(ks[j]) then ks[j] else first)
  }

  /** Along the chain, every numbered section placed by default starts where its
      predecessor ends. */
  lemma {:induction false} ChainLinks(ks: seq<string>, j: nat, size: map<string, int>, base: int,
                                      pos: int, len: int, addr: ODict, prev: string)
    requires j <= |ks|
    requires forall a, b :: 0 <= a < b < |ks| ==> ks[a] != ks[b]
    requires forall i :: j <= i < |ks| ==> ks[i] in size
    requires prev in addr.vals && prev in size
    requires pos == addr.vals[prev] - base && len == size[prev]
    ensures var r := BssChain(ks, j, size, base, pos, len, addr);
      forall i :: j <= i < |ks| && IsNumberedBss(ks[i]) && ks[i] !in addr.vals ==>
        var p := Predecessor(ks, j, i, prev);
        ks[i] in r.vals && p in r.vals && p in size && r.vals[ks[i]] == r.vals[p] + size[p]
    decreases |ks| - j
  {
    if j < |ks| {
      var r := BssChain(ks, j, size, base, pos, len, addr);
      var name := ks[j];
      if !IsNumberedBss(name) {
        ChainLinks(ks, j + 1, size, base, pos, len, addr, prev);
      } else {
        var p := if name in addr.vals then addr.vals[name] - base else pos + len;
        var a := if name in addr.vals then addr else Put(addr, name, base + p);
        assert r == BssChain(ks, j + 1, size, base, p, size[name], a);
        BssChainGrows(ks, j + 1, size, base, p, size[name], a);
        ChainLinks(ks, j + 1, size, base, p, size[name], a, name);
        forall i | j < i < |ks| && IsNumberedBss(ks[i]) && ks[i] !in addr.vals
          ensures ks[i] !in a.vals
        {
          assert ks[i] != name;
        }
      }
    }
  }

  /** The chaining of `armfw_bin2elf_settle_sect_bss`: on well-formed tables, every
      numbered `.bss` section placed by default starts where the section before it in the
      chain ends (the last numbered `.bss` section before it in the size table, or `.bss`). */
  lemma BssChained(base: int, addrspacelen: int, t: Sections)
    requires t.Valid() && DataName in t.addr.vals && DataName in t.size.vals
    ensures var r := SettledBss(base, addrspacelen, t);
      var ks := r.size.keys;
      forall i :: 0 <= i < |ks| && IsNumberedBss(ks[i]) && ks[i] !in t.addr.vals ==>
        var p := Predecessor(ks, 0, i, BssName);
        ks[i] in r.addr.vals && p in r.addr.vals && p in r.size.vals && r.addr.vals[ks[i]] == r.addr.vals[p] + r.size.vals[p]
  {
    var (mid, bssPos) := BssPlaced(base, addrspacelen, t);
    assert mid.size.Valid() by {
      if BssName !in t.size.vals {
        PutValid(t.size, BssName, mid.size.vals[BssName]);
      }
    }
    var ks := mid.size.keys;
    ChainLinks(ks, 0, mid.size.vals, base, bssPos, mid.size.vals[BssName], mid.addr, BssName);
    forall i | 0 <= i < |ks| && IsNumberedBss(ks[i]) && ks[i] !in t.addr.vals
      ensures ks[i] !in mid.addr.vals
    {
      assert |ks[i]| != |BssName|;
    }
  }

  /** `armfw_bin2elf_settle_sect_bss`. */
  method SettleBss(po: Options)
    requires DataName in po.sectionAddr.vals && DataName in po.sectionSize.vals
    modifies po
    ensures po.baseaddr == old(po.baseaddr) && po.addrspacelen == old(po.addrspacelen)
    ensures po.sectionAddr == SettledBss(po.baseaddr, po.addrspacelen, old(po.Tables())).addr
    ensures po.sectionSize == SettledBss(po.baseaddr, po.addrspacelen, old(po.Tables())).size
  {
    ghost var goal := SettledBss(po.baseaddr, po.addrspacelen, po.Tables());
    ghost var mid := BssPlaced(po.baseaddr, po.addrspacelen, po.Tables());
    var sectPos := po.sectionAddr.vals[DataName] - po.baseaddr;
    var sectLen := po.sectionSize.vals[DataName];
    if BssName !in po.sectionAddr.vals {
      sectPos := sectPos + sectLen;
      po.sectionAddr := Put(po.sectionAddr, BssName, po.baseaddr + sectPos);
    } else {
      sectPos := po.sectionAddr.vals[BssName] - po.baseaddr;
    }
    if BssName !in po.sectionSize.vals {
      sectLen := po.addrspacelen - sectPos;
      if sectLen < 0 {
        sectLen := 0;
      }
      po.sectionSize := Put(po.sectionSize, BssName, sectLen);
    } else {
      sectLen := po.sectionSize.vals[BssName];
    }
    assert po.Tables() == mid.0 && sectPos == mid.1 && sectLen == po.sectionSize.vals[BssName];
    var names := po.sectionSize.keys;
    var i := 0;
    while i < |names|
      invariant i <= |names|
      invariant po.baseaddr == old(po.baseaddr) && po.addrspacelen == old(po.addrspacelen)
      invariant po.sectionSize == goal.size && names == goal.size.keys
      invariant BssChain(names, i, po.sectionSize.vals, po.baseaddr, sectPos, sectLen, po.sectionAddr) == goal.addr
    {
      var name := names[i];
      if IsNumberedBss(name) {
        if name !in po.sectionSize.vals {
          break;
        }
        if name !in po.sectionAddr.vals {
          sectPos := sectPos + sectLen;
          po.sectionAddr := Put(po.sectionAddr, name, po.baseaddr + sectPos);
        } else {
          sectPos := po.sectionAddr.vals[name] - po.baseaddr;
        }
        sectLen := po.sectionSize.vals[name];
      }
      i := i + 1;
    }
  }

  // ----- well-formed tables -----

  /** Every settling step keeps both tables well formed. */
  lemma SettledExidxValid(found: Result<(int, int)>, base: int, t: Sections)
    requires t.Valid()
    ensures SettledExidx(found, base, t).Ok? ==> SettledExidx(found, base, t).value.Valid()
  {
    PutKeepsValid(t.addr, ExidxName);
    PutKeepsValid(t.size, ExidxName);
  }

  lemma SettledTextValid(base: int, t: Sections)
    requires t.Valid() && ExidxName in t.addr.vals
    ensures SettledText(base, t).Ok? ==> SettledText(base, t).value.Valid()
  {
    PutKeepsValid(t.addr, TextName);
    PutKeepsValid(t.size, TextName);
  }

  lemma SettledDataValid(fileLen: nat, base: int, t: Sections)
    requires t.Valid() && ExidxName in t.addr.vals && ExidxName in t.size.vals
    ensures SettledData(fileLen, base, t).Valid()
  {
    PutKeepsValid(t.addr, DataName);
    PutKeepsValid(t.size, DataName);
  }

  lemma {:induction false} BssChainValid(ks: seq<string>, j: nat, size: map<string, int>, base: int,
                                         pos: int, len: int, addr: ODict)
    requires j <= |ks| && addr.Valid()
    ensures BssChain(ks, j, size, base, pos, len, addr).Valid()
    decreases |ks| - j
  {
    if j < |ks| {
      var name := ks[j];
      if !IsNumberedBss(name) {
        BssChainValid(ks, j + 1, size, base, pos, len, addr);
      } else if name in size {
        var p := if name in addr.vals then addr.vals[name] - base else pos + len;
        PutKeepsValid(addr, name);
        var a := if name in addr.vals then addr else Put(addr, name, base + p);
        BssChainValid(ks, j + 1, size, base, p, size[name], a);
      }
    }
  }

  lemma SettledBssValid(base: int, addrspacelen: int, t: Sections)
    requires t.Valid() && DataName in t.addr.vals && DataName in t.size.vals
    ensures SettledBss(base, addrspacelen, t).Valid()
  {
    var (mid, bssPos) := BssPlaced(base, addrspacelen, t);
    PutKeepsValid(t.addr, BssName);
    PutKeepsValid(t.size, BssName);
    assert mid.Valid();
    BssChainValid(mid.size.keys, 0, mid.size.vals, base, bssPos, mid.size.vals[BssName], mid.addr);
  }
}
