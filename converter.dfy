/** The in-memory part of `armfw_bin2elf`: settle the four kinds of section in turn, list
    the sections by address, reconcile their sizes, and work out each one's alignment and
    file offset. What it hands over is what the ELF update needs from the image. */
module Converter {
  import opened Outcomes
  import opened OrderedDict
  import opened ExidxEntry
  import Layout
  import SectionOrder
  import SectionSizes
  import SectionPlacement

  /** `addrspace_limit` for 32-bit ARM, the only kind the converter supports. */
  const AddrSpaceLimit: int := 0xFFFF_FFFF

  /** The section order, alignments and file offsets the ELF update is given. */
  datatype Recovery = Recovery(order: seq<string>, aligns: map<string, int>, positions: map<string, int>)

  /** The four settling steps of `armfw_bin2elf` on the tables `t`, once the outcome
      `found` of the `.ARM.exidx` search is known, for an image of `fileLen` bytes. */
  function SettledAll(found: Result<(int, int)>, fileLen: nat, base: int, addrspacelen: int,
                      t: Layout.Sections): (r: Result<Layout.Sections>)
    ensures r.Ok? ==> r.value.addr.vals.Keys >= t.addr.vals.Keys + {Layout.ExidxName, Layout.TextName, Layout.DataName, Layout.BssName}
  {
    match Layout.SettledExidx(found, base, t)
    case Err(e) => Err(e)
    case Ok(t1) =>
      match Layout.SettledText(base, t1)
      case Err(e) => Err(e)
      case Ok(t2) =>
        var t3 := Layout.SettledData(fileLen, base, t2);
        Layout.BssKeepsOverrides(base, addrspacelen, t3);
        Ok(Layout.SettledBss(base, addrspacelen, t3))
  }

  /** Well-formed tables stay well formed through the settling steps. */
  lemma SettledAllValid(found: Result<(int, int)>, fileLen: nat, base: int, addrspacelen: int,
                        t: Layout.Sections)
    requires t.Valid()
    ensures SettledAll(found, fileLen, base, addrspacelen, t).Ok? ==> SettledAll(found, fileLen, base, addrspacelen, t).value.Valid()
  {
    Layout.SettledExidxValid(found, base, t);
    var t1 := Layout.SettledExidx(found, base, t);
    if t1.Ok? {
      Layout.SettledTextValid(base, t1.value);
      var t2 := Layout.SettledText(base, t1.value);
      if t2.Ok? {
        Layout.SettledDataValid(fileLen, base, t2.value);
        Layout.SettledBssValid(base, addrspacelen, Layout.SettledData(fileLen, base, t2.value));
      }
    }
  }

  /** The settling steps of `armfw_bin2elf`, for the contents `img` of the firmware file. */
  method SettleSections(po: Layout.Options, img: Image) returns (o: Outcome)
    modifies po
    ensures po.baseaddr == old(po.baseaddr) && po.addrspacelen == old(po.addrspacelen)
    ensures match SettledAll(Layout.ExidxPlacement(img, po.baseaddr), |img|, po.baseaddr, po.addrspacelen, old(po.Tables()))
      case Ok(t) => o == Pass && po.sectionAddr == t.addr && po.sectionSize == t.size
      case Err(e) => o == Fail(e)
  {
    o := Layout.SettleExidx(po, img);
    if o.Fail? {
      return;
    }
    o := Layout.SettleText(po);
    if o.Fail? {
      return;
    }
    Layout.SettleData(po, img);
    Layout.SettleBss(po);
  }

  /** The listed sections are those placed within the address space, once each, by
      ascending address. */
  ghost predicate ListedOnce(order: seq<string>, addr: map<string, int>) {
    && (forall n :: n in order <==> n in addr && addr[n] <= AddrSpaceLimit)
    && (forall i, j :: 0 <= i < j < |order| ==> order[i] != order[j])
    && (forall i, j :: 0 <= i < j < |order| ==> addr[order[i]] <= addr[order[j]])
  }

  /** Each listed section has a size and ends no later than the next one starts, the last
      no later than `end`, and none past the ceiling of the address space. */
  ghost predicate Sized(order: seq<string>, addr: map<string, int>, size: map<string, int>, end: int) {
    && (forall n :: n in order ==> n in addr && n in size)
    && (forall m :: 0 <= m < |order| - 1 ==> addr[order[m]] + size[order[m]] <= addr[order[m + 1]])
    && (|order| > 0 ==> addr[order[|order| - 1]] + size[order[|order| - 1]] <= end)
    && (forall n :: n in order ==> addr[n] + size[n] <= SectionSizes.Ceiling(AddrSpaceLimit))
  }

  /** Each listed section is aligned to the largest power of two up to 32 that divides its
      address and size, and is found in the image at its distance from the base. */
  ghost predicate Placed(rec: Recovery, addr: map<string, int>, size: map<string, int>, base: int) {
    && (forall n :: n in rec.order ==> n in addr && n in size)
    && (forall n :: n in rec.aligns <==> n in rec.order)
    && (forall n :: n in rec.aligns ==> rec.aligns[n] == SectionPlacement.NaturalAlign(addr[n], size[n]))
    && (forall n :: n in rec.positions <==> n in rec.order)
    && (forall n :: n in rec.positions ==> rec.positions[n] == SectionPlacement.FilePos(addr[n], base))
  }

  /** Whether the size pass over the sections in address order succeeds on the tables
      `t`, and with which error it stops otherwise. */
  function SizesOutcomeOf(t: Layout.Sections, base: int, addrspacelen: int): Outcome
    requires t.addr.Valid()
  {
    var order := SectionOrder.OrderOf(t.addr, t.size.vals, AddrSpaceLimit);
    SectionOrder.OrderShape(t.addr, t.size.vals, AddrSpaceLimit);
    match SectionSizes.SizesOf(order, t.addr.vals, t.size, base, addrspacelen, AddrSpaceLimit)
    case Ok(_) => Pass
    case Err(e) => Fail(e)
  }

  /** The result fails exactly when the size pass fails, with the same error. */
  ghost predicate SizePassAgrees(r: Result<Recovery>, t: Layout.Sections, base: int, addrspacelen: int) {
    t.addr.Valid() && OutcomeOf(r) == SizesOutcomeOf(t, base, addrspacelen)
  }

  /** `order` is the address order of the tables `t`, and the size pass over it turns the
      sizes of `t` into `final`. */
  ghost predicate SizePassResult(order: seq<string>, t: Layout.Sections, base: int, addrspacelen: int,
                                 final: ODict) {
    && order == SectionOrder.OrderOf(t.addr, t.size.vals, AddrSpaceLimit)
    && (forall n :: n in order ==> n in t.addr.vals)
    && SectionSizes.SizesOf(order, t.addr.vals, t.size, base, addrspacelen, AddrSpaceLimit) == Ok(final)
  }

  /** A duplicate-free order whose size pass succeeded is sized. */
  lemma PassedSizes(order: seq<string>, t: Layout.Sections, base: int, addrspacelen: int, final: ODict)
    requires SectionSizes.Distinct(order)
    requires SizePassResult(order, t, base, addrspacelen, final)
    ensures Sized(order, t.addr.vals, final.vals, base + addrspacelen + 1)
  {
    SectionSizes.SizedLayout(order, t.addr.vals, t.size, base, addrspacelen, AddrSpaceLimit);
  }

  /** What the reconciliation steps leave, from the settled tables `t`, in the tables
      `final` and the result `r`: the addresses are kept, the result is the outcome of the
      size pass, and on success the order is the address order of `t`, the size pass turned
      the sizes of `t` into those of `final`, and the recovered sections are listed once,
      sized and placed. */
  ghost predicate Reconciled(r: Result<Recovery>, t: Layout.Sections, base: int, addrspacelen: int,
                             final: Layout.Sections) {
    && final.addr == t.addr
    && SizePassAgrees(r, t, base, addrspacelen)
    && (r.Ok? ==>
          && SizePassResult(r.value.order, t, base, addrspacelen, final.size)
          && ListedOnce(r.value.order, final.addr.vals)
          && Sized(r.value.order, final.addr.vals, final.size.vals, base + addrspacelen + 1)
          && Placed(r.value, final.addr.vals, final.size.vals, base))
  }

  /** The outcome a result stands for. */
  function OutcomeOf(r: Result<Recovery>): Outcome {
    if r.Ok? then Pass else Fail(r.error)
  }

  /** The reconciliation steps of `armfw_bin2elf` on settled, well-formed tables. */
  method Reconcile(po: Layout.Options) returns (r: Result<Recovery>)
    requires po.sectionAddr.Valid()
    modifies po
    ensures po.baseaddr == old(po.baseaddr) && po.addrspacelen == old(po.addrspacelen)
    ensures Reconciled(r, old(po.Tables()), po.baseaddr, po.addrspacelen, po.Tables())
  {
    ghost var t0 := po.Tables();
    var order := SectionOrder.GetSectionsOrder(po, AddrSpaceLimit);
    assert forall n :: n in order ==> n in po.sectionAddr.vals by {
      SectionOrder.OrderShape(po.sectionAddr, po.sectionSize.vals, AddrSpaceLimit);
    }
    var o := SectionSizes.UpdateSectSizes(po, order, AddrSpaceLimit);
    if o.Fail? {
      r := Err(o.error);
      FailedReconciled(order, t0, po.baseaddr, po.addrspacelen, o.error, po.Tables());
      return;
    }
    assert forall n :: n in order ==> n in po.sectionSize.vals by {
      SectionOrder.OrderShape(t0.addr, t0.size.vals, AddrSpaceLimit);
      SectionSizes.SizedLayout(order, t0.addr.vals, t0.size, po.baseaddr, po.addrspacelen, AddrSpaceLimit);
    }
    var rec := Place(po, order);
    r := Ok(rec);
    PassedReconciled(rec, t0, po.baseaddr, po.addrspacelen, po.Tables());
  }

  /** A failed size pass leaves the reconciliation failed with its error. */
  lemma FailedReconciled(order: seq<string>, t: Layout.Sections, base: int, addrspacelen: int, e: Error,
                         final: Layout.Sections)
    requires t.addr.Valid() && final.addr == t.addr
    requires order == SectionOrder.OrderOf(t.addr, t.size.vals, AddrSpaceLimit)
    requires forall n :: n in order ==> n in t.addr.vals
    requires SectionSizes.SizesOf(order, t.addr.vals, t.size, base, addrspacelen, AddrSpaceLimit) == Err(e)
    ensures Reconciled(Err(e), t, base, addrspacelen, final)
  {
  }

  /** A successful size pass over the address order, followed by placement, leaves the
      reconciliation successful with that order, sized and placed. */
  lemma PassedReconciled(rec: Recovery, t: Layout.Sections, base: int, addrspacelen: int,
                         final: Layout.Sections)
    requires t.addr.Valid() && final.addr == t.addr
    requires rec.order == SectionOrder.OrderOf(t.addr, t.size.vals, AddrSpaceLimit)
    requires forall n :: n in rec.order ==> n in t.addr.vals
    requires SectionSizes.SizesOf(rec.order, t.addr.vals, t.size, base, addrspacelen, AddrSpaceLimit) == Ok(final.size)
    requires Placed(rec, final.addr.vals, final.size.vals, base)
    ensures Reconciled(Ok(rec), t, base, addrspacelen, final)
  {
    SectionOrder.OrderShape(t.addr, t.size.vals, AddrSpaceLimit);
    PassedSizes(rec.order, t, base, addrspacelen, final.size);
  }

  /** The alignment and file offset steps of `armfw_bin2elf`. */
  method Place(po: Layout.Options, order: seq<string>) returns (rec: Recovery)
    requires forall n :: n in order ==> n in po.sectionAddr.vals && n in po.sectionSize.vals
    ensures rec.order == order
    ensures Placed(rec, po.sectionAddr.vals, po.sectionSize.vals, po.baseaddr)
  {
    var aligns := SectionPlacement.GetSectionsAlign(po, order);
    var positions := SectionPlacement.GetSectionsPos(po, order);
    rec := Recovery(order, aligns, positions);
  }

  /** `armfw_bin2elf` up to the ELF update, for the contents `img` of the firmware file,
      with the tables parsed from the command line. */
  method Bin2Elf(po: Layout.Options, img: Image) returns (r: Result<Recovery>)
    requires po.sectionAddr.Valid() && po.sectionSize.Valid()
    modifies po
    ensures po.baseaddr == old(po.baseaddr) && po.addrspacelen == old(po.addrspacelen)
    ensures match SettledAll(Layout.ExidxPlacement(img, po.baseaddr), |img|, po.baseaddr, po.addrspacelen, old(po.Tables()))
      case Err(e) => r == Err(e)
      case Ok(t) => Reconciled(r, t, po.baseaddr, po.addrspacelen, po.Tables())
  {
    ghost var settled := SettledAll(Layout.ExidxPlacement(img, po.baseaddr), |img|, po.baseaddr, po.addrspacelen, po.Tables());
    SettledAllValid(Layout.ExidxPlacement(img, po.baseaddr), |img|, po.baseaddr, po.addrspacelen, po.Tables());
    var o := SettleSections(po, img);
    if o.Fail? {
      return Err(o.error);
    }
    assert settled.Ok? && po.sectionAddr == settled.value.addr && po.sectionAddr.Valid();
    ghost var t := po.Tables();
    r := Reconcile(po);
    assert Reconciled(r, t, po.baseaddr, po.addrspacelen, po.Tables());
  }
}
