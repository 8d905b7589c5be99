/** `armfw_bin2elf_get_sections_align` and `armfw_bin2elf_get_sections_pos`: the ELF
    alignment and the file offset of each ordered section, once addresses and sizes are
    settled. */
module SectionPlacement {
  import opened Outcomes
  import Layout
  import Prel31

  /** The exponent the halving starts from: `expect_sect_align << 1` is `2^5`. */
  const TopExponent: nat := 5

  /** The largest `e <= j` with `2^e` dividing `x`: halving from `2^j` while it does not. */
  function LargestAlign(x: int, j: nat): (e: nat)
    decreases j
  {
    if j == 0 || x % Prel31.Pow2(j) == 0 then j else LargestAlign(x, j - 1)
  }

  /** The alignment given to a section at `addr` of size `size`. */
  function NaturalAlign(addr: int, size: int): int {
    Prel31.Pow2(LargestAlign(size, LargestAlign(addr, TopExponent)))
  }

  /** `LargestAlign` finds a divisor, and no larger power up to `2^j` divides. */
  lemma {:induction false} LargestAlignDivides(x: int, j: nat)
    ensures LargestAlign(x, j) <= j
    ensures x % Prel31.Pow2(LargestAlign(x, j)) == 0
    ensures forall k :: LargestAlign(x, j) < k <= j ==> x % Prel31.Pow2(k) != 0
    decreases j
  {
    if j > 0 && x % Prel31.Pow2(j) != 0 {
      LargestAlignDivides(x, j - 1);
    }
  }

  lemma {:induction false} Pow2Monotone(k: nat, e: nat)
    requires k <= e
    ensures Prel31.Pow2(k) <= Prel31.Pow2(e)
    decreases e - k
  {
    if k < e {
      Pow2Monotone(k, e - 1);
    }
  }

  /** A power of two divides every multiple of a larger one. */
  lemma {:induction false} DividesSmallerPower(x: int, k: nat, e: nat)
    requires k <= e
    requires x % Prel31.Pow2(e) == 0
    ensures x % Prel31.Pow2(k) == 0
    decreases e - k
  {
    if k < e {
      var q := x / Prel31.Pow2(e);
      assert x == q * Prel31.Pow2(e);
      assert Prel31.Pow2(e) == 2 * Prel31.Pow2(e - 1);
      assert x == (2 * q) * Prel31.Pow2(e - 1);
      Prel31.MulModZero(2 * q, Prel31.Pow2(e - 1));
      DividesSmallerPower(x, k, e - 1);
    }
  }

  /** The alignment is a power of two no larger than `2^5 = 2 * expect_sect_align`, it
      divides both the address and the size, and it is the largest such power. */
  lemma NaturalAlignIsLargest(addr: int, size: int)
    ensures exists e :: 0 <= e <= TopExponent && NaturalAlign(addr, size) == Prel31.Pow2(e)
    ensures addr % NaturalAlign(addr, size) == 0 && size % NaturalAlign(addr, size) == 0
    ensures forall k :: 0 <= k <= TopExponent && addr % Prel31.Pow2(k) == 0 && size % Prel31.Pow2(k) == 0
              ==> Prel31.Pow2(k) <= NaturalAlign(addr, size)
  {
    var e1 := LargestAlign(addr, TopExponent);
    var e2 := LargestAlign(size, e1);
    LargestAlignDivides(addr, TopExponent);
    LargestAlignDivides(size, e1);
    DividesSmallerPower(addr, e2, e1);
    forall k | 0 <= k <= TopExponent && addr % Prel31.Pow2(k) == 0 && size % Prel31.Pow2(k) == 0
      ensures Prel31.Pow2(k) <= NaturalAlign(addr, size)
    {
      Pow2Monotone(k, e2);
    }
  }

  /** The halving loop `while x % a != 0: a >>= 1`, from `a == 2^j`. */
  method HalveUntilDivides(x: int, a: int, ghost j: nat) returns (r: int)
    requires a == Prel31.Pow2(j)
    ensures r == Prel31.Pow2(LargestAlign(x, j))
  {
    r := a;
    ghost var e := j;
    while x % r != 0
      invariant r == Prel31.Pow2(e)
      invariant LargestAlign(x, e) == LargestAlign(x, j)
      decreases e
    {
      assert e > 0;
      Prel31.Pow2Succ(e - 1);
      r := r / 2;
      e := e - 1;
    }
  }

  method GetSectionsAlign(po: Layout.Options, order: seq<string>) returns (aligns: map<string, int>)
    requires forall n :: n in order ==> n in po.sectionAddr.vals && n in po.sectionSize.vals
    ensures forall n :: n in aligns <==> n in order
    ensures forall n :: n in aligns ==>
      aligns[n] == NaturalAlign(po.sectionAddr.vals[n], po.sectionSize.vals[n])
  {
    aligns := map[];
    var i := 0;
    while i < |order|
      invariant i <= |order|
      invariant forall n :: n in aligns <==> n in order[..i]
      invariant forall n :: n in aligns ==>
        aligns[n] == NaturalAlign(po.sectionAddr.vals[n], po.sectionSize.vals[n])
    {
      var name := order[i];
      assert Prel31.Pow2(TopExponent) == Layout.ExpectSectAlign * 2;
      var a := HalveUntilDivides(po.sectionAddr.vals[name], Layout.ExpectSectAlign * 2, TopExponent);
      a := HalveUntilDivides(po.sectionSize.vals[name], a, LargestAlign(po.sectionAddr.vals[name], TopExponent));
      aligns := aligns[name := a];
      assert order[..i + 1] == order[..i] + [name];
      i := i + 1;
    }
    assert order[..i] == order;
  }

  /** The file offset of a section at `addr`: the image is a dump of memory from `base`
      on, so its distance from `base`, or 0 for a section before `base`. */
  function FilePos(addr: int, base: int): int {
    if addr - base < 0 then 0 else addr - base
  }

  method GetSectionsPos(po: Layout.Options, order: seq<string>) returns (positions: map<string, int>)
    requires forall n :: n in order ==> n in po.sectionAddr.vals
    ensures forall n :: n in positions <==> n in order
    ensures forall n :: n in positions ==> (positions[n] == FilePos(po.sectionAddr.vals[n], po.baseaddr) && positions[n] >= 0
      && (po.sectionAddr.vals[n] >= po.baseaddr ==> po.baseaddr + positions[n] == po.sectionAddr.vals[n])
      && (po.sectionAddr.vals[n] < po.baseaddr ==> positions[n] == 0))
  {
    positions := map[];
    var i := 0;
    while i < |order|
      invariant i <= |order|
      invariant forall n :: n in positions <==> n in order[..i]
      invariant forall n :: n in positions ==> positions[n] == FilePos(po.sectionAddr.vals[n], po.baseaddr)
    {
      var name := order[i];
      var pos := po.sectionAddr.vals[name] - po.baseaddr;
      if pos < 0 {
        pos := 0;
      }
      positions := positions[name := pos];
      assert order[..i + 1] == order[..i] + [name];
      i := i + 1;
    }
    assert order[..i] == order;
  }
}
