/** `armfw_bin2elf_get_sections_order`: the sections listed by address. For each distinct
    address up to the address-space limit, in ascending order, first the sections there
    whose size is known and below 1, then the other sections there, each group in the
    dictionary's order. The first address past the limit ends the list. */
module SectionOrder {
  import opened OrderedDict
  import Layout

  /** The first pass at an address takes the sections whose size is given and below 1. */
  predicate ZeroSized(size: map<string, int>, name: string) {
    name in size && size[name] < 1
  }

  /** The names among `ks` placed at `a` whose `ZeroSized` is `zero`, in the order of `ks`. */
  function Group(ks: seq<string>, addr: map<string, int>, size: map<string, int>, a: int,
                 zero: bool): seq<string>
    decreases |ks|
  {
    if ks == [] then []
    else
      var n := ks[|ks| - 1];
      Group(ks[..|ks| - 1], addr, size, a, zero)
        + (if n in addr && addr[n] == a && ZeroSized(size, n) == zero then [n] else [])
  }

  /** A group holds exactly the names of `ks` at `a` whose `ZeroSized` is `zero`. */
  lemma {:induction false} GroupMembers(ks: seq<string>, addr: map<string, int>, size: map<string, int>,
                                        a: int, zero: bool)
    ensures forall x :: x in Group(ks, addr, size, a, zero)
                    <==> x in ks && x in addr && addr[x] == a && ZeroSized(size, x) == zero
    decreases |ks|
  {
    if ks != [] {
      var n := ks[|ks| - 1];
      GroupMembers(ks[..|ks| - 1], addr, size, a, zero);
      assert ks == ks[..|ks| - 1] + [n];
    }
  }

  /** One more key extends the group of its prefix by that key or by nothing. */
  lemma GroupStep(ks: seq<string>, i: nat, addr: map<string, int>, size: map<string, int>, a: int,
                  zero: bool)
    requires i < |ks|
    ensures Group(ks[..i + 1], addr, size, a, zero)
         == Group(ks[..i], addr, size, a, zero)
            + (if ks[i] in addr && addr[ks[i]] == a && ZeroSized(size, ks[i]) == zero then [ks[i]] else [])
  {
    assert ks[..i + 1][..i] == ks[..i];
  }

  /** Puts `x` into its place in the ascending `r`, unless it is there already. */
  function Insert(r: seq<int>, x: int): seq<int>
    decreases |r|
  {
    if r == [] then [x]
    else if x < r[0] then [x] + r
    else if x == r[0] then r
    else [r[0]] + Insert(r[1..], x)
  }

  predicate Ascends(r: seq<int>) {
    forall i, j :: 0 <= i < j < |r| ==> r[i] < r[j]
  }

  lemma {:induction false} InsertAscends(r: seq<int>, x: int)
    requires Ascends(r)
    ensures Ascends(Insert(r, x))
    ensures forall y :: y in Insert(r, x) <==> y in r || y == x
    decreases |r|
  {
    if r != [] && x > r[0] {
      InsertAscends(r[1..], x);
      var t := Insert(r[1..], x);
      assert r == [r[0]] + r[1..];
      forall y | y in t
        ensures r[0] < y
      {
        if y != x {
          var j :| 0 <= j < |r[1..]| && r[1..][j] == y;
          assert r[j + 1] == y;
        }
      }
      var u := [r[0]] + t;
      forall i, j | 0 <= i < j < |u|
        ensures u[i] < u[j]
      {
        assert u[j] == t[j - 1] && t[j - 1] in t;
        if i > 0 {
          assert u[i] == t[i - 1];
        }
      }
    }
  }

  /** `sorted(set(values))` of the addresses that `keys` are mapped to. */
  function Ascending(keys: seq<string>, vals: map<string, int>): seq<int>
    decreases |keys|
  {
    if keys == [] then []
    else
      var k := keys[|keys| - 1];
      var r := Ascending(keys[..|keys| - 1], vals);
      if k in vals then Insert(r, vals[k]) else r
  }

  /** The addresses ascend strictly and are exactly the values of the mapped keys. */
  lemma {:induction false} AscendingValues(keys: seq<string>, vals: map<string, int>)
    ensures Ascends(Ascending(keys, vals))
    ensures forall k :: k in keys && k in vals ==> vals[k] in Ascending(keys, vals)
    ensures forall x :: x in Ascending(keys, vals) ==> exists k :: k in keys && k in vals && vals[k] == x
    decreases |keys|
  {
    if keys != [] {
      var p := keys[..|keys| - 1];
      var k := keys[|keys| - 1];
      AscendingValues(p, vals);
      assert keys == p + [k];
      var r := Ascending(p, vals);
      if k in vals {
        InsertAscends(r, vals[k]);
      }
      forall x | x in Ascending(keys, vals)
        ensures exists k' :: k' in keys && k' in vals && vals[k'] == x
      {
        if x in r {
          var k' :| k' in p && k' in vals && vals[k'] == x;
          assert k' in keys;
        } else {
          assert k in keys;
        }
      }
    }
  }

  /** The number of leading addresses of `addrs`, from `k` on, that lie within `limit`. */
  function CutAt(addrs: seq<int>, limit: int, k: nat): (c: nat)
    requires k <= |addrs|
    ensures k <= c <= |addrs|
    ensures forall j :: k <= j < c ==> addrs[j] <= limit
    ensures c < |addrs| ==> addrs[c] > limit
    decreases |addrs| - k
  {
    if k == |addrs| || addrs[k] > limit then k else CutAt(addrs, limit, k + 1)
  }

  /** The sections of `ks` at each address of `addrs` in turn: zero-sized ones first. */
  function Groups(addrs: seq<int>, ks: seq<string>, addr: map<string, int>,
                  size: map<string, int>): seq<string>
    decreases |addrs|
  {
    if addrs == [] then []
    else
      var a := addrs[|addrs| - 1];
      Groups(addrs[..|addrs| - 1], ks, addr, size) + Group(ks, addr, size, a, true) + Group(ks, addr, size, a, false)
  }

  /** What `armfw_bin2elf_get_sections_order` returns for the address table `d`, the
      size table `size` and the address-space limit `limit`. */
  function OrderOf(d: ODict, size: map<string, int>, limit: int): seq<string> {
    var addrs := Ascending(d.keys, d.vals);
    Groups(addrs[..CutAt(addrs, limit, 0)], d.keys, d.vals, size)
  }

  method GetSectionsOrder(po: Layout.Options, limit: int) returns (order: seq<string>)
    requires po.sectionAddr.Valid()
    ensures order == OrderOf(po.sectionAddr, po.sectionSize.vals, limit)
  {
    var d := po.sectionAddr;
    var size := po.sectionSize.vals;
    var addrs := Ascending(d.keys, d.vals);
    order := [];
    var k := 0;
    while k < |addrs|
      invariant k <= |addrs|
      invariant forall j :: 0 <= j < k ==> addrs[j] <= limit
      invariant order == Groups(addrs[..k], d.keys, d.vals, size)
    {
      var a := addrs[k];
      if a > limit {
        break;
      }
      ghost var before := order;
      order := AppendZeroSized(d.keys, d.vals, size, a, order);
      AscendingValues(d.keys, d.vals);
      PlacedOnlyIfZero(addrs, k, d, size, before, order);
      order := AppendOthers(d.keys, d.vals, size, a, order);
      GroupsStep(addrs, k, d.keys, d.vals, size);
      k := k + 1;
    }
    CutIs(addrs, limit, 0, k);
  }

  /** The first inner loop at address `a`: the zero-sized sections there, in key order. */
  method AppendZeroSized(keys: seq<string>, addr: map<string, int>, size: map<string, int>, a: int,
                         order: seq<string>) returns (r: seq<string>)
    requires forall n :: n in keys ==> n in addr
    ensures r == order + Group(keys, addr, size, a, true)
  {
    r := order;
    var i := 0;
    while i < |keys|
      invariant i <= |keys|
      invariant r == order + Group(keys[..i], addr, size, a, true)
    {
      var n := keys[i];
      GroupStep(keys, i, addr, size, a, true);
      if addr[n] == a && n in size && size[n] < 1 {
        Appended(order, Group(keys[..i], addr, size, a, true), n);
        r := r + [n];
      }
      i := i + 1;
    }
    assert keys[..i] == keys;
  }

  /** The second inner loop at address `a`: the sections there not listed yet, in key order.
      With distinct keys, and with exactly the zero-sized ones among them listed already,
      these are the others. */
  method AppendOthers(keys: seq<string>, addr: map<string, int>, size: map<string, int>, a: int,
                      order: seq<string>) returns (r: seq<string>)
    requires forall n :: n in keys ==> n in addr
    requires forall i, j :: 0 <= i < j < |keys| ==> keys[i] != keys[j]
    requires forall n :: n in keys && addr[n] == a ==> (n in order <==> ZeroSized(size, n))
    ensures r == order + Group(keys, addr, size, a, false)
  {
    r := order;
    var i := 0;
    while i < |keys|
      invariant i <= |keys|
      invariant r == order + Group(keys[..i], addr, size, a, false)
    {
      var n := keys[i];
      GroupStep(keys, i, addr, size, a, false);
      if addr[n] == a {
        GroupMembers(keys[..i], addr, size, a, false);
        if n in Group(keys[..i], addr, size, a, false) {
          assert false;
        }
      }
      if addr[n] == a && n !in r {
        Appended(order, Group(keys[..i], addr, size, a, false), n);
        r := r + [n];
      }
      i := i + 1;
    }
    assert keys[..i] == keys;
  }

  /** One more address extends the groups of its prefix by that address's two groups. */
  lemma GroupsStep(addrs: seq<int>, k: nat, ks: seq<string>, addr: map<string, int>,
                   size: map<string, int>)
    requires k < |addrs|
    ensures Groups(addrs[..k + 1], ks, addr, size)
         == Groups(addrs[..k], ks, addr, size) + Group(ks, addr, size, addrs[k], true)
            + Group(ks, addr, size, addrs[k], false)
  {
    assert addrs[..k + 1][..k] == addrs[..k];
  }

  lemma Appended(a: seq<string>, b: seq<string>, n: string)
    ensures (a + b) + [n] == a + (b + [n])
  {
  }

  /** Every section in the groups of `addrs` has its address among `addrs`. */
  lemma {:induction false} GroupsMembers(addrs: seq<int>, ks: seq<string>, addr: map<string, int>,
                                         size: map<string, int>)
    ensures forall x :: x in Groups(addrs, ks, addr, size) <==> x in ks && x in addr && addr[x] in addrs
    decreases |addrs|
  {
    if addrs != [] {
      var p := addrs[..|addrs| - 1];
      var a := addrs[|addrs| - 1];
      GroupsMembers(p, ks, addr, size);
      GroupMembers(ks, addr, size, a, true);
      GroupMembers(ks, addr, size, a, false);
      assert addrs == p + [a];
    }
  }

  /** Before the second pass at `addrs[k]`, a section at that address is listed exactly
      when it is zero-sized: the groups of earlier addresses hold other addresses. */
  lemma PlacedOnlyIfZero(addrs: seq<int>, k: nat, d: ODict, size: map<string, int>,
                         before: seq<string>, order: seq<string>)
    requires d.Valid()
    requires k < |addrs|
    requires Ascends(addrs)
    requires before == Groups(addrs[..k], d.keys, d.vals, size)
    requires order == before + Group(d.keys, d.vals, size, addrs[k], true)
    ensures forall n :: n in d.keys && d.vals[n] == addrs[k] ==> (n in order <==> ZeroSized(size, n))
  {
    GroupsMembers(addrs[..k], d.keys, d.vals, size);
    GroupMembers(d.keys, d.vals, size, addrs[k], true);
    forall n | n in d.keys && d.vals[n] == addrs[k]
      ensures n !in before
    {
      if n in before {
        assert false;
      }
    }
  }

  /** The outer loop stops exactly at the cut. */
  lemma {:induction false} CutIs(addrs: seq<int>, limit: int, j: nat, k: nat)
    requires j <= k <= |addrs|
    requires forall p :: 0 <= p < k ==> addrs[p] <= limit
    requires k == |addrs| || addrs[k] > limit
    ensures CutAt(addrs, limit, j) == k
    decreases k - j
  {
    if j < k {
      CutIs(addrs, limit, j + 1, k);
    }
  }

  /** Which addresses survive the cut: exactly those within the limit. */
  lemma CutMembers(addrs: seq<int>, limit: int)
    requires Ascends(addrs)
    ensures forall x :: x in addrs[..CutAt(addrs, limit, 0)] <==> x in addrs && x <= limit
  {
    var c := CutAt(addrs, limit, 0);
    forall x | x in addrs && x <= limit
      ensures x in addrs[..c]
    {
      var j :| 0 <= j < |addrs| && addrs[j] == x;
      assert addrs[..c][j] == x;
    }
  }

  ghost predicate Distinct(s: seq<string>) {
    forall i, j :: 0 <= i < j < |s| ==> s[i] != s[j]
  }

  /** `x` may be listed before `y`: a lower address, or the same address and not a
      zero-sized section after one that is not. */
  predicate Before(addr: map<string, int>, size: map<string, int>, x: string, y: string) {
    && x in addr && y in addr
    && (addr[x] < addr[y] || (addr[x] == addr[y] && (ZeroSized(size, x) || !ZeroSized(size, y))))
  }

  ghost predicate InOrder(s: seq<string>, addr: map<string, int>, size: map<string, int>) {
    forall i, j :: 0 <= i < j < |s| ==> Before(addr, size, s[i], s[j])
  }

  lemma DistinctConcat(a: seq<string>, b: seq<string>)
    requires Distinct(a) && Distinct(b)
    requires forall x :: x in a ==> x !in b
    ensures Distinct(a + b)
  {
    var c := a + b;
    forall i, j | 0 <= i < j < |c|
      ensures c[i] != c[j]
    {
      if i < |a| && j >= |a| {
        assert c[i] in a && c[j] == b[j - |a|];
      } else if i >= |a| {
        assert c[i] == b[i - |a|] && c[j] == b[j - |a|];
      }
    }
  }

  lemma InOrderConcat(a: seq<string>, b: seq<string>, addr: map<string, int>, size: map<string, int>)
    requires InOrder(a, addr, size) && InOrder(b, addr, size)
    requires forall x, y :: x in a && y in b ==> Before(addr, size, x, y)
    ensures InOrder(a + b, addr, size)
  {
    var c := a + b;
    forall i, j | 0 <= i < j < |c|
      ensures Before(addr, size, c[i], c[j])
    {
      if i < |a| && j >= |a| {
        assert c[i] in a && c[j] == b[j - |a|] && b[j - |a|] in b;
      } else if i >= |a| {
        assert c[i] == b[i - |a|] && c[j] == b[j - |a|];
      }
    }
  }

  /** A group of distinct keys lists each name once. */
  lemma {:induction false} GroupDistinct(ks: seq<string>, addr: map<string, int>, size: map<string, int>,
                                         a: int, zero: bool)
    requires Distinct(ks)
    ensures Distinct(Group(ks, addr, size, a, zero))
    decreases |ks|
  {
    if ks != [] {
      var p := ks[..|ks| - 1];
      var n := ks[|ks| - 1];
      GroupDistinct(p, addr, size, a, zero);
      GroupMembers(p, addr, size, a, zero);
      DistinctConcat(Group(p, addr, size, a, zero),
                     if n in addr && addr[n] == a && ZeroSized(size, n) == zero then [n] else []);
    }
  }

  /** Every name in the groups of the addresses before the last lies below the last. */
  lemma EarlierBelow(addrs: seq<int>, ks: seq<string>, addr: map<string, int>, size: map<string, int>)
    requires Ascends(addrs) && addrs != []
    ensures forall x :: x in Groups(addrs[..|addrs| - 1], ks, addr, size) ==> x in addr && addr[x] < addrs[|addrs| - 1]
  {
    var p := addrs[..|addrs| - 1];
    GroupsMembers(p, ks, addr, size);
    forall x | x in Groups(p, ks, addr, size)
      ensures addr[x] < addrs[|addrs| - 1]
    {
      var j :| 0 <= j < |p| && p[j] == addr[x];
      assert addrs[j] == addr[x];
    }
  }

  /** The groups of an ascending address sequence list each name once. */
  lemma {:induction false} GroupsDistinct(addrs: seq<int>, ks: seq<string>, addr: map<string, int>,
                                          size: map<string, int>)
    requires Ascends(addrs) && Distinct(ks)
    ensures Distinct(Groups(addrs, ks, addr, size))
    decreases |addrs|
  {
    if addrs != [] {
      var p := addrs[..|addrs| - 1];
      var a := addrs[|addrs| - 1];
      var before := Groups(p, ks, addr, size);
      var zeros := Group(ks, addr, size, a, true);
      var others := Group(ks, addr, size, a, false);
      GroupsDistinct(p, ks, addr, size);
      EarlierBelow(addrs, ks, addr, size);
      GroupMembers(ks, addr, size, a, true);
      GroupMembers(ks, addr, size, a, false);
      GroupDistinct(ks, addr, size, a, true);
      GroupDistinct(ks, addr, size, a, false);
      DistinctConcat(before, zeros);
      DistinctConcat(before + zeros, others);
    }
  }

  /** The groups of an ascending address sequence list the names in order. */
  lemma {:induction false} GroupsInOrder(addrs: seq<int>, ks: seq<string>, addr: map<string, int>,
                                         size: map<string, int>)
    requires Ascends(addrs)
    ensures InOrder(Groups(addrs, ks, addr, size), addr, size)
    decreases |addrs|
  {
    if addrs != [] {
      var p := addrs[..|addrs| - 1];
      var a := addrs[|addrs| - 1];
      var before := Groups(p, ks, addr, size);
      var zeros := Group(ks, addr, size, a, true);
      var others := Group(ks, addr, size, a, false);
      GroupsInOrder(p, ks, addr, size);
      EarlierBelow(addrs, ks, addr, size);
      GroupMembers(ks, addr, size, a, true);
      GroupMembers(ks, addr, size, a, false);
      assert InOrder(zeros, addr, size) by {
        assert forall i :: 0 <= i < |zeros| ==> zeros[i] in zeros;
      }
      assert InOrder(others, addr, size) by {
        assert forall i :: 0 <= i < |others| ==> others[i] in others;
      }
      InOrderConcat(before, zeros, addr, size);
      InOrderConcat(before + zeros, others, addr, size);
    }
  }

  /** The section order lists every section placed within the limit, each exactly once,
      in ascending address order, and at a shared address the sections whose size is
      below 1 before the others. Sections placed beyond the limit are left out. */
  lemma OrderShape(d: ODict, size: map<string, int>, limit: int)
    requires d.Valid()
    ensures var o := OrderOf(d, size, limit);
      && (forall n :: n in o <==> n in d.vals && d.vals[n] <= limit)
      && (forall i, j :: 0 <= i < j < |o| ==> o[i] != o[j])
      && (forall i, j :: 0 <= i < j < |o| ==> d.vals[o[i]] <= d.vals[o[j]])
      && (forall i, j :: 0 <= i < j < |o| && d.vals[o[i]] == d.vals[o[j]] && ZeroSized(size, o[j])
            ==> ZeroSized(size, o[i]))
  {
    var addrs := Ascending(d.keys, d.vals);
    var c := CutAt(addrs, limit, 0);
    var o := OrderOf(d, size, limit);
    AscendingValues(d.keys, d.vals);
    CutMembers(addrs, limit);
    GroupsMembers(addrs[..c], d.keys, d.vals, size);
    GroupsDistinct(addrs[..c], d.keys, d.vals, size);
    GroupsInOrder(addrs[..c], d.keys, d.vals, size);
    assert forall i :: 0 <= i < |o| ==> o[i] in o;
  }
}
