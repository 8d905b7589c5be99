/** `armfw_bin2elf_update_sect_sizes`: a pass over the section order from the last section
    back to the first. Each section may extend up to the start of the next section, or for
    the last one up to the end of the address space, and never past the highest end the
    address-space limit allows. A missing size is set to that room; a larger given size is
    reduced to it. A section that starts past its room stops the conversion. */
module SectionSizes {
  import opened Outcomes
  import opened OrderedDict
  import Layout

  /** The highest end the limit allows: `addrspace_limit + 1 - expect_sect_align`. */
  function Ceiling(limit: int): int {
    limit + 1 - Layout.ExpectSectAlign
  }

  function Min(x: int, y: int): int {
    if x <= y then x else y
  }

  /** The loop of the pass read as a recursion: `order[..i]` are still to do, and `next` is
      where the section after `order[i - 1]` starts. */
  function SizesFrom(order: seq<string>, addr: map<string, int>, size: ODict, i: nat, next: int,
                     limit: int): Result<ODict>
    requires i <= |order|
    requires forall n :: n in order ==> n in addr
    decreases i
  {
    if i == 0 then Ok(size)
    else
      var name := order[i - 1];
      var a := addr[name];
      var delta := next - a;
      if delta < 0 then
        Err(if name == order[|order| - 1] then AddrSpaceTooSmall(name) else NegativeDistance(name))
      else
        var room := if a + delta > Ceiling(limit) then Ceiling(limit) - a else delta;
        if room < 0 then Err(LimitTooSmall(name))
        else
          var size' :=
            if name in size.vals then (if size.vals[name] > room then Put(size, name, room) else size)
            else Put(size, name, room);
          SizesFrom(order, addr, size', i - 1, a, limit)
  }

  /** The size table after the pass, which starts past the end of the address space,
      `base + addrspacelen + 1`, or the failure that stops it. */
  function SizesOf(order: seq<string>, addr: map<string, int>, size: ODict, base: int,
                   addrspacelen: int, limit: int): Result<ODict>
    requires forall n :: n in order ==> n in addr
  {
    SizesFrom(order, addr, size, |order|, base + addrspacelen + 1, limit)
  }

  method UpdateSectSizes(po: Layout.Options, order: seq<string>, limit: int) returns (o: Outcome)
    requires forall n :: n in order ==> n in po.sectionAddr.vals
    modifies po
    ensures po.baseaddr == old(po.baseaddr) && po.addrspacelen == old(po.addrspacelen)
    ensures po.sectionAddr == old(po.sectionAddr)
    ensures match SizesOf(order, po.sectionAddr.vals, old(po.sectionSize), po.baseaddr, po.addrspacelen, limit)
      case Ok(s) => o == Pass && po.sectionSize == s
      case Err(e) => o == Fail(e)
  {
    ghost var goal := SizesOf(order, po.sectionAddr.vals, po.sectionSize, po.baseaddr, po.addrspacelen, limit);
    var next := po.baseaddr + po.addrspacelen + 1;
    var i := |order|;
    while i > 0
      invariant 0 <= i <= |order|
      invariant po.baseaddr == old(po.baseaddr) && po.addrspacelen == old(po.addrspacelen)
      invariant po.sectionAddr == old(po.sectionAddr)
      invariant SizesFrom(order, po.sectionAddr.vals, po.sectionSize, i, next, limit) == goal
    {
      var name := order[i - 1];
      var delta := next - po.sectionAddr.vals[name];
      if name == order[|order| - 1] {
        if delta < 0 {
          return Fail(AddrSpaceTooSmall(name));
        }
      } else {
        if delta < 0 {
          return Fail(NegativeDistance(name));
        }
      }
      if po.sectionAddr.vals[name] + delta > limit + 1 - Layout.ExpectSectAlign {
        delta := limit + 1 - Layout.ExpectSectAlign - po.sectionAddr.vals[name];
      }
      if delta < 0 {
        return Fail(LimitTooSmall(name));
      }
      if name in po.sectionSize.vals {
        if po.sectionSize.vals[name] > delta {
          po.sectionSize := Put(po.sectionSize, name, delta);
        }
      } else {
        po.sectionSize := Put(po.sectionSize, name, delta);
      }
      next := po.sectionAddr.vals[name];
      i := i - 1;
    }
    return Pass;
  }

  ghost predicate Distinct(s: seq<string>) {
    forall i, j :: 0 <= i < j < |s| ==> s[i] != s[j]
  }

  /** Where the section after `order[m]` starts; after the last one, `end`. */
  function NextStart(order: seq<string>, addr: map<string, int>, m: nat, end: int): int
    requires m < |order|
    requires forall n :: n in order ==> n in addr
  {
    if m + 1 < |order| then addr[order[m + 1]] else end
  }

  /** The pass accepts `order[m]`: it starts no later than the next section (or the end
      of the address space) and no later than the ceiling. */
  predicate Fits(order: seq<string>, addr: map<string, int>, m: nat, end: int, limit: int)
    requires m < |order|
    requires forall n :: n in order ==> n in addr
  {
    addr[order[m]] <= NextStart(order, addr, m, end) && addr[order[m]] <= Ceiling(limit)
  }

  /** The room of `order[m]`: up to the next start, and no further than the ceiling. */
  function Room(order: seq<string>, addr: map<string, int>, m: nat, end: int, limit: int): int
    requires m < |order|
    requires forall n :: n in order ==> n in addr
  {
    Min(NextStart(order, addr, m, end), Ceiling(limit)) - addr[order[m]]
  }

  /** The size the pass leaves: the given one if it fits the room, otherwise the room. */
  function Settled(size: map<string, int>, name: string, room: int): int {
    if name in size && size[name] <= room then size[name] else room
  }

  /** The pass over the sections `order[..i]` still to do succeeds exactly when each of
      them fits. */
  lemma {:induction false} SizesFromSucceeds(order: seq<string>, addr: map<string, int>, size: ODict,
                                             i: nat, end: int, limit: int)
    requires i <= |order|
    requires forall n :: n in order ==> n in addr
    ensures SizesFrom(order, addr, size, i, if i < |order| then addr[order[i]] else end, limit).Ok?
        <==> forall m :: 0 <= m < i ==> Fits(order, addr, m, end, limit)
    decreases i
  {
    if i > 0 {
      var name := order[i - 1];
      var a := addr[name];
      var next := if i < |order| then addr[order[i]] else end;
      assert next == NextStart(order, addr, i - 1, end);
      var delta := next - a;
      if delta < 0 {
        assert !Fits(order, addr, i - 1, end, limit);
      } else {
        var room := if a + delta > Ceiling(limit) then Ceiling(limit) - a else delta;
        if room < 0 {
          assert !Fits(order, addr, i - 1, end, limit);
        } else {
          assert Fits(order, addr, i - 1, end, limit);
          var size' :=
            if name in size.vals then (if size.vals[name] > room then Put(size, name, room) else size)
            else Put(size, name, room);
          assert SizesFrom(order, addr, size, i, next, limit) == SizesFrom(order, addr, size', i - 1, a, limit);
          SizesFromSucceeds(order, addr, size', i - 1, end, limit);
        }
      }
    }
  }

  /** Each of `order[..i]` is sized in `r` by its room, with `size` as the sizes before. */
  ghost predicate SizedUpTo(order: seq<string>, addr: map<string, int>, size: map<string, int>,
                            r: map<string, int>, i: nat, end: int, limit: int)
    requires i <= |order|
    requires forall n :: n in order ==> n in addr
  {
    forall m :: 0 <= m < i ==>
      order[m] in r && r[order[m]] == Settled(size, order[m], Room(order, addr, m, end, limit))
  }

  /** Every name outside `order[..i]` has in `r` the entry it has in `size`, or none. */
  ghost predicate KeepsOthers(order: seq<string>, size: map<string, int>, r: map<string, int>, i: nat)
    requires i <= |order|
  {
    forall n :: n !in order[..i] ==> (n in r <==> n in size) && (n in size ==> r[n] == size[n])
  }

  /** A successful pass over `order[..i]` sizes each of those sections by its room and
      leaves every other entry as it was. */
  lemma {:induction false} SizesFromResult(order: seq<string>, addr: map<string, int>, size: ODict,
                                           i: nat, end: int, limit: int)
    requires i <= |order|
    requires forall n :: n in order ==> n in addr
    requires Distinct(order)
    requires SizesFrom(order, addr, size, i, if i < |order| then addr[order[i]] else end, limit).Ok?
    ensures var r := SizesFrom(order, addr, size, i, if i < |order| then addr[order[i]] else end, limit).value;
      SizedUpTo(order, addr, size.vals, r.vals, i, end, limit) && KeepsOthers(order, size.vals, r.vals, i)
    decreases i
  {
    if i > 0 {
      var name := order[i - 1];
      var a := addr[name];
      var next := if i < |order| then addr[order[i]] else end;
      var delta := next - a;
      assert delta >= 0;
      var room := if a + delta > Ceiling(limit) then Ceiling(limit) - a else delta;
      assert room >= 0;
      assert room == Room(order, addr, i - 1, end, limit) by {
        assert next == NextStart(order, addr, i - 1, end);
      }
      var size' :=
        if name in size.vals then (if size.vals[name] > room then Put(size, name, room) else size)
        else Put(size, name, room);
      assert size'.vals == size.vals[name := Settled(size.vals, name, room)];
      var r' := SizesFrom(order, addr, size', i - 1, a, limit);
      assert SizesFrom(order, addr, size, i, next, limit) == r';
      SizesFromResult(order, addr, size', i - 1, end, limit);
      ResultStep(order, addr, size.vals, r'.value.vals, i, room, end, limit);
    }
  }

  /** One step of `SizesFromResult`: sizing `order[i - 1]` first and the rest after. */
  lemma ResultStep(order: seq<string>, addr: map<string, int>, size: map<string, int>,
                   r: map<string, int>, i: nat, room: int, end: int, limit: int)
    requires 0 < i <= |order|
    requires forall n :: n in order ==> n in addr
    requires Distinct(order)
    requires room == Room(order, addr, i - 1, end, limit)
    requires var size' := size[order[i - 1] := Settled(size, order[i - 1], room)];
      SizedUpTo(order, addr, size', r, i - 1, end, limit) && KeepsOthers(order, size', r, i - 1)
    ensures SizedUpTo(order, addr, size, r, i, end, limit)
    ensures KeepsOthers(order, size, r, i)
  {
    var name := order[i - 1];
    var size' := size[name := Settled(size, name, room)];
    assert name !in order[..i - 1] by {
      forall m | 0 <= m < i - 1
        ensures order[m] != name
      {
      }
    }
    forall m | 0 <= m < i
      ensures order[m] in r
      ensures r[order[m]] == Settled(size, order[m], Room(order, addr, m, end, limit))
    {
      if m < i - 1 {
        assert order[m] != name;
        assert Settled(size', order[m], Room(order, addr, m, end, limit))
            == Settled(size, order[m], Room(order, addr, m, end, limit));
      } else {
        assert r[name] == size'[name];
      }
    }
    forall n | n !in order[..i]
      ensures (n in r <==> n in size) && (n in size ==> r[n] == size[n])
    {
      assert order[..i] == order[..i - 1] + [name];
      assert n != name && n !in order[..i - 1];
    }
  }

  /** The failure the pass reports for `order[m]` when that section does not fit. */
  function FailureOf(order: seq<string>, addr: map<string, int>, m: nat, end: int): Error
    requires m < |order|
    requires forall n :: n in order ==> n in addr
  {
    var name := order[m];
    if addr[name] > NextStart(order, addr, m, end) then
      (if name == order[|order| - 1] then AddrSpaceTooSmall(name) else NegativeDistance(name))
    else LimitTooSmall(name)
  }

  /** A failed pass over `order[..i]` reports the last of those sections that does not fit. */
  lemma {:induction false} SizesFromFailure(order: seq<string>, addr: map<string, int>, size: ODict,
                                            i: nat, end: int, limit: int)
    requires i <= |order|
    requires forall n :: n in order ==> n in addr
    requires SizesFrom(order, addr, size, i, if i < |order| then addr[order[i]] else end, limit).Err?
    ensures exists m :: (0 <= m < i && !Fits(order, addr, m, end, limit)
      && (forall k :: m < k < i ==> Fits(order, addr, k, end, limit))
      && SizesFrom(order, addr, size, i, if i < |order| then addr[order[i]] else end, limit).error
         == FailureOf(order, addr, m, end))
    decreases i
  {
    var name := order[i - 1];
    var a := addr[name];
    var next := if i < |order| then addr[order[i]] else end;
    assert next == NextStart(order, addr, i - 1, end);
    var delta := next - a;
    var room := if a + delta > Ceiling(limit) then Ceiling(limit) - a else delta;
    if delta < 0 || room < 0 {
      assert !Fits(order, addr, i - 1, end, limit);
      assert SizesFrom(order, addr, size, i, next, limit).error == FailureOf(order, addr, i - 1, end);
    } else {
      assert Fits(order, addr, i - 1, end, limit);
      var size' :=
        if name in size.vals then (if size.vals[name] > room then Put(size, name, room) else size)
        else Put(size, name, room);
      assert SizesFrom(order, addr, size, i, next, limit) == SizesFrom(order, addr, size', i - 1, a, limit);
      SizesFromFailure(order, addr, size', i - 1, end, limit);
    }
  }

  /** The whole pass, which starts past the end of the address space: it succeeds exactly
      when every ordered section starts no later than the next one, the last no later than
      the end of the address space, and none later than the ceiling; otherwise it reports
      the last section in the order that does not fit. */
  lemma SizesOutcome(order: seq<string>, addr: map<string, int>, size: ODict, base: int,
                     addrspacelen: int, limit: int)
    requires forall n :: n in order ==> n in addr
    ensures var end := base + addrspacelen + 1;
      var r := SizesOf(order, addr, size, base, addrspacelen, limit);
      && (r.Ok? <==> forall m :: 0 <= m < |order| ==> Fits(order, addr, m, end, limit))
      && (r.Err? ==> exists m :: (0 <= m < |order| && !Fits(order, addr, m, end, limit)
            && (forall k :: m < k < |order| ==> Fits(order, addr, k, end, limit))
            && r.error == FailureOf(order, addr, m, end)))
  {
    var end := base + addrspacelen + 1;
    SizesFromSucceeds(order, addr, size, |order|, end, limit);
    if SizesOf(order, addr, size, base, addrspacelen, limit).Err? {
      SizesFromFailure(order, addr, size, |order|, end, limit);
    }
  }

  /** After a successful pass, with a duplicate-free order: every ordered section has a
      size; each ends no later than the next one starts, the last no later than the end of
      the address space, and none past the ceiling; a given size is never increased, a
      missing one is set to a size of at least 0, and entries of other names are kept.
      Exactly: each ordered section's size is its given size when that fits in its room,
      and the room otherwise. */
  lemma SizedLayout(order: seq<string>, addr: map<string, int>, size: ODict, base: int,
                    addrspacelen: int, limit: int)
    requires forall n :: n in order ==> n in addr
    requires Distinct(order)
    requires SizesOf(order, addr, size, base, addrspacelen, limit).Ok?
    ensures var s := SizesOf(order, addr, size, base, addrspacelen, limit).value.vals;
      && (forall n :: n in order ==> n in s)
      && (forall m :: 0 <= m < |order| - 1 ==> addr[order[m]] + s[order[m]] <= addr[order[m + 1]])
      && (|order| > 0 ==> addr[order[|order| - 1]] + s[order[|order| - 1]] <= base + addrspacelen + 1)
      && (forall n :: n in order ==> addr[n] + s[n] <= Ceiling(limit))
      && (forall n :: n in size.vals ==> n in s && s[n] <= size.vals[n])
      && (forall n :: n in order && n !in size.vals ==> s[n] >= 0)
      && (forall n :: n !in order ==> (n in s <==> n in size.vals) && (n in size.vals ==> s[n] == size.vals[n]))
  {
    var end := base + addrspacelen + 1;
    var s := SizesOf(order, addr, size, base, addrspacelen, limit).value.vals;
    SizesFromSucceeds(order, addr, size, |order|, end, limit);
    SizesFromResult(order, addr, size, |order|, end, limit);
    LayoutOfSizes(order, addr, size.vals, s, end, limit);
  }

  /** After a successful pass with a duplicate-free order, each ordered section's size is
      its given size when that fits in its room, and the room otherwise. */
  lemma SizedByRoom(order: seq<string>, addr: map<string, int>, size: ODict, base: int,
                    addrspacelen: int, limit: int)
    requires forall n :: n in order ==> n in addr
    requires Distinct(order)
    requires SizesOf(order, addr, size, base, addrspacelen, limit).Ok?
    ensures SizedUpTo(order, addr, size.vals, SizesOf(order, addr, size, base, addrspacelen, limit).value.vals,
                      |order|, base + addrspacelen + 1, limit)
  {
    var end := base + addrspacelen + 1;
    ghost var r := SizesFrom(order, addr, size, |order|, end, limit);
    assert r == SizesOf(order, addr, size, base, addrspacelen, limit);
    SizesFromResult(order, addr, size, |order|, end, limit);
  }

  /** A section of a fitting order, sized by its room, ends no later than the next start
      and the ceiling. */
  lemma SizedAt(order: seq<string>, addr: map<string, int>, size: map<string, int>,
                s: map<string, int>, m: nat, end: int, limit: int)
    requires m < |order|
    requires forall n :: n in order ==> n in addr
    requires Fits(order, addr, m, end, limit)
    requires SizedUpTo(order, addr, size, s, |order|, end, limit)
    ensures order[m] in s
    ensures addr[order[m]] + s[order[m]] <= Min(NextStart(order, addr, m, end), Ceiling(limit))
    ensures order[m] !in size ==> s[order[m]] >= 0
    ensures order[m] in size ==> s[order[m]] <= size[order[m]]
  {
  }

  /** `SizedLayout` for any table `s` that sizes every section of a fitting order by its
      room and keeps the other entries of `size`. */
  lemma LayoutOfSizes(order: seq<string>, addr: map<string, int>, size: map<string, int>,
                      s: map<string, int>, end: int, limit: int)
    requires forall n :: n in order ==> n in addr
    requires forall m :: 0 <= m < |order| ==> Fits(order, addr, m, end, limit)
    requires SizedUpTo(order, addr, size, s, |order|, end, limit)
    requires KeepsOthers(order, size, s, |order|)
    ensures forall n :: n in order ==> n in s
    ensures forall m :: 0 <= m < |order| - 1 ==> addr[order[m]] + s[order[m]] <= addr[order[m + 1]]
    ensures |order| > 0 ==> addr[order[|order| - 1]] + s[order[|order| - 1]] <= end
    ensures forall n :: n in order ==> addr[n] + s[n] <= Ceiling(limit)
    ensures forall n :: n in size ==> n in s && s[n] <= size[n]
    ensures forall n :: n in order && n !in size ==> s[n] >= 0
    ensures forall n :: n !in order ==> (n in s <==> n in size) && (n in size ==> s[n] == size[n])
  {
    forall n | n in order
      ensures n in s && addr[n] + s[n] <= Ceiling(limit)
      ensures n in size ==> s[n] <= size[n]
      ensures n !in size ==> s[n] >= 0
    {
      var m :| 0 <= m < |order| && order[m] == n;
      SizedAt(order, addr, size, s, m, end, limit);
    }
    forall m | 0 <= m < |order| - 1
      ensures addr[order[m]] + s[order[m]] <= addr[order[m + 1]]
    {
      SizedAt(order, addr, size, s, m, end, limit);
    }
    if |order| > 0 {
      SizedAt(order, addr, size, s, |order| - 1, end, limit);
    }
    assert order[..|order|] == order;
  }
}
