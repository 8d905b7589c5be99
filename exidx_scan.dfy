/** The `.ARM.exidx` section scanner (`armfw_detect_sect_ARMexidx`). Candidate section
    starts are tried at `startPos`, `startPos + sectAlign`, ...; at each one the run of
    plausible entries is counted and the zero padding after it checked. The scanner keeps
    going after a match and reports the last match found before a run reaches the end of
    the image.

    The scan is specified over any record test (`EntryTest`); the converter's own test
    is `ProperEntryTest`, built on `ExidxEntry.IsProperEntry`. */
module ExidxScan {
  import opened Outcomes
  import opened ExidxEntry
  import Prel31

  /** A record test: the verdict on the record at image position `entPos` (second
      argument) for a candidate section starting at `arrPos` (first argument). */
  type EntryTest = (nat, nat) -> Result<bool>

  /** The converter's record test: `armfw_is_proper_ARMexidx_entry` applied to the
      record read at `entPos`. The scanner reads the record before testing it, so the
      test is only consulted on records that lie within the image. */
  function ProperEntryTest(img: Image, base: int, funcAlign: int, expectSectAlign: int): EntryTest
    requires funcAlign > 0
  {
    (arrPos: nat, entPos: nat) =>
      if entPos + EntrySize <= |img|
      then IsProperEntry(img, DecodeEntry(img, entPos), base, funcAlign, expectSectAlign, arrPos, entPos)
      else Ok(false)
  }

  /** The only error the test can raise is a seek to a negative offset. */
  ghost predicate SeekErrorsOnly(test: EntryTest) {
    forall arrPos: nat, entPos: nat :: test(arrPos, entPos).Err? ==> test(arrPos, entPos).error.NegativeSeek?
  }

  /** The converter's record test raises nothing but a negative seek. */
  lemma ProperEntryTestSeekErrorsOnly(img: Image, base: int, funcAlign: int, expectSectAlign: int)
    requires funcAlign > 0
    ensures SeekErrorsOnly(ProperEntryTest(img, base, funcAlign, expectSectAlign))
  {
    var test := ProperEntryTest(img, base, funcAlign, expectSectAlign);
    forall arrPos: nat, entPos: nat | test(arrPos, entPos).Err?
      ensures test(arrPos, entPos).error.NegativeSeek?
    {
      assert entPos + EntrySize <= |img|;
      var r := IsProperEntry(img, DecodeEntry(img, entPos), base, funcAlign, expectSectAlign, arrPos, entPos);
      assert test(arrPos, entPos) == r;
    }
  }

  /** The k-th candidate position: `startPos + k * sectAlign`, written as repeated
      addition (see `CandPosIsMultiple`). */
  function CandPos(startPos: nat, sectAlign: nat, k: nat): nat {
    if k == 0 then startPos else CandPos(startPos, sectAlign, k - 1) + sectAlign
  }

  lemma {:induction false} CandPosIsMultiple(startPos: nat, sectAlign: nat, k: nat)
    ensures CandPos(startPos, sectAlign, k) == startPos + k * sectAlign
  {
    if k > 0 {
      CandPosIsMultiple(startPos, sectAlign, k - 1);
      assert (k - 1) * sectAlign + sectAlign == k * sectAlign;
    }
  }

  lemma {:induction false} CandPosMonotone(startPos: nat, sectAlign: nat, j: nat, m: nat)
    requires j <= m
    ensures CandPos(startPos, sectAlign, j) <= CandPos(startPos, sectAlign, m)
    decreases m
  {
    if j < m {
      CandPosMonotone(startPos, sectAlign, j, m - 1);
    }
  }

  /** How the inner loop over the entries of one candidate ended: the number of valid
      entries, and whether a short read (end of image) stopped it. */
  datatype RunEnd = RunEnd(count: nat, atEof: bool)

  function Shift(r: Result<RunEnd>, n: nat): Result<RunEnd> {
    match r
    case Err(e) => Err(e)
    case Ok(RunEnd(c, eof)) => Ok(RunEnd(c + n, eof))
  }

  /** The run of consecutive valid entries from `entPos` for a candidate section
      starting at `arrPos`. A run not cut by the end of the image stopped at a record that
      was read in full. */
  function Run(img: Image, test: EntryTest, arrPos: nat, entPos: nat): (r: Result<RunEnd>)
    ensures r.Ok? && !r.value.atEof ==> entPos + EntrySize * r.value.count + EntrySize <= |img|
    decreases |img| - entPos
  {
    if entPos + EntrySize > |img| then Ok(RunEnd(0, true))
    else
      match test(arrPos, entPos)
      case Err(e) => Err(e)
      case Ok(valid) =>
        if !valid then Ok(RunEnd(0, false))
        else Shift(Run(img, test, arrPos, entPos + EntrySize), 1)
  }

  /** The record at `entPos` lies within the image and passes the test. */
  predicate Accepted(img: Image, test: EntryTest, arrPos: nat, entPos: nat) {
    entPos + EntrySize <= |img| && test(arrPos, entPos) == Ok(true)
  }

  /** The record at `entPos` lies within the image and fails the test. */
  predicate Rejected(img: Image, test: EntryTest, arrPos: nat, entPos: nat) {
    entPos + EntrySize <= |img| && test(arrPos, entPos) == Ok(false)
  }

  /** A run of `n` entries: each of the `n` records passes the test, and the run ends
      either at a record that fails it or where fewer than 8 bytes are left. */
  lemma {:induction false} RunEntries(img: Image, test: EntryTest, arrPos: nat, entPos: nat)
    requires Run(img, test, arrPos, entPos).Ok?
    ensures var r := Run(img, test, arrPos, entPos).value;
      && (forall i :: 0 <= i < r.count ==> Accepted(img, test, arrPos, entPos + EntrySize * i))
      && (r.atEof <==> entPos + EntrySize * r.count + EntrySize > |img|)
      && (!r.atEof ==> Rejected(img, test, arrPos, entPos + EntrySize * r.count))
    decreases |img| - entPos
  {
    if entPos + EntrySize <= |img| && test(arrPos, entPos) == Ok(true) {
      var next := entPos + EntrySize;
      RunEntries(img, test, arrPos, next);
      var r := Run(img, test, arrPos, next).value;
      assert Run(img, test, arrPos, entPos).value == RunEnd(r.count + 1, r.atEof);
      forall i | 0 <= i < r.count + 1
        ensures Accepted(img, test, arrPos, entPos + EntrySize * i)
      {
        if i > 0 {
          assert entPos + EntrySize * i == next + EntrySize * (i - 1);
        }
      }
      assert entPos + EntrySize * (r.count + 1) == next + EntrySize * r.count;
    }
  }

  predicate AllZero(s: seq<Byte>) {
    forall i | 0 <= i < |s| :: s[i] == 0
  }

  /** Every byte of `s` equals its first one (`len(set(padding)) == 1`). */
  predicate Uniform(s: seq<Byte>)
    requires |s| > 0
  {
    forall i | 0 <= i < |s| :: s[i] == s[0]
  }

  function Min(a: int, b: int): int {
    if a < b then a else b
  }

  /** The padding the scanner reads after a run ending at `end`: up to the next
      `sectAlign` boundary, cut short at the end of the image. */
  function Padding(img: Image, end: nat, sectAlign: nat): seq<Byte>
    requires sectAlign > 0 && end <= |img|
  {
    img[end .. Min(end + sectAlign - end % sectAlign, |img|)]
  }

  predicate PaddingOk(img: Image, end: nat, sectAlign: nat)
    requires sectAlign > 0 && end <= |img|
  {
    end % sectAlign == 0 || AllZero(Padding(img, end, sectAlign))
  }

  /** The scanners' "not found" answer. */
  const NotFound: (int, int) := (-1, 0)

  datatype Candidate = EndOfScan | NoMatch | Match(count: nat)

  /** The verdict on one candidate position: its run reaches the end of the image (which
      ends the scan), it does not match, or it matches with `count` entries. */
  function TryCandidate(img: Image, test: EntryTest, sectAlign: nat, pos: nat): (r: Result<Candidate>)
    requires sectAlign > 0
    ensures r.Ok? && !r.value.EndOfScan? ==> pos + EntrySize <= |img|
    ensures r.Ok? && r.value.Match? ==>
      && r.value.count >= 1
      && pos + EntrySize * r.value.count + EntrySize <= |img|
      && PaddingOk(img, pos + EntrySize * r.value.count, sectAlign)
  {
    match Run(img, test, pos, pos)
    case Err(e) => Err(e)
    case Ok(RunEnd(n, atEof)) =>
      if atEof then Ok(EndOfScan)
      else if n > 0 && PaddingOk(img, pos + EntrySize * n, sectAlign) then Ok(Match(n))
      else Ok(NoMatch)
  }

  /** A matching candidate holds `n >= 1` entries that each pass the test, is followed
      by a full record that fails it, and the bytes after it up to the next `sectAlign`
      boundary are zero. */
  lemma MatchEntries(img: Image, test: EntryTest, sectAlign: nat, pos: nat)
    requires sectAlign > 0
    requires TryCandidate(img, test, sectAlign, pos).Ok?
    requires TryCandidate(img, test, sectAlign, pos).value.Match?
    ensures var n := TryCandidate(img, test, sectAlign, pos).value.count;
      && n >= 1
      && (forall i :: 0 <= i < n ==> Accepted(img, test, pos, pos + EntrySize * i))
      && Rejected(img, test, pos, pos + EntrySize * n)
      && PaddingOk(img, pos + EntrySize * n, sectAlign)
  {
    RunEntries(img, test, pos, pos);
  }

  function Cand(img: Image, test: EntryTest, startPos: nat, sectAlign: nat, k: nat): Result<Candidate>
    requires sectAlign > 0
  {
    TryCandidate(img, test, sectAlign, CandPos(startPos, sectAlign, k))
  }

  /** Candidate k ends the scan: its run reached the end of the image, or it raised. */
  predicate Stops(img: Image, test: EntryTest, startPos: nat, sectAlign: nat, k: nat)
    requires sectAlign > 0
  {
    var c := Cand(img, test, startPos, sectAlign, k);
    c.Err? || c.value.EndOfScan?
  }

  predicate IsMatch(img: Image, test: EntryTest, startPos: nat, sectAlign: nat, k: nat)
    requires sectAlign > 0
  {
    var c := Cand(img, test, startPos, sectAlign, k);
    c.Ok? && c.value.Match?
  }

  /** The index of the first candidate at or after `k` that ends the scan. */
  function FirstStop(img: Image, test: EntryTest, startPos: nat, sectAlign: nat, k: nat): (e: nat)
    requires sectAlign > 0
    ensures e >= k && Stops(img, test, startPos, sectAlign, e)
    decreases |img| - CandPos(startPos, sectAlign, k)
  {
    if Stops(img, test, startPos, sectAlign, k) then k
    else FirstStop(img, test, startPos, sectAlign, k + 1)
  }

  /** The greatest index below `e` that satisfies `p`, if any. */
  function LastBefore(p: nat -> bool, e: nat): (m: Option<nat>)
    ensures m.Some? ==> m.value < e && p(m.value) && forall j :: m.value < j < e ==> !p(j)
    ensures m.None? ==> forall j :: 0 <= j < e ==> !p(j)
  {
    if e == 0 then None
    else if p(e - 1) then Some(e - 1)
    else LastBefore(p, e - 1)
  }

  function MatchFlags(img: Image, test: EntryTest, startPos: nat, sectAlign: nat): nat -> bool
    requires sectAlign > 0
  {
    (k: nat) => IsMatch(img, test, startPos, sectAlign, k)
  }

  /** The last matching candidate before index `e`, if any. */
  function LastMatch(img: Image, test: EntryTest, startPos: nat, sectAlign: nat, e: nat): (m: Option<nat>)
    requires sectAlign > 0
    ensures m.Some? ==>
      && m.value < e
      && IsMatch(img, test, startPos, sectAlign, m.value)
      && forall j :: m.value < j < e ==> !IsMatch(img, test, startPos, sectAlign, j)
    ensures m.None? ==> forall j :: 0 <= j < e ==> !IsMatch(img, test, startPos, sectAlign, j)
  {
    var p := MatchFlags(img, test, startPos, sectAlign);
    var m := LastBefore(p, e);
    assert forall j :: p(j) == IsMatch(img, test, startPos, sectAlign, j);
    m
  }

  /** What the scanner returns: the error of the candidate that ended the scan, or the
      last match before it as `(position, byte length)`, or `(-1, 0)` without a match. */
  function ScanOf(img: Image, test: EntryTest, startPos: nat, sectAlign: nat): Result<(int, int)>
    requires sectAlign > 0
  {
    var e := FirstStop(img, test, startPos, sectAlign, 0);
    var stop := Cand(img, test, startPos, sectAlign, e);
    if stop.Err? then Err(stop.error)
    else
      match LastMatch(img, test, startPos, sectAlign, e)
      case None => Ok(NotFound)
      case Some(m) =>
        Ok((CandPos(startPos, sectAlign, m), EntrySize * Cand(img, test, startPos, sectAlign, m).value.count))
  }

  /** An error of the scan is an error of the test, raised on the record where the
      scan stopped. */
  lemma {:induction false} RunSeekErrors(img: Image, test: EntryTest, arrPos: nat, entPos: nat)
    requires SeekErrorsOnly(test)
    requires Run(img, test, arrPos, entPos).Err?
    ensures Run(img, test, arrPos, entPos).error.NegativeSeek?
    decreases |img| - entPos
  {
    if test(arrPos, entPos) == Ok(true) {
      RunSeekErrors(img, test, arrPos, entPos + EntrySize);
    }
  }

  lemma ScanSeekErrors(img: Image, test: EntryTest, startPos: nat, sectAlign: nat)
    requires sectAlign > 0
    requires SeekErrorsOnly(test)
    requires ScanOf(img, test, startPos, sectAlign).Err?
    ensures ScanOf(img, test, startPos, sectAlign).error.NegativeSeek?
  {
    var e := FirstStop(img, test, startPos, sectAlign, 0);
    var p := CandPos(startPos, sectAlign, e);
    RunSeekErrors(img, test, p, p);
  }

  /** The scanner reports "not found" exactly when no candidate before the one that ends
      the scan matches, and that one did not raise. */
  lemma ScanNotFound(img: Image, test: EntryTest, startPos: nat, sectAlign: nat)
    requires sectAlign > 0
    ensures var e := FirstStop(img, test, startPos, sectAlign, 0);
      ScanOf(img, test, startPos, sectAlign) == Ok(NotFound)
      <==> (Cand(img, test, startPos, sectAlign, e).Ok?
            && forall j :: 0 <= j < e ==> !IsMatch(img, test, startPos, sectAlign, j))
  {
  }

  /** A match reported by the scanner lies on the candidate grid, is a matching
      candidate there (see `MatchEntries`) with the reported byte length, and no later
      candidate before the end of the scan matches. */
  lemma ScanFound(img: Image, test: EntryTest, startPos: nat, sectAlign: nat)
    requires sectAlign > 0
    requires ScanOf(img, test, startPos, sectAlign).Ok?
    requires ScanOf(img, test, startPos, sectAlign).value != NotFound
    ensures var r := ScanOf(img, test, startPos, sectAlign).value;
      && r.0 >= startPos && (r.0 - startPos) % sectAlign == 0
      && TryCandidate(img, test, sectAlign, r.0).Ok?
      && TryCandidate(img, test, sectAlign, r.0).value.Match?
      && r.1 == EntrySize * TryCandidate(img, test, sectAlign, r.0).value.count
      && (forall j ::
            (0 <= j < FirstStop(img, test, startPos, sectAlign, 0) && CandPos(startPos, sectAlign, j) > r.0) ==>
            !IsMatch(img, test, startPos, sectAlign, j))
  {
    var e := FirstStop(img, test, startPos, sectAlign, 0);
    var m := LastMatch(img, test, startPos, sectAlign, e).value;
    var p := CandPos(startPos, sectAlign, m);
    CandPosIsMultiple(startPos, sectAlign, m);
    Prel31.MulModZero(m, sectAlign);
    forall j | 0 <= j < e && CandPos(startPos, sectAlign, j) > p
      ensures !IsMatch(img, test, startPos, sectAlign, j)
    {
      if j <= m {
        CandPosMonotone(startPos, sectAlign, j, m);
      }
    }
  }

  /** The scan from candidate `k` on, with `acc` the last match found so far: the
      outer loop of the scanner read as a recursion. */
  function ScanFrom(img: Image, test: EntryTest, startPos: nat, sectAlign: nat, k: nat,
                    acc: Option<(int, int)>): Result<(int, int)>
    requires sectAlign > 0
    decreases |img| - CandPos(startPos, sectAlign, k)
  {
    match Cand(img, test, startPos, sectAlign, k)
    case Err(e) => Err(e)
    case Ok(EndOfScan) => Ok(if acc.Some? then acc.value else NotFound)
    case Ok(NoMatch) => ScanFrom(img, test, startPos, sectAlign, k + 1, acc)
    case Ok(Match(n)) =>
      ScanFrom(img, test, startPos, sectAlign, k + 1, Some((CandPos(startPos, sectAlign, k), EntrySize * n)))
  }

  /** The last match before index `k`, as the accumulator of `ScanFrom` holds it. */
  function MatchSoFar(img: Image, test: EntryTest, startPos: nat, sectAlign: nat, k: nat): Option<(int, int)>
    requires sectAlign > 0
  {
    match LastMatch(img, test, startPos, sectAlign, k)
    case None => None
    case Some(m) =>
      Some((CandPos(startPos, sectAlign, m), EntrySize * Cand(img, test, startPos, sectAlign, m).value.count))
  }

  /** Past a candidate that does not end the scan, the first stop is unchanged and the
      last match is this candidate if it matched. */
  lemma ScanStep(img: Image, test: EntryTest, startPos: nat, sectAlign: nat, k: nat)
    requires sectAlign > 0
    requires !Stops(img, test, startPos, sectAlign, k)
    ensures FirstStop(img, test, startPos, sectAlign, k + 1) == FirstStop(img, test, startPos, sectAlign, k)
    ensures LastMatch(img, test, startPos, sectAlign, k + 1)
         == if IsMatch(img, test, startPos, sectAlign, k) then Some(k)
            else LastMatch(img, test, startPos, sectAlign, k)
  {
  }

  lemma ScanFromAtStop(img: Image, test: EntryTest, startPos: nat, sectAlign: nat, k: nat)
    requires sectAlign > 0
    requires Stops(img, test, startPos, sectAlign, k)
    requires FirstStop(img, test, startPos, sectAlign, 0) == k
    ensures ScanFrom(img, test, startPos, sectAlign, k, MatchSoFar(img, test, startPos, sectAlign, k))
         == ScanOf(img, test, startPos, sectAlign)
  {
  }

  lemma ScanFromStep(img: Image, test: EntryTest, startPos: nat, sectAlign: nat, k: nat)
    requires sectAlign > 0
    requires !Stops(img, test, startPos, sectAlign, k)
    requires LastMatch(img, test, startPos, sectAlign, k + 1)
          == if IsMatch(img, test, startPos, sectAlign, k) then Some(k)
             else LastMatch(img, test, startPos, sectAlign, k)
    ensures ScanFrom(img, test, startPos, sectAlign, k, MatchSoFar(img, test, startPos, sectAlign, k))
         == ScanFrom(img, test, startPos, sectAlign, k + 1, MatchSoFar(img, test, startPos, sectAlign, k + 1))
  {
  }

  /** The accumulating recursion computes the declarative result: the last match before
      the first candidate that ends the scan. */
  lemma {:induction false} ScanFromIsScanOf(img: Image, test: EntryTest, startPos: nat, sectAlign: nat, k: nat)
    requires sectAlign > 0
    requires FirstStop(img, test, startPos, sectAlign, 0) == FirstStop(img, test, startPos, sectAlign, k)
    ensures ScanFrom(img, test, startPos, sectAlign, k, MatchSoFar(img, test, startPos, sectAlign, k))
         == ScanOf(img, test, startPos, sectAlign)
    decreases |img| - CandPos(startPos, sectAlign, k)
  {
    if Stops(img, test, startPos, sectAlign, k) {
      ScanFromAtStop(img, test, startPos, sectAlign, k);
    } else {
      ScanStep(img, test, startPos, sectAlign, k);
      ScanFromStep(img, test, startPos, sectAlign, k);
      ScanFromIsScanOf(img, test, startPos, sectAlign, k + 1);
    }
  }

  /** One step of `ScanFrom`, for a candidate verdict `c` already computed. */
  lemma ScanFromNext(img: Image, test: EntryTest, startPos: nat, sectAlign: nat, k: nat,
                     acc: Option<(int, int)>, c: Result<Candidate>)
    requires sectAlign > 0
    requires c == Cand(img, test, startPos, sectAlign, k)
    ensures c.Err? ==> ScanFrom(img, test, startPos, sectAlign, k, acc) == Err(c.error)
    ensures c.Ok? && c.value.EndOfScan? ==>
      ScanFrom(img, test, startPos, sectAlign, k, acc) == Ok(if acc.Some? then acc.value else NotFound)
    ensures c.Ok? && c.value.NoMatch? ==>
      ScanFrom(img, test, startPos, sectAlign, k, acc) == ScanFrom(img, test, startPos, sectAlign, k + 1, acc)
    ensures c.Ok? && c.value.Match? ==>
      ScanFrom(img, test, startPos, sectAlign, k, acc)
      == ScanFrom(img, test, startPos, sectAlign, k + 1,
                  Some((CandPos(startPos, sectAlign, k), EntrySize * c.value.count)))
  {
  }

  /** The inner loop of `armfw_detect_sect_ARMexidx`: reads the records of the
      candidate at `pos` until one fails the test or the image ends. */
  method CountEntries(img: Image, test: EntryTest, pos: nat) returns (r: Result<RunEnd>)
    ensures r == Run(img, test, pos, pos)
  {
    var entryCount := 0;
    var entryPos := pos;
    while true
      invariant entryPos == pos + EntrySize * entryCount
      invariant Run(img, test, pos, pos) == Shift(Run(img, test, pos, entryPos), entryCount)
      decreases |img| - entryPos
    {
      if entryPos + EntrySize > |img| {
        return Ok(RunEnd(entryCount, true));
      }
      var valid := test(pos, entryPos);
      if valid.Err? {
        return Err(valid.error);
      }
      if !valid.value {
        return Ok(RunEnd(entryCount, false));
      }
      entryCount := entryCount + 1;
      entryPos := entryPos + EntrySize;
    }
  }

  /** One candidate of `armfw_detect_sect_ARMexidx`: count its run, then check that the
      bytes up to the next `sectAlign` boundary are all 0x00. */
  method CheckCandidate(img: Image, test: EntryTest, sectAlign: nat, pos: nat) returns (c: Result<Candidate>)
    requires sectAlign > 0
    ensures c == TryCandidate(img, test, sectAlign, pos)
  {
    var run := CountEntries(img, test, pos);
    if run.Err? {
      return Err(run.error);
    }
    if run.value.atEof {
      return Ok(EndOfScan);
    }
    var entryCount := run.value.count;
    var entryPos := pos + EntrySize * entryCount;
    if entryCount > 0 {
      if entryPos % sectAlign > 0 {
        var padding := img[entryPos .. Min(entryPos + (sectAlign - entryPos % sectAlign), |img|)];
        if padding[0] != 0 || !Uniform(padding) {
          entryCount := 0;
        }
      }
    }
    if entryCount > 0 {
      return Ok(Match(entryCount));
    }
    return Ok(NoMatch);
  }

  /** `armfw_detect_sect_ARMexidx`: the position and byte length of the last candidate
      section that matches before a run reaches the end of the image. The base address
      and function alignment of the source are used only by the record test, and are
      bound into `test` (the converter passes `ProperEntryTest`). */
  method DetectExidx(img: Image, test: EntryTest, startPos: nat, sectAlign: nat)
    returns (res: Result<(int, int)>)
    requires sectAlign >= EntrySize
    ensures res == ScanOf(img, test, startPos, sectAlign)
  {
    var matchCount := 0;
    var matchPos := -1;
    var matchEntries := 0;
    var pos := startPos;
    ghost var k: nat := 0;
    ghost var acc: Option<(int, int)> := None;
    ghost var goal := ScanFrom(img, test, startPos, sectAlign, 0, None);
    while true
      invariant pos == CandPos(startPos, sectAlign, k)
      invariant acc == if matchCount == 0 then None else Some((matchPos, EntrySize * matchEntries))
      invariant ScanFrom(img, test, startPos, sectAlign, k, acc) == goal
      decreases |img| - pos
    {
      var c := CheckCandidate(img, test, sectAlign, pos);
      ScanFromNext(img, test, startPos, sectAlign, k, acc, c);
      if c.Err? {
        res := Err(c.error);
        break;
      }
      // a run reaching the end of the image ends the whole scan
      if c.value.EndOfScan? {
        res := if matchCount < 1 then Ok(NotFound) else Ok((matchPos, matchEntries * EntrySize));
        break;
      }
      if c.value.Match? {
        matchPos := pos;
        matchEntries := c.value.count;
        matchCount := matchCount + 1;
        acc := Some((matchPos, EntrySize * matchEntries));
      }
      pos := pos + sectAlign;
      k := k + 1;
    }
    assert res == goal;
    ScanFromIsScanOf(img, test, startPos, sectAlign, 0);
  }
}
