/** The last-resort search for an empty `.ARM.exidx` section
    (`armfw_detect_empty_sect_ARMexidx`): the image is read in windows of `sectAlign`
    bytes from `startPos`; the answer is the end of the first run of consecutive
    all-zero windows, which is where `.text` presumably ends.

    The shape of the search is written over any flag `zero` on the window indices below
    `e`, the number of full windows; `EmptyScanOf` instantiates it with the image. */
module EmptyScan {
  import opened Outcomes
  import opened ExidxEntry
  import opened ExidxScan
  import Prel31

  /** Window k lies entirely within the image (a full read). */
  predicate Full(img: Image, startPos: nat, sectAlign: nat, k: nat) {
    CandPos(startPos, sectAlign, k) + sectAlign <= |img|
  }

  /** Window k is a full read and every byte of it is 0x00. */
  predicate ZeroWindow(img: Image, startPos: nat, sectAlign: nat, k: nat) {
    var p := CandPos(startPos, sectAlign, k);
    p + sectAlign <= |img| && AllZero(img[p .. p + sectAlign])
  }

  function ZeroFlags(img: Image, startPos: nat, sectAlign: nat): nat -> bool {
    (k: nat) => ZeroWindow(img, startPos, sectAlign, k)
  }

  /** The first window at or after `k` that is not a full read: the search never looks
      further. Windows are full exactly below it. */
  function FirstShort(img: Image, startPos: nat, sectAlign: nat, k: nat): (e: nat)
    requires sectAlign > 0
    ensures e >= k && !Full(img, startPos, sectAlign, e)
    ensures forall j :: k <= j < e ==> Full(img, startPos, sectAlign, j)
    decreases |img| - CandPos(startPos, sectAlign, k)
  {
    if !Full(img, startPos, sectAlign, k) then k else FirstShort(img, startPos, sectAlign, k + 1)
  }

  /** The first index in `[k, e)` whose window is zero, if any. */
  function FirstZero(zero: nat -> bool, k: nat, e: nat): (f: Option<nat>)
    ensures f.Some? ==> k <= f.value < e && zero(f.value) && forall j :: k <= j < f.value ==> !zero(j)
    ensures f.None? ==> forall j :: k <= j < e ==> !zero(j)
    decreases e - k
  {
    if k >= e then None
    else if zero(k) then Some(k)
    else FirstZero(zero, k + 1, e)
  }

  /** The last window of the run of consecutive zero windows that starts at `j`, staying
      below `e`. */
  function ZeroRunLast(zero: nat -> bool, j: nat, e: nat): (l: nat)
    requires j < e
    ensures j <= l < e
    ensures forall i :: j < i <= l ==> zero(i)
    ensures l + 1 < e ==> !zero(l + 1)
    decreases e - j
  {
    if j + 1 < e && zero(j + 1) then ZeroRunLast(zero, j + 1, e) else j
  }

  /** The answer for zero flags `zero` and `e` full windows: the end of the first run of
      zero windows, with length 0, or `(-1, 0)`. */
  function EmptyOf(zero: nat -> bool, e: nat, startPos: nat, sectAlign: nat): (int, int) {
    match FirstZero(zero, 0, e)
    case None => NotFound
    case Some(f) => (CandPos(startPos, sectAlign, ZeroRunLast(zero, f, e)) + sectAlign, 0)
  }

  /** What `armfw_detect_empty_sect_ARMexidx` returns on `img`. */
  function EmptyScanOf(img: Image, startPos: nat, sectAlign: nat): (int, int)
    requires sectAlign > 0
  {
    EmptyOf(ZeroFlags(img, startPos, sectAlign), FirstShort(img, startPos, sectAlign, 0), startPos, sectAlign)
  }

  /** The loop of the search read as a recursion: `acc` is the match position found so
      far, if any. */
  function EmptyFrom(zero: nat -> bool, e: nat, startPos: nat, sectAlign: nat, k: nat,
                     acc: Option<int>): (int, int)
    decreases e - k
  {
    if k >= e then (if acc.Some? then (acc.value, 0) else NotFound)
    else if zero(k) then EmptyFrom(zero, e, startPos, sectAlign, k + 1, Some(CandPos(startPos, sectAlign, k) + sectAlign))
    else if acc.Some? then (acc.value, 0)
    else EmptyFrom(zero, e, startPos, sectAlign, k + 1, None)
  }

  /** Inside the first run of zero windows the recursion ends at the run's last window. */
  lemma {:induction false} EmptyFromInRun(zero: nat -> bool, e: nat, startPos: nat, sectAlign: nat, f: nat, j: nat)
    requires FirstZero(zero, 0, e) == Some(f)
    requires f <= j <= ZeroRunLast(zero, f, e)
    ensures EmptyFrom(zero, e, startPos, sectAlign, j + 1, Some(CandPos(startPos, sectAlign, j) + sectAlign))
         == EmptyOf(zero, e, startPos, sectAlign)
    decreases ZeroRunLast(zero, f, e) - j
  {
    if j < ZeroRunLast(zero, f, e) {
      assert zero(j + 1);
      EmptyFromInRun(zero, e, startPos, sectAlign, f, j + 1);
    }
  }

  /** Before the first zero window the recursion, with no match yet, reaches the
      declarative result. */
  lemma {:induction false} EmptyFromBefore(zero: nat -> bool, e: nat, startPos: nat, sectAlign: nat, k: nat)
    requires k <= e
    requires forall j :: 0 <= j < k ==> !zero(j)
    ensures EmptyFrom(zero, e, startPos, sectAlign, k, None) == EmptyOf(zero, e, startPos, sectAlign)
    decreases e - k
  {
    if k < e {
      if zero(k) {
        assert FirstZero(zero, 0, e) == Some(k);
        EmptyFromInRun(zero, e, startPos, sectAlign, k, k);
      } else {
        EmptyFromBefore(zero, e, startPos, sectAlign, k + 1);
      }
    }
  }

  /** `0x00 in set(buf) and len(set(buf)) == 1` on a non-empty window: all of it is zero. */
  lemma ZeroSet(buf: seq<Byte>)
    requires |buf| > 0
    ensures (0 in buf && Uniform(buf)) <==> AllZero(buf)
  {
    if AllZero(buf) {
      assert buf[0] == 0;
    }
  }

  /** `armfw_detect_empty_sect_ARMexidx`. The function alignment of the source is unused
      and not modelled; a `sectAlign` of 0 would make the source loop forever. */
  method DetectEmptyExidx(img: Image, startPos: nat, sectAlign: nat) returns (res: (int, int))
    requires sectAlign > 0
    ensures res == EmptyScanOf(img, startPos, sectAlign)
  {
    ghost var zero := ZeroFlags(img, startPos, sectAlign);
    ghost var e := FirstShort(img, startPos, sectAlign, 0);
    var matchCount := 0;
    var matchPos := -1;
    var pos := startPos;
    ghost var k: nat := 0;
    ghost var goal := EmptyFrom(zero, e, startPos, sectAlign, 0, None);
    while true
      invariant pos == CandPos(startPos, sectAlign, k)
      invariant k <= e
      invariant EmptyFrom(zero, e, startPos, sectAlign, k, if matchCount == 0 then None else Some(matchPos)) == goal
      decreases |img| - pos
    {
      if pos + sectAlign > |img| {
        assert !Full(img, startPos, sectAlign, k);
        break;
      }
      assert k < e;
      var buf := img[pos .. pos + sectAlign];
      ZeroSet(buf);
      assert zero(k) == AllZero(buf);
      if 0 in buf && Uniform(buf) {
        matchPos := pos + sectAlign;
        matchCount := matchCount + 1;
      } else if matchCount > 0 {
        break;
      }
      pos := pos + sectAlign;
      k := k + 1;
    }
    EmptyFromBefore(zero, e, startPos, sectAlign, 0);
    if matchCount < 1 {
      return NotFound;
    }
    return (matchPos, 0);
  }

  /** A result of the search is the end of a run of zero windows: the windows before
      the run are not zero, every window of the run is, and the next one is not (or lies
      past the full windows), with the reported position just past the run. */
  lemma EmptyFoundShape(zero: nat -> bool, e: nat, startPos: nat, sectAlign: nat)
    requires EmptyOf(zero, e, startPos, sectAlign) != NotFound
    ensures FirstZero(zero, 0, e).Some?
    ensures var f := FirstZero(zero, 0, e).value;
      var l := ZeroRunLast(zero, f, e);
      && EmptyOf(zero, e, startPos, sectAlign) == (CandPos(startPos, sectAlign, l) + sectAlign, 0)
      && (forall j :: 0 <= j < f ==> !zero(j))
      && (forall j :: f <= j <= l ==> zero(j))
      && (l + 1 < e ==> !zero(l + 1))
  {
  }

  /** The search finds nothing exactly when no window below `e` is zero. */
  lemma EmptyNotFound(zero: nat -> bool, e: nat, startPos: nat, sectAlign: nat)
    ensures EmptyOf(zero, e, startPos, sectAlign) == NotFound <==> forall j :: 0 <= j < e ==> !zero(j)
  {
    var f := FirstZero(zero, 0, e);
    if f.Some? {
      assert CandPos(startPos, sectAlign, ZeroRunLast(zero, f.value, e)) + sectAlign >= 0;
    }
  }

  /** On the image: a reported empty section lies on the `sectAlign` grid past
      `startPos`, within the image, right after a full window of zeros. */
  lemma EmptyFound(img: Image, startPos: nat, sectAlign: nat)
    requires sectAlign > 0
    requires EmptyScanOf(img, startPos, sectAlign) != NotFound
    ensures var r := EmptyScanOf(img, startPos, sectAlign).0;
      && startPos < r <= |img| && (r - startPos) % sectAlign == 0
      && AllZero(img[r - sectAlign .. r])
  {
    var zero := ZeroFlags(img, startPos, sectAlign);
    var e := FirstShort(img, startPos, sectAlign, 0);
    EmptyFoundShape(zero, e, startPos, sectAlign);
    var f := FirstZero(zero, 0, e).value;
    var l := ZeroRunLast(zero, f, e);
    assert zero(l);
    WindowEndOnGrid(startPos, sectAlign, l);
  }

  /** The end of window `l` lies `(l + 1) * sectAlign` bytes past `startPos`. */
  lemma WindowEndOnGrid(startPos: nat, sectAlign: nat, l: nat)
    requires sectAlign > 0
    ensures var r := CandPos(startPos, sectAlign, l) + sectAlign;
      startPos < r && (r - startPos) % sectAlign == 0
  {
    CandPosMonotone(startPos, sectAlign, 0, l);
    CandPosIsMultiple(startPos, sectAlign, l);
    assert CandPos(startPos, sectAlign, l) + sectAlign - startPos == (l + 1) * sectAlign;
    Prel31.MulModZero(l + 1, sectAlign);
  }

  /** On an image that is zero from `startPos` on, the empty section is placed at the
      end of the last full window. */
  lemma {:induction false} EmptyOnZeroImage(img: Image, startPos: nat, sectAlign: nat)
    requires sectAlign > 0
    requires startPos + sectAlign <= |img|
    requires forall i :: startPos <= i < |img| ==> img[i] == 0
    ensures EmptyScanOf(img, startPos, sectAlign)
         == (CandPos(startPos, sectAlign, FirstShort(img, startPos, sectAlign, 0)), 0)
  {
    var zero := ZeroFlags(img, startPos, sectAlign);
    var e := FirstShort(img, startPos, sectAlign, 0);
    forall j | 0 <= j < e
      ensures zero(j)
    {
      CandPosMonotone(startPos, sectAlign, 0, j);
      var p := CandPos(startPos, sectAlign, j);
      assert Full(img, startPos, sectAlign, j);
      var w := img[p .. p + sectAlign];
      assert forall i :: 0 <= i < |w| ==> w[i] == img[p + i];
    }
    assert Full(img, startPos, sectAlign, 0);
    assert FirstZero(zero, 0, e) == Some(0);
    var l := ZeroRunLast(zero, 0, e);
    assert l + 1 == e;
    assert !Full(img, startPos, sectAlign, e);
  }
}
