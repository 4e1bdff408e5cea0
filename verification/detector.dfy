/**
 * `detectActiveSection`: one pass over the registered sections in registration order,
 * keeping the loop variables `closestId` and `closestDimension`. The DOM reads become
 * numbers: each section is an `Entry` carrying the top edge of its bounding rectangle,
 * and `containerTop` is the top edge of the scroll container's rectangle. Both are
 * measured from the top of the viewport, as `getBoundingClientRect` reports them, so
 * `containerTop` is 0 for a container flush with the viewport top and negative for one
 * whose top edge has scrolled out of view.
 *
 * Two details are kept exactly as the source writes them:
 *  - `!closestDimension` is JavaScript truthiness, so a stored dimension of 0 counts
 *    as "nothing chosen yet", just like `undefined`;
 *  - the stored dimension is the raw `sectionTop`, while the comparison uses
 *    `relativeTop = sectionTop - containerTop`.
 */
module Detector {
  import opened Wrappers
  import opened Refs

  /** A registered section as measured during one pass. */
  datatype Entry = Entry(id: Id, top: int)

  /** The loop variables `closestId` and `closestDimension`. */
  datatype Choice = Choice(closestId: Option<Id>, closestDimension: Option<int>)

  /** Both loop variables start `undefined`. */
  const Unset: Choice := Choice(None, None)

  /** The choice after `e` has been taken: its id, and its raw top as the dimension. */
  function Pick(e: Entry): Choice {
    Choice(Some(e.id), Some(e.top))
  }

  /** JavaScript truthiness of `closestDimension`: `undefined` and 0 are both falsy. */
  predicate Truthy(d: Option<int>) {
    d.Some? && d.value != 0
  }

  /** The section's top measured from the container's top. */
  function RelativeTop(e: Entry, containerTop: int): int {
    e.top - containerTop
  }

  /** The loop's condition: a falsy stored dimension, or a candidate above it. */
  predicate Replaces(c: Choice, e: Entry, containerTop: int, offset: int) {
    || !Truthy(c.closestDimension)
    || (RelativeTop(e, containerTop) <= offset && RelativeTop(e, containerTop) > c.closestDimension.value)
  }

  /**
   * One iteration of the loop. The entry replaces the current choice when nothing truthy
   * is stored, or when its relative top is at or above the threshold and beyond the
   * stored dimension; otherwise the choice is kept.
   */
  function Visit(c: Choice, e: Entry, containerTop: int, offset: int): (r: Choice)
    ensures !Truthy(c.closestDimension) ==> r == Pick(e)
    ensures Truthy(c.closestDimension) ==>
      var rel := RelativeTop(e, containerTop);
      && (rel <= offset && rel > c.closestDimension.value ==> r == Pick(e))
      && (rel > offset || rel <= c.closestDimension.value ==> r == c)
  {
    if Replaces(c, e, containerTop, offset) then Pick(e) else c
  }

  /**
   * The left fold of `Visit` over the entries. Both loop variables are set together, so
   * they are undefined exactly when there are no entries; otherwise they hold the id and
   * the raw top of one of the entries.
   */
  function Scan(entries: seq<Entry>, containerTop: int, offset: int): (r: Choice)
    ensures r.closestId.None? <==> |entries| == 0
    ensures r.closestDimension.None? <==> |entries| == 0
    ensures |entries| > 0 ==> exists k :: 0 <= k < |entries| && r == Pick(entries[k])
    decreases |entries|
  {
    if |entries| == 0 then Unset
    else
      var prefix := entries[..|entries| - 1];
      var last := entries[|entries| - 1];
      var c := Scan(prefix, containerTop, offset);
      assert |prefix| > 0 ==> exists k :: 0 <= k < |entries| && c == Pick(entries[k]) by {
        if |prefix| > 0 {
          var k :| 0 <= k < |prefix| && c == Pick(prefix[k]);
          assert entries[k] == prefix[k];
        }
      }
      Visit(c, last, containerTop, offset)
  }

  /** The id the pass hands to `setActive`. */
  function Detect(entries: seq<Entry>, containerTop: int, offset: int): (r: Option<Id>)
    ensures r.None? <==> |entries| == 0
    ensures r.Some? ==> exists k :: 0 <= k < |entries| && entries[k].id == r.value
  {
    Scan(entries, containerTop, offset).closestId
  }

  /** The loop of `detectActiveSection`, written as the source writes it. */
  method DetectActiveSection(entries: seq<Entry>, containerTop: int, offset: int) returns (closestId: Option<Id>)
    ensures closestId == Detect(entries, containerTop, offset)
    ensures closestId.None? <==> |entries| == 0
  {
    closestId := None;
    var closestDimension: Option<int> := None;
    var i := 0;
    while i < |entries|
      invariant 0 <= i <= |entries|
      invariant Choice(closestId, closestDimension) == Scan(entries[..i], containerTop, offset)
    {
      var e := entries[i];
      var relativeTop := e.top - containerTop;
      if !Truthy(closestDimension) || (relativeTop <= offset && relativeTop > closestDimension.value) {
        closestDimension := Some(e.top);
        closestId := Some(e.id);
      }
      assert entries[..i + 1][..i] == entries[..i];
      i := i + 1;
    }
    assert entries[..i] == entries;
  }

  /**
   * Index `k` among the first `n` entries holds the largest top at or above the threshold
   * (top <= offset), and is the earliest entry with that top.
   */
  ghost predicate IsClosest(entries: seq<Entry>, n: nat, offset: int, k: int) {
    && n <= |entries|
    && 0 <= k < n
    && entries[k].top <= offset
    && (forall j :: 0 <= j < n && entries[j].top <= offset ==> entries[j].top <= entries[k].top)
    && (forall j :: 0 <= j < k && entries[j].top <= offset ==> entries[j].top < entries[k].top)
  }

  ghost predicate NoZeroTop(entries: seq<Entry>) {
    forall j :: 0 <= j < |entries| ==> entries[j].top != 0
  }

  /** The reference definition names at most one index, so the outcome it gives is well defined. */
  lemma ClosestIsUnique(entries: seq<Entry>, n: nat, offset: int, k1: int, k2: int)
    requires IsClosest(entries, n, offset, k1) && IsClosest(entries, n, offset, k2)
    ensures k1 == k2
  {
  }

  /** When the first top is below the threshold, the first entry is never replaced. */
  lemma {:induction false} ScanKeepsFirst(entries: seq<Entry>, n: nat, offset: int)
    requires 1 <= n <= |entries|
    requires NoZeroTop(entries)
    requires entries[0].top > offset
    ensures Scan(entries[..n], 0, offset) == Pick(entries[0])
  {
    if n > 1 {
      ScanKeepsFirst(entries, n - 1, offset);
      assert entries[..n][..n - 1] == entries[..n - 1];
    }
  }

  /** When the first top is at or above the threshold, the fold tracks the closest index. */
  lemma {:induction false} ScanTracksClosest(entries: seq<Entry>, n: nat, offset: int) returns (k: nat)
    requires 1 <= n <= |entries|
    requires NoZeroTop(entries)
    requires entries[0].top <= offset
    ensures IsClosest(entries, n, offset, k)
    ensures Scan(entries[..n], 0, offset) == Pick(entries[k])
  {
    if n == 1 {
      k := 0;
    } else {
      var k' := ScanTracksClosest(entries, n - 1, offset);
      assert entries[..n][..n - 1] == entries[..n - 1];
      var last := entries[n - 1];
      if last.top <= offset && last.top > entries[k'].top {
        k := n - 1;
      } else {
        k := k';
      }
    }
  }

  /** No entry's relative top is at or above the threshold. */
  ghost predicate NoCandidate(entries: seq<Entry>, containerTop: int, offset: int) {
    forall j :: 0 <= j < |entries| ==> RelativeTop(entries[j], containerTop) > offset
  }

  /** With no candidate, the first entry, once taken with a non-zero top, is never replaced. */
  lemma {:induction false} ScanKeepsFirstWithoutCandidate(entries: seq<Entry>, n: nat, containerTop: int, offset: int)
    requires 1 <= n <= |entries|
    requires entries[0].top != 0
    requires NoCandidate(entries, containerTop, offset)
    ensures Scan(entries[..n], containerTop, offset) == Pick(entries[0])
  {
    if n > 1 {
      ScanKeepsFirstWithoutCandidate(entries, n - 1, containerTop, offset);
      assert entries[..n][..n - 1] == entries[..n - 1];
      assert RelativeTop(entries[n - 1], containerTop) > offset;
    }
  }

  /**
   * The fallback when no section is at or above the threshold: whatever the container's
   * position, the first registered section is active, provided its raw top is not 0.
   */
  lemma DetectFallsBackToFirst(entries: seq<Entry>, containerTop: int, offset: int)
    requires |entries| > 0
    requires entries[0].top != 0
    requires NoCandidate(entries, containerTop, offset)
    ensures Detect(entries, containerTop, offset) == Some(entries[0].id)
  {
    assert entries[..|entries|] == entries;
    ScanKeepsFirstWithoutCandidate(entries, |entries|, containerTop, offset);
  }

  /**
   * The outcome of a pass measured from a container flush with the viewport top
   * (`containerTop = 0`) when no section's top is exactly 0: the first id when the first
   * section lies below the threshold; otherwise the earliest id with the largest top
   * among the tops at or above the threshold.
   */
  lemma DetectAtViewportTop(entries: seq<Entry>, offset: int)
    requires |entries| > 0
    requires NoZeroTop(entries)
    ensures entries[0].top > offset ==> Detect(entries, 0, offset) == Some(entries[0].id)
    ensures entries[0].top <= offset ==> exists k :: IsClosest(entries, |entries|, offset, k)
    ensures forall k :: IsClosest(entries, |entries|, offset, k) && entries[0].top <= offset ==>
      Detect(entries, 0, offset) == Some(entries[k].id)
  {
    assert entries[..|entries|] == entries;
    if entries[0].top > offset {
      ScanKeepsFirst(entries, |entries|, offset);
    } else {
      var k := ScanTracksClosest(entries, |entries|, offset);
      forall k2 | IsClosest(entries, |entries|, offset, k2) && entries[0].top <= offset
        ensures Detect(entries, 0, offset) == Some(entries[k2].id)
      {
        ClosestIsUnique(entries, |entries|, offset, k, k2);
      }
    }
  }

  /** Tops -50, 120, 800 at offset 0: the first section is the only candidate. */
  lemma FirstOfThreeIsActive()
    ensures Detect([Entry("intro", -50), Entry("features", 120), Entry("pricing", 800)], 0, 0) == Some("intro")
  {
    var es := [Entry("intro", -50), Entry("features", 120), Entry("pricing", 800)];
    assert IsClosest(es, 3, 0, 0);
    DetectAtViewportTop(es, 0);
  }

  /** Tops -400, -20, 300 at offset 0: the second section is the closest candidate. */
  lemma SecondOfThreeIsActive()
    ensures Detect([Entry("intro", -400), Entry("features", -20), Entry("pricing", 300)], 0, 0) == Some("features")
  {
    var es := [Entry("intro", -400), Entry("features", -20), Entry("pricing", 300)];
    assert IsClosest(es, 3, 0, 1);
    DetectAtViewportTop(es, 0);
  }

  /**
   * The falsy-zero quirk: a section whose top is exactly at the viewport top is taken first, but its
   * stored dimension 0 is falsy, so the next section replaces it although that section is
   * below the threshold.
   */
  lemma ZeroTopIsReplaced(offset: int)
    ensures Detect([Entry("a", 0), Entry("b", offset + 500)], 0, offset) == Some("b")
  {
    var es := [Entry("a", 0), Entry("b", offset + 500)];
    assert es[..1] == [Entry("a", 0)];
  }

  /**
   * With the container's top edge at or below the viewport top, a first section whose
   * relative top is below the threshold and whose raw top is not 0 is never replaced: a later candidate's relative top is at most the
   * threshold, hence below the first section's raw top.
   */
  lemma {:induction false} ScanKeepsFirstBelowThreshold(entries: seq<Entry>, n: nat, containerTop: int, offset: int)
    requires 1 <= n <= |entries|
    requires containerTop >= 0
    requires entries[0].top != 0
    requires RelativeTop(entries[0], containerTop) > offset
    ensures Scan(entries[..n], containerTop, offset) == Pick(entries[0])
  {
    if n > 1 {
      ScanKeepsFirstBelowThreshold(entries, n - 1, containerTop, offset);
      assert entries[..n][..n - 1] == entries[..n - 1];
    }
  }

  /**
   * The first section is taken unconditionally, and a later section replaces it only by
   * exceeding its raw top. With the container's top edge at or below the viewport top, a
   * first section below the threshold whose raw top is not 0 therefore stays active over
   * every later section, candidates included.
   */
  lemma FirstBelowThresholdStaysActive(entries: seq<Entry>, containerTop: int, offset: int)
    requires |entries| > 0
    requires containerTop >= 0
    requires entries[0].top != 0
    requires RelativeTop(entries[0], containerTop) > offset
    ensures Detect(entries, containerTop, offset) == Some(entries[0].id)
  {
    assert entries[..|entries|] == entries;
    ScanKeepsFirstBelowThreshold(entries, |entries|, containerTop, offset);
  }

  /** A first section below the threshold (top 100) keeps the place of a later candidate (top -20). */
  lemma FirstBelowThresholdBeatsCandidate()
    ensures Detect([Entry("a", 100), Entry("b", -20)], 0, 0) == Some("a")
  {
    FirstBelowThresholdStaysActive([Entry("a", 100), Entry("b", -20)], 0, 0);
  }

  /**
   * With the container's top edge above the viewport top the rule no longer holds: with a
   * container scrolled 1000 pixels out of view (`containerTop = -1000`), the first
   * section (relative top 100) is below the threshold, and the candidate's raw top -1020
   * is compared as its relative top -20 against the stored -900, so the candidate wins.
   */
  lemma CandidateWinsAboveViewportTop()
    ensures Detect([Entry("a", -900), Entry("b", -1020)], -1000, 0) == Some("b")
  {
    var es := [Entry("a", -900), Entry("b", -1020)];
    assert es[..1] == [Entry("a", -900)];
  }

  /**
   * With offset 0 and the container flush with the viewport top, a navigation leaves its section at top
   * 0; that falsy dimension lets the next section, below the threshold, take its place.
   */
  lemma NavigatedSectionIsReplaced()
    ensures Detect([Entry("w", -300), Entry("x", 0), Entry("y", 400)], 0, 0) == Some("y")
  {
    var es := [Entry("w", -300), Entry("x", 0), Entry("y", 400)];
    assert es[..1] == [Entry("w", -300)];
    assert es[..2][..1] == es[..1];
    assert es[..3][..2] == es[..2];
  }

  /**
   * The mixed-frame quirk: with the container's top edge 100 pixels below the viewport top, both sections are
   * above the threshold and the second is closer to it, yet the stored raw top (50) is
   * compared with a relative top (-10), so the first section stays active.
   */
  lemma RawTopKeepsEarlierSection()
    ensures Detect([Entry("a", 50), Entry("b", 90)], 100, 0) == Some("a")
  {
    var es := [Entry("a", 50), Entry("b", 90)];
    assert es[..1] == [Entry("a", 50)];
  }
}
