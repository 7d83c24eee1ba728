/** `updateActiveFromViewport` of content.js: the active item is the one
    whose target's top is nearest the reading line `headerOffset + 24`,
    the first such on a tie. The tops are given: `None` stands for an item
    without a target element, which the loop skips. */
module Viewport {

  import opened Common

  /** `Math.abs(topInViewport - yLine)`. */
  function Distance(top: int, yLine: int): nat {
    if top >= yLine then top - yLine else yLine - top
  }

  /** `bestIdx` and `bestDist` of the loop; `None` is the initial `Infinity`. */
  datatype Best = Best(idx: nat, dist: Option<nat>)

  /** The loop's variables after it has looked at every item of `tops`. */
  function Scan(tops: seq<Option<int>>, yLine: int): Best
    decreases |tops|
  {
    if tops == [] then Best(0, None)
    else
      var b := Scan(tops[..|tops| - 1], yLine);
      var i := |tops| - 1;
      if tops[i].None? then b
      else
        var dist := Distance(tops[i].value, yLine);
        if b.dist.None? || dist < b.dist.value then Best(i, Some(dist)) else b
  }

  /** The index `updateActiveFromViewport` stores in `state.activeIndex`. */
  function ActiveIndex(tops: seq<Option<int>>, yLine: int): int {
    if tops == [] then -1 else Scan(tops, yLine).idx
  }

  /** Item `i` has a target and no item with a target is nearer the line;
      every item before it with a target is strictly farther. */
  predicate FirstNearest(tops: seq<Option<int>>, yLine: int, i: int) {
    0 <= i < |tops| && tops[i].Some? &&
    (forall j :: 0 <= j < |tops| && tops[j].Some? ==> Distance(tops[i].value, yLine) <= Distance(tops[j].value, yLine)) &&
    (forall j :: 0 <= j < i && tops[j].Some? ==> Distance(tops[i].value, yLine) < Distance(tops[j].value, yLine))
  }

  predicate HasTarget(tops: seq<Option<int>>) {
    exists i :: 0 <= i < |tops| && tops[i].Some?
  }

  /** The loop's invariant: `bestDist` is still infinite exactly while no
      item with a target has been seen, and otherwise `bestIdx` is the first
      nearest item seen so far and `bestDist` its distance. */
  lemma {:induction false} ScanFindsFirstNearest(tops: seq<Option<int>>, yLine: int)
    ensures var b := Scan(tops, yLine);
      (b.dist.None? <==> !HasTarget(tops)) &&
      (b.dist.None? ==> b.idx == 0) &&
      (b.dist.Some? ==> FirstNearest(tops, yLine, b.idx) && b.dist.value == Distance(tops[b.idx].value, yLine))
    decreases |tops|
  {
    if tops != [] {
      var p := tops[..|tops| - 1];
      var i := |tops| - 1;
      ScanFindsFirstNearest(p, yLine);
      var b := Scan(p, yLine);
      assert forall j :: 0 <= j < i ==> tops[j] == p[j];
      if HasTarget(p) {
        var j :| 0 <= j < |p| && p[j].Some?;
        assert tops[j].Some?;
      }
      if HasTarget(tops) && tops[i].None? {
        var j :| 0 <= j < |tops| && tops[j].Some?;
        assert p[j].Some?;
      }
    }
  }

  /** `activeIndex` is -1 exactly when there are no items; with items but
      no target it is 0; otherwise it is the first item nearest the line. */
  lemma ActiveIndexSpec(tops: seq<Option<int>>, yLine: int)
    ensures ActiveIndex(tops, yLine) == -1 <==> tops == []
    ensures tops != [] && !HasTarget(tops) ==> ActiveIndex(tops, yLine) == 0
    ensures HasTarget(tops) ==> FirstNearest(tops, yLine, ActiveIndex(tops, yLine))
    ensures -1 <= ActiveIndex(tops, yLine) < |tops|
  {
    ScanFindsFirstNearest(tops, yLine);
  }

  /** There is only one first nearest item, so the choice is determined by
      the tops alone. */
  lemma FirstNearestUnique(tops: seq<Option<int>>, yLine: int, i: int, j: int)
    requires FirstNearest(tops, yLine, i) && FirstNearest(tops, yLine, j)
    ensures i == j
  {
  }

  /** `updateActiveFromViewport`'s loop, from the tops of the items' targets. */
  method ActiveFromTops(tops: seq<Option<int>>, yLine: int) returns (active: int)
    ensures active == ActiveIndex(tops, yLine)
    ensures active == -1 <==> tops == []
    ensures HasTarget(tops) ==> FirstNearest(tops, yLine, active)
  {
    ActiveIndexSpec(tops, yLine);
    if |tops| == 0 {
      return -1;
    }
    var bestIdx := 0;
    var bestDist: Option<nat> := None;
    for i := 0 to |tops|
      invariant Best(bestIdx, bestDist) == Scan(tops[..i], yLine)
    {
      assert tops[..i + 1][..i] == tops[..i];
      if tops[i].None? {
        continue;
      }
      var dist := Distance(tops[i].value, yLine);
      if bestDist.None? || dist < bestDist.value {
        bestDist := Some(dist);
        bestIdx := i;
      }
    }
    assert tops[..|tops|] == tops;
    active := bestIdx;
  }
}
