/** The jump history of content.js (`navPushCurrent`, `navBack`,
    `navForward`) and the single rebuild timer slot of `scheduleRebuild`.
    Scroll offsets are given as integers; the scrolling itself is left to
    the caller, which receives the offset to scroll to. */
module Navigation {

  import opened Common

  /** `navPushCurrent` keeps at most this many offsets in `history`. */
  const HistoryLimit: nat := 50

  /** `state.history` and `state.future`; the top of each stack is its last
      element. */
  datatype NavStacks = NavStacks(history: seq<int>, future: seq<int>)

  /** The stacks after a move, and the offset to scroll to if any. */
  datatype Moved = Moved(stacks: NavStacks, target: Option<int>)

  /** The two stacks together never hold more than `HistoryLimit` offsets. */
  predicate Bounded(n: NavStacks) {
    |n.history| + |n.future| <= HistoryLimit
  }

  /** The last `k` elements of `s`, or all of them when there are fewer. */
  function LastN(s: seq<int>, k: nat): (r: seq<int>)
    ensures |r| == Min(|s|, k)
  {
    if |s| <= k then s else s[|s| - k..]
  }

  /** `navPushCurrent`: push the current offset `cur`, empty `future`, and
      drop the oldest entry once `history` is longer than the limit. */
  function Push(n: NavStacks, cur: int): NavStacks {
    var h := n.history + [cur];
    NavStacks(if |h| > HistoryLimit then h[1..] else h, [])
  }

  /** `navBack`: nothing when `history` is empty; otherwise pop its top as
      the target and push `cur` on `future`. */
  function Back(n: NavStacks, cur: int): Moved {
    if n.history == [] then Moved(n, None)
    else
      var h := n.history;
      Moved(NavStacks(h[..|h| - 1], n.future + [cur]), Some(h[|h| - 1]))
  }

  /** `navForward`: the mirror image of `Back`. */
  function Forward(n: NavStacks, cur: int): Moved {
    if n.future == [] then Moved(n, None)
    else
      var f := n.future;
      Moved(NavStacks(n.history + [cur], f[..|f| - 1]), Some(f[|f| - 1]))
  }

  /** A push ends `history` with the current offset, keeps the latest
      offsets before it up to the limit, and clears `future`. */
  lemma PushKeepsLatest(n: NavStacks, cur: int)
    requires Bounded(n)
    ensures Push(n, cur).history == LastN(n.history + [cur], HistoryLimit)
    ensures Push(n, cur).future == []
    ensures Push(n, cur).history[|Push(n, cur).history| - 1] == cur
    ensures Bounded(Push(n, cur))
  {
  }

  /** Back and forward do nothing on an empty source stack; otherwise they
      move one offset and keep the total size, so the bound holds. */
  lemma MovesKeepSize(n: NavStacks, cur: int)
    ensures n.history == [] <==> Back(n, cur) == Moved(n, None)
    ensures n.future == [] <==> Forward(n, cur) == Moved(n, None)
    ensures var m := Back(n, cur).stacks;
      |m.history| + |m.future| == |n.history| + |n.future|
    ensures var m := Forward(n, cur).stacks;
      |m.history| + |m.future| == |n.history| + |n.future|
    ensures Bounded(n) ==> Bounded(Back(n, cur).stacks) && Bounded(Forward(n, cur).stacks)
  {
  }

  /** Going back and then forward from where back landed returns to the
      starting stacks and to the offset the user left. */
  lemma {:induction false} BackThenForward(n: NavStacks, cur: int)
    requires n.history != []
    ensures var m := Back(n, cur);
      m.target.Some? && Forward(m.stacks, m.target.value) == Moved(n, Some(cur))
  {
    var h := n.history;
    assert h[..|h| - 1] + [h[|h| - 1]] == h;
    assert (n.future + [cur])[..|n.future|] == n.future;
  }

  /** And the other way round. */
  lemma {:induction false} ForwardThenBack(n: NavStacks, cur: int)
    requires n.future != []
    ensures var m := Forward(n, cur);
      m.target.Some? && Back(m.stacks, m.target.value) == Moved(n, Some(cur))
  {
    var f := n.future;
    assert f[..|f| - 1] + [f[|f| - 1]] == f;
    assert (n.history + [cur])[..|n.history|] == n.history;
  }

  /** `state.rebuildTimer`: no timer, or the handle of the pending one and
      its delay in milliseconds. */
  datatype Timer = Idle | Pending(handle: nat, delay: int)

  /** The slot after a timer with the given handle has run its callback, and
      whether the callback rebuilt the index. A cleared timer never runs, so
      a handle other than the pending one changes nothing. */
  datatype Fired = Fired(timer: Timer, rebuilds: bool)

  function Fire(t: Timer, handle: nat): Fired {
    if t.Pending? && t.handle == handle then Fired(Idle, true) else Fired(t, false)
  }

  /** `scheduleRebuild(delayMs)`: clear whatever is pending, then start a
      timer with a fresh handle. */
  function Schedule(t: Timer, handle: nat, delay: int): Timer {
    Pending(handle, delay)
  }

  /** Debouncing: of two scheduled rebuilds only the later one runs, and it
      runs once. */
  lemma LaterScheduleWins(t: Timer, h1: nat, d1: int, h2: nat, d2: int)
    requires h1 != h2
    ensures var s := Schedule(Schedule(t, h1, d1), h2, d2);
      Fire(s, h1) == Fired(s, false) &&
      Fire(s, h2) == Fired(Idle, true) &&
      Fire(Fire(s, h2).timer, h2) == Fired(Idle, false)
  {
  }
}
