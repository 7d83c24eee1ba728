/** The engine's mutable `state` object of content.js, restricted to what
    the outline engine reads and writes: the settings, the items and their
    `idToIndex` map, `activeIndex`, the two navigation stacks and the rebuild
    timer, together with the identity store `stableIdFor` writes. */
module State {

  import opened Common
  import opened Text
  import opened Page
  import opened Identity
  import opened Outline
  import opened Viewport
  import opened Navigation

  /** The settings the engine consults; width and open-by-default only
      concern the panel. */
  datatype Settings = Settings(granularity: Granularity, searchScope: SearchScope, prefixLength: int)

  /** `DEFAULT_SETTINGS`: pairs, preview scope, 800 characters of prefix. */
  const DefaultSettings: Settings := Settings(PairGranularity, PreviewScope, 800)

  /** `yLine = headerOffset + 24`. */
  function ReadingLine(headerOffset: int): int {
    headerOffset + 24
  }

  /** The top of every item's target element; every item has a target. */
  function TopsOf(items: seq<Item>, top: Elem -> int): (tops: seq<Option<int>>)
    ensures |tops| == |items|
    ensures forall i :: 0 <= i < |items| ==> tops[i] == Some(top(items[i].targetEl))
  {
    seq(|items|, i requires 0 <= i < |items| => Some(top(items[i].targetEl)))
  }

  /** What a rebuild computes: the items, their id map and the id tables. */
  datatype Index = Index(items: seq<Item>, idToIndex: map<string, nat>, tables: IdTables)

  /** `rebuildIndex` over the message elements `els`, from the id tables `t`. */
  function Rebuilt(s: Settings, d: Dom, frozen: set<Elem>, els: seq<Elem>, t: IdTables): Index {
    var b := TurnsSpec(d, SourceText(s.searchScope, s.prefixLength), frozen, els, t);
    var items := ItemsOf(s.granularity, b.turns);
    Index(items, IdIndex(items), b.tables)
  }

  /** Every item of a rebuilt index sits at its own position and its id
      finds it; an id shared by several items finds the last of them. */
  lemma RebuiltIndexFindsItems(s: Settings, d: Dom, frozen: set<Elem>, els: seq<Elem>, t: IdTables)
    ensures var r := Rebuilt(s, d, frozen, els, t);
      (forall i :: 0 <= i < |r.items| ==> r.items[i].index == i && r.items[i].id in r.idToIndex) &&
      (forall id :: id in r.idToIndex ==>
        r.idToIndex[id] < |r.items| && r.items[r.idToIndex[id]].id == id &&
        forall j :: r.idToIndex[id] < j < |r.items| ==> r.items[j].id != id)
  {
    var r := Rebuilt(s, d, frozen, els, t);
    var turns := TurnsSpec(d, SourceText(s.searchScope, s.prefixLength), frozen, els, t).turns;
    ItemsAreIndexed(s.granularity, turns);
    IdIndexFindsLastOccurrence(r.items);
  }

  /** Rebuilding over an unchanged page gives the same items, and thus the
      same ids, and leaves the id tables as they were. */
  lemma RebuildIdempotent(s: Settings, d: Dom, frozen: set<Elem>, els: seq<Elem>, t: IdTables)
    ensures var r := Rebuilt(s, d, frozen, els, t);
      Rebuilt(s, d, frozen, els, r.tables) == r
  {
    RebuildIsStable(d, SourceText(s.searchScope, s.prefixLength), frozen, els, t);
  }

  class OutlineState {
    var settings: Settings
    var items: seq<Item>
    var idToIndex: map<string, nat>
    var activeIndex: int
    var history: seq<int>
    var future: seq<int>
    var rebuildTimer: Timer
    /** The handle the next `setTimeout` returns. */
    var nextHandle: nat
    const store: IdentityStore

    /** The invariant every operation keeps: bounded stacks, a pending
        timer with a handle already given out, items at their positions
        with their id map, and an active index that is -1 exactly when there
        are no items. */
    ghost predicate Valid()
      reads this
    {
      Consistent() && -1 <= activeIndex < |items| && (activeIndex == -1 <==> items == [])
    }

    /** All of `Valid` but the active index, which `rebuildIndex` restores
        last. */
    ghost predicate Consistent()
      reads this
    {
      Bounded(NavStacks(history, future)) &&
      (rebuildTimer.Pending? ==> rebuildTimer.handle < nextHandle) &&
      (forall i :: 0 <= i < |items| ==> items[i].index == i) &&
      idToIndex == IdIndex(items)
    }

    constructor (store: IdentityStore)
      ensures Valid()
      ensures settings == DefaultSettings && items == [] && idToIndex == map[] && activeIndex == -1
      ensures history == [] && future == [] && rebuildTimer == Idle && this.store == store
    {
      settings := DefaultSettings;
      items := [];
      idToIndex := map[];
      activeIndex := -1;
      history := [];
      future := [];
      rebuildTimer := Idle;
      nextHandle := 0;
      this.store := store;
    }

    function Stacks(): NavStacks
      reads this
    {
      NavStacks(history, future)
    }

    /** `updateActiveFromViewport`, given each element's top in the viewport
        and the header offset. */
    method UpdateActiveFromViewport(top: Elem -> int, headerOffset: int)
      requires Consistent()
      modifies this`activeIndex
      ensures Valid()
      ensures activeIndex == ActiveIndex(TopsOf(items, top), ReadingLine(headerOffset))
    {
      var tops := TopsOf(items, top);
      ActiveIndexSpec(tops, ReadingLine(headerOffset));
      activeIndex := ActiveFromTops(tops, ReadingLine(headerOffset));
    }

    /** `rebuildIndex` over the message elements `els` of the page. */
    method RebuildIndex(d: Dom, els: seq<Elem>, top: Elem -> int, headerOffset: int)
      requires Valid()
      modifies this`items, this`idToIndex, this`activeIndex, store
      ensures Valid()
      ensures var r := Rebuilt(settings, d, store.frozen, els, old(store.Tables()));
        items == r.items && idToIndex == r.idToIndex && store.Tables() == r.tables
      ensures activeIndex == ActiveIndex(TopsOf(items, top), ReadingLine(headerOffset))
    {
      ghost var r := Rebuilt(settings, d, store.frozen, els, store.Tables());
      var turns := BuildTurns(d, settings.searchScope, settings.prefixLength, els, store);
      var newItems;
      if settings.granularity == TurnGranularity {
        newItems := TurnItems(turns);
      } else {
        var pairs := BuildPairsFromTurns(turns);
        newItems := PairItems(pairs);
      }
      assert newItems == r.items;
      ItemsAreIndexed(settings.granularity, turns);
      items := newItems;
      idToIndex := IdIndex(items);
      UpdateActiveFromViewport(top, headerOffset);
    }

    /** `scheduleRebuild(delayMs)`: replaces any pending timer by a new one
        and returns its handle. */
    method ScheduleRebuild(delay: int) returns (handle: nat)
      requires Valid()
      modifies this`rebuildTimer, this`nextHandle
      ensures Valid()
      ensures handle == old(nextHandle) && nextHandle == handle + 1
      ensures rebuildTimer == Schedule(old(rebuildTimer), handle, delay)
    {
      handle := nextHandle;
      nextHandle := nextHandle + 1;
      rebuildTimer := Pending(handle, delay);
    }

    /** The timer with `handle` runs out: if it is the pending one, the slot
        is emptied and the index rebuilt; a cleared timer does nothing. */
    method TimerFired(handle: nat, d: Dom, els: seq<Elem>, top: Elem -> int, headerOffset: int)
      requires Valid()
      modifies this`rebuildTimer, this`items, this`idToIndex, this`activeIndex, store
      ensures Valid()
      ensures rebuildTimer == Fire(old(rebuildTimer), handle).timer
      ensures Fire(old(rebuildTimer), handle).rebuilds ==>
        var r := Rebuilt(settings, d, store.frozen, els, old(store.Tables()));
        items == r.items && idToIndex == r.idToIndex && store.Tables() == r.tables &&
        activeIndex == ActiveIndex(TopsOf(items, top), ReadingLine(headerOffset))
      ensures !Fire(old(rebuildTimer), handle).rebuilds ==>
        items == old(items) && idToIndex == old(idToIndex) && activeIndex == old(activeIndex) &&
        store.Tables() == old(store.Tables())
    {
      if rebuildTimer.Pending? && rebuildTimer.handle == handle {
        rebuildTimer := Idle;
        RebuildIndex(d, els, top, headerOffset);
      }
    }

    /** `navPushCurrent` with the current scroll offset `cur`. */
    method NavPushCurrent(cur: int)
      requires Valid()
      modifies this`history, this`future
      ensures Valid()
      ensures Stacks() == Push(old(Stacks()), cur)
    {
      PushKeepsLatest(Stacks(), cur);
      history := history + [cur];
      future := [];
      if |history| > HistoryLimit {
        history := history[1..];
      }
    }

    /** `navBack` with the current scroll offset `cur`; returns the offset
        to scroll to, or `None` when there is no history. */
    method NavBack(cur: int) returns (target: Option<int>)
      requires Valid()
      modifies this`history, this`future
      ensures Valid()
      ensures Moved(Stacks(), target) == Back(old(Stacks()), cur)
    {
      MovesKeepSize(Stacks(), cur);
      if |history| == 0 {
        return None;
      }
      var prev := history[|history| - 1];
      history := history[..|history| - 1];
      future := future + [cur];
      target := Some(prev);
    }

    /** `navForward` with the current scroll offset `cur`. */
    method NavForward(cur: int) returns (target: Option<int>)
      requires Valid()
      modifies this`history, this`future
      ensures Valid()
      ensures Moved(Stacks(), target) == Forward(old(Stacks()), cur)
    {
      MovesKeepSize(Stacks(), cur);
      if |future| == 0 {
        return None;
      }
      var next := future[|future| - 1];
      future := future[..|future| - 1];
      history := history + [cur];
      target := Some(next);
    }
  }
}
