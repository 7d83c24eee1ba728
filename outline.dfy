/** From message elements to outline items: `buildTurns`,
    `buildPairsFromTurns` and the item mapping and `idToIndex` map of
    `rebuildIndex`. */
module Outline {

  import opened Common
  import opened Text
  import opened Page
  import opened Identity

  // ---------------------------------------------------------------------
  // buildTurns

  datatype Turn = Turn(id: string, role: Role, el: Elem, preview: string, searchText: string, hasCode: bool)

  /** The two text functions `buildTurns` applies to an element's raw text:
      `pickPreviewFromText` and `buildSearchTextFromRaw`. The lemmas below
      hold for any such pair; `SourceText` is the one the source uses. */
  datatype TextFns = TextFns(preview: string -> string, search: string -> string)

  function SourceText(scope: SearchScope, prefixLength: int): TextFns {
    TextFns(PickPreviewFromText, raw => BuildSearchTextFromRaw(raw, scope, prefixLength))
  }

  /** `buildTurns` keeps an element outside the outline panel whose preview
      is not empty. */
  predicate Kept(d: Dom, f: TextFns, e: Elem) {
    !d.inPanel(e) && f.preview(d.rawText(e)) != []
  }

  function KeptElements(d: Dom, f: TextFns, els: seq<Elem>): seq<Elem> {
    Filter(els, e => Kept(d, f, e))
  }

  /** The turns built so far and the id tables after building them. */
  datatype Built = Built(turns: seq<Turn>, tables: IdTables)

  /** `buildTurns` over the message elements `els`, starting from the id
      tables `t`; the number of turns kept so far is the next `idx`. */
  function TurnsSpec(d: Dom, f: TextFns, frozen: set<Elem>, els: seq<Elem>, t: IdTables): Built
    decreases |els|
  {
    if els == [] then Built([], t)
    else
      var b := TurnsSpec(d, f, frozen, els[..|els| - 1], t);
      var el := els[|els| - 1];
      if !Kept(d, f, el) then b
      else
        var preview := f.preview(d.rawText(el));
        var a := StableId(b.tables, frozen, Some(el), d.role(el), |b.turns|, preview, |d.textContent(el)|);
        Built(b.turns + [Turn(a.id, d.role(el), el, preview, f.search(d.rawText(el)), d.hasCode(el))], a.tables)
  }

  /** `buildTurns`, with its running `idx` and the identity store it writes. */
  method BuildTurns(d: Dom, scope: SearchScope, prefixLength: int, els: seq<Elem>, store: IdentityStore) returns (turns: seq<Turn>)
    modifies store
    ensures Built(turns, store.Tables()) == TurnsSpec(d, SourceText(scope, prefixLength), store.frozen, els, old(store.Tables()))
  {
    turns := [];
    var idx := 0;
    for i := 0 to |els|
      invariant idx == |turns|
      invariant Built(turns, store.Tables()) == TurnsSpec(d, SourceText(scope, prefixLength), store.frozen, els[..i], old(store.Tables()))
    {
      assert els[..i + 1][..i] == els[..i];
      var el := els[i];
      if d.inPanel(el) {
        continue;
      }
      var role := d.role(el);
      var raw := d.rawText(el);
      var preview := PickPreviewFromText(raw);
      if preview == [] {
        continue;
      }
      var searchText := BuildSearchTextFromRaw(raw, scope, prefixLength);
      var id := store.StableIdFor(Some(el), role, idx, preview, |d.textContent(el)|);
      idx := idx + 1;
      turns := turns + [Turn(id, role, el, preview, searchText, d.hasCode(el))];
    }
    assert els[..|els|] == els;
  }

  /** The turns are the kept elements in input order, each with its role,
      the preview and search text of its raw text, and a non-empty preview. */
  lemma {:induction false} TurnsFollowInput(d: Dom, f: TextFns, frozen: set<Elem>, els: seq<Elem>, t: IdTables)
    ensures var turns := TurnsSpec(d, f, frozen, els, t).turns;
      |turns| == |KeptElements(d, f, els)| &&
      forall k :: 0 <= k < |turns| ==>
        turns[k].el == KeptElements(d, f, els)[k] &&
        turns[k].role == d.role(turns[k].el) &&
        turns[k].preview == f.preview(d.rawText(turns[k].el)) &&
        turns[k].preview != [] &&
        turns[k].searchText == f.search(d.rawText(turns[k].el)) &&
        turns[k].hasCode == d.hasCode(turns[k].el)
    decreases |els|
  {
    if els != [] {
      var p, el := els[..|els| - 1], els[|els| - 1];
      TurnsFollowInput(d, f, frozen, p, t);
      assert KeptElements(d, f, els) == if Kept(d, f, el) then KeptElements(d, f, p) + [el] else KeptElements(d, f, p);
    }
  }

  /** Building turns only gives ids to the elements of the turns it keeps. */
  lemma {:induction false} TurnsTouchOnlyTheirElements(d: Dom, f: TextFns, frozen: set<Elem>, els: seq<Elem>, t: IdTables, e: Elem)
    requires forall k :: 0 <= k < |TurnsSpec(d, f, frozen, els, t).turns| ==> TurnsSpec(d, f, frozen, els, t).turns[k].el != e
    ensures Existing(TurnsSpec(d, f, frozen, els, t).tables, e) == Existing(t, e)
    decreases |els|
  {
    if els != [] {
      var p, el := els[..|els| - 1], els[|els| - 1];
      var b := TurnsSpec(d, f, frozen, p, t);
      var full := TurnsSpec(d, f, frozen, els, t).turns;
      assert |b.turns| <= |full|;
      forall k | 0 <= k < |b.turns| ensures b.turns[k].el != e {
        assert full[k] == b.turns[k];
      }
      TurnsTouchOnlyTheirElements(d, f, frozen, p, t, e);
      if Kept(d, f, el) {
        assert full[|b.turns|].el == el;
        StableIdKeepsOthers(b.tables, frozen, el, d.role(el), |b.turns|, f.preview(d.rawText(el)), |d.textContent(el)|, e);
      }
    }
  }

  /** Building turns keeps every id already in the tables. */
  lemma {:induction false} TurnsKeepTables(d: Dom, f: TextFns, frozen: set<Elem>, els: seq<Elem>, t: IdTables, x: Elem)
    requires Existing(t, x).Some?
    ensures Existing(TurnsSpec(d, f, frozen, els, t).tables, x) == Existing(t, x)
    decreases |els|
  {
    if els != [] {
      var p, el := els[..|els| - 1], els[|els| - 1];
      TurnsKeepTables(d, f, frozen, p, t, x);
      var b := TurnsSpec(d, f, frozen, p, t);
      if Kept(d, f, el) {
        StableIdKeepsExisting(b.tables, frozen, el, d.role(el), |b.turns|, f.preview(d.rawText(el)), |d.textContent(el)|, x);
      }
    }
  }

  /** The last element, when kept, adds one turn carrying the id
      `stableIdFor` gives it over the tables built so far. */
  lemma LastTurn(d: Dom, f: TextFns, frozen: set<Elem>, els: seq<Elem>, t: IdTables)
    requires els != [] && Kept(d, f, els[|els| - 1])
    ensures var b := TurnsSpec(d, f, frozen, els[..|els| - 1], t);
      var el := els[|els| - 1];
      var full := TurnsSpec(d, f, frozen, els, t).turns;
      |full| == |b.turns| + 1 && (forall k :: 0 <= k < |b.turns| ==> full[k] == b.turns[k]) &&
      full[|b.turns|].el == el && full[|b.turns|].role == d.role(el) &&
      full[|b.turns|].preview == f.preview(d.rawText(el)) &&
      full[|b.turns|].id == StableId(b.tables, frozen, Some(el), d.role(el), |b.turns|, f.preview(d.rawText(el)), |d.textContent(el)|).id
  {
  }

  /** Turn k is the first turn of its element. */
  ghost predicate FirstOfItsElement(turns: seq<Turn>, k: nat)
    requires k < |turns|
  {
    forall j :: 0 <= j < k ==> turns[j].el != turns[k].el
  }

  /** The running `idx` counts the kept turns: the k-th turn, when its
      element has no id yet and is no earlier turn's element, gets the fresh
      id of ordinal k, whatever ids the other elements already carry. */
  lemma {:induction false} TurnsNumberedConsecutively(d: Dom, f: TextFns, frozen: set<Elem>, els: seq<Elem>, t: IdTables)
    ensures var turns := TurnsSpec(d, f, frozen, els, t).turns;
      forall k :: 0 <= k < |turns| && Existing(t, turns[k].el).None? && FirstOfItsElement(turns, k) ==>
        turns[k].id == FreshId(turns[k].role, k, turns[k].preview, |d.textContent(turns[k].el)|)
    decreases |els|
  {
    if els != [] {
      var p, el := els[..|els| - 1], els[|els| - 1];
      TurnsNumberedConsecutively(d, f, frozen, p, t);
      if Kept(d, f, el) {
        LastTurn(d, f, frozen, els, t);
        var b := TurnsSpec(d, f, frozen, p, t);
        var full := TurnsSpec(d, f, frozen, els, t).turns;
        forall k | 0 <= k < |full| && Existing(t, full[k].el).None? && FirstOfItsElement(full, k)
          ensures full[k].id == FreshId(full[k].role, k, full[k].preview, |d.textContent(full[k].el)|)
        {
          if k < |b.turns| {
            assert FirstOfItsElement(b.turns, k);
          } else {
            assert forall j :: 0 <= j < |b.turns| ==> b.turns[j].el != el;
            TurnsTouchOnlyTheirElements(d, f, frozen, p, t, el);
          }
        }
      }
    }
  }

  /** An element that already carries an id keeps it: its turn has that id. */
  lemma {:induction false} TurnsKeepOldIds(d: Dom, f: TextFns, frozen: set<Elem>, els: seq<Elem>, t: IdTables)
    ensures var turns := TurnsSpec(d, f, frozen, els, t).turns;
      forall k :: 0 <= k < |turns| && Existing(t, turns[k].el).Some? ==>
        turns[k].id == Existing(t, turns[k].el).value
    decreases |els|
  {
    if els != [] {
      var p, el := els[..|els| - 1], els[|els| - 1];
      TurnsKeepOldIds(d, f, frozen, p, t);
      if Kept(d, f, el) {
        LastTurn(d, f, frozen, els, t);
        if Existing(t, el).Some? {
          TurnsKeepTables(d, f, frozen, p, t, el);
        }
      }
    }
  }

  /** An element listed twice gets the same id both times. */
  lemma {:induction false} RepeatedElementsShareIds(d: Dom, f: TextFns, frozen: set<Elem>, els: seq<Elem>, t: IdTables)
    ensures var turns := TurnsSpec(d, f, frozen, els, t).turns;
      forall j, k :: 0 <= j < k < |turns| && turns[j].el == turns[k].el ==> turns[k].id == turns[j].id
    decreases |els|
  {
    if els != [] {
      var p, el := els[..|els| - 1], els[|els| - 1];
      RepeatedElementsShareIds(d, f, frozen, p, t);
      if Kept(d, f, el) {
        LastTurn(d, f, frozen, els, t);
        TurnsRecorded(d, f, frozen, p, t);
        var b := TurnsSpec(d, f, frozen, p, t);
        forall j | 0 <= j < |b.turns| && b.turns[j].el == el
          ensures Existing(b.tables, el) == Some(b.turns[j].id)
        {
        }
      }
    }
  }

  /** A call of `stableIdFor` never changes an id that is already there. */
  lemma StableIdKeepsExisting(t: IdTables, frozen: set<Elem>, el: Elem, role: Role, idx: nat, preview: string, textLength: nat, x: Elem)
    requires Existing(t, x).Some?
    ensures Existing(StableId(t, frozen, Some(el), role, idx, preview, textLength).tables, x) == Existing(t, x)
  {
    if x != el {
      StableIdKeepsOthers(t, frozen, el, role, idx, preview, textLength, x);
    }
  }

  /** Every turn's element carries the turn's id in the tables `t`. */
  predicate Recorded(turns: seq<Turn>, t: IdTables) {
    forall k :: 0 <= k < |turns| ==> Existing(t, turns[k].el) == Some(turns[k].id)
  }

  /** After building, every turn's element carries the turn's id. */
  lemma {:induction false} TurnsRecorded(d: Dom, f: TextFns, frozen: set<Elem>, els: seq<Elem>, t: IdTables)
    ensures var b := TurnsSpec(d, f, frozen, els, t); Recorded(b.turns, b.tables)
    decreases |els|
  {
    if els != [] {
      var p, el := els[..|els| - 1], els[|els| - 1];
      TurnsRecorded(d, f, frozen, p, t);
      var b := TurnsSpec(d, f, frozen, p, t);
      if Kept(d, f, el) {
        var preview := f.preview(d.rawText(el));
        var a := StableId(b.tables, frozen, Some(el), d.role(el), |b.turns|, preview, |d.textContent(el)|);
        var nt := Turn(a.id, d.role(el), el, preview, f.search(d.rawText(el)), d.hasCode(el));
        var full := TurnsSpec(d, f, frozen, els, t);
        assert full == Built(b.turns + [nt], a.tables);
        forall k | 0 <= k < |full.turns|
          ensures Existing(full.tables, full.turns[k].el) == Some(full.turns[k].id)
        {
          if k < |b.turns| {
            assert full.turns[k] == b.turns[k];
            assert Existing(b.tables, b.turns[k].el) == Some(b.turns[k].id);
            StableIdKeepsExisting(b.tables, frozen, el, d.role(el), |b.turns|, preview, |d.textContent(el)|, b.turns[k].el);
          } else {
            assert full.turns[k] == nt;
            StableIdRecorded(b.tables, frozen, el, d.role(el), |b.turns|, preview, |d.textContent(el)|);
          }
        }
      }
    }
  }

  /** Building again over tables in which every turn's element already
      carries its id yields the same turns and changes no table. */
  lemma {:induction false} RebuildOverRecordedIds(d: Dom, f: TextFns, frozen: set<Elem>, els: seq<Elem>, t: IdTables, tf: IdTables)
    requires Recorded(TurnsSpec(d, f, frozen, els, t).turns, tf)
    ensures TurnsSpec(d, f, frozen, els, tf) == Built(TurnsSpec(d, f, frozen, els, t).turns, tf)
    decreases |els|
  {
    if els != [] {
      var p, el := els[..|els| - 1], els[|els| - 1];
      var b := TurnsSpec(d, f, frozen, p, t);
      var full := TurnsSpec(d, f, frozen, els, t).turns;
      assert |b.turns| <= |full|;
      forall k | 0 <= k < |b.turns|
        ensures Existing(tf, b.turns[k].el) == Some(b.turns[k].id)
      {
        assert full[k] == b.turns[k];
      }
      RebuildOverRecordedIds(d, f, frozen, p, t, tf);
      if Kept(d, f, el) {
        assert full[|b.turns|].el == el;
      }
    }
  }

  /** Rebuilding the outline over an unchanged page keeps every id: the
      second build returns the same turns and leaves the id tables as the
      first one left them. */
  lemma RebuildIsStable(d: Dom, f: TextFns, frozen: set<Elem>, els: seq<Elem>, t: IdTables)
    ensures var first := TurnsSpec(d, f, frozen, els, t);
      TurnsSpec(d, f, frozen, els, first.tables) == first
  {
    TurnsRecorded(d, f, frozen, els, t);
    RebuildOverRecordedIds(d, f, frozen, els, t, TurnsSpec(d, f, frozen, els, t).tables);
  }

  // ---------------------------------------------------------------------
  // buildPairsFromTurns

  datatype Pair = Pair(id: string, user: Option<Turn>, assistant: Option<Turn>, preview: string, hasCode: bool, targetEl: Elem)

  /** A user turn answered by the next turn. */
  function JoinedPair(t: Turn, next: Turn): Pair {
    Pair("pair-" + t.id + "__" + next.id, Some(t), Some(next),
         if t.preview != [] then t.preview else next.preview,
         t.hasCode || next.hasCode, t.el)
  }

  /** A user turn with no answer after it. */
  function UserPair(t: Turn): Pair {
    Pair("pair-" + t.id, Some(t), None, t.preview, t.hasCode, t.el)
  }

  /** An assistant, system or unknown turn not preceded by its question. */
  function OrphanPair(t: Turn): Pair {
    Pair("pair-" + t.id, None, Some(t), t.preview, t.hasCode, t.el)
  }

  function PairsOf(turns: seq<Turn>): seq<Pair>
    decreases |turns|
  {
    if turns == [] then []
    else if turns[0].role == User && |turns| > 1 && turns[1].role == Assistant then
      [JoinedPair(turns[0], turns[1])] + PairsOf(turns[2..])
    else if turns[0].role == User then [UserPair(turns[0])] + PairsOf(turns[1..])
    else [OrphanPair(turns[0])] + PairsOf(turns[1..])
  }

  /** `buildPairsFromTurns`: one pass with a one-turn look-ahead. */
  method BuildPairsFromTurns(turns: seq<Turn>) returns (pairs: seq<Pair>)
    ensures pairs == PairsOf(turns)
  {
    pairs := [];
    var i := 0;
    while i < |turns|
      invariant 0 <= i <= |turns|
      invariant pairs + PairsOf(turns[i..]) == PairsOf(turns)
    {
      PairsOfSuffix(turns, i);
      var t := turns[i];
      ghost var before := pairs;
      if t.role == User {
        if i + 1 < |turns| && turns[i + 1].role == Assistant {
          pairs := pairs + [JoinedPair(t, turns[i + 1])];
          assert pairs + PairsOf(turns[i + 2..]) == before + PairsOf(turns[i..]);
          i := i + 2;
          continue;
        }
        pairs := pairs + [UserPair(t)];
        assert pairs + PairsOf(turns[i + 1..]) == before + PairsOf(turns[i..]);
        i := i + 1;
        continue;
      }
      pairs := pairs + [OrphanPair(t)];
      assert pairs + PairsOf(turns[i + 1..]) == before + PairsOf(turns[i..]);
      i := i + 1;
    }
    assert turns[|turns|..] == [];
  }

  /** One step of the pass, on the turns from position `i` on. */
  lemma PairsOfSuffix(turns: seq<Turn>, i: nat)
    requires i < |turns|
    ensures turns[i].role == User && i + 1 < |turns| && turns[i + 1].role == Assistant ==>
      PairsOf(turns[i..]) == [JoinedPair(turns[i], turns[i + 1])] + PairsOf(turns[i + 2..])
    ensures turns[i].role == User && !(i + 1 < |turns| && turns[i + 1].role == Assistant) ==>
      PairsOf(turns[i..]) == [UserPair(turns[i])] + PairsOf(turns[i + 1..])
    ensures turns[i].role != User ==>
      PairsOf(turns[i..]) == [OrphanPair(turns[i])] + PairsOf(turns[i + 1..])
  {
    assert turns[i..][1..] == turns[i + 1..];
    if i + 1 < |turns| {
      assert turns[i..][2..] == turns[i + 2..];
    }
  }

  /** The turns a pair holds, question first. */
  function Members(p: Pair): seq<Turn> {
    (if p.user.Some? then [p.user.value] else []) + (if p.assistant.Some? then [p.assistant.value] else [])
  }

  function Flatten(pairs: seq<Pair>): seq<Turn>
    decreases |pairs|
  {
    if pairs == [] then [] else Members(pairs[0]) + Flatten(pairs[1..])
  }

  /** Every turn lands in exactly one pair, and the pairs keep the turns'
      order. */
  lemma {:induction false} PairsPartitionTurns(turns: seq<Turn>)
    ensures Flatten(PairsOf(turns)) == turns
    decreases |turns|
  {
    if turns != [] {
      var ps := PairsOf(turns);
      if turns[0].role == User && |turns| > 1 && turns[1].role == Assistant {
        PairsPartitionTurns(turns[2..]);
        assert ps[1..] == PairsOf(turns[2..]);
        assert turns == [turns[0], turns[1]] + turns[2..];
      } else {
        PairsPartitionTurns(turns[1..]);
        assert ps[1..] == PairsOf(turns[1..]);
        assert turns == [turns[0]] + turns[1..];
      }
    }
  }

  /** Each pair is a user turn with the assistant turn right after it, a
      user turn alone, or a turn of another role alone; a lone user turn is
      never followed by an assistant turn. */
  lemma {:induction false} PairsAreGreedy(turns: seq<Turn>)
    ensures var ps := PairsOf(turns);
      forall k :: 0 <= k < |ps| ==>
        (ps[k].user.Some? && ps[k].assistant.Some? &&
         ps[k].user.value.role == User && ps[k].assistant.value.role == Assistant &&
         ps[k] == JoinedPair(ps[k].user.value, ps[k].assistant.value)) ||
        (ps[k].user.Some? && ps[k].assistant.None? &&
         ps[k].user.value.role == User && ps[k] == UserPair(ps[k].user.value)) ||
        (ps[k].user.None? && ps[k].assistant.Some? &&
         ps[k].assistant.value.role != User && ps[k] == OrphanPair(ps[k].assistant.value))
    ensures var ps := PairsOf(turns);
      forall k :: 0 <= k < |ps| - 1 && ps[k].user.Some? && ps[k].assistant.None? ==>
        Members(ps[k + 1])[0].role != Assistant
    decreases |turns|
  {
    if turns != [] {
      var ps := PairsOf(turns);
      var rest := if turns[0].role == User && |turns| > 1 && turns[1].role == Assistant then turns[2..] else turns[1..];
      PairsAreGreedy(rest);
      assert ps[1..] == PairsOf(rest);
      if |ps| > 1 && ps[0].user.Some? && ps[0].assistant.None? {
        assert |turns| > 1 && turns[1].role != Assistant;
        assert rest == turns[1..];
        assert Members(ps[1])[0] == turns[1];
      }
    }
  }

  /** A user turn directly followed by an assistant turn always forms one
      two-turn pair pointing at the user turn's element. */
  lemma {:induction false} QuestionAndAnswerArePaired(turns: seq<Turn>, i: nat)
    requires i + 1 < |turns| && turns[i].role == User && turns[i + 1].role == Assistant
    ensures JoinedPair(turns[i], turns[i + 1]) in PairsOf(turns)
    ensures JoinedPair(turns[i], turns[i + 1]).targetEl == turns[i].el
    decreases |turns|
  {
    var ps := PairsOf(turns);
    if i > 0 {
      var n := if turns[0].role == User && turns[1].role == Assistant then 2 else 1;
      var rest := turns[n..];
      assert ps[1..] == PairsOf(rest);
      assert i >= n;
      QuestionAndAnswerArePaired(rest, i - n);
      assert rest[i - n] == turns[i] && rest[i - n + 1] == turns[i + 1];
    }
  }

  /** The greedy pass on user, assistant, user, user, assistant. */
  lemma PairsExample(u1: Turn, a1: Turn, u2: Turn, u3: Turn, a3: Turn)
    requires u1.role == User && u2.role == User && u3.role == User
    requires a1.role == Assistant && a3.role == Assistant
    ensures PairsOf([u1, a1, u2, u3, a3]) == [JoinedPair(u1, a1), UserPair(u2), JoinedPair(u3, a3)]
  {
    var s := [u1, a1, u2, u3, a3];
    assert [u3, a3][2..] == [];
    assert PairsOf([u3, a3]) == [JoinedPair(u3, a3)];
    assert [u2, u3, a3][1..] == [u3, a3];
    assert PairsOf([u2, u3, a3]) == [UserPair(u2), JoinedPair(u3, a3)];
    assert s[2..] == [u2, u3, a3];
  }

  // ---------------------------------------------------------------------
  // rebuildIndex: items and idToIndex

  datatype ItemKind = TurnKind | PairKind

  /** An outline entry; `role` is `None` for a pair (the source's "pair"). */
  datatype Item = Item(kind: ItemKind, id: string, index: nat, role: Option<Role>, preview: string,
                       searchText: string, hasCode: bool, targetEl: Elem)

  function TurnItem(t: Turn, index: nat): Item {
    Item(TurnKind, t.id, index, Some(t.role), t.preview,
         if t.searchText != [] then t.searchText else t.preview, t.hasCode, t.el)
  }

  /** `((p.user?.searchText || "") + "\n" + (p.assistant?.searchText || "")).trim() || p.preview`. */
  function PairSearchText(p: Pair): string {
    var q := if p.user.Some? then p.user.value.searchText else [];
    var a := if p.assistant.Some? then p.assistant.value.searchText else [];
    var s := Trim(q + "\n" + a);
    if s != [] then s else p.preview
  }

  function PairItem(p: Pair, index: nat): Item {
    Item(PairKind, p.id, index, None, p.preview, PairSearchText(p), p.hasCode, p.targetEl)
  }

  /** `turns.map((t, index) => ...)`. */
  function TurnItems(turns: seq<Turn>): (items: seq<Item>)
    ensures |items| == |turns|
    ensures forall i :: 0 <= i < |items| ==> items[i] == TurnItem(turns[i], i)
  {
    seq(|turns|, i requires 0 <= i < |turns| => TurnItem(turns[i], i))
  }

  /** `pairs.map((p, index) => ...)`. */
  function PairItems(pairs: seq<Pair>): (items: seq<Item>)
    ensures |items| == |pairs|
    ensures forall i :: 0 <= i < |items| ==> items[i] == PairItem(pairs[i], i)
  {
    seq(|pairs|, i requires 0 <= i < |pairs| => PairItem(pairs[i], i))
  }

  datatype Granularity = TurnGranularity | PairGranularity

  /** The items of `rebuildIndex` for the chosen granularity. */
  function ItemsOf(g: Granularity, turns: seq<Turn>): seq<Item> {
    if g == TurnGranularity then TurnItems(turns) else PairItems(PairsOf(turns))
  }

  /** Every item records its own position, and there is one item per turn
      or per pair. */
  lemma ItemsAreIndexed(g: Granularity, turns: seq<Turn>)
    ensures var items := ItemsOf(g, turns);
      forall i :: 0 <= i < |items| ==> items[i].index == i
    ensures g == TurnGranularity ==> |ItemsOf(g, turns)| == |turns|
    ensures g == PairGranularity ==> |ItemsOf(g, turns)| == |PairsOf(turns)|
  {
    if g == TurnGranularity {
      var items := TurnItems(turns);
      assert forall i :: 0 <= i < |items| ==> items[i] == TurnItem(turns[i], i);
    } else {
      var items := PairItems(PairsOf(turns));
      assert forall i :: 0 <= i < |items| ==> items[i] == PairItem(PairsOf(turns)[i], i);
    }
  }

  /** When every turn has a preview, so does every item, and every item
      can be found by a non-empty search text. */
  lemma {:induction false} ItemsHaveText(g: Granularity, turns: seq<Turn>)
    requires forall k :: 0 <= k < |turns| ==> turns[k].preview != []
    ensures var items := ItemsOf(g, turns);
      forall i :: 0 <= i < |items| ==> items[i].preview != [] && items[i].searchText != []
  {
    if g == TurnGranularity {
      var items := TurnItems(turns);
      forall i | 0 <= i < |items|
        ensures items[i].preview != [] && items[i].searchText != []
      {
        assert items[i] == TurnItem(turns[i], i);
      }
    } else {
      var ps := PairsOf(turns);
      var items := PairItems(ps);
      PairsAreGreedy(turns);
      PairsPartitionTurns(turns);
      forall i | 0 <= i < |items|
        ensures items[i].preview != [] && items[i].searchText != []
      {
        assert items[i] == PairItem(ps[i], i);
        MemberOfPair(ps, i);
        var m := Members(ps[i])[0];
        assert m in Flatten(ps);
        var j :| 0 <= j < |turns| && turns[j] == m;
        assert m.preview != [];
      }
    }
  }

  /** Every turn a pair holds is one of the turns. */
  lemma {:induction false} MemberOfPair(ps: seq<Pair>, k: nat)
    requires k < |ps|
    ensures forall t :: t in Members(ps[k]) ==> t in Flatten(ps)
    decreases k
  {
    if k > 0 {
      MemberOfPair(ps[1..], k - 1);
      assert ps[1..][k - 1] == ps[k];
    }
  }

  /** `new Map(items.map((it) => [it.id, it.index]))`: later entries win. */
  function IdIndex(items: seq<Item>): map<string, nat>
    decreases |items|
  {
    if items == [] then map[]
    else IdIndex(items[..|items| - 1])[items[|items| - 1].id := items[|items| - 1].index]
  }

  /** Every item id is in the map, and each id maps to the position of its
      last occurrence. */
  lemma {:induction false} IdIndexFindsLastOccurrence(items: seq<Item>)
    requires forall i :: 0 <= i < |items| ==> items[i].index == i
    ensures forall i :: 0 <= i < |items| ==> items[i].id in IdIndex(items)
    ensures forall id :: id in IdIndex(items) ==>
      IdIndex(items)[id] < |items| && items[IdIndex(items)[id]].id == id &&
      forall j :: IdIndex(items)[id] < j < |items| ==> items[j].id != id
    decreases |items|
  {
    if items != [] {
      var p := items[..|items| - 1];
      IdIndexFindsLastOccurrence(p);
    }
  }
}
