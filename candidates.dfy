/** Choosing the message elements: `uniqueElements`, `looksLikeMessageEl`,
    `filterToLeafCandidates` and the length ranking of the generic site
    strategy. */
module Candidates {

  import opened Common
  import opened Text
  import opened Page

  // ---------------------------------------------------------------------
  // uniqueElements

  /** The elements of `s` without the nulls and without repeats, each kept
      where it first occurs. */
  function Unique(s: seq<Option<Elem>>): seq<Elem>
    decreases |s|
  {
    if s == [] then []
    else
      var u := Unique(s[..|s| - 1]);
      match s[|s| - 1]
      case None => u
      case Some(e) => if e in u then u else u + [e]
  }

  /** Where `x` first occurs in `s`. */
  function FirstIndex<T(==)>(s: seq<T>, x: T): (k: nat)
    requires x in s
    ensures k < |s| && s[k] == x
    ensures forall j :: 0 <= j < k ==> s[j] != x
  {
    if s[0] == x then 0 else 1 + FirstIndex(s[1..], x)
  }

  lemma FirstIndexOfPrefix<T>(s: seq<T>, y: T, x: T)
    requires x in s
    ensures FirstIndex(s + [y], x) == FirstIndex(s, x)
  {
    var k := FirstIndex(s, x);
    assert (s + [y])[k] == x;
  }

  /** `uniqueElements` keeps exactly the non-null elements of the input. */
  lemma {:induction false} UniqueMembers(s: seq<Option<Elem>>)
    ensures forall e :: e in Unique(s) <==> Some(e) in s
    decreases |s|
  {
    if s != [] {
      var p := s[..|s| - 1];
      UniqueMembers(p);
      assert s == p + [s[|s| - 1]];
    }
  }

  /** ... without repeats ... */
  lemma {:induction false} UniqueNoDuplicates(s: seq<Option<Elem>>)
    ensures NoDuplicates(Unique(s))
    decreases |s|
  {
    if s != [] {
      UniqueNoDuplicates(s[..|s| - 1]);
    }
  }

  /** Every element of `u` occurs in `s`, and their first occurrences in
      `s` come in the order of `u`. */
  ghost predicate InFirstOccurrenceOrder(u: seq<Elem>, s: seq<Option<Elem>>) {
    (forall x :: x in u ==> Some(x) in s) &&
    forall i, j :: 0 <= i < j < |u| ==> FirstIndex(s, Some(u[i])) < FirstIndex(s, Some(u[j]))
  }

  /** ... and in the order of their first occurrences. */
  lemma {:induction false} UniqueFirstOccurrences(s: seq<Option<Elem>>)
    ensures InFirstOccurrenceOrder(Unique(s), s)
    decreases |s|
  {
    if s != [] {
      var p, y := s[..|s| - 1], s[|s| - 1];
      var u := Unique(p);
      assert s == p + [y];
      UniqueFirstOccurrences(p);
      if y.Some? && y.value !in u {
        UniqueMembers(p);
        OrderWithNewElement(u, p, y.value);
      } else {
        OrderSurvivesAppend(u, p, y);
      }
    }
  }

  lemma OrderSurvivesAppend(u: seq<Elem>, p: seq<Option<Elem>>, y: Option<Elem>)
    requires InFirstOccurrenceOrder(u, p)
    ensures InFirstOccurrenceOrder(u, p + [y])
  {
    forall x | x in u
      ensures FirstIndex(p + [y], Some(x)) == FirstIndex(p, Some(x))
    {
      FirstIndexOfPrefix(p, y, Some(x));
    }
  }

  lemma OrderWithNewElement(u: seq<Elem>, p: seq<Option<Elem>>, e: Elem)
    requires InFirstOccurrenceOrder(u, p) && Some(e) !in p
    ensures InFirstOccurrenceOrder(u + [e], p + [Some(e)])
  {
    var s := p + [Some(e)];
    var v := u + [e];
    OrderSurvivesAppend(u, p, Some(e));
    assert FirstIndex(s, Some(e)) == |p|;
    forall i, j | 0 <= i < j < |v|
      ensures FirstIndex(s, Some(v[i])) < FirstIndex(s, Some(v[j]))
    {
      assert v[i] == u[i];
      if j < |u| {
        assert v[j] == u[j];
      } else {
        assert u[i] in u;
        assert FirstIndex(p, Some(u[i])) < |p|;
      }
    }
  }

  /** `uniqueElements`, with its `seen` set and `out` list. */
  method UniqueElements(arr: seq<Option<Elem>>) returns (out: seq<Elem>)
    ensures out == Unique(arr)
  {
    out := [];
    var seen: set<Elem> := {};
    for i := 0 to |arr|
      invariant out == Unique(arr[..i])
      invariant forall x :: x in seen <==> x in out
    {
      assert arr[..i + 1][..i] == arr[..i];
      var el := arr[i];
      if el.None? || el.value in seen {
        continue;
      }
      seen := seen + {el.value};
      out := out + [el.value];
    }
    assert arr[..|arr|] == arr;
  }

  // ---------------------------------------------------------------------
  // looksLikeMessageEl and filterToLeafCandidates

  /** The sites whose short messages are accepted when the wrapper matches. */
  predicate AllowsShortMessages(site: Site) {
    site == DeepSeek || site == Tongyi || site == Doubao
  }

  /** `looksLikeMessageEl`: outside the panel and the page chrome, and with
      a normalised text of 10 to 200000 characters, or of 1 to 9 characters
      inside a recognised message wrapper on DeepSeek, Tongyi or Doubao. */
  predicate LooksLikeMessage(d: Dom, site: Site, e: Elem) {
    var n := |NormalizeText(d.textContent(e))|;
    !d.inPanel(e) && !d.inChrome(e) &&
    if n < 10 then AllowsShortMessages(site) && d.wrapperMatch(e) && n >= 1
    else n <= 200000
  }

  /** `c.filter(looksLikeMessageEl)`. */
  function MessageLike(d: Dom, site: Site, c: seq<Elem>): seq<Elem> {
    Filter(c, e => LooksLikeMessage(d, site, e))
  }

  /** `el` contains some other element of `c`. */
  predicate ContainsOther(d: Dom, c: seq<Elem>, el: Elem) {
    exists other :: other in c && other != el && d.contains(el, other)
  }

  /** The elements of `c` that contain no other element of `all`, in order. */
  function Leaves(d: Dom, c: seq<Elem>, all: seq<Elem>): seq<Elem> {
    Filter(c, e => !ContainsOther(d, all, e))
  }

  /** The de-duplicated list of message-like candidates. */
  function MessageCandidates(d: Dom, site: Site, candidates: seq<Option<Elem>>): seq<Elem> {
    MessageLike(d, site, Unique(candidates))
  }

  /** The leaf selection falls back to the whole list when there are
      several elements and none of them is a leaf. */
  predicate FallsBack(d: Dom, c: seq<Elem>) {
    |c| > 1 && Leaves(d, c, c) == []
  }

  /** The leaf selection on the message-like candidates `c`. */
  function LeafSelection(d: Dom, c: seq<Elem>): seq<Elem> {
    if |c| <= 1 || FallsBack(d, c) then c else Leaves(d, c, c)
  }

  /** What `filterToLeafCandidates` returns. */
  function LeafCandidates(d: Dom, site: Site, candidates: seq<Option<Elem>>): seq<Elem> {
    LeafSelection(d, MessageCandidates(d, site, candidates))
  }

  /** `filterToLeafCandidates`, with its nested loops and early `break`. */
  method FilterToLeafCandidates(d: Dom, site: Site, candidates: seq<Option<Elem>>) returns (r: seq<Elem>)
    ensures r == LeafCandidates(d, site, candidates)
  {
    var u := UniqueElements(candidates);
    var c := MessageLike(d, site, u);
    assert c == MessageCandidates(d, site, candidates);
    if |c| <= 1 {
      return c;
    }
    var leaf: seq<Elem> := [];
    for i := 0 to |c|
      invariant leaf == Leaves(d, c[..i], c)
    {
      var el := c[i];
      var containsOther := false;
      var j := 0;
      while j < |c|
        invariant 0 <= j <= |c| && !containsOther
        invariant forall k :: 0 <= k < j ==> c[k] == el || !d.contains(el, c[k])
      {
        if el == c[j] {
          j := j + 1;
          continue;
        }
        if d.contains(el, c[j]) {
          assert c[j] in c;
          containsOther := true;
          break;
        }
        j := j + 1;
      }
      assert containsOther == ContainsOther(d, c, el);
      LeavesOfLongerPrefix(d, c, i);
      if !containsOther {
        leaf := leaf + [el];
      }
    }
    assert c[..|c|] == c;
    r := if |leaf| > 0 then leaf else c;
    SelectionOfLeaves(d, c, leaf);
  }

  /** The fall-back test of the source, on the leaves it has collected. */
  lemma SelectionOfLeaves(d: Dom, c: seq<Elem>, leaf: seq<Elem>)
    requires |c| > 1 && leaf == Leaves(d, c, c)
    ensures LeafSelection(d, c) == if |leaf| > 0 then leaf else c
  {
  }

  lemma LeavesOfLongerPrefix(d: Dom, c: seq<Elem>, i: nat)
    requires i < |c|
    ensures Leaves(d, c[..i + 1], c) ==
      Leaves(d, c[..i], c) + if ContainsOther(d, c, c[i]) then [] else [c[i]]
  {
    assert c[..i + 1][..i] == c[..i];
  }

  /** The selection keeps the order of `c`, and unless it fell back, no
      kept element contains another element of `c`. */
  lemma LeafSelectionSpec(d: Dom, c: seq<Elem>)
    ensures IsSubsequence(LeafSelection(d, c), c)
    ensures FallsBack(d, c) ==> LeafSelection(d, c) == c
    ensures !FallsBack(d, c) ==>
      forall x, y :: x in LeafSelection(d, c) && y in c && x != y ==> !d.contains(x, y)
  {
    if |c| <= 1 {
      SubsequenceReflexive(c);
      AtMostOneElement(c);
    } else if FallsBack(d, c) {
      SubsequenceReflexive(c);
    } else {
      var l := Leaves(d, c, c);
      FilterSpec(c, e => !ContainsOther(d, c, e));
      assert LeafSelection(d, c) == l;
      forall x, y | x in l && y in c && x != y
        ensures !d.contains(x, y)
      {
        assert !ContainsOther(d, c, x);
      }
    }
  }

  lemma AtMostOneElement(c: seq<Elem>)
    requires |c| <= 1
    ensures forall x, y :: x in c && y in c ==> x == y
  {
    forall x, y | x in c && y in c
      ensures x == y
    {
      assert x == c[0] && y == c[0];
    }
  }

  /** Without the fall-back, the selection keeps exactly the leaves of `c`. */
  lemma LeafSelectionKeepsLeaves(d: Dom, c: seq<Elem>)
    requires |c| > 1 && !FallsBack(d, c)
    ensures forall x :: x in LeafSelection(d, c) <==> x in c && !ContainsOther(d, c, x)
  {
    FilterSpec(c, e => !ContainsOther(d, c, e));
  }

  /** The elements the filter keeps are message-like, distinct candidates. */
  lemma LeafCandidatesMembers(d: Dom, site: Site, candidates: seq<Option<Elem>>)
    ensures NoDuplicates(LeafCandidates(d, site, candidates))
    ensures forall e :: e in LeafCandidates(d, site, candidates) ==> Some(e) in candidates && LooksLikeMessage(d, site, e)
  {
    var u := Unique(candidates);
    var c := MessageCandidates(d, site, candidates);
    UniqueNoDuplicates(candidates);
    UniqueMembers(candidates);
    FilterSpec(u, e => LooksLikeMessage(d, site, e));
    SubsequenceNoDuplicates(c, u);
    LeafSelectionSpec(d, c);
    SubsequenceNoDuplicates(LeafSelection(d, c), c);
    SubsequenceElements(LeafSelection(d, c), c);
  }

  lemma {:induction false} SubsequenceNoDuplicates<T>(a: seq<T>, b: seq<T>)
    requires IsSubsequence(a, b) && NoDuplicates(b)
    ensures NoDuplicates(a)
    decreases |b|
  {
    if b != [] {
      var b' := b[..|b| - 1];
      assert NoDuplicates(b');
      if IsSubsequence(a, b') {
        SubsequenceNoDuplicates(a, b');
      } else {
        var a' := a[..|a| - 1];
        SubsequenceNoDuplicates(a', b');
        SubsequenceElements(a', b');
        assert a == a' + [a[|a| - 1]];
        assert b == b' + [b[|b| - 1]];
        assert a[|a| - 1] !in b';
      }
    }
  }

  /** In a document tree some element always is a leaf, so the selection
      never falls back. */
  lemma NoFallBackInATree(d: Dom, c: seq<Elem>)
    requires TreeOrder(d)
    ensures !FallsBack(d, c)
  {
    if |c| > 1 {
      var m := MinimalCandidate(d, c, c[0]);
      FilterSpec(c, e => !ContainsOther(d, c, e));
      assert m in Leaves(d, c, c);
    }
  }

  /** The candidates `x` contains. */
  ghost function Below(d: Dom, c: seq<Elem>, x: Elem): set<Elem> {
    set y | y in c && y != x && d.contains(x, y)
  }

  /** Going down the containment relation from `x` ends at a candidate that
      contains no other candidate. */
  lemma {:induction false} MinimalCandidate(d: Dom, c: seq<Elem>, x: Elem) returns (m: Elem)
    requires TreeOrder(d) && x in c
    ensures m in c && !ContainsOther(d, c, m)
    decreases |Below(d, c, x)|
  {
    if !ContainsOther(d, c, x) {
      return x;
    }
    var y :| y in c && y != x && d.contains(x, y);
    assert y in Below(d, c, x);
    assert Below(d, c, y) <= Below(d, c, x) - {y};
    SubsetSize(Below(d, c, y), Below(d, c, x) - {y});
    m := MinimalCandidate(d, c, y);
  }

  lemma {:induction false} SubsetSize<T>(a: set<T>, b: set<T>)
    requires a <= b
    ensures |a| <= |b|
    decreases |b|
  {
    if a != {} {
      var x :| x in a;
      SubsetSize(a - {x}, b - {x});
    }
  }

  // ---------------------------------------------------------------------
  // The generic strategy's ranking

  /** `{ el, len }`: an element with the length of its normalised text. */
  datatype Scored = Scored(el: Elem, len: nat)

  function ScoreAll(d: Dom, cands: seq<Elem>): (r: seq<Scored>)
    ensures |r| == |cands|
    ensures forall i :: 0 <= i < |r| ==> r[i] == Scored(cands[i], |NormalizeText(d.textContent(cands[i]))|)
  {
    seq(|cands|, i requires 0 <= i < |cands| => Scored(cands[i], |NormalizeText(d.textContent(cands[i]))|))
  }

  predicate InLengthRange(x: Scored) {
    12 <= x.len <= 120000
  }

  /** `.filter((x) => x.len >= 12 && x.len <= 120000)`. */
  function KeepInRange(s: seq<Scored>): seq<Scored> {
    Filter(s, InLengthRange)
  }

  /** Longest first. */
  predicate SortedByLength(s: seq<Scored>) {
    forall i, j :: 0 <= i < j < |s| ==> s[i].len >= s[j].len
  }

  /** Puts `x` after every element of the sorted `s` that is at least as
      long, which keeps the sort stable. */
  function Insert(x: Scored, s: seq<Scored>): seq<Scored>
    decreases |s|
  {
    if s == [] then [x]
    else if s[0].len < x.len then [x] + s
    else [s[0]] + Insert(x, s[1..])
  }

  /** `.sort((a, b) => b.len - a.len)` with a stable sort. */
  function SortByLength(s: seq<Scored>): seq<Scored>
    decreases |s|
  {
    if s == [] then [] else Insert(s[|s| - 1], SortByLength(s[..|s| - 1]))
  }

  lemma {:induction false} InsertPermutes(x: Scored, s: seq<Scored>)
    ensures multiset(Insert(x, s)) == multiset(s) + multiset{x}
    ensures |Insert(x, s)| == |s| + 1
    decreases |s|
  {
    if s != [] && s[0].len >= x.len {
      InsertPermutes(x, s[1..]);
      assert s == [s[0]] + s[1..];
    }
  }

  /** Putting an element at least as long as all of a sorted sequence in
      front of it keeps it sorted. */
  lemma ConsSorted(x: Scored, s: seq<Scored>)
    requires SortedByLength(s)
    requires forall k :: 0 <= k < |s| ==> x.len >= s[k].len
    ensures SortedByLength([x] + s)
  {
    var r := [x] + s;
    forall i, j | 0 <= i < j < |r|
      ensures r[i].len >= r[j].len
    {
      assert r[j] == s[j - 1];
      if i > 0 {
        assert r[i] == s[i - 1];
      }
    }
  }

  /** Inserting keeps every element within a bound on the length. */
  lemma {:induction false} InsertBounded(x: Scored, s: seq<Scored>, b: nat)
    requires x.len <= b && forall k :: 0 <= k < |s| ==> s[k].len <= b
    ensures forall k :: 0 <= k < |Insert(x, s)| ==> Insert(x, s)[k].len <= b
    decreases |s|
  {
    if s != [] && s[0].len >= x.len {
      var t := Insert(x, s[1..]);
      assert forall k :: 0 <= k < |s[1..]| ==> s[1..][k] == s[k + 1];
      InsertBounded(x, s[1..], b);
      assert forall k :: 1 <= k < |[s[0]] + t| ==> ([s[0]] + t)[k] == t[k - 1];
    }
  }

  lemma {:induction false} InsertSorted(x: Scored, s: seq<Scored>)
    requires SortedByLength(s)
    ensures SortedByLength(Insert(x, s))
    decreases |s|
  {
    if s == [] {
    } else if s[0].len < x.len {
      ConsSorted(x, s);
    } else {
      var t := Insert(x, s[1..]);
      assert forall k :: 0 <= k < |s[1..]| ==> s[1..][k] == s[k + 1];
      InsertSorted(x, s[1..]);
      InsertBounded(x, s[1..], s[0].len);
      ConsSorted(s[0], t);
    }
  }

  /** The ranking is sorted ... */
  lemma {:induction false} SortByLengthSorted(s: seq<Scored>)
    ensures SortedByLength(SortByLength(s))
    decreases |s|
  {
    if s != [] {
      SortByLengthSorted(s[..|s| - 1]);
      InsertSorted(s[|s| - 1], SortByLength(s[..|s| - 1]));
    }
  }

  /** ... and a permutation of its input. */
  lemma {:induction false} SortByLengthPermutes(s: seq<Scored>)
    ensures multiset(SortByLength(s)) == multiset(s)
    ensures |SortByLength(s)| == |s|
    decreases |s|
  {
    if s != [] {
      SortByLengthPermutes(s[..|s| - 1]);
      InsertPermutes(s[|s| - 1], SortByLength(s[..|s| - 1]));
      assert s == s[..|s| - 1] + [s[|s| - 1]];
    }
  }

  /** The elements of a given length, in order. */
  function WithLength(s: seq<Scored>, n: nat): seq<Scored>
    decreases |s|
  {
    if s == [] then []
    else (if s[0].len == n then [s[0]] else []) + WithLength(s[1..], n)
  }

  lemma {:induction false} WithLengthAppend(a: seq<Scored>, b: seq<Scored>, n: nat)
    ensures WithLength(a + b, n) == WithLength(a, n) + WithLength(b, n)
    decreases |a|
  {
    if a != [] {
      assert (a + b)[0] == a[0];
      assert (a + b)[1..] == a[1..] + b;
      WithLengthAppend(a[1..], b, n);
      var h := if a[0].len == n then [a[0]] else [];
      assert WithLength(a + b, n) == h + (WithLength(a[1..], n) + WithLength(b, n));
      assert WithLength(a, n) == h + WithLength(a[1..], n);
    } else {
      assert a + b == b;
    }
  }

  lemma {:induction false} WithLengthShorter(s: seq<Scored>, n: nat)
    requires SortedByLength(s) && s != [] && s[0].len < n
    ensures WithLength(s, n) == []
    decreases |s|
  {
    if |s| > 1 {
      WithLengthShorter(s[1..], n);
    }
  }

  lemma {:induction false} InsertStable(x: Scored, s: seq<Scored>, n: nat)
    requires SortedByLength(s)
    ensures WithLength(Insert(x, s), n) == WithLength(s, n) + (if x.len == n then [x] else [])
    decreases |s|
  {
    if s == [] {
    } else if s[0].len < x.len {
      assert ([x] + s)[1..] == s;
      if x.len == n {
        WithLengthShorter(s, n);
      }
    } else {
      InsertStable(x, s[1..], n);
      assert ([s[0]] + Insert(x, s[1..]))[1..] == Insert(x, s[1..]);
    }
  }

  /** Elements of equal length keep their input order. */
  lemma {:induction false} SortByLengthStable(s: seq<Scored>, n: nat)
    ensures WithLength(SortByLength(s), n) == WithLength(s, n)
    decreases |s|
  {
    if s != [] {
      var p, x := s[..|s| - 1], s[|s| - 1];
      SortByLengthStable(p, n);
      SortByLengthSorted(p);
      assert SortByLength(s) == Insert(x, SortByLength(p));
      InsertStable(x, SortByLength(p), n);
      assert s == p + [x];
      assert [x][1..] == [];
      assert WithLength([x], n) == if x.len == n then [x] else [];
      WithLengthAppend(p, [x], n);
    }
  }

  function Elements(s: seq<Scored>): (r: seq<Elem>)
    ensures |r| == |s| && forall i :: 0 <= i < |s| ==> r[i] == s[i].el
  {
    seq(|s|, i requires 0 <= i < |s| => s[i].el)
  }

  function AsCandidates(s: seq<Elem>): (r: seq<Option<Elem>>)
    ensures |r| == |s| && forall i :: 0 <= i < |s| ==> r[i] == Some(s[i])
  {
    seq(|s|, i requires 0 <= i < |s| => Some(s[i]))
  }

  /** The 300 longest candidates whose normalised text has 12 to 120000
      characters, longest first. */
  function RankedCandidates(d: Dom, cands: seq<Elem>): seq<Elem> {
    Elements(Take(SortByLength(KeepInRange(ScoreAll(d, cands))), 300))
  }

  /** `genericStrategy.messageElements` on the candidates found under the
      conversation root. */
  function GenericMessageElements(d: Dom, cands: seq<Elem>): seq<Elem> {
    Take(LeafCandidates(d, Generic, AsCandidates(RankedCandidates(d, cands))), 400)
  }

  /** The ranking keeps at most 300 entries, all of an admissible length
      and taken from its input, longest first. */
  lemma RankSpec(s: seq<Scored>)
    ensures var r := Take(SortByLength(KeepInRange(s)), 300);
      |r| <= 300 && SortedByLength(r) && forall x :: x in r ==> x in s && InLengthRange(x)
  {
    var k := KeepInRange(s);
    FilterSpec(s, InLengthRange);
    SortByLengthSorted(k);
    SortByLengthPermutes(k);
    var t := SortByLength(k);
    var r := Take(t, 300);
    forall x | x in r
      ensures x in k
    {
      assert x in multiset(t);
    }
  }

  lemma RankedCandidatesSpec(d: Dom, cands: seq<Elem>)
    ensures |RankedCandidates(d, cands)| <= 300
    ensures forall e :: e in RankedCandidates(d, cands) ==> e in cands
  {
    var s := ScoreAll(d, cands);
    RankSpec(s);
    ElementsFrom(Take(SortByLength(KeepInRange(s)), 300), s, cands);
  }

  lemma ElementsFrom(r: seq<Scored>, s: seq<Scored>, cands: seq<Elem>)
    requires forall x :: x in r ==> x in s
    requires |s| == |cands| && forall i :: 0 <= i < |s| ==> s[i].el == cands[i]
    ensures forall e :: e in Elements(r) ==> e in cands
  {
    forall e | e in Elements(r)
      ensures e in cands
    {
      var i :| 0 <= i < |r| && r[i].el == e;
      assert r[i] in s;
      var j :| 0 <= j < |s| && s[j] == r[i];
    }
  }

  /** Since no more than 300 candidates are ranked, the generic strategy's
      final `.slice(0, 400)` never cuts anything. */
  lemma GenericSliceIsNoOp(d: Dom, cands: seq<Elem>)
    ensures GenericMessageElements(d, cands) == LeafCandidates(d, Generic, AsCandidates(RankedCandidates(d, cands)))
    ensures |GenericMessageElements(d, cands)| <= 300
  {
    var a := AsCandidates(RankedCandidates(d, cands));
    RankedCandidatesSpec(d, cands);
    UniqueLength(a);
    var u := Unique(a);
    var c := MessageLike(d, Generic, u);
    FilterSpec(u, e => LooksLikeMessage(d, Generic, e));
    LeafSelectionSpec(d, c);
    SubsequenceElements(LeafSelection(d, c), c);
  }

  lemma {:induction false} UniqueLength(s: seq<Option<Elem>>)
    ensures |Unique(s)| <= |s|
    decreases |s|
  {
    if s != [] {
      UniqueLength(s[..|s| - 1]);
    }
  }
}
