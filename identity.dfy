/** `stableIdFor` of content.js: an element keeps the id written in its
    `data-chatoutline-id` attribute or remembered in a weak map; otherwise it
    gets a fresh id `co-{role}-{idx}-{hash}` which is written to both. */
module Identity {

  import opened Common
  import opened Format
  import opened Hash
  import opened Page

  /** The role as the template literal writes it. */
  function RoleName(r: Role): string {
    match r
    case User => "user"
    case Assistant => "assistant"
    case System => "system"
    case Unknown => "unknown"
  }

  /** `${role}|${idx}|${preview}|${textContent.length}`. */
  function Signature(role: Role, idx: nat, preview: string, textLength: nat): string {
    RoleName(role) + "|" + DecimalString(idx) + "|" + preview + "|" + DecimalString(textLength)
  }

  /** The part of a fresh id before the hash. */
  function IdStem(role: Role, idx: nat): string {
    "co-" + RoleName(role) + "-" + DecimalString(idx) + "-"
  }

  /** The id given to an element that has none yet: the stem, then 8
      lower-case hexadecimal digits denoting the hash of the signature. */
  function FreshId(role: Role, idx: nat, preview: string, textLength: nat): (id: string)
    ensures |id| == |IdStem(role, idx)| + 8 && id[..|id| - 8] == IdStem(role, idx)
    ensures forall i :: |id| - 8 <= i < |id| ==> IsLowerHexDigit(id[i])
    ensures HexValue(id[|id| - 8..]) == Fnv1a(Signature(role, idx, preview, textLength))
  {
    var h := Fnv1a(Signature(role, idx, preview, textLength));
    Hex8Properties(h);
    SplitConcat(IdStem(role, idx), Hex8(h));
    IdStem(role, idx) + Hex8(h)
  }

  lemma SplitConcat(p: string, q: string)
    ensures (p + q)[..|p|] == p && (p + q)[|p|..] == q
  {
  }

  /** The id used when there is no element at all. */
  function PlaceholderId(role: Role, idx: nat): string {
    "co-" + RoleName(role) + "-" + DecimalString(idx)
  }

  /** The two places an id is kept: the element attribute and the weak map. */
  datatype IdTables = IdTables(attr: map<Elem, string>, cache: map<Elem, string>)

  /** The id an element already has, if any; an empty string counts as none,
      as it does in the source's truthiness tests. */
  function Existing(t: IdTables, el: Elem): (r: Option<string>)
    ensures r.Some? ==> r.value != []
    ensures r.None? <==> (el !in t.attr || t.attr[el] == []) && (el !in t.cache || t.cache[el] == [])
    ensures el in t.attr && t.attr[el] != [] ==> r == Some(t.attr[el])
    ensures (el !in t.attr || t.attr[el] == []) && el in t.cache && t.cache[el] != [] ==> r == Some(t.cache[el])
  {
    if el in t.attr && t.attr[el] != [] then Some(t.attr[el])
    else if el in t.cache && t.cache[el] != [] then Some(t.cache[el])
    else None
  }

  datatype Assigned = Assigned(id: string, tables: IdTables)

  /** `stableIdFor(el, role, idx, preview)`, where `textLength` is the
      element's text length and `frozen` holds the elements whose
      `setAttribute` throws (the source ignores the error). */
  function StableId(t: IdTables, frozen: set<Elem>, el: Option<Elem>, role: Role, idx: nat, preview: string, textLength: nat): (a: Assigned)
    ensures el.None? ==> a == Assigned(PlaceholderId(role, idx), t)
    ensures el.Some? && Existing(t, el.value).Some? ==> a == Assigned(Existing(t, el.value).value, t)
    ensures el.Some? && Existing(t, el.value).None? ==>
      a.id == FreshId(role, idx, preview, textLength) &&
      a.tables.cache == t.cache[el.value := a.id] &&
      a.tables.attr == if el.value in frozen then t.attr else t.attr[el.value := a.id]
  {
    match el
    case None => Assigned(PlaceholderId(role, idx), t)
    case Some(e) =>
      match Existing(t, e)
      case Some(id) => Assigned(id, t)
      case None =>
        var id := FreshId(role, idx, preview, textLength);
        Assigned(id, IdTables(if e in frozen then t.attr else t.attr[e := id], t.cache[e := id]))
  }

  /** Once an element has an id, every later call returns it, whatever role,
      index, preview and length are passed, and changes nothing. */
  lemma {:induction false} StableIdIdempotent(t: IdTables, frozen: set<Elem>, el: Elem,
                                              role: Role, idx: nat, preview: string, textLength: nat,
                                              role': Role, idx': nat, preview': string, textLength': nat)
    ensures var a := StableId(t, frozen, Some(el), role, idx, preview, textLength);
      StableId(a.tables, frozen, Some(el), role', idx', preview', textLength') == a
  {
    var a := StableId(t, frozen, Some(el), role, idx, preview, textLength);
    if Existing(t, el).None? {
      assert a.tables.cache[el] == a.id;
      if el in a.tables.attr && a.tables.attr[el] != [] {
        assert a.tables.attr[el] == a.id;
      }
      assert Existing(a.tables, el) == Some(a.id);
    }
  }

  /** An element gets an id exactly once: the tables only ever grow, and
      the entries of every other element are untouched. */
  lemma StableIdKeepsOthers(t: IdTables, frozen: set<Elem>, el: Elem, role: Role, idx: nat, preview: string, textLength: nat, other: Elem)
    requires other != el
    ensures var a := StableId(t, frozen, Some(el), role, idx, preview, textLength);
      Existing(a.tables, other) == Existing(t, other)
  {
  }

  /** After the call the element has an id, and it is the one returned. */
  lemma StableIdRecorded(t: IdTables, frozen: set<Elem>, el: Elem, role: Role, idx: nat, preview: string, textLength: nat)
    ensures var a := StableId(t, frozen, Some(el), role, idx, preview, textLength);
      Existing(a.tables, el) == Some(a.id)
  {
    StableIdIdempotent(t, frozen, el, role, idx, preview, textLength, role, idx, preview, textLength);
  }

  /** The page's id attributes and the weak map, updated in place. */
  class IdentityStore {
    var attr: map<Elem, string>
    var cache: map<Elem, string>
    const frozen: set<Elem>

    constructor (attr0: map<Elem, string>, frozen: set<Elem>)
      ensures attr == attr0 && cache == map[] && this.frozen == frozen
    {
      attr := attr0;
      cache := map[];
      this.frozen := frozen;
    }

    function Tables(): IdTables
      reads this
    {
      IdTables(attr, cache)
    }

    /** `stableIdFor`, hashing with the source's loop. */
    method StableIdFor(el: Option<Elem>, role: Role, idx: nat, preview: string, textLength: nat) returns (id: string)
      modifies this
      ensures StableId(old(Tables()), frozen, el, role, idx, preview, textLength) == Assigned(id, Tables())
    {
      if el.None? {
        return PlaceholderId(role, idx);
      }
      var e := el.value;
      var existing := Existing(Tables(), e);
      if existing.Some? {
        return existing.value;
      }
      var h := Hash32(Signature(role, idx, preview, textLength));
      id := IdStem(role, idx) + h;
      cache := cache[e := id];
      if e !in frozen {
        attr := attr[e := id];
      }
    }
  }
}
