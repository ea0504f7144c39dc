/**
 * A package relationships part (`*.rels`, Open Packaging Conventions, ISO/IEC 29500-2 section 9.3)
 * read into a table from relationship Id to (Type, Target), in the order a Python `dict` keeps:
 * the first insertion of an Id fixes its position, a later one replaces its value in place.
 */
module Relationships {
  import opened Wrappers
  import opened Text

  /** One `<Relationship>` element as the XML parser sees it: each attribute present or absent. */
  datatype RelElement = RelElement(id: Option<string>, relType: Option<string>, target: Option<string>)

  /** The value stored for an Id: its Type and Target, an absent attribute read as `""`. */
  datatype Rel = Rel(relType: string, target: string)

  /** An insertion-ordered table of Ids; the model keeps the Ids distinct. */
  type RelTable = seq<(string, Rel)>

  predicate UniqueIds(t: RelTable) {
    forall i, j :: 0 <= i < j < |t| ==> t[i].0 != t[j].0
  }

  /** `table.get(id)`. */
  function Lookup(t: RelTable, id: string): (r: Option<Rel>)
    ensures r.Some? <==> exists i :: 0 <= i < |t| && t[i].0 == id
    ensures r.Some? && UniqueIds(t) ==> forall i :: 0 <= i < |t| && t[i].0 == id ==> t[i].1 == r.value
    decreases |t|
  {
    if t == [] then None
    else if t[0].0 == id then Some(t[0].1)
    else
      var r := Lookup(t[1..], id);
      assert forall i :: 1 <= i < |t| ==> t[i] == t[1..][i - 1];
      r
  }

  /** `table[id] = rel`: replace the value in place when the Id is present, else append. */
  function Put(t: RelTable, id: string, rel: Rel): (r: RelTable)
    ensures |r| == if Lookup(t, id).Some? then |t| else |t| + 1
    ensures forall i :: 0 <= i < |t| ==> r[i].0 == t[i].0
    ensures Lookup(t, id).None? ==> r[|t|] == (id, rel)
    decreases |t|
  {
    if t == [] then [(id, rel)]
    else if t[0].0 == id then [(id, rel)] + t[1..]
    else [t[0]] + Put(t[1..], id, rel)
  }

  /** After `table[id] = rel`, `id` maps to `rel` and every other Id to what it mapped to before. */
  lemma {:induction false} PutLookup(t: RelTable, id: string, rel: Rel, k: string)
    ensures Lookup(Put(t, id, rel), k) == if k == id then Some(rel) else Lookup(t, k)
    decreases |t|
  {
    if t != [] && t[0].0 != id {
      PutLookup(t[1..], id, rel, k);
      assert Put(t, id, rel)[1..] == Put(t[1..], id, rel);
    }
  }

  /** Assigning into the table keeps its Ids distinct. */
  lemma PutUnique(t: RelTable, id: string, rel: Rel)
    requires UniqueIds(t)
    ensures UniqueIds(Put(t, id, rel))
  {
    var r := Put(t, id, rel);
    if Lookup(t, id).Some? {
      assert forall i :: 0 <= i < |r| ==> r[i].0 == t[i].0;
    } else {
      assert forall i :: 0 <= i < |t| ==> r[i].0 == t[i].0 != id;
    }
  }

  /** `table.values()`, in table order. */
  function Values(t: RelTable): (vs: seq<Rel>)
    ensures |vs| == |t| && forall i :: 0 <= i < |t| ==> vs[i] == t[i].1
  {
    seq(|t|, i requires 0 <= i < |t| => t[i].1)
  }

  /** The Id under which an element is stored, if any: a missing or empty Id is skipped. */
  function KeyOf(e: RelElement): Option<string> {
    if e.id.Some? && e.id.value != "" then Some(e.id.value) else None
  }

  function RelOf(e: RelElement): Rel {
    Rel(if e.relType.Some? then e.relType.value else "", if e.target.Some? then e.target.value else "")
  }

  /** The table `_parse_relationships` has built after reading `els` in document order. */
  function RelsOf(els: seq<RelElement>): RelTable
    decreases |els|
  {
    if els == [] then []
    else
      var t := RelsOf(els[..|els| - 1]);
      var e := els[|els| - 1];
      if KeyOf(e).Some? then Put(t, KeyOf(e).value, RelOf(e)) else t
  }

  /**
   * `_parse_relationships`: read the `<Relationship>` children of a relationships part in
   * document order, skipping those without an Id; a repeated Id keeps its first position
   * and takes the last value.
   */
  method ParseRelationships(els: seq<RelElement>) returns (table: RelTable)
    ensures table == RelsOf(els)
    ensures UniqueIds(table)
  {
    table := [];
    var i := 0;
    while i < |els|
      invariant 0 <= i <= |els|
      invariant table == RelsOf(els[..i])
      invariant UniqueIds(table)
    {
      var e := els[i];
      assert els[..i + 1][..i] == els[..i];
      if e.id.Some? && e.id.value != "" {
        PutUnique(table, e.id.value, RelOf(e));
        table := Put(table, e.id.value, RelOf(e));
      }
      i := i + 1;
    }
    assert els[..i] == els;
  }

  /** The value of the last element carrying `id`, read back to front: an independent reading of the table. */
  function LastWithId(els: seq<RelElement>, id: string): Option<Rel>
    decreases |els|
  {
    if els == [] then None
    else if KeyOf(els[|els| - 1]) == Some(id) then Some(RelOf(els[|els| - 1]))
    else LastWithId(els[..|els| - 1], id)
  }

  /** Looking an Id up in the parsed table gives the last element with that Id, and nothing for an empty Id. */
  lemma {:induction false} LookupIsLastWithId(els: seq<RelElement>, id: string)
    ensures Lookup(RelsOf(els), id) == LastWithId(els, id)
    ensures id == "" ==> Lookup(RelsOf(els), id) == None
    decreases |els|
  {
    if els != [] {
      LookupIsLastWithId(els[..|els| - 1], id);
      var e := els[|els| - 1];
      if KeyOf(e).Some? {
        PutLookup(RelsOf(els[..|els| - 1]), KeyOf(e).value, RelOf(e), id);
      }
    }
  }

  /** The Ids in the parsed table are exactly the non-empty Ids of the elements. */
  lemma IdsOfRelsOf(els: seq<RelElement>, id: string)
    ensures (exists i :: 0 <= i < |RelsOf(els)| && RelsOf(els)[i].0 == id)
        <==> (exists j :: 0 <= j < |els| && KeyOf(els[j]) == Some(id))
  {
    LookupIsLastWithId(els, id);
    LastWithIdFound(els, id);
  }

  lemma {:induction false} LastWithIdFound(els: seq<RelElement>, id: string)
    ensures LastWithId(els, id).Some? <==> exists j :: 0 <= j < |els| && KeyOf(els[j]) == Some(id)
    decreases |els|
  {
    if els != [] {
      var init := els[..|els| - 1];
      LastWithIdFound(init, id);
      assert forall j :: 0 <= j < |init| ==> init[j] == els[j];
    }
  }

  /** The parsed table never holds more entries than there are elements. */
  lemma {:induction false} RelsOfSize(els: seq<RelElement>)
    ensures |RelsOf(els)| <= |els|
    decreases |els|
  {
    if els != [] {
      RelsOfSize(els[..|els| - 1]);
    }
  }
}
