/**
 Identifier mode of the cache: a dense table addressed by entity id, the list
 of active ids, and the map from each active id to its position in that list
 (which makes removal O(1) by swapping with the last position).

 The first part states the three structures as a value (`Tables`), their
 representation invariant (`Consistent`), what they represent (`Entries`, the
 map from id to entity) and one function per mutation; the lemmas prove that
 each mutation keeps the invariant and changes `Entries` as promised. The class
 `IdIndex` at the end holds the structures as mutable fields and updates them
 in place, its methods tied to those functions.
 */
module IdMode {
  import opened Handles
  import opened Sequences

  /** `table_`, `active_ids_` and `id_to_index_`. A null slot is an empty slot. */
  datatype Tables = Tables(table: seq<Entity?>, ids: seq<nat>, pos: map<nat, nat>)

  /**
   The representation invariant: every active id is mapped to its own
   position, lies inside the table and has a non-null slot; every mapped id
   sits at its recorded position; every non-null slot holds the entity with
   that id and its id is mapped.
   */
  ghost predicate Consistent(s: Tables)
  {
    && (forall p :: 0 <= p < |s.ids| ==> s.ids[p] in s.pos && s.pos[s.ids[p]] == p)
    && (forall p :: 0 <= p < |s.ids| ==> s.ids[p] < |s.table| && s.table[s.ids[p]] != null)
    && (forall id :: id in s.pos ==> s.pos[id] < |s.ids| && s.ids[s.pos[id]] == id)
    && (forall k :: 0 <= k < |s.table| && s.table[k] != null ==> k in s.pos && s.table[k].id == k)
  }

  /** The tracked entities, by id: the non-null slots of the table. */
  function Entries(table: seq<Entity?>): map<nat, Entity>
  {
    map k: nat | k < |table| && table[k] != null :: table[k]
  }

  /** True iff no two entities of `es` share an id. */
  ghost predicate DistinctIds(es: seq<Entity>)
  {
    forall i, j :: 0 <= i < j < |es| ==> es[i].id != es[j].id
  }

  /** The ids of `es`, in order. */
  function IdsOf(es: seq<Entity>): (r: seq<nat>)
    ensures |r| == |es|
    ensures forall i :: 0 <= i < |es| ==> r[i] == es[i].id
  {
    seq(|es|, i requires 0 <= i < |es| => es[i].id)
  }

  /** `resize(id + 1, nullptr)` when `id` is past the end, otherwise the table itself. */
  function Grown(table: seq<Entity?>, id: nat): (t: seq<Entity?>)
    ensures |t| == if id < |table| then |table| else id + 1
    ensures forall k :: 0 <= k < |table| ==> t[k] == table[k]
    ensures forall k :: |table| <= k < |t| ==> t[k] == null
  {
    if id < |table| then table else table + seq(id + 1 - |table|, _ => null)
  }

  /** Store `e` in its slot, append its id and record the id's position, unconditionally. */
  function Push(s: Tables, e: Entity): Tables
  {
    Tables(Grown(s.table, e.id)[e.id := e], s.ids + [e.id], s.pos[e.id := |s.ids|])
  }

  /** `add`: a no-op when the id is already mapped, otherwise `Push`. */
  function AddStep(s: Tables, e: Entity): Tables
  {
    if e.id in s.pos then s else Push(s, e)
  }

  /**
   `remove`, located by id: swap the id's position with the last one, pop,
   re-point the former last id at the vacated position, erase the removed id
   and null its slot.
   */
  function RemoveStep(s: Tables, id: nat): Tables
    requires Consistent(s)
  {
    if id !in s.pos then s
    else
      var idx := s.pos[id];
      var back := s.ids[|s.ids| - 1];
      Tables(if id < |s.table| then s.table[id := null] else s.table,
             SwapRemove(s.ids, idx),
             s.pos[back := idx] - {id})
  }

  /** `update`: `Push` every entity in turn into empty structures. */
  function Rebuild(es: seq<Entity>): Tables
  {
    if es == [] then Tables([], [], map[])
    else Push(Rebuild(es[..|es| - 1]), es[|es| - 1])
  }

  /** The id-to-entity map where a later entity overrides an earlier one with the same id. */
  function LastWins(es: seq<Entity>): map<nat, Entity>
  {
    if es == [] then map[] else LastWins(es[..|es| - 1])[es[|es| - 1].id := es[|es| - 1]]
  }

  /** `get_all`: the entity of each id of `ids` that has a non-null slot, in `ids` order. */
  function Gather(table: seq<Entity?>, ids: seq<nat>): seq<Entity>
  {
    if ids == [] then []
    else
      var id := ids[|ids| - 1];
      Gather(table, ids[..|ids| - 1]) + (if id < |table| && table[id] != null then [table[id]] else [])
  }

  /** `for_each_all`: the non-null slots of the table, in ascending slot order. */
  function Slots(table: seq<Entity?>): seq<Entity>
  {
    if table == [] then []
    else
      var last := table[|table| - 1];
      Slots(table[..|table| - 1]) + (if last != null then [last] else [])
  }

  // ---------------------------------------------------------------------------
  // Lemmas

  /** Under the invariant the mapped ids are exactly the ids with an entity. */
  lemma ConsistentKeys(s: Tables)
    requires Consistent(s)
    ensures Entries(s.table).Keys == s.pos.Keys
    ensures Elements(s.ids) == s.pos.Keys
    ensures NoDuplicates(s.ids)
  {
    assert forall id :: id in s.pos ==> s.ids[s.pos[id]] in Elements(s.ids);
  }

  lemma EntriesPush(s: Tables, e: Entity)
    ensures Entries(Push(s, e).table) == Entries(s.table)[e.id := e]
  {
  }

  /**
   `add` keeps the invariant; it adds `e` under its id when that id was not
   tracked and changes nothing otherwise; the active list grows by one exactly
   when the id was new.
   */
  lemma AddStepKeeps(s: Tables, e: Entity)
    requires Consistent(s)
    ensures Consistent(AddStep(s, e))
    ensures Entries(AddStep(s, e).table)
         == if e.id in Entries(s.table) then Entries(s.table) else Entries(s.table)[e.id := e]
    ensures |AddStep(s, e).ids| == |s.ids| + (if e.id in Entries(s.table) then 0 else 1)
  {
    ConsistentKeys(s);
    if e.id !in s.pos {
      var r := Push(s, e);
      EntriesPush(s, e);
      forall p | 0 <= p < |r.ids|
        ensures r.ids[p] in r.pos && r.pos[r.ids[p]] == p
        ensures r.ids[p] < |r.table| && r.table[r.ids[p]] != null
      {
        if p < |s.ids| {
          assert s.ids[p] != e.id;
        }
      }
      forall k | 0 <= k < |r.table| && r.table[k] != null
        ensures k in r.pos && r.table[k].id == k
      {
        if k != e.id {
          assert k < |s.table| && s.table[k] != null;
        }
      }
    }
  }

  /** The facts about one tracked id that the removal lemmas share. */
  lemma RemovalFacts(s: Tables, id: nat)
    requires Consistent(s) && id in s.pos
    ensures s.pos[s.ids[|s.ids| - 1]] == |s.ids| - 1
    ensures s.ids[|s.ids| - 1] == id <==> s.pos[id] == |s.ids| - 1
    ensures id < |s.table| && s.table[id] != null
  {
  }

  /** After `remove`, every active id is mapped to its position and is not the removed id. */
  lemma RemoveKeepsActive(s: Tables, id: nat)
    requires Consistent(s) && id in s.pos
    ensures var r := RemoveStep(s, id);
      forall p :: 0 <= p < |r.ids| ==> r.ids[p] in r.pos && r.pos[r.ids[p]] == p && r.ids[p] != id
  {
    RemovalFacts(s, id);
    var r := RemoveStep(s, id);
    var idx := s.pos[id];
    forall p | 0 <= p < |r.ids|
      ensures r.ids[p] in r.pos && r.pos[r.ids[p]] == p && r.ids[p] != id
    {
      if p != idx {
        assert r.ids[p] == s.ids[p];
        assert s.pos[s.ids[p]] == p;
      }
    }
  }

  /** After `remove`, every mapped id sits at its recorded position. */
  lemma RemoveKeepsPositions(s: Tables, id: nat)
    requires Consistent(s) && id in s.pos
    ensures var r := RemoveStep(s, id);
      forall k :: k in r.pos ==> r.pos[k] < |r.ids| && r.ids[r.pos[k]] == k
  {
    RemovalFacts(s, id);
    var r := RemoveStep(s, id);
    var idx := s.pos[id];
    var back := s.ids[|s.ids| - 1];
    forall k | k in r.pos
      ensures r.pos[k] < |r.ids| && r.ids[r.pos[k]] == k
    {
      if k != back {
        assert s.pos[k] != idx && s.pos[k] != |s.ids| - 1;
      }
    }
  }

  /** After `remove`, the table holds exactly the active ids, each under its own id. */
  lemma RemoveKeepsSlots(s: Tables, id: nat)
    requires Consistent(s) && id in s.pos
    ensures var r := RemoveStep(s, id);
      && r.table == s.table[id := null]
      && (forall p :: 0 <= p < |r.ids| ==> r.ids[p] < |r.table| && r.table[r.ids[p]] != null)
      && (forall k :: 0 <= k < |r.table| && r.table[k] != null ==> k in r.pos && r.table[k].id == k)
  {
    RemovalFacts(s, id);
    RemoveKeepsActive(s, id);
    var r := RemoveStep(s, id);
    forall p | 0 <= p < |r.ids|
      ensures r.ids[p] < |r.table| && r.table[r.ids[p]] != null
    {
      assert r.ids[p] in s.ids;
    }
  }

  /**
   `remove` keeps the invariant; exactly the entry under `id` leaves the
   tracked map (whatever handle was passed, only its id matters) and the active
   list shrinks by one exactly when `id` was tracked.
   */
  lemma RemoveStepKeeps(s: Tables, id: nat)
    requires Consistent(s)
    ensures Consistent(RemoveStep(s, id))
    ensures Entries(RemoveStep(s, id).table) == Entries(s.table) - {id}
    ensures |RemoveStep(s, id).ids| == |s.ids| - (if id in Entries(s.table) then 1 else 0)
  {
    ConsistentKeys(s);
    if id in s.pos {
      RemoveKeepsActive(s, id);
      RemoveKeepsPositions(s, id);
      RemoveKeepsSlots(s, id);
      EntriesCleared(s.table, id);
    }
  }

  lemma EntriesCleared(table: seq<Entity?>, id: nat)
    requires id < |table|
    ensures Entries(table[id := null]) == Entries(table) - {id}
  {
  }

  /**
   Adding the same id twice, under the same or another handle, leaves the
   state the first add produced.
   */
  lemma AddIdempotent(s: Tables, e: Entity, again: Entity)
    requires again.id == e.id
    ensures AddStep(AddStep(s, e), again) == AddStep(s, e)
  {
  }

  /**
   Removing a tracked entity and adding it back restores the tracked map and
   the count; only its position in the active list may differ.
   */
  lemma RemoveThenAdd(s: Tables, e: Entity)
    requires Consistent(s)
    requires e.id in Entries(s.table) && Entries(s.table)[e.id] == e
    ensures Consistent(AddStep(RemoveStep(s, e.id), e))
    ensures Entries(AddStep(RemoveStep(s, e.id), e).table) == Entries(s.table)
    ensures |AddStep(RemoveStep(s, e.id), e).ids| == |s.ids|
  {
    RemoveStepKeeps(s, e.id);
    var r := RemoveStep(s, e.id);
    AddStepKeeps(r, e);
    RestoreEntry(Entries(s.table), e.id, e);
  }

  lemma RestoreEntry(m: map<nat, Entity>, k: nat, v: Entity)
    requires k in m && m[k] == v
    ensures (m - {k})[k := v] == m
  {
  }

  /** The active ids produced by `update` are the input's ids, one per input entity. */
  lemma {:induction false} RebuildIds(es: seq<Entity>)
    ensures Rebuild(es).ids == IdsOf(es)
  {
    if es != [] {
      RebuildIds(es[..|es| - 1]);
    }
  }

  /** `update` tracks, for every id of the input, the last entity carrying it. */
  lemma {:induction false} RebuildEntries(es: seq<Entity>)
    ensures Entries(Rebuild(es).table) == LastWins(es)
  {
    if es != [] {
      RebuildEntries(es[..|es| - 1]);
      EntriesPush(Rebuild(es[..|es| - 1]), es[|es| - 1]);
    }
  }

  /** The ids `update` maps are those of the input. */
  lemma {:induction false} RebuildKeys(es: seq<Entity>)
    ensures Rebuild(es).pos.Keys == Elements(IdsOf(es))
  {
    if es != [] {
      var init := es[..|es| - 1];
      RebuildKeys(init);
      assert IdsOf(es) == IdsOf(init) + [es[|es| - 1].id];
    }
  }

  /**
   `update` establishes the invariant exactly when the input ids are
   distinct: a repeated id is appended to the active list twice.
   */
  lemma {:induction false} RebuildConsistentIff(es: seq<Entity>)
    ensures Consistent(Rebuild(es)) <==> DistinctIds(es)
  {
    RebuildIds(es);
    if DistinctIds(es) {
      if es != [] {
        var init := es[..|es| - 1];
        var e := es[|es| - 1];
        assert DistinctIds(init);
        RebuildConsistentIff(init);
        RebuildKeys(init);
        assert e.id !in Rebuild(init).pos by {
          assert forall i :: 0 <= i < |init| ==> IdsOf(init)[i] == es[i].id != e.id;
        }
        AddStepKeeps(Rebuild(init), e);
      }
    } else {
      var i, j :| 0 <= i < j < |es| && es[i].id == es[j].id;
      var r := Rebuild(es);
      assert r.ids[i] == r.ids[j];
    }
  }

  /** With distinct ids, `update` tracks every input entity under its own id and nothing else. */
  lemma {:induction false} LastWinsDistinct(es: seq<Entity>)
    requires DistinctIds(es)
    ensures LastWins(es).Keys == Elements(IdsOf(es))
    ensures forall i :: 0 <= i < |es| ==> LastWins(es)[es[i].id] == es[i]
  {
    if es != [] {
      var init := es[..|es| - 1];
      assert DistinctIds(init);
      LastWinsDistinct(init);
      assert IdsOf(es) == IdsOf(init) + [es[|es| - 1].id];
    }
  }

  /**
   Last write wins, for any input: `update` maps exactly the input's ids, and
   an id maps to the entity at its last occurrence in the input.
   */
  lemma {:induction false} LastWinsLatest(es: seq<Entity>)
    ensures forall k :: k in LastWins(es) <==> k in IdsOf(es)
    ensures forall j :: 0 <= j < |es| && (forall i :: j < i < |es| ==> es[i].id != es[j].id) ==>
      LastWins(es)[es[j].id] == es[j]
  {
    if es != [] {
      var init := es[..|es| - 1];
      var e := es[|es| - 1];
      LastWinsLatest(init);
      assert IdsOf(es) == IdsOf(init) + [e.id];
      forall j | 0 <= j < |es| && (forall i :: j < i < |es| ==> es[i].id != es[j].id)
        ensures LastWins(es)[es[j].id] == es[j]
      {
        if j < |init| {
          assert es[|es| - 1].id != es[j].id;
          assert init[j] == es[j];
          assert forall i :: j < i < |init| ==> init[i].id != init[j].id by {
            forall i | j < i < |init| ensures init[i].id != init[j].id {
              assert init[i] == es[i];
            }
          }
        }
      }
    }
  }

  /** The number of active ids is the number of tracked entities. */
  lemma SizeIsCount(s: Tables)
    requires Consistent(s)
    ensures |Entries(s.table)| == |s.ids|
  {
    ConsistentKeys(s);
    DistinctCard(s.ids);
    assert Entries(s.table).Keys == Elements(s.ids);
  }

  /** `get_all` under the invariant yields, position by position, the entity of each active id. */
  lemma {:induction false} GatherAll(table: seq<Entity?>, ids: seq<nat>)
    requires forall p :: 0 <= p < |ids| ==> ids[p] < |table| && table[ids[p]] != null
    ensures |Gather(table, ids)| == |ids|
    ensures forall p :: 0 <= p < |ids| ==> Gather(table, ids)[p] == table[ids[p]]
  {
    if ids != [] {
      GatherAll(table, ids[..|ids| - 1]);
    }
  }

  /**
   `for_each_all` visits, in strictly ascending id order, exactly the
   entities held in the table's slots.
   */
  lemma {:induction false} SlotsInOrder(table: seq<Entity?>)
    requires forall k :: 0 <= k < |table| && table[k] != null ==> table[k].id == k
    ensures forall i, j :: 0 <= i < j < |Slots(table)| ==> Slots(table)[i].id < Slots(table)[j].id
    ensures forall e :: e in Slots(table) ==> e.id < |table| && table[e.id] == e
    ensures forall k :: 0 <= k < |table| && table[k] != null ==> table[k] in Slots(table)
  {
    if table != [] {
      var init := table[..|table| - 1];
      assert forall k :: 0 <= k < |init| ==> init[k] == table[k];
      SlotsInOrder(init);
      forall e | e in Slots(init) ensures e.id < |init| {
      }
    }
  }

  /** Under the invariant `for_each_all` visits `size()` entities. */
  lemma SlotsCount(s: Tables)
    requires Consistent(s)
    ensures |Slots(s.table)| == |s.ids|
  {
    SlotsInOrder(s.table);
    SizeIsCount(s);
    var sl := Slots(s.table);
    var slotIds := seq(|sl|, i requires 0 <= i < |sl| => sl[i].id);
    assert NoDuplicates(slotIds);
    DistinctCard(slotIds);
    forall k | k in Entries(s.table).Keys ensures k in Elements(slotIds) {
      var e := s.table[k];
      assert e in sl;
      var i :| 0 <= i < |sl| && sl[i] == e;
      assert slotIds[i] == k;
    }
    forall k | k in Elements(slotIds) ensures k in Entries(s.table).Keys {
      var i :| 0 <= i < |slotIds| && slotIds[i] == k;
      assert sl[i] in sl;
    }
    assert Elements(slotIds) == Entries(s.table).Keys;
  }

  /**
   Under the invariant `get_all` and `for_each_all` yield the same entities,
   each `size()` many, in their respective orders.
   */
  lemma ReadsAgree(s: Tables)
    requires Consistent(s)
    ensures |Gather(s.table, s.ids)| == |s.ids|
    ensures |Slots(s.table)| == |s.ids|
    ensures forall e :: e in Gather(s.table, s.ids) <==> e in Slots(s.table)
  {
    GatherAll(s.table, s.ids);
    SlotsInOrder(s.table);
    SlotsCount(s);
    var sl := Slots(s.table);
    var g := Gather(s.table, s.ids);
    forall e | e in g ensures e in sl {
      var p :| 0 <= p < |g| && g[p] == e;
      assert s.table[s.ids[p]] == e;
    }
    forall e | e in sl ensures e in g {
      var p := s.pos[e.id];
      assert g[p] == e;
    }
  }

  /** After `remove(e)` of any handle with `e`'s id, neither read visits `e`. */
  lemma RemovedNotVisited(s: Tables, e: Entity)
    requires Consistent(s)
    ensures e !in Slots(RemoveStep(s, e.id).table)
    ensures e !in Gather(RemoveStep(s, e.id).table, RemoveStep(s, e.id).ids)
  {
    RemoveStepKeeps(s, e.id);
    var r := RemoveStep(s, e.id);
    SlotsInOrder(r.table);
    ReadsAgree(r);
  }

  // ---------------------------------------------------------------------------
  // The index object

  class IdIndex {
    var table: seq<Entity?>
    var activeIds: seq<nat>
    var idToIndex: map<nat, nat>

    function State(): Tables
      reads this
    {
      Tables(table, activeIds, idToIndex)
    }

    ghost predicate Valid()
      reads this
    {
      Consistent(State())
    }

    /** The abstract value: id to tracked entity. */
    function Contents(): map<nat, Entity>
      reads this
    {
      Entries(table)
    }

    constructor ()
      ensures Valid()
      ensures table == [] && activeIds == [] && idToIndex == map[]
    {
      table, activeIds, idToIndex := [], [], map[];
    }

    /** Full rebuild from `entities`; the state is replaced as a whole. */
    method Update(entities: seq<Entity>)
      modifies this
      ensures State() == Rebuild(entities)
      ensures activeIds == IdsOf(entities)
      ensures Contents() == LastWins(entities)
      ensures Valid() <==> DistinctIds(entities)
    {
      var localTable: seq<Entity?> := [];
      var localIds: seq<nat> := [];
      var localIdxMap: map<nat, nat> := map[];
      var i := 0;
      while i < |entities|
        invariant 0 <= i <= |entities|
        invariant Tables(localTable, localIds, localIdxMap) == Rebuild(entities[..i])
      {
        var e := entities[i];
        var id := e.id;
        if id >= |localTable| {
          localTable := localTable + seq(id + 1 - |localTable|, _ => null);
        }
        localTable := localTable[id := e];
        var pos := |localIds|;
        localIds := localIds + [id];
        localIdxMap := localIdxMap[id := pos];
        assert entities[..i + 1][..i] == entities[..i];
        i := i + 1;
      }
      assert entities[..i] == entities;
      table, activeIds, idToIndex := localTable, localIds, localIdxMap;
      RebuildIds(entities);
      RebuildEntries(entities);
      RebuildConsistentIff(entities);
    }

    /** Track `e` under its id unless that id is already tracked. */
    method Add(e: Entity)
      requires Valid()
      modifies this
      ensures Valid()
      ensures State() == AddStep(old(State()), e)
      ensures old(e.id in Contents()) ==> State() == old(State())
      ensures old(e.id !in Contents()) ==>
        && Contents() == old(Contents())[e.id := e]
        && e.id < |table| && table[e.id] == e
        && activeIds == old(activeIds) + [e.id]
        && idToIndex == old(idToIndex)[e.id := old(|activeIds|)]
    {
      ghost var before := State();
      AddStepKeeps(before, e);
      ConsistentKeys(before);
      var id := e.id;
      if id in idToIndex {
        return;
      }
      if id >= |table| {
        table := table + seq(id + 1 - |table|, _ => null);
      }
      table := table[id := e];
      var pos := |activeIds|;
      activeIds := activeIds + [id];
      idToIndex := idToIndex[id := pos];
    }

    /**
     Stop tracking the entity with `e`'s id (by id, not by handle). Only the
     former last active id moves, into the vacated position, and its position
     entry is the only one rewritten.
     */
    method Remove(e: Entity)
      requires Valid()
      modifies this
      ensures Valid()
      ensures State() == RemoveStep(old(State()), e.id)
      ensures Contents() == old(Contents()) - {e.id}
      ensures old(e.id !in Contents()) ==> State() == old(State())
      ensures old(e.id in Contents()) ==>
        var idx := old(idToIndex[e.id]);
        var back := old(activeIds[|activeIds| - 1]);
        && |activeIds| == old(|activeIds|) - 1
        && (idx < |activeIds| ==> activeIds[idx] == back && idToIndex[back] == idx)
        && (forall p :: 0 <= p < |activeIds| && p != idx ==> activeIds[p] == old(activeIds[p]))
        && (forall k :: k in idToIndex && k != back ==> k in old(idToIndex) && idToIndex[k] == old(idToIndex[k]))
    {
      ghost var before := State();
      RemoveStepKeeps(before, e.id);
      ConsistentKeys(before);
      var id := e.id;
      if id !in idToIndex {
        return;
      }
      var idx := idToIndex[id];
      var last := |activeIds| - 1;
      var backId := activeIds[last];
      activeIds := activeIds[idx := activeIds[last]][last := activeIds[idx]];
      activeIds := activeIds[..last];
      idToIndex := idToIndex[backId := idx];
      idToIndex := idToIndex - {id};
      if id < |table| {
        table := table[id := null];
      }
    }

    method Clear()
      modifies this
      ensures Valid()
      ensures table == [] && activeIds == [] && idToIndex == map[]
      ensures Contents() == map[]
    {
      table, activeIds, idToIndex := [], [], map[];
    }

    /** `size()`: the number of tracked entities. */
    method Size() returns (n: nat)
      requires Valid()
      ensures n == |Contents()|
      ensures n == |activeIds|
    {
      SizeIsCount(State());
      n := |activeIds|;
    }

    /** `get_all()`: the tracked entities in active-list order. */
    method GetAll() returns (r: seq<Entity>)
      requires Valid()
      ensures r == Gather(table, activeIds)
      ensures |r| == |activeIds|
      ensures forall p :: 0 <= p < |r| ==> activeIds[p] in Contents() && r[p] == Contents()[activeIds[p]]
    {
      r := [];
      var i := 0;
      while i < |activeIds|
        invariant 0 <= i <= |activeIds|
        invariant r == Gather(table, activeIds[..i])
      {
        var id := activeIds[i];
        if id < |table| && table[id] != null {
          r := r + [table[id]];
        }
        assert activeIds[..i + 1][..i] == activeIds[..i];
        i := i + 1;
      }
      assert activeIds[..i] == activeIds;
      GatherAll(table, activeIds);
    }

    /** `for_each_all`: what the visitor is called with, in ascending id order. */
    method ForEachAll() returns (r: seq<Entity>)
      requires Valid()
      ensures r == Slots(table)
      ensures |r| == |activeIds|
      ensures forall i, j :: 0 <= i < j < |r| ==> r[i].id < r[j].id
      ensures forall e :: e in r <==> e.id in Contents() && Contents()[e.id] == e
    {
      r := [];
      var k := 0;
      while k < |table|
        invariant 0 <= k <= |table|
        invariant r == Slots(table[..k])
      {
        if table[k] != null {
          r := r + [table[k]];
        }
        assert table[..k + 1][..k] == table[..k];
        k := k + 1;
      }
      assert table[..k] == table;
      SlotsInOrder(table);
      ReadsAgree(State());
    }

    /** `active_ids()`: the active list, each tracked id exactly once. */
    method ActiveIds() returns (r: seq<nat>)
      requires Valid()
      ensures r == activeIds
      ensures NoDuplicates(r)
      ensures Elements(r) == Contents().Keys
    {
      ConsistentKeys(State());
      r := activeIds;
    }
  }
}
