// Double-buffered flushing (include/columnar/delta_store.h, DeltaStoreManager):
// writers fill the active store while the other one is flushed.
module FlushManager {
  import opened Types
  import opened Bytes
  import opened DeltaStore

  datatype Manager = Manager(stores: seq<Store>, active: nat)

  function ToFlush(m: Manager, threshold: nat): Option<nat> {
    if m.active < |m.stores| && m.stores[m.active].pending >= threshold then Some(m.active) else None
  }

  function WithSecond(m: Manager, columns: nat): Manager {
    if |m.stores| == 1 then m.(stores := m.stores + [Empty(columns)]) else m
  }

  /** Swap the active store and mark the old one as flushing. */
  function Taken(m: Manager, columns: nat): Manager
    requires m.active < |m.stores|
  {
    var w := WithSecond(m, columns);
    Manager(w.stores[m.active := w.stores[m.active].(flushing := true)], (m.active + 1) % |w.stores|)
  }

  function FlushEnded(s: Store, rows: nat): Store { s.(pending := Sub64(s.pending, rows), flushing := false) }

  /** As many columns as before, all without inserts and deletes. */
  ghost predicate IsEmptied(s: Store, was: Store) {
    && |s.columns| == |was.columns|
    && forall c :: 0 <= c < |s.columns| ==> s.columns[c].inserts == map[] && s.columns[c].deletes == map[]
  }

  predicate Clearable(s: Store) { !s.flushing && s.pending == 0 }

  function Compacted(stores: seq<Store>): (r: seq<Store>)
    ensures |r| == |stores|
  {
    seq(|stores|, i requires 0 <= i < |stores| => if Clearable(stores[i]) then Cleared(stores[i]) else stores[i])
  }

  class DeltaStoreManager {
    const numColumns: nat
    const flushThreshold: nat
    var stores: seq<Store>
    var active: nat

    ghost predicate Valid() reads this { active < |stores| }

    ghost function Value(): Manager reads this { Manager(stores, active) }

    constructor (n: nat, threshold: nat)
      ensures Valid() && Value() == Manager([Empty(n)], 0) && numColumns == n && flushThreshold == threshold
    {
      numColumns, flushThreshold, stores, active := n, threshold, [Empty(n)], 0;
    }

    /** The index of the store handed to the flusher, if any. */
    method GetStoreForFlush() returns (r: Option<nat>)
      requires Valid()
      modifies this
      ensures Valid() && r == ToFlush(old(Value()), flushThreshold)
      ensures r == if old(stores)[old(active)].pending >= flushThreshold then Some(old(active)) else None
      ensures Value() == if r.Some? then Taken(old(Value()), numColumns) else old(Value())
      ensures r.Some? ==>
        && |stores| == (if |old(stores)| == 1 then 2 else |old(stores)|)
        && active == (old(active) + 1) % |stores|
        && forall i :: 0 <= i < |stores| ==>
             stores[i] == if i == old(active) then old(stores)[i].(flushing := true)
                          else if i < |old(stores)| then old(stores)[i] else Empty(numColumns)
    {
      var current := active;
      if stores[current].pending >= flushThreshold {
        if |stores| == 1 { stores := stores + [Empty(numColumns)]; }
        active := (current + 1) % |stores|;
        stores := stores[current := stores[current].(flushing := true)];
        return Some(current);
      }
      return None;
    }

    method FinishFlush(store: nat, rows: nat)
      requires Valid()
      modifies this`stores
      ensures Valid()
      ensures store >= |old(stores)| ==> stores == old(stores)
      ensures store < |old(stores)| ==>
        var was := old(stores)[store];
        stores == old(stores)[store := was.(pending := (was.pending - rows) % TWO_64, flushing := false)]
    {
      if store < |stores| { stores := stores[store := FlushEnded(stores[store], rows)]; }
    }

    method CompactStores()
      requires Valid()
      modifies this`stores
      ensures Valid() && stores == Compacted(old(stores))
      ensures forall i :: 0 <= i < |stores| ==>
        if !old(stores)[i].flushing && old(stores)[i].pending == 0
        then stores[i].pending == 0 && stores[i].clock == old(stores)[i].clock && IsEmptied(stores[i], old(stores)[i])
        else stores[i] == old(stores)[i]
    {
      for i := 0 to |stores|
        invariant |stores| == |old(stores)|
        invariant forall k :: 0 <= k < |stores| ==>
            stores[k] == if k < i then Compacted(old(stores))[k] else old(stores)[k]
      {
        if !stores[i].flushing && stores[i].pending == 0 { stores := stores[i := Cleared(stores[i])]; }
      }
      assert stores == Compacted(old(stores));
    }
  }

  /** Deletes are not counted, so compaction drops them unless inserts are pending
      or the store is being flushed. */
  lemma DeletesSurviveIff(stores: seq<Store>, i: nat, c: nat, row: nat)
    requires i < |stores| && c < |stores[i].columns| && row in stores[i].columns[c].deletes
    ensures |Compacted(stores)[i].columns| == |stores[i].columns|
    ensures row in Compacted(stores)[i].columns[c].deletes <==> stores[i].flushing || stores[i].pending > 0
  {
  }

  /** Taking a store for flushing keeps the active one clear of flushing exactly
      when the other store is not still being flushed. */
  lemma ActiveFlushingIff(m: Manager, columns: nat)
    requires 1 <= |m.stores| <= 2 && m.active < |m.stores|
    ensures var t := Taken(m, columns);
            && t.active < |t.stores| && |t.stores| == 2
            && (t.stores[t.active].flushing <==> |m.stores| == 2 && m.stores[1 - m.active].flushing)
  {
    assert (m.active + 1) % 2 == 1 - m.active;
  }
}
