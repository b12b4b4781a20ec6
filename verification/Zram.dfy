// The compressed-page store: slots below `tail` are live or recycled, slots above are unused.
module Zram {
  import opened Types

  type Blob = seq<byte>

  datatype Store = Store(compressed: seq<Option<Blob>>, recycled: seq<nat>, tail: nat)

  datatype Error = InvalidIndex | NoSpace | NotAllocated

  predicate Live(z: Store, id: nat) {
    id < |z.compressed| && z.compressed[id].Some?
  }

  /** `[0, tail)` is the disjoint union of the live and the recycled slots; nothing else is live. */
  ghost predicate Valid(z: Store) {
    && z.tail <= |z.compressed| < 0x1_0000
    && Distinct(z.recycled)
    && (forall id: nat :: id in z.recycled ==> id < z.tail)
    && (forall id: nat :: Live(z, id) <==> id < z.tail && id !in z.recycled)
  }

  function New(capacity: nat): Store {
    Store(seq(capacity, _ => None), [], 0)
  }

  function Insert(z: Store, data: Blob): Option<(Store, nat)>
    requires z.tail <= |z.compressed|
    requires forall id: nat :: id in z.recycled ==> id < |z.compressed|
  {
    if |z.recycled| > 0 then
      var id := Last(z.recycled);
      assert id in z.recycled;
      Some((z.(recycled := DropLast(z.recycled), compressed := z.compressed[id := Some(data)]), id))
    else if z.tail == |z.compressed| then None
    else Some((z.(tail := z.tail + 1, compressed := z.compressed[z.tail := Some(data)]), z.tail))
  }

  /** `tail - 1` on the source's u16. */
  function LastIssued(z: Store): nat {
    if z.tail == 0 then 0xFFFF else z.tail - 1
  }

  /** The store after `remove(id)`; an out-of-range index changes nothing. */
  function Remove(z: Store, id: nat): Store {
    if id >= |z.compressed| then z
    else
      var z1 := if id == LastIssued(z) then z.(tail := id) else z.(recycled := z.recycled + [id]);
      z1.(compressed := z1.compressed[id := None])
  }

  lemma NewIsEmpty(capacity: nat)
    requires capacity < 0x1_0000
    ensures Valid(New(capacity))
    ensures forall id: nat :: !Live(New(capacity), id)
  {
  }

  /** Insertion fails exactly when every slot is live; otherwise it issues a slot that was not
      live and touches no live slot. */
  lemma InsertIssuesFresh(z: Store, data: Blob)
    requires Valid(z)
    ensures Insert(z, data).None? <==> forall id: nat :: id < |z.compressed| ==> Live(z, id)
    ensures Insert(z, data).Some? ==>
              var (z', id) := Insert(z, data).value;
              && Valid(z') && |z'.compressed| == |z.compressed|
              && !Live(z, id) && Live(z', id) && z'.compressed[id].value == data
              && (forall j: nat :: j != id ==> (Live(z', j) <==> Live(z, j)))
              && (forall j: nat :: j != id && Live(z, j) ==> z'.compressed[j] == z.compressed[j])
  {
    if |z.recycled| > 0 {
      PopLast(z.recycled);
      var (z', id) := Insert(z, data).value;
      assert !Live(z, id);
      forall j: nat
        ensures Live(z', j) <==> j < z'.tail && j !in z'.recycled
      {
        assert Live(z, j) <==> j < z.tail && j !in z.recycled;
      }
    } else if z.tail < |z.compressed| {
      assert !Live(z, z.tail);
    }
  }

  /** Removing a live slot frees exactly that slot, also when the tail retreats past it. */
  lemma RemoveFreesOne(z: Store, id: nat)
    requires Valid(z) && Live(z, id)
    ensures Valid(Remove(z, id)) && |Remove(z, id).compressed| == |z.compressed|
    ensures forall j: nat :: Live(Remove(z, id), j) <==> j != id && Live(z, j)
    ensures forall j: nat :: j != id && Live(z, j) ==> Remove(z, id).compressed[j] == z.compressed[j]
  {
    PushDistinct(z.recycled, id);
  }

  /** The partition survives a removal exactly when the index is out of range or live. */
  lemma RemoveSoundIffLive(z: Store, id: nat)
    requires Valid(z)
    ensures Valid(Remove(z, id)) <==> id >= |z.compressed| || Live(z, id)
  {
    PushDistinct(z.recycled, id);
    if Live(z, id) {
      RemoveFreesOne(z, id);
    } else if id < |z.compressed| && id == LastIssued(z) {
      assert id in Remove(z, id).recycled;
    }
  }

  /** A new store of one slot is damaged by the removal of that slot. */
  lemma RemoveDeadBreaks()
    ensures Valid(New(1)) && !Live(New(1), 0) && !Valid(Remove(New(1), 0))
  {
    NewIsEmpty(1);
    RemoveSoundIffLive(New(1), 0);
  }

  /** The slot removed last is issued next, unless the tail retreated and another slot waits to be issued again. */
  lemma RemoveThenInsert(z: Store, id: nat, data: Blob)
    requires Valid(z) && Live(z, id)
    ensures Valid(Remove(z, id)) && Insert(Remove(z, id), data).Some?
    ensures Insert(Remove(z, id), data).value.1 == id <==> id + 1 != z.tail || z.recycled == []
    ensures id + 1 != z.tail || z.recycled == [] ==>
              Insert(Remove(z, id), data).value.0 == z.(compressed := z.compressed[id := Some(data)])
  {
    RemoveFreesOne(z, id);
    assert DropLast(z.recycled + [id]) == z.recycled;
    assert z.compressed[id := None][id := Some(data)] == z.compressed[id := Some(data)];
  }
}
