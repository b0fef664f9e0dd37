/**
 * The string set of lib/set.c: a fixed array of key slots, keys owned by the
 * set (an owned copy is modelled as a copy of the byte sequence).
 */
module StrSet {
  import opened Wrappers
  import opened Fnv
  import opened Probing

  class HashSet {
    var keys: array<Slot>

    /** The size is positive and every stored key is reachable from its home slot. */
    ghost predicate Valid()
      reads this, keys
    {
      ChainsIntact(keys[..])
    }

    /** `setCreate`: a zero size is a fatal precondition; every slot starts Empty. */
    constructor (size: nat)
      requires size > 0
      ensures Valid() && fresh(keys)
      ensures keys[..] == seq(size, _ => Empty)
      ensures CountOccupied(keys[..]) == 0
    {
      keys := new Slot[size](_ => Empty);
      new;
      assert keys[..] == seq(size, _ => Empty);
      EmptyChainsIntact(size);
      NoneOccupied(keys[..]);
    }

    /** `setAdd`: write the key at its insert target, or report FULL and change nothing. */
    method Add(key: Key) returns (status: Status)
      requires Valid()
      modifies keys
      ensures Valid()
      ensures match InsertTarget(old(keys[..]), key)
              case None => status == Full && keys[..] == old(keys[..])
              case Some(j) => status == Ok && keys[..] == old(keys[..])[j := Occupied(key)]
      ensures status == Full <==>
              forall j :: 0 <= j < keys.Length ==> old(keys[j]).Occupied? && old(keys[j]).key != key
      ensures status == Ok ==> Lookup(keys[..], key).Some?
    {
      ghost var before := keys[..];
      var index := MakeKey(key, keys.Length);
      var oldKey := keys[index];
      var collidesWithOldKey := oldKey.Occupied? && oldKey.key != key;
      InsertTargetNoneIff(before, key);
      if InsertTarget(before, key).Some? {
        InsertKeepsChains(before, key);
        InsertThenLookup(before, key);
      }
      if collidesWithOldKey {
        var probed := ProbeAfterHome(keys, key, index);
        if probed.None? {
          return Full;
        }
        if keys[probed.value] == Occupied(key) {
          // the key is already there
          assert before[probed.value := Occupied(key)] == before;
          return Ok;
        }
        index := probed.value;
      }
      keys[index] := Occupied(key);
      status := Ok;
    }

    /** `setHas`: whether the lookup walk finds the key, which is whether some slot holds it. */
    method Has(key: Key) returns (found: bool)
      requires Valid()
      ensures found <==> Lookup(keys[..], key).Some?
      ensures found <==> exists j :: 0 <= j < keys.Length && keys[j] == Occupied(key)
    {
      var r := GetIndex(keys, key);
      found := r.Some?;
      if !found {
        MissedIsAbsent(keys[..], key);
      }
    }

    /**
     * `setDelete`: turn the slot the lookup finds into a tombstone; an absent
     * key changes nothing. The key is gone afterwards exactly when that slot
     * held its only copy.
     */
    method Delete(key: Key)
      requires Valid()
      modifies keys
      ensures Valid()
      ensures match old(Lookup(keys[..], key))
              case None => keys[..] == old(keys[..])
              case Some(j) => keys[..] == old(keys[..])[j := Tombstone]
      ensures old(Lookup(keys[..], key)).Some? ==> CountOccupied(keys[..]) + 1 == old(CountOccupied(keys[..]))
      ensures Lookup(keys[..], key).None? <==>
              forall i :: 0 <= i < keys.Length && old(keys[i]) == Occupied(key) ==> old(Lookup(keys[..], key)) == Some(i)
      ensures forall other: Key :: other != key ==> Lookup(keys[..], other) == old(Lookup(keys[..], other))
    {
      var r := GetIndex(keys, key);
      if r.Some? {
        DeleteFacts(keys[..], key);
        keys[r.value] := Tombstone;
      } else {
        MissedIsAbsent(keys[..], key);
      }
    }

    /** `setUsed`: the number of Occupied slots, at most the size. */
    method Used() returns (used: nat)
      requires Valid()
      ensures used == CountOccupied(keys[..])
      ensures used <= keys.Length
    {
      used := 0;
      for i := 0 to keys.Length
        invariant used == CountOccupied(keys[..i])
      {
        assert keys[..i + 1][..i] == keys[..i];
        if keys[i].Occupied? {
          used := used + 1;
        }
      }
      assert keys[..keys.Length] == keys[..];
    }

    /**
     * The slot bookkeeping of `setDestroy`: every slot that is not a tombstone
     * is released and nulled; the count of released key copies is returned.
     */
    method Destroy() returns (released: nat)
      requires Valid()
      modifies keys
      ensures released == old(CountOccupied(keys[..]))
      ensures forall j :: 0 <= j < keys.Length ==> keys[j] == if old(keys[j]).Tombstone? then Tombstone else Empty
      ensures CountOccupied(keys[..]) == 0
    {
      released := 0;
      ghost var before := keys[..];
      for i := 0 to keys.Length
        invariant released == CountOccupied(before[..i])
        invariant forall j :: 0 <= j < i ==> keys[j] == if before[j].Tombstone? then Tombstone else Empty
        invariant forall j :: i <= j < keys.Length ==> keys[j] == before[j]
      {
        assert before[..i + 1][..i] == before[..i];
        if keys[i] != Tombstone {
          if keys[i].Occupied? {
            released := released + 1;
          }
          keys[i] := Empty;
        }
      }
      assert before[..keys.Length] == before;
      NoneOccupied(keys[..]);
    }
  }
}
