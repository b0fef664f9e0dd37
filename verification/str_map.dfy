/**
 * The string map of lib/map.c: a fixed array of key slots owned by the map
 * and a parallel array of borrowed value pointers. A value is `Option<V>`:
 * `None` is the null pointer, which a caller may also store.
 */
module StrMap {
  import opened Wrappers
  import opened Fnv
  import opened Probing

  /** What `mapGet` returns: the value beside the slot the lookup finds, or null. */
  function LookupValue<V>(keys: seq<Slot>, values: seq<Option<V>>, key: Key): (r: Option<V>)
    requires 0 < |keys| == |values|
    ensures (forall j :: 0 <= j < |keys| ==> keys[j] != Occupied(key)) ==> r == None
  {
    match Lookup(keys, key)
    case Some(j) => values[j]
    case None => None
  }

  /** `mapGet` after a successful `mapSet` of the key yields the value just set. */
  lemma GetAfterSet<V>(keys: seq<Slot>, values: seq<Option<V>>, key: Key, value: Option<V>)
    requires 0 < |keys| == |values| && InsertTarget(keys, key).Some?
    ensures var j := InsertTarget(keys, key).value;
            LookupValue(keys[j := Occupied(key)], values[j := value], key) == value
  {
    InsertThenLookup(keys, key);
  }

  /** A successful `mapSet` leaves the value of every other key as it was. */
  lemma SetKeepsOtherValues<V>(keys: seq<Slot>, values: seq<Option<V>>, key: Key, value: Option<V>, other: Key)
    requires ChainsIntact(keys) && |values| == |keys| && InsertTarget(keys, key).Some? && other != key
    ensures var j := InsertTarget(keys, key).value;
            LookupValue(keys[j := Occupied(key)], values[j := value], other) == LookupValue(keys, values, other)
  {
    InsertKeepsOthers(keys, key, other);
  }

  /**
   * After deleting a found key, every other key yields its old value, the
   * key is still found exactly when it had a second copy, and a key that had
   * only the deleted copy yields null.
   */
  lemma DeleteValueFacts<V>(keys: seq<Slot>, values: seq<Option<V>>, key: Key)
    requires ChainsIntact(keys) && |values| == |keys| && Lookup(keys, key).Some?
    ensures var j := Lookup(keys, key).value;
      && ChainsIntact(keys[j := Tombstone])
      && (Lookup(keys[j := Tombstone], key).None? <==>
          forall i :: 0 <= i < |keys| && keys[i] == Occupied(key) ==> i == j)
      && ((forall i :: 0 <= i < |keys| && keys[i] == Occupied(key) ==> i == j) ==>
          LookupValue(keys[j := Tombstone], values[j := None], key) == None)
      && forall other: Key :: other != key ==>
           LookupValue(keys[j := Tombstone], values[j := None], other) == LookupValue(keys, values, other)
  {
    var j := Lookup(keys, key).value;
    var keys', values' := keys[j := Tombstone], values[j := None];
    DeleteFacts(keys, key);
    forall other: Key | other != key
      ensures LookupValue(keys', values', other) == LookupValue(keys, values, other)
    {
      assert Lookup(keys', other) == Lookup(keys, other);
    }
  }

  /** A slot without a key has no value. */
  ghost predicate LockStep<V>(keys: seq<Slot>, values: seq<Option<V>>) {
    |keys| == |values| && forall j :: 0 <= j < |keys| && !keys[j].Occupied? ==> values[j] == None
  }

  class HashMap<V> {
    var keys: array<Slot>
    var values: array<Option<V>>

    /**
     * The two arrays have the same positive size, every stored key is
     * reachable from its home slot, and a slot without a key has no value.
     */
    ghost predicate Valid()
      reads this, keys, values
    {
      && ChainsIntact(keys[..])
      && values.Length == keys.Length
      && LockStep(keys[..], values[..])
    }

    /** `mapCreate`: a zero size is a fatal precondition; every key slot is Empty, every value null. */
    constructor (size: nat)
      requires size > 0
      ensures Valid() && fresh(keys) && fresh(values)
      ensures keys[..] == seq(size, _ => Empty)
      ensures values[..] == seq(size, _ => None)
      ensures CountOccupied(keys[..]) == 0
    {
      keys := new Slot[size](_ => Empty);
      values := new Option<V>[size](_ => None);
      new;
      assert keys[..] == seq(size, _ => Empty);
      assert values[..] == seq(size, _ => None);
      EmptyChainsIntact(size);
      NoneOccupied(keys[..]);
    }

    /**
     * `mapSet`: write the key and the value at the key's insert target, or
     * report FULL and change nothing. The key is stored here; the code as
     * written never stores it (AsWritten.SetAsWritten).
     */
    method Set(key: Key, value: Option<V>) returns (status: Status)
      requires Valid()
      modifies keys, values
      ensures Valid()
      ensures match InsertTarget(old(keys[..]), key)
              case None =>
                status == Full && keys[..] == old(keys[..]) && values[..] == old(values[..])
              case Some(j) =>
                && status == Ok
                && keys[..] == old(keys[..])[j := Occupied(key)]
                && values[..] == old(values[..])[j := value]
      ensures status == Full <==>
              forall j :: 0 <= j < keys.Length ==> old(keys[j]).Occupied? && old(keys[j]).key != key
      ensures status == Ok ==> LookupValue(keys[..], values[..], key) == value
    {
      var index := MakeKey(key, keys.Length);
      var oldKey := keys[index];
      var collidesWithOldKey := oldKey.Occupied? && oldKey.key != key;
      InsertTargetNoneIff(keys[..], key);
      if collidesWithOldKey {
        var probed := ProbeAfterHome(keys, key, index);
        if probed.None? {
          return Full;
        }
        index := probed.value;
      }
      StoreAt(index, key, value);
      status := Ok;
    }

    /**
     * The `set:` block of `mapSet` at the insert target: release the old key
     * copy, store a copy of the key (which the code as written omits) and the
     * value.
     */
    method StoreAt(index: nat, key: Key, value: Option<V>)
      requires Valid() && InsertTarget(keys[..], key) == Some(index)
      modifies keys, values
      ensures Valid()
      ensures keys[..] == old(keys[..])[index := Occupied(key)]
      ensures values[..] == old(values[..])[index := value]
      ensures LookupValue(keys[..], values[..], key) == value
    {
      ghost var before, beforeValues := keys[..], values[..];
      InsertKeepsChains(before, key);
      GetAfterSet(before, beforeValues, key, value);
      keys[index] := Occupied(key);
      values[index] := value;
      assert keys[..] == before[index := Occupied(key)];
      assert values[..] == beforeValues[index := value];
    }

    /** `mapGet`: the value of the slot the lookup finds; null when the key is missing. */
    method Get(key: Key) returns (value: Option<V>)
      requires Valid()
      ensures value == LookupValue(keys[..], values[..], key)
      ensures (forall j :: 0 <= j < keys.Length ==> keys[j] != Occupied(key)) ==> value == None
    {
      var r := GetIndex(keys, key);
      if r.Some? {
        return values[r.value];
      }
      return None;
    }

    /**
     * `mapDelete`: return the value of the slot the lookup finds, null it and
     * turn the key slot into a tombstone; an absent key returns null and
     * changes nothing.
     */
    method Delete(key: Key) returns (previous: Option<V>)
      requires Valid()
      modifies keys, values
      ensures Valid()
      ensures previous == old(LookupValue(keys[..], values[..], key))
      ensures match old(Lookup(keys[..], key))
              case None => keys[..] == old(keys[..]) && values[..] == old(values[..])
              case Some(j) => keys[..] == old(keys[..])[j := Tombstone] && values[..] == old(values[..])[j := None]
      ensures Lookup(keys[..], key).None? <==>
              forall i :: 0 <= i < keys.Length && old(keys[i]) == Occupied(key) ==> old(Lookup(keys[..], key)) == Some(i)
      ensures (forall i :: 0 <= i < keys.Length && old(keys[i]) == Occupied(key) ==> old(Lookup(keys[..], key)) == Some(i)) ==>
              LookupValue(keys[..], values[..], key) == None
      ensures forall other: Key :: other != key ==>
              LookupValue(keys[..], values[..], other) == old(LookupValue(keys[..], values[..], other))
    {
      ghost var before, beforeValues := keys[..], values[..];
      var r := GetIndex(keys, key);
      if r.Some? {
        var index := r.value;
        previous := values[index];
        values[index] := None;
        keys[index] := Tombstone;
        DeleteValueFacts(before, beforeValues, key);
      } else {
        previous := None;
        MissedIsAbsent(before, key);
      }
    }

    /**
     * The slot bookkeeping of `mapDestroy`: every key slot that is not a
     * tombstone is released and nulled, the count of released key copies is
     * returned, and no value is touched.
     */
    method Destroy() returns (released: nat)
      requires Valid()
      modifies keys
      ensures released == old(CountOccupied(keys[..]))
      ensures forall j :: 0 <= j < keys.Length ==> keys[j] == if old(keys[j]).Tombstone? then Tombstone else Empty
      ensures CountOccupied(keys[..]) == 0
    {
      released := 0;
      ghost var before := keys[..];
      for i := 0 to keys.Length
        invariant released == CountOccupied(before[..i])
        invariant forall j :: 0 <= j < i ==> keys[j] == if before[j].Tombstone? then Tombstone else Empty
        invariant forall j :: i <= j < keys.Length ==> keys[j] == before[j]
      {
        assert before[..i + 1][..i] == before[..i];
        if keys[i] != Tombstone {
          if keys[i].Occupied? {
            released := released + 1;
          }
          keys[i] := Empty;
        }
      }
      assert before[..keys.Length] == before;
      NoneOccupied(keys[..]);
    }
  }
}
