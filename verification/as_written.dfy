/**
 * Two behaviours of the C code as written that differ from what the code
 * evidently intends. The rest of the model uses the intended behaviour
 * (StrMap.HashMap.StoreAt, Probing.ProbeAfterHome); the members here model
 * the code as written and exhibit the difference.
 */
module AsWritten {
  import opened Wrappers
  import opened Fnv
  import opened Probing
  import opened StrMap

  // ---------------------------------------------------------------------------
  // mapSet never stores the key

  /**
   * `mapSet` as written: at the insert target the old key copy is released
   * (the allocator nulls the pointer, so the slot becomes Empty), the value
   * is written, and no copy of the key is ever stored.
   */
  function SetAsWritten<V>(keys: seq<Slot>, values: seq<Option<V>>, key: Key, value: Option<V>)
    : (r: (Status, seq<Slot>, seq<Option<V>>))
    requires 0 < |keys| == |values|
    ensures |r.1| == |keys| && |r.2| == |values|
    ensures forall j :: 0 <= j < |keys| && r.1[j] == Occupied(key) ==> keys[j] == Occupied(key)
  {
    match InsertTarget(keys, key)
    case None => (Full, keys, values)
    case Some(j) => (Ok, if keys[j].Occupied? then keys[j := Empty] else keys, values[j := value])
  }

  /**
   * A key that was not in the map is still not found after `mapSet` as
   * written reports success: `mapGet` returns null instead of the value.
   */
  lemma SetAsWrittenLosesKey<V>(keys: seq<Slot>, values: seq<Option<V>>, key: Key, value: Option<V>)
    requires 0 < |keys| == |values|
    requires forall j :: 0 <= j < |keys| ==> keys[j] != Occupied(key)
    ensures var (status, keys', values') := SetAsWritten(keys, values, key, value);
            LookupValue(keys', values', key) == None
  {
  }

  /** The smallest instance: a fresh map of size 1, any key, a non-null value. */
  lemma SetAsWrittenFreshMap<V>(key: Key, v: V)
    ensures var (status, keys', values') := SetAsWritten([Empty], [None], key, Some(v));
            status == Ok && keys' == [Empty] && values' == [Some(v)]
            && LookupValue(keys', values', key) == None
  {
    assert Home(key, 1) == 0;
  }

  /** Updating a key as written erases it: the slot that held it becomes Empty. */
  lemma UpdateAsWrittenErasesKey<V>(keys: seq<Slot>, values: seq<Option<V>>, key: Key, value: Option<V>)
    requires 0 < |keys| == |values| && keys[Home(key, |keys|)] == Occupied(key)
    ensures var (status, keys', values') := SetAsWritten(keys, values, key, value);
            status == Ok && keys'[Home(key, |keys|)] == Empty
  {
  }

  // ---------------------------------------------------------------------------
  // The uint8_t probe counter

  /** Where the insert probe loop stops, or that it has not stopped yet. */
  datatype ProbeOutcome = StopAt(index: nat) | ReportFull | StillProbing

  /** The C `uint8_t` increment: wraps from 255 to 0. */
  function U8Inc(i: nat): (r: nat)
    requires i < 256
    ensures r < 256 && (i < 255 ==> r == i + 1) && (i == 255 ==> r == 0)
  {
    (i + 1) % 256
  }

  /**
   * The probe loop of `setAdd` / `mapSet` as written, run for at most `fuel`
   * more iterations. Its counter `i` is a `uint8_t`, so it wraps from 255 to
   * 0. The loop stops at a slot that is Empty, a tombstone or the key, and
   * reports FULL when `i < size` fails.
   */
  function ProbeU8(slots: seq<Slot>, key: Key, index: nat, i: nat, fuel: nat): (r: ProbeOutcome)
    requires index < |slots| && i < 256
    ensures r.StopAt? ==> r.index < |slots| && Accepts(slots[r.index], key)
    ensures 256 <= |slots| ==> r != ReportFull
    decreases fuel
  {
    if !(i < |slots|) then ReportFull
    else if fuel == 0 then StillProbing
    else if Accepts(slots[Probe(index, i, |slots|)], key) then StopAt(Probe(index, i, |slots|))
    else ProbeU8(slots, key, index, U8Inc(i), fuel - 1)
  }

  /**
   * With 256 slots or more, when the slots at offsets 0 to 255 from `index`
   * all hold other keys, the loop as written never stops: however long it
   * runs, it is still probing, whatever lies at later offsets.
   */
  lemma {:induction false} U8ProbeNeverEnds(slots: seq<Slot>, key: Key, index: nat, i: nat, fuel: nat)
    requires index < |slots| && 256 <= |slots| && i < 256
    requires forall t :: 0 <= t < 256 ==>
               slots[Probe(index, t, |slots|)].Occupied? && slots[Probe(index, t, |slots|)].key != key
    ensures ProbeU8(slots, key, index, i, fuel) == StillProbing
    decreases fuel
  {
    if fuel > 0 {
      U8ProbeNeverEnds(slots, key, index, U8Inc(i), fuel - 1);
    }
  }

  /** The same table is FULL for the intended search. */
  lemma FullTableIsFull(slots: seq<Slot>, key: Key)
    requires 256 <= |slots|
    requires forall j :: 0 <= j < |slots| ==> slots[j].Occupied? && slots[j].key != key
    ensures InsertTarget(slots, key).None?
    ensures forall fuel: nat :: ProbeU8(slots, key, Home(key, |slots|), 1, fuel) == StillProbing
  {
    InsertTargetNoneIff(slots, key);
    forall fuel: nat
      ensures ProbeU8(slots, key, Home(key, |slots|), 1, fuel) == StillProbing
    {
      U8ProbeNeverEnds(slots, key, Home(key, |slots|), 1, fuel);
    }
  }

  /**
   * The loop as written hangs even when the table has room: with an Empty slot
   * at offset 256 from the home slot and other keys at offsets 0 to 255, the
   * intended search writes there, while the 8-bit loop never reaches it.
   */
  lemma HangWithFreeSlot(slots: seq<Slot>, key: Key)
    requires 257 <= |slots|
    requires forall t :: 0 <= t < 256 ==>
               slots[Probe(Home(key, |slots|), t, |slots|)].Occupied?
               && slots[Probe(Home(key, |slots|), t, |slots|)].key != key
    requires slots[Probe(Home(key, |slots|), 256, |slots|)].Empty?
    ensures InsertTarget(slots, key) == Some(Probe(Home(key, |slots|), 256, |slots|))
    ensures forall fuel: nat :: ProbeU8(slots, key, Home(key, |slots|), 1, fuel) == StillProbing
  {
    var n, h := |slots|, Home(key, |slots|);
    ProbeNoWrap(h, 0, n);
    FirstAcceptingSkips(slots, key, h, 1, 256);
    forall fuel: nat
      ensures ProbeU8(slots, key, h, 1, fuel) == StillProbing
    {
      U8ProbeNeverEnds(slots, key, h, 1, fuel);
    }
  }

  /** Below 256 slots the counter cannot wrap, and the loop as written gives the intended search. */
  lemma {:induction false} ProbeU8AgreesBelow256(slots: seq<Slot>, key: Key, index: nat, i: nat, fuel: nat)
    requires index < |slots| <= 255 && 1 <= i <= |slots| && fuel == |slots| - i
    ensures ProbeU8(slots, key, index, i, fuel) ==
            match FirstAccepting(slots, key, index, i)
            case Some(p) => StopAt(p)
            case None => ReportFull
    decreases fuel
  {
    if i < |slots| && !Accepts(slots[Probe(index, i, |slots|)], key) {
      ProbeU8AgreesBelow256(slots, key, index, U8Inc(i), fuel - 1);
    }
  }

  /**
   * With 256 slots or more the loop as written still gives the intended
   * search when an accepting slot lies at offset `m` below 256: the counter
   * reaches it before it can wrap.
   */
  lemma {:induction false} ProbeU8AgreesBeforeWrap(slots: seq<Slot>, key: Key, index: nat, i: nat, m: nat, fuel: nat)
    requires index < |slots| && 256 <= |slots| && 1 <= i <= m < 256
    requires Accepts(slots[Probe(index, m, |slots|)], key)
    requires m - i < fuel
    ensures FirstAccepting(slots, key, index, i).Some?
    ensures ProbeU8(slots, key, index, i, fuel) == StopAt(FirstAccepting(slots, key, index, i).value)
    decreases m - i
  {
    if !Accepts(slots[Probe(index, i, |slots|)], key) {
      ProbeU8AgreesBeforeWrap(slots, key, index, U8Inc(i), m, fuel - 1);
    }
  }
}
