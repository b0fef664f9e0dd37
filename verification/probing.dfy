/**
 * The slot array shared by the map and the set: slot states, the linear probe
 * walk from a key's home slot, the lookup and insert-target rules as
 * functions on the array's contents, and the facts about them that both
 * tables rely on.
 */
module Probing {
  import opened Wrappers
  import opened Fnv

  /**
   * A key slot. The C code stores a null pointer (`Empty`), a pointer to the
   * tombstone sentinel (`Tombstone`) or an owned copy of a key (`Occupied`);
   * the sentinel is told apart by pointer identity, so a key whose text equals
   * the sentinel's is still an ordinary `Occupied` key.
   */
  datatype Slot = Empty | Tombstone | Occupied(key: Key)

  /**
   * The result of an insert: MAP_RESULT_OK / SET_RESULT_OK, or MAP_ERROR_FULL /
   * SET_ERROR_FULL. A lookup that misses (the NOT_FOUND value) is `None`.
   */
  datatype Status = Ok | Full

  /** The slot visited at probe offset `i` from home slot `h` in `n` slots. */
  function Probe(h: nat, i: nat, n: nat): (j: nat)
    requires n > 0
    ensures j < n
  {
    (h + i) % n
  }

  lemma ProbeNoWrap(h: nat, i: nat, n: nat)
    requires n > 0 && h + i < n
    ensures Probe(h, i, n) == h + i
  {
  }

  lemma ProbeWrap(h: nat, i: nat, n: nat)
    requires n <= h + i < 2 * n
    ensures Probe(h, i, n) == h + i - n
  {
    var x := h + i;
    var q := x / n;
    MultipleBounds(q, n);
    assert x == q * n + x % n && 0 <= x % n < n;
  }

  /** Where a multiple of a positive `n` lies, depending on the factor. */
  lemma MultipleBounds(q: int, n: int)
    requires n > 0
    ensures q <= 0 ==> q * n <= 0
    ensures q == 1 ==> q * n == n
    ensures q >= 2 ==> q * n >= 2 * n
  {
  }

  /** The probe offset at which the walk from `h` visits slot `j`. */
  function OffsetOf(h: nat, j: nat, n: nat): (i: nat)
    requires h < n && j < n
    ensures i < n && Probe(h, i, n) == j
  {
    if h <= j then
      ProbeNoWrap(h, j - h, n);
      j - h
    else
      ProbeWrap(h, j + n - h, n);
      j + n - h
  }

  /** One cycle of the walk visits every slot exactly once. */
  lemma ProbeOffsetUnique(h: nat, i: nat, n: nat)
    requires h < n && i < n
    ensures OffsetOf(h, Probe(h, i, n), n) == i
  {
    if h + i < n {
      ProbeNoWrap(h, i, n);
    } else {
      ProbeWrap(h, i, n);
    }
  }

  /**
   * The slot test of `mapSet` and `setAdd`: a slot the key may be written to.
   * The insert probe stops wherever the lookup walk would stop, and also at
   * tombstones, which the walk steps over.
   */
  predicate Accepts(s: Slot, key: Key): (r: bool)
    ensures r <==> s.Tombstone? || !PassesOver(s, key)
  {
    s.Empty? || s.Tombstone? || s == Occupied(key)
  }

  /**
   * A slot the lookup walk for `key` steps over: a tombstone or another key.
   * The walk stops exactly at an Empty slot or at the key.
   */
  predicate PassesOver(s: Slot, key: Key): (r: bool)
    ensures !r <==> s.Empty? || s == Occupied(key)
  {
    s.Tombstone? || (s.Occupied? && s.key != key)
  }

  /** No slot at offsets `lo` to `hi - 1` of the walk from `h` is Empty. */
  ghost predicate ClearBetween(slots: seq<Slot>, h: nat, lo: nat, hi: nat)
    requires 0 < |slots|
  {
    forall t :: lo <= t < hi ==> !slots[Probe(h, t, |slots|)].Empty?
  }

  /** Every slot at offsets `lo` to `hi - 1` of the walk from `h` is passed over by `key`. */
  ghost predicate PassesBetween(slots: seq<Slot>, key: Key, h: nat, lo: nat, hi: nat)
    requires 0 < |slots|
  {
    forall t :: lo <= t < hi ==> PassesOver(slots[Probe(h, t, |slots|)], key)
  }

  // ---------------------------------------------------------------------------
  // Lookup (mapGetIndex, setGetIndex)

  /**
   * The walk from offset `i`: stop with nothing at an Empty slot, step over
   * tombstones and other keys, stop at the key, give up after the full cycle.
   */
  function LookupFrom(slots: seq<Slot>, key: Key, h: nat, i: nat): (r: Option<nat>)
    requires 0 < |slots| && h < |slots| && i <= |slots|
    ensures r.Some? ==> r.value < |slots| && slots[r.value] == Occupied(key)
    decreases |slots| - i
  {
    if i == |slots| then None
    else
      var j := Probe(h, i, |slots|);
      match slots[j]
      case Empty => None
      case Tombstone => LookupFrom(slots, key, h, i + 1)
      case Occupied(k) => if k == key then Some(j) else LookupFrom(slots, key, h, i + 1)
  }

  /** The index holding `key`, found by walking from its home slot, if any. */
  function Lookup(slots: seq<Slot>, key: Key): (r: Option<nat>)
    requires 0 < |slots|
    ensures r.Some? ==> r.value < |slots| && slots[r.value] == Occupied(key)
  {
    LookupFrom(slots, key, Home(key, |slots|), 0)
  }

  /** Slots the walk steps over do not change its outcome. */
  lemma {:induction false} LookupFromSkips(slots: seq<Slot>, key: Key, h: nat, i: nat, m: nat)
    requires 0 < |slots| && h < |slots| && i <= m <= |slots|
    requires PassesBetween(slots, key, h, i, m)
    ensures LookupFrom(slots, key, h, i) == LookupFrom(slots, key, h, m)
    decreases m - i
  {
    if i < m {
      LookupFromSkips(slots, key, h, i + 1, m);
    }
  }

  /** What a successful walk from offset `i` found: the first copy of the key, with no Empty slot before it. */
  lemma {:induction false} LookupFromFound(slots: seq<Slot>, key: Key, h: nat, i: nat)
    requires 0 < |slots| && h < |slots| && i <= |slots|
    requires LookupFrom(slots, key, h, i).Some?
    ensures exists m :: i <= m < |slots| && LookupFrom(slots, key, h, i) == Some(Probe(h, m, |slots|))
                        && PassesBetween(slots, key, h, i, m)
    decreases |slots| - i
  {
    var j := Probe(h, i, |slots|);
    if slots[j] == Occupied(key) {
      assert LookupFrom(slots, key, h, i) == Some(Probe(h, i, |slots|));
      assert PassesBetween(slots, key, h, i, i);
    } else {
      LookupFromFound(slots, key, h, i + 1);
      var m :| i + 1 <= m < |slots| && LookupFrom(slots, key, h, i + 1) == Some(Probe(h, m, |slots|))
               && PassesBetween(slots, key, h, i + 1, m);
      assert PassesBetween(slots, key, h, i, m);
    }
  }

  /** A copy of the key with no Empty slot before it on the walk is found. */
  lemma {:induction false} LookupFromReaches(slots: seq<Slot>, key: Key, h: nat, i: nat, m: nat)
    requires 0 < |slots| && h < |slots| && i <= m < |slots|
    requires slots[Probe(h, m, |slots|)] == Occupied(key)
    requires ClearBetween(slots, h, i, m)
    ensures LookupFrom(slots, key, h, i).Some?
    decreases m - i
  {
    if i < m {
      var j := Probe(h, i, |slots|);
      if slots[j] != Occupied(key) {
        LookupFromReaches(slots, key, h, i + 1, m);
      }
    }
  }

  /**
   * `setHas`: the key is found if and only if the walk from its home slot meets
   * a slot holding it before any Empty slot, within one cycle.
   */
  lemma LookupIff(slots: seq<Slot>, key: Key)
    requires 0 < |slots|
    ensures Lookup(slots, key).Some? <==>
      exists m :: 0 <= m < |slots| && slots[Probe(Home(key, |slots|), m, |slots|)] == Occupied(key)
                  && ClearBetween(slots, Home(key, |slots|), 0, m)
  {
    var h := Home(key, |slots|);
    if Lookup(slots, key).Some? {
      LookupFromFound(slots, key, h, 0);
      var m :| 0 <= m < |slots| && LookupFrom(slots, key, h, 0) == Some(Probe(h, m, |slots|))
               && PassesBetween(slots, key, h, 0, m);
      assert ClearBetween(slots, h, 0, m);
    }
    if exists m :: 0 <= m < |slots| && slots[Probe(h, m, |slots|)] == Occupied(key) && ClearBetween(slots, h, 0, m) {
      var m :| 0 <= m < |slots| && slots[Probe(h, m, |slots|)] == Occupied(key) && ClearBetween(slots, h, 0, m);
      LookupFromReaches(slots, key, h, 0, m);
    }
  }

  /** Replacing a slot the walk steps over by another such slot leaves every walk for `key` unchanged. */
  lemma {:induction false} LookupFromTransparent(slots: seq<Slot>, key: Key, h: nat, i: nat, j: nat, s: Slot)
    requires 0 < |slots| && h < |slots| && i <= |slots| && j < |slots|
    requires PassesOver(slots[j], key) && PassesOver(s, key)
    ensures LookupFrom(slots[j := s], key, h, i) == LookupFrom(slots, key, h, i)
    decreases |slots| - i
  {
    if i < |slots| {
      LookupFromTransparent(slots, key, h, i + 1, j, s);
    }
  }

  /** The read-only walk of `mapGetIndex` / `setGetIndex`. */
  method GetIndex(keys: array<Slot>, key: Key) returns (r: Option<nat>)
    requires keys.Length > 0
    ensures r == Lookup(keys[..], key)
  {
    var index := MakeKey(key, keys.Length);
    var i := 0;
    while i < keys.Length
      invariant 0 <= i <= keys.Length
      invariant LookupFrom(keys[..], key, index, i) == Lookup(keys[..], key)
    {
      var probed := (index + i) % keys.Length;
      var probedKey := keys[probed];
      if probedKey.Empty? {
        return None;
      }
      if probedKey.Tombstone? {
        i := i + 1;
        continue;
      }
      if probedKey.key == key {
        return Some(probed);
      }
      i := i + 1;
    }
    return None;
  }

  // ---------------------------------------------------------------------------
  // Insert target (the slot search of mapSet and setAdd)

  /** The first accepting slot at offsets `i` to `|slots| - 1` from `h`. */
  function FirstAccepting(slots: seq<Slot>, key: Key, h: nat, i: nat): (r: Option<nat>)
    requires 0 < |slots| && h < |slots| && i <= |slots|
    ensures r.Some? ==> r.value < |slots| && Accepts(slots[r.value], key)
    decreases |slots| - i
  {
    if i == |slots| then None
    else if Accepts(slots[Probe(h, i, |slots|)], key) then Some(Probe(h, i, |slots|))
    else FirstAccepting(slots, key, h, i + 1)
  }

  /**
   * The slot `mapSet` and `setAdd` write to: the home slot when it accepts the
   * key, otherwise the first accepting slot at offsets 1 to `size - 1`;
   * `None` is the FULL error.
   */
  function InsertTarget(slots: seq<Slot>, key: Key): (r: Option<nat>)
    requires 0 < |slots|
    ensures r.Some? ==> r.value < |slots| && Accepts(slots[r.value], key)
  {
    var h := Home(key, |slots|);
    if Accepts(slots[h], key) then Some(h) else FirstAccepting(slots, key, h, 1)
  }

  /**
   * The probe loop of `mapSet` / `setAdd` after a home-slot collision: the
   * first slot at offsets 1 to `size - 1` that is Empty, a tombstone or the
   * key itself.
   */
  method ProbeAfterHome(keys: array<Slot>, key: Key, index: nat) returns (r: Option<nat>)
    requires index < keys.Length
    ensures r == FirstAccepting(keys[..], key, index, 1)
  {
    var i := 1;
    while i < keys.Length
      invariant 1 <= i <= keys.Length
      invariant FirstAccepting(keys[..], key, index, i) == FirstAccepting(keys[..], key, index, 1)
    {
      var probed := (index + i) % keys.Length;
      var probedKey := keys[probed];
      var shouldWriteOnIndex := probedKey.Empty? || probedKey.Tombstone? || probedKey.key == key;
      if shouldWriteOnIndex {
        return Some(probed);
      }
      i := i + 1;
    }
    return None;
  }

  lemma {:induction false} FirstAcceptingFound(slots: seq<Slot>, key: Key, h: nat, i: nat)
    requires 0 < |slots| && h < |slots| && i <= |slots|
    requires FirstAccepting(slots, key, h, i).Some?
    ensures exists m :: i <= m < |slots| && FirstAccepting(slots, key, h, i) == Some(Probe(h, m, |slots|))
                        && forall t :: i <= t < m ==> !Accepts(slots[Probe(h, t, |slots|)], key)
    decreases |slots| - i
  {
    if !Accepts(slots[Probe(h, i, |slots|)], key) {
      FirstAcceptingFound(slots, key, h, i + 1);
      var m :| i + 1 <= m < |slots| && FirstAccepting(slots, key, h, i + 1) == Some(Probe(h, m, |slots|))
               && forall t :: i + 1 <= t < m ==> !Accepts(slots[Probe(h, t, |slots|)], key);
      assert forall t :: i <= t < m ==> !Accepts(slots[Probe(h, t, |slots|)], key);
    }
  }

  lemma {:induction false} FirstAcceptingNone(slots: seq<Slot>, key: Key, h: nat, i: nat)
    requires 0 < |slots| && h < |slots| && i <= |slots|
    ensures FirstAccepting(slots, key, h, i).None? <==>
            forall t :: i <= t < |slots| ==> !Accepts(slots[Probe(h, t, |slots|)], key)
    decreases |slots| - i
  {
    if i < |slots| {
      FirstAcceptingNone(slots, key, h, i + 1);
    }
  }

  /** Where an insert lands: the first accepting slot of the walk from the home slot. */
  lemma InsertTargetFound(slots: seq<Slot>, key: Key)
    requires 0 < |slots| && InsertTarget(slots, key).Some?
    ensures var h := Home(key, |slots|);
            exists m :: 0 <= m < |slots| && InsertTarget(slots, key) == Some(Probe(h, m, |slots|))
                        && forall t :: 0 <= t < m ==> !Accepts(slots[Probe(h, t, |slots|)], key)
  {
    var h := Home(key, |slots|);
    if Accepts(slots[h], key) {
      ProbeNoWrap(h, 0, |slots|);
      assert InsertTarget(slots, key) == Some(Probe(h, 0, |slots|));
    } else {
      FirstAcceptingFound(slots, key, h, 1);
      var m :| 1 <= m < |slots| && FirstAccepting(slots, key, h, 1) == Some(Probe(h, m, |slots|))
               && forall t :: 1 <= t < m ==> !Accepts(slots[Probe(h, t, |slots|)], key);
      ProbeNoWrap(h, 0, |slots|);
      assert forall t :: 0 <= t < m ==> !Accepts(slots[Probe(h, t, |slots|)], key);
    }
  }

  /** FULL exactly when every slot holds a key other than the one being inserted. */
  lemma InsertTargetNoneIff(slots: seq<Slot>, key: Key)
    requires 0 < |slots|
    ensures InsertTarget(slots, key).None? <==>
            forall j :: 0 <= j < |slots| ==> slots[j].Occupied? && slots[j].key != key
  {
    var n, h := |slots|, Home(key, |slots|);
    ProbeNoWrap(h, 0, n);
    FirstAcceptingNone(slots, key, h, 1);
    if InsertTarget(slots, key).None? {
      forall j | 0 <= j < n
        ensures slots[j].Occupied? && slots[j].key != key
      {
        var t := OffsetOf(h, j, n);
        assert !Accepts(slots[Probe(h, t, n)], key);
      }
    }
  }

  /** After writing the key at its insert target, the lookup finds it there. */
  lemma InsertThenLookup(slots: seq<Slot>, key: Key)
    requires 0 < |slots| && InsertTarget(slots, key).Some?
    ensures Lookup(slots[InsertTarget(slots, key).value := Occupied(key)], key) == InsertTarget(slots, key)
  {
    var n, h, j := |slots|, Home(key, |slots|), InsertTarget(slots, key).value;
    var after := slots[j := Occupied(key)];
    InsertTargetFound(slots, key);
    var m :| 0 <= m < n && InsertTarget(slots, key) == Some(Probe(h, m, n))
             && forall t :: 0 <= t < m ==> !Accepts(slots[Probe(h, t, n)], key);
    forall t | 0 <= t < m
      ensures PassesOver(after[Probe(h, t, n)], key)
    {
      ProbeOffsetUnique(h, t, n);
      ProbeOffsetUnique(h, m, n);
    }
    LookupFromSkips(after, key, h, 0, m);
  }

  // ---------------------------------------------------------------------------
  // Occupied-slot count (setUsed)

  /** The number of Occupied slots, counted first to last as `setUsed` does. */
  function CountOccupied(slots: seq<Slot>): (c: nat)
    ensures c <= |slots|
    decreases |slots|
  {
    if slots == [] then 0
    else CountOccupied(slots[..|slots| - 1]) + (if slots[|slots| - 1].Occupied? then 1 else 0)
  }

  /** Overwriting one slot changes the count by what left and what arrived. */
  lemma {:induction false} CountOccupiedUpdate(slots: seq<Slot>, j: nat, s: Slot)
    requires j < |slots|
    ensures CountOccupied(slots[j := s]) + (if slots[j].Occupied? then 1 else 0)
         == CountOccupied(slots) + (if s.Occupied? then 1 else 0)
    decreases |slots|
  {
    var n := |slots|;
    var after := slots[j := s];
    assert after[..n - 1] == if j < n - 1 then slots[..n - 1][j := s] else slots[..n - 1];
    if j < n - 1 {
      CountOccupiedUpdate(slots[..n - 1], j, s);
    }
  }

  /** The count reaches the size exactly when every slot is Occupied. */
  lemma {:induction false} CountOccupiedFull(slots: seq<Slot>)
    ensures CountOccupied(slots) == |slots| <==> forall j :: 0 <= j < |slots| ==> slots[j].Occupied?
    decreases |slots|
  {
    if slots != [] {
      var n := |slots|;
      CountOccupiedFull(slots[..n - 1]);
      assert forall j :: 0 <= j < n - 1 ==> slots[..n - 1][j] == slots[j];
    }
  }

  /** A table with no Occupied slot counts zero. */
  lemma {:induction false} NoneOccupied(slots: seq<Slot>)
    requires forall j :: 0 <= j < |slots| ==> !slots[j].Occupied?
    ensures CountOccupied(slots) == 0
    decreases |slots|
  {
    if slots != [] {
      NoneOccupied(slots[..|slots| - 1]);
    }
  }

  // ---------------------------------------------------------------------------
  // Reachability: every stored key can be found from its home slot

  /** The key in slot `j`, if any, is reached from its home slot without crossing an Empty slot. */
  ghost predicate Reachable(slots: seq<Slot>, j: nat)
    requires j < |slots|
  {
    slots[j].Occupied? ==>
      var h := Home(slots[j].key, |slots|);
      ClearBetween(slots, h, 0, OffsetOf(h, j, |slots|))
  }

  /** The invariant every table operation keeps: each stored key is reachable. */
  ghost predicate ChainsIntact(slots: seq<Slot>) {
    0 < |slots| && forall j :: 0 <= j < |slots| ==> Reachable(slots, j)
  }

  lemma EmptyChainsIntact(n: nat)
    requires n > 0
    ensures ChainsIntact(seq(n, _ => Empty))
  {
  }

  /** Under the invariant, a key stored anywhere is found by the lookup. */
  lemma StoredIsFound(slots: seq<Slot>, j: nat)
    requires ChainsIntact(slots) && j < |slots| && slots[j].Occupied?
    ensures Lookup(slots, slots[j].key).Some?
  {
    var key := slots[j].key;
    var h := Home(key, |slots|);
    assert Reachable(slots, j);
    LookupFromReaches(slots, key, h, 0, OffsetOf(h, j, |slots|));
  }

  /** Under the invariant, a key the lookup misses is stored nowhere. */
  lemma MissedIsAbsent(slots: seq<Slot>, key: Key)
    requires ChainsIntact(slots) && Lookup(slots, key).None?
    ensures forall j :: 0 <= j < |slots| ==> slots[j] != Occupied(key)
  {
    forall j | 0 <= j < |slots|
      ensures slots[j] != Occupied(key)
    {
      if slots[j] == Occupied(key) {
        StoredIsFound(slots, j);
      }
    }
  }

  /** Writing a slot that is not Empty keeps the keys in the other slots reachable. */
  lemma ReachableKept(slots: seq<Slot>, j: nat, s: Slot, i: nat)
    requires 0 < |slots| && j < |slots| && i < |slots| && i != j
    requires !s.Empty?
    requires Reachable(slots, i)
    ensures Reachable(slots[j := s], i)
  {
  }

  /** Writing the key at its insert target keeps the invariant. */
  lemma InsertKeepsChains(slots: seq<Slot>, key: Key)
    requires ChainsIntact(slots) && InsertTarget(slots, key).Some?
    ensures ChainsIntact(slots[InsertTarget(slots, key).value := Occupied(key)])
  {
    var n, h, j := |slots|, Home(key, |slots|), InsertTarget(slots, key).value;
    var after := slots[j := Occupied(key)];
    InsertTargetFound(slots, key);
    var m :| 0 <= m < n && InsertTarget(slots, key) == Some(Probe(h, m, n))
             && forall t :: 0 <= t < m ==> !Accepts(slots[Probe(h, t, n)], key);
    forall i | 0 <= i < n
      ensures Reachable(after, i)
    {
      if i == j {
        ProbeOffsetUnique(h, m, n);
        forall t | 0 <= t < m
          ensures !after[Probe(h, t, n)].Empty?
        {
          ProbeOffsetUnique(h, t, n);
        }
      } else {
        ReachableKept(slots, j, Occupied(key), i);
      }
    }
  }

  /** Turning an occupied slot into a tombstone keeps the invariant. */
  lemma TombstoneKeepsChains(slots: seq<Slot>, j: nat)
    requires ChainsIntact(slots) && j < |slots| && slots[j].Occupied?
    ensures ChainsIntact(slots[j := Tombstone])
  {
    var after := slots[j := Tombstone];
    forall i | 0 <= i < |slots|
      ensures Reachable(after, i)
    {
      if i != j {
        ReachableKept(slots, j, Tombstone, i);
      }
    }
  }

  // ---------------------------------------------------------------------------
  // How inserts and deletes affect the lookup of other keys

  /** Deleting one key leaves the lookup of every other key exactly as it was. */
  lemma DeleteKeepsOthers(slots: seq<Slot>, j: nat, other: Key)
    requires 0 < |slots| && j < |slots| && slots[j].Occupied? && slots[j].key != other
    ensures Lookup(slots[j := Tombstone], other) == Lookup(slots, other)
  {
    LookupFromTransparent(slots, other, Home(other, |slots|), 0, j, Tombstone);
  }

  /** Deleting the only copy of a key makes the lookup miss it. */
  lemma DeleteHidesOnlyCopy(slots: seq<Slot>, key: Key, j: nat)
    requires 0 < |slots| && Lookup(slots, key) == Some(j)
    requires forall i :: 0 <= i < |slots| && slots[i] == Occupied(key) ==> i == j
    ensures Lookup(slots[j := Tombstone], key).None?
  {
  }

  /**
   * Deleting the copy the lookup found hides the key exactly when it was the
   * key's only copy: a second copy stays stored and is found.
   */
  lemma DeleteHidesIffOnlyCopy(slots: seq<Slot>, key: Key)
    requires ChainsIntact(slots) && Lookup(slots, key).Some?
    ensures var j := Lookup(slots, key).value;
            Lookup(slots[j := Tombstone], key).None? <==>
            forall i :: 0 <= i < |slots| && slots[i] == Occupied(key) ==> i == j
  {
    var j := Lookup(slots, key).value;
    if forall i :: 0 <= i < |slots| && slots[i] == Occupied(key) ==> i == j {
      DeleteHidesOnlyCopy(slots, key, j);
    } else {
      var i :| 0 <= i < |slots| && slots[i] == Occupied(key) && i != j;
      TombstoneKeepsChains(slots, j);
      StoredIsFound(slots[j := Tombstone], i);
    }
  }

  /** Under the invariant, writing one key at its insert target leaves the lookup of every other key as it was. */
  lemma InsertKeepsOthers(slots: seq<Slot>, key: Key, other: Key)
    requires ChainsIntact(slots) && InsertTarget(slots, key).Some? && other != key
    ensures Lookup(slots[InsertTarget(slots, key).value := Occupied(key)], other) == Lookup(slots, other)
  {
    var j := InsertTarget(slots, key).value;
    if !slots[j].Empty? {
      LookupFromTransparent(slots, other, Home(other, |slots|), 0, j, Occupied(key));
    } else if Lookup(slots, other).None? {
      MissedIsAbsent(slots, other);
    } else {
      FillingEmptyKeepsFound(slots, j, key, other);
    }
  }

  /** Filling an Empty slot does not move where the walk finds a key it already found. */
  lemma FillingEmptyKeepsFound(slots: seq<Slot>, j: nat, key: Key, other: Key)
    requires 0 < |slots| && j < |slots| && slots[j].Empty? && other != key && Lookup(slots, other).Some?
    ensures Lookup(slots[j := Occupied(key)], other) == Lookup(slots, other)
  {
    var n, h := |slots|, Home(other, |slots|);
    var after := slots[j := Occupied(key)];
    LookupFromFound(slots, other, h, 0);
    var m :| 0 <= m < n && LookupFrom(slots, other, h, 0) == Some(Probe(h, m, n))
             && PassesBetween(slots, other, h, 0, m);
    assert PassesBetween(after, other, h, 0, m);
    LookupFromSkips(after, other, h, 0, m);
    LookupFromSkips(slots, other, h, 0, m);
  }

  // ---------------------------------------------------------------------------
  // Duplicates: a key lives in at most one slot only while no tombstone exists

  ghost predicate NoTombstones(slots: seq<Slot>) {
    forall j :: 0 <= j < |slots| ==> !slots[j].Tombstone?
  }

  /** No key is stored in two slots. */
  ghost predicate Unique(slots: seq<Slot>) {
    forall a, b :: 0 <= a < |slots| && 0 <= b < |slots| && slots[a].Occupied? && slots[a] == slots[b] ==> a == b
  }

  /** On a table without tombstones, an insert writes over the key's existing copy if it has one. */
  lemma InsertKeepsUnique(slots: seq<Slot>, key: Key)
    requires ChainsIntact(slots) && Unique(slots) && NoTombstones(slots)
    requires InsertTarget(slots, key).Some?
    ensures Unique(slots[InsertTarget(slots, key).value := Occupied(key)])
  {
    var n, h, j := |slots|, Home(key, |slots|), InsertTarget(slots, key).value;
    InsertTargetFound(slots, key);
    var m :| 0 <= m < n && InsertTarget(slots, key) == Some(Probe(h, m, n))
             && forall t :: 0 <= t < m ==> !Accepts(slots[Probe(h, t, n)], key);
    forall i | 0 <= i < n && slots[i] == Occupied(key)
      ensures i == j
    {
      assert Reachable(slots, i);
      var mi := OffsetOf(h, i, n);
      if m < mi {
        assert !slots[Probe(h, m, n)].Empty?;
      }
    }
  }

  /**
   * The behaviour that forbids an unconditional uniqueness invariant: with a
   * tombstone in the key's home slot and the key stored further on, an insert
   * writes a second copy into the home slot.
   */
  lemma TombstoneAtHomeDuplicates(slots: seq<Slot>, key: Key, j: nat)
    requires 0 < |slots| && j < |slots| && slots[Home(key, |slots|)].Tombstone? && slots[j] == Occupied(key)
    ensures InsertTarget(slots, key) == Some(Home(key, |slots|))
    ensures !Unique(slots[Home(key, |slots|) := Occupied(key)])
    ensures CountOccupied(slots[Home(key, |slots|) := Occupied(key)]) == CountOccupied(slots) + 1
  {
    var h := Home(key, |slots|);
    var after := slots[h := Occupied(key)];
    assert after[h] == after[j] && h != j;
    CountOccupiedUpdate(slots, h, Occupied(key));
  }

  /**
   * The same through the probe loop: when the home slot holds another key and
   * the first acceptable probe is a tombstone, an insert writes a second copy
   * there although the key is stored further on.
   */
  lemma TombstoneOnProbeDuplicates(slots: seq<Slot>, key: Key, m: nat, j: nat)
    requires 0 < m < |slots| && j < |slots| && slots[j] == Occupied(key)
    requires forall t :: 0 <= t < m ==> !Accepts(slots[Probe(Home(key, |slots|), t, |slots|)], key)
    requires slots[Probe(Home(key, |slots|), m, |slots|)].Tombstone?
    ensures InsertTarget(slots, key) == Some(Probe(Home(key, |slots|), m, |slots|))
    ensures !Unique(slots[Probe(Home(key, |slots|), m, |slots|) := Occupied(key)])
    ensures CountOccupied(slots[Probe(Home(key, |slots|), m, |slots|) := Occupied(key)]) == CountOccupied(slots) + 1
  {
    var n, h := |slots|, Home(key, |slots|);
    var p := Probe(h, m, n);
    ProbeNoWrap(h, 0, n);
    FirstAcceptingSkips(slots, key, h, 1, m);
    var after := slots[p := Occupied(key)];
    assert after[p] == after[j] && p != j;
    CountOccupiedUpdate(slots, p, Occupied(key));
  }

  /** On a table without tombstones, adding a key that is already found changes nothing. */
  lemma ReAddIsNoOp(slots: seq<Slot>, key: Key)
    requires 0 < |slots| && NoTombstones(slots) && Lookup(slots, key).Some?
    ensures InsertTarget(slots, key) == Lookup(slots, key)
    ensures slots[Lookup(slots, key).value := Occupied(key)] == slots
  {
    var n, h := |slots|, Home(key, |slots|);
    LookupFromFound(slots, key, h, 0);
    var m :| 0 <= m < n && LookupFrom(slots, key, h, 0) == Some(Probe(h, m, n))
             && PassesBetween(slots, key, h, 0, m);
    assert forall t :: 0 <= t < m ==> !Accepts(slots[Probe(h, t, n)], key);
    ProbeNoWrap(h, 0, n);
    if m == 0 {
      assert Accepts(slots[h], key);
    } else {
      assert !Accepts(slots[h], key);
      FirstAcceptingSkips(slots, key, h, 1, m);
    }
  }

  lemma {:induction false} FirstAcceptingSkips(slots: seq<Slot>, key: Key, h: nat, i: nat, m: nat)
    requires 0 < |slots| && h < |slots| && i <= m < |slots|
    requires forall t :: i <= t < m ==> !Accepts(slots[Probe(h, t, |slots|)], key)
    requires Accepts(slots[Probe(h, m, |slots|)], key)
    ensures FirstAccepting(slots, key, h, i) == Some(Probe(h, m, |slots|))
    decreases m - i
  {
    if i < m {
      FirstAcceptingSkips(slots, key, h, i + 1, m);
    }
  }

  /**
   * Adding a key twice in a row: the second add stops at the slot the first
   * one wrote, which already holds the key, so it writes nothing new. This
   * holds whatever tombstones the table has.
   */
  lemma AddTwiceIsNoOp(slots: seq<Slot>, key: Key)
    requires 0 < |slots| && InsertTarget(slots, key).Some?
    ensures var j := InsertTarget(slots, key).value;
            var after := slots[j := Occupied(key)];
            InsertTarget(after, key) == Some(j) && after[j := Occupied(key)] == after
  {
    var n, h := |slots|, Home(key, |slots|);
    var j := InsertTarget(slots, key).value;
    var after := slots[j := Occupied(key)];
    InsertTargetFound(slots, key);
    var m :| 0 <= m < n && InsertTarget(slots, key) == Some(Probe(h, m, n))
             && forall t :: 0 <= t < m ==> !Accepts(slots[Probe(h, t, n)], key);
    ProbeOffsetUnique(h, m, n);
    forall t | 0 <= t < m
      ensures !Accepts(after[Probe(h, t, n)], key)
    {
      ProbeOffsetUnique(h, t, n);
    }
    ProbeNoWrap(h, 0, n);
    if m > 0 {
      assert !Accepts(after[h], key);
      FirstAcceptingSkips(after, key, h, 1, m);
    }
  }

  // ---------------------------------------------------------------------------
  // What one insert or one delete does, as both tables use it

  /**
   * The outcome of writing `key` at its insert target: FULL exactly when every
   * slot holds another key; otherwise the key is found where it was written,
   * no other key's lookup changes, the invariant holds, a new key raises the
   * occupied count by one, on a table without tombstones re-inserting a
   * found key changes nothing, and a second insert right after stops at the
   * same slot, which already holds the key.
   */
  lemma InsertFacts(slots: seq<Slot>, key: Key)
    requires ChainsIntact(slots)
    ensures InsertTarget(slots, key).None? <==>
            forall j :: 0 <= j < |slots| ==> slots[j].Occupied? && slots[j].key != key
    ensures InsertTarget(slots, key).None? ==> CountOccupied(slots) == |slots| && Lookup(slots, key).None?
    ensures InsertTarget(slots, key).Some? ==>
      var after := slots[InsertTarget(slots, key).value := Occupied(key)];
      && ChainsIntact(after)
      && Lookup(after, key) == InsertTarget(slots, key)
      && (forall other: Key :: other != key ==> Lookup(after, other) == Lookup(slots, other))
      && (Lookup(slots, key).None? ==> CountOccupied(after) == CountOccupied(slots) + 1)
      && (NoTombstones(slots) && Lookup(slots, key).Some? ==> after == slots)
      && InsertTarget(after, key) == InsertTarget(slots, key)
  {
    InsertTargetNoneIff(slots, key);
    if InsertTarget(slots, key).None? {
      CountOccupiedFull(slots);
    } else {
      var j := InsertTarget(slots, key).value;
      var after := slots[j := Occupied(key)];
      InsertKeepsChains(slots, key);
      InsertThenLookup(slots, key);
      forall other: Key | other != key
        ensures Lookup(after, other) == Lookup(slots, other)
      {
        InsertKeepsOthers(slots, key, other);
      }
      if Lookup(slots, key).None? {
        MissedIsAbsent(slots, key);
        CountOccupiedUpdate(slots, j, Occupied(key));
      }
      if NoTombstones(slots) && Lookup(slots, key).Some? {
        ReAddIsNoOp(slots, key);
      }
      AddTwiceIsNoOp(slots, key);
    }
  }

  /**
   * The outcome of turning the slot the lookup found into a tombstone: the
   * invariant holds, the occupied count drops by one, no other key's lookup
   * changes, and the key is no longer found exactly when that was its only copy.
   */
  lemma DeleteFacts(slots: seq<Slot>, key: Key)
    requires ChainsIntact(slots) && Lookup(slots, key).Some?
    ensures var after := slots[Lookup(slots, key).value := Tombstone];
      && ChainsIntact(after)
      && CountOccupied(after) + 1 == CountOccupied(slots)
      && (forall other: Key :: other != key ==> Lookup(after, other) == Lookup(slots, other))
      && (Lookup(after, key).None? <==>
          forall i :: 0 <= i < |slots| && slots[i] == Occupied(key) ==> i == Lookup(slots, key).value)
  {
    var j := Lookup(slots, key).value;
    TombstoneKeepsChains(slots, j);
    CountOccupiedUpdate(slots, j, Tombstone);
    forall other: Key | other != key
      ensures Lookup(slots[j := Tombstone], other) == Lookup(slots, other)
    {
      DeleteKeepsOthers(slots, j, other);
    }
    DeleteHidesIffOnlyCopy(slots, key);
  }
}
