/**
 * The 64-bit FNV-1a hash (section 2 of the IETF draft draft-eastlake-fnv,
 * with the 64-bit prime and offset basis of its sections 2.1 and 2.2) and
 * the home slot it gives a key in a table of `size` slots.
 */
module Fnv {

  type Byte = bv8

  /** A C string: the bytes before the terminating NUL, so none of them is zero. */
  type Key = s: seq<Byte> | 0 !in s

  /** 14695981039346656037 */
  const OffsetBasis: bv64 := 0xcbf29ce484222325
  /** 1099511628211 */
  const Prime: bv64 := 0x100000001b3

  /** One round: XOR in the byte, then multiply modulo 2^64 (bv64 wraps). */
  function Step(hash: bv64, b: Byte): bv64 {
    (hash ^ (b as bv64)) * Prime
  }

  /** The hash of `s`, defined on its last byte as the C loop extends it. */
  function Fnv1a(s: seq<Byte>): bv64
    decreases |s|
  {
    if s == [] then OffsetBasis else Step(Fnv1a(s[..|s| - 1]), s[|s| - 1])
  }

  /** The draft's own formulation: start from `hash` and fold the octets in, first to last. */
  function Fold(hash: bv64, s: seq<Byte>): bv64
    decreases |s|
  {
    if s == [] then hash else Fold(Step(hash, s[0]), s[1..])
  }

  lemma {:induction false} FoldSnoc(hash: bv64, s: seq<Byte>, b: Byte)
    ensures Fold(hash, s + [b]) == Step(Fold(hash, s), b)
    decreases |s|
  {
    if s != [] {
      assert (s + [b])[1..] == s[1..] + [b];
      FoldSnoc(Step(hash, s[0]), s[1..], b);
    }
  }

  /** The last-byte definition and the draft's fold agree on every byte string. */
  lemma {:induction false} Fnv1aIsFold(s: seq<Byte>)
    ensures Fnv1a(s) == Fold(OffsetBasis, s)
    decreases |s|
  {
    if s != [] {
      var init, last := s[..|s| - 1], s[|s| - 1];
      assert s == init + [last];
      Fnv1aIsFold(init);
      FoldSnoc(OffsetBasis, init, last);
    }
  }

  /** Hashing a concatenation continues from the hash of the prefix. */
  lemma {:induction false} Fnv1aAppend(a: seq<Byte>, b: seq<Byte>)
    ensures Fnv1a(a + b) == Fold(Fnv1a(a), b)
    decreases |b|
  {
    if b == [] {
      assert a + b == a;
    } else {
      var init, last := b[..|b| - 1], b[|b| - 1];
      assert (a + b)[..|a + b| - 1] == a + init;
      assert b == init + [last];
      Fnv1aAppend(a, init);
      FoldSnoc(Fnv1a(a), init, last);
    }
  }

  lemma Fnv1aSnoc(s: seq<Byte>, b: Byte)
    ensures Fnv1a(s + [b]) == Step(Fnv1a(s), b)
  {
    assert (s + [b])[..|s|] == s;
  }

  /** Published FNV-1a 64 values: the empty string and "a". */
  lemma Fnv1aVectorA()
    ensures Fnv1a([]) == 0xcbf29ce484222325
    ensures Fnv1a([0x61]) == 0xaf63dc4c8601ec8c
  {
    Fnv1aSnoc([], 0x61);
    assert [] + [0x61 as Byte] == [0x61];
  }

  lemma Fnv1aVectorFoo()
    ensures Fnv1a([0x66, 0x6f, 0x6f]) == 0xdcb27518fed9d577
  {
    Fnv1aSnoc([], 0x66);
    assert [] + [0x66 as Byte] == [0x66];
    Fnv1aSnoc([0x66], 0x6f);
    assert [0x66 as Byte] + [0x6f] == [0x66, 0x6f];
    Fnv1aSnoc([0x66, 0x6f], 0x6f);
    assert [0x66 as Byte, 0x6f] + [0x6f] == [0x66, 0x6f, 0x6f];
  }

  /** The published FNV-1a 64 value of "foobar". */
  lemma Fnv1aVectorFoobar()
    ensures Fnv1a([0x66, 0x6f, 0x6f, 0x62, 0x61, 0x72]) == 0x85944171f73967e8
  {
    Fnv1aVectorFoo();
    Fnv1aSnoc([0x66, 0x6f, 0x6f], 0x62);
    assert [0x66 as Byte, 0x6f, 0x6f] + [0x62] == [0x66, 0x6f, 0x6f, 0x62];
    Fnv1aSnoc([0x66, 0x6f, 0x6f, 0x62], 0x61);
    assert [0x66 as Byte, 0x6f, 0x6f, 0x62] + [0x61] == [0x66, 0x6f, 0x6f, 0x62, 0x61];
    Fnv1aSnoc([0x66, 0x6f, 0x6f, 0x62, 0x61], 0x72);
    assert [0x66 as Byte, 0x6f, 0x6f, 0x62, 0x61] + [0x72] == [0x66, 0x6f, 0x6f, 0x62, 0x61, 0x72];
  }

  /** The home slot: the hash reduced modulo the table size. */
  function Home(key: Key, size: nat): (h: nat)
    requires size > 0
    ensures h < size
  {
    (Fnv1a(key) as int) % size
  }

  /** The hashing loop of `mapMakeKey` / `setMakeKey`. */
  method MakeKey(key: Key, size: nat) returns (index: nat)
    requires size > 0
    ensures index == Home(key, size)
  {
    var hash := OffsetBasis;
    for i := 0 to |key|
      invariant hash == Fnv1a(key[..i])
    {
      assert key[..i + 1][..i] == key[..i];
      hash := Step(hash, key[i]);
    }
    assert key[..|key|] == key;
    index := (hash as int) % size;
  }
}
