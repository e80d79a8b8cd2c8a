/** The 512-bit entity Bloom filter: four hashed bits per entity, never a false negative. */
module Bloom {
  import opened Core
  import opened Bits

  const SEEDS: seq<nat> := [0x517cc1b727220a95, 0x6e3a39e7b401e62a, 0x9b6b79f324e93081, 0xc6a4a7935bd1e995]

  /** The bit for one entity and one seed, computed with wrapping 64-bit arithmetic. */
  function Hash(e: EntityId, seed: nat): (r: nat)
    requires e.InRange()
    ensures r < 512
  {
    var h0 := (seed + 0x9e3779b97f4a7c15) % U64;
    var h1 := Xor(h0, Or(e.shard * U32, e.slot)) * 0xbf58476d1ce4e5b9 % U64;
    var h2 := Xor(h1, Shr(h1, 30));
    var h3 := Xor(h2, e.generation * 0x94d049bb133111eb % U64) * 0xbf58476d1ce4e5b9 % U64;
    Xor(h3, Shr(h3, 32)) % 512
  }

  /** The bits an entity sets. */
  function Positions(e: EntityId): set<nat>
    requires e.InRange()
  {
    set i | 0 <= i < |SEEDS| :: Hash(e, SEEDS[i])
  }

  predicate TestBit(x: nat, k: nat) {
    Shr(x, k) % 2 == 1
  }

  lemma {:induction false} OrOneBit(x: nat, k: nat, j: nat)
    ensures TestBit(Or(x, Shl(1, k)), j) <==> TestBit(x, j) || j == k
    decreases k
  {
    var b := Shl(1, k);
    if k == 0 {
      OrOne(x);
      if j > 0 {
        assert Or(x, 1) / 2 == x / 2;
      }
    } else {
      OrDouble(x, Shl(1, k - 1));
      var r := Or(x, b);
      assert r % 2 == x % 2 && r / 2 == Or(x / 2, Shl(1, k - 1));
      if j > 0 {
        OrOneBit(x / 2, k - 1, j - 1);
        assert TestBit(r, j) == TestBit(r / 2, j - 1) && TestBit(x, j) == TestBit(x / 2, j - 1);
      }
    }
  }

  lemma {:induction false} OrOne(x: nat)
    ensures Or(x, 1) % 2 == 1 && Or(x, 1) / 2 == x / 2
  {
    assert Or(x / 2, 0) == x / 2;
  }

  lemma {:induction false} AndOneBit(x: nat, k: nat)
    ensures And(x, Shl(1, k)) != 0 <==> TestBit(x, k)
    decreases k
  {
    if k == 0 {
      assert And(x / 2, 0) == 0;
    } else {
      AndOneBit(x / 2, k - 1);
      AndDouble(x, Shl(1, k - 1));
      assert TestBit(x, k) == TestBit(x / 2, k - 1);
    }
  }

  lemma {:induction false} AndDouble(x: nat, y: nat)
    ensures And(x, 2 * y) == 2 * And(x / 2, y)
  {
  }

  lemma {:induction false} OrByte(x: nat, y: nat, n: nat)
    requires Fits(x, n) && Fits(y, n)
    ensures Fits(Or(x, y), n)
  {
    if n > 0 {
      OrHalves(x, y);
      OrByte(x / 2, y / 2, n - 1);
    }
  }

  lemma {:induction false} OrHalves(x: nat, y: nat)
    ensures Or(x, y) / 2 == Or(x / 2, y / 2)
  {
    if x == 0 {
      assert Or(0, y / 2) == y / 2;
    } else if y == 0 {
      assert Or(x / 2, 0) == x / 2;
    }
  }

  lemma {:induction false} OneBitFits(k: nat, n: nat)
    requires k < n
    ensures Fits(Shl(1, k), n)
  {
    if k > 0 {
      OneBitFits(k - 1, n - 1);
      assert Shl(1, k) / 2 == Shl(1, k - 1);
    } else {
      ShrZero(n - 1);
    }
  }

  predicate BitOf(b: byte, k: nat) {
    TestBit(b as nat, k)
  }

  /** A byte with one more bit set. */
  function WithBit(b: byte, k: nat): (r: byte)
    requires k < 8
    ensures forall j: nat :: BitOf(r, j) <==> BitOf(b, j) || j == k
  {
    Powers();
    FitsIsBound(b as nat, 8);
    OneBitFits(k, 8);
    OrByte(b as nat, Shl(1, k), 8);
    FitsIsBound(Or(b as nat, Shl(1, k)), 8);
    var r := Or(b as nat, Shl(1, k)) as byte;
    assert forall j: nat :: BitOf(r, j) <==> BitOf(b, j) || j == k by {
      forall j: nat
        ensures BitOf(r, j) <==> BitOf(b, j) || j == k
      {
        OrOneBit(b as nat, k, j);
      }
    }
    r
  }

  class EntityBloomFilter {
    const bits: array<byte>

    ghost predicate Valid() {
      bits.Length == 64
    }

    /** The positions of the set bits. */
    ghost function Members(): set<nat>
      reads bits
      requires Valid()
    {
      set i | 0 <= i < 512 && BitOf(bits[i / 8], i % 8)
    }

    constructor ()
      ensures Valid() && fresh(bits) && Members() == {}
    {
      bits := new byte[64](_ => 0);
      new;
      forall i | 0 <= i < 512
        ensures !BitOf(bits[i / 8], i % 8)
      {
        ShrZero(i % 8);
      }
    }

    method Insert(e: EntityId)
      requires Valid() && e.InRange()
      modifies bits
      ensures Members() == old(Members()) + Positions(e)
    {
      hide Hash, BitOf;
      for s := 0 to |SEEDS|
        invariant Members() == old(Members()) + set i | 0 <= i < s :: Hash(e, SEEDS[i])
      {
        var at := Hash(e, SEEDS[s]);
        ghost var before := Members();
        SetBit(at);
        assert (set i | 0 <= i < s + 1 :: Hash(e, SEEDS[i])) == (set i | 0 <= i < s :: Hash(e, SEEDS[i])) + {at};
      }
    }

    method SetBit(at: nat)
      requires Valid() && at < 512
      modifies bits
      ensures Members() == old(Members()) + {at}
    {
      hide BitOf;
      bits[at / 8] := WithBit(bits[at / 8], at % 8);
      assert forall i :: 0 <= i < 512 && i / 8 != at / 8 ==> bits[i / 8] == old(bits[i / 8]);
    }

    /** True exactly when all four bits of the entity are set. */
    method MayContain(e: EntityId) returns (r: bool)
      requires Valid() && e.InRange()
      ensures r <==> Positions(e) <= Members()
    {
      hide Hash, TestBit, And;
      for s := 0 to |SEEDS|
        invariant forall i :: 0 <= i < s ==> Hash(e, SEEDS[i]) in Members()
      {
        var at := Hash(e, SEEDS[s]);
        AndOneBit(bits[at / 8] as nat, at % 8);
        if And(bits[at / 8] as nat, Shl(1, at % 8)) == 0 {
          assert at in Positions(e) && at !in Members();
          return false;
        }
      }
      r := true;
    }
  }
}
