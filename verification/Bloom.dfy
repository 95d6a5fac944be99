/** The Bloom filter.  All results hold for every pair of hash functions. */
module Bloom {
  import opened Bytes

  /** The two base hashes of a key. */
  type Hash = Bytes -> (nat, nat)

  // ----- Bits -----------------------------------------------------------------------

  function Pow2(w: nat): (p: nat)
    ensures p > 0
  {
    if w == 0 then 1 else 2 * Pow2(w - 1)
  }

  /** Bit `k` of `b`: `b & 1 << k != 0`. */
  predicate Bit(b: nat, k: nat) {
    if k == 0 then b % 2 == 1 else Bit(b / 2, k - 1)
  }

  /** `b | 1 << k`. */
  function SetBit(b: nat, k: nat): nat {
    if k == 0 then b / 2 * 2 + 1 else SetBit(b / 2, k - 1) * 2 + b % 2
  }

  lemma {:induction false} BitAfterSet(b: nat, k: nat, j: nat)
    ensures Bit(SetBit(b, k), j) <==> j == k || Bit(b, j)
  {
    if k > 0 && j > 0 {
      BitAfterSet(b / 2, k - 1, j - 1);
    }
  }

  lemma {:induction false} SetBitFits(b: nat, k: nat, w: nat)
    requires b < Pow2(w) && k < w
    ensures SetBit(b, k) < Pow2(w)
  {
    if k > 0 {
      SetBitFits(b / 2, k - 1, w - 1);
    }
  }

  lemma {:induction false} SetBitByte(b: byte, k: nat)
    requires k < 8
    ensures SetBit(b, k) < 256
  {
    assert Pow2(8) == 256 by {
      assert Pow2(4) == 16;
    }
    SetBitFits(b, k, 8);
  }

  /** Whether bit `pos` of a bit array stored in bytes is set. */
  predicate IsSet(bits: Bytes, pos: nat)
    requires pos / 8 < |bits|
  {
    Bit(bits[pos / 8], pos % 8)
  }

  /** The position of the `i`-th derived hash, in 64-bit arithmetic. */
  function Position(hash: Hash, key: Bytes, i: nat, numBits: nat): (pos: nat)
    requires numBits > 0
    ensures pos < numBits
  {
    (hash(key).0 + hash(key).1 * i) % TWO64 % numBits
  }

  ghost predicate Contains(bits: Bytes, numBits: nat, numHashes: nat, hash: Hash, key: Bytes)
    requires 0 < numBits && numBits == 8 * |bits|
  {
    forall i :: 0 <= i < numHashes ==> IsSet(bits, Position(hash, key, i, numBits))
  }

  /** Positions and bits by example: two base hashes combined linearly, bits from the lowest up. */
  lemma {:induction false} PositionsAndBits(hash: Hash, key: Bytes)
    requires hash(key) == (5, 3)
    ensures Position(hash, key, 0, 16) == 5 && Position(hash, key, 2, 16) == 11 && Position(hash, key, 4, 16) == 1
    ensures SetBit(0, 3) == 8 && IsSet([0, 8], 11) && !IsSet([0, 8], 12)
  {
    assert SetBit(0, 2) == 4;
    assert Bit(4, 2) && Bit(8, 3);
    assert !Bit(2, 2) && !Bit(4, 3) && !Bit(8, 4);
  }

  // ----- Serialized form ------------------------------------------------------------

  const HEADER_SIZE: nat := 8

  function Encode(bits: Bytes, numBits: nat, numHashes: nat): (data: Bytes)
    ensures |data| == HEADER_SIZE + |bits|
  {
    LittleEndian(numBits, 4) + LittleEndian(numHashes, 4) + bits
  }

  function Decode(data: Bytes): (Bytes, nat, nat)
    requires |data| >= HEADER_SIZE
  {
    (data[HEADER_SIZE..], FromLittleEndian(data[..4]), FromLittleEndian(data[4..8]))
  }

  lemma {:induction false} RoundTrip(bits: Bytes, numBits: nat, numHashes: nat)
    ensures Decode(Encode(bits, numBits, numHashes)) == (bits, numBits, numHashes) <==>
              numBits < TWO32 && numHashes < TWO32
  {
    hide LittleEndian;
    hide FromLittleEndian;
    var data := Encode(bits, numBits, numHashes);
    assert data[..4] == LittleEndian(numBits, 4);
    assert data[4..8] == LittleEndian(numHashes, 4);
    assert data[HEADER_SIZE..] == bits;
    Pow256Values();
    LittleEndianRoundTrip(numBits, 4);
    LittleEndianRoundTrip(numHashes, 4);
  }

  // ----- The filter -----------------------------------------------------------------

  class BloomFilter {
    const bits: array<byte>
    const numBits: nat
    const numHashes: nat

    ghost predicate Valid() {
      0 < numBits < TWO32 && numBits == 8 * bits.Length && numHashes < TWO32
    }

    /** An empty filter of the size the expected key count calls for. */
    constructor (numBits: nat, numHashes: nat)
      requires 0 < numBits < TWO32 && numBits % 8 == 0 && numHashes < TWO32
      ensures Valid() && fresh(bits) && this.numBits == numBits && this.numHashes == numHashes
    {
      this.numBits, this.numHashes := numBits, numHashes;
      this.bits := new byte[numBits / 8](_ => 0);
    }

    /** Rebuild a filter from its serialized form. */
    constructor FromData(data: Bytes)
      requires |data| >= HEADER_SIZE
      ensures fresh(bits) && (bits[..], numBits, numHashes) == Decode(data)
    {
      var (bs, n, h) := Decode(data);
      this.numBits, this.numHashes := n, h;
      this.bits := new byte[|bs|](i requires 0 <= i < |bs| => bs[i]);
      new;
      assert bits[..] == bs;
    }

    /** Add sets exactly the positions of `key`. */
    method Add(hash: Hash, key: Bytes)
      requires Valid()
      modifies bits
      ensures forall pos :: 0 <= pos < numBits ==>
                (IsSet(bits[..], pos) <==>
                   old(IsSet(bits[..], pos)) || exists i :: 0 <= i < numHashes && Position(hash, key, i, numBits) == pos)
    {
      for i := 0 to numHashes
        invariant forall pos :: 0 <= pos < numBits ==>
                    (IsSet(bits[..], pos) <==>
                       old(IsSet(bits[..], pos)) || exists j :: 0 <= j < i && Position(hash, key, j, numBits) == pos)
      {
        var pos := Position(hash, key, i, numBits);
        SetPosition(pos);
      }
    }

    method SetPosition(pos: nat)
      requires Valid() && pos < numBits
      modifies bits
      ensures forall p :: 0 <= p < numBits ==> (IsSet(bits[..], p) <==> old(IsSet(bits[..], p)) || p == pos)
    {
      hide Bit;
      hide SetBit;
      SetBitByte(bits[pos / 8], pos % 8);
      bits[pos / 8] := SetBit(bits[pos / 8], pos % 8);
      forall p | 0 <= p < numBits ensures IsSet(bits[..], p) <==> old(IsSet(bits[..], p)) || p == pos {
        BitAfterSet(old(bits[pos / 8]), pos % 8, p % 8);
      }
    }

    method MayContain(hash: Hash, key: Bytes) returns (b: bool)
      requires Valid()
      ensures b <==> Contains(bits[..], numBits, numHashes, hash, key)
    {
      for i := 0 to numHashes
        invariant forall j :: 0 <= j < i ==> IsSet(bits[..], Position(hash, key, j, numBits))
      {
        var pos := Position(hash, key, i, numBits);
        if !Bit(bits[pos / 8], pos % 8) {
          assert !IsSet(bits[..], Position(hash, key, i, numBits));
          return false;
        }
      }
      return true;
    }

    /** Adding every key of a table: none of them is filtered out afterwards. */
    method AddAll(hash: Hash, keys: seq<Bytes>)
      requires Valid()
      modifies bits
      ensures forall k :: k in keys ==> Contains(bits[..], numBits, numHashes, hash, k)
    {
      for n := 0 to |keys|
        invariant forall k :: k in keys[..n] ==> Contains(bits[..], numBits, numHashes, hash, k)
      {
        ghost var was := bits[..];
        Add(hash, keys[n]);
        forall k | k in keys[..n + 1] ensures Contains(bits[..], numBits, numHashes, hash, k) {
          if k in keys[..n] {
            assert Contains(was, numBits, numHashes, hash, k);
          } else {
            assert k == keys[n];
          }
        }
      }
      assert keys[..|keys|] == keys;
    }
  }
}
