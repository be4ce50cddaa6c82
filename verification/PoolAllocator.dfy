/** `util::PoolAllocator`: a bitmap allocator over 32-bit words. A set bit is a free slot. */
module PoolAllocators {
  import opened Wrappers

  // ---------------------------------------------------------------- single words

  predicate BitAt(w: bv32, j: bv5)
  {
    (w >> j) & 1 == 1
  }

  lemma SetBitAt(w: bv32, j: bv5, k: bv5)
    ensures BitAt(WithBit(w, j), k) <==> k == j || BitAt(w, k)
  {
  }

  lemma ClearBitAt(w: bv32, j: bv5, k: bv5)
    ensures BitAt(WithoutBit(w, j), k) <==> k != j && BitAt(w, k)
  {
  }

  lemma AllOrNothing(k: bv5)
    ensures BitAt(0xFFFF_FFFF, k) && !BitAt(0, k)
  {
  }

  lemma OnlyZeroHasNoBit(w: bv32)
    requires forall k :: !BitAt(w, k)
    ensures w == 0
  {
    assert !BitAt(w, 0) && !BitAt(w, 1) && !BitAt(w, 2) && !BitAt(w, 3);
    assert !BitAt(w, 4) && !BitAt(w, 5) && !BitAt(w, 6) && !BitAt(w, 7);
    assert !BitAt(w, 8) && !BitAt(w, 9) && !BitAt(w, 10) && !BitAt(w, 11);
    assert !BitAt(w, 12) && !BitAt(w, 13) && !BitAt(w, 14) && !BitAt(w, 15);
    assert !BitAt(w, 16) && !BitAt(w, 17) && !BitAt(w, 18) && !BitAt(w, 19);
    assert !BitAt(w, 20) && !BitAt(w, 21) && !BitAt(w, 22) && !BitAt(w, 23);
    assert !BitAt(w, 24) && !BitAt(w, 25) && !BitAt(w, 26) && !BitAt(w, 27);
    assert !BitAt(w, 28) && !BitAt(w, 29) && !BitAt(w, 30) && !BitAt(w, 31);
  }

  /** A bit number as a shift amount. */
  function Shift(k: nat): bv5
    requires k < 32
  {
    k as bv5
  }

  lemma ShiftValue(k: nat)
    requires k < 32
    ensures Shift(k) as int == k
  {
  }

  lemma ShiftInjective(j: nat, k: nat)
    requires j < 32 && k < 32
    ensures Shift(j) == Shift(k) <==> j == k
  {
    ShiftValue(j);
    ShiftValue(k);
  }

  predicate Bit(w: bv32, j: nat)
    requires j < 32
  {
    BitAt(w, Shift(j))
  }

  function WithBit(w: bv32, b: bv5): bv32
  {
    w | (1 << b)
  }

  function WithoutBit(w: bv32, b: bv5): bv32
  {
    w & !(1 << b)
  }

  /** Setting bit `j` touches no other bit. */
  lemma BitsAfterSet(w: bv32, j: nat)
    requires j < 32
    ensures forall k: nat | k < 32 :: Bit(WithBit(w, Shift(j)), k) <==> k == j || Bit(w, k)
  {
    forall k: nat | k < 32 ensures Bit(WithBit(w, Shift(j)), k) <==> k == j || Bit(w, k) {
      ShiftInjective(j, k);
      SetBitAt(w, Shift(j), Shift(k));
    }
  }

  /** Clearing bit `j` touches no other bit. */
  lemma BitsAfterClear(w: bv32, j: nat)
    requires j < 32
    ensures forall k: nat | k < 32 :: Bit(WithoutBit(w, Shift(j)), k) <==> k != j && Bit(w, k)
  {
    forall k: nat | k < 32 ensures Bit(WithoutBit(w, Shift(j)), k) <==> k != j && Bit(w, k) {
      ShiftInjective(j, k);
      ClearBitAt(w, Shift(j), Shift(k));
    }
  }

  method SetBit(w: bv32, j: nat) returns (v: bv32)
    requires j < 32
    ensures forall k: nat | k < 32 :: Bit(v, k) <==> k == j || Bit(w, k)
  {
    v := WithBit(w, Shift(j));
    BitsAfterSet(w, j);
  }

  method ClearBit(w: bv32, j: nat) returns (v: bv32)
    requires j < 32
    ensures forall k: nat | k < 32 :: Bit(v, k) <==> k != j && Bit(w, k)
  {
    v := WithoutBit(w, Shift(j));
    BitsAfterClear(w, j);
  }

  lemma ZeroIfNoBit(w: bv32)
    requires forall k: nat | k < 32 :: !Bit(w, k)
    ensures w == 0
  {
    forall k: bv5 ensures !BitAt(w, k) {
      BitNumber(k);
      assert !Bit(w, k as int);
    }
    OnlyZeroHasNoBit(w);
  }

  lemma BitNumber(k: bv5)
    ensures 0 <= k as int < 32 && Shift(k as int) == k
  {
  }

  // ---------------------------------------------------------------- the bitmap

  /** All slot numbers of a pool. */
  function Slots(capacity: nat): (s: set<nat>)
    ensures forall p: nat :: p in s <==> p < capacity
    ensures |s| == capacity
  {
    if capacity == 0 then {} else Slots(capacity - 1) + {capacity - 1}
  }

  predicate IsFree(words: seq<bv32>, p: nat)
    requires p < 32 * |words|
  {
    Bit(words[p / 32], p % 32)
  }

  function FreeSlots(words: seq<bv32>, capacity: nat): set<nat>
    requires capacity <= 32 * |words|
  {
    set p: nat | p < capacity && IsFree(words, p)
  }

  /** What one allocation may return: nothing if no slot is free, else the lowest free slot. */
  ghost predicate Allocates(free: set<nat>, slot: Option<nat>)
  {
    match slot
    case None => free == {}
    case Some(p) => p in free && forall q | q in free :: p <= q
  }

  /** `ffs(w) - 1`: the lowest set bit. */
  method LowestBit(w: bv32) returns (bit: nat)
    requires w != 0
    ensures bit < 32 && Bit(w, bit)
    ensures forall k | 0 <= k < bit :: !Bit(w, k)
  {
    bit := 0;
    while bit < 32 && !Bit(w, bit)
      invariant bit <= 32
      invariant forall k | 0 <= k < bit :: !Bit(w, k)
    {
      bit := bit + 1;
    }
    if bit == 32 {
      ZeroIfNoBit(w);
    }
  }

  /** Bits behind the capacity are never set. */
  ghost predicate Padded(words: seq<bv32>, capacity: nat)
  {
    && capacity <= 32 * |words|
    && forall p: nat | capacity <= p < 32 * |words| :: !IsFree(words, p)
  }

  /** What one changed word means for every slot. */
  lemma SlotsAfterClear(was: seq<bv32>, now: seq<bv32>, i: nat, bit: nat)
    requires i < |was| && bit < 32 && |now| == |was|
    requires forall q | 0 <= q < |was| && q != i :: now[q] == was[q]
    requires forall k: nat | k < 32 :: Bit(now[i], k) <==> k != bit && Bit(was[i], k)
    ensures forall p: nat | p < 32 * |was| :: IsFree(now, p) <==> p != 32 * i + bit && IsFree(was, p)
  {
    forall p: nat | p < 32 * |was| ensures IsFree(now, p) <==> p != 32 * i + bit && IsFree(was, p) {
      if p / 32 == i {
        assert Bit(now[i], p % 32) <==> p % 32 != bit && Bit(was[i], p % 32);
      }
    }
  }

  lemma SlotsAfterSet(was: seq<bv32>, now: seq<bv32>, v: nat)
    requires v < 32 * |was| && |now| == |was|
    requires forall q | 0 <= q < |was| && q != v / 32 :: now[q] == was[q]
    requires forall k: nat | k < 32 :: Bit(now[v / 32], k) <==> k == v % 32 || Bit(was[v / 32], k)
    ensures forall p: nat | p < 32 * |was| :: IsFree(now, p) <==> p == v || IsFree(was, p)
  {
    forall p: nat | p < 32 * |was| ensures IsFree(now, p) <==> p == v || IsFree(was, p) {
      if p / 32 == v / 32 {
        assert Bit(now[p / 32], p % 32) <==> p % 32 == v % 32 || Bit(was[p / 32], p % 32);
      }
    }
  }

  lemma SlotTaken(was: seq<bv32>, now: seq<bv32>, slot: nat, capacity: nat)
    requires Padded(was, capacity) && |now| == |was| && slot < 32 * |was|
    requires forall p: nat | p < 32 * |was| :: IsFree(now, p) <==> p != slot && IsFree(was, p)
    requires IsFree(was, slot)
    requires forall p: nat | p < slot :: !IsFree(was, p)
    ensures Padded(now, capacity)
    ensures Allocates(FreeSlots(was, capacity), Some(slot))
    ensures FreeSlots(now, capacity) == FreeSlots(was, capacity) - {slot}
  {
  }

  lemma NoneBelow(was: seq<bv32>, i: nat, bit: nat)
    requires i < |was| && bit < 32
    requires forall p: nat | p < 32 * i :: !IsFree(was, p)
    requires forall k: nat | k < bit :: !Bit(was[i], k)
    ensures forall p: nat | p < 32 * i + bit :: !IsFree(was, p)
    ensures IsFree(was, 32 * i + bit) <==> Bit(was[i], bit)
  {
    forall p: nat | p < 32 * i + bit ensures !IsFree(was, p) {
      if p >= 32 * i {
        assert p / 32 == i && p % 32 < bit;
      }
    }
    assert (32 * i + bit) / 32 == i && (32 * i + bit) % 32 == bit;
  }

  lemma SlotReturned(was: seq<bv32>, now: seq<bv32>, v: nat, capacity: nat)
    requires Padded(was, capacity) && |now| == |was| && v < capacity
    requires forall p: nat | p < 32 * |was| :: IsFree(now, p) <==> p == v || IsFree(was, p)
    ensures Padded(now, capacity)
    ensures FreeSlots(now, capacity) == FreeSlots(was, capacity) + {v}
  {
  }

  lemma NoneFreeInZero(words: seq<bv32>, i: nat)
    requires i < |words| && words[i] == 0
    ensures forall p: nat | 32 * i <= p < 32 * i + 32 :: !IsFree(words, p)
  {
    forall p: nat | 32 * i <= p < 32 * i + 32 ensures !IsFree(words, p) {
      AllOrNothing(Shift(p % 32));
    }
  }

  /** Full words, then one partial word if the capacity is no multiple of 32. */
  lemma InitialWords(words: seq<bv32>, capacity: nat)
    requires |words| == capacity / 32 + (if capacity % 32 != 0 then 1 else 0)
    requires forall i | 0 <= i < capacity / 32 :: words[i] == 0xFFFF_FFFF
    requires capacity % 32 != 0 ==>
               forall k: nat | k < 32 :: Bit(words[capacity / 32], k) <==> k < capacity % 32
    ensures Padded(words, capacity)
    ensures FreeSlots(words, capacity) == Slots(capacity)
  {
    forall p: nat | p < 32 * |words| ensures IsFree(words, p) <==> p < capacity {
      AllOrNothing(Shift(p % 32));
    }
  }

  class PoolAllocator {
    const capacity: nat
    const bitmask: array<bv32>

    ghost predicate Valid()
      reads bitmask
    {
      Padded(bitmask[..], capacity)
    }

    ghost function Free(): set<nat>
      requires Valid()
      reads bitmask
    {
      FreeSlots(bitmask[..], capacity)
    }

    constructor (capacity: nat)
      ensures Valid() && fresh(bitmask) && this.capacity == capacity
      ensures Free() == Slots(capacity)
    {
      this.capacity := capacity;
      var quot, rem := capacity / 32, capacity % 32;
      var words := new bv32[quot + (if rem != 0 then 1 else 0)];
      bitmask := words;
      new;
      var i := 0;
      while i < quot
        invariant 0 <= i <= quot
        invariant forall k | 0 <= k < i :: words[k] == 0xFFFF_FFFF
      {
        words[i] := 0xFFFF_FFFF;
        i := i + 1;
      }
      if rem != 0 {
        var newBitmask: bv32 := 0;
        i := 0;
        forall k: nat | k < 32 ensures !Bit(newBitmask, k) {
          AllOrNothing(Shift(k));
        }
        while i < rem
          invariant 0 <= i <= rem
          invariant forall k | 0 <= k < quot :: words[k] == 0xFFFF_FFFF
          invariant forall k: nat | k < 32 :: Bit(newBitmask, k) <==> k < i
        {
          newBitmask := SetBit(newBitmask, i);
          i := i + 1;
        }
        words[quot] := newBitmask;
      }
      InitialWords(words[..], capacity);
    }

    /** Returns the lowest free slot and takes it, or nothing if no slot is free. */
    method Alloc() returns (slot: Option<nat>)
      requires Valid()
      modifies bitmask
      ensures Valid()
      ensures Allocates(old(Free()), slot)
      ensures slot.None? <==> old(Free()) == {}
      ensures slot.Some? ==> slot.value in old(Free()) && forall p | p in old(Free()) :: slot.value <= p
      ensures Free() == if slot.Some? then old(Free()) - {slot.value} else old(Free())
    {
      slot := None;
      ghost var was := bitmask[..];
      for i := 0 to bitmask.Length
        invariant slot == None && bitmask[..] == was
        invariant forall p: nat | p < 32 * i :: !IsFree(was, p)
      {
        if bitmask[i] != 0 {
          var bit := LowestBit(bitmask[i]);
          var cleared := ClearBit(bitmask[i], bit);
          bitmask[i] := cleared;
          assert bitmask[..] == was[i := cleared];
          slot := Some(i * 32 + bit);
          SlotsAfterClear(was, bitmask[..], i, bit);
          NoneBelow(was, i, bit);
          SlotTaken(was, bitmask[..], i * 32 + bit, capacity);
          return;
        }
        NoneFreeInZero(was, i);
      }
    }

    /** Returns a slot. A pointer outside the pool is ignored, as is a slot that is free already. */
    method FreeSlot(v: int)
      requires Valid()
      modifies bitmask
      ensures Valid()
      ensures Free() == if 0 <= v < capacity then old(Free()) + {v} else old(Free())
    {
      if v < 0 || v >= capacity {
        return;
      }
      ghost var was := bitmask[..];
      var quot, rem := v / 32, v % 32;
      var updated := SetBit(bitmask[quot], rem);
      bitmask[quot] := updated;
      assert bitmask[..] == was[quot := updated];
      SlotsAfterSet(was, bitmask[..], v);
      SlotReturned(was, bitmask[..], v, capacity);
    }
  }
}
