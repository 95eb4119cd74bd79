/** The pointer-to-handle registry: a generational slot map that hands out
    32-bit handles `(incarnation << INDEX_BITS) | index` for opaque pointers,
    reuses released indices last-in first-out, and refuses handles of another
    incarnation. */
module Marshalling {

  /** An opaque pointer; 0 is NULL. */
  type Ptr = nat
  const NULL: Ptr := 0

  const UINT32_LIMIT: nat := 0x1_0000_0000
  type uint32 = x: nat | x < UINT32_LIMIT

  function Pow2(n: nat): (r: nat)
    ensures r >= 1
  {
    if n == 0 then 1 else 2 * Pow2(n - 1)
  }

  lemma {:induction false} Pow2Add(a: nat, b: nat)
    ensures Pow2(a + b) == Pow2(a) * Pow2(b)
  {
    if a > 0 {
      Pow2Add(a - 1, b);
      assert Pow2(a + b) == 2 * Pow2(a - 1 + b);
    }
  }

  lemma {:induction false} Pow2Monotone(a: nat, b: nat)
    requires a <= b
    ensures Pow2(a) <= Pow2(b)
  {
    if a < b {
      Pow2Monotone(a, b - 1);
    }
  }

  /** The compile-time settings of the registry. */
  datatype Config = Config(indexBits: nat, incarnationBits: nat, growSize: nat)
  {
    /** Both fields of a handle fit in 32 bits, and growing adds at least one slot. */
    predicate Valid() {
      1 <= indexBits && indexBits + incarnationBits <= 32 && 1 <= growSize
    }

    /** MAX_INDEX: the index mask, 2^INDEX_BITS - 1. */
    function MaxIndex(): nat {
      Pow2(indexBits) - 1
    }
  }

  /** `handle & MAX_INDEX`: the low INDEX_BITS bits of a handle. */
  function IndexOf(cfg: Config, handle: uint32): nat {
    handle % Pow2(cfg.indexBits)
  }

  /** `handle >> INDEX_BITS`: the bits above the index. */
  function IncarnationOf(cfg: Config, handle: uint32): nat {
    var p := Pow2(cfg.indexBits);
    QuotientNat(handle, p);
    handle / p
  }

  lemma QuotientNat(a: nat, p: nat)
    requires p >= 1
    ensures a / p >= 0
  {
  }

  /** `incarnation & ((1 << INCARNATION_BITS) - 1)`. */
  function MaskIncarnation(cfg: Config, incarnation: uint32): (m: nat)
    ensures m < Pow2(cfg.incarnationBits)
  {
    incarnation % Pow2(cfg.incarnationBits)
  }

  lemma {:induction false} HandleFits(cfg: Config, incarnation: nat, index: nat)
    requires cfg.Valid()
    requires incarnation < Pow2(cfg.incarnationBits) && index < Pow2(cfg.indexBits)
    ensures incarnation * Pow2(cfg.indexBits) + index < UINT32_LIMIT
  {
    var p, q := Pow2(cfg.indexBits), Pow2(cfg.incarnationBits);
    assert incarnation * p + index < (incarnation + 1) * p;
    MulLeMono(incarnation + 1, q, p);
    Pow2Add(cfg.incarnationBits, cfg.indexBits);
    Pow2Monotone(cfg.incarnationBits + cfg.indexBits, 32);
    Pow2Of32();
  }

  lemma {:induction false} MulLeMono(a: nat, b: nat, p: nat)
    requires a <= b
    ensures a * p <= b * p
  {
  }

  lemma {:induction false} Pow2Of32()
    ensures Pow2(32) == UINT32_LIMIT
  {
    assert Pow2(2) == 4;
    Pow2Add(2, 2);
    Pow2Add(4, 4);
    Pow2Add(8, 8);
    Pow2Add(16, 16);
  }

  /** `(incarnation << INDEX_BITS) | index` as a uint32_t. The incarnation is
      masked, so the shift never loses bits, and the index lies below the
      shifted bits, so the OR is an addition. */
  function MakeHandle(cfg: Config, incarnation: nat, index: nat): (h: uint32)
    requires cfg.Valid()
    requires incarnation < Pow2(cfg.incarnationBits) && index < Pow2(cfg.indexBits)
  {
    HandleFits(cfg, incarnation, index);
    incarnation * Pow2(cfg.indexBits) + index
  }

  lemma {:induction false} DivModOfSum(a: nat, b: nat, p: nat)
    requires b < p
    ensures (a * p + b) / p == a && (a * p + b) % p == b
  {
    var n := a * p + b;
    var q, r := n / p, n % p;
    assert (q - a) * p == b - r;
    MultipleOfAtLeast(q - a, p);
  }

  lemma {:induction false} MultipleOfAtLeast(d: int, p: int)
    requires p > 0
    ensures d >= 1 ==> d * p >= p
    ensures d <= -1 ==> d * p <= -p
  {
  }

  /** Masking a handle with MAX_INDEX and shifting it right by INDEX_BITS
      recover the index and the incarnation it was made from. */
  lemma {:induction false} HandleRoundTrip(cfg: Config, incarnation: nat, index: nat)
    requires cfg.Valid()
    requires incarnation < Pow2(cfg.incarnationBits) && index < Pow2(cfg.indexBits)
    ensures IndexOf(cfg, MakeHandle(cfg, incarnation, index)) == index
    ensures IncarnationOf(cfg, MakeHandle(cfg, incarnation, index)) == incarnation
  {
    DivModOfSum(incarnation, index, Pow2(cfg.indexBits));
  }

  /** A handle is made from its incarnation and its index. */
  lemma {:induction false} HandleOfParts(cfg: Config, handle: uint32)
    requires cfg.Valid() && IncarnationOf(cfg, handle) < Pow2(cfg.incarnationBits)
    ensures IndexOf(cfg, handle) < Pow2(cfg.indexBits)
    ensures MakeHandle(cfg, IncarnationOf(cfg, handle), IndexOf(cfg, handle)) == handle
  {
  }

  /** The failure value 0 is also the real handle of index 0 in incarnation 0,
      and of nothing else. */
  lemma {:induction false} HandleZeroIff(cfg: Config, incarnation: nat, index: nat)
    requires cfg.Valid()
    requires incarnation < Pow2(cfg.incarnationBits) && index < Pow2(cfg.indexBits)
    ensures MakeHandle(cfg, incarnation, index) == 0 <==> incarnation == 0 && index == 0
  {
    if incarnation != 0 {
      MultipleOfAtLeast(incarnation, Pow2(cfg.indexBits));
    }
  }

  /** Two handles made in the same configuration are equal exactly when their
      incarnations and indices are. */
  lemma {:induction false} HandleInjective(cfg: Config, inc1: nat, idx1: nat, inc2: nat, idx2: nat)
    requires cfg.Valid()
    requires inc1 < Pow2(cfg.incarnationBits) && idx1 < Pow2(cfg.indexBits)
    requires inc2 < Pow2(cfg.incarnationBits) && idx2 < Pow2(cfg.indexBits)
    ensures MakeHandle(cfg, inc1, idx1) == MakeHandle(cfg, inc2, idx2) <==> inc1 == inc2 && idx1 == idx2
  {
    HandleRoundTrip(cfg, inc1, idx1);
    HandleRoundTrip(cfg, inc2, idx2);
  }

  /** The pointer `handle` stands for in a registry of incarnation
      `incarnation` whose slots in use are `slots`: NULL unless the handle
      carries that incarnation and an index in use. */
  ghost function Resolve(cfg: Config, incarnation: nat, slots: seq<Ptr>, handle: uint32): Ptr {
    var index := IndexOf(cfg, handle);
    if IncarnationOf(cfg, handle) == incarnation && index < |slots| then slots[index] else NULL
  }

  /** Storing a pointer in a slot makes the handle of that slot resolve to it
      and leaves every handle of another index as it was. */
  lemma {:induction false} StoreResolves(cfg: Config, incarnation: nat, slots: seq<Ptr>, index: nat, ptr: Ptr)
    requires cfg.Valid() && incarnation < Pow2(cfg.incarnationBits)
    requires index < |slots| && index < Pow2(cfg.indexBits)
    ensures Resolve(cfg, incarnation, slots[index := ptr], MakeHandle(cfg, incarnation, index)) == ptr
    ensures forall h: uint32 :: IndexOf(cfg, h) != index ==>
      Resolve(cfg, incarnation, slots[index := ptr], h) == Resolve(cfg, incarnation, slots, h)
  {
    HandleRoundTrip(cfg, incarnation, index);
  }

  /** Appending a slot makes the handle of the new index resolve to its
      pointer and leaves every other handle as it was. */
  lemma {:induction false} AppendResolves(cfg: Config, incarnation: nat, slots: seq<Ptr>, ptr: Ptr)
    requires cfg.Valid() && incarnation < Pow2(cfg.incarnationBits)
    requires |slots| < Pow2(cfg.indexBits)
    ensures Resolve(cfg, incarnation, slots + [ptr], MakeHandle(cfg, incarnation, |slots|)) == ptr
    ensures forall h: uint32 :: IndexOf(cfg, h) != |slots| ==>
      Resolve(cfg, incarnation, slots + [ptr], h) == Resolve(cfg, incarnation, slots, h)
  {
    HandleRoundTrip(cfg, incarnation, |slots|);
  }

  class Registry {
    const cfg: Config
    var size: nat
    var capacity: nat
    var pointers: array<Ptr>
    var incarnation: nat
    /** The linked stack of free indices, most recently freed first. */
    var freeList: seq<nat>
    /** Set once FreeRegistry has released the registry. */
    ghost var released: bool

    ghost predicate Valid()
      reads this, pointers
    {
      && cfg.Valid()
      && !released
      && pointers.Length == capacity
      && size <= capacity
      && size <= cfg.MaxIndex()
      && incarnation < Pow2(cfg.incarnationBits)
      && (forall k :: 0 <= k < |freeList| ==> freeList[k] < size && pointers[freeList[k]] == NULL)
      && (forall k, l :: 0 <= k < l < |freeList| ==> freeList[k] != freeList[l])
      && (forall i :: size <= i < capacity ==> pointers[i] == NULL)
    }

    /** The slots in use, index by index. */
    ghost function Slots(): seq<Ptr>
      reads this, pointers
      requires size <= pointers.Length
    {
      pointers[..size]
    }

    constructor (cfg: Config, incarnation: uint32)
      requires cfg.Valid()
      ensures Valid() && fresh(pointers)
      ensures this.cfg == cfg && size == 0 && capacity == cfg.growSize && freeList == []
      ensures this.incarnation == MaskIncarnation(cfg, incarnation)
      ensures pointers[..] == seq(cfg.growSize, _ => NULL)
    {
      this.cfg := cfg;
      size := 0;
      capacity := cfg.growSize;
      pointers := new Ptr[cfg.growSize](_ => NULL);
      this.incarnation := MaskIncarnation(cfg, incarnation);
      freeList := [];
      released := false;
    }

    /** The pointer a handle stands for, or NULL. */
    function HandleToPointer(handle: uint32): (p: Ptr)
      reads this, pointers
      requires Valid()
      ensures IncarnationOf(cfg, handle) != incarnation ==> p == NULL
      ensures IndexOf(cfg, handle) >= size ==> p == NULL
      ensures p != NULL ==> p == Slots()[IndexOf(cfg, handle)]
      ensures p == Resolve(cfg, incarnation, Slots(), handle)
    {
      var index := IndexOf(cfg, handle);
      var inc := IncarnationOf(cfg, handle);
      if inc == incarnation && index < size then pointers[index] else NULL
    }

    /** Whether a fresh index can be appended, given whether the bigger array
        could be allocated when one is needed. */
    ghost predicate CanAppend(growAllocated: bool)
      reads this
    {
      size < cfg.MaxIndex() && (size < capacity || growAllocated)
    }

    method AllocateHandleForPointer(ptr: Ptr, growAllocated: bool) returns (handle: uint32)
      requires Valid()
      modifies this, pointers
      ensures Valid() && incarnation == old(incarnation)
      ensures pointers == old(pointers) || fresh(pointers)
      ensures old(freeList) != [] ==>
        && freeList == old(freeList[1..])
        && size == old(size) && capacity == old(capacity)
        && Slots() == old(Slots())[old(freeList[0]) := ptr]
        && handle == MakeHandle(cfg, incarnation, old(freeList[0]))
      ensures old(freeList) == [] && !old(CanAppend(growAllocated)) ==>
        && handle == 0
        && freeList == [] && size == old(size) && capacity == old(capacity)
        && pointers == old(pointers) && Slots() == old(Slots())
      ensures old(freeList) == [] && old(CanAppend(growAllocated)) ==>
        && freeList == []
        && size == old(size) + 1
        && capacity == (if old(size) == old(capacity) then old(capacity) + cfg.growSize else old(capacity))
        && Slots() == old(Slots()) + [ptr]
        && handle == MakeHandle(cfg, incarnation, old(size))
    {
      var index: nat;
      if freeList != [] {
        index := Reuse(ptr);
      } else {
        if size == cfg.MaxIndex() {
          return 0;
        }
        if size == capacity {
          if !growAllocated {
            return 0;
          }
          Grow();
        }
        index := Append(ptr);
      }
      HandleRoundTrip(cfg, incarnation, index);
      handle := MakeHandle(cfg, incarnation, index);
    }

    /** Moves the slots into an array GROW_SIZE slots longer; the new slots
        are NULL. */
    method Grow()
      requires Valid() && size == capacity
      modifies this
      ensures Valid() && fresh(pointers)
      ensures capacity == old(capacity) + cfg.growSize && Slots() == old(Slots())
      ensures size == old(size) && freeList == old(freeList) && incarnation == old(incarnation)
    {
      var newPointers := new Ptr[capacity + cfg.growSize](_ => NULL);
      forall i | 0 <= i < capacity {
        newPointers[i] := pointers[i];
      }
      pointers := newPointers;
      capacity := capacity + cfg.growSize;
    }

    /** Pops the most recently freed index and stores ptr there. */
    method Reuse(ptr: Ptr) returns (index: nat)
      requires Valid() && freeList != []
      modifies this`freeList, pointers
      ensures Valid()
      ensures index == old(freeList[0]) && index < size && freeList == old(freeList[1..])
      ensures Slots() == old(Slots())[index := ptr]
    {
      index := freeList[0];
      pointers[index] := ptr;
      freeList := freeList[1..];
    }

    /** Stores ptr at the first index never used. */
    method Append(ptr: Ptr) returns (index: nat)
      requires Valid() && size < capacity && size < cfg.MaxIndex()
      modifies this`size, pointers
      ensures Valid()
      ensures index == old(size) && size == old(size) + 1
      ensures Slots() == old(Slots()) + [ptr]
    {
      index := size;
      pointers[index] := ptr;
      size := size + 1;
    }

    method RemoveHandle(handle: uint32, nodeAllocated: bool)
      requires Valid()
      modifies this, pointers
      ensures Valid()
      ensures pointers == old(pointers) && size == old(size) && capacity == old(capacity)
      ensures incarnation == old(incarnation)
      ensures IndexOf(cfg, handle) < size && old(pointers[IndexOf(cfg, handle)]) != NULL ==>
        && Slots() == old(Slots())[IndexOf(cfg, handle) := NULL]
        && freeList == (if nodeAllocated then [IndexOf(cfg, handle)] + old(freeList) else old(freeList))
      ensures !(IndexOf(cfg, handle) < size && old(pointers[IndexOf(cfg, handle)]) != NULL) ==>
        Slots() == old(Slots()) && freeList == old(freeList)
      ensures HandleToPointer(handle) == NULL
    {
      var index := IndexOf(cfg, handle);
      if index < size && pointers[index] != NULL {
        pointers[index] := NULL;
        if nodeAllocated {
          freeList := [index] + freeList;
        }
      }
    }

    method FreeRegistry()
      requires Valid()
      modifies this
      ensures freeList == [] && released
    {
      while freeList != []
        decreases |freeList|
      {
        freeList := freeList[1..];
      }
      released := true;
    }
  }

  /** AllocateNewRegistry: NULL when either allocation fails. */
  method AllocateNewRegistry(cfg: Config, incarnation: uint32, registryAllocated: bool, pointersAllocated: bool)
    returns (registry: Registry?)
    requires cfg.Valid()
    ensures registry == null <==> !(registryAllocated && pointersAllocated)
    ensures registry != null ==>
      && fresh(registry) && fresh(registry.pointers) && registry.Valid()
      && registry.cfg == cfg && registry.size == 0 && registry.capacity == cfg.growSize
      && registry.freeList == []
      && registry.incarnation == MaskIncarnation(cfg, incarnation)
      && registry.Slots() == []
  {
    if !registryAllocated {
      return null;
    }
    registry := new Registry(cfg, incarnation);
    if !pointersAllocated {
      registry := null;
    }
  }

  /** A handle issued in one incarnation never resolves in a registry of
      another incarnation, whatever its index. */
  lemma {:induction false} StaleHandleNeverResolves(r: Registry, incarnation: nat, index: nat)
    requires r.Valid()
    requires incarnation < Pow2(r.cfg.incarnationBits) && index < Pow2(r.cfg.indexBits)
    requires incarnation != r.incarnation
    ensures r.HandleToPointer(MakeHandle(r.cfg, incarnation, index)) == NULL
  {
    HandleRoundTrip(r.cfg, incarnation, index);
  }

  /** Releasing a live handle and then allocating again reuses its index, and
      since the incarnation has not changed the new handle is the released one:
      the released handle now resolves to the new pointer. */
  method ReleaseThenAllocate(r: Registry, handle: uint32, ptr: Ptr, growAllocated: bool) returns (again: uint32)
    requires r.Valid() && r.HandleToPointer(handle) != NULL
    modifies r, r.pointers
    ensures r.Valid()
    ensures again == handle && r.HandleToPointer(handle) == ptr
  {
    var index := IndexOf(r.cfg, handle);
    HandleOfParts(r.cfg, handle);
    r.RemoveHandle(handle, true);
    ghost var slots := r.Slots();
    again := r.AllocateHandleForPointer(ptr, growAllocated);
    StoreResolves(r.cfg, r.incarnation, slots, index, ptr);
  }
}
