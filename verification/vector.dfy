/** `app/vector.h`: the growable vector that the `INIT_VECTOR(X)` macro
    defines for an element type `X`. */
module Vectors {

  /** The capacity of the first allocation. */
  const START_SIZE: nat := 4

  /** A capacity an allocated vector can have: `START_SIZE` doubled any
      number of times. */
  predicate IsGrownCapacity(c: nat)
    decreases c
  {
    c == START_SIZE || (c > START_SIZE && c % 2 == 0 && IsGrownCapacity(c / 2))
  }

  /** The least capacity of the form `START_SIZE * 2^k` that holds `n`
      elements, and 0 for no elements. */
  function CapacityFor(n: nat): (c: nat)
    ensures n <= c && (c == 0 <==> n == 0)
  {
    if n == 0 then 0
    else if n <= START_SIZE then START_SIZE
    else 2 * CapacityFor((n + 1) / 2)
  }

  /** Two grown capacities that differ are at least a factor two apart. */
  lemma {:induction false} GrownCapacityGap(d: nat, c: nat)
    requires IsGrownCapacity(d) && IsGrownCapacity(c) && d < c
    ensures 2 * d <= c
    decreases d
  {
    if d > START_SIZE {
      GrownCapacityGap(d / 2, c / 2);
    }
  }

  /** `CapacityFor(n)` is a grown capacity that holds `n` elements. */
  lemma {:induction false} CapacityForGrown(n: nat)
    requires n > 0
    ensures IsGrownCapacity(CapacityFor(n)) && n <= CapacityFor(n)
  {
    if n > START_SIZE {
      CapacityForGrown((n + 1) / 2);
    }
  }

  /** No grown capacity that holds `n` elements is below `CapacityFor(n)`. */
  lemma {:induction false} CapacityForBelow(n: nat, d: nat)
    requires n > 0 && IsGrownCapacity(d) && n <= d
    ensures CapacityFor(n) <= d
    decreases d
  {
    if n > START_SIZE {
      assert d % 2 == 0 && IsGrownCapacity(d / 2);
      CapacityForBelow((n + 1) / 2, d / 2);
    }
  }

  /** `CapacityFor(n)` is a grown capacity, holds `n` elements, and no
      smaller grown capacity does. */
  lemma CapacityForIsLeast(n: nat)
    requires n > 0
    ensures IsGrownCapacity(CapacityFor(n)) && n <= CapacityFor(n)
    ensures forall d :: IsGrownCapacity(d) && n <= d ==> CapacityFor(n) <= d
  {
    CapacityForGrown(n);
    forall d | IsGrownCapacity(d) && n <= d
      ensures CapacityFor(n) <= d
    {
      CapacityForBelow(n, d);
    }
  }

  /** One push moves the capacity from `CapacityFor(n)` to
      `CapacityFor(n + 1)`: it grows (to `START_SIZE` from empty, else
      doubling) exactly when the vector was full. */
  lemma CapacityForStep(n: nat)
    ensures CapacityFor(n + 1) ==
              if n == CapacityFor(n) then (if n == 0 then START_SIZE else 2 * n) else CapacityFor(n)
  {
    CapacityForIsLeast(n + 1);
    if n > 0 {
      CapacityForIsLeast(n);
      var c, c' := CapacityFor(n), CapacityFor(n + 1);
      if n == c {
        assert IsGrownCapacity(2 * c);
        if c' < 2 * c {
          GrownCapacityGap(c, c');
        }
      }
    }
  }

  /** `Vector_X`: the storage `ptr` (NULL until the first push), the number
      of elements `len` and the number of slots `capacity`. */
  class Vector<X(0)> {
    var ptr: array?<X>
    var len: nat
    var capacity: nat
    ghost var Repr: set<object>

    /** `len <= capacity`, the storage has exactly `capacity` slots, and it
        is allocated exactly when the capacity is not 0. */
    ghost predicate Valid()
      reads this, Repr
    {
      && this in Repr
      && (ptr == null <==> capacity == 0)
      && (ptr != null ==> ptr in Repr && ptr.Length == capacity && IsGrownCapacity(capacity))
      && len <= capacity
    }

    /** The elements `ptr[0] .. ptr[len - 1]`. */
    function Elements(): seq<X>
      reads this, Repr
      requires Valid()
    {
      if ptr == null then [] else ptr[..len]
    }

    /** `init_vector_X()`. */
    constructor ()
      ensures Valid() && fresh(Repr)
      ensures ptr == null && len == 0 && capacity == 0 && Elements() == []
    {
      ptr, len, capacity := null, 0, 0;
      Repr := {this};
    }

    /** `free_vector_X(vec)`: releases the storage and resets the vector to
        exactly the state `init_vector_X` gives. */
    method Free()
      requires Valid()
      modifies this
      ensures Valid() && Repr == {this}
      ensures ptr == null && len == 0 && capacity == 0 && Elements() == []
    {
      ptr, len, capacity := null, 0, 0;
      Repr := {this};
    }

    /** `realloc_vector_X(vec)`: the first allocation gets `START_SIZE`
        slots, a full vector doubles, any other keeps its capacity; the
        elements move to the new storage unchanged. */
    method Realloc()
      requires Valid()
      modifies Repr
      ensures Valid() && fresh(Repr - old(Repr))
      ensures ptr != null && len == old(len) && Elements() == old(Elements())
      ensures capacity == if old(ptr) == null then START_SIZE
                          else if old(len) == old(capacity) then 2 * old(capacity)
                          else old(capacity)
    {
      if ptr == null {
        capacity := START_SIZE;
      } else if len == capacity {
        capacity := capacity * 2;
      }
      var grown := new X[capacity];
      var previous := ptr;
      if previous != null {
        for i := 0 to previous.Length
          modifies grown
          invariant grown[..i] == previous[..i]
        {
          grown[i] := previous[i];
        }
        assert grown[..len] == grown[..previous.Length][..len];
      }
      ptr := grown;
      Repr := {this, grown};
    }

    /** `push_vector_X(vec, elem)`: grows only a full vector, then stores
        `elem` at index `len` and counts it. */
    method Push(elem: X)
      requires Valid()
      modifies Repr
      ensures Valid() && fresh(Repr - old(Repr))
      ensures Elements() == old(Elements()) + [elem]
      ensures len == old(len) + 1
      ensures capacity == if old(len) == old(capacity)
                          then (if old(capacity) == 0 then START_SIZE else 2 * old(capacity))
                          else old(capacity)
      ensures old(capacity == CapacityFor(len)) ==> capacity == CapacityFor(len)
    {
      if capacity == len {
        Realloc();
      }
      ptr[len] := elem;
      len := len + 1;
      CapacityForStep(len - 1);
    }
  }
}
