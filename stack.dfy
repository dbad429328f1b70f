/*
 * The growable stack that DECLARE_STACK generates for each element type in
 * B/main.c: a heap buffer `base` of capacity `base_size`, of which the first
 * `container_size` slots are live. The pointer `next_item` always points one
 * past the last live slot, so it is modelled as the index `containerSize`.
 */
module GrowableStack {

  /** MULTIPLIER_COEF: a full buffer grows to twice the requested size. */
  const MultiplierCoef: nat := 2

  /** The `compare` macro, which picks the smaller of its two arguments. */
  function Min(a: nat, b: nat): (m: nat)
    ensures m <= a && m <= b && (m == a || m == b)
  {
    if a < b then a else b
  }

  /** COPY: copy the first `count` slots of `from` into `to`, one by one.
      The rest of `to` is left as it was. */
  method Copy<T>(from: array<T>, to: array<T>, count: nat)
    requires count <= from.Length && count <= to.Length
    modifies to
    ensures to[..count] == old(from[..count])
    ensures to[count..] == old(to[count..])
  {
    var i := 0;
    while i < count
      invariant 0 <= i <= count
      invariant to[..i] == old(from[..i])
      invariant to[i..] == old(to[i..])
      invariant from[i..] == old(from[i..])
    {
      to[i] := from[i];
      i := i + 1;
    }
  }

  class Stack<T(0)> {
    /** The heap buffer. A freshly constructed stack has no buffer yet; an
        empty array plays the part of the null pointer. */
    var base: array<T>
    /** The buffer's capacity, `base_size`. */
    var baseSize: nat
    /** The number of live slots, `container_size`. */
    var containerSize: nat

    ghost predicate Valid()
      reads this
    {
      baseSize == base.Length && containerSize <= baseSize
    }

    /** The live elements, bottom first. */
    function Contents(): seq<T>
      reads this, base
      requires Valid()
    {
      base[..containerSize]
    }

    /** STACK_CONSTRUCT: an empty stack with no buffer. */
    constructor()
      ensures Valid() && Contents() == [] && baseSize == 0
      ensures fresh(base)
    {
      base := new T[0];
      baseSize := 0;
      containerSize := 0;
    }

    /** RESIZE: move to a fresh buffer of capacity `newSize`, keeping the first
        min(container_size, new_size) elements; the live count is untouched. */
    method Resize(newSize: nat)
      requires Valid()
      modifies this
      ensures fresh(base) && base.Length == newSize && baseSize == newSize
      ensures containerSize == old(containerSize)
      ensures base[..Min(containerSize, newSize)] == old(base[..Min(containerSize, newSize)])
    {
      var newBase := new T[newSize];
      var sizeToCopy := Min(containerSize, newSize);
      Copy(base, newBase, sizeToCopy);
      base := newBase;
      baseSize := newSize;
    }

    /** RESERVE: make `size` the live count. When the capacity does not exceed
        `size`, the buffer is first resized to MultiplierCoef * size; otherwise
        the buffer stays. Either way the elements below both the old and the
        new live count survive. */
    method Reserve(size: nat)
      requires Valid()
      modifies this
      ensures Valid() && containerSize == size
      ensures old(baseSize) <= size ==> fresh(base) && baseSize == MultiplierCoef * size
      ensures size < old(baseSize) ==> base == old(base) && baseSize == old(baseSize)
      ensures base[..Min(old(containerSize), size)] == old(base[..Min(containerSize, size)])
    {
      if baseSize <= size {
        Resize(size * MultiplierCoef);
      }
      containerSize := size;
    }

    /** STACK_PUSH: reserve one more slot and store the value in it. */
    method Push(v: T)
      requires Valid()
      modifies this, base
      ensures Valid() && Contents() == old(Contents()) + [v]
      ensures base == old(base) || fresh(base)
    {
      Reserve(containerSize + 1);
      base[containerSize - 1] := v;
    }

    /** STACK_POP: return the top element and drop it. Popping an empty stack
        ends the whole program in the source, which is this method's
        precondition. The buffer is never shrunk. */
    method Pop() returns (v: T)
      requires Valid() && containerSize > 0
      modifies this
      ensures Valid() && base == old(base)
      ensures v == old(Contents())[|old(Contents())| - 1]
      ensures Contents() == old(Contents())[..|old(Contents())| - 1]
    {
      v := base[containerSize - 1];
      Reserve(containerSize - 1);
    }

    /** STACK_TOP: the last element pushed and not yet popped. */
    function Top(): (v: T)
      reads this, base
      requires Valid() && containerSize > 0
      ensures v == Contents()[|Contents()| - 1]
    {
      base[containerSize - 1]
    }

    /** STACK_SIZE: the number of live elements. */
    function Size(): (n: nat)
      reads this, base
      requires Valid()
      ensures n == |Contents()|
    {
      containerSize
    }

    /** STACK_EMPTY: whether no element is live. */
    function Empty(): (b: bool)
      reads this, base
      requires Valid()
      ensures b <==> Contents() == []
    {
      containerSize == 0
    }
  }
}
