/**
 * The bounded stack of src/stack.c: `maxElem` elements of `elemSize` bytes in
 * one buffer. `stackData` is a pointer into the buffer that push advances and
 * pop retreats by `elemSize`; here it is the byte offset `top`. A NULL buffer
 * (before initialisation by nStackInitM, or after nStackDestroy) is `null`.
 */
module NanoStack {
  import opened NanoTypes

  /** The bytes of a sequence of elements, bottom first. */
  function Flatten(elems: seq<seq<bv8>>): (b: seq<bv8>)
  {
    if elems == [] then [] else Flatten(elems[..|elems| - 1]) + elems[|elems| - 1]
  }

  /**
   * Slot `n` of a buffer of `max` slots of `size` bytes ends inside the buffer.
   * Used by FlattenLength, Push, Pop and Peek.
   */
  lemma SlotBounds(n: nat, max: nat, size: nat)
    requires n < max
    ensures (n + 1) * size == n * size + size <= max * size
  {
  }

  /** Elements of `elemSize` bytes each flatten to `|elems| * elemSize` bytes. */
  lemma {:induction false} FlattenLength(elems: seq<seq<bv8>>, elemSize: nat)
    requires forall i :: 0 <= i < |elems| ==> |elems[i]| == elemSize
    ensures |Flatten(elems)| == |elems| * elemSize
  {
    if elems != [] {
      FlattenLength(elems[..|elems| - 1], elemSize);
      SlotBounds(|elems| - 1, |elems|, elemSize);
    }
  }

  /** Pushing an element appends its bytes. */
  lemma FlattenPush(elems: seq<seq<bv8>>, x: seq<bv8>)
    ensures Flatten(elems + [x]) == Flatten(elems) + x
  {
    assert (elems + [x])[..|elems|] == elems;
  }

  class NStack {
    var buffer: array?<bv8>
    var top: nat
    var numElems: nat
    var managed: bool
    var elemSize: nat
    var maxElem: nat
    /** The elements on the stack, bottom first. */
    ghost var elems: seq<seq<bv8>>

    ghost predicate Valid()
      reads this, buffer
    {
      numElems == |elems| <= maxElem &&
      (forall i :: 0 <= i < |elems| ==> |elems[i]| == elemSize) &&
      top == numElems * elemSize &&
      (buffer == null ==> maxElem == 0) &&
      (buffer != null ==> buffer.Length >= maxElem * elemSize && top <= buffer.Length && buffer[..top] == Flatten(elems))
    }

    /** A stack that has not been initialised, as a zeroed structure is. */
    constructor ()
      ensures Valid() && buffer == null && numElems == 0 && maxElem == 0 && elemSize == 0 && !managed
    {
      buffer := null;
      top := 0;
      numElems := 0;
      managed := false;
      elemSize := 0;
      maxElem := 0;
      elems := [];
    }

    /** nStackInit: an empty stack over the caller's buffer; always Success. */
    method Init(stackData: array<bv8>, maxElem: nat, elemSize: nat) returns (code: Status)
      requires stackData.Length >= maxElem * elemSize
      modifies this
      ensures Valid() && code == Success
      ensures buffer == stackData && numElems == 0 && elems == [] && !managed
      ensures this.maxElem == maxElem && this.elemSize == elemSize
    {
      code := Success;
      numElems := 0;
      buffer := stackData;
      top := 0;
      this.elemSize := elemSize;
      this.maxElem := maxElem;
      managed := false;
      elems := [];
    }

    /**
     * nStackInitM: a stack over a buffer it allocates itself. `allocFails`
     * stands for calloc returning NULL: the buffer pointer is then NULL, the
     * other fields are as they were, and the result is NoSpace.
     */
    method InitM(maxElem: nat, elemSize: nat, allocFails: bool) returns (code: Status)
      modifies this
      ensures allocFails ==> code == NoSpace && buffer == null
      ensures allocFails ==> numElems == old(numElems) && this.maxElem == old(this.maxElem) && this.elemSize == old(this.elemSize)
      ensures allocFails ==> managed == old(managed) && top == old(top) && elems == old(elems)
      ensures !allocFails ==> Valid() && code == Success && managed && numElems == 0 && elems == []
      ensures !allocFails ==> this.maxElem == maxElem && this.elemSize == elemSize && fresh(buffer)
    {
      if allocFails {
        buffer := null;
        return NoSpace;
      }
      var data := new bv8[maxElem * elemSize](_ => 0);
      code := Init(data, maxElem, elemSize);
      managed := true;
    }

    /**
     * nStackDestroy with the release of a managed buffer corrected: the
     * pointer handed to free is the start of the allocation, `top` bytes
     * below `stackData` (`freedAt` is its offset in the allocation, meaningful
     * when the stack was managed). Afterwards every count is zero, so the
     * stack reads both empty and full, and destroying again is harmless.
     */
    method Destroy() returns (freedAt: int)
      requires Valid()
      modifies this
      ensures old(managed) ==> freedAt == 0
      ensures Valid() && buffer == null && !managed
      ensures numElems == 0 && maxElem == 0 && elemSize == 0 && elems == []
      ensures IsEmpty() && IsFull()
    {
      freedAt := top - numElems * elemSize;
      buffer := null;
      managed := false;
      numElems := 0;
      maxElem := 0;
      elemSize := 0;
      top := 0;
      elems := [];
    }

    /** nStackDestroy as written: a managed buffer is released through `stackData` itself, `top` bytes into the allocation. */
    method DestroyAsWritten() returns (freedAt: int)
      requires Valid()
      modifies this
      ensures old(managed) ==> freedAt == old(top) == old(|elems|) * old(elemSize)
      ensures Valid() && buffer == null && !managed
      ensures numElems == 0 && maxElem == 0 && elemSize == 0 && elems == []
    {
      freedAt := top;
      buffer := null;
      managed := false;
      numElems := 0;
      maxElem := 0;
      elemSize := 0;
      top := 0;
      elems := [];
    }

    /** nStackEmpty */
    predicate IsEmpty()
      requires Valid()
      reads this, buffer
      ensures IsEmpty() <==> elems == []
    {
      numElems <= 0
    }

    /** nStackFull */
    predicate IsFull()
      requires Valid()
      reads this, buffer
      ensures IsFull() <==> |elems| == maxElem
    {
      numElems >= maxElem
    }

    /** nStackSize */
    function Size(): (n: nat)
      requires Valid()
      reads this, buffer
      ensures n == |elems| && n <= maxElem
    {
      numElems
    }

    /**
     * nStackPush: Full, and nothing changes, when the stack is full; otherwise
     * the element's bytes are copied to the top and it becomes the top element.
     */
    method Push(dataIn: seq<bv8>) returns (code: Status)
      requires Valid() && |dataIn| == elemSize
      modifies this, buffer
      ensures Valid() && buffer == old(buffer) && maxElem == old(maxElem) && elemSize == old(elemSize)
      ensures managed == old(managed)
      ensures old(|elems|) == maxElem ==> code == Full && elems == old(elems) && numElems == old(numElems)
      ensures old(|elems|) < maxElem ==> code == Success && elems == old(elems) + [dataIn] && numElems == old(numElems) + 1
      ensures buffer != null ==> buffer[..old(top)] == old(buffer[..top]) && buffer[top..] == old(buffer[..])[top..]
    {
      if IsFull() {
        return Full;
      }
      SlotBounds(numElems, maxElem, elemSize);
      CopyIn(dataIn, top);
      assert buffer[..top + elemSize] == old(buffer[..top]) + dataIn;
      FlattenPush(elems, dataIn);
      elems := elems + [dataIn];
      numElems := numElems + 1;
      top := top + elemSize;
      code := Success;
    }

    /** The memcpy of push: the bytes of `dataIn` go to offset `at` of the buffer; no other byte changes. */
    method CopyIn(dataIn: seq<bv8>, at: nat)
      requires buffer != null && at + |dataIn| <= buffer.Length
      modifies buffer
      ensures buffer[..at] == old(buffer[..at]) && buffer[at..at + |dataIn|] == dataIn
      ensures buffer[at + |dataIn|..] == old(buffer[at + |dataIn|..])
    {
      forall j | 0 <= j < |dataIn| {
        buffer[at + j] := dataIn[j];
      }
    }

    /** The memcpy of pop and peek: the `elemSize` bytes at offset `from` of the buffer go to the front of `dataOut`. */
    method CopyOut(dataOut: array<bv8>, from: nat)
      requires buffer != null && dataOut != buffer
      requires from + elemSize <= buffer.Length && elemSize <= dataOut.Length
      modifies dataOut
      ensures dataOut[..elemSize] == buffer[from..from + elemSize]
      ensures dataOut[elemSize..] == old(dataOut[elemSize..])
    {
      forall j | 0 <= j < elemSize {
        dataOut[j] := buffer[from + j];
      }
    }

    /**
     * nStackPop: Empty, with `dataOut` untouched, when the stack is empty;
     * otherwise the top element is copied to `dataOut` and removed.
     */
    method Pop(dataOut: array<bv8>) returns (code: Status)
      requires Valid() && dataOut.Length >= elemSize && dataOut != buffer
      modifies this, dataOut
      ensures Valid() && buffer == old(buffer) && maxElem == old(maxElem) && elemSize == old(elemSize)
      ensures managed == old(managed)
      ensures old(elems) == [] ==> code == Empty && elems == [] && dataOut[..] == old(dataOut[..])
      ensures old(elems) != [] ==> code == Success && numElems == old(numElems) - 1 &&
                                   elems == old(elems)[..|old(elems)| - 1] &&
                                   dataOut[..elemSize] == old(elems)[|old(elems)| - 1] &&
                                   dataOut[elemSize..] == old(dataOut[elemSize..])
    {
      if IsEmpty() {
        return Empty;
      }
      SlotBounds(numElems - 1, maxElem, elemSize);
      ghost var last := elems[|elems| - 1];
      ghost var rest := elems[..|elems| - 1];
      assert elems == rest + [last];
      FlattenPush(rest, last);
      top := top - elemSize;
      CopyOut(dataOut, top);
      assert buffer[top..top + elemSize] == last;
      assert buffer[..top] == Flatten(rest);
      numElems := numElems - 1;
      elems := rest;
      code := Success;
    }

    /** nStackPeek: Empty when the stack is empty; otherwise the top element is copied to `dataOut` and stays. */
    method Peek(dataOut: array<bv8>) returns (code: Status)
      requires Valid() && dataOut.Length >= elemSize && dataOut != buffer
      modifies dataOut
      ensures elems == [] ==> code == Empty && dataOut[..] == old(dataOut[..])
      ensures elems != [] ==> code == Success && dataOut[..elemSize] == elems[|elems| - 1] &&
                              dataOut[elemSize..] == old(dataOut[elemSize..])
    {
      if IsEmpty() {
        return Empty;
      }
      SlotBounds(numElems - 1, maxElem, elemSize);
      ghost var last := elems[|elems| - 1];
      ghost var rest := elems[..|elems| - 1];
      assert elems == rest + [last];
      FlattenPush(rest, last);
      CopyOut(dataOut, top - elemSize);
      assert buffer[top - elemSize..top] == last;
      code := Success;
    }
  }

  /**
   * A one-byte stack of one element, managed, after one push: destroying it
   * as written hands free a pointer one byte into the block calloc returned.
   */
  method PushThenDestroyAsWritten(x: bv8) returns (freedAt: int)
    ensures freedAt == 1
  {
    var s := new NStack();
    var code := s.InitM(1, 1, false);
    code := s.Push([x]);
    freedAt := s.DestroyAsWritten();
  }
}
