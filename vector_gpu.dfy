// `Lp_parallel_vector_GPU` (vector_gpu.hpp): a std::vector whose element-wise
// operations are SYCL kernels with one work item per index. Each kernel is run
// here as a loop over the indices; every work item writes only its own index,
// so the order does not matter. Unlike the CPU vector, division and remainder
// by a zero element give 0.

module VectorGpu {
  import opened CArith
  import VectorCpu

  /** One work item of a GPU binary operator: `/` and `%` by 0 give 0, the rest as in C++. */
  function GpuApply(op: BinOp, x: int, y: int): (r: int)
    ensures (op == Div || op == Mod) && y == 0 ==> r == 0
    ensures !((op == Div || op == Mod) && y == 0) ==> r == Apply(op, x, y)
  {
    if (op == Div || op == Mod) && y == 0 then 0 else Apply(op, x, y)
  }

  /** The operators that have a compound-assignment form on the GPU vector and are modelled. */
  predicate Compound(op: BinOp)
  {
    op == Add || op == Sub || op == Mul || op == Div || op == Mod
  }

  /** The result of `a op b`: as long as the shorter operand, each element `a[j] op b[j]`. */
  function ZipSpec(a: seq<int>, b: seq<int>, op: BinOp): (r: seq<int>)
    ensures |r| == VectorCpu.Min(|a|, |b|)
  {
    seq(VectorCpu.Min(|a|, |b|), j requires 0 <= j < VectorCpu.Min(|a|, |b|) => GpuApply(op, a[j], b[j]))
  }

  /** The result of `a op x` for a scalar x. */
  function ZipScalarSpec(a: seq<int>, x: int, op: BinOp): (r: seq<int>)
    ensures |r| == |a|
  {
    seq(|a|, j requires 0 <= j < |a| => GpuApply(op, a[j], x))
  }

  /** A scalar operand acts as a vector that repeats it. */
  lemma ScalarIsRepeatedVector(a: seq<int>, x: int, op: BinOp)
    ensures ZipScalarSpec(a, x, op) == ZipSpec(a, seq(|a|, _ => x), op)
  {
  }

  /** The outcome of a compound assignment: `std::runtime_error("Size mismatch")` is the error. */
  datatype AssignStatus = Assigned | SizeMismatch

  class GpuVector {
    var elems: seq<int>

    /** `Lp_parallel_vector_GPU(n)`: n value-initialised elements. */
    constructor (n: nat)
      ensures elems == seq(n, _ => 0)
    {
      elems := seq(n, _ => 0);
    }

    /** `fill(value)`: every element becomes `value`; the length does not change. */
    method Fill(value: int)
      modifies this`elems
      ensures |elems| == |old(elems)|
      ensures forall j :: 0 <= j < |elems| ==> elems[j] == value
    {
      if |elems| == 0 {
        return;
      }
      var idx := 0;
      while idx < |elems|
        invariant idx <= |elems| == |old(elems)|
        invariant forall j :: 0 <= j < idx ==> elems[j] == value
      {
        elems := elems[idx := value];
        idx := idx + 1;
      }
    }

    /** `fill(value, size)`: resize, then fill. */
    method FillResized(value: int, size: nat)
      modifies this`elems
      ensures |elems| == size
      ensures forall j :: 0 <= j < size ==> elems[j] == value
    {
      elems := VectorCpu.Resized(elems, size);
      Fill(value);
    }

    /** `fill(func)`: each element replaced by `func(element, index)`. */
    method FillWith(f: (int, nat) -> int)
      modifies this`elems
      ensures |elems| == |old(elems)|
      ensures forall j :: 0 <= j < |elems| ==> elems[j] == f(old(elems)[j], j)
    {
      if |elems| == 0 {
        return;
      }
      var idx := 0;
      while idx < |elems|
        invariant idx <= |elems| == |old(elems)|
        invariant forall j :: 0 <= j < idx ==> elems[j] == f(old(elems)[j], j)
        invariant forall j :: idx <= j < |elems| ==> elems[j] == old(elems)[j]
      {
        elems := elems[idx := f(elems[idx], idx)];
        idx := idx + 1;
      }
    }

    /** `fill(func, size)`: resize, then replace each element by `func(element, index)`. */
    method FillWithResized(f: (int, nat) -> int, size: nat)
      modifies this`elems
      ensures |elems| == size
      ensures forall j :: 0 <= j < size ==> elems[j] == f(if j < |old(elems)| then old(elems)[j] else 0, j)
    {
      elems := VectorCpu.Resized(elems, size);
      FillWith(f);
    }

    /**
     * `a op b` for two vectors: a fresh vector of the shorter length, empty
     * when either operand is; `/` and `%` give 0 wherever the divisor is 0.
     */
    method Zip(other: GpuVector, op: BinOp) returns (r: seq<int>)
      ensures r == ZipSpec(elems, other.elems, op)
      ensures |r| == VectorCpu.Min(|elems|, |other.elems|)
      ensures forall j :: 0 <= j < |r| && (op == Div || op == Mod) && other.elems[j] == 0 ==> r[j] == 0
    {
      var minSize := VectorCpu.Min(|elems|, |other.elems|);
      r := seq(minSize, _ => 0);
      if minSize == 0 {
        return;
      }
      var a, b := elems, other.elems;
      var idx := 0;
      while idx < minSize
        invariant idx <= minSize == |r|
        invariant forall j :: 0 <= j < idx ==> r[j] == GpuApply(op, a[j], b[j])
      {
        r := r[idx := GpuApply(op, a[idx], b[idx])];
        idx := idx + 1;
      }
    }

    /** `a op x` for a scalar x: the same length as `a`; `/ 0` and `% 0` give all zeros. */
    method ZipScalar(x: int, op: BinOp) returns (r: seq<int>)
      ensures r == ZipScalarSpec(elems, x, op)
      ensures (op == Div || op == Mod) && x == 0 ==> forall j :: 0 <= j < |r| ==> r[j] == 0
    {
      r := seq(|elems|, _ => 0);
      if |elems| == 0 {
        return;
      }
      var a := elems;
      var idx := 0;
      while idx < |a|
        invariant idx <= |a| == |r|
        invariant forall j :: 0 <= j < idx ==> r[j] == GpuApply(op, a[j], x)
      {
        r := r[idx := GpuApply(op, a[idx], x)];
        idx := idx + 1;
      }
    }

    /**
     * `a op= b`: an empty `a` is returned as it is; otherwise a size mismatch
     * is an error raised before any element changes, and each element becomes
     * `a[j] op b[j]`, what `a op b` would give.
     */
    method Assign(other: GpuVector, op: BinOp) returns (status: AssignStatus)
      requires Compound(op)
      modifies this`elems
      ensures status == SizeMismatch <==> |old(elems)| > 0 && |old(elems)| != |old(other.elems)|
      ensures status == SizeMismatch ==> elems == old(elems)
      ensures status == Assigned ==> elems == ZipSpec(old(elems), old(other.elems), op)
    {
      if |elems| == 0 {
        return Assigned;
      }
      if |elems| != |other.elems| {
        return SizeMismatch;
      }
      var b := other.elems;
      var idx := 0;
      while idx < |elems|
        invariant idx <= |elems| == |b| == |old(elems)|
        invariant forall j :: 0 <= j < idx ==> elems[j] == GpuApply(op, old(elems)[j], b[j])
        invariant forall j :: idx <= j < |elems| ==> elems[j] == old(elems)[j]
      {
        elems := elems[idx := GpuApply(op, elems[idx], b[idx])];
        idx := idx + 1;
      }
      status := Assigned;
    }

    /** `++a`: every element grows by one, in place. */
    method Increment()
      modifies this`elems
      ensures |elems| == |old(elems)|
      ensures forall j :: 0 <= j < |elems| ==> elems[j] == old(elems)[j] + 1
    {
      if |elems| == 0 {
        return;
      }
      var idx := 0;
      while idx < |elems|
        invariant idx <= |elems| == |old(elems)|
        invariant forall j :: 0 <= j < idx ==> elems[j] == old(elems)[j] + 1
        invariant forall j :: idx <= j < |elems| ==> elems[j] == old(elems)[j]
      {
        elems := elems[idx := elems[idx] + 1];
        idx := idx + 1;
      }
    }

    /** `--a`: every element shrinks by one, in place. */
    method Decrement()
      modifies this`elems
      ensures |elems| == |old(elems)|
      ensures forall j :: 0 <= j < |elems| ==> elems[j] == old(elems)[j] - 1
    {
      if |elems| == 0 {
        return;
      }
      var idx := 0;
      while idx < |elems|
        invariant idx <= |elems| == |old(elems)|
        invariant forall j :: 0 <= j < idx ==> elems[j] == old(elems)[j] - 1
        invariant forall j :: idx <= j < |elems| ==> elems[j] == old(elems)[j]
      {
        elems := elems[idx := elems[idx] - 1];
        idx := idx + 1;
      }
    }

    /**
     * `a++`: the same kernel as `++a`, and what it hands back is the vector
     * itself after the increment, not a copy of the old value.
     */
    method PostIncrement() returns (r: seq<int>)
      modifies this`elems
      ensures r == elems && |r| == |old(elems)|
      ensures forall j :: 0 <= j < |r| ==> r[j] == old(elems)[j] + 1
    {
      Increment();
      r := elems;
    }

    /** `a--`: the same kernel as `--a`; it hands back the vector after the decrement. */
    method PostDecrement() returns (r: seq<int>)
      modifies this`elems
      ensures r == elems && |r| == |old(elems)|
      ensures forall j :: 0 <= j < |r| ==> r[j] == old(elems)[j] - 1
    {
      Decrement();
      r := elems;
    }

    /** `~a` on two's-complement elements: each element becomes `-x - 1`. */
    method Complement() returns (r: seq<int>)
      ensures |r| == |elems|
      ensures forall j :: 0 <= j < |r| ==> r[j] + elems[j] == -1
    {
      if |elems| == 0 {
        return elems;
      }
      var a := elems;
      r := seq(|a|, _ => 0);
      var idx := 0;
      while idx < |a|
        invariant idx <= |a| == |r|
        invariant forall j :: 0 <= j < idx ==> r[j] == -a[j] - 1
      {
        r := r[idx := -a[idx] - 1];
        idx := idx + 1;
      }
    }

    /** `!a`: 1 where the element is 0, 0 elsewhere. */
    method Not() returns (r: seq<int>)
      ensures |r| == |elems|
      ensures forall j :: 0 <= j < |r| ==> (r[j] == 1 <==> elems[j] == 0) && (r[j] == 0 <==> elems[j] != 0)
    {
      if |elems| == 0 {
        return elems;
      }
      var a := elems;
      r := seq(|a|, _ => 0);
      var idx := 0;
      while idx < |a|
        invariant idx <= |a| == |r|
        invariant forall j :: 0 <= j < idx ==> r[j] == BoolInt(a[j] == 0)
      {
        r := r[idx := BoolInt(a[idx] == 0)];
        idx := idx + 1;
      }
    }
  }

  /**
   * `Lp_if_parallel(vec, func)` on a GPU vector: `func` gets each truthy
   * element by reference with its index, and only those elements change.
   */
  method IfParallel(vec: GpuVector, f: (int, nat) -> int)
    modifies vec`elems
    ensures |vec.elems| == |old(vec.elems)|
    ensures forall j :: 0 <= j < |vec.elems| ==>
      vec.elems[j] == (if old(vec.elems)[j] != 0 then f(old(vec.elems)[j], j) else old(vec.elems)[j])
  {
    if |vec.elems| == 0 {
      return;
    }
    var idx := 0;
    while idx < |vec.elems|
      invariant idx <= |vec.elems| == |old(vec.elems)|
      invariant forall j :: 0 <= j < |vec.elems| ==>
        vec.elems[j] == (if old(vec.elems)[j] != 0 && j < idx then f(old(vec.elems)[j], j) else old(vec.elems)[j])
    {
      if vec.elems[idx] != 0 {
        vec.elems := vec.elems[idx := f(vec.elems[idx], idx)];
      }
      idx := idx + 1;
    }
  }

  /**
   * `Lp_if_parallel` on a vector of flags: an empty vector calls nothing;
   * otherwise `hardware` threads stride over it as on the CPU and call `func`
   * once at every set flag.
   */
  method IfParallelFlags(vec: GpuVector, hardware: nat) returns (calls: seq<nat>)
    requires hardware <= VectorCpu.MAX_THREADS
    ensures hardware > 0 ==> forall j :: j in calls <==> 0 <= j < |vec.elems| && vec.elems[j] != 0
    ensures hardware == 0 ==> calls == []
    ensures forall p, q :: 0 <= p < q < |calls| ==> calls[p] != calls[q]
  {
    if |vec.elems| == 0 {
      return [];
    }
    calls := VectorCpu.IfParallel(vec.elems, hardware);
  }
}
