// `Lp_parallel_vector` (vector_cpu.hpp): a std::vector whose element-wise
// operations are split over `num_thread` threads, thread i handling the
// indices i, i + num_thread, i + 2 num_thread, ... The threads are run one
// after another here; each writes only its own indices.

module VectorCpu {
  import opened CArith

  /** The size of the fixed `std::thread threads[128]` array. */
  const MAX_THREADS: nat := 128

  function Min(a: nat, b: nat): (m: nat)
    ensures m <= a && m <= b && (m == a || m == b)
  {
    if a < b then a else b
  }

  /** `resize(size)`: the prefix that fits is kept, new elements are value-initialised. */
  function Resized(s: seq<int>, size: nat): (r: seq<int>)
    ensures |r| == size
    ensures forall j :: 0 <= j < size ==> r[j] == (if j < |s| then s[j] else 0)
  {
    seq(size, j requires 0 <= j < size => if j < |s| then s[j] else 0)
  }

  /**
   * The thread that visits index k when numThread threads stride over a
   * vector: thread i visits i, i + numThread, i + 2 numThread, ...
   */
  function Lane(k: nat, numThread: nat): (i: nat)
    requires numThread > 0
    ensures i < numThread && i <= k
    decreases k
  {
    if k < numThread then k else Lane(k - numThread, numThread)
  }

  /** The thread that visits k is k's remainder modulo the thread count. */
  lemma {:induction false} LaneIsRemainder(k: nat, numThread: nat)
    requires numThread > 0
    ensures Lane(k, numThread) == k % numThread
    decreases k
  {
    if k < numThread {
      ModUnique(k, numThread, 0, k);
    } else {
      LaneIsRemainder(k - numThread, numThread);
      var q, r := (k - numThread) / numThread, (k - numThread) % numThread;
      assert k - numThread == numThread * q + r;
      ModUnique(k, numThread, q + 1, r);
    }
  }

  /** Within one stride, only the index itself is visited by its thread. */
  lemma {:induction false} LaneWindow(j: nat, k: nat, numThread: nat)
    requires numThread > 0 && Lane(j, numThread) == Lane(k, numThread) && j <= k < j + numThread
    ensures k == j
    decreases j
  {
    if j >= numThread {
      LaneWindow(j - numThread, k - numThread, numThread);
    }
  }

  /**
   * The threads of one element-wise operation, run in turn: thread i writes
   * `f(j)` at j = i, i + numThread, ... below n. Together they write every
   * index once; with no thread at all nothing is written.
   */
  method StridedMap(n: nat, numThread: nat, f: nat --> int, init: seq<int>) returns (r: seq<int>)
    requires |init| == n && numThread <= MAX_THREADS
    requires forall j :: 0 <= j < n ==> f.requires(j)
    ensures |r| == n
    ensures numThread > 0 ==> forall j :: 0 <= j < n ==> r[j] == f(j)
    ensures numThread == 0 ==> r == init
  {
    r := init;
    var i := 0;
    while i < numThread
      invariant i <= numThread && |r| == n
      invariant forall k :: 0 <= k < n ==> r[k] == (if numThread > 0 && Lane(k, numThread) < i then f(k) else init[k])
    {
      r := StrideThread(n, numThread, i, f, r);
      i := i + 1;
    }
  }

  /** Thread i of `StridedMap`: writes `f(j)` at exactly the indices below n that it visits. */
  method StrideThread(n: nat, numThread: nat, i: nat, f: nat --> int, init: seq<int>) returns (r: seq<int>)
    requires |init| == n && i < numThread
    requires forall j :: 0 <= j < n ==> f.requires(j)
    ensures |r| == n
    ensures forall k :: 0 <= k < n ==> r[k] == (if Lane(k, numThread) == i then f(k) else init[k])
  {
    r := init;
    var j := i;
    while j < n
      invariant Lane(j, numThread) == i && |r| == n
      invariant StridePrefix(r, init, f, numThread, i, j)
    {
      StrideStep(r, init, f, numThread, i, j);
      r := r[j := f(j)];
      j := j + numThread;
    }
  }

  /** After thread i has reached index j: its indices below j hold `f`, every other index its initial value. */
  ghost predicate StridePrefix(r: seq<int>, init: seq<int>, f: nat --> int, numThread: nat, i: nat, j: nat)
    requires |r| == |init| && numThread > 0
    requires forall k :: 0 <= k < |r| ==> f.requires(k)
  {
    forall k :: 0 <= k < |r| ==> r[k] == (if Lane(k, numThread) == i && k < j then f(k) else init[k])
  }

  /** One step of thread i: writing index j moves its prefix on to j + numThread. */
  lemma StrideStep(r: seq<int>, init: seq<int>, f: nat --> int, numThread: nat, i: nat, j: nat)
    requires |r| == |init| && numThread > 0 && j < |r| && Lane(j, numThread) == i
    requires forall k :: 0 <= k < |r| ==> f.requires(k)
    requires StridePrefix(r, init, f, numThread, i, j)
    ensures Lane(j + numThread, numThread) == i
    ensures StridePrefix(r[j := f(j)], init, f, numThread, i, j + numThread)
  {
    forall k | 0 <= k < |r| && Lane(k, numThread) == i && j <= k < j + numThread
      ensures k == j
    {
      LaneWindow(j, k, numThread);
    }
  }

  class CpuVector {
    var elems: seq<int>
    var numThread: nat

    ghost predicate Valid()
      reads this
    {
      numThread <= MAX_THREADS
    }

    /** `Lp_parallel_vector(n)`: n value-initialised elements; `hardware` is `hardware_concurrency()`. */
    constructor (n: nat, hardware: nat)
      requires hardware <= MAX_THREADS
      ensures Valid() && elems == seq(n, _ => 0) && numThread == hardware
    {
      elems := seq(n, _ => 0);
      numThread := hardware;
    }

    /** `fill(value)`: every element becomes `value`; with no thread nothing changes. */
    method Fill(value: int)
      requires Valid()
      modifies this`elems
      ensures |elems| == |old(elems)|
      ensures numThread > 0 ==> forall j :: 0 <= j < |elems| ==> elems[j] == value
      ensures numThread == 0 ==> elems == old(elems)
    {
      elems := StridedMap(|elems|, numThread, _ => value, elems);
    }

    /** `fill(value, size)`: resize, then fill. */
    method FillResized(value: int, size: nat)
      requires Valid()
      modifies this`elems
      ensures |elems| == size
      ensures numThread > 0 ==> forall j :: 0 <= j < size ==> elems[j] == value
      ensures numThread == 0 ==> elems == Resized(old(elems), size)
    {
      elems := Resized(elems, size);
      Fill(value);
    }

    /** `fill(func)`: each element replaced by `func(element, index)`. */
    method FillWith(f: (int, nat) -> int)
      requires Valid()
      modifies this`elems
      ensures |elems| == |old(elems)|
      ensures numThread > 0 ==> forall j :: 0 <= j < |elems| ==> elems[j] == f(old(elems)[j], j)
      ensures numThread == 0 ==> elems == old(elems)
    {
      var s := elems;
      elems := StridedMap(|s|, numThread, (j: nat) requires j < |s| => f(s[j], j), s);
    }

    /** `fill(func, size)`: resize, then replace each element by `func(element, index)`. */
    method FillWithResized(f: (int, nat) -> int, size: nat)
      requires Valid()
      modifies this`elems
      ensures |elems| == size
      ensures numThread > 0 ==> forall j :: 0 <= j < size ==> elems[j] == f(if j < |old(elems)| then old(elems)[j] else 0, j)
      ensures numThread == 0 ==> elems == Resized(old(elems), size)
    {
      elems := Resized(elems, size);
      FillWith(f);
    }

    /**
     * `a op b` for two vectors: a fresh vector of the shorter length, each
     * element `a[j] op b[j]`. Division and remainder have no zero guard here.
     */
    method Zip(other: CpuVector, op: BinOp) returns (r: seq<int>)
      requires Valid()
      requires numThread > 0 && (op == Div || op == Mod) ==>
        forall j :: 0 <= j < Min(|elems|, |other.elems|) ==> other.elems[j] != 0
      ensures |r| == Min(|elems|, |other.elems|)
      ensures numThread > 0 ==> forall j :: 0 <= j < |r| ==> r[j] == Apply(op, elems[j], other.elems[j])
      ensures numThread == 0 ==> forall j :: 0 <= j < |r| ==> r[j] == 0
    {
      var a, b := elems, other.elems;
      var n := Min(|a|, |b|);
      if numThread == 0 {
        r := seq(n, _ => 0);
      } else {
        r := StridedMap(n, numThread, (j: nat) requires j < n => Apply(op, a[j], b[j]), seq(n, _ => 0));
      }
    }

    /** `a op x` for a scalar x: the same length as `a`, each element `a[j] op x`. */
    method ZipScalar(x: int, op: BinOp) returns (r: seq<int>)
      requires Valid()
      requires numThread > 0 && |elems| > 0 && (op == Div || op == Mod) ==> x != 0
      ensures |r| == |elems|
      ensures numThread > 0 ==> forall j :: 0 <= j < |r| ==> r[j] == Apply(op, elems[j], x)
      ensures numThread == 0 ==> forall j :: 0 <= j < |r| ==> r[j] == 0
    {
      var a := elems;
      if numThread == 0 {
        r := seq(|a|, _ => 0);
      } else {
        r := StridedMap(|a|, numThread, (j: nat) requires j < |a| => Apply(op, a[j], x), seq(|a|, _ => 0));
      }
    }

    /** `!a`: 1 where the element is 0, 0 elsewhere. */
    method Not() returns (r: seq<int>)
      requires Valid()
      ensures |r| == |elems|
      ensures numThread > 0 ==> forall j :: 0 <= j < |r| ==> (r[j] == 1 <==> elems[j] == 0) && 0 <= r[j] <= 1
      ensures numThread == 0 ==> forall j :: 0 <= j < |r| ==> r[j] == 0
    {
      var a := elems;
      r := StridedMap(|a|, numThread, (j: nat) requires j < |a| => BoolInt(a[j] == 0), seq(|a|, _ => 0));
    }

    /** `~a` on two's-complement elements: each element becomes `-x - 1`. */
    method Complement() returns (r: seq<int>)
      requires Valid()
      ensures |r| == |elems|
      ensures numThread > 0 ==> forall j :: 0 <= j < |r| ==> r[j] + elems[j] == -1
      ensures numThread == 0 ==> forall j :: 0 <= j < |r| ==> r[j] == 0
    {
      var a := elems;
      r := StridedMap(|a|, numThread, (j: nat) requires j < |a| => -a[j] - 1, seq(|a|, _ => 0));
    }
  }

  /**
   * `Lp_if_single_threaded(vec, func)`: `func` is called at every index whose
   * element is truthy, in ascending order; the result is that call trace.
   */
  method IfSingleThreaded(v: seq<int>) returns (calls: seq<nat>)
    ensures forall p, q :: 0 <= p < q < |calls| ==> calls[p] < calls[q]
    ensures forall j :: j in calls <==> 0 <= j < |v| && v[j] != 0
  {
    calls := [];
    var j := 0;
    while j < |v|
      invariant j <= |v|
      invariant forall p, q :: 0 <= p < q < |calls| ==> calls[p] < calls[q]
      invariant forall p :: 0 <= p < |calls| ==> calls[p] < j
      invariant forall c :: c in calls <==> 0 <= c < j && v[c] != 0
    {
      if v[j] != 0 {
        calls := calls + [j];
      }
      j := j + 1;
    }
  }

  /**
   * `Lp_if_parallel(vec, func)` with `hardware` threads, run in turn: the
   * trace holds every truthy index exactly once, thread by thread.
   */
  method IfParallel(v: seq<int>, hardware: nat) returns (calls: seq<nat>)
    requires hardware <= MAX_THREADS
    ensures hardware > 0 ==> forall j :: j in calls <==> 0 <= j < |v| && v[j] != 0
    ensures forall p, q :: 0 <= p < q < |calls| ==> calls[p] != calls[q]
    ensures hardware == 0 ==> calls == []
  {
    calls := [];
    var i := 0;
    while i < hardware
      invariant i <= hardware && (hardware == 0 ==> calls == [])
      invariant forall p, q :: 0 <= p < q < |calls| ==> calls[p] != calls[q]
      invariant forall c :: c in calls <==> 0 <= c < |v| && v[c] != 0 && hardware > 0 && Lane(c, hardware) < i
    {
      calls := IfThread(v, hardware, i, calls);
      i := i + 1;
    }
  }

  /** Thread i of `IfParallel`: appends to the trace every truthy index it visits. */
  method IfThread(v: seq<int>, hardware: nat, i: nat, calls0: seq<nat>) returns (calls: seq<nat>)
    requires i < hardware
    requires forall p, q :: 0 <= p < q < |calls0| ==> calls0[p] != calls0[q]
    requires forall c :: c in calls0 ==> Lane(c, hardware) < i
    ensures forall p, q :: 0 <= p < q < |calls| ==> calls[p] != calls[q]
    ensures forall c :: c in calls <==> c in calls0 || (0 <= c < |v| && v[c] != 0 && Lane(c, hardware) == i)
  {
    calls := calls0;
    var j := i;
    while j < |v|
      invariant Lane(j, hardware) == i
      invariant forall p, q :: 0 <= p < q < |calls| ==> calls[p] != calls[q]
      invariant forall c :: c in calls <==> c in calls0 || (0 <= c < |v| && v[c] != 0 && Lane(c, hardware) == i && c < j)
    {
      if v[j] != 0 {
        calls := calls + [j];
      }
      forall k | 0 <= k < |v| && Lane(k, hardware) == i && j <= k < j + hardware
        ensures k == j
      {
        LaneWindow(j, k, hardware);
      }
      j := j + hardware;
    }
  }
}
