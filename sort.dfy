// `Lp_sort` (vector_cpu.hpp): an iterative quicksort over a copy of the
// vector. Ranges [low, high] wait on a stack; a range with fewer than 1000
// gaps goes to the library sort, a longer one is split by a Hoare partition
// around its middle element and its two halves are pushed back. The worker
// threads that pop ranges concurrently are run here as one loop: they only
// ever touch disjoint ranges.

module VectorSort {
  import opened VectorCpu

  /** A range with `high - low` below this goes to the library sort. */
  const SMALL: nat := 1000

  ghost predicate Sorted(s: seq<int>)
  {
    forall x, y :: 0 <= x < y < |s| ==> s[x] <= s[y]
  }

  // ---------------------------------------------------------------------
  // The library sort of a short range, as an insertion sort on values.
  // ---------------------------------------------------------------------

  /** `x` put into its place in the sorted `s`. */
  function Insert(x: int, s: seq<int>): (r: seq<int>)
    requires Sorted(s)
    ensures |r| == |s| + 1 && Sorted(r)
    ensures multiset(r) == multiset(s) + multiset{x}
    ensures r[0] == x || (|s| > 0 && r[0] == s[0])
  {
    if |s| == 0 || x <= s[0] then [x] + s
    else
      assert s == [s[0]] + s[1..];
      var rest := Insert(x, s[1..]);
      assert forall k :: 0 <= k < |rest| ==> s[0] <= rest[k] by {
        forall k | 0 <= k < |rest|
          ensures s[0] <= rest[k]
        {
          if k > 0 {
            assert rest[0] <= rest[k];
          }
        }
      }
      [s[0]] + rest
  }

  /** `std::sort(first, last)` on the values of a range: sorted, and a permutation of them. */
  function InsertionSort(s: seq<int>): (r: seq<int>)
    ensures |r| == |s| && Sorted(r)
    ensures multiset(r) == multiset(s)
  {
    if |s| == 0 then []
    else
      assert s == [s[0]] + s[1..];
      Insert(s[0], InsertionSort(s[1..]))
  }

  /** The range [lo, hi] of `a` replaced by its sorted values; nothing else moves. */
  method SortRange(a: array<int>, lo: nat, hi: nat)
    requires lo <= hi < a.Length
    modifies a
    ensures a[lo..hi + 1] == InsertionSort(old(a[lo..hi + 1]))
    ensures multiset(a[lo..hi + 1]) == multiset(old(a[lo..hi + 1]))
    ensures forall x, y :: lo <= x < y <= hi ==> a[x] <= a[y]
    ensures forall k :: 0 <= k < a.Length && !(lo <= k <= hi) ==> a[k] == old(a[k])
  {
    var t := InsertionSort(a[lo..hi + 1]);
    forall k | lo <= k <= hi {
      a[k] := t[k - lo];
    }
    assert a[lo..hi + 1] == t;
    forall x, y | lo <= x < y <= hi
      ensures a[x] <= a[y]
    {
      assert a[x] == t[x - lo] && a[y] == t[y - lo];
    }
  }

  // ---------------------------------------------------------------------
  // The partition of a long range.
  // ---------------------------------------------------------------------

  /** `std::swap(arr[i], arr[j])` inside [lo, hi]: the values of the range stay the same. */
  method SwapIn(a: array<int>, lo: nat, hi: nat, i: nat, j: nat)
    requires lo <= i <= hi < a.Length && lo <= j <= hi
    modifies a
    ensures a[i] == old(a[j]) && a[j] == old(a[i])
    ensures forall k :: 0 <= k < a.Length && k != i && k != j ==> a[k] == old(a[k])
    ensures multiset(a[lo..hi + 1]) == multiset(old(a[lo..hi + 1]))
  {
    ghost var s := a[lo..hi + 1];
    a[i], a[j] := a[j], a[i];
    assert a[lo..hi + 1] == s[i - lo := s[j - lo]][j - lo := s[i - lo]];
  }

  /**
   * The partition of [lo, hi] around the middle element: scan up past smaller
   * elements, scan down past larger ones, swap the two that stopped and step
   * past them, until the scans cross. The index returned splits the range
   * into two non-empty parts, every element of the first no larger than every
   * element of the second.
   */
  method Partition(a: array<int>, lo: nat, hi: nat) returns (p: nat)
    requires lo < hi < a.Length
    modifies a
    ensures lo <= p < hi
    ensures forall x, y :: lo <= x <= p < y <= hi ==> a[x] <= a[y]
    ensures forall k :: 0 <= k < a.Length && !(lo <= k <= hi) ==> a[k] == old(a[k])
    ensures multiset(a[lo..hi + 1]) == multiset(old(a[lo..hi + 1]))
  {
    var pivot := a[lo + (hi - lo) / 2];
    var i, j := lo, hi;
    // si and sj are the elements that stop the two scans
    ghost var si, sj := lo + (hi - lo) / 2, lo + (hi - lo) / 2;
    while true
      invariant lo <= i <= si <= hi && lo <= sj <= j <= hi && i <= j + 1
      invariant pivot <= a[si] && a[sj] <= pivot
      invariant si < hi || j < hi
      invariant forall k :: lo <= k < i ==> a[k] <= pivot
      invariant forall k :: j < k <= hi ==> pivot <= a[k]
      invariant forall k :: 0 <= k < a.Length && !(lo <= k <= hi) ==> a[k] == old(a[k])
      invariant multiset(a[lo..hi + 1]) == multiset(old(a[lo..hi + 1]))
      decreases j + 1 - i
    {
      while i < a.Length && a[i] < pivot
        invariant lo <= i <= si
        invariant forall k :: lo <= k < i ==> a[k] <= pivot
      {
        i := i + 1;
      }
      while j > 0 && pivot < a[j]
        invariant sj <= j <= hi
        invariant forall k :: j < k <= hi ==> pivot <= a[k]
      {
        j := j - 1;
      }
      if i >= j {
        p := j;
        break;
      }
      SwapIn(a, lo, hi, i, j);
      si, sj := j, i;
      i, j := i + 1, j - 1;
    }
  }

  // ---------------------------------------------------------------------
  // The stack of pending ranges.
  // ---------------------------------------------------------------------

  /** A pending range [lo, hi] of the copy. */
  datatype Task = Task(lo: nat, hi: nat)

  predicate Holds(t: Task, x: int)
  {
    t.lo <= x <= t.hi
  }

  predicate Apart(t: Task, u: Task)
  {
    t.hi < u.lo || u.hi < t.lo
  }

  /** Some pending range holds both x and y. */
  ghost predicate SameTask(ts: seq<Task>, x: int, y: int)
  {
    |ts| > 0 && ((Holds(ts[|ts| - 1], x) && Holds(ts[|ts| - 1], y)) || SameTask(ts[..|ts| - 1], x, y))
  }

  /** The termination measure: every range counts 2 (hi - lo) + 1. */
  function Weight(ts: seq<Task>): (w: nat)
    requires forall p :: 0 <= p < |ts| ==> ts[p].lo <= ts[p].hi
    ensures |ts| > 0 ==> w > 0
  {
    if |ts| == 0 then 0
    else Weight(ts[..|ts| - 1]) + 2 * (ts[|ts| - 1].hi - ts[|ts| - 1].lo) + 1
  }

  lemma {:induction false} SameTaskConcat(r: seq<Task>, n: seq<Task>, x: int, y: int)
    ensures SameTask(r + n, x, y) <==> SameTask(r, x, y) || SameTask(n, x, y)
    decreases |n|
  {
    if |n| > 0 {
      assert (r + n)[..|r + n| - 1] == r + n[..|n| - 1];
      SameTaskConcat(r, n[..|n| - 1], x, y);
    } else {
      assert r + n == r;
    }
  }

  /** The pending range that holds both x and y. */
  lemma {:induction false} SameTaskWitness(ts: seq<Task>, x: int, y: int) returns (p: nat)
    requires SameTask(ts, x, y)
    ensures p < |ts| && Holds(ts[p], x) && Holds(ts[p], y)
    decreases |ts|
  {
    if Holds(ts[|ts| - 1], x) && Holds(ts[|ts| - 1], y) {
      p := |ts| - 1;
    } else {
      p := SameTaskWitness(ts[..|ts| - 1], x, y);
    }
  }

  /** The pending ranges lie inside a copy of n elements. */
  ghost predicate Inside(ts: seq<Task>, n: nat)
  {
    forall p :: 0 <= p < |ts| ==> ts[p].lo <= ts[p].hi < n
  }

  /** No two pending ranges overlap. */
  ghost predicate AllApart(ts: seq<Task>)
  {
    forall p, q :: 0 <= p < q < |ts| ==> Apart(ts[p], ts[q])
  }

  /** Any two elements that are not waiting in one range are in order. */
  ghost predicate OrderedOutside(a: seq<int>, ts: seq<Task>)
  {
    forall x, y :: 0 <= x < y < |a| && !SameTask(ts, x, y) ==> a[x] <= a[y]
  }

  /** The invariant of the stack of pending ranges. */
  ghost predicate WorkInv(a: seq<int>, ts: seq<Task>)
  {
    Inside(ts, |a|) && AllApart(ts) && OrderedOutside(a, ts)
  }

  /** Once no range is pending the copy is sorted. */
  lemma DoneIsSorted(a: seq<int>)
    requires WorkInv(a, [])
    ensures Sorted(a)
  {
  }

  /** The whole copy as the one pending range satisfies the invariant. */
  lemma StartInv(a: seq<int>)
    requires |a| > 0
    ensures WorkInv(a, [Task(0, |a| - 1)])
  {
    var t := Task(0, |a| - 1);
    forall x, y | 0 <= x < y < |a|
      ensures SameTask([t], x, y)
    {
      SameTaskSingle(t, x, y);
    }
  }

  lemma SameTaskSingle(t: Task, x: int, y: int)
    ensures SameTask([t], x, y) <==> Holds(t, x) && Holds(t, y)
  {
    assert [t][..0] == [];
  }

  /** The ranges still on the stack under a popped range lie apart from it. */
  lemma PoppedApart(rest: seq<Task>, t: Task, n: nat)
    requires Inside(rest + [t], n) && AllApart(rest + [t])
    ensures Inside(rest, n) && AllApart(rest) && t.lo <= t.hi < n
    ensures forall p :: 0 <= p < |rest| ==> Apart(rest[p], t)
  {
    var ts := rest + [t];
    assert ts[|rest|] == t;
    assert forall p :: 0 <= p < |rest| ==> ts[p] == rest[p];
  }

  /** An element left of a popped range is no larger than anything in it. */
  lemma LeftOfTask(a: seq<int>, rest: seq<Task>, t: Task, x: nat, m: nat)
    requires OrderedOutside(a, rest + [t]) && t.hi < |a|
    requires forall p :: 0 <= p < |rest| ==> Apart(rest[p], t)
    requires x < t.lo && Holds(t, m)
    ensures a[x] <= a[m]
  {
    var ts := rest + [t];
    assert ts[..|ts| - 1] == rest && ts[|ts| - 1] == t;
    if SameTask(rest, x, m) {
      var p := SameTaskWitness(rest, x, m);
      assert false;
    }
  }

  /** An element right of a popped range is no smaller than anything in it. */
  lemma RightOfTask(a: seq<int>, rest: seq<Task>, t: Task, m: nat, y: nat)
    requires OrderedOutside(a, rest + [t]) && y < |a|
    requires forall p :: 0 <= p < |rest| ==> Apart(rest[p], t)
    requires t.hi < y && Holds(t, m)
    ensures a[m] <= a[y]
  {
    var ts := rest + [t];
    assert ts[..|ts| - 1] == rest && ts[|ts| - 1] == t;
    if SameTask(rest, m, y) {
      var p := SameTaskWitness(rest, m, y);
      assert false;
    }
  }

  /** Two elements outside a popped range keep their order unless another range holds both. */
  lemma OutsideTask(a: seq<int>, rest: seq<Task>, t: Task, x: nat, y: nat)
    requires OrderedOutside(a, rest + [t])
    requires x < y < |a| && !Holds(t, x) && !Holds(t, y) && !SameTask(rest, x, y)
    ensures a[x] <= a[y]
  {
    var ts := rest + [t];
    assert ts[..|ts| - 1] == rest && ts[|ts| - 1] == t;
    assert !SameTask(ts, x, y);
  }

  /** The value at m of a range whose values were permuted came from that range. */
  lemma FromRange(a: seq<int>, a': seq<int>, lo: nat, hi: nat, m: nat) returns (src: nat)
    requires lo <= hi < |a| == |a'| && lo <= m <= hi
    requires multiset(a'[lo..hi + 1]) == multiset(a[lo..hi + 1])
    ensures lo <= src <= hi && a[src] == a'[m]
  {
    assert a'[m] == a'[lo..hi + 1][m - lo];
    assert a'[m] in multiset(a[lo..hi + 1]);
    var i :| 0 <= i < hi + 1 - lo && a[lo..hi + 1][i] == a'[m];
    src := lo + i;
  }

  /** Replacing a popped range by ranges inside it keeps the ranges inside the copy and apart. */
  lemma SettleRanges(rest: seq<Task>, t: Task, news: seq<Task>, n: nat)
    requires Inside(rest, n) && AllApart(rest) && t.lo <= t.hi < n
    requires forall p :: 0 <= p < |rest| ==> Apart(rest[p], t)
    requires forall p :: 0 <= p < |news| ==> t.lo <= news[p].lo <= news[p].hi <= t.hi
    requires forall p, q :: 0 <= p < q < |news| ==> Apart(news[p], news[q])
    ensures Inside(rest + news, n) && AllApart(rest + news)
  {
    var ts := rest + news;
    assert forall p :: 0 <= p < |rest| ==> ts[p] == rest[p];
    assert forall p :: |rest| <= p < |ts| ==> ts[p] == news[p - |rest|];
    forall p, q | 0 <= p < q < |ts|
      ensures Apart(ts[p], ts[q])
    {
      if q < |rest| {
      } else if p < |rest| {
        assert Apart(rest[p], t);
      } else {
        assert Apart(news[p - |rest|], news[q - |rest|]);
      }
    }
  }

  /** An element left of a popped range is no larger than any value the range holds afterwards. */
  lemma SettleLeft(a: seq<int>, a': seq<int>, rest: seq<Task>, t: Task, x: nat, y: nat)
    requires OrderedOutside(a, rest + [t]) && t.lo <= t.hi < |a| == |a'|
    requires forall p :: 0 <= p < |rest| ==> Apart(rest[p], t)
    requires multiset(a'[t.lo..t.hi + 1]) == multiset(a[t.lo..t.hi + 1])
    requires x < t.lo && Holds(t, y)
    ensures a[x] <= a'[y]
  {
    var src := FromRange(a, a', t.lo, t.hi, y);
    LeftOfTask(a, rest, t, x, src);
  }

  /** An element right of a popped range is no smaller than any value the range holds afterwards. */
  lemma SettleRight(a: seq<int>, a': seq<int>, rest: seq<Task>, t: Task, x: nat, y: nat)
    requires OrderedOutside(a, rest + [t]) && t.lo <= t.hi < y < |a| == |a'|
    requires forall p :: 0 <= p < |rest| ==> Apart(rest[p], t)
    requires multiset(a'[t.lo..t.hi + 1]) == multiset(a[t.lo..t.hi + 1])
    requires Holds(t, x)
    ensures a'[x] <= a[y]
  {
    var src := FromRange(a, a', t.lo, t.hi, x);
    RightOfTask(a, rest, t, src, y);
  }

  /**
   * What handling a popped range t leaves behind: its values permuted in
   * place and nothing else moved, the ranges `news` pushed in its stead lie
   * inside it, apart and lighter than it, and any two of its elements that
   * no new range holds are in order.
   */
  ghost predicate Settled(a: seq<int>, a': seq<int>, t: Task, news: seq<Task>)
  {
    t.lo <= t.hi < |a| == |a'| &&
    (forall k :: 0 <= k < |a| && !Holds(t, k) ==> a'[k] == a[k]) &&
    multiset(a'[t.lo..t.hi + 1]) == multiset(a[t.lo..t.hi + 1]) &&
    (forall p :: 0 <= p < |news| ==> t.lo <= news[p].lo <= news[p].hi <= t.hi) &&
    (forall p, q :: 0 <= p < q < |news| ==> Apart(news[p], news[q])) &&
    (forall x, y :: t.lo <= x < y <= t.hi && !SameTask(news, x, y) ==> a'[x] <= a'[y]) &&
    Weight(news) < 2 * (t.hi - t.lo) + 1
  }

  /**
   * Settling a popped range restores the invariant, keeps the values of the
   * copy and lightens the stack.
   */
  lemma Settle(a: seq<int>, a': seq<int>, rest: seq<Task>, t: Task, news: seq<Task>)
    requires WorkInv(a, rest + [t]) && Settled(a, a', t, news)
    ensures WorkInv(a', rest + news)
    ensures multiset(a') == multiset(a)
    ensures Weight(rest + news) < Weight(rest + [t])
  {
    PoppedApart(rest, t, |a|);
    SettleRanges(rest, t, news, |a|);
    forall x, y | 0 <= x < y < |a'| && !SameTask(rest + news, x, y)
      ensures a'[x] <= a'[y]
    {
      SameTaskConcat(rest, news, x, y);
      if Holds(t, x) && Holds(t, y) {
      } else if Holds(t, y) {
        SettleLeft(a, a', rest, t, x, y);
      } else if Holds(t, x) {
        SettleRight(a, a', rest, t, x, y);
      } else {
        OutsideTask(a, rest, t, x, y);
      }
    }
    RangeKeepsMultiset(a, a', t.lo, t.hi);
    WeightConcat(rest, [t]);
    WeightConcat(rest, news);
    assert [t][..0] == [];
  }

  lemma {:induction false} WeightConcat(r: seq<Task>, n: seq<Task>)
    requires forall p :: 0 <= p < |r| ==> r[p].lo <= r[p].hi
    requires forall p :: 0 <= p < |n| ==> n[p].lo <= n[p].hi
    ensures forall p :: 0 <= p < |r + n| ==> (r + n)[p].lo <= (r + n)[p].hi
    ensures Weight(r + n) == Weight(r) + Weight(n)
    decreases |n|
  {
    if |n| == 0 {
      assert r + n == r;
    } else {
      assert (r + n)[..|r + n| - 1] == r + n[..|n| - 1];
      WeightConcat(r, n[..|n| - 1]);
    }
  }

  /** The ranges a partition at p pushes: [lo, p] when it has two elements or more, then [p + 1, hi]. */
  function Halves(t: Task, p: nat): (news: seq<Task>)
    requires t.lo <= p < t.hi
    ensures forall q :: 0 <= q < |news| ==> t.lo <= news[q].lo <= news[q].hi <= t.hi
    ensures forall q, q' :: 0 <= q < q' < |news| ==> Apart(news[q], news[q'])
    ensures forall x, y :: t.lo <= x < y <= t.hi && !SameTask(news, x, y) ==> x <= p < y
  {
    var right := [Task(p + 1, t.hi)];
    var news := if p > 0 && t.lo < p then [Task(t.lo, p)] + right else right;
    assert forall x, y :: t.lo <= x < y <= t.hi && !SameTask(news, x, y) ==> x <= p < y by {
      forall x, y | t.lo <= x < y <= t.hi && !SameTask(news, x, y)
        ensures x <= p < y
      {
        SameTaskSingle(Task(p + 1, t.hi), x, y);
        if p > 0 && t.lo < p {
          SameTaskConcat([Task(t.lo, p)], right, x, y);
          SameTaskSingle(Task(t.lo, p), x, y);
        }
      }
    }
    news
  }

  /** The halves of a partitioned range weigh less than the range. */
  lemma HalvesLighter(t: Task, p: nat)
    requires t.lo <= p < t.hi
    ensures Weight(Halves(t, p)) < 2 * (t.hi - t.lo) + 1
  {
    var right := Task(p + 1, t.hi);
    assert [right][..0] == [];
    if p > 0 && t.lo < p {
      var left := Task(t.lo, p);
      assert Halves(t, p) == [left, right];
      assert [left, right][..1] == [left];
      assert [left][..0] == [];
      assert Weight([left]) == 2 * (p - t.lo) + 1;
    } else {
      assert Halves(t, p) == [right];
    }
  }

  /**
   * The handling of one popped range [lo, hi]: fewer than 1000 gaps go to the
   * library sort and push nothing; a longer range is partitioned and its
   * halves are returned to be pushed.
   */
  method RunTask(a: array<int>, t: Task) returns (news: seq<Task>)
    requires t.lo <= t.hi < a.Length
    modifies a
    ensures Settled(old(a[..]), a[..], t, news)
  {
    if t.hi - t.lo < SMALL {
      SortTask(a, t);
      news := [];
    } else {
      news := PartitionTask(a, t);
    }
  }

  /** A short range handed to the library sort. */
  method SortTask(a: array<int>, t: Task)
    requires t.lo <= t.hi < a.Length
    modifies a
    ensures Settled(old(a[..]), a[..], t, [])
  {
    SortRange(a, t.lo, t.hi);
    SortSettles(old(a[..]), a[..], t);
  }

  /** A long range partitioned; its halves are returned to be pushed. */
  method PartitionTask(a: array<int>, t: Task) returns (news: seq<Task>)
    requires t.lo < t.hi < a.Length
    modifies a
    ensures Settled(old(a[..]), a[..], t, news)
  {
    var p := Partition(a, t.lo, t.hi);
    news := Halves(t, p);
    PartitionSettles(old(a[..]), a[..], t, p);
  }

  /** A range sorted in place is settled with nothing pushed. */
  lemma SortSettles(a: seq<int>, a': seq<int>, t: Task)
    requires t.lo <= t.hi < |a| == |a'|
    requires forall k :: 0 <= k < |a| && !(t.lo <= k <= t.hi) ==> a'[k] == a[k]
    requires multiset(a'[t.lo..t.hi + 1]) == multiset(a[t.lo..t.hi + 1])
    requires forall x, y :: t.lo <= x < y <= t.hi ==> a'[x] <= a'[y]
    ensures Settled(a, a', t, [])
  {
  }

  /**
   * The workers' loop: start from the whole copy [0, n - 1], pop the last
   * pending range, sort it if it is short, or partition it and push its
   * halves; stop when nothing is pending. The copy ends sorted and holds the
   * same values.
   */
  method ProcessTasks(a: array<int>)
    requires a.Length > 1
    modifies a
    ensures Sorted(a[..])
    ensures multiset(a[..]) == multiset(old(a[..]))
  {
    var tasks := [Task(0, a.Length - 1)];
    StartInv(a[..]);
    while |tasks| > 0
      invariant WorkInv(a[..], tasks)
      invariant multiset(a[..]) == multiset(old(a[..]))
      decreases Weight(tasks)
    {
      var t := tasks[|tasks| - 1];
      var rest := tasks[..|tasks| - 1];
      assert tasks == rest + [t];
      PoppedApart(rest, t, a.Length);
      ghost var before := a[..];
      var news := RunTask(a, t);
      tasks := rest + news;
      Settle(before, a[..], rest, t, news);
    }
    DoneIsSorted(a[..]);
  }

  /** A range partitioned at p is settled with its halves pushed. */
  lemma PartitionSettles(a: seq<int>, a': seq<int>, t: Task, p: nat)
    requires t.lo <= p < t.hi < |a| == |a'|
    requires forall k :: 0 <= k < |a| && !(t.lo <= k <= t.hi) ==> a'[k] == a[k]
    requires multiset(a'[t.lo..t.hi + 1]) == multiset(a[t.lo..t.hi + 1])
    requires forall x, y :: t.lo <= x <= p < y <= t.hi ==> a'[x] <= a'[y]
    ensures Settled(a, a', t, Halves(t, p))
  {
    HalvesLighter(t, p);
  }

  /** Permuting the values of one range permutes the values of the whole. */
  lemma RangeKeepsMultiset(a: seq<int>, a': seq<int>, lo: nat, hi: nat)
    requires lo <= hi < |a| == |a'|
    requires forall k :: 0 <= k < |a| && !(lo <= k <= hi) ==> a'[k] == a[k]
    requires multiset(a'[lo..hi + 1]) == multiset(a[lo..hi + 1])
    ensures multiset(a') == multiset(a)
  {
    assert a == a[..lo] + a[lo..hi + 1] + a[hi + 1..];
    assert a' == a'[..lo] + a'[lo..hi + 1] + a'[hi + 1..];
    assert a'[..lo] == a[..lo] && a'[hi + 1..] == a[hi + 1..];
  }

  /**
   * `Lp_sort(vec, comp)` with `comp` as `<` and `hardware` worker threads:
   * a vector of at most one element is left alone; otherwise the copy is
   * sorted by the workers and written back. With no worker the copy is
   * written back untouched.
   */
  method Sort(vec: CpuVector, hardware: nat)
    modifies vec`elems
    ensures multiset(vec.elems) == multiset(old(vec.elems))
    ensures hardware > 0 ==> Sorted(vec.elems)
    ensures hardware == 0 || |old(vec.elems)| <= 1 ==> vec.elems == old(vec.elems)
  {
    if |vec.elems| <= 1 {
      return;
    }
    var s := vec.elems;
    var arr := new int[|s|](k requires 0 <= k < |s| => s[k]);
    assert arr[..] == s;
    if hardware > 0 {
      ProcessTasks(arr);
    }
    ghost var done := arr[..];
    var i := 0;
    while i < |vec.elems|
      invariant i <= |vec.elems| == arr.Length && arr[..] == done
      invariant forall k :: 0 <= k < i ==> vec.elems[k] == arr[k]
      invariant forall k :: i <= k < |s| ==> vec.elems[k] == s[k]
    {
      vec.elems := vec.elems[i := arr[i]];
      i := i + 1;
    }
    assert vec.elems == arr[..];
  }
}
