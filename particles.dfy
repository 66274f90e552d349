// The particle pool of particle.hpp: a fixed-size array of particle records
// whose live particles form the prefix [0, countAlive). `kill` and `wake`
// move records in and out of that prefix by swapping whole records and
// setting their `alive` flag. The SYCL kernels of both are modelled as
// sequential loops over their work-item index.
module ParticlePool {

  /** `sycl::vec<float, 4>`; the lanes are opaque payload except `time.x`. */
  datatype Vec4 = Vec4(x: real, y: real, z: real, w: real)

  const ZERO4: Vec4 := Vec4(0.0, 0.0, 0.0, 0.0)

  /** The `Particle` record; `time.x` is the remaining time to live. */
  datatype Particle = Particle(pos: Vec4, col: Vec4, startCol: Vec4, endCol: Vec4,
                               vel: Vec4, acc: Vec4, time: Vec4, alive: bool)

  /** A value-initialised record, as `resize` creates them: all zero and not alive. */
  const BLANK: Particle := Particle(ZERO4, ZERO4, ZERO4, ZERO4, ZERO4, ZERO4, ZERO4, false)

  /** A record with its `alive` flag forgotten: what `kill` and `wake` must not change. */
  function Strip(p: Particle): Particle
  {
    p.(alive := false)
  }

  function StripAll(s: seq<Particle>): (r: seq<Particle>)
    ensures |r| == |s| && forall i :: 0 <= i < |s| ==> r[i] == Strip(s[i])
  {
    seq(|s|, i requires 0 <= i < |s| => Strip(s[i]))
  }

  /** The two records hold the same payloads, however their `alive` flags are set. */
  ghost predicate SamePayloads(a: seq<Particle>, b: seq<Particle>)
  {
    multiset(StripAll(a)) == multiset(StripAll(b))
  }

  function Swap<T>(s: seq<T>, i: nat, j: nat): (r: seq<T>)
    requires i < |s| && j < |s|
    ensures |r| == |s| && r[i] == s[j] && r[j] == s[i]
    ensures forall m :: 0 <= m < |s| && m != i && m != j ==> r[m] == s[m]
  {
    s[i := s[j]][j := s[i]]
  }

  lemma SwapKeepsMultiset<T>(s: seq<T>, i: nat, j: nat)
    requires i < |s| && j < |s|
    ensures multiset(Swap(s, i, j)) == multiset(s)
  {
    var t := s[i := s[j]];
    assert multiset(t) == multiset(s) - multiset{s[i]} + multiset{s[j]};
    assert multiset(t[j := s[i]]) == multiset(t) - multiset{t[j]} + multiset{s[i]};
  }

  lemma SwapKeepsBelow(s: seq<nat>, i: nat, j: nat, bound: nat)
    requires i < |s| && j < |s| && IndicesBelow(s, bound)
    ensures IndicesBelow(Swap(s, i, j), bound)
  {
  }

  /** Swapping two records keeps the payloads. */
  lemma SwapKeepsPayloads(s: seq<Particle>, i: nat, j: nat)
    requires i < |s| && j < |s|
    ensures SamePayloads(Swap(s, i, j), s)
  {
    assert StripAll(Swap(s, i, j)) == Swap(StripAll(s), i, j);
    SwapKeepsMultiset(StripAll(s), i, j);
  }

  /** Setting or clearing a flag keeps the payloads. */
  lemma FlagKeepsPayloads(s: seq<Particle>, i: nat, b: bool)
    requires i < |s|
    ensures SamePayloads(s[i := s[i].(alive := b)], s)
  {
    assert StripAll(s[i := s[i].(alive := b)]) == StripAll(s);
  }

  // ---------------------------------------------------------------------
  // kill, as written

  /**
   * The slot the idx-th victim is swapped with, computed in `size_t` as
   * `(count_alive - ((k_size - idx) - 1)) - 1`: once `k_size <= count_alive`
   * no subtraction underflows and the slots are the top `k_size` of the prefix.
   */
  function SwapTarget(countAlive: nat, kSize: nat, idx: nat): (t: nat)
    requires idx < kSize <= countAlive
    ensures t == countAlive - kSize + idx
    ensures countAlive - kSize <= t < countAlive
  {
    var inner: nat := (kSize - idx) - 1;
    var outer: nat := countAlive - inner;
    outer - 1
  }

  /** One work item of the kill kernel: clear the victim's flag, then swap it with its target. */
  function KillStep(s: seq<Particle>, target: nat, index: nat): (r: seq<Particle>)
    requires target < |s| && index < |s|
    ensures |r| == |s|
    ensures r[target] == s[index].(alive := false)
    ensures target != index ==> r[index] == s[target]
    ensures forall m :: 0 <= m < |s| && m != target && m != index ==> r[m] == s[m]
  {
    Swap(s[index := s[index].(alive := false)], target, index)
  }

  ghost predicate IndicesBelow(k: seq<nat>, bound: nat)
  {
    forall i :: 0 <= i < |k| ==> k[i] < bound
  }

  /** The first `n` work items of the kill kernel, in index order. */
  function KillSwaps(s: seq<Particle>, countAlive: nat, k: seq<nat>, n: nat): (r: seq<Particle>)
    requires n <= |k| <= countAlive <= |s| && IndicesBelow(k, |s|)
    ensures |r| == |s|
    decreases n
  {
    if n == 0 then s
    else KillStep(KillSwaps(s, countAlive, k, n - 1), SwapTarget(countAlive, |k|, n - 1), k[n - 1])
  }

  /** The kill kernel only swaps records and clears flags. */
  lemma {:induction false} KillSwapsKeepPayloads(s: seq<Particle>, countAlive: nat, k: seq<nat>, n: nat)
    requires n <= |k| <= countAlive <= |s| && IndicesBelow(k, |s|)
    ensures SamePayloads(KillSwaps(s, countAlive, k, n), s)
  {
    if n > 0 {
      var prev := KillSwaps(s, countAlive, k, n - 1);
      KillSwapsKeepPayloads(s, countAlive, k, n - 1);
      FlagKeepsPayloads(prev, k[n - 1], false);
      SwapKeepsPayloads(prev[k[n - 1] := prev[k[n - 1]].(alive := false)], SwapTarget(countAlive, |k|, n - 1), k[n - 1]);
    }
  }

  /** The kernel never touches a slot at or beyond the old live count except a listed one. */
  lemma {:induction false} KillSwapsFrame(s: seq<Particle>, countAlive: nat, k: seq<nat>, n: nat, m: nat)
    requires n <= |k| <= countAlive <= |s| && IndicesBelow(k, |s|)
    requires countAlive <= m < |s| && m !in k
    ensures KillSwaps(s, countAlive, k, n)[m] == s[m]
  {
    if n > 0 {
      KillSwapsFrame(s, countAlive, k, n - 1, m);
    }
  }

  ghost predicate Distinct(k: seq<nat>)
  {
    forall i, j :: 0 <= i < j < |k| ==> k[i] != k[j]
  }

  /** The idx-th victim, with its flag cleared, ends in slot countAlive - |k| + idx. */
  lemma {:induction false} KillSwapsZone(s: seq<Particle>, countAlive: nat, k: seq<nat>, n: nat)
    requires n <= |k| <= countAlive <= |s|
    requires Distinct(k) && IndicesBelow(k, countAlive - |k|)
    ensures forall i :: 0 <= i < n ==>
      KillSwaps(s, countAlive, k, n)[countAlive - |k| + i] == s[k[i]].(alive := false)
  {
    if n > 0 {
      KillSwapsZone(s, countAlive, k, n - 1);
      KillSwapsUntouched(s, countAlive, k, n - 1);
      var prev := KillSwaps(s, countAlive, k, n - 1);
      assert k[n - 1] !in k[..n - 1];
      assert prev[k[n - 1]] == s[k[n - 1]];
      forall i | 0 <= i < n - 1
        ensures KillSwaps(s, countAlive, k, n)[countAlive - |k| + i] == s[k[i]].(alive := false)
      {
        assert prev[countAlive - |k| + i] == s[k[i]].(alive := false);
      }
    }
  }

  /** The record that sat in a victim's target slot ends in the victim's old slot. */
  lemma {:induction false} KillSwapsVacated(s: seq<Particle>, countAlive: nat, k: seq<nat>, n: nat)
    requires n <= |k| <= countAlive <= |s|
    requires Distinct(k) && IndicesBelow(k, countAlive - |k|)
    ensures forall i :: 0 <= i < n ==> KillSwaps(s, countAlive, k, n)[k[i]] == s[countAlive - |k| + i]
  {
    if n > 0 {
      KillSwapsVacated(s, countAlive, k, n - 1);
      KillSwapsUntouched(s, countAlive, k, n - 1);
      assert k[n - 1] !in k[..n - 1];
    }
  }

  /** Slots that are neither a processed victim nor a processed target keep their records. */
  lemma {:induction false} KillSwapsUntouched(s: seq<Particle>, countAlive: nat, k: seq<nat>, n: nat)
    requires n <= |k| <= countAlive <= |s|
    requires IndicesBelow(k, countAlive - |k|)
    ensures forall m :: 0 <= m < |s| && m !in k[..n] && !(countAlive - |k| <= m < countAlive - |k| + n) ==>
      KillSwaps(s, countAlive, k, n)[m] == s[m]
  {
    if n > 0 {
      KillSwapsUntouched(s, countAlive, k, n - 1);
      forall m | 0 <= m < |s| && m !in k[..n] && !(countAlive - |k| <= m < countAlive - |k| + n)
        ensures KillSwaps(s, countAlive, k, n)[m] == s[m]
      {
        assert m !in k[..n - 1];
      }
    }
  }

  /**
   * Victims inside the target zone are misplaced: with two live records and
   * k = [1, 0] the record in slot 0 is listed but comes back unchanged and
   * alive, left behind in slot 0 while the live count drops to 0.
   */
  lemma KillLeavesVictimAlive(a: Particle, b: Particle)
    requires a.alive && b.alive
    ensures KillSwaps([a, b], 2, [1, 0], 2)[0] == a
  {
    var s := [a, b];
    var k: seq<nat> := [1, 0];
    assert KillSwaps(s, 2, k, 0) == s;
    var s1 := KillStep(s, SwapTarget(2, 2, 0), 1);
    assert s1 == [b.(alive := false), a];
    assert KillSwaps(s, 2, k, 1) == s1;
    var s2 := KillStep(s1, SwapTarget(2, 2, 1), 0);
    assert s2[0] == a;
    assert KillSwaps(s, 2, k, 2) == s2;
  }

  /**
   * The same happens with the ascending dead-slot list the sweep in main
   * builds: four live slots holding a, b, c, d with a and c dead and listed;
   * afterwards the new live prefix [0, 2) holds the dead record c, and the
   * live record d has been pushed out to slot 2.
   */
  lemma KillSweepMisplaces(a: Particle, b: Particle, c: Particle, d: Particle)
    requires !a.alive && b.alive && !c.alive && d.alive
    ensures var r := KillSwaps([a, b, c, d], 4, [0, 2], 2);
      r[0] == c && !r[0].alive && r[2] == d && r[2].alive
  {
    var s := [a, b, c, d];
    var k: seq<nat> := [0, 2];
    assert KillSwaps(s, 4, k, 0) == s;
    var s1 := KillStep(s, SwapTarget(4, 2, 0), 0);
    assert s1 == [c, b, a, d];
    assert KillSwaps(s, 4, k, 1) == s1;
    var s2 := KillStep(s1, SwapTarget(4, 2, 1), 2);
    assert s2 == [c, b, d, a];
    assert KillSwaps(s, 4, k, 2) == s2;
  }

  /** The kill kernel on four live slots with the list [0, 2], whatever the flags. */
  lemma KillZeroTwoOfFour(a: Particle, b: Particle, c: Particle, d: Particle)
    ensures KillSwaps([a, b, c, d], 4, [0, 2], 2) == [c, b, d, a.(alive := false)]
  {
    var s := [a, b, c, d];
    var k: seq<nat> := [0, 2];
    assert KillSwaps(s, 4, k, 0) == s;
    var s1 := KillStep(s, SwapTarget(4, 2, 0), 0);
    assert s1 == [c, b, a.(alive := false), d];
    assert KillSwaps(s, 4, k, 1) == s1;
    var s2 := KillStep(s1, SwapTarget(4, 2, 1), 2);
    assert s2 == [c, b, d, a.(alive := false)];
  }

  // ---------------------------------------------------------------------
  // kill as intended: compact the live prefix

  /** The list the sweep in main passes: live slots, each once, in ascending order. */
  ghost predicate KillList(k: seq<nat>, count: nat)
  {
    (forall i, j :: 0 <= i < j < |k| ==> k[i] < k[j]) && IndicesBelow(k, count)
  }

  lemma {:induction false} KillListFits(k: seq<nat>, count: nat)
    requires KillList(k, count)
    ensures |k| <= count
    decreases |k|
  {
    if |k| > 0 {
      KillListDrop(k, count);
      KillListFits(k[..|k| - 1], count - 1);
    }
  }

  /** Without its largest entry, the list lies below the slot just under `count`. */
  lemma KillListDrop(k: seq<nat>, count: nat)
    requires KillList(k, count) && |k| > 0
    ensures count >= 1 && KillList(k[..|k| - 1], count - 1)
  {
    assert k[|k| - 1] < count;
    assert forall i :: 0 <= i < |k| - 1 ==> k[i] < k[|k| - 1];
  }

  /**
   * Kill with the target of each victim fixed: victims are taken from the
   * largest down, each one's flag cleared and the record swapped with the
   * last live slot, which then leaves the live prefix.
   */
  function Compact(s: seq<Particle>, count: nat, k: seq<nat>): (r: seq<Particle>)
    requires count <= |s| && KillList(k, count)
    ensures |r| == |s|
    decreases |k|
  {
    if |k| == 0 then s
    else
      KillListDrop(k, count);
      Compact(KillStep(s, count - 1, k[|k| - 1]), count - 1, k[..|k| - 1])
  }

  /** The list is the largest entry appended to the rest, and every entry is at most the largest. */
  lemma KillListSplit(k: seq<nat>, count: nat)
    requires KillList(k, count) && |k| > 0
    ensures k == k[..|k| - 1] + [k[|k| - 1]]
    ensures forall m :: 0 <= m < |k| - 1 ==> k[m] < k[|k| - 1]
  {
  }

  /** Slots at or above the old live count are never touched. */
  lemma {:induction false} CompactFrame(s: seq<Particle>, count: nat, k: seq<nat>)
    requires count <= |s| && KillList(k, count)
    ensures forall i :: count <= i < |s| ==> Compact(s, count, k)[i] == s[i]
    decreases |k|
  {
    if |k| > 0 {
      KillListDrop(k, count);
      CompactFrame(KillStep(s, count - 1, k[|k| - 1]), count - 1, k[..|k| - 1]);
    }
  }

  /** Every slot of the new live prefix holds a record that sat, unlisted, in the old one. */
  lemma {:induction false} CompactKeepsOnlySurvivors(s: seq<Particle>, count: nat, k: seq<nat>, i: nat) returns (j: nat)
    requires count <= |s| && KillList(k, count) && i + |k| < count
    ensures j < count && j !in k && Compact(s, count, k)[i] == s[j]
    decreases |k|
  {
    if |k| == 0 {
      j := i;
    } else {
      var v, last, rest := k[|k| - 1], count - 1, k[..|k| - 1];
      KillListDrop(k, count);
      KillListSplit(k, count);
      var s' := KillStep(s, last, v);
      var j' := CompactKeepsOnlySurvivors(s', last, rest, i);
      if j' == v {
        assert s'[v] == s[last];
        j := last;
      } else {
        assert s'[j'] == s[j'];
        j := j';
      }
    }
  }

  /** Every unlisted record of the old live prefix is still in the new one. */
  lemma {:induction false} CompactKeepsEverySurvivor(s: seq<Particle>, count: nat, k: seq<nat>, j: nat) returns (i: nat)
    requires count <= |s| && KillList(k, count) && j < count && j !in k
    ensures i + |k| < count && Compact(s, count, k)[i] == s[j]
    decreases |k|
  {
    if |k| == 0 {
      i := j;
    } else {
      var v, last, rest := k[|k| - 1], count - 1, k[..|k| - 1];
      KillListDrop(k, count);
      KillListSplit(k, count);
      var s' := KillStep(s, last, v);
      if j == last {
        i := CompactKeepsEverySurvivor(s', last, rest, v);
      } else {
        i := CompactKeepsEverySurvivor(s', last, rest, j);
      }
    }
  }

  /** The slots that leave the live prefix hold the listed records, flags cleared. */
  lemma {:induction false} CompactParksVictims(s: seq<Particle>, count: nat, k: seq<nat>, i: nat) returns (m: nat)
    requires count <= |s| && KillList(k, count) && count <= i + |k| && i < count
    ensures m < |k| && Compact(s, count, k)[i] == s[k[m]].(alive := false)
    decreases |k|
  {
    var v, last, rest := k[|k| - 1], count - 1, k[..|k| - 1];
    KillListDrop(k, count);
    KillListSplit(k, count);
    var s' := KillStep(s, last, v);
    if i == last {
      CompactFrame(s', last, rest);
      m := |k| - 1;
    } else {
      m := CompactParksVictims(s', last, rest, i);
      assert rest[m] == k[m];
    }
  }

  /** Compacting only moves records and clears flags. */
  lemma {:induction false} CompactKeepsPayloads(s: seq<Particle>, count: nat, k: seq<nat>)
    requires count <= |s| && KillList(k, count)
    ensures SamePayloads(Compact(s, count, k), s)
    decreases |k|
  {
    if |k| > 0 {
      var v, last := k[|k| - 1], count - 1;
      KillListDrop(k, count);
      FlagKeepsPayloads(s, v, false);
      SwapKeepsPayloads(s[v := s[v].(alive := false)], last, v);
      CompactKeepsPayloads(KillStep(s, last, v), last, k[..|k| - 1]);
    }
  }

  /**
   * When every unlisted slot of the live prefix is alive, as after the sweep
   * in main, the new live prefix is all alive and the slots it gave up are
   * all dead.
   */
  lemma CompactLeavesPrefixAlive(s: seq<Particle>, count: nat, k: seq<nat>)
    requires count <= |s| && KillList(k, count)
    requires forall j :: 0 <= j < count && j !in k ==> s[j].alive
    ensures var r := Compact(s, count, k);
      (forall i :: 0 <= i && i + |k| < count ==> r[i].alive) &&
      (forall i :: 0 <= i < count && count <= i + |k| ==> !r[i].alive)
  {
    var r := Compact(s, count, k);
    forall i | 0 <= i && i + |k| < count
      ensures r[i].alive
    {
      var j := CompactKeepsOnlySurvivors(s, count, k, i);
    }
    forall i | 0 <= i < count && count <= i + |k|
      ensures !r[i].alive
    {
      var m := CompactParksVictims(s, count, k, i);
    }
  }

  // ---------------------------------------------------------------------
  // wake: the scan over a consecutive run

  /** The consecutive index run start, start + 1, ..., start + n - 1. */
  function Run(start: nat, n: nat): (r: seq<nat>)
    ensures |r| == n && forall i :: 0 <= i < n ==> r[i] == start + i
  {
    seq(n, i requires 0 <= i < n => start + i)
  }

  /** Unrevived values (those >= count) never lie before the scan position. */
  ghost predicate ScannedBelow(wl: seq<nat>, count: nat, idx: nat)
  {
    forall j :: 0 <= j < idx && j < |wl| ==> wl[j] < count
  }

  /** In the tail [t, n) every value is below each later unrevived value. */
  ghost predicate TailOrdered(wl: seq<nat>, count: nat, t: nat)
  {
    forall i, j :: t <= i < j < |wl| && wl[j] >= count ==> wl[i] < wl[j]
  }

  /** Unrevived values of the front [0, t) are below those of the tail. */
  ghost predicate FrontBelowTail(wl: seq<nat>, count: nat, t: nat)
  {
    forall i, j :: 0 <= i < t <= j < |wl| && wl[i] >= count && wl[j] >= count ==> wl[i] < wl[j]
  }

  /** The front after the scan position is ascending. */
  ghost predicate RestAscending(wl: seq<nat>, idx: nat, t: nat)
  {
    forall i, j :: idx < i < j < t && j < |wl| ==> wl[i] < wl[j]
  }

  /** The value under the scan position is `count` or above the unrevived rest of the front. */
  ghost predicate HeadDominates(wl: seq<nat>, count: nat, idx: nat, t: nat)
  {
    idx < t <= |wl| ==> wl[idx] == count || forall j :: idx < j < t && wl[j] >= count ==> wl[j] < wl[idx]
  }

  /**
   * What holds of the index list while `wake`'s first loop scans the run
   * [c0, c0 + n): `count` has grown by the number of hits, and with
   * t = n - hits the hit values sit in the tail [t, n).
   */
  ghost predicate ScanInv(wl: seq<nat>, c0: nat, count: nat, idx: nat)
  {
    var n := |wl|;
    c0 <= count <= c0 + n && idx <= n &&
    var t := n - (count - c0);
    multiset(wl) == multiset(Run(c0, n)) &&
    ScannedBelow(wl, count, idx) && TailOrdered(wl, count, t) && FrontBelowTail(wl, count, t) &&
    RestAscending(wl, idx, t) && HeadDominates(wl, count, idx, t)
  }

  lemma InRunOf(wl: seq<nat>, c0: nat, j: nat)
    requires multiset(wl) == multiset(Run(c0, |wl|)) && j < |wl|
    ensures c0 <= wl[j] < c0 + |wl|
  {
    assert wl[j] in multiset(Run(c0, |wl|));
  }

  lemma RunHas(wl: seq<nat>, c0: nat, v: nat) returns (p: nat)
    requires multiset(wl) == multiset(Run(c0, |wl|)) && c0 <= v < c0 + |wl|
    ensures p < |wl| && wl[p] == v
  {
    assert Run(c0, |wl|)[v - c0] == v;
    assert v in multiset(wl);
    p :| 0 <= p < |wl| && wl[p] == v;
  }

  lemma ScanStart(c0: nat, n: nat)
    ensures ScanInv(Run(c0, n), c0, c0, 0)
  {
  }

  /** A value the scan skips is below `count`. */
  lemma ScanMiss(wl: seq<nat>, c0: nat, count: nat, idx: nat)
    requires ScanInv(wl, c0, count, idx) && idx < |wl|
    requires !(wl[idx] >= count && wl[idx] < count + |wl|)
    ensures wl[idx] < count && ScanInv(wl, c0, count, idx + 1)
  {
    InRunOf(wl, c0, idx);
  }

  lemma FrontHitTail(wl: seq<nat>, count: nat, t: nat, idx: nat)
    requires 1 <= t <= |wl| && idx < t && wl[idx] >= count
    requires TailOrdered(wl, count, t) && FrontBelowTail(wl, count, t)
    ensures TailOrdered(Swap(wl, t - 1, idx), count + 1, t - 1)
  {
    var w2 := Swap(wl, t - 1, idx);
    forall i, j | t - 1 <= i < j < |wl| && w2[j] >= count + 1
      ensures w2[i] < w2[j]
    {
      assert w2[j] == wl[j];
    }
  }

  lemma FrontHitFront(wl: seq<nat>, count: nat, t: nat, idx: nat)
    requires 1 <= t <= |wl| && idx < t && wl[idx] >= count
    requires ScannedBelow(wl, count, idx) && FrontBelowTail(wl, count, t)
    requires RestAscending(wl, idx, t) && HeadDominates(wl, count, idx, t)
    ensures FrontBelowTail(Swap(wl, t - 1, idx), count + 1, t - 1)
  {
    var w2 := Swap(wl, t - 1, idx);
    forall i, j | 0 <= i < t - 1 <= j < |wl| && w2[i] >= count + 1 && w2[j] >= count + 1
      ensures w2[i] < w2[j]
    {
      if i == idx {
        assert w2[i] == wl[t - 1];
      } else {
        assert w2[i] == wl[i];
        assert i > idx;
      }
    }
  }

  /** A hit in the front [0, t) moves the hit value to the end of the front, which becomes tail. */
  lemma ScanHitFront(wl: seq<nat>, c0: nat, count: nat, idx: nat, t: nat)
    requires ScanInv(wl, c0, count, idx) && t == |wl| - (count - c0) && idx < t
    requires wl[idx] >= count
    ensures ScanInv(Swap(wl, t - 1, idx), c0, count + 1, idx)
  {
    InRunOf(wl, c0, idx);
    SwapKeepsMultiset(wl, t - 1, idx);
    FrontHitTail(wl, count, t, idx);
    FrontHitFront(wl, count, t, idx);
  }

  /**
   * A hit in the tail [t, n) can only be the value `count` itself: every
   * unrevived value lies at or after the scan position, the tail orders them,
   * and `count` is one of them.
   */
  lemma TailHitIsCount(wl: seq<nat>, c0: nat, count: nat, t: nat, idx: nat)
    requires multiset(wl) == multiset(Run(c0, |wl|)) && c0 <= count
    requires t <= idx < |wl| && count <= wl[idx]
    requires ScannedBelow(wl, count, idx) && TailOrdered(wl, count, t)
    ensures wl[idx] == count
  {
    InRunOf(wl, c0, idx);
    var p := RunHas(wl, c0, count);
    assert p == idx;
  }

  lemma TailHitOrdered(wl: seq<nat>, count: nat, t: nat, idx: nat)
    requires 1 <= t <= idx < |wl| && wl[idx] == count
    requires ScannedBelow(wl, count, idx) && TailOrdered(wl, count, t)
    ensures TailOrdered(Swap(wl, t - 1, idx), count + 1, t - 1)
  {
    var w2 := Swap(wl, t - 1, idx);
    forall i, j | t - 1 <= i < j < |wl| && w2[j] >= count + 1
      ensures w2[i] < w2[j]
    {
      assert j != idx && w2[j] == wl[j];
    }
  }

  lemma ScanHitTail(wl: seq<nat>, c0: nat, count: nat, idx: nat, t: nat)
    requires ScanInv(wl, c0, count, idx) && t == |wl| - (count - c0) && t <= idx < |wl|
    requires wl[idx] >= count
    ensures wl[idx] == count && t >= 1 && ScanInv(Swap(wl, t - 1, idx), c0, count + 1, idx)
  {
    InRunOf(wl, c0, idx);
    TailHitIsCount(wl, c0, count, t, idx);
    SwapKeepsMultiset(wl, t - 1, idx);
    TailHitOrdered(wl, count, t, idx);
  }

  /**
   * A hit inside the run never exhausts the list, so `(w.size() - erased) - 1`
   * does not underflow, and the swap that moves the hit into the tail keeps
   * the invariant with `count` one higher.
   */
  lemma ScanHit(wl: seq<nat>, c0: nat, count: nat, idx: nat, t: nat)
    requires ScanInv(wl, c0, count, idx) && idx < |wl| && t == |wl| - (count - c0)
    requires wl[idx] >= count
    ensures wl[idx] < count + |wl| && c0 <= wl[idx] < c0 + |wl|
    ensures t >= 1 && ScanInv(Swap(wl, t - 1, idx), c0, count + 1, idx)
  {
    InRunOf(wl, c0, idx);
    if idx < t {
      ScanHitFront(wl, c0, count, idx, t);
    } else {
      ScanHitTail(wl, c0, count, idx, t);
    }
  }

  /** When the scan has passed the whole list, every index of the run was revived. */
  lemma ScanEnd(wl: seq<nat>, c0: nat, count: nat)
    requires ScanInv(wl, c0, count, |wl|)
    ensures count == c0 + |wl|
  {
    if count < c0 + |wl| {
      var p := RunHas(wl, c0, count);
      assert false;
    }
  }

  /** The state of `wake`'s first loop: the records, the live count, the index list and the scan. */
  datatype ScanState = ScanState(ps: seq<Particle>, count: nat, wl: seq<nat>, erased: nat, idx: nat, underflow: bool)

  ghost predicate ScanWellFormed(st: ScanState)
  {
    st.count <= |st.ps| && st.erased <= |st.wl| && st.idx <= |st.wl| && IndicesBelow(st.wl, |st.ps|)
  }

  /**
   * One iteration of the scan. A listed slot v in [count, count + |w|) is
   * swapped into slot `count` and revived, the count grows, and the entry
   * is parked at `(w.size() - erased) - 1`, the scan position staying put;
   * that index underflows once every entry is parked. Any other entry is
   * stepped over.
   */
  function ScanStep(st: ScanState): (r: ScanState)
    requires ScanWellFormed(st) && !st.underflow && st.idx < |st.wl|
    ensures |r.ps| == |st.ps| && |r.wl| == |st.wl|
    ensures r.idx == st.idx || (r.idx == st.idx + 1 && r.count == st.count)
    ensures r.underflow || ScanWellFormed(r)
    ensures r.idx == st.idx ==> r.count == st.count + 1 && r.count <= |st.ps|
  {
    var n, v := |st.wl|, st.wl[st.idx];
    if v >= st.count && v < st.count + n then
      if st.erased == n then st.(ps := Revived(st.ps, st.count, v), count := st.count + 1, underflow := true)
      else ParkHit(st)
    else st.(idx := st.idx + 1)
  }

  /** The records after a hit on slot v: swapped into slot `count` and revived there. */
  function Revived(ps: seq<Particle>, count: nat, v: nat): (r: seq<Particle>)
    requires count < |ps| && v < |ps|
    ensures |r| == |ps| && r[count] == ps[v].(alive := true)
    ensures v != count ==> r[v] == ps[count]
    ensures forall i :: 0 <= i < |ps| && i != v && i != count ==> r[i] == ps[i]
  {
    Swap(ps, count, v)[count := ps[v].(alive := true)]
  }

  /** A hit that still has an entry to park it on. */
  function ParkHit(st: ScanState): (r: ScanState)
    requires ScanWellFormed(st) && !st.underflow && st.idx < |st.wl| && st.erased < |st.wl|
    requires st.count <= st.wl[st.idx]
    ensures ScanWellFormed(r) && !r.underflow && r.idx == st.idx && r.count == st.count + 1
    ensures r.erased == st.erased + 1 && r.ps == Revived(st.ps, st.count, st.wl[st.idx])
    ensures r.wl == Swap(st.wl, (|st.wl| - st.erased) - 1, st.idx)
  {
    SwapKeepsBelow(st.wl, (|st.wl| - st.erased) - 1, st.idx, |st.ps|);
    assert st.wl[st.idx] < |st.ps|;
    st.(ps := Revived(st.ps, st.count, st.wl[st.idx]), count := st.count + 1,
        wl := Swap(st.wl, (|st.wl| - st.erased) - 1, st.idx), erased := st.erased + 1)
  }

  /** The whole first loop of `wake`, from a given state to the end of the list or the underflow. */
  function Scan(st: ScanState): (r: ScanState)
    requires ScanWellFormed(st)
    ensures |r.ps| == |st.ps| && |r.wl| == |st.wl|
    ensures r.underflow || r.idx == |r.wl|
    decreases |st.ps| - st.count, |st.wl| - st.idx
  {
    if st.underflow || st.idx >= |st.wl| then st
    else
      var next := ScanStep(st);
      if next.underflow then next else Scan(next)
  }

  lemma ScanUnroll(st: ScanState)
    requires ScanWellFormed(st) && !st.underflow && st.idx < |st.wl| && !ScanStep(st).underflow
    ensures Scan(st) == Scan(ScanStep(st))
  {
  }

  /**
   * Whatever the list, the scan only swaps records and sets flags, grows the
   * count by one per hit (the parked entries, plus the hit that underflowed),
   * and leaves room in the pool for the entries it did not park.
   */
  lemma {:induction false} ScanGeneral(st: ScanState)
    requires ScanWellFormed(st) && !st.underflow && st.erased <= st.count
    requires st.count - st.erased + |st.wl| <= |st.ps|
    ensures var r := Scan(st);
      SamePayloads(r.ps, st.ps) && r.erased <= |r.wl| && IndicesBelow(r.wl, |st.ps|) &&
      r.count == st.count - st.erased + r.erased + (if r.underflow then 1 else 0) &&
      (!r.underflow ==> r.count + (|r.wl| - r.erased) <= |r.ps|)
    decreases |st.ps| - st.count, |st.wl| - st.idx
  {
    if st.underflow || st.idx >= |st.wl| {
    } else {
      var next := ScanStep(st);
      var v := st.wl[st.idx];
      if v >= st.count && v < st.count + |st.wl| {
        SwapKeepsPayloads(st.ps, st.count, v);
        FlagKeepsPayloads(Swap(st.ps, st.count, v), st.count, true);
        assert next.ps == Swap(st.ps, st.count, v)[st.count := Swap(st.ps, st.count, v)[st.count].(alive := true)];
        if !next.underflow {
          assert IndicesBelow(next.wl, |st.ps|) by {
            assert forall j :: 0 <= j < |st.wl| ==> next.wl[j] in st.wl;
          }
          ScanGeneral(next);
        }
      } else {
        ScanGeneral(next);
      }
    }
  }

  /** The records' side of what `ScanConsecutive` keeps: the revived prefix is alive, the rest untouched. */
  ghost predicate RunRecords(ps: seq<Particle>, c0: nat, count: nat, n: nat, orig: seq<Particle>)
  {
    |orig| == |ps| && c0 + n <= |ps| && count <= |ps| &&
    (forall i :: c0 <= i < count ==> ps[i].alive) &&
    (forall i :: 0 <= i < |orig| && !(c0 <= i < c0 + n) ==> ps[i] == orig[i])
  }

  /** What `ScanConsecutive` keeps from one scan state to the next. */
  ghost predicate RunScanInv(st: ScanState, c0: nat, orig: seq<Particle>)
  {
    ScanWellFormed(st) && !st.underflow && st.count == c0 + st.erased &&
    ScanInv(st.wl, c0, st.count, st.idx) &&
    RunRecords(st.ps, c0, st.count, |st.wl|, orig)
  }

  /** A revive inside the run keeps the revived prefix alive and the slots outside the run untouched. */
  lemma RunReviveKeeps(ps: seq<Particle>, count: nat, v: nat, c0: nat, n: nat, orig: seq<Particle>)
    requires c0 <= count <= v < c0 + n && RunRecords(ps, c0, count, n, orig)
    ensures RunRecords(Revived(ps, count, v), c0, count + 1, n, orig)
  {
  }

  lemma RunScanHit(st: ScanState, c0: nat, orig: seq<Particle>)
    requires RunScanInv(st, c0, orig) && st.idx < |st.wl| && st.wl[st.idx] >= st.count
    ensures st.wl[st.idx] < st.count + |st.wl| && st.erased < |st.wl| && RunScanInv(ParkHit(st), c0, orig)
  {
    var t, v := |st.wl| - st.erased, st.wl[st.idx];
    ScanHit(st.wl, c0, st.count, st.idx, t);
    RunReviveKeeps(st.ps, st.count, v, c0, |st.wl|, orig);
    RunScanInvIntro(ParkHit(st), c0, orig);
  }

  lemma RunScanInvIntro(st: ScanState, c0: nat, orig: seq<Particle>)
    requires ScanWellFormed(st) && !st.underflow && st.count == c0 + st.erased
    requires ScanInv(st.wl, c0, st.count, st.idx)
    requires RunRecords(st.ps, c0, st.count, |st.wl|, orig)
    ensures RunScanInv(st, c0, orig)
  {
  }

  lemma RunScanStep(st: ScanState, c0: nat, orig: seq<Particle>)
    requires RunScanInv(st, c0, orig) && st.idx < |st.wl|
    ensures RunScanInv(ScanStep(st), c0, orig)
  {
    if st.wl[st.idx] >= st.count {
      RunScanHit(st, c0, orig);
      assert ScanStep(st) == ParkHit(st);
    } else {
      ScanMiss(st.wl, c0, st.count, st.idx);
      assert ScanStep(st) == st.(idx := st.idx + 1);
    }
  }

  /**
   * On the consecutive run [c0, c0 + n) that `emit` passes, the scan never
   * underflows, parks every entry, and leaves the run's slots all alive and
   * every slot outside the run as it was.
   */
  lemma {:induction false} ScanConsecutive(st: ScanState, c0: nat, orig: seq<Particle>)
    requires RunScanInv(st, c0, orig)
    ensures var r := Scan(st);
      !r.underflow && r.erased == |r.wl| && r.count == c0 + |r.wl| &&
      (forall i :: c0 <= i < r.count ==> r.ps[i].alive) &&
      (forall i :: 0 <= i < |orig| && !(c0 <= i < r.count) ==> r.ps[i] == orig[i])
    decreases |st.ps| - st.count, |st.wl| - st.idx
  {
    if st.idx >= |st.wl| {
      ScanEnd(st.wl, c0, st.count);
    } else {
      RunScanStep(st, c0, orig);
      ScanConsecutive(ScanStep(st), c0, orig);
    }
  }

  datatype KillStatus = Killed | NothingToKill | SizeExceeded
  datatype WakeStatus = Woken | NoRoom | IndexUnderflow

  class ParticleSystem {
    var particles: array<Particle>
    var countAlive: nat

    ghost predicate Valid()
      reads this
    {
      countAlive <= particles.Length
    }

    /** `Particle_system(p_count)`: `p_count` value-initialised records, none alive. */
    constructor (pCount: nat)
      ensures Valid() && fresh(particles)
      ensures particles.Length == pCount && countAlive == 0
      ensures forall i :: 0 <= i < pCount ==> particles[i] == BLANK
    {
      particles := new Particle[pCount](_ => BLANK);
      countAlive := 0;
    }

    /**
     * `kill(k)`: nothing happens on an empty pool or an empty list; more
     * victims than live particles is an error; otherwise every work item of
     * the kernel runs and the count drops by |k|. Every entry must name a
     * slot of the pool; the source only indexes with them on the last path,
     * but every caller's list meets this anyway.
     */
    method Kill(k: seq<nat>) returns (status: KillStatus)
      requires Valid() && IndicesBelow(k, particles.Length)
      modifies particles, this`countAlive
      ensures Valid()
      ensures status == NothingToKill <==> old(countAlive) == 0 || |k| == 0
      ensures status == SizeExceeded <==> old(countAlive) > 0 && 0 < |k| && |k| > old(countAlive)
      ensures status != Killed ==> countAlive == old(countAlive) && particles[..] == old(particles[..])
      ensures status == Killed ==>
        countAlive == old(countAlive) - |k| &&
        particles[..] == KillSwaps(old(particles[..]), old(countAlive), k, |k|)
      ensures SamePayloads(particles[..], old(particles[..]))
    {
      if countAlive == 0 || |k| == 0 {
        return NothingToKill;
      }
      if |k| > countAlive {
        return SizeExceeded;
      }
      var idx := 0;
      while idx < |k|
        invariant 0 <= idx <= |k| && countAlive == old(countAlive)
        invariant particles[..] == KillSwaps(old(particles[..]), countAlive, k, idx)
      {
        var index := k[idx];
        var target := SwapTarget(countAlive, |k|, idx);
        particles[index] := particles[index].(alive := false);
        particles[target], particles[index] := particles[index], particles[target];
        idx := idx + 1;
      }
      KillSwapsKeepPayloads(old(particles[..]), countAlive, k, |k|);
      countAlive := countAlive - |k|;
      status := Killed;
    }

    /**
     * `kill` with each victim's target fixed: the listed live slots, largest
     * first, are flagged dead and swapped with the last live slot, which then
     * leaves the live prefix. An empty list changes nothing.
     */
    method KillCompacting(k: seq<nat>)
      requires Valid() && KillList(k, countAlive)
      modifies particles, this`countAlive
      ensures Valid() && countAlive + |k| == old(countAlive)
      ensures particles[..] == Compact(old(particles[..]), old(countAlive), k)
    {
      var todo := k;
      while |todo| > 0
        invariant countAlive + (|k| - |todo|) == old(countAlive) && |todo| <= |k| && Valid()
        invariant KillList(todo, countAlive)
        invariant Compact(particles[..], countAlive, todo) == Compact(old(particles[..]), old(countAlive), k)
      {
        KillListDrop(todo, countAlive);
        KillLast(todo[|todo| - 1]);
        todo := todo[..|todo| - 1];
      }
    }

    /** One victim of `KillCompacting`: flagged dead and swapped with the last live slot, which leaves the prefix. */
    method KillLast(v: nat)
      requires Valid() && v < countAlive
      modifies particles, this`countAlive
      ensures Valid() && countAlive == old(countAlive) - 1
      ensures particles[..] == KillStep(old(particles[..]), old(countAlive) - 1, v)
    {
      var last := countAlive - 1;
      particles[v] := particles[v].(alive := false);
      particles[last], particles[v] := particles[v], particles[last];
      countAlive := last;
    }

    /**
     * `wake(w)`: refused without change when the list does not fit in the
     * pool; otherwise the scan revives the listed slots it finds in
     * [count, count + |w|), and the second kernel revives what is left of the
     * list into the slots that follow. The scan's parking index underflows
     * when a hit comes after every entry is parked: that is reported as
     * `IndexUnderflow`, with the state as far as it got. Every entry must
     * name a slot of the pool; the source only indexes with them past the
     * room check, but `emit`'s run meets this anyway.
     */
    method Wake(w: seq<nat>) returns (status: WakeStatus)
      requires Valid() && IndicesBelow(w, particles.Length)
      modifies particles, this`countAlive
      ensures Valid()
      ensures status == NoRoom <==> old(countAlive) + |w| > particles.Length
      ensures status == NoRoom ==> countAlive == old(countAlive) && particles[..] == old(particles[..])
      ensures status == Woken ==> countAlive == old(countAlive) + |w|
      ensures SamePayloads(particles[..], old(particles[..]))
      ensures w == Run(old(countAlive), |w|) && status != NoRoom ==>
        status == Woken &&
        (forall i :: old(countAlive) <= i < countAlive ==> particles[i].alive) &&
        (forall i :: 0 <= i < particles.Length && !(old(countAlive) <= i < countAlive) ==> particles[i] == old(particles[i]))
    {
      if countAlive + |w| > particles.Length {
        return NoRoom;
      }
      ghost var start := ScanState(particles[..], countAlive, w, 0, 0, false);
      ScanGeneral(start);
      if w == Run(countAlive, |w|) {
        ScanStart(countAlive, |w|);
        ScanConsecutive(start, countAlive, particles[..]);
      }
      var wl, erased, underflow := ScanRevive(w);
      if underflow {
        return IndexUnderflow;
      }
      wl := wl[..|wl| - erased];
      if |wl| == 0 {
        return Woken;
      }
      ReviveRest(wl);
      status := Woken;
    }

    /** The first loop of `wake`, over the records in place; it ends where `Scan` ends. */
    method ScanRevive(w: seq<nat>) returns (wl: seq<nat>, erased: nat, underflow: bool)
      requires Valid() && IndicesBelow(w, particles.Length)
      modifies particles, this`countAlive
      ensures var r := Scan(ScanState(old(particles[..]), old(countAlive), w, 0, 0, false));
        particles[..] == r.ps && countAlive == r.count && wl == r.wl && erased == r.erased && underflow == r.underflow
      ensures Valid()
    {
      ghost var start := ScanState(particles[..], countAlive, w, 0, 0, false);
      wl := w;
      var n := |w|;
      erased := 0;
      var idx := 0;
      while idx < n
        invariant ScanWellFormed(ScanState(particles[..], countAlive, wl, erased, idx, false))
        invariant |wl| == n
        invariant Scan(ScanState(particles[..], countAlive, wl, erased, idx, false)) == Scan(start)
        decreases particles.Length - countAlive, n - idx
      {
        ghost var cur := ScanState(particles[..], countAlive, wl, erased, idx, false);
        if wl[idx] >= countAlive && wl[idx] < countAlive + n {
          var v := wl[idx];
          ReviveInto(v);
          if erased == n {
            return wl, erased, true;
          }
          assert ScanStep(cur) == ParkHit(cur);
          var t := (n - erased) - 1;
          wl := Swap(wl, t, idx);
          erased := erased + 1;
        } else {
          idx := idx + 1;
        }
        assert ScanState(particles[..], countAlive, wl, erased, idx, false) == ScanStep(cur);
        ScanUnroll(cur);
      }
      underflow := false;
    }

    /** One hit of the scan: the record in slot `v` is swapped into slot `count`, revived, and counted. */
    method ReviveInto(v: nat)
      requires Valid() && countAlive <= v < particles.Length
      modifies particles, this`countAlive
      ensures Valid() && countAlive == old(countAlive) + 1
      ensures particles[..] == Revived(old(particles[..]), old(countAlive), v)
    {
      particles[countAlive], particles[v] := particles[v], particles[countAlive];
      particles[countAlive] := particles[countAlive].(alive := true);
      countAlive := countAlive + 1;
    }

    /**
     * The second kernel of `wake`: each remaining entry's slot is revived and
     * swapped with the slot `count + j`; the count then grows by their number.
     */
    method ReviveRest(wl: seq<nat>)
      requires Valid() && IndicesBelow(wl, particles.Length)
      requires countAlive + |wl| <= particles.Length
      modifies particles, this`countAlive
      ensures Valid() && countAlive == old(countAlive) + |wl|
      ensures SamePayloads(particles[..], old(particles[..]))
    {
      var base := countAlive;
      var j := 0;
      while j < |wl|
        invariant 0 <= j <= |wl| && countAlive == base
        invariant SamePayloads(particles[..], old(particles[..]))
      {
        var index := wl[j];
        ghost var before := particles[..];
        particles[index] := particles[index].(alive := true);
        FlagKeepsPayloads(before, index, true);
        ghost var flagged := particles[..];
        particles[base + j], particles[index] := particles[index], particles[base + j];
        SwapKeepsPayloads(flagged, base + j, index);
        j := j + 1;
      }
      countAlive := base + |wl|;
    }
  }
}
