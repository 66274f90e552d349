// The two clients of the pool in main.cpp: `emit`, which asks `wake` for a
// consecutive run of slots just past the live prefix, and the per-frame sweep
// that collects the dead slots of the live prefix and kills them.

module Emitter {
  import opened ParticlePool

  /** What one call of `emit` did. */
  datatype EmitOutcome =
    | PoolFull                                            // the live prefix already fills the pool
    | NoRate                                              // the emit rate is 0
    | Emitted(startId: nat, endId: nat, status: WakeStatus)

  /**
   * `endId = min(startId + maxNewParticles, size - 1)`: the run never grows
   * past the requested count, and never reaches the last slot of the pool.
   */
  function EndId(startId: nat, maxNew: nat, size: nat): (e: nat)
    requires startId < size
    ensures startId <= e <= size - 1 && e - startId <= maxNew
    ensures e == startId + maxNew || e == size - 1
  {
    if startId + maxNew < size - 1 then startId + maxNew else size - 1
  }

  /** The loop that fills `w[i - startId] = i` for i in [startId, endId). */
  method BuildRun(startId: nat, endId: nat) returns (w: seq<nat>)
    requires startId <= endId
    ensures w == Run(startId, endId - startId)
  {
    w := seq(endId - startId, _ => 0);
    var i := startId;
    while i < endId
      invariant startId <= i <= endId && |w| == endId - startId
      invariant forall j :: 0 <= j < i - startId ==> w[j] == startId + j
    {
      w := w[i - startId := i];
      i := i + 1;
    }
  }

  /**
   * `emit(dt, p, rate)`, with `maxNew` standing for `(size_t)(dt * rate)`.
   * Past the two guards the run [count, endId) is handed to `wake`, which
   * revives exactly those slots: the live prefix grows to `endId` and every
   * other slot is left as it was.
   */
  method Emit(p: ParticleSystem, emitRate: nat, maxNew: nat) returns (outcome: EmitOutcome)
    requires p.Valid()
    modifies p.particles, p`countAlive
    ensures p.Valid()
    ensures outcome == PoolFull <==> old(p.countAlive) >= p.particles.Length
    ensures outcome == NoRate <==> old(p.countAlive) < p.particles.Length && emitRate == 0
    ensures !outcome.Emitted? ==> p.countAlive == old(p.countAlive) && p.particles[..] == old(p.particles[..])
    ensures outcome.Emitted? ==>
      outcome.status == Woken &&
      outcome.startId == old(p.countAlive) &&
      outcome.endId == EndId(outcome.startId, maxNew, p.particles.Length) &&
      p.countAlive == outcome.endId &&
      (forall i :: outcome.startId <= i < outcome.endId ==> p.particles[i].alive) &&
      (forall i :: 0 <= i < p.particles.Length && !(outcome.startId <= i < outcome.endId) ==>
        p.particles[i] == old(p.particles[i]))
  {
    if p.countAlive >= p.particles.Length {
      return PoolFull;
    }
    if emitRate == 0 {
      return NoRate;
    }
    var startId := p.countAlive;
    var endId := EndId(startId, maxNew, p.particles.Length);
    var w := BuildRun(startId, endId);
    var status := p.Wake(w);
    outcome := Emitted(startId, endId, status);
  }

  /** The dead slots of a sequence of records, in ascending order. */
  function DeadSlots(s: seq<Particle>): (r: seq<nat>)
    ensures KillList(r, |s|) && |r| <= |s|
    ensures forall i :: 0 <= i < |s| ==> (i in r <==> !s[i].alive)
  {
    if |s| == 0 then []
    else
      var rest := DeadSlots(s[..|s| - 1]);
      assert forall i :: 0 <= i < |s| - 1 ==> s[..|s| - 1][i] == s[i];
      if s[|s| - 1].alive then rest else rest + [|s| - 1]
  }

  /**
   * The loop over [0, count) in main that pushes every slot whose flag is
   * clear. The list is ascending and no longer than the live prefix, so the
   * size check of `kill` never fires on it.
   */
  method CollectDeadSlots(p: ParticleSystem) returns (toKill: seq<nat>)
    requires p.Valid()
    ensures toKill == DeadSlots(p.particles[..p.countAlive])
    ensures |toKill| <= p.countAlive
  {
    toKill := [];
    var i := 0;
    while i < p.countAlive
      invariant i <= p.countAlive
      invariant toKill == DeadSlots(p.particles[..i])
    {
      assert p.particles[..i + 1][..i] == p.particles[..i];
      if !p.particles[i].alive {
        toKill := toKill + [i];
      }
      i := i + 1;
    }
    assert p.particles[..p.countAlive] == p.particles[..i];
    KillListFits(toKill, p.countAlive);
  }

  /**
   * The sweep in main as written: when anything is live, the dead slots of
   * the prefix are handed to `kill`. The list is never longer than the live
   * count, so the size check never fires, and the kernel runs the list's
   * work items over the old array (see `SweepMisplaces` for what that does).
   */
  method SweepDeadAsWritten(p: ParticleSystem) returns (status: KillStatus)
    requires p.Valid()
    modifies p.particles, p`countAlive
    ensures p.Valid()
    ensures status != SizeExceeded
    ensures status == Killed <==> DeadSlots(old(p.particles[..p.countAlive])) != []
    ensures var dead := DeadSlots(old(p.particles[..p.countAlive]));
      p.countAlive == old(p.countAlive) - |dead| &&
      p.particles[..] == KillSwaps(old(p.particles[..]), old(p.countAlive), dead, |dead|)
  {
    status := NothingToKill;
    if p.countAlive > 0 {
      var toKill := CollectDeadSlots(p);
      status := p.Kill(toKill);
    }
  }

  /**
   * What the sweep as written does to four live slots whose records a and c
   * are dead: the list is [0, 2], and the kill leaves the dead c in slot 0
   * of the new prefix [0, 2) while the live d is pushed out to slot 2.
   */
  lemma SweepMisplaces(a: Particle, b: Particle, c: Particle, d: Particle)
    requires !a.alive && b.alive && !c.alive && d.alive
    ensures var s := [a, b, c, d];
      var dead := DeadSlots(s);
      var r := KillSwaps(s, 4, dead, |dead|);
      |dead| == 2 && r[0] == c && !r[0].alive && r[2] == d && r[2].alive
  {
    var s := [a, b, c, d];
    assert [a][..0] == [] && DeadSlots([a]) == [0];
    assert [a, b][..1] == [a] && DeadSlots([a, b]) == [0];
    assert [a, b, c][..2] == [a, b] && DeadSlots([a, b, c]) == [0, 2];
    assert s[..3] == [a, b, c] && DeadSlots(s) == [0, 2];
    KillSweepMisplaces(a, b, c, d);
  }

  /**
   * The sweep in main with the kill corrected: when anything is live, the
   * dead slots of the prefix are compacted out of it. Afterwards the array
   * is `Compact` of the old one over the dead list, so the live prefix holds
   * exactly the old live records (`CompactKeepsOnlySurvivors`,
   * `CompactKeepsEverySurvivor`), all alive, the slots it gave up are all
   * dead, and the slots past the old count are untouched.
   */
  method SweepDead(p: ParticleSystem)
    requires p.Valid()
    modifies p.particles, p`countAlive
    ensures p.Valid()
    ensures p.countAlive == old(p.countAlive) - |DeadSlots(old(p.particles[..p.countAlive]))|
    ensures p.particles[..] == Compact(old(p.particles[..]), old(p.countAlive), DeadSlots(old(p.particles[..p.countAlive])))
    ensures forall i :: 0 <= i < p.countAlive ==> p.particles[i].alive
    ensures forall i :: p.countAlive <= i < old(p.countAlive) ==> !p.particles[i].alive
    ensures forall i :: old(p.countAlive) <= i < p.particles.Length ==> p.particles[i] == old(p.particles[i])
    ensures SamePayloads(p.particles[..], old(p.particles[..]))
  {
    if p.countAlive > 0 {
      var toKill := CollectDeadSlots(p);
      ghost var s, count := p.particles[..], p.countAlive;
      assert forall j :: 0 <= j < count ==> s[..count][j] == s[j];
      CompactLeavesPrefixAlive(s, count, toKill);
      CompactFrame(s, count, toKill);
      CompactKeepsPayloads(s, count, toKill);
      p.KillCompacting(toKill);
    }
  }
}
