// `EulerUpdater::update` (updater.hpp) with the physics abstracted: one
// kernel advances every slot of [0, endId), then a host loop lists the slots
// whose remaining time has gone negative and hands them to `kill`.

module Updater {
  import opened CArith
  import opened ParticlePool

  /** `const unsigned int endId = p.m_countAlive`: the count truncated to 32 bits. */
  function EndId(countAlive: nat): (e: nat)
    ensures e < TWO32
    ensures countAlive < TWO32 ==> e == countAlive
    ensures e <= countAlive
  {
    Wrap32(countAlive)
  }

  /**
   * The kernel's work item on one record: the physics (`step`, left
   * abstract) writes acceleration, velocity, position, time and colour, and
   * never the flag.
   */
  function Advance(q: Particle, step: Particle -> Particle): (r: Particle)
    ensures r.alive == q.alive
  {
    step(q).(alive := q.alive)
  }

  /** Every record of `s` advanced by one work item. */
  function AdvanceAll(s: seq<Particle>, step: Particle -> Particle): (r: seq<Particle>)
    ensures |r| == |s| && forall i :: 0 <= i < |s| ==> r[i] == Advance(s[i], step)
  {
    seq(|s|, i requires 0 <= i < |s| => Advance(s[i], step))
  }

  predicate Expired(q: Particle)
  {
    q.time.x < 0.0
  }

  /** The expired slots of a sequence of records, in ascending order. */
  function ExpiredSlots(s: seq<Particle>): (r: seq<nat>)
    ensures KillList(r, |s|) && |r| <= |s|
    ensures forall i :: 0 <= i < |s| ==> (i in r <==> Expired(s[i]))
  {
    if |s| == 0 then []
    else
      var rest := ExpiredSlots(s[..|s| - 1]);
      assert forall i :: 0 <= i < |s| - 1 ==> s[..|s| - 1][i] == s[i];
      if Expired(s[|s| - 1]) then rest + [|s| - 1] else rest
  }

  /** The `parallel_for` over [0, endId): each slot advanced in place, the rest untouched. */
  method Integrate(p: ParticleSystem, endId: nat, step: Particle -> Particle)
    requires p.Valid() && endId <= p.countAlive
    modifies p.particles
    ensures p.Valid()
    ensures p.particles[..endId] == AdvanceAll(old(p.particles[..endId]), step)
    ensures p.particles[endId..] == old(p.particles[endId..])
  {
    var i := 0;
    while i < endId
      invariant i <= endId
      invariant forall j :: 0 <= j < i ==> p.particles[j] == Advance(old(p.particles[j]), step)
      invariant forall j :: i <= j < p.particles.Length ==> p.particles[j] == old(p.particles[j])
    {
      p.particles[i] := Advance(p.particles[i], step);
      i := i + 1;
    }
  }

  /**
   * The host loop at updater.hpp lines 115-169: every expired slot below `endId` is
   * pushed and counted. `kill_count` is the list's length, so the
   * `resize(kill_count)` that follows changes nothing.
   */
  method CollectExpired(p: ParticleSystem, endId: nat) returns (toKill: seq<nat>, killCount: nat)
    requires p.Valid() && endId <= p.countAlive
    ensures toKill == ExpiredSlots(p.particles[..endId])
    ensures killCount == |toKill| && |toKill| <= endId
  {
    toKill, killCount := [], 0;
    var i := 0;
    while i < endId
      invariant i <= endId
      invariant toKill == ExpiredSlots(p.particles[..i]) && killCount == |toKill|
    {
      assert p.particles[..i + 1][..i] == p.particles[..i];
      if Expired(p.particles[i]) {
        killCount := killCount + 1;
        toKill := toKill + [i];
      }
      i := i + 1;
    }
    assert p.particles[..endId] == p.particles[..i];
    KillListFits(toKill, endId);
  }

  /** A list below `endId` is a kill list for any count at or above it. */
  lemma KillListWiden(k: seq<nat>, endId: nat, count: nat)
    requires KillList(k, endId) && endId <= count
    ensures KillList(k, count)
  {
  }

  /**
   * The part of `update(dt, p)` before `kill`: advance [0, endId), then list
   * the expired slots there; `to_kill.resize(kill_count)` keeps the list.
   */
  method AdvanceAndCollect(p: ParticleSystem, step: Particle -> Particle) returns (toKill: seq<nat>)
    requires p.Valid()
    modifies p.particles
    ensures p.Valid() && p.countAlive == old(p.countAlive)
    ensures var e := EndId(old(p.countAlive));
      p.particles[..] == AdvanceAll(old(p.particles[..e]), step) + old(p.particles[e..]) &&
      toKill == ExpiredSlots(AdvanceAll(old(p.particles[..e]), step))
    ensures forall i :: EndId(old(p.countAlive)) <= i < p.particles.Length ==> p.particles[i] == old(p.particles[i])
    ensures KillList(toKill, p.countAlive)
  {
    var endId := EndId(p.countAlive);
    Integrate(p, endId, step);
    assert p.particles[..] == p.particles[..endId] + p.particles[endId..];
    var killCount;
    toKill, killCount := CollectExpired(p, endId);
    toKill := toKill[..killCount];
    KillListWiden(toKill, endId, p.countAlive);
  }

  /**
   * `update(dt, p)` as written: the expired slots are handed to `kill`. The
   * list is never longer than the live count, so the size check never
   * fires; the count drops by the number found and the kernel runs the
   * list's work items over the advanced array (see `UpdateKeepsExpiredAlive`
   * for what that does).
   */
  method UpdateAsWritten(p: ParticleSystem, step: Particle -> Particle) returns (status: KillStatus)
    requires p.Valid()
    modifies p.particles, p`countAlive
    ensures p.Valid()
    ensures status != SizeExceeded
    ensures var e := EndId(old(p.countAlive));
      var advanced := AdvanceAll(old(p.particles[..e]), step) + old(p.particles[e..]);
      var expired := ExpiredSlots(AdvanceAll(old(p.particles[..e]), step));
      (status == Killed <==> expired != []) &&
      p.countAlive == old(p.countAlive) - |expired| &&
      p.particles[..] == KillSwaps(advanced, old(p.countAlive), expired, |expired|)
  {
    var toKill := AdvanceAndCollect(p, step);
    KillListFits(toKill, p.countAlive);
    status := p.Kill(toKill);
  }

  /**
   * What `update` as written does when the four advanced live records a, b,
   * c, d have a and c expired: the list is [0, 2], and the kill leaves the
   * expired c in slot 0 of the new prefix [0, 2), still flagged alive, while
   * the unexpired d is pushed out to slot 2.
   */
  lemma UpdateKeepsExpiredAlive(a: Particle, b: Particle, c: Particle, d: Particle)
    requires a.alive && b.alive && c.alive && d.alive
    requires Expired(a) && !Expired(b) && Expired(c) && !Expired(d)
    ensures var s := [a, b, c, d];
      var expired := ExpiredSlots(s);
      var r := KillSwaps(s, 4, expired, |expired|);
      |expired| == 2 && r[0] == c && r[0].alive && Expired(r[0]) && r[2] == d
  {
    ExpiredOfFour(a, b, c, d);
    KillZeroTwoOfFour(a, b, c, d);
  }

  /** The expired slots of four records of which the first and the third are expired. */
  lemma ExpiredOfFour(a: Particle, b: Particle, c: Particle, d: Particle)
    requires Expired(a) && !Expired(b) && Expired(c) && !Expired(d)
    ensures ExpiredSlots([a, b, c, d]) == [0, 2]
  {
    assert [a][..0] == [] && ExpiredSlots([a]) == [0];
    assert [a, b][..1] == [a] && ExpiredSlots([a, b]) == [0];
    assert [a, b, c][..2] == [a, b] && ExpiredSlots([a, b, c]) == [0, 2];
    assert [a, b, c, d][..3] == [a, b, c];
  }

  /**
   * `update(dt, p)` with the kill corrected: advance [0, endId), list the
   * expired slots there and compact them out of the live prefix. The new
   * array is `Compact` of the advanced one over that list, so the count
   * drops by exactly the number found; when the count fits in 32 bits no
   * record left in the live prefix is expired, and no slot at or past the
   * old count moves.
   */
  method Update(p: ParticleSystem, step: Particle -> Particle)
    requires p.Valid()
    modifies p.particles, p`countAlive
    ensures p.Valid()
    ensures var e := EndId(old(p.countAlive));
      p.countAlive == old(p.countAlive) - |ExpiredSlots(AdvanceAll(old(p.particles[..e]), step))|
    ensures var e := EndId(old(p.countAlive));
      p.particles[..] == Compact(AdvanceAll(old(p.particles[..e]), step) + old(p.particles[e..]),
                                 old(p.countAlive), ExpiredSlots(AdvanceAll(old(p.particles[..e]), step)))
    ensures old(p.countAlive) < TWO32 ==> forall i :: 0 <= i < p.countAlive ==> !Expired(p.particles[i])
    ensures forall i :: old(p.countAlive) <= i < p.particles.Length ==> p.particles[i] == old(p.particles[i])
  {
    ghost var count, e := p.countAlive, EndId(p.countAlive);
    ghost var live := AdvanceAll(p.particles[..e], step);
    var toKill := AdvanceAndCollect(p, step);
    ghost var s := p.particles[..];
    CompactFrame(s, count, toKill);
    assert forall i :: count <= i < |s| ==> s[i] == old(p.particles[i]);
    if count < TWO32 {
      assert s[..count] == live;
      CompactLeavesNoExpired(s, count, toKill);
    }
    p.KillCompacting(toKill);
  }

  /** Compacting the expired slots of the live prefix out of it leaves no expired record in it. */
  lemma CompactLeavesNoExpired(s: seq<Particle>, count: nat, k: seq<nat>)
    requires count <= |s| && k == ExpiredSlots(s[..count])
    ensures KillList(k, count)
    ensures forall i :: 0 <= i < count - |k| ==> !Expired(Compact(s, count, k)[i])
  {
    assert forall j :: 0 <= j < count ==> s[..count][j] == s[j];
    forall i | 0 <= i < count - |k|
      ensures !Expired(Compact(s, count, k)[i])
    {
      var j := CompactKeepsOnlySurvivors(s, count, k, i);
    }
  }
}
