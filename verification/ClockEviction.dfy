/**
 Clock eviction over the frames of a buffer pool: a cursor walks the frames in a
 circle, skips frames that cannot be evicted, gives every used frame a second
 chance by clearing its usage bit, and stops at the first frame without one.
 */
module ClockEviction {
  import opened Common

  datatype FrameState = Free | Resident | Flushing | Evicting

  datatype Frame = Frame(id: nat, state: FrameState, pinCount: nat, isDirty: bool, clockUsage: bool)

  datatype Candidate = Candidate(frameIndex: nat, frameId: nat)

  datatype ClockError = NoEvictionFrames | AllFramesPinned | NoEvictableFrame | InvalidClockUsage

  /** Clean, unpinned and resident: the only frames the policy may pick. */
  predicate Eligible(f: Frame)
  {
    f.state == Resident && f.pinCount == 0 && !f.isDirty
  }

  function Cleared(f: Frame): Frame
  {
    f.(clockUsage := false)
  }

  /** Test and clear the usage bit; a free frame has none. */
  function ConsumeClockUsage(f: Frame): (r: Result<(bool, Frame), ClockError>)
    ensures r.Err? <==> f.state == Free
    ensures r.Ok? ==> r.value.0 == f.clockUsage && r.value.1 == Cleared(f)
  {
    if f.state == Free then Err(InvalidClockUsage) else Ok((f.clockUsage, f.(clockUsage := false)))
  }

  // ---------------------------------------------------------------- cyclic order

  /** The frame index `k` steps after `start` in a circle of `n` frames. */
  function At(n: nat, start: nat, k: nat): (i: nat)
    requires start < n && k <= n
    ensures i < n
  {
    if start + k < n then start + k else start + k - n
  }

  /** How many steps after `start` the cursor meets frame `i` first. */
  function Distance(n: nat, start: nat, i: nat): (k: nat)
    requires start < n && i < n
    ensures k < n && At(n, start, k) == i
  {
    if start <= i then i - start else i + n - start
  }

  /** The frame met `k` steps after `start`. */
  function Met(frames: seq<Frame>, start: nat, k: nat): Frame
    requires start < |frames| && k < |frames|
  {
    frames[At(|frames|, start, k)]
  }

  // ---------------------------------------------------------------- specification

  /**
   The frame at distance `d` is the victim: the first eligible frame whose usage bit
   is clear or, when every eligible frame has it set, the first eligible frame.
   */
  ghost predicate IsVictim(frames: seq<Frame>, start: nat, d: nat)
    requires start < |frames|
  {
    && d < |frames|
    && Eligible(Met(frames, start, d))
    && if Met(frames, start, d).clockUsage then
         && (forall j :: 0 <= j < |frames| && Eligible(frames[j]) ==> frames[j].clockUsage)
         && (forall j :: 0 <= j < d ==> !Eligible(Met(frames, start, j)))
       else
         forall j :: 0 <= j < d && Eligible(Met(frames, start, j)) ==> Met(frames, start, j).clockUsage
  }

  /** The frames after a sweep of `steps` frames: every eligible frame passed over has lost its usage bit. */
  ghost function Swept(frames: seq<Frame>, start: nat, steps: nat): (after: seq<Frame>)
    requires start < |frames|
    ensures |after| == |frames|
  {
    seq(|frames|, i requires 0 <= i < |frames| =>
      if Eligible(frames[i]) && Distance(|frames|, start, i) < steps then Cleared(frames[i]) else frames[i])
  }

  /** How far the usage bits are swept before the victim at distance `d` is taken. */
  ghost function SweepLength(frames: seq<Frame>, start: nat, d: nat): nat
    requires start < |frames| && d < |frames|
  {
    if Met(frames, start, d).clockUsage then |frames| else d
  }

  /** The complete effect of one call, as a relation between the states around it. */
  ghost predicate Selects(before: seq<Frame>, cursor: nat, r: Result<Candidate, ClockError>, after: seq<Frame>,
                          cursor': nat)
  {
    if before == [] then
      r == Err(NoEvictionFrames) && after == before && cursor' == cursor
    else
      var n, start := |before|, cursor % |before|;
      match r
      case Ok(Candidate(i, id)) =>
        && i < n && id == before[i].id
        && IsVictim(before, start, Distance(n, start, i))
        && after == Swept(before, start, SweepLength(before, start, Distance(n, start, i)))
        && cursor' == At(n, i, 1)
      case Err(e) =>
        && (forall i :: 0 <= i < n ==> !Eligible(before[i]))
        && after == before && cursor' == start
        && e == if AllPinned(before) then AllFramesPinned else NoEvictableFrame
  }

  /** What a caller learns about the frames: a victim is resident, unpinned and clean, and otherwise none is. */
  ghost predicate Reported(frames: seq<Frame>, r: Result<Candidate, ClockError>)
  {
    match r
    case Ok(Candidate(i, _)) =>
      i < |frames| && frames[i].state == Resident && frames[i].pinCount == 0 && !frames[i].isDirty
    case Err(NoEvictionFrames) => frames == []
    case Err(AllFramesPinned) =>
      frames != [] && forall f :: f in frames ==> f.state == Resident && f.pinCount > 0
    case Err(NoEvictableFrame) =>
      && (forall f :: f in frames ==> f.state != Resident || f.pinCount > 0 || f.isDirty)
      && exists f :: f in frames && (f.state != Resident || f.pinCount == 0)
    case Err(InvalidClockUsage) => false
  }

  predicate AllPinned(frames: seq<Frame>)
  {
    forall i :: 0 <= i < |frames| ==> frames[i].state == Resident && frames[i].pinCount > 0
  }

  // ---------------------------------------------------------------- the policy

  class ClockEvictionPolicy {
    var cursor: nat

    constructor ()
      ensures cursor == 0
    {
      cursor := 0;
    }

    method Advance(frameCount: nat)
      requires frameCount > 0
      modifies this
      ensures cursor == (old(cursor) + 1) % frameCount
      ensures old(cursor) < frameCount ==> cursor == At(frameCount, old(cursor), 1)
    {
      cursor := (cursor + 1) % frameCount;
    }

    method SelectVictim(frames: array<Frame>) returns (r: Result<Candidate, ClockError>)
      modifies this, frames
      ensures Selects(old(frames[..]), old(cursor), r, frames[..], cursor)
      ensures Reported(old(frames[..]), r)
    {
      ghost var before := frames[..];
      if frames.Length == 0 {
        return Err(NoEvictionFrames);
      }
      var n := frames.Length;
      cursor := cursor % n;
      ghost var start := cursor;
      for step := 0 to 2 * n
        invariant InSweep(before, start, step, frames[..], cursor)
      {
        var frameIndex := cursor;
        SweepStep(before, start, step, frames[..], cursor);
        Advance(n);
        if !Eligible(frames[frameIndex]) {
          continue;
        }
        var consumed := ConsumeClockUsage(frames[frameIndex]);
        assert consumed.Ok?;  // an eligible frame is resident, so the error path is dead
        ghost var now := frames[..];
        frames[frameIndex] := consumed.value.1;
        assert frames[..] == now[frameIndex := consumed.value.1];
        if consumed.value.0 {
          continue;
        }
        assert frames[..] == now;
        return Ok(Candidate(frameIndex, frames[frameIndex].id));
      }
      NothingEligible(before, start);
      assert frames[..] == before;
      return Err(if AllPinned(frames[..]) then AllFramesPinned else NoEvictableFrame);
    }
  }

  // ---------------------------------------------------------------- sweeping

  /** How far from the start the cursor is at a step of the two rounds. */
  function Position(n: nat, step: nat): nat
  {
    if step < n then step else step - n
  }

  /**
   The state after `step` steps without a victim: every eligible frame met in the first round
   had its usage bit, and none was met in the second.
   */
  ghost predicate InSweep(frames: seq<Frame>, start: nat, step: nat, now: seq<Frame>, cursor: nat)
    requires start < |frames| && step <= 2 * |frames|
  {
    && cursor == At(|frames|, start, Position(|frames|, step))
    && now == Swept(frames, start, step)
    && (forall j :: 0 <= j < |frames| && j < step && Eligible(Met(frames, start, j)) ==>
        Met(frames, start, j).clockUsage)
    && (forall j :: 0 <= j < step - |frames| ==> !Eligible(Met(frames, start, j)))
  }

  /** One step either stays in the sweep or meets the victim. */
  lemma SweepStep(frames: seq<Frame>, start: nat, step: nat, now: seq<Frame>, cursor: nat)
    requires start < |frames| && step < 2 * |frames| && InSweep(frames, start, step, now, cursor)
    ensures cursor < |now| == |frames|
    ensures var f, next := now[cursor], At(|frames|, cursor, 1);
            && (!Eligible(f) ==> InSweep(frames, start, step + 1, now, next))
            && (Eligible(f) && f.clockUsage ==> InSweep(frames, start, step + 1, now[cursor := Cleared(f)], next))
            && (Eligible(f) && !f.clockUsage ==>
                  forall c :: c >= 0 && c % |frames| == start ==>
                    Selects(frames, c, Ok(Candidate(cursor, f.id)), now, next))
  {
    var n := |frames|;
    var d := Position(n, step);
    FrameMet(frames, start, step);
    assert frames[cursor] == Met(frames, start, d);
    if Eligible(now[cursor]) && !now[cursor].clockUsage {
      VictimFound(frames, start, step);
    }
  }

  /** One step of the cursor sweeps exactly the frame it meets. */
  lemma FrameMet(frames: seq<Frame>, start: nat, step: nat)
    requires start < |frames| && step < 2 * |frames|
    ensures var n := |frames|;
            var i := At(n, start, Position(n, step));
            var now := Swept(frames, start, step);
            && now[i] == (if step >= n && Eligible(frames[i]) then Cleared(frames[i]) else frames[i])
            && Swept(frames, start, step + 1) == (if Eligible(frames[i]) then now[i := Cleared(frames[i])] else now)
  {
    var n := |frames|;
    var d := Position(n, step);
    assert Distance(n, start, At(n, start, d)) == d;
  }

  /** The cursor stops at an eligible frame whose usage bit is clear now: that frame is the victim. */
  lemma VictimFound(frames: seq<Frame>, start: nat, step: nat)
    requires start < |frames| && step < 2 * |frames|
    requires var d := Position(|frames|, step);
             && Eligible(Met(frames, start, d))
             && (step < |frames| ==> !Met(frames, start, d).clockUsage)
    requires forall j :: 0 <= j < |frames| && j < step && Eligible(Met(frames, start, j)) ==>
              Met(frames, start, j).clockUsage
    requires forall j :: 0 <= j < step - |frames| ==> !Eligible(Met(frames, start, j))
    ensures var d := Position(|frames|, step);
            && d == Distance(|frames|, start, At(|frames|, start, d))
            && IsVictim(frames, start, d)
            && Swept(frames, start, step) == Swept(frames, start, SweepLength(frames, start, d))
  {
    var n := |frames|;
    if step >= n {
      forall j | 0 <= j < n && Eligible(frames[j]) ensures frames[j].clockUsage {
        assert frames[j] == Met(frames, start, Distance(n, start, j));
      }
    }
  }

  lemma NothingEligible(frames: seq<Frame>, start: nat)
    requires start < |frames|
    requires forall j :: 0 <= j < |frames| ==> !Eligible(Met(frames, start, j))
    ensures forall i :: 0 <= i < |frames| ==> !Eligible(frames[i])
    ensures Swept(frames, start, 2 * |frames|) == frames
  {
    forall i | 0 <= i < |frames| ensures !Eligible(frames[i]) {
      assert frames[i] == Met(frames, start, Distance(|frames|, start, i));
    }
  }

  // ---------------------------------------------------------------- theorems

  /** Completeness: some frame is eligible exactly when there is a victim, and the victim is unique. */
  lemma VictimExistsAndIsUnique(frames: seq<Frame>, start: nat)
    requires start < |frames|
    ensures (exists i :: 0 <= i < |frames| && Eligible(frames[i])) <==> (exists d :: IsVictim(frames, start, d))
    ensures forall d, e :: IsVictim(frames, start, d) && IsVictim(frames, start, e) ==> d == e
  {
    var n := |frames|;
    if i :| 0 <= i < n && Eligible(frames[i]) {
      if c :| 0 <= c < n && Eligible(frames[c]) && !frames[c].clockUsage {
        var d := FirstMet(frames, start, f => Eligible(f) && !f.clockUsage, Distance(n, start, c));
        assert IsVictim(frames, start, d);
      } else {
        var d := FirstMet(frames, start, f => Eligible(f), Distance(n, start, i));
        assert IsVictim(frames, start, d);
      }
    }
  }

  /** The least distance, at most `bound`, at which a frame with property `p` is met. */
  lemma FirstMet(frames: seq<Frame>, start: nat, p: Frame -> bool, bound: nat) returns (d: nat)
    requires start < |frames| && bound < |frames| && p(Met(frames, start, bound))
    ensures d <= bound && p(Met(frames, start, d))
    ensures forall j :: 0 <= j < d ==> !p(Met(frames, start, j))
  {
    d := 0;
    while !p(Met(frames, start, d))
      invariant d <= bound
      invariant forall j :: 0 <= j < d ==> !p(Met(frames, start, j))
      decreases bound - d
    {
      d := d + 1;
    }
  }

  datatype Pool = Pool(frames: seq<Frame>, cursor: nat)

  ghost function EligibleSet(frames: seq<Frame>): set<nat>
  {
    set i: nat | i < |frames| && Eligible(frames[i])
  }

  ghost function Elements<T>(s: seq<T>): set<T>
  {
    set x | x in s
  }

  /** One call picks `victim`, and the caller then makes that frame ineligible and touches nothing else. */
  ghost predicate Drains(p: Pool, victim: nat, q: Pool)
  {
    exists after: seq<Frame>, id: nat ::
      && Selects(p.frames, p.cursor, Ok(Candidate(victim, id)), after, q.cursor)
      && victim < |after| && |q.frames| == |after|
      && !Eligible(q.frames[victim])
      && q.frames == after[victim := q.frames[victim]]
  }

  ghost predicate DrainRun(pools: seq<Pool>, victims: seq<nat>)
  {
    && |pools| == |victims| + 1
    && forall k :: 0 <= k < |victims| ==> Drains(pools[k], victims[k], pools[k + 1])
  }

  lemma DrainStep(p: Pool, victim: nat, q: Pool)
    requires Drains(p, victim, q)
    ensures victim in EligibleSet(p.frames)
    ensures EligibleSet(q.frames) == EligibleSet(p.frames) - {victim}
  {
    var after: seq<Frame>, id: nat :|
      && Selects(p.frames, p.cursor, Ok(Candidate(victim, id)), after, q.cursor)
      && victim < |after| && |q.frames| == |after|
      && !Eligible(q.frames[victim])
      && q.frames == after[victim := q.frames[victim]];
    forall i: nat | i < |p.frames| && i != victim
      ensures Eligible(q.frames[i]) == Eligible(p.frames[i])
    {
      assert q.frames[i] == after[i];
    }
  }

  /** Element `k` is in set `k` and is the only difference to the next set. */
  ghost predicate Takes(sets: seq<set<nat>>, taken: seq<nat>, k: nat)
    requires k + 1 < |sets| && k < |taken|
  {
    taken[k] in sets[k] && sets[k + 1] == sets[k] - {taken[k]}
  }

  lemma {:induction false} TakenOneByOne(sets: seq<set<nat>>, taken: seq<nat>)
    requires |sets| == |taken| + 1 && forall k :: 0 <= k < |taken| ==> Takes(sets, taken, k)
    ensures Elements(taken) <= sets[0] && sets[|taken|] == sets[0] - Elements(taken)
    ensures |Elements(taken)| == |taken|
    ensures forall i, j :: 0 <= i < j < |taken| ==> taken[i] != taken[j]
  {
    if |taken| > 0 {
      var k := |taken| - 1;
      var front, last := taken[..k], taken[k];
      var earlier := sets[..k + 1];
      forall i | 0 <= i < k ensures Takes(earlier, front, i) {
        assert Takes(sets, taken, i);
      }
      TakenOneByOne(earlier, front);
      assert Takes(sets, taken, k);
      assert taken == front + [last];
      ElementsAppend(front, last);
      assert forall i :: 0 <= i < k ==> taken[i] == front[i] && front[i] in Elements(front);
    }
  }

  /** Over a whole run the victims are distinct and are exactly the frames no longer eligible. */
  lemma DrainTakesEachOnce(pools: seq<Pool>, victims: seq<nat>)
    requires DrainRun(pools, victims)
    ensures EligibleSet(pools[|victims|].frames) == EligibleSet(pools[0].frames) - Elements(victims)
    ensures Elements(victims) <= EligibleSet(pools[0].frames)
    ensures |Elements(victims)| == |victims| <= |EligibleSet(pools[0].frames)|
    ensures forall i, j :: 0 <= i < j < |victims| ==> victims[i] != victims[j]
  {
    var sets := seq(|pools|, i requires 0 <= i < |pools| => EligibleSet(pools[i].frames));
    forall k | 0 <= k < |victims| ensures Takes(sets, victims, k) {
      DrainStep(pools[k], victims[k], pools[k + 1]);
    }
    TakenOneByOne(sets, victims);
    SubsetSize(Elements(victims), EligibleSet(pools[0].frames));
  }

  lemma ElementsAppend<T>(s: seq<T>, x: T)
    ensures Elements(s + [x]) == Elements(s) + {x}
  {
  }

  lemma SubsetSize<T>(a: set<T>, b: set<T>)
    requires a <= b
    ensures |a| <= |b|
    ensures |a| == |b| ==> a == b
  {
    assert b == a + (b - a);
  }

  /**
   A run can go on until every initially eligible frame has been returned, and no
   longer: then the next call fails, changes no frame and only normalises the cursor.
   */
  lemma DrainStopsWhenEmpty(pools: seq<Pool>, victims: seq<nat>, r: Result<Candidate, ClockError>, after: seq<Frame>,
                            cursor': nat)
    requires DrainRun(pools, victims)
    requires var p := pools[|victims|]; Selects(p.frames, p.cursor, r, after, cursor')
    ensures r.Ok? <==> |victims| < |EligibleSet(pools[0].frames)|
    ensures r.Err? ==> Elements(victims) == EligibleSet(pools[0].frames)
    ensures r.Err? ==> after == pools[|victims|].frames
    ensures r.Err? && after != [] ==> cursor' == pools[|victims|].cursor % |after|
  {
    DrainTakesEachOnce(pools, victims);
    var p := pools[|victims|];
    SubsetSize(Elements(victims), EligibleSet(pools[0].frames));
    if r.Ok? {
      assert r.value.frameIndex in EligibleSet(p.frames);
    } else {
      assert EligibleSet(p.frames) == {};
      var all, taken := EligibleSet(pools[0].frames), Elements(victims);
      assert all - taken == {} && taken <= all;
      assert all == (all - taken) + taken;
    }
  }
}
