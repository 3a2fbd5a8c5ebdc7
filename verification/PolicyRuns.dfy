/**
 Everything a pool does to its eviction policy, in order: what the policy knows after a run, and
 why the victims of a run are the right ones.
 */
module PolicyRuns {
  import opened Common
  import opened Eviction
  import opened PoolModel
  import opened ClockSweep
  import opened LruK
  import opened Replacement
  import Arc
  import ArcRecency

  /** The pool tells the policy something, or has it choose a victim. */
  datatype Step = Tell(call: Call) | Choose(frames: seq<FrameState>, victim: nat)

  function Next(s: PolicyState, step: Step): PolicyState
  {
    match step
    case Tell(c) => Told(s, c)
    case Choose(frames, v) => Turned(s, frames, v)
  }

  function Run(s: PolicyState, steps: seq<Step>): PolicyState
  {
    if steps == [] then s else Next(Run(s, steps[..|steps| - 1]), steps[|steps| - 1])
  }

  function Calls(steps: seq<Step>): seq<Call>
  {
    if steps == [] then []
    else
      var n := |steps| - 1;
      Calls(steps[..n]) + if steps[n].Tell? then [steps[n].call] else []
  }

  /** The pages used, in order: hits and loads. */
  function Uses(steps: seq<Step>): seq<nat>
  {
    if steps == [] then []
    else
      var n := |steps| - 1;
      Uses(steps[..n]) + if steps[n].Tell? && (steps[n].call.Hit? || steps[n].call.Loaded?) then [steps[n].call.page] else []
  }

  /** Only legal calls, and every victim the one the policy's state determines. */
  ghost predicate ProperNext(s: PolicyState, resident: map<nat, nat>, step: Step, capacity: nat)
  {
    match step
    case Tell(c) => LegalNext(resident, c, capacity)
    case Choose(frames, v) => |frames| == capacity && Shows(frames, resident) && Chosen(s, frames, v)
  }

  ghost predicate Proper(s: PolicyState, steps: seq<Step>, capacity: nat)
  {
    steps == [] ||
    (var before := steps[..|steps| - 1];
     Proper(s, before, capacity) && ProperNext(Run(s, before), ResidentAfter(Calls(before)), steps[|steps| - 1], capacity))
  }

  lemma Extend(s: PolicyState, steps: seq<Step>, step: Step, capacity: nat)
    ensures Run(s, steps + [step]) == Next(Run(s, steps), step)
    ensures Calls(steps + [step]) == Calls(steps) + if step.Tell? then [step.call] else []
    ensures ResidentAfter(Calls(steps + [step])) ==
      if step.Tell? then ResidentNext(ResidentAfter(Calls(steps)), step.call) else ResidentAfter(Calls(steps))
    ensures Uses(steps + [step]) ==
      Uses(steps) + if step.Tell? && (step.call.Hit? || step.call.Loaded?) then [step.call.page] else []
    ensures Proper(s, steps + [step], capacity) <==>
      Proper(s, steps, capacity) && ProperNext(Run(s, steps), ResidentAfter(Calls(steps)), step, capacity)
  {
    assert (steps + [step])[..|steps|] == steps;
    if step.Tell? {
      assert (Calls(steps) + [step.call])[..|Calls(steps)|] == Calls(steps);
    } else {
      assert Calls(steps) + [] == Calls(steps);
    }
  }

  // ----- what each policy knows after a run -------------------------------------------------

  /** LRU-K has logged exactly the pages used, in order. */
  lemma {:induction false} LruKnows(k: nat, steps: seq<Step>)
    ensures Run(LruState(k, []), steps) == LruState(k, Uses(steps))
    decreases |steps|
  {
    if steps != [] { LruKnows(k, steps[..|steps| - 1]); }
  }

  /** ARC is in the state its calls lead to, and the calls are a legal history. */
  lemma {:induction false} ArcKnows(capacity: nat, steps: seq<Step>)
    ensures Run(ArcLists(Arc.Reset(capacity)), steps) == ArcLists(ArcRecency.StateAfter(Calls(steps), capacity))
    ensures Proper(ArcLists(Arc.Reset(capacity)), steps, capacity) ==> Legal(Calls(steps), capacity)
    decreases |steps|
  {
    if steps != [] {
      var n := |steps| - 1;
      ArcKnows(capacity, steps[..n]);
      if steps[n].Tell? {
        assert Calls(steps)[..|Calls(steps[..n])|] == Calls(steps[..n]);
      } else {
        assert Calls(steps) == Calls(steps[..n]);
      }
    }
  }

  /** The step uses the page in frame `f`. */
  predicate Marks(step: Step, f: nat)
  {
    step.Tell? && (step.call.Hit? || step.call.Loaded?) && step.call.frame == f
  }

  /** The step takes the page out of frame `f`, or the clock passes over the frame. */
  ghost predicate Clears(s: PolicyState, step: Step, f: nat)
  {
    match step
    case Tell(c) => c.Evicted? && c.frame == f
    case Choose(frames, v) => s.ClockState? && Passes(s.bits, s.hand, frames, v, f)
  }

  /** Looking for victim `v` the hand goes past frame `f`: it comes first, or the hand goes all the way round. */
  ghost predicate Passes(bits: seq<bool>, hand: nat, frames: seq<FrameState>, v: nat, f: nat)
  {
    && |bits| == |frames| && hand < |frames| && v < |frames|
    && Evictable(frames, f) && (bits[v] || Away(hand, f, |frames|) < Away(hand, v, |frames|))
  }

  ghost predicate ClearedAt(s: PolicyState, steps: seq<Step>, j: nat, f: nat)
  {
    j < |steps| && Clears(Run(s, steps[..j]), steps[j], f)
  }

  /** Step `k` used frame `f`, and none since emptied it or passed over it. */
  ghost predicate LastsFrom(s: PolicyState, steps: seq<Step>, k: nat, f: nat)
  {
    k < |steps| && Marks(steps[k], f) && forall j: nat :: k < j < |steps| ==> !ClearedAt(s, steps, j, f)
  }

  /** Frame `f` was used and has since been neither emptied nor passed over. */
  ghost predicate Referenced(s: PolicyState, steps: seq<Step>, f: nat)
  {
    exists k: nat :: LastsFrom(s, steps, k, f)
  }

  lemma LastsNext(s: PolicyState, steps: seq<Step>, k: nat, f: nat)
    requires steps != [] && k < |steps| - 1
    ensures LastsFrom(s, steps, k, f) <==> LastsFrom(s, steps[..|steps| - 1], k, f) && !ClearedAt(s, steps, |steps| - 1, f)
  {
    var before := steps[..|steps| - 1];
    forall j: nat | j < |before| ensures ClearedAt(s, steps, j, f) <==> ClearedAt(s, before, j, f) {
      assert before[..j] == steps[..j];
    }
  }

  lemma ReferencedNext(s: PolicyState, steps: seq<Step>, f: nat)
    requires steps != []
    ensures var n := |steps| - 1;
      Referenced(s, steps, f) <==> Marks(steps[n], f) || (Referenced(s, steps[..n], f) && !ClearedAt(s, steps, n, f))
  {
    var n := |steps| - 1;
    forall k: nat | k < n ensures LastsFrom(s, steps, k, f) <==> LastsFrom(s, steps[..n], k, f) && !ClearedAt(s, steps, n, f) {
      LastsNext(s, steps, k, f);
    }
    assert LastsFrom(s, steps, n, f) <==> Marks(steps[n], f);
    if k: nat :| LastsFrom(s, steps, k, f) { assert k <= n; }
  }

  ghost function ClockStart(capacity: nat): PolicyState { Fresh(ClockSweepKind, capacity) }

  /** The clock's bits are set for exactly the frames referenced since they were last emptied or passed over. */
  lemma {:induction false} ClockKnows(capacity: nat, steps: seq<Step>, f: nat)
    requires f < capacity && Proper(ClockStart(capacity), steps, capacity)
    ensures var s := Run(ClockStart(capacity), steps);
      s.ClockState? && |s.bits| == capacity && s.hand < capacity && (s.bits[f] <==> Referenced(ClockStart(capacity), steps, f))
    decreases |steps|
  {
    if steps != [] {
      var n := |steps| - 1;
      ClockKnows(capacity, steps[..n], f);
      ReferencedNext(ClockStart(capacity), steps, f);
      ClockStep(Run(ClockStart(capacity), steps[..n]), steps[n], f);
    }
  }

  lemma ClockStep(s: PolicyState, step: Step, f: nat)
    requires s.ClockState? && f < |s.bits| && s.hand < |s.bits|
    requires step.Choose? ==> |step.frames| == |s.bits| && step.victim < |s.bits|
    ensures var t := Next(s, step);
      && t.ClockState? && |t.bits| == |s.bits| && t.hand < |t.bits|
      && (t.bits[f] <==> Marks(step, f) || (s.bits[f] && !Clears(s, step, f)))
  {
  }

  /** Where the hand stands: just past the last victim. */
  function HandAfter(steps: seq<Step>, capacity: nat): (h: nat)
    requires capacity > 0
    ensures h < capacity
  {
    if steps == [] then 0
    else
      var last := steps[|steps| - 1];
      if last.Choose? && last.victim < capacity then Advance(last.victim, capacity)
      else HandAfter(steps[..|steps| - 1], capacity)
  }

  lemma {:induction false} HandKnown(capacity: nat, steps: seq<Step>)
    requires capacity > 0 && Proper(ClockStart(capacity), steps, capacity)
    ensures var s := Run(ClockStart(capacity), steps);
      s.ClockState? && |s.bits| == capacity && s.hand == HandAfter(steps, capacity)
    decreases |steps|
  {
    if steps != [] {
      HandKnown(capacity, steps[..|steps| - 1]);
      ClockStep(Run(ClockStart(capacity), steps[..|steps| - 1]), steps[|steps| - 1], 0);
    }
  }

  // ----- the victims of a run ---------------------------------------------------------------

  lemma {:induction false} StepProper(s: PolicyState, steps: seq<Step>, capacity: nat, j: nat)
    requires Proper(s, steps, capacity) && j < |steps|
    ensures Proper(s, steps[..j], capacity) && ProperNext(Run(s, steps[..j]), ResidentAfter(Calls(steps[..j])), steps[j], capacity)
    decreases |steps|
  {
    var n := |steps| - 1;
    if j < n {
      StepProper(s, steps[..n], capacity, j);
      assert steps[..n][..j] == steps[..j];
    }
  }

  /** The first frame from the hand on that may be evicted and is not referenced; if all are, the first at all. */
  ghost predicate SecondChance(steps: seq<Step>, capacity: nat, frames: seq<FrameState>, v: nat)
    requires capacity > 0 && |frames| == capacity
  {
    var hand := HandAfter(steps, capacity);
    && Evictable(frames, v)
    && (Referenced(ClockStart(capacity), steps, v) ==>
          forall f: nat :: Evictable(frames, f) ==> Referenced(ClockStart(capacity), steps, f))
    && forall f: nat :: Evictable(frames, f) && Away(hand, f, capacity) < Away(hand, v, capacity) ==>
         Referenced(ClockStart(capacity), steps, f) && !Referenced(ClockStart(capacity), steps, v)
  }

  /** Of the list ARC takes from, the page whose last hit or load is longest ago. */
  ghost predicate LongestAgo(calls: seq<Call>, capacity: nat, frames: seq<FrameState>, v: nat)
  {
    var a := ArcRecency.StateAfter(calls, capacity);
    if ArcRecency.Offers(a.t1, a.resident, frames) && (Arc.PrefersT1(a) || !ArcRecency.Offers(a.t2, a.resident, frames))
    then ArcRecency.Oldest(a.t1, a.resident, frames, calls, v)
    else ArcRecency.Oldest(a.t2, a.resident, frames, calls, v)
  }

  /** What the pages used so far say about the victim. */
  ghost predicate RightVictim(kind: PolicyKind, capacity: nat, past: seq<Step>, frames: seq<FrameState>, v: nat)
    requires capacity > 0 && |frames| == capacity
  {
    match kind
    case ClockSweepKind => SecondChance(past, capacity, frames, v)
    case LruKKind(k) => if k == 0 then LowestEvictable(frames, v) else BestVictim(Uses(past), k, frames, v)
    case ArcKind => LongestAgo(Calls(past), capacity, frames, v)
  }

  /** Every victim of every run from a fresh policy is right for what was really used before it. */
  lemma RunVictims(kind: PolicyKind, capacity: nat, steps: seq<Step>, j: nat)
    requires capacity > 0 && Proper(Fresh(kind, capacity), steps, capacity) && j < |steps| && steps[j].Choose?
    ensures |steps[j].frames| == capacity && RightVictim(kind, capacity, steps[..j], steps[j].frames, steps[j].victim)
  {
    StepProper(Fresh(kind, capacity), steps, capacity, j);
    match kind
    case ClockSweepKind => ClockVictim(capacity, steps[..j], steps[j].frames, steps[j].victim);
    case LruKKind(k) => LruKnows(k, steps[..j]);
    case ArcKind =>
      ArcKnows(capacity, steps[..j]);
      ArcRecency.VictimOldest(Calls(steps[..j]), capacity, steps[j].frames);
  }

  lemma ClockVictim(capacity: nat, steps: seq<Step>, frames: seq<FrameState>, v: nat)
    requires capacity > 0 && |frames| == capacity && Proper(ClockStart(capacity), steps, capacity)
    requires Chosen(Run(ClockStart(capacity), steps), frames, v)
    ensures SecondChance(steps, capacity, frames, v)
  {
    HandKnown(capacity, steps);
    forall f: nat | Evictable(frames, f)
      ensures Referenced(ClockStart(capacity), steps, f) <==> Run(ClockStart(capacity), steps).bits[f]
    {
      ClockKnows(capacity, steps, f);
    }
  }

  // ----- the steps of a fetch ---------------------------------------------------------------

  /** `steps` account for all the policy in state `s` knows, and for the resident pages. */
  ghost predicate AccountsFor(start: PolicyState, steps: seq<Step>, s: PolicyState, capacity: nat, resident: map<nat, nat>)
  {
    Proper(start, steps, capacity) && Run(start, steps) == s && ResidentAfter(Calls(steps)) == resident
  }

  ghost predicate Accounts(start: PolicyState, steps: seq<Step>, s: PolicyState, frames: seq<Frame>)
  {
    AccountsFor(start, steps, s, |frames|, Resident(frames))
  }

  /** A legal call keeps the account; a hit or load uses its page. */
  lemma TellAccounted(start: PolicyState, past: seq<Step>, s: PolicyState, capacity: nat, resident: map<nat, nat>, c: Call)
    requires AccountsFor(start, past, s, capacity, resident) && LegalNext(resident, c, capacity)
    ensures AccountsFor(start, past + [Tell(c)], Told(s, c), capacity, ResidentNext(resident, c))
    ensures Uses(past + [Tell(c)]) == Uses(past) + if c.Hit? || c.Loaded? then [c.page] else []
  {
    Extend(start, past, Tell(c), capacity);
  }

  /** So does a victim the state determines. */
  lemma ChooseAccounted(start: PolicyState, past: seq<Step>, s: PolicyState, frames: seq<Frame>, v: nat)
    requires Accounts(start, past, s, frames) && OneFrameEach(frames) && Chosen(s, States(frames), v)
    ensures Accounts(start, past + [Choose(States(frames), v)], Turned(s, States(frames), v), frames)
    ensures Uses(past + [Choose(States(frames), v)]) == Uses(past)
  {
    ResidentShown(frames);
    Extend(start, past, Choose(States(frames), v), |frames|);
  }

  /** A miss, and the choice of a frame, keep the account. */
  lemma MissAccounted(start: PolicyState, past: seq<Step>, s: PolicyState, frames: seq<Frame>, p: nat, victim: Option<nat>, t: PolicyState)
    returns (steps: seq<Step>)
    requires Accounts(start, past, s, frames) && OneFrameEach(frames)
    requires FrameOf(frames, p).None? && MissTold(s, frames, p, victim, t)
    ensures past <= steps && Accounts(start, steps, t, frames) && Uses(steps) == Uses(past)
  {
    TellAccounted(start, past, s, |frames|, Resident(frames), Missed(p));
    steps := past + [Tell(Missed(p))];
    if victim.Some? && AllValid(frames) {
      ChooseAccounted(start, steps, Told(s, Missed(p)), frames, victim.value);
      steps := steps + [Choose(States(frames), victim.value)];
    }
  }

  /** Giving frame `i` to page `p` keeps the account, and uses `p`. */
  lemma LoadAccounted(start: PolicyState, past: seq<Step>, s: PolicyState, frames: seq<Frame>, p: nat, i: nat, dirty: bool)
    returns (steps: seq<Step>)
    requires Accounts(start, past, s, frames) && OneFrameEach(frames) && FrameOf(frames, p).None? && i < |frames|
    ensures past <= steps && Accounts(start, steps, Swapped(s, frames[i], i, p), frames[i := Frame(p, true, dirty, 1)])
    ensures Uses(steps) == Uses(past) + [p]
  {
    ResidentReplaced(frames, i, p, dirty);
    steps := past;
    var now, resident := s, Resident(frames);
    if frames[i].valid {
      var c := Evicted(frames[i].pageId, i);
      TellAccounted(start, past, s, |frames|, resident, c);
      steps, now, resident := past + [Tell(c)], Told(s, c), resident - {c.page};
    }
    TellAccounted(start, steps, now, |frames|, resident, Loaded(p, i));
    steps := steps + [Tell(Loaded(p, i))];
  }

  /** A successful fetch keeps the account and uses exactly its page; a failed one uses none. */
  lemma FetchAccounted(start: PolicyState, past: seq<Step>, s: PolicyState, frames: seq<Frame>, p: nat,
                       landed: Option<nat>, victim: Option<nat>, t: PolicyState)
    returns (steps: seq<Step>)
    requires Accounts(start, past, s, frames) && OneFrameEach(frames)
    requires FetchTold(s, frames, p, landed, victim, t)
    ensures past <= steps && Accounts(start, steps, t, After(frames, p, landed))
    ensures Uses(steps) == Uses(past) + if landed.Some? then [p] else []
  {
    if landed.None? {
      steps := MissAccounted(start, past, s, frames, p, victim, t);
    } else if FrameOf(frames, p).Some? {
      TellAccounted(start, past, s, |frames|, Resident(frames), Hit(p, landed.value));
      steps := past + [Tell(Hit(p, landed.value))];
    } else {
      var picked := Picking(Told(s, Missed(p)), frames, landed.value);
      steps := MissAccounted(start, past, s, frames, p, landed, picked);
      steps := LoadAccounted(start, steps, picked, frames, p, landed.value, false);
    }
  }

  /** The pages in the frames after a fetch. */
  function After(frames: seq<Frame>, p: nat, landed: Option<nat>): seq<Frame>
    requires landed.Some? ==> landed.value < |frames|
  {
    if landed.Some? && FrameOf(frames, p).None? then frames[landed.value := Frame(p, true, false, 1)] else frames
  }

  lemma SamePagesAccounted(start: PolicyState, steps: seq<Step>, s: PolicyState, a: seq<Frame>, b: seq<Frame>)
    requires Accounts(start, steps, s, a) && |a| == |b|
    requires forall i :: 0 <= i < |a| ==> a[i].valid == b[i].valid && a[i].pageId == b[i].pageId
    ensures Accounts(start, steps, s, b)
  {
    ResidentSame(a, b);
  }
}
