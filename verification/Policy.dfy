/**
 The pluggable eviction policy of the buffer pool, under one contract for all three kinds.

 `Tracks(c, resident)` says the policy is in step with a pool of `c` frames holding exactly
 the pages of `resident`. Each call is specified by how it moves `resident`; the conditions
 are the ones the pool's own call order guarantees.
 */
module Policies {
  import opened Common
  import opened Eviction
  import Arc
  import opened ArcObject
  import opened ClockSweep
  import opened LruK
  import opened Replacement

  datatype Policy =
    | ClockPolicy(clock: ClockSweepPolicy)
    | LruPolicy(lru: LruKPolicy)
    | AdaptivePolicy(arc: ArcPolicy)
  {
    ghost function Self(): object
    {
      match this
      case ClockPolicy(p) => p
      case LruPolicy(p) => p
      case AdaptivePolicy(p) => p
    }

    /** What the policy knows. */
    ghost function Now(): PolicyState
      reads Self()
    {
      match this
      case ClockPolicy(p) => ClockState(p.referenced, p.hand)
      case LruPolicy(p) => LruState(p.k, p.log)
      case AdaptivePolicy(p) => ArcLists(p.State())
    }

    ghost predicate Tracks(capacity: nat, resident: map<nat, nat>)
      reads Self()
    {
      && Placement(capacity, resident)
      && match this
         case ClockPolicy(p) => p.Tracks(capacity, resident)
         case LruPolicy(p) => p.Tracks(capacity, resident)
         case AdaptivePolicy(p) => p.Tracks(capacity, resident)
    }

    /** make_eviction_policy followed by reset. */
    static method Make(kind: PolicyKind, capacity: nat) returns (p: Policy)
      requires capacity > 0
      ensures fresh(p.Self()) && p.Tracks(capacity, map[]) && p.Now() == Fresh(kind, capacity)
    {
      match kind
      case ClockSweepKind =>
        var c := new ClockSweepPolicy(capacity);
        p := ClockPolicy(c);
      case LruKKind(history) =>
        var l := new LruKPolicy(history);
        p := LruPolicy(l);
      case ArcKind =>
        var a := new ArcPolicy(capacity);
        p := AdaptivePolicy(a);
    }

    /** A resident page was fetched again. */
    method RecordAccess(ghost capacity: nat, ghost resident: map<nat, nat>, page: nat, frame: nat) returns (r: Status)
      requires Tracks(capacity, resident) && page in resident && resident[page] == frame
      modifies Self()
      ensures r == Ok(()) && Tracks(capacity, resident) && Now() == Told(old(Now()), Hit(page, frame))
    {
      match this
      case ClockPolicy(p) => r := p.RecordAccess(page, frame);
      case LruPolicy(p) => r := p.RecordAccess(page, frame);
      case AdaptivePolicy(p) =>
        Arc.AccessKeeps(p.State(), capacity, resident, page);
        r := p.RecordAccess(page, frame);
    }

    /** A page was asked for that no frame holds. */
    method RecordMiss(ghost capacity: nat, ghost resident: map<nat, nat>, page: nat) returns (r: Status)
      requires Tracks(capacity, resident)
      modifies Self()
      ensures r == Ok(()) && Tracks(capacity, resident) && Now() == Told(old(Now()), Missed(page))
    {
      match this
      case ClockPolicy(p) => r := Ok(());
      case LruPolicy(p) => r := Ok(());
      case AdaptivePolicy(p) =>
        Arc.MissKeeps(p.State(), capacity, resident, page);
        r := p.RecordMiss(page);
    }

    /** A page was read into a frame that holds none. */
    method RecordLoad(ghost capacity: nat, ghost resident: map<nat, nat>, page: nat, frame: nat) returns (r: Status)
      requires Tracks(capacity, resident) && page !in resident && frame < capacity
      requires forall q :: q in resident ==> resident[q] != frame
      modifies Self()
      ensures r == Ok(()) && Tracks(capacity, resident[page := frame]) && Now() == Told(old(Now()), Loaded(page, frame))
    {
      match this
      case ClockPolicy(p) => r := p.RecordAccess(page, frame);
      case LruPolicy(p) => r := p.RecordAccess(page, frame);
      case AdaptivePolicy(p) =>
        Arc.LoadKeeps(p.State(), capacity, resident, page, frame);
        r := p.RecordLoad(page, frame);
    }

    /** A resident page is about to leave its frame. */
    method RecordEvict(ghost capacity: nat, ghost resident: map<nat, nat>, page: nat, frame: nat) returns (r: Status)
      requires Tracks(capacity, resident) && page in resident && resident[page] == frame
      modifies Self()
      ensures r == Ok(()) && Tracks(capacity, resident - {page}) && Now() == Told(old(Now()), Evicted(page, frame))
    {
      match this
      case ClockPolicy(p) => r := p.RecordEvict(page, frame);
      case LruPolicy(p) => r := Ok(());
      case AdaptivePolicy(p) =>
        Arc.EvictKeeps(p.State(), capacity, resident, page);
        r := p.RecordEvict(page, frame);
    }

    /** Succeeds exactly when some frame is valid and unpinned, and picks the one the policy's state determines. */
    method ChooseVictim(ghost capacity: nat, ghost resident: map<nat, nat>, frames: seq<FrameState>) returns (r: Result<nat>)
      requires capacity > 0 && |frames| == capacity
      requires Tracks(capacity, resident) && Shows(frames, resident)
      modifies Self()
      ensures Tracks(capacity, resident)
      ensures r.Ok? <==> SomeEvictable(frames)
      ensures r.Ok? ==> Evictable(frames, r.value)
      ensures r.Err? ==> r.error == BufferPoolFull
      ensures r.Ok? ==> Chosen(old(Now()), frames, r.value)
      ensures Now() == if r.Ok? then Turned(old(Now()), frames, r.value) else old(Now())
    {
      match this
      case ClockPolicy(p) =>
        r := p.ChooseVictim(frames);
        if r.Ok? { SweptIs(old(p.referenced), old(p.hand), frames, r.value, p.referenced); }
      case LruPolicy(p) => r := p.ChooseVictim(frames);
      case AdaptivePolicy(p) =>
        Arc.VictimExact(p.State(), capacity, frames, resident);
        r := p.ChooseVictim(frames);
    }
  }
}
