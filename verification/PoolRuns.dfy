/** Runs of fetches through a buffer pool: the victims are right for the pages really fetched. */
module PoolRuns {
  import opened Common
  import opened Eviction
  import opened PoolModel
  import opened Storage
  import opened Buffering
  import opened Policies
  import opened Replacement
  import opened PolicyRuns

  /** Fetch a page; give the pin back at once, or keep it. */
  datatype Visit = Visit(page: nat, keep: bool)

  /** The pages the fetches delivered, in order. */
  function Served(visits: seq<Visit>, results: seq<bool>): seq<nat>
    requires |visits| == |results|
  {
    if visits == [] then [] else (if results[0] then [visits[0].page] else []) + Served(visits[1..], results[1..])
  }

  /** The frames after a fetch that landed in a frame, or failed. */
  ghost predicate FetchedInto(before: seq<Frame>, after: seq<Frame>, p: nat, landed: Option<nat>)
  {
    if landed.Some? then PinnedOne(before, after, landed.value, p) else SamePins(before, after)
  }

  /** The same frames with one pin less on frame `i`. */
  ghost predicate OnePinLess(before: seq<Frame>, after: seq<Frame>, i: nat)
  {
    Returnable(before, i) && after == before[i := before[i].(pins := before[i].pins - 1)]
  }

  lemma VisitAccounted(start: PolicyState, past: seq<Step>, s: PolicyState, before: seq<Frame>, p: nat,
                       landed: Option<nat>, victim: Option<nat>, t: PolicyState, after: seq<Frame>)
    returns (steps: seq<Step>)
    requires Accounts(start, past, s, before) && OneFrameEach(before)
    requires FetchTold(s, before, p, landed, victim, t) && FetchedInto(before, after, p, landed)
    ensures past <= steps && Accounts(start, steps, t, after)
    ensures Uses(steps) == Uses(past) + if landed.Some? then [p] else []
  {
    steps := FetchAccounted(start, past, s, before, p, landed, victim, t);
    SamePagesAccounted(start, steps, t, PolicyRuns.After(before, p, landed), after);
  }

  lemma StillReusable(before: seq<Frame>, mid: seq<Frame>, after: seq<Frame>, p: nat, i: nat)
    requires SomeReusable(before) && PinnedOne(before, mid, i, p) && OnePinLess(mid, after, i)
    ensures SomeReusable(after)
  {
    var j: nat :| Reusable(before, j);
    assert Reusable(after, j);
  }

  /** Give back a pin under which nothing was written. */
  method GiveBack(pool: BufferPool, h: FrameHandle, ghost start: PolicyState, ghost steps: seq<Step>)
    requires pool.Valid() && h.owner == pool && Returnable(pool.frames, h.index)
    requires pool.frames[h.index].pins == 1 ==> pool.Accounted(h.index)
    requires Accounts(start, steps, pool.policy.Now(), pool.frames)
    modifies pool`frames
    ensures pool.Valid() && pool.View() == old(pool.View()) && OnePinLess(old(pool.frames), pool.frames, h.index)
    ensures Accounts(start, steps, pool.policy.Now(), pool.frames)
  {
    assert FrameOk(pool.Img(), h.index);
    ghost var told := pool.policy.Self();
    var r, left := pool.Unpin(h, false);
    assert unchanged(told);
    assert FrameOk(pool.Img(), h.index);
    SamePagesAccounted(start, steps, pool.policy.Now(), old(pool.frames), pool.frames);
  }

  /** A fetch with its account. */
  method FetchCounted(pool: BufferPool, p: nat, ghost start: PolicyState, ghost past: seq<Step>)
    returns (r: Result<FrameHandle>, ghost steps: seq<Step>)
    requires pool.Valid() && pool.store.io.CleanReads()
    requires Accounts(start, past, pool.policy.Now(), pool.frames)
    modifies pool, pool.store.io, pool.policy.Self(), pool.buffers
    ensures pool.Valid() && pool.View() == old(pool.View()) && pool.store.io.CleanReads()
    ensures past <= steps && Accounts(start, steps, pool.policy.Now(), pool.frames)
    ensures Uses(steps) == Uses(past) + if r.Ok? then [p] else []
    ensures FetchedInto(old(pool.frames), pool.frames, p, LandedIn(r))
    ensures r.Ok? ==> r.value.owner == pool && (pool.frames[r.value.index].pins == 1 ==> pool.Accounted(r.value.index))
    ensures old(pool.store.io.Healthy()) ==> pool.store.io.Healthy()
    ensures old(pool.store.io.Healthy()) ==>
      (r.Ok? <==> FrameOf(old(pool.frames), p).Some? || (SomeReusable(old(pool.frames)) && p < |old(pool.store.Pages())|))
  {
    ghost var victim, got;
    r, victim, got := pool.Fetch(p);
    steps := VisitAccounted(start, past, old(pool.policy.Now()), old(pool.frames), p, LandedIn(r), LeftAt(r, victim),
                            pool.policy.Now(), pool.frames);
  }

  /** The file is healthy and some frame may be reused. */
  ghost predicate Serving(pool: BufferPool)
    reads pool, pool.store.io
  {
    pool.store.io.Healthy() && SomeReusable(pool.frames)
  }

  /** One fetch: the policy is told of exactly this page, and only if it was delivered. */
  method VisitPage(pool: BufferPool, v: Visit, ghost start: PolicyState, ghost past: seq<Step>)
    returns (ok: bool, ghost steps: seq<Step>)
    requires pool.Valid() && pool.store.io.CleanReads()
    requires Accounts(start, past, pool.policy.Now(), pool.frames)
    modifies pool, pool.store.io, pool.policy.Self(), pool.buffers
    ensures pool.Valid() && pool.View() == old(pool.View()) && pool.store.io.CleanReads() && |pool.frames| == |old(pool.frames)|
    ensures past <= steps && Accounts(start, steps, pool.policy.Now(), pool.frames)
    ensures Uses(steps) == Uses(past) + if ok then [v.page] else []
    ensures old(Serving(pool)) && v.page < |old(pool.View())| ==> ok && (!v.keep ==> Serving(pool))
  {
    var r;
    r, steps := FetchCounted(pool, v.page, start, past);
    ok := r.Ok?;
    if ok && !v.keep {
      ghost var mid := pool.frames;
      GiveBack(pool, r.value, start, steps);
      if SomeReusable(old(pool.frames)) { StillReusable(old(pool.frames), mid, pool.frames, v.page, r.value.index); }
    }
  }

  /** The steps tell the policy of every fetch of the run, and of nothing else. */
  method VisitAll(pool: BufferPool, visits: seq<Visit>, ghost start: PolicyState, ghost past: seq<Step>)
    returns (results: seq<bool>, ghost steps: seq<Step>)
    requires pool.Valid() && pool.store.io.CleanReads()
    requires Accounts(start, past, pool.policy.Now(), pool.frames)
    modifies pool, pool.store.io, pool.policy.Self(), pool.buffers
    ensures pool.Valid() && pool.View() == old(pool.View()) && |pool.frames| == |old(pool.frames)|
    ensures past <= steps && Accounts(start, steps, pool.policy.Now(), pool.frames)
    ensures |results| == |visits| && Uses(steps) == Uses(past) + Served(visits, results)
    ensures old(Serving(pool)) && Passing(visits, |old(pool.View())|) ==> forall i :: 0 <= i < |visits| ==> results[i]
    decreases |visits|
  {
    if visits == [] {
      return [], past;
    }
    var ok, rest;
    ok, steps := VisitPage(pool, visits[0], start, past);
    rest, steps := VisitAll(pool, visits[1..], start, steps);
    results := [ok] + rest;
    ServedFirst(visits, ok, rest, Uses(past));
  }

  lemma ServedFirst(visits: seq<Visit>, ok: bool, rest: seq<bool>, used: seq<nat>)
    requires |visits| == |rest| + 1
    ensures used + Served(visits, [ok] + rest) == used + (if ok then [visits[0].page] else []) + Served(visits[1..], rest)
  {
    assert ([ok] + rest)[1..] == rest;
  }

  /** Visits of pages in the file that keep no pin. */
  predicate Passing(visits: seq<Visit>, pages: nat)
  {
    forall i :: 0 <= i < |visits| ==> !visits[i].keep && visits[i].page < pages
  }

  /**
   A new pool, then any run of fetches: the policy has been told exactly of the fetches that
   delivered, and every victim is right for the pages delivered before it.
   */
  method RunPool(s: PageStore, capacity: nat, kind: PolicyKind, visits: seq<Visit>)
    returns (pool: BufferPool, results: seq<bool>, ghost steps: seq<Step>)
    requires capacity > 0 && s.Ready() && s.io.CleanReads()
    modifies s.io
    ensures pool.Valid() && pool.View() == old(s.Pages()) && |pool.frames| == capacity
    ensures |results| == |visits| && Uses(steps) == Served(visits, results)
    ensures Accounts(Fresh(kind, capacity), steps, pool.policy.Now(), pool.frames)
    ensures forall j :: 0 <= j < |steps| && steps[j].Choose? ==>
      |steps[j].frames| == capacity && RightVictim(kind, capacity, steps[..j], steps[j].frames, steps[j].victim)
    ensures old(s.io.Healthy()) && Passing(visits, |old(s.Pages())|) ==> forall i :: 0 <= i < |visits| ==> results[i]
  {
    var policy := Policy.Make(kind, capacity);
    pool := new BufferPool(s, capacity, policy);
    assert Reusable(pool.frames, 0);
    assert Resident(pool.frames) == map[];
    results, steps := VisitAll(pool, visits, Fresh(kind, capacity), []);
    forall j | 0 <= j < |steps| && steps[j].Choose?
      ensures |steps[j].frames| == capacity && RightVictim(kind, capacity, steps[..j], steps[j].frames, steps[j].victim)
    {
      RunVictims(kind, capacity, steps, j);
    }
  }
}
