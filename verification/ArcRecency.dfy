/**
 What the ARC lists mean over a whole history (src/storage/buffer/arc_policy.cpp): after every
 legal sequence of calls, each list runs from the most to the least recently moved page.
 */
module ArcRecency {
  import opened Common
  import opened Eviction
  import opened Arc

  function After(a: ArcState, c: Call): ArcState
  {
    match c
    case Hit(p, frame) => Access(a, p, frame)
    case Missed(p) => Miss(a, p)
    case Loaded(p, frame) => Load(a, p, frame)
    case Evicted(p, _) => Evict(a, p)
  }

  function StateAfter(calls: seq<Call>, capacity: nat): ArcState
  {
    if calls == [] then Reset(capacity) else After(StateAfter(calls[..|calls| - 1], capacity), calls[|calls| - 1])
  }

  /** When the page was last hit, loaded or evicted; 0 for never. */
  function LastMove(calls: seq<Call>, p: nat): (t: nat)
    ensures t <= |calls|
  {
    if calls == [] then 0
    else
      var n := |calls| - 1;
      if !calls[n].Missed? && calls[n].page == p then n + 1 else LastMove(calls[..n], p)
  }

  ghost predicate Ordered(s: seq<nat>, calls: seq<Call>)
  {
    forall i, j :: 0 <= i < j < |s| ==> LastMove(calls, s[i]) > LastMove(calls, s[j])
  }

  ghost predicate AllOrdered(a: ArcState, calls: seq<Call>)
  {
    Ordered(a.t1, calls) && Ordered(a.t2, calls) && Ordered(a.b1, calls) && Ordered(a.b2, calls)
  }

  /**
   What the last move of a listed page was, by the list it is on: T1 pages were loaded unremembered,
   T2 pages were hit or were ghosts when loaded, B1 pages were evicted from T1 and B2 pages from T2.
   */
  ghost predicate Explains(a: ArcState, calls: seq<Call>, capacity: nat, p: nat)
  {
    p in a.locations ==>
      && var t := LastMove(calls, p);
      && t > 0
      && var place := StateAfter(calls[..t - 1], capacity).locations;
      match a.locations[p]
      case T1 => calls[t - 1].Loaded? && p !in place
      case T2 => calls[t - 1].Hit? || (calls[t - 1].Loaded? && p in place && place[p] in {B1, B2})
      case B1 => calls[t - 1].Evicted? && p in place && place[p] == T1
      case B2 => calls[t - 1].Evicted? && p in place && place[p] == T2
  }

  // ----- lists ------------------------------------------------------------------------------

  lemma {:induction false} WithoutAt(s: seq<nat>, p: nat, i: nat) returns (k: nat)
    requires i < |Without(s, p)|
    ensures k < |s| && Without(s, p)[i] == s[k]
    decreases |s|
  {
    if s[0] == p {
      k := i + 1;
    } else if i == 0 {
      k := 0;
    } else {
      var j := WithoutAt(s[1..], p, i - 1);
      k := j + 1;
    }
  }

  lemma {:induction false} WithoutOrdered(s: seq<nat>, p: nat, calls: seq<Call>)
    requires Ordered(s, calls)
    ensures Ordered(Without(s, p), calls)
    decreases |s|
  {
    if s != [] && s[0] != p {
      WithoutOrdered(s[1..], p, calls);
      var w := Without(s[1..], p);
      forall j | 0 <= j < |w| ensures LastMove(calls, s[0]) > LastMove(calls, w[j]) {
        var k := WithoutAt(s[1..], p, j);
        assert s[k + 1] == w[j];
      }
    }
  }

  /** A call about p moves nothing on a list without p. */
  lemma Untouched(s: seq<nat>, calls: seq<Call>, c: Call)
    requires Ordered(s, calls) && (c.Missed? || c.page !in s)
    ensures Ordered(s, calls + [c])
  {
    assert (calls + [c])[..|calls|] == calls;
    assert forall i :: 0 <= i < |s| ==> s[i] in s;
    assert forall i :: 0 <= i < |s| ==> LastMove(calls + [c], s[i]) == LastMove(calls, s[i]);
  }

  lemma Moved(s: seq<nat>, calls: seq<Call>, c: Call)
    requires Ordered(s, calls) && NoDup(s) && !c.Missed?
    ensures Ordered(PushFront(s, c.page), calls + [c]) && Ordered(Without(s, c.page), calls + [c])
  {
    var w := Without(s, c.page);
    WithoutIs(s, c.page);
    WithoutOrdered(s, c.page, calls);
    Untouched(w, calls, c);
    InFront(w, calls, c);
  }

  lemma InFront(w: seq<nat>, calls: seq<Call>, c: Call)
    requires Ordered(w, calls + [c]) && c.page !in w && !c.Missed?
    ensures Ordered([c.page] + w, calls + [c])
  {
    var more := calls + [c];
    assert more[..|calls|] == calls;
    forall j | 0 <= j < |w| ensures LastMove(more, c.page) > LastMove(more, w[j]) {
      assert w[j] in w;
      assert LastMove(more, w[j]) == LastMove(calls, w[j]);
    }
  }

  lemma PrefixOrdered(s: seq<nat>, t: seq<nat>, calls: seq<Call>)
    requires Ordered(s, calls) && t <= s
    ensures Ordered(t, calls)
  {
  }

  // ----- pruning takes ghosts off the old end -----------------------------------------------

  lemma {:induction false} PruneB1Prefix(a: ArcState)
    ensures PruneB1(a).b1 <= a.b1 && PruneB1(a).b2 == a.b2
    decreases |a.b1|
  {
    if |a.b1| > a.capacity { PruneB1Prefix(DropB1(a)); }
  }

  lemma {:induction false} PruneB2Prefix(a: ArcState)
    ensures PruneB2(a).b2 <= a.b2 && PruneB2(a).b1 == a.b1
    decreases |a.b2|
  {
    if |a.b2| > a.capacity { PruneB2Prefix(DropB2(a)); }
  }

  lemma {:induction false} PruneBothPrefix(a: ArcState)
    ensures PruneBoth(a).b1 <= a.b1 && PruneBoth(a).b2 <= a.b2
    decreases |a.b1| + |a.b2|
  {
    if |a.b1| + |a.b2| > a.capacity {
      if |a.b1| >= |a.b2| { PruneBothPrefix(DropB1(a)); } else { PruneBothPrefix(DropB2(a)); }
    }
  }

  lemma PruneOrdered(a: ArcState, calls: seq<Call>)
    requires Lists(a) && AllOrdered(a, calls)
    ensures AllOrdered(Prune(a), calls)
  {
    PruneB1Prefix(a);
    PruneB2Prefix(PruneB1(a));
    PruneBothPrefix(PruneB2(PruneB1(a)));
    PruneKeeps(a);
    PrefixOrdered(a.b1, Prune(a).b1, calls);
    PrefixOrdered(a.b2, Prune(a).b2, calls);
  }

  // ----- the steps --------------------------------------------------------------------------

  lemma HitOrdered(a: ArcState, calls: seq<Call>, p: nat, frame: nat)
    requires Lists(a) && AllOrdered(a, calls) && p in a.resident
    ensures AllOrdered(Access(a, p, frame), calls + [Hit(p, frame)])
  {
    assert Indexed(a, p);
    var c := Hit(p, frame);
    Moved(a.t1, calls, c);
    Moved(a.t2, calls, c);
    Untouched(a.b1, calls, c);
    Untouched(a.b2, calls, c);
    if a.locations[p] == T2 { Untouched(a.t1, calls, c); }
  }

  lemma MissOrdered(a: ArcState, calls: seq<Call>, p: nat)
    requires AllOrdered(a, calls)
    ensures AllOrdered(Miss(a, p), calls + [Missed(p)])
  {
    var c := Missed(p);
    Untouched(a.t1, calls, c);
    Untouched(a.t2, calls, c);
    Untouched(a.b1, calls, c);
    Untouched(a.b2, calls, c);
  }

  lemma AdmitOrdered(a: ArcState, calls: seq<Call>, p: nat, frame: nat)
    requires Lists(a) && AllOrdered(a, calls) && p !in a.resident
    ensures AllOrdered(Admit(a, p, frame), calls + [Loaded(p, frame)])
  {
    assert Indexed(a, p);
    var c := Loaded(p, frame);
    Moved(a.t1, calls, c);
    Moved(a.t2, calls, c);
    Moved(a.b1, calls, c);
    Moved(a.b2, calls, c);
    if p !in a.b1 { Untouched(a.b1, calls, c); }
    if p !in a.b2 { Untouched(a.b2, calls, c); }
    Untouched(a.t1, calls, c);
    Untouched(a.t2, calls, c);
  }

  lemma ForgetOrdered(a: ArcState, calls: seq<Call>, p: nat, frame: nat)
    requires Lists(a) && AllOrdered(a, calls) && p in a.resident
    ensures p in a.locations && AllOrdered(Forget(a, p), calls + [Evicted(p, frame)])
  {
    assert Indexed(a, p);
    var c := Evicted(p, frame);
    Moved(a.t1, calls, c);
    Moved(a.t2, calls, c);
    Moved(a.b1, calls, c);
    Moved(a.b2, calls, c);
    Untouched(a.b1, calls, c);
    Untouched(a.b2, calls, c);
    if p !in a.t1 { Untouched(a.t1, calls, c); }
    if p !in a.t2 { Untouched(a.t2, calls, c); }
  }

  // ----- whole histories --------------------------------------------------------------------

  /** After every legal history the invariant holds and all four lists are in order of recency. */
  lemma {:induction false} HistoryOrdered(calls: seq<Call>, capacity: nat)
    requires capacity > 0 && Legal(calls, capacity)
    ensures Inv(StateAfter(calls, capacity), capacity, ResidentAfter(calls))
    ensures AllOrdered(StateAfter(calls, capacity), calls)
    decreases |calls|
  {
    if calls == [] {
      ResetInv(capacity);
    } else {
      var n := |calls| - 1;
      HistoryOrdered(calls[..n], capacity);
      assert calls == calls[..n] + [calls[n]];
      StepOrdered(StateAfter(calls[..n], capacity), calls[..n], calls[n], capacity);
    }
  }

  lemma StepOrdered(a: ArcState, calls: seq<Call>, c: Call, capacity: nat)
    requires Legal(calls + [c], capacity) && a == StateAfter(calls, capacity)
    requires Inv(a, capacity, ResidentAfter(calls)) && AllOrdered(a, calls)
    ensures Inv(After(a, c), capacity, ResidentAfter(calls + [c])) && AllOrdered(After(a, c), calls + [c])
  {
    var resident := ResidentAfter(calls);
    assert (calls + [c])[..|calls|] == calls;
    match c
    case Hit(p, _) =>
      AccessKeeps(a, capacity, resident, p);
      HitOrdered(a, calls, p, resident[p]);
    case Missed(p) =>
      MissKeeps(a, capacity, resident, p);
      MissOrdered(a, calls, p);
    case Loaded(p, frame) =>
      LoadKeeps(a, capacity, resident, p, frame);
      AdmitLists(a, p, frame);
      AdmitOrdered(a, calls, p, frame);
      PruneOrdered(Admit(a, p, frame), calls + [c]);
    case Evicted(p, _) =>
      EvictKeeps(a, capacity, resident, p);
      ForgetLists(a, p);
      ForgetOrdered(a, calls, p, resident[p]);
      PruneOrdered(Forget(a, p), calls + [c]);
  }

  /** Some page of the list may be evicted. */
  ghost predicate Offers(pages: seq<nat>, resident: map<nat, nat>, frames: seq<FrameState>)
  {
    exists p :: p in pages && p in resident && Evictable(frames, resident[p])
  }

  /**
   The victim comes from T1 exactly if T1 offers one and either T1 is preferred or T2 offers none;
   it is, of the evictable pages on that list, the one whose last hit or load is longest ago.
   */
  lemma VictimOldest(calls: seq<Call>, capacity: nat, frames: seq<FrameState>)
    requires capacity > 0 && Legal(calls, capacity)
    requires Victim(StateAfter(calls, capacity), frames).Some?
    ensures var a := StateAfter(calls, capacity); var v := Victim(a, frames).value;
      if Offers(a.t1, a.resident, frames) && (PrefersT1(a) || !Offers(a.t2, a.resident, frames))
      then Oldest(a.t1, a.resident, frames, calls, v)
      else Oldest(a.t2, a.resident, frames, calls, v)
  {
    var a := StateAfter(calls, capacity);
    HistoryOrdered(calls, capacity);
    OfferedIsChosen(a.t1, a.resident, frames);
    OfferedIsChosen(a.t2, a.resident, frames);
    if ChooseFrom(a.t1, a.resident, frames).Some? { ChosenOldest(a.t1, a.resident, frames, calls); }
    if ChooseFrom(a.t2, a.resident, frames).Some? { ChosenOldest(a.t2, a.resident, frames, calls); }
  }

  lemma OfferedIsChosen(pages: seq<nat>, resident: map<nat, nat>, frames: seq<FrameState>)
    ensures ChooseFrom(pages, resident, frames).Some? <==> Offers(pages, resident, frames)
  {
    ChooseFromIs(pages, resident, frames);
  }

  ghost predicate Oldest(pages: seq<nat>, resident: map<nat, nat>, frames: seq<FrameState>, calls: seq<Call>, v: nat)
  {
    exists p :: p in pages && p in resident && resident[p] == v && Evictable(frames, v) &&
      forall q :: q in pages && q in resident && Evictable(frames, resident[q]) ==> LastMove(calls, p) <= LastMove(calls, q)
  }

  lemma ChosenOldest(pages: seq<nat>, resident: map<nat, nat>, frames: seq<FrameState>, calls: seq<Call>)
    requires Ordered(pages, calls) && ChooseFrom(pages, resident, frames).Some?
    ensures Oldest(pages, resident, frames, calls, ChooseFrom(pages, resident, frames).value)
  {
    ChooseFromIs(pages, resident, frames);
    var v := ChooseFrom(pages, resident, frames).value;
    var i :| && 0 <= i < |pages| && pages[i] in resident && v == resident[pages[i]] && Evictable(frames, v)
             && forall j :: i < j < |pages| ==> !(pages[j] in resident && Evictable(frames, resident[pages[j]]));
    var p := pages[i];
    assert p in pages;
    forall q | q in pages && q in resident && Evictable(frames, resident[q])
      ensures LastMove(calls, p) <= LastMove(calls, q)
    {
      var k :| 0 <= k < |pages| && pages[k] == q;
      assert k <= i;
    }
  }

  // ----- what the lists stand for -----------------------------------------------------------

  /** Pruning only forgets. */
  predicate Forgets(a: ArcState, b: ArcState)
  {
    forall p :: p in b.locations ==> p in a.locations && a.locations[p] == b.locations[p]
  }

  lemma {:induction false} PruneB1Forgets(a: ArcState)
    ensures Forgets(a, PruneB1(a))
    decreases |a.b1|
  {
    if |a.b1| > a.capacity { PruneB1Forgets(DropB1(a)); }
  }

  lemma {:induction false} PruneB2Forgets(a: ArcState)
    ensures Forgets(a, PruneB2(a))
    decreases |a.b2|
  {
    if |a.b2| > a.capacity { PruneB2Forgets(DropB2(a)); }
  }

  lemma {:induction false} PruneBothForgets(a: ArcState)
    ensures Forgets(a, PruneBoth(a))
    decreases |a.b1| + |a.b2|
  {
    if |a.b1| + |a.b2| > a.capacity {
      if |a.b1| >= |a.b2| { PruneBothForgets(DropB1(a)); } else { PruneBothForgets(DropB2(a)); }
    }
  }

  lemma PruneForgets(a: ArcState)
    ensures Forgets(a, Prune(a))
  {
    PruneB1Forgets(a);
    PruneB2Forgets(PruneB1(a));
    PruneBothForgets(PruneB2(PruneB1(a)));
  }

  /** After every legal history, each list holds the pages its name promises. */
  lemma {:induction false} HistoryExplains(calls: seq<Call>, capacity: nat, p: nat)
    requires capacity > 0 && Legal(calls, capacity)
    ensures Explains(StateAfter(calls, capacity), calls, capacity, p)
    decreases |calls|
  {
    if calls != [] {
      var n := |calls| - 1;
      var a := StateAfter(calls[..n], capacity);
      HistoryExplains(calls[..n], capacity, p);
      HistoryOrdered(calls[..n], capacity);
      assert Indexed(a, p) && Indexed(a, calls[n].page);
      if calls[n].Missed? || calls[n].page != p { StaysExplained(a, calls, capacity, p); } else { BecomesExplained(a, calls, capacity); }
    }
  }

  lemma StaysExplained(a: ArcState, calls: seq<Call>, capacity: nat, p: nat)
    requires calls != [] && a == StateAfter(calls[..|calls| - 1], capacity) && Explains(a, calls[..|calls| - 1], capacity, p)
    requires Lists(a) && Legal(calls, capacity) && ResidentAfter(calls[..|calls| - 1]) == a.resident
    requires calls[|calls| - 1].Missed? || calls[|calls| - 1].page != p
    ensures Explains(StateAfter(calls, capacity), calls, capacity, p)
  {
    var n := |calls| - 1;
    assert Indexed(a, calls[n].page);
    var t := LastMove(calls[..n], p);
    if t > 0 { assert calls[..n][..t - 1] == calls[..t - 1]; }
    match calls[n]
    case Loaded(q, frame) => PruneForgets(Admit(a, q, frame));
    case Evicted(q, _) => PruneForgets(Forget(a, q));
    case _ =>
  }

  lemma BecomesExplained(a: ArcState, calls: seq<Call>, capacity: nat)
    requires calls != [] && a == StateAfter(calls[..|calls| - 1], capacity) && !calls[|calls| - 1].Missed?
    requires Lists(a) && Legal(calls, capacity) && ResidentAfter(calls[..|calls| - 1]) == a.resident
    ensures Explains(StateAfter(calls, capacity), calls, capacity, calls[|calls| - 1].page)
  {
    var n := |calls| - 1;
    assert Indexed(a, calls[n].page);
    match calls[n]
    case Loaded(q, frame) => PruneForgets(Admit(a, q, frame));
    case Evicted(q, _) => PruneForgets(Forget(a, q));
    case _ =>
  }

  // ----- one step, page by page -------------------------------------------------------------

  function PlaceOf(a: ArcState, p: nat): Option<Location> { if p in a.locations then Some(a.locations[p]) else None }

  /** Where the call puts the page it is about, if nothing is pruned. */
  function MovedTo(before: Option<Location>, c: Call): Option<Location>
  {
    match c
    case Hit(_, _) => Some(T2)
    case Missed(_) => before
    case Loaded(_, _) => Some(if before.Some? then T2 else T1)
    case Evicted(_, _) => if before == Some(T1) then Some(B1) else if before == Some(T2) then Some(B2) else before
  }

  /** The call forgets this page: an eviction while the ghosts fill the capacity. */
  predicate Forgotten(a: ArcState, c: Call, q: nat)
  {
    && c.Evicted? && PlaceOf(a, c.page) in {Some(T1), Some(T2)}
    && |a.b1| + |a.b2| == a.capacity && q == PrunedGhost(a, c.page)
  }

  /** Every call moves exactly the page it is about, to exactly one place; an eviction may forget one ghost. */
  lemma StepPlaces(a: ArcState, calls: seq<Call>, c: Call, capacity: nat, q: nat)
    requires capacity > 0 && Legal(calls + [c], capacity) && a == StateAfter(calls, capacity)
    ensures PlaceOf(After(a, c), q) ==
      if Forgotten(a, c, q) then None else if q == c.page then MovedTo(PlaceOf(a, q), c) else PlaceOf(a, q)
  {
    assert (calls + [c])[..|calls|] == calls;
    HistoryOrdered(calls, capacity);
    assert Indexed(a, c.page);
    match c
    case Hit(p, _) =>
    case Missed(p) =>
    case Loaded(p, frame) => LoadLocations(a, capacity, p, frame);
    case Evicted(p, _) => EvictLocations(a, capacity, a.resident, p);
  }

  /** Loading prunes nothing: the ghosts were within the capacity, and it adds none. */
  lemma LoadLocations(a: ArcState, capacity: nat, p: nat, frame: nat)
    requires Inv(a, capacity, a.resident) && p !in a.resident
    ensures Load(a, p, frame) == Admit(a, p, frame)
    ensures Load(a, p, frame).locations == a.locations[p := if p in a.locations then T2 else T1]
  {
    assert Indexed(a, p);
    WithoutIs(a.b1, p);
    WithoutIs(a.b2, p);
    PruneOne(Admit(a, p, frame));
  }

  // ----- adaptation -------------------------------------------------------------------------

  /** How far a ghost hit moves the target: the whole number of times the hit list goes into the other, at least once. */
  predicate StepSize(d: nat, hit: nat, other: nat)
  {
    d >= 1 && (d == 1 || d * hit <= other) && (d + 1) * hit > other
  }

  lemma StepSizeUnique(d: nat, e: nat, hit: nat, other: nat)
    requires hit > 0 && StepSize(d, hit, other) && StepSize(e, hit, other)
    ensures d == e
  {
    if d < e { TimesOrdered(d + 1, e, hit); }
    if e < d { TimesOrdered(e + 1, d, hit); }
  }

  lemma QuotientIsStep(hit: nat, other: nat)
    requires hit > 0
    ensures StepSize(Max(1, other / hit), hit, other)
  {
    var q, r := other / hit, other % hit;
    assert other == q * hit + r && (q + 1) * hit == q * hit + hit;
    if q == 0 { assert other < hit && 2 * hit > other; }
  }

  /** The target moved up by the step, or to the capacity if that is nearer; down, or to 0. */
  ghost predicate Raised(a: ArcState, b: ArcState)
  {
    exists d: nat :: StepSize(d, |a.b1|, |a.b2|) && b.target == if a.target + d <= a.capacity then a.target + d else a.capacity
  }

  ghost predicate Lowered(a: ArcState, b: ArcState)
  {
    exists d: nat :: StepSize(d, |a.b2|, |a.b1|) && b.target == if d <= a.target then a.target - d else 0
  }

  /**
   A miss changes the target and the mark of a B2 hit only: a B1 ghost raises the target by the
   step, a B2 ghost lowers it by the step, and any other page leaves it.
   */
  lemma MissAdapts(a: ArcState, p: nat)
    requires Lists(a)
    ensures var b := Miss(a, p);
      && b.(target := a.target, pendingB2Hit := a.pendingB2Hit) == a
      && (b.pendingB2Hit <==> PlaceOf(a, p) == Some(B2))
      && (match PlaceOf(a, p) case Some(B1) => Raised(a, b) case Some(B2) => Lowered(a, b) case _ => b.target == a.target)
  {
    assert Indexed(a, p);
    if PlaceOf(a, p) == Some(B1) { QuotientIsStep(|a.b1|, |a.b2|); }
    if PlaceOf(a, p) == Some(B2) { QuotientIsStep(|a.b2|, |a.b1|); }
  }

  /** After every legal history: only misses of ghosts move the target, each by its step. */
  lemma HistoryAdapts(calls: seq<Call>, c: Call, capacity: nat)
    requires capacity > 0 && Legal(calls + [c], capacity)
    ensures var a, b := StateAfter(calls, capacity), StateAfter(calls + [c], capacity);
      if c.Missed? && PlaceOf(a, c.page) == Some(B1) then Raised(a, b)
      else if c.Missed? && PlaceOf(a, c.page) == Some(B2) then Lowered(a, b)
      else b.target == a.target
    ensures var a, b := StateAfter(calls, capacity), StateAfter(calls + [c], capacity);
      b.pendingB2Hit == if c.Missed? then PlaceOf(a, c.page) == Some(B2) else a.pendingB2Hit
  {
    var a := StateAfter(calls, capacity);
    assert (calls + [c])[..|calls|] == calls;
    HistoryOrdered(calls, capacity);
    assert Indexed(a, c.page);
    match c
    case Hit(p, _) =>
    case Missed(p) => MissAdapts(a, p);
    case Loaded(p, frame) => LoadLocations(a, capacity, p, frame);
    case Evicted(p, _) =>
      ForgetLists(a, p);
      PruneKeeps(Forget(a, p));
  }

  // ----- the published bound ----------------------------------------------------------------

  /** The published ARC keeps T1 and B1 together within the capacity. */
  predicate Within(a: ArcState) { |a.t1| + |a.b1| <= a.capacity }

  /** A page that is not remembered is loaded while T1 and B1 already fill the capacity. */
  predicate Overflows(a: ArcState, c: Call)
  {
    c.Loaded? && c.page !in a.locations && |a.t1| + |a.b1| == a.capacity
  }

  /** A call takes the lists out of the published bound exactly when it overflows. */
  lemma BoundStep(a: ArcState, calls: seq<Call>, c: Call, capacity: nat)
    requires capacity > 0 && Legal(calls + [c], capacity) && a == StateAfter(calls, capacity) && Within(a)
    ensures Within(After(a, c)) <==> !Overflows(a, c)
  {
    assert (calls + [c])[..|calls|] == calls;
    HistoryOrdered(calls, capacity);
    assert Indexed(a, c.page);
    match c
    case Hit(p, _) => WithoutIs(a.t1, p);
    case Missed(_) =>
    case Loaded(p, frame) =>
      WithoutIs(a.b1, p);
      WithoutIs(a.b2, p);
      PushFrontIs(a.t1, p);
      PruneOne(Admit(a, p, frame));
    case Evicted(p, _) =>
      WithoutIs(a.t1, p);
      PushFrontIs(a.b1, p);
      PushFrontIs(a.b2, p);
      PruneOne(Forget(a, p));
  }

  /** The bound holds after each of the calls. */
  predicate AlwaysWithin(calls: seq<Call>, capacity: nat)
  {
    Within(StateAfter(calls, capacity)) && (calls == [] || AlwaysWithin(calls[..|calls| - 1], capacity))
  }

  /** None of the calls overflows. */
  predicate NeverOverflows(calls: seq<Call>, capacity: nat)
  {
    calls == [] ||
    (var n := |calls| - 1; NeverOverflows(calls[..n], capacity) && !Overflows(StateAfter(calls[..n], capacity), calls[n]))
  }

  /** A legal history stays within the published bound exactly when it never overflows. */
  lemma {:induction false} PublishedBound(calls: seq<Call>, capacity: nat)
    requires capacity > 0 && Legal(calls, capacity)
    ensures AlwaysWithin(calls, capacity) <==> NeverOverflows(calls, capacity)
    decreases |calls|
  {
    if calls != [] {
      var n := |calls| - 1;
      PublishedBound(calls[..n], capacity);
      assert calls == calls[..n] + [calls[n]];
      if Within(StateAfter(calls[..n], capacity)) {
        BoundStep(StateAfter(calls[..n], capacity), calls[..n], calls[n], capacity);
      }
      if AlwaysWithin(calls[..n], capacity) { assert Within(StateAfter(calls[..n], capacity)); }
    }
  }

  // ----- histories that show it -------------------------------------------------------------

  const REPLACED: seq<Call> := [Loaded(1, 0), Missed(2), Evicted(1, 0), Loaded(2, 0)]
  const BROUGHT_BACK: seq<Call> := REPLACED + [Missed(1), Evicted(2, 0), Loaded(1, 0)]

  lemma Extend(calls: seq<Call>, c: Call, capacity: nat)
    ensures StateAfter(calls + [c], capacity) == After(StateAfter(calls, capacity), c)
    ensures ResidentAfter(calls + [c]) == ResidentNext(ResidentAfter(calls), c)
    ensures Legal(calls + [c], capacity) <==> Legal(calls, capacity) && LegalNext(ResidentAfter(calls), c, capacity)
  {
    assert (calls + [c])[..|calls|] == calls;
  }

  /** One page loaded and evicted again. */
  lemma AfterMissing(calls: seq<Call>)
    requires calls == [Loaded(1, 0), Missed(2)]
    ensures Legal(calls, 1) && ResidentAfter(calls) == map[1 := 0]
    ensures StateAfter(calls, 1) == ArcState(1, 0, false, [1], [], [], [], map[1 := T1], map[1 := 0])
  {
    var c0 := [Loaded(1, 0)];
    Extend([], Loaded(1, 0), 1);
    Extend(c0, Missed(2), 1);
    assert [] + [Loaded(1, 0)] == c0 && c0 + [Missed(2)] == calls;
    PruneOne(Admit(Reset(1), 1, 0));
  }

  lemma AfterEvicting(calls: seq<Call>)
    requires calls == [Loaded(1, 0), Missed(2), Evicted(1, 0)]
    ensures Legal(calls, 1) && ResidentAfter(calls) == map[]
    ensures StateAfter(calls, 1) == ArcState(1, 0, false, [], [], [1], [], map[1 := B1], map[])
  {
    var c1 := [Loaded(1, 0), Missed(2)];
    AfterMissing(c1);
    Extend(c1, Evicted(1, 0), 1);
    assert c1 + [Evicted(1, 0)] == calls;
    var s1 := StateAfter(c1, 1);
    assert Forget(s1, 1) == ArcState(1, 0, false, [], [], [1], [], map[1 := B1], map[]);
    PruneOne(Forget(s1, 1));
  }

  lemma AfterReplacing()
    ensures Legal(REPLACED, 1) && ResidentAfter(REPLACED) == map[2 := 0]
    ensures StateAfter(REPLACED, 1) == ArcState(1, 0, false, [2], [], [1], [], map[1 := B1, 2 := T1], map[2 := 0])
  {
    var c := [Loaded(1, 0), Missed(2), Evicted(1, 0)];
    AfterEvicting(c);
    Extend(c, Loaded(2, 0), 1);
    assert c + [Loaded(2, 0)] == REPLACED;
    PruneOne(Admit(StateAfter(c, 1), 2, 0));
  }

  /** With one frame, one replacement is enough to leave the published bound. */
  lemma ReplacementOverflows()
    ensures Legal(REPLACED, 1) && !AlwaysWithin(REPLACED, 1)
  {
    AfterReplacing();
  }

  lemma AfterSecondEviction(calls: seq<Call>)
    requires calls == REPLACED + [Missed(1), Evicted(2, 0)]
    ensures Legal(calls, 1) && ResidentAfter(calls) == map[]
    ensures StateAfter(calls, 1) == ArcState(1, 1, false, [], [], [2], [], map[2 := B1], map[])
  {
    AfterReplacing();
    var c := REPLACED + [Missed(1)];
    Extend(REPLACED, Missed(1), 1);
    Extend(c, Evicted(2, 0), 1);
    assert c + [Evicted(2, 0)] == calls;
    EvictsTwo(StateAfter(c, 1));
  }

  /** Bringing page 1 back evicts page 2, which prunes the ghost of page 1: it lands in T1, not T2. */
  lemma GhostLost()
    ensures Legal(BROUGHT_BACK, 1) && StateAfter(BROUGHT_BACK, 1).locations == map[1 := T1, 2 := B1]
  {
    var c := REPLACED + [Missed(1), Evicted(2, 0)];
    AfterSecondEviction(c);
    Extend(c, Loaded(1, 0), 1);
    assert c + [Loaded(1, 0)] == BROUGHT_BACK;
    PruneOne(Admit(StateAfter(c, 1), 1, 0));
  }

  lemma EvictsTwo(a: ArcState)
    requires a == ArcState(1, 1, false, [2], [], [1], [], map[1 := B1, 2 := T1], map[2 := 0])
    ensures Evict(a, 2) == ArcState(1, 1, false, [], [], [2], [], map[2 := B1], map[])
  {
    var b := Forget(a, 2);
    assert b.b1 == [2, 1] && b.b1[..1] == [2] && b.locations == map[1 := B1, 2 := B1] && b.resident == map[];
    PruneOne(b);
    assert b.locations - {1} == map[2 := B1];
  }
}
