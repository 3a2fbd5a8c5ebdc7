/**
 Adaptive Replacement Cache (src/storage/buffer/arc_policy.cpp): two lists of resident pages,
 T1 (seen once recently) and T2 (seen again), two lists of remembered evictions, B1 and B2,
 and a target size for T1 that ghost hits move. Lists run from most to least recent.
 */
module Arc {
  import opened Common
  import opened Eviction

  datatype Location = T1 | T2 | B1 | B2

  datatype ArcState = ArcState(
    capacity: nat,
    target: nat,
    pendingB2Hit: bool,
    t1: seq<nat>,
    t2: seq<nat>,
    b1: seq<nat>,
    b2: seq<nat>,
    locations: map<nat, Location>,
    resident: map<nat, nat>)

  // ----- lists of pages ---------------------------------------------------------------------

  ghost predicate NoDup(s: seq<nat>) { forall i, j :: 0 <= i < j < |s| ==> s[i] != s[j] }

  /** erase_page: drop the first occurrence, if any. */
  function Without(s: seq<nat>, p: nat): seq<nat>
  {
    if s == [] then []
    else if s[0] == p then s[1..]
    else [s[0]] + Without(s[1..], p)
  }

  function PushFront(s: seq<nat>, p: nat): seq<nat> { [p] + Without(s, p) }

  lemma {:induction false} WithoutIs(s: seq<nat>, p: nat)
    requires NoDup(s)
    ensures NoDup(Without(s, p))
    ensures forall q :: q in Without(s, p) <==> q in s && q != p
    ensures |Without(s, p)| == if p in s then |s| - 1 else |s|
  {
    if s != [] {
      assert forall q :: q in s <==> q == s[0] || q in s[1..];
      if s[0] != p {
        WithoutIs(s[1..], p);
        assert s[0] !in s[1..];
      }
    }
  }

  lemma PushFrontIs(s: seq<nat>, p: nat)
    requires NoDup(s)
    ensures NoDup(PushFront(s, p))
    ensures forall q :: q in PushFront(s, p) <==> q == p || q in s
    ensures |PushFront(s, p)| == if p in s then |s| else |s| + 1
  {
    WithoutIs(s, p);
  }

  lemma DropLastIs(s: seq<nat>)
    requires NoDup(s) && s != []
    ensures NoDup(s[..|s| - 1])
    ensures forall q :: q in s[..|s| - 1] <==> q in s && q != s[|s| - 1]
  {
    assert s == s[..|s| - 1] + [s[|s| - 1]];
  }

  // ----- the invariant ----------------------------------------------------------------------

  predicate Listed(a: ArcState, l: Location, p: nat)
  {
    match l
    case T1 => p in a.t1
    case T2 => p in a.t2
    case B1 => p in a.b1
    case B2 => p in a.b2
  }

  /** `p` is on exactly the list `locations` names, and resident exactly on T1 or T2. */
  predicate Indexed(a: ArcState, p: nat)
  {
    && (p in a.t1 <==> p in a.locations && a.locations[p] == T1)
    && (p in a.t2 <==> p in a.locations && a.locations[p] == T2)
    && (p in a.b1 <==> p in a.locations && a.locations[p] == B1)
    && (p in a.b2 <==> p in a.locations && a.locations[p] == B2)
    && (p in a.resident <==> p in a.locations && a.locations[p] in {T1, T2})
  }

  ghost predicate Lists(a: ArcState)
  {
    && NoDup(a.t1) && NoDup(a.t2) && NoDup(a.b1) && NoDup(a.b2)
    && forall p :: Indexed(a, p)
  }

  ghost predicate Inv(a: ArcState, capacity: nat, resident: map<nat, nat>)
  {
    && a.capacity == capacity > 0
    && a.target <= capacity
    && a.resident == resident
    && Placement(capacity, resident)
    && Lists(a)
    && |a.b1| + |a.b2| <= capacity
  }

  /** The four lists share no page. */
  lemma ListsDisjoint(a: ArcState, p: nat, l: Location, m: Location)
    requires Lists(a) && Listed(a, l, p) && Listed(a, m, p)
    ensures l == m
  {
    assert Indexed(a, p);
  }

  /** As many pages are resident as there are frames, at most. */
  lemma ResidentBound(a: ArcState, capacity: nat, resident: map<nat, nat>)
    requires Inv(a, capacity, resident)
    ensures |a.t1| + |a.t2| == |resident| <= capacity
  {
    var s := a.t1 + a.t2;
    assert NoDup(s) by {
      forall i, j | 0 <= i < j < |s| ensures s[i] != s[j] {
        assert Indexed(a, s[i]);
        if i < |a.t1| <= j { assert s[i] in a.t1 && s[j] in a.t2; }
      }
    }
    forall p ensures p in s <==> p in resident.Keys {
      assert Indexed(a, p);
    }
    DistinctCount(s, resident.Keys);
    PlacementBound(capacity, resident);
  }

  lemma {:induction false} DistinctCount(s: seq<nat>, keys: set<nat>)
    requires NoDup(s) && forall p :: p in s <==> p in keys
    ensures |s| == |keys|
  {
    if s == [] {
      assert keys == {};
    } else {
      DropLastIs(s);
      DistinctCount(s[..|s| - 1], keys - {s[|s| - 1]});
    }
  }

  lemma {:induction false} PlacementBound(capacity: nat, resident: map<nat, nat>)
    requires Placement(capacity, resident)
    ensures |resident| <= capacity
    decreases capacity
  {
    if capacity > 0 {
      if p :| p in resident && resident[p] == capacity - 1 {
        var rest := resident - {p};
        assert resident.Keys == rest.Keys + {p};
        PlacementBound(capacity - 1, rest);
      } else {
        PlacementBound(capacity - 1, resident);
      }
    } else {
      assert resident.Keys == {};
    }
  }

  // ----- the operations ---------------------------------------------------------------------

  function Reset(capacity: nat): ArcState
  {
    ArcState(capacity, 0, false, [], [], [], [], map[], map[])
  }

  function Access(a: ArcState, p: nat, frame: nat): ArcState
  {
    var b := a.(resident := a.resident[p := frame]);
    if p !in a.locations then b.(locations := a.locations[p := T1], t1 := PushFront(a.t1, p))
    else match a.locations[p]
      case T1 => b.(t1 := Without(a.t1, p), t2 := PushFront(a.t2, p), locations := a.locations[p := T2])
      case T2 => b.(t2 := PushFront(a.t2, p))
      case _ => b
  }

  function Miss(a: ArcState, p: nat): ArcState
  {
    if p in a.locations && a.locations[p] == B1 then
      var delta := Max(1, |a.b2| / Max(1, |a.b1|));
      a.(pendingB2Hit := false, target := Min(a.capacity, a.target + delta))
    else if p in a.locations && a.locations[p] == B2 then
      var delta := Max(1, |a.b1| / Max(1, |a.b2|));
      a.(pendingB2Hit := true, target := if a.target > delta then a.target - delta else 0)
    else a.(pendingB2Hit := false)
  }

  /** The list moves of record_load: a remembered page goes to T2, a new one to T1. */
  function Admit(a: ArcState, p: nat, frame: nat): ArcState
  {
    var b := a.(resident := a.resident[p := frame]);
    if p in a.locations && a.locations[p] == B1 then
      b.(b1 := Without(a.b1, p), t2 := PushFront(a.t2, p), locations := a.locations[p := T2])
    else if p in a.locations && a.locations[p] == B2 then
      b.(b2 := Without(a.b2, p), t2 := PushFront(a.t2, p), locations := a.locations[p := T2])
    else
      b.(t1 := PushFront(a.t1, p), locations := a.locations[p := T1])
  }

  function Load(a: ArcState, p: nat, frame: nat): ArcState { Prune(Admit(a, p, frame)) }

  function Forget(a: ArcState, p: nat): ArcState
    requires p in a.locations
  {
    var b := a.(resident := a.resident - {p});
    match a.locations[p]
    case T1 => b.(t1 := Without(a.t1, p), b1 := PushFront(a.b1, p), locations := a.locations[p := B1])
    case T2 => b.(t2 := Without(a.t2, p), b2 := PushFront(a.b2, p), locations := a.locations[p := B2])
    case _ => b
  }

  function Evict(a: ArcState, p: nat): ArcState
  {
    if p !in a.locations then a.(resident := a.resident - {p}) else Prune(Forget(a, p))
  }

  function DropB1(a: ArcState): ArcState
    requires a.b1 != []
  {
    a.(b1 := a.b1[..|a.b1| - 1], locations := a.locations - {a.b1[|a.b1| - 1]})
  }

  function DropB2(a: ArcState): ArcState
    requires a.b2 != []
  {
    a.(b2 := a.b2[..|a.b2| - 1], locations := a.locations - {a.b2[|a.b2| - 1]})
  }

  function PruneB1(a: ArcState): ArcState
    decreases |a.b1|
  {
    if |a.b1| > a.capacity then PruneB1(DropB1(a)) else a
  }

  function PruneB2(a: ArcState): ArcState
    decreases |a.b2|
  {
    if |a.b2| > a.capacity then PruneB2(DropB2(a)) else a
  }

  function PruneBoth(a: ArcState): ArcState
    decreases |a.b1| + |a.b2|
  {
    if |a.b1| + |a.b2| <= a.capacity then a
    else if |a.b1| >= |a.b2| then PruneBoth(DropB1(a))
    else PruneBoth(DropB2(a))
  }

  function Prune(a: ArcState): ArcState { PruneBoth(PruneB2(PruneB1(a))) }

  // ----- preservation -----------------------------------------------------------------------

  /** Everything but the ghosts is the same. */
  predicate SameResidents(a: ArcState, b: ArcState)
  {
    a.capacity == b.capacity && a.target == b.target && a.t1 == b.t1 && a.t2 == b.t2
    && a.resident == b.resident && a.pendingB2Hit == b.pendingB2Hit
  }

  lemma DropB1Keeps(a: ArcState)
    requires Lists(a) && a.b1 != []
    ensures Lists(DropB1(a))
  {
    DropLastIs(a.b1);
    var b := DropB1(a);
    forall p ensures Indexed(b, p) { assert Indexed(a, p); }
  }

  lemma DropB2Keeps(a: ArcState)
    requires Lists(a) && a.b2 != []
    ensures Lists(DropB2(a))
  {
    DropLastIs(a.b2);
    var b := DropB2(a);
    forall p ensures Indexed(b, p) { assert Indexed(a, p); }
  }

  lemma {:induction false} PruneB1Keeps(a: ArcState)
    requires Lists(a)
    ensures Lists(PruneB1(a)) && SameResidents(a, PruneB1(a))
    decreases |a.b1|
  {
    if |a.b1| > a.capacity { DropB1Keeps(a); PruneB1Keeps(DropB1(a)); }
  }

  lemma {:induction false} PruneB2Keeps(a: ArcState)
    requires Lists(a)
    ensures Lists(PruneB2(a)) && SameResidents(a, PruneB2(a))
    decreases |a.b2|
  {
    if |a.b2| > a.capacity { DropB2Keeps(a); PruneB2Keeps(DropB2(a)); }
  }

  lemma {:induction false} PruneBothKeeps(a: ArcState)
    requires Lists(a)
    ensures Lists(PruneBoth(a)) && SameResidents(a, PruneBoth(a))
    ensures |PruneBoth(a).b1| + |PruneBoth(a).b2| <= a.capacity
    decreases |a.b1| + |a.b2|
  {
    if |a.b1| + |a.b2| > a.capacity {
      if |a.b1| >= |a.b2| {
        DropB1Keeps(a);
        PruneBothKeeps(DropB1(a));
      } else {
        DropB2Keeps(a);
        PruneBothKeeps(DropB2(a));
      }
    }
  }

  lemma PruneKeeps(a: ArcState)
    requires Lists(a)
    ensures Lists(Prune(a)) && SameResidents(a, Prune(a))
    ensures |Prune(a).b1| + |Prune(a).b2| <= a.capacity
  {
    PruneB1Keeps(a);
    PruneB2Keeps(PruneB1(a));
    PruneBothKeeps(PruneB2(PruneB1(a)));
  }

  lemma ResetInv(capacity: nat)
    requires capacity > 0
    ensures Inv(Reset(capacity), capacity, map[])
  {
    var a := Reset(capacity);
    forall p ensures Indexed(a, p) { }
  }

  lemma AccessKeeps(a: ArcState, capacity: nat, resident: map<nat, nat>, p: nat)
    requires Inv(a, capacity, resident) && p in resident
    ensures Inv(Access(a, p, resident[p]), capacity, resident)
  {
    var b := Access(a, p, resident[p]);
    assert Indexed(a, p);
    WithoutIs(a.t1, p);
    PushFrontIs(a.t2, p);
    assert resident[p := resident[p]] == resident;
    forall q ensures Indexed(b, q) { assert Indexed(a, q); }
  }

  lemma MissKeeps(a: ArcState, capacity: nat, resident: map<nat, nat>, p: nat)
    requires Inv(a, capacity, resident)
    ensures Inv(Miss(a, p), capacity, resident)
  {
    var b := Miss(a, p);
    forall q ensures Indexed(b, q) { assert Indexed(a, q); }
  }

  lemma EvictKeeps(a: ArcState, capacity: nat, resident: map<nat, nat>, p: nat)
    requires Inv(a, capacity, resident) && p in resident
    ensures Inv(Evict(a, p), capacity, resident - {p})
  {
    ForgetLists(a, p);
    PruneKeeps(Forget(a, p));
  }

  lemma ForgetLists(a: ArcState, p: nat)
    requires Lists(a) && p in a.resident
    ensures p in a.locations && Lists(Forget(a, p))
  {
    assert Indexed(a, p);
    WithoutIs(a.t1, p);
    WithoutIs(a.t2, p);
    PushFrontIs(a.b1, p);
    PushFrontIs(a.b2, p);
    var b := Forget(a, p);
    forall q ensures Indexed(b, q) { assert Indexed(a, q); }
  }

  lemma AdmitLists(a: ArcState, p: nat, frame: nat)
    requires Lists(a) && p !in a.resident
    ensures Lists(Admit(a, p, frame))
    ensures if p in a.locations then p in Admit(a, p, frame).t2 else p in Admit(a, p, frame).t1
  {
    assert Indexed(a, p);
    WithoutIs(a.b1, p);
    WithoutIs(a.b2, p);
    PushFrontIs(a.t1, p);
    PushFrontIs(a.t2, p);
    var c := Admit(a, p, frame);
    forall q ensures Indexed(c, q) { assert Indexed(a, q); }
  }

  /** Loading a page that is not resident into a frame that holds none. */
  lemma LoadKeeps(a: ArcState, capacity: nat, resident: map<nat, nat>, p: nat, frame: nat)
    requires Inv(a, capacity, resident) && p !in resident && frame < capacity
    requires forall q :: q in resident ==> resident[q] != frame
    ensures Inv(Load(a, p, frame), capacity, resident[p := frame])
  {
    AdmitLists(a, p, frame);
    PruneKeeps(Admit(a, p, frame));
  }

  // ----- choosing a victim ------------------------------------------------------------------

  /** choose_from_lru: the least recent page of the list whose frame may be evicted. */
  function ChooseFrom(pages: seq<nat>, resident: map<nat, nat>, frames: seq<FrameState>): Option<nat>
    decreases |pages|
  {
    if pages == [] then None
    else
      var p := pages[|pages| - 1];
      if p in resident && Evictable(frames, resident[p]) then Some(resident[p])
      else ChooseFrom(pages[..|pages| - 1], resident, frames)
  }

  /** T1 is over its target, or exactly on it while a B2 ghost is being brought back. */
  predicate PrefersT1(a: ArcState)
  {
    |a.t1| > a.target || (a.pendingB2Hit && |a.t1| == a.target)
  }

  function Victim(a: ArcState, frames: seq<FrameState>): Option<nat>
  {
    var recent := ChooseFrom(a.t1, a.resident, frames);
    var frequent := ChooseFrom(a.t2, a.resident, frames);
    if PrefersT1(a) && recent.Some? then recent
    else if frequent.Some? then frequent
    else recent
  }

  /** The chosen frame holds a page of the list that may be evicted, and every older page may not. */
  lemma {:induction false} ChooseFromIs(pages: seq<nat>, resident: map<nat, nat>, frames: seq<FrameState>)
    ensures match ChooseFrom(pages, resident, frames)
      case Some(v) => exists i ::
        && 0 <= i < |pages| && pages[i] in resident && v == resident[pages[i]] && Evictable(frames, v)
        && forall j :: i < j < |pages| ==> !(pages[j] in resident && Evictable(frames, resident[pages[j]]))
      case None => forall j :: 0 <= j < |pages| ==> !(pages[j] in resident && Evictable(frames, resident[pages[j]]))
    decreases |pages|
  {
    if pages != [] {
      var n := |pages| - 1;
      ChooseFromIs(pages[..n], resident, frames);
    }
  }

  /** A victim is found exactly when some frame is valid and unpinned, and it is such a frame. */
  lemma VictimExact(a: ArcState, capacity: nat, frames: seq<FrameState>, resident: map<nat, nat>)
    requires Inv(a, capacity, resident) && Shows(frames, resident)
    ensures Victim(a, frames).Some? <==> SomeEvictable(frames)
    ensures Victim(a, frames).Some? ==> Evictable(frames, Victim(a, frames).value)
  {
    ChooseFromIs(a.t1, resident, frames);
    ChooseFromIs(a.t2, resident, frames);
    forall i: nat | Evictable(frames, i) ensures Victim(a, frames).Some? {
      assert Indexed(a, frames[i].pageId);
    }
  }

  // ----- where this ARC departs from the published one --------------------------------------

  /** The page that goes when `q`, evicted, makes the ghosts one too many: the oldest ghost of the longer list, or of B1. */
  function PrunedGhost(a: ArcState, q: nat): nat
    requires q in a.locations && a.locations[q] in {T1, T2}
  {
    var recent := |a.b1| + if a.locations[q] == T1 then 1 else 0;
    var frequent := |a.b2| + if a.locations[q] == T2 then 1 else 0;
    var longer := if recent >= frequent then a.b1 else a.b2;
    if longer == [] then q else longer[|longer| - 1]
  }

  lemma {:induction false} WithoutAbsent(s: seq<nat>, p: nat)
    requires p !in s
    ensures Without(s, p) == s
  {
    if s != [] { WithoutAbsent(s[1..], p); }
  }

  /** One ghost too many: pruning drops the last page of the longer ghost list, nothing else. */
  lemma PruneOne(a: ArcState)
    requires |a.b1| + |a.b2| <= a.capacity + 1
    ensures Prune(a) ==
      if |a.b1| + |a.b2| <= a.capacity then a else if |a.b1| >= |a.b2| then DropB1(a) else DropB2(a)
  {
    if |a.b1| > a.capacity {
      assert PruneB1(a) == DropB1(a);
      assert PruneB2(DropB1(a)) == DropB1(a) == PruneBoth(DropB1(a));
    } else {
      assert PruneB1(a) == a;
      if |a.b2| > a.capacity {
        assert PruneB2(a) == DropB2(a) == PruneBoth(DropB2(a));
      } else {
        assert PruneB2(a) == a;
        if |a.b1| + |a.b2| > a.capacity {
          assert |a.b1| >= |a.b2| ==> PruneBoth(DropB1(a)) == DropB1(a);
          assert |a.b1| < |a.b2| ==> PruneBoth(DropB2(a)) == DropB2(a);
        }
      }
    }
  }

  /**
   A ghost hit is meant to bring the page back into T2. Here the victim is recorded before
   the page is loaded, so the hit ghost can be pruned by its own eviction and come back as a
   stranger. That happens exactly when the ghost lists are full and it is the page pruned.
   */
  lemma GhostHit(a: ArcState, capacity: nat, resident: map<nat, nat>, p: nat, q: nat)
    requires Inv(a, capacity, resident) && q in resident
    requires p in a.locations && a.locations[p] in {B1, B2}
    ensures q in a.locations && a.locations[q] in {T1, T2}
    ensures var b := Load(Evict(a, q), p, resident[q]);
      && p in b.locations
      && b.locations[p] == if |a.b1| + |a.b2| == capacity && PrunedGhost(a, q) == p then T1 else T2
  {
    assert Indexed(a, p);
    EvictKeeps(a, capacity, resident, q);
    EvictedGhosts(a, capacity, resident, p, q);
    LoadPlaces(Evict(a, q), capacity, resident - {q}, p, resident[q]);
  }

  /** After evicting `q`, the ghost `p` is still remembered unless it is the pruned one. */
  lemma EvictedGhosts(a: ArcState, capacity: nat, resident: map<nat, nat>, p: nat, q: nat)
    requires Inv(a, capacity, resident) && q in resident
    requires p in a.locations && a.locations[p] in {B1, B2}
    ensures q in a.locations && a.locations[q] in {T1, T2}
    ensures var e := Evict(a, q);
      && (p in e.locations <==> !(|a.b1| + |a.b2| == capacity && PrunedGhost(a, q) == p))
      && (p in e.locations ==> e.locations[p] == a.locations[p])
  {
    assert Indexed(a, q) && Indexed(a, p);
    EvictLocations(a, capacity, resident, q);
  }

  lemma EvictLocations(a: ArcState, capacity: nat, resident: map<nat, nat>, q: nat)
    requires Inv(a, capacity, resident) && q in resident
    ensures q in a.locations && a.locations[q] in {T1, T2}
    ensures Evict(a, q).locations ==
      if |a.b1| + |a.b2| == capacity then Forget(a, q).locations - {PrunedGhost(a, q)} else Forget(a, q).locations
  {
    assert Indexed(a, q);
    ForgottenLast(a, q);
    PruneOne(Forget(a, q));
  }

  lemma ForgottenLast(a: ArcState, q: nat)
    requires Indexed(a, q) && q in a.resident
    ensures q in a.locations && a.locations[q] in {T1, T2}
    ensures var b := Forget(a, q);
      && b.capacity == a.capacity && |b.b1| + |b.b2| == |a.b1| + |a.b2| + 1
      && (|b.b1| >= |b.b2| ==> PrunedGhost(a, q) == b.b1[|b.b1| - 1])
      && (|b.b1| < |b.b2| ==> PrunedGhost(a, q) == b.b2[|b.b2| - 1])
  {
    var b := Forget(a, q);
    if a.locations[q] == T1 {
      InFrontOf(a.b1, q);
      assert b.b1 == PushFront(a.b1, q) && b.b2 == a.b2;
    } else {
      InFrontOf(a.b2, q);
      assert b.b1 == a.b1 && b.b2 == PushFront(a.b2, q);
    }
  }

  lemma InFrontOf(s: seq<nat>, q: nat)
    requires q !in s
    ensures PushFront(s, q) == [q] + s && |PushFront(s, q)| == |s| + 1
    ensures PushFront(s, q)[|s|] == if s == [] then q else s[|s| - 1]
  {
    WithoutAbsent(s, q);
  }

  lemma LoadPlaces(a: ArcState, capacity: nat, resident: map<nat, nat>, p: nat, frame: nat)
    requires Inv(a, capacity, resident) && p !in resident && frame < capacity
    requires forall q :: q in resident ==> resident[q] != frame
    ensures p in Load(a, p, frame).locations
    ensures Load(a, p, frame).locations[p] == if p in a.locations then T2 else T1
  {
    assert Indexed(a, p);
    LoadKeeps(a, capacity, resident, p, frame);
    AdmitLists(a, p, frame);
    PruneKeeps(Admit(a, p, frame));
    assert Indexed(Load(a, p, frame), p);
  }
}
