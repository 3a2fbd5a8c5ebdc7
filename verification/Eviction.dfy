/** What a pool shows its eviction policy (src/storage/buffer/eviction_policy.hpp). */
module Eviction {
  import opened Common

  datatype PolicyKind = ClockSweepKind | LruKKind(history: nat) | ArcKind

  datatype FrameState = FrameState(pageId: nat, valid: bool, pinned: bool)

  predicate Evictable(frames: seq<FrameState>, i: nat)
  {
    i < |frames| && frames[i].valid && !frames[i].pinned
  }

  ghost predicate SomeEvictable(frames: seq<FrameState>)
  {
    exists i: nat :: Evictable(frames, i)
  }

  /** `resident` maps each page held by a frame below `capacity` to that frame, one to one. */
  ghost predicate Placement(capacity: nat, resident: map<nat, nat>)
  {
    && (forall p :: p in resident ==> resident[p] < capacity)
    && (forall p, q :: p in resident && q in resident && p != q ==> resident[p] != resident[q])
  }

  /** The frame states hold exactly the pages of `resident`, where it says they are. */
  ghost predicate Shows(frames: seq<FrameState>, resident: map<nat, nat>)
  {
    && (forall i :: 0 <= i < |frames| && frames[i].valid ==>
          frames[i].pageId in resident && resident[frames[i].pageId] == i)
    && (forall p :: p in resident ==>
          resident[p] < |frames| && frames[resident[p]].valid && frames[resident[p]].pageId == p)
  }

  // ----- the calls a pool makes -------------------------------------------------------------

  /** record_access, record_miss, record_load and record_evict. */
  datatype Call =
    | Hit(page: nat, frame: nat)
    | Missed(page: nat)
    | Loaded(page: nat, frame: nat)
    | Evicted(page: nat, frame: nat)

  function ResidentNext(before: map<nat, nat>, c: Call): map<nat, nat>
  {
    match c
    case Loaded(p, frame) => before[p := frame]
    case Evicted(p, _) => before - {p}
    case _ => before
  }

  /** The pages in frames after the calls. */
  function ResidentAfter(calls: seq<Call>): map<nat, nat>
  {
    if calls == [] then map[] else ResidentNext(ResidentAfter(calls[..|calls| - 1]), calls[|calls| - 1])
  }

  /** A hit or eviction of a resident page, a miss of an absent one, or a load of an absent one into a free frame. */
  ghost predicate LegalNext(before: map<nat, nat>, c: Call, capacity: nat)
  {
    match c
    case Hit(p, frame) => p in before && before[p] == frame
    case Missed(p) => p !in before
    case Evicted(p, frame) => p in before && before[p] == frame
    case Loaded(p, frame) => p !in before && frame < capacity && forall q :: q in before ==> before[q] != frame
  }

  /** The order in which the pool calls its policy. */
  ghost predicate Legal(calls: seq<Call>, capacity: nat)
  {
    calls == [] ||
    (Legal(calls[..|calls| - 1], capacity) && LegalNext(ResidentAfter(calls[..|calls| - 1]), calls[|calls| - 1], capacity))
  }
}
