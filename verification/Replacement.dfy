/**
 What an eviction policy knows, as a value: which calls change it and how, which frame it picks
 for eviction, and what a fetch makes of it (src/storage/buffer/buffer_pool.cpp).
 */
module Replacement {
  import opened Common
  import opened Eviction
  import opened PoolModel
  import opened ClockSweep
  import opened LruK
  import Arc
  import ArcRecency

  /** The reference bits and the hand; all accesses so far; the four lists. */
  datatype PolicyState =
    | ClockState(bits: seq<bool>, hand: nat)
    | LruState(k: nat, log: seq<nat>)
    | ArcLists(lists: Arc.ArcState)

  /** A policy just reset. */
  ghost function Fresh(kind: PolicyKind, capacity: nat): PolicyState
  {
    match kind
    case ClockSweepKind => ClockState(seq(capacity, _ => false), 0)
    case LruKKind(history) => LruState(history, [])
    case ArcKind => ArcLists(Arc.Reset(capacity))
  }

  function Marked(bits: seq<bool>, i: nat, b: bool): seq<bool> { if i < |bits| then bits[i := b] else bits }

  /** What the policy knows once told of a call. */
  function Told(s: PolicyState, c: Call): PolicyState
  {
    match s
    case ClockState(bits, hand) =>
      if c.Missed? then s else ClockState(Marked(bits, c.frame, !c.Evicted?), hand)
    case LruState(k, log) => if c.Hit? || c.Loaded? then LruState(k, log + [c.page]) else s
    case ArcLists(a) => ArcLists(ArcRecency.After(a, c))
  }

  /** The frame the policy's state determines as the victim. */
  ghost predicate Chosen(s: PolicyState, frames: seq<FrameState>, v: nat)
  {
    match s
    case ClockState(bits, hand) =>
      && |bits| == |frames| && hand < |frames|
      && (FirstClear(bits, hand, frames, v) || FirstEvictable(bits, hand, frames, v))
    case LruState(k, log) => if k == 0 then LowestEvictable(frames, v) else BestVictim(log, k, frames, v)
    case ArcLists(a) => Arc.Victim(a, frames) == Some(v)
  }

  /** What choosing leaves: only the clock moves. */
  function Turned(s: PolicyState, frames: seq<FrameState>, v: nat): PolicyState
  {
    match s
    case ClockState(bits, hand) =>
      if |bits| == |frames| && hand < |frames| && v < |frames|
      then ClockState(Swept(bits, hand, frames, v), Advance(v, |frames|)) else s
    case _ => s
  }

  /** No two frames satisfy the rule: the state decides the victim. */
  lemma ChosenUnique(s: PolicyState, frames: seq<FrameState>, v: nat, w: nat)
    requires Chosen(s, frames, v) && Chosen(s, frames, w)
    requires forall i, j :: 0 <= i < j < |frames| && frames[i].valid && frames[j].valid ==> frames[i].pageId != frames[j].pageId
    ensures v == w
  {
    match s
    case ClockState(bits, hand) => VictimUnique(bits, hand, frames, v, w);
    case LruState(k, log) =>
      if k > 0 && v != w { BestVictimPages(log, k, frames, v, w); }
    case ArcLists(_) =>
  }

  // ----- fetching a page --------------------------------------------------------------------

  ghost predicate AllValid(frames: seq<Frame>) { forall i :: 0 <= i < |frames| ==> frames[i].valid }

  ghost predicate LowestEmpty(frames: seq<Frame>, i: nat)
  {
    i < |frames| && !frames[i].valid && forall j :: 0 <= j < i ==> frames[j].valid
  }

  /** The frame to reuse: the lowest empty one, else the policy's victim. */
  ghost predicate Picked(s: PolicyState, frames: seq<Frame>, i: nat)
  {
    if AllValid(frames) then Chosen(s, States(frames), i) else LowestEmpty(frames, i)
  }

  ghost function Picking(s: PolicyState, frames: seq<Frame>, i: nat): PolicyState
  {
    if AllValid(frames) then Turned(s, States(frames), i) else s
  }

  /** Frame `i` lets go of its page, if it has one, and takes page `p`. */
  function Swapped(s: PolicyState, f: Frame, i: nat, p: nat): PolicyState
  {
    Told(if f.valid then Told(s, Evicted(f.pageId, i)) else s, Loaded(p, i))
  }

  /** A fetch of `p` ends in frame `i`: where the page is, else where the policy, told of the miss, makes room. */
  ghost predicate Lands(s: PolicyState, frames: seq<Frame>, p: nat, i: nat)
  {
    match FrameOf(frames, p)
    case Some(j) => i == j
    case None => i < |frames| && Picked(Told(s, Missed(p)), frames, i)
  }

  ghost function Fetching(s: PolicyState, frames: seq<Frame>, p: nat, i: nat): PolicyState
    requires i < |frames|
  {
    if FrameOf(frames, p).Some? then Told(s, Hit(p, i))
    else Swapped(Picking(Told(s, Missed(p)), frames, i), frames[i], i, p)
  }

  /**
   The policy goes from `s` to `t` when page `p` is fetched: the fetch lands in a frame, or fails
   with the frame picked but not given away, or fails for want of a frame.
   */
  ghost predicate FetchTold(s: PolicyState, frames: seq<Frame>, p: nat, landed: Option<nat>, victim: Option<nat>, t: PolicyState)
  {
    match landed
    case Some(i) => i < |frames| && Lands(s, frames, p, i) && t == Fetching(s, frames, p, i)
    case None => FrameOf(frames, p).None? && MissTold(s, frames, p, victim, t)
  }

  ghost predicate MissTold(s: PolicyState, frames: seq<Frame>, p: nat, victim: Option<nat>, t: PolicyState)
  {
    match victim
    case Some(v) => Picked(Told(s, Missed(p)), frames, v) && t == Picking(Told(s, Missed(p)), frames, v)
    case None => t == Told(s, Missed(p))
  }

  lemma FoundTold(s: PolicyState, frames: seq<Frame>, p: nat, i: nat, victim: Option<nat>)
    requires FrameOf(frames, p) == Some(i)
    ensures FetchTold(s, frames, p, Some(i), victim, Told(s, Hit(p, i)))
  {
  }

  lemma LoadedTold(s: PolicyState, frames: seq<Frame>, p: nat, i: nat, picked: PolicyState)
    requires FrameOf(frames, p).None? && i < |frames| && MissTold(s, frames, p, Some(i), picked)
    ensures FetchTold(s, frames, p, Some(i), Some(i), Swapped(picked, frames[i], i, p))
  {
  }
}
