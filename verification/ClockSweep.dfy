/** Second-chance replacement (src/storage/buffer/clock_sweep_policy.cpp). */
module ClockSweep {
  import opened Common
  import opened Eviction

  /** How many steps the hand at `hand` needs to reach frame `i` on a clock of `n` frames. */
  function Away(hand: nat, i: nat, n: nat): (d: nat)
    requires hand < n && i < n
    ensures d < n
  {
    if i >= hand then i - hand else i - hand + n
  }

  function Advance(hand: nat, n: nat): (h: nat)
    requires hand < n
    ensures h == (hand + 1) % n < n
    ensures h == if hand + 1 == n then 0 else hand + 1
  {
    (hand + 1) % n
  }

  /** The victim when some evictable frame has a clear bit: the first such in clock order. */
  ghost predicate FirstClear(bits: seq<bool>, hand: nat, frames: seq<FrameState>, v: nat)
    requires |bits| == |frames| && hand < |frames|
  {
    && Evictable(frames, v) && !bits[v]
    && forall i: nat :: Evictable(frames, i) && Away(hand, i, |frames|) < Away(hand, v, |frames|) ==> bits[i]
  }

  /** The victim when every evictable frame has its bit set: the first evictable in clock order. */
  ghost predicate FirstEvictable(bits: seq<bool>, hand: nat, frames: seq<FrameState>, v: nat)
    requires |bits| == |frames| && hand < |frames|
  {
    && Evictable(frames, v)
    && (forall i: nat :: Evictable(frames, i) ==> bits[i])
    && forall i: nat :: Evictable(frames, i) ==> Away(hand, v, |frames|) <= Away(hand, i, |frames|)
  }

  /** Exactly the evictable frames the hand passed over lose their bit. */
  ghost predicate SweptBits(bits: seq<bool>, hand: nat, frames: seq<FrameState>, v: nat, bits': seq<bool>)
    requires |bits| == |frames| && hand < |frames| && v < |frames|
  {
    && |bits'| == |bits|
    && (!bits[v] ==> forall i :: 0 <= i < |bits| ==>
          bits'[i] == (bits[i] && !(Evictable(frames, i) && Away(hand, i, |frames|) < Away(hand, v, |frames|))))
    && (bits[v] ==> forall i :: 0 <= i < |bits| ==> bits'[i] == (bits[i] && !Evictable(frames, i)))
  }

  /** The bits once the hand has gone round to `v`. */
  function Swept(bits: seq<bool>, hand: nat, frames: seq<FrameState>, v: nat): (r: seq<bool>)
    requires |bits| == |frames| && hand < |frames| && v < |frames|
    ensures SweptBits(bits, hand, frames, v, r)
  {
    seq(|bits|, i requires 0 <= i < |bits| =>
      bits[i] && !(Evictable(frames, i) && (bits[v] || Away(hand, i, |frames|) < Away(hand, v, |frames|))))
  }

  lemma SweptIs(bits: seq<bool>, hand: nat, frames: seq<FrameState>, v: nat, after: seq<bool>)
    requires |bits| == |frames| && hand < |frames| && v < |frames|
    ensures SweptBits(bits, hand, frames, v, after) <==> after == Swept(bits, hand, frames, v)
  {
    if SweptBits(bits, hand, frames, v, after) {
      var r := Swept(bits, hand, frames, v);
      assert forall i :: 0 <= i < |bits| ==> after[i] == r[i];
    }
  }

  /** The rule picks one frame: the policy is deterministic. */
  lemma VictimUnique(bits: seq<bool>, hand: nat, frames: seq<FrameState>, v: nat, w: nat)
    requires |bits| == |frames| && hand < |frames|
    requires FirstClear(bits, hand, frames, v) || FirstEvictable(bits, hand, frames, v)
    requires FirstClear(bits, hand, frames, w) || FirstEvictable(bits, hand, frames, w)
    ensures v == w
  {
    assert Evictable(frames, v) && Evictable(frames, w);
    assert Away(hand, v, |frames|) == Away(hand, w, |frames|) ==> v == w;
  }

  class ClockSweepPolicy {
    var referenced: seq<bool>
    var hand: nat

    ghost predicate Tracks(capacity: nat, resident: map<nat, nat>)
      reads this
    {
      |referenced| == capacity && hand < capacity && Placement(capacity, resident)
    }

    constructor (capacity: nat)
      requires capacity > 0
      ensures Tracks(capacity, map[])
      ensures referenced == seq(capacity, _ => false) && hand == 0
    {
      referenced, hand := seq(capacity, _ => false), 0;
    }

    method RecordAccess(page: nat, frame: nat) returns (r: Status)
      modifies this
      ensures hand == old(hand)
      ensures r == if frame < |old(referenced)| then Ok(()) else Err(InvalidArgument)
      ensures referenced == if r.Ok? then old(referenced)[frame := true] else old(referenced)
    {
      if frame >= |referenced| {
        return Err(InvalidArgument);
      }
      referenced := referenced[frame := true];
      r := Ok(());
    }

    method RecordEvict(page: nat, frame: nat) returns (r: Status)
      modifies this
      ensures hand == old(hand)
      ensures r == if frame < |old(referenced)| then Ok(()) else Err(InvalidArgument)
      ensures referenced == if r.Ok? then old(referenced)[frame := false] else old(referenced)
    {
      if frame >= |referenced| {
        return Err(InvalidArgument);
      }
      referenced := referenced[frame := false];
      r := Ok(());
    }

    /** Two laps of the clock always suffice; a failed sweep changes nothing. */
    method ChooseVictim(frames: seq<FrameState>) returns (r: Result<nat>)
      requires referenced == [] || hand < |referenced|
      modifies this
      ensures |frames| == 0 || |old(referenced)| != |frames| ==> r == Err(InvalidArgument)
      ensures |frames| > 0 && |old(referenced)| == |frames| ==>
        r.Ok? == SomeEvictable(frames) && (r.Err? ==> r.error == BufferPoolFull)
      ensures r.Err? ==> referenced == old(referenced) && hand == old(hand)
      ensures r.Ok? ==> |old(referenced)| == |frames| && r.value < |frames|
      ensures r.Ok? ==> (|| FirstClear(old(referenced), old(hand), frames, r.value)
                         || FirstEvictable(old(referenced), old(hand), frames, r.value))
      ensures r.Ok? ==> SweptBits(old(referenced), old(hand), frames, r.value, referenced)
      ensures r.Ok? ==> hand == Advance(r.value, |frames|)
    {
      if |frames| == 0 || |referenced| != |frames| {
        return Err(InvalidArgument);
      }
      var n := |frames|;
      ghost var bits, start := referenced, hand;
      var scans := 0;
      while scans < 2 * n
        invariant 0 <= scans <= 2 * n
        invariant |referenced| == n && hand < n
        invariant Away(start, hand, n) == if scans < n then scans else if scans < 2 * n then scans - n else 0
        invariant scans <= n ==> forall i: nat :: Evictable(frames, i) && Away(start, i, n) < scans ==> bits[i]
        invariant scans <= n ==> forall i :: 0 <= i < n ==>
          referenced[i] == (bits[i] && !(Evictable(frames, i) && Away(start, i, n) < scans))
        invariant scans > n ==> forall i: nat :: Evictable(frames, i) ==> bits[i] && scans - n <= Away(start, i, n)
        invariant scans > n ==> forall i :: 0 <= i < n ==> referenced[i] == (bits[i] && !Evictable(frames, i))
      {
        var frame := hand;
        assert forall i :: 0 <= i < n && Away(start, i, n) == Away(start, frame, n) ==> i == frame;
        if Evictable(frames, frame) {
          if referenced[frame] {
            referenced := referenced[frame := false];
          } else {
            hand := Advance(hand, n);
            return Ok(frame);
          }
        }
        hand := Advance(hand, n);
        scans := scans + 1;
      }
      assert referenced == bits;
      r := Err(BufferPoolFull);
    }
  }
}
