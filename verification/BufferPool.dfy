/**
 The buffer pool (src/storage/buffer/buffer_pool.cpp): a fixed set of page-sized buffers over
 a page store, with pin counts, dirty flags and a pluggable eviction policy.
 */
module Buffering {
  import opened Common
  import opened Eviction
  import opened PoolModel
  import opened Policies
  import opened Replacement
  import opened Storage
  import opened HeapPage

  /** A pinned frame as the client sees it; `bytes` is the frame's own buffer. A released handle has no owner. */
  datatype FrameHandle = FrameHandle(owner: BufferPool?, index: nat, pageId: nat, bytes: array<byte>)

  /** A frame that has a pin to give back. */
  predicate Returnable(frames: seq<Frame>, i: nat) { i < |frames| && frames[i].valid && frames[i].pins > 0 }

  /** A frame the pool may reuse: empty, or holding an unpinned page. */
  predicate Reusable(frames: seq<Frame>, i: nat)
  {
    i < |frames| && (!frames[i].valid || frames[i].pins == 0)
  }

  ghost predicate SomeReusable(frames: seq<Frame>) { exists i: nat :: Reusable(frames, i) }

  /** The same pages in the same frames, with the same pin counts. */
  ghost predicate SamePins(a: seq<Frame>, b: seq<Frame>)
  {
    |a| == |b| && forall i :: 0 <= i < |a| ==> a[i].pins == b[i].pins && a[i].valid == b[i].valid && a[i].pageId == b[i].pageId
  }

  /** Frame `i` now holds page `p` with one pin more than before; every other frame as it was. */
  ghost predicate PinnedOne(before: seq<Frame>, after: seq<Frame>, i: nat, p: nat)
  {
    && |after| == |before| && Holds(after, i, p)
    && after[i].pins == (if Holds(before, i, p) then before[i].pins else 0) + 1
    && forall j :: 0 <= j < |after| && j != i ==> after[j] == before[j]
  }

  /** The frame a fetch ended in. */
  ghost function LandedIn(r: Result<FrameHandle>): Option<nat> { if r.Ok? then Some(r.value.index) else None }

  /** The frame a failed fetch had picked, if there was one to pick. */
  ghost function LeftAt(r: Result<FrameHandle>, victim: nat): Option<nat>
  {
    if r.Err? && r.error == BufferPoolFull then None else Some(victim)
  }

  class BufferPool {
    const store: PageStore
    const policy: Policy
    const buffers: seq<array<byte>>
    var frames: seq<Frame>
    var isOpen: bool

    ghost function Contents(): (c: seq<seq<byte>>)
      reads buffers
      ensures |c| == |buffers|
      ensures forall i :: 0 <= i < |c| ==> c[i] == buffers[i][..]
    {
      seq(|buffers|, i requires 0 <= i < |buffers| reads buffers => buffers[i][..])
    }

    ghost function Img(): Image
      requires store.pageSize > 0
      reads this, store.io, buffers
    {
      Image(frames, Contents(), store.Pages())
    }

    /** The pool's parts are different objects. */
    ghost predicate Apart()
    {
      && policy.Self() != this && policy.Self() != store && policy.Self() != store.io
      && (forall i :: 0 <= i < |buffers| ==> buffers[i] != policy.Self())
      && (forall i, j :: 0 <= i < j < |buffers| ==> buffers[i] != buffers[j])
    }

    ghost predicate Shaped()
      reads this
    {
      && store.pageSize > 0
      && |frames| == |buffers| > 0
      && (forall i :: 0 <= i < |buffers| ==> buffers[i].Length == store.pageSize)
      && Apart()
    }

    ghost predicate Valid()
      reads this, store, store.io, policy.Self(), buffers
    {
      && isOpen && Shaped() && store.Ready()
      && Coherent(Img())
      && policy.Tracks(|frames|, Resident(frames))
    }

    /** Frame `i` is marked dirty or still equals its stored page. */
    ghost predicate Accounted(i: nat)
      requires store.pageSize > 0
      reads this, store.io, buffers
    {
      && i < |frames| && i < |buffers| && frames[i].pageId < |store.Pages()|
      && (frames[i].dirty || buffers[i][..] == store.Pages()[frames[i].pageId])
    }

    /** What a client sees of every page of the file. */
    ghost function View(): (v: seq<seq<byte>>)
      requires Shaped()
      reads this, store.io, buffers
    {
      PoolModel.View(Img())
    }

    /** BufferPool::open on an aligned file; every frame starts empty. */
    constructor (s: PageStore, capacity: nat, p: Policy)
      requires capacity > 0 && s.Ready() && p.Tracks(capacity, map[])
      requires p.Self() != s && p.Self() != s.io
      ensures fresh(set i | 0 <= i < |buffers| :: buffers[i])
      ensures store == s && policy == p && |frames| == capacity
      ensures Valid() && View() == s.Pages()
      ensures forall i :: 0 <= i < |frames| ==> frames[i] == Frame(0, false, false, 0)
    {
      store, policy, isOpen := s, p, true;
      var bufs: seq<array<byte>> := [];
      while |bufs| < capacity
        invariant |bufs| <= capacity
        invariant forall i :: 0 <= i < |bufs| ==> fresh(bufs[i]) && bufs[i].Length == s.pageSize
        invariant forall i, j :: 0 <= i < j < |bufs| ==> bufs[i] != bufs[j]
      {
        var b := new byte[s.pageSize](_ => 0);
        bufs := bufs + [b];
      }
      buffers := bufs;
      frames := seq(capacity, _ => Frame(0, false, false, 0));
      new;
      assert Resident(frames) == map[];
    }

    method FindFrame(p: nat) returns (r: Option<nat>)
      ensures r == FrameOf(frames, p)
    {
      var i := 0;
      while i < |frames|
        invariant 0 <= i <= |frames|
        invariant FrameOf(frames, p) == FrameFrom(frames, p, i)
      {
        if frames[i].valid && frames[i].pageId == p {
          return Some(i);
        }
        i := i + 1;
      }
      r := None;
    }

    /** choose_victim: the lowest empty frame if there is one, else the frame the policy's state determines. */
    method PickFrame() returns (r: Result<nat>)
      requires Valid()
      modifies policy.Self()
      ensures Valid()
      ensures r.Ok? <==> SomeReusable(frames)
      ensures r.Ok? ==> Reusable(frames, r.value) && Picked(old(policy.Now()), frames, r.value)
      ensures policy.Now() == if r.Ok? then Picking(old(policy.Now()), frames, r.value) else old(policy.Now())
      ensures r.Err? ==> r.error == BufferPoolFull
    {
      var i := 0;
      while i < |frames|
        invariant 0 <= i <= |frames|
        invariant forall j :: 0 <= j < i ==> frames[j].valid
      {
        if !frames[i].valid {
          assert Reusable(frames, i);
          return Ok(i);
        }
        i := i + 1;
      }
      ResidentShown(frames);
      ghost var img := Img();
      r := policy.ChooseVictim(|frames|, Resident(frames), States(frames));
      assert Img() == img;
      assert forall j: nat :: Reusable(frames, j) <==> Evictable(States(frames), j);
    }

    /** A miss on page `p`: tell the policy, then find a frame for it. */
    method PickFrameFor(p: nat) returns (r: Result<nat>)
      requires Valid()
      modifies policy.Self()
      ensures Valid() && View() == old(View()) && Contents() == old(Contents())
      ensures r.Ok? <==> SomeReusable(frames)
      ensures r.Ok? ==> Reusable(frames, r.value)
      ensures r.Err? ==> r.error == BufferPoolFull
      ensures MissTold(old(policy.Now()), frames, p, if r.Ok? then Some(r.value) else None, policy.Now())
    {
      ghost var img := Img();
      var _ := policy.RecordMiss(|frames|, Resident(frames), p);
      assert Img() == img;
      r := PickFrame();
      assert Img() == img;
    }

    /** Write a dirty frame to the store; a failed or torn write leaves it dirty. */
    method WriteBack(i: nat) returns (r: Status)
      requires Valid() && i < |frames|
      modifies `frames, store.io`data, store.io`faults
      ensures Valid() && View() == old(View())
      ensures |store.Pages()| == |old(store.Pages())|
      ensures frames == if r.Ok? && frames[i].valid then old(frames)[i := old(frames)[i].(dirty := false)] else old(frames)
      ensures r.Ok? && frames[i].valid && old(frames)[i].dirty ==>
        frames[i].pageId < |store.Pages()| && store.Pages() == old(store.Pages())[frames[i].pageId := buffers[i][..]]
      ensures !old(frames)[i].dirty || !frames[i].valid ==> r.Ok? && store.Pages() == old(store.Pages())
      ensures r.Err? ==> r.error in {IoError, Corruption, PageNotFound, Overflow}
      ensures old(store.io.Healthy()) ==> r.Ok? && store.io.Healthy()
    {
      if !frames[i].valid || !frames[i].dirty {
        assert frames[i].valid ==> frames[i := frames[i].(dirty := false)] == frames;
        return Ok(());
      }
      ghost var m := Img();
      assert FrameOk(m, i);
      var p := frames[i].pageId;
      ghost var put;
      r, put := store.WritePage(p, buffers[i]);
      ghost var n := Img();
      StoreBehindFrame(m, i, Blit(m.disk[p], 0, m.data[i][..put]));
      assert n == m.(disk := m.disk[p := Blit(m.disk[p], 0, m.data[i][..put])]);
      if r.Err? {
        return;
      }
      SetFlags(n, i, false, frames[i].pins);
      frames := frames[i := frames[i].(dirty := false)];
      ResidentSame(m.frames, frames);
      assert Img() == n.(frames := frames);
    }

    /**
     Hand frame `i`, whose buffer has already been filled for page `p`, from its old page to
     the new one. `m` is the pool before the buffer was filled.
     */
    method Install(i: nat, p: nat, dirty: bool, ghost m: Image) returns (r: Status)
      requires isOpen && Shaped() && store.Ready()
      requires Coherent(m) && m.frames == frames && m.disk == store.Pages()
      requires i < |frames| && Contents() == m.data[i := buffers[i][..]]
      requires policy.Tracks(|frames|, Resident(frames))
      requires p < |m.disk| && FrameOf(frames, p).None?
      requires frames[i].valid ==> !frames[i].dirty && frames[i].pins == 0
      modifies `frames, policy.Self()
      ensures Valid() && r == Ok(())
      ensures frames == old(frames)[i := Frame(p, true, dirty, 1)]
      ensures View() == PoolModel.View(m)[p := buffers[i][..]] && PoolModel.View(m)[p] == m.disk[p]
      ensures policy.Now() == Swapped(old(policy.Now()), old(frames)[i], i, p)
    {
      r := HandOver(i, p, dirty);
      frames := frames[i := Frame(p, true, dirty, 1)];
      Replace(m, i, p, dirty, buffers[i][..]);
      assert Img() == Replaced(m, i, p, dirty, buffers[i][..]);
    }

    /** Tell the policy that frame `i` lets go of its page, if any, and takes page `p`. */
    method HandOver(i: nat, p: nat, ghost dirty: bool) returns (r: Status)
      requires OneFrameEach(frames) && i < |frames| && FrameOf(frames, p).None?
      requires policy.Self() != this && policy.Tracks(|frames|, Resident(frames))
      modifies policy.Self()
      ensures r == Ok(()) && policy.Tracks(|frames|, Resident(frames[i := Frame(p, true, dirty, 1)]))
      ensures policy.Now() == Swapped(old(policy.Now()), frames[i], i, p)
    {
      ghost var rest := if frames[i].valid then Resident(frames) - {frames[i].pageId} else Resident(frames);
      ResidentReplaced(frames, i, p, dirty);
      if frames[i].valid {
        var _ := policy.RecordEvict(|frames|, Resident(frames), frames[i].pageId, i);
      }
      r := policy.RecordLoad(|frames|, rest, p, i);
    }

    lemma OtherBuffersKept(i: nat, data: seq<seq<byte>>)
      requires i < |buffers| == |data|
      requires forall j :: 0 <= j < |buffers| && j != i ==> buffers[j][..] == data[j]
      ensures Contents() == data[i := buffers[i][..]]
    {
    }

    /** Read page `p` into the buffer of frame `i`, leaving metadata and policy for later. */
    method ReadInto(i: nat, p: nat, ghost m: Image) returns (r: Status, ghost got: nat)
      requires Valid() && m == Img() && i < |frames|
      requires frames[i].valid ==> !frames[i].dirty && frames[i].pins == 0
      modifies store.io`readFaults, store.io`faults, buffers[i]
      ensures store.Ready() && store.Pages() == m.disk && policy.Tracks(|frames|, Resident(frames))
      ensures Contents() == m.data[i := buffers[i][..]]
      ensures r.Ok? ==> p < |m.disk| && buffers[i][..] == m.disk[p]
      ensures r.Err? ==> r.error in {IoError, Corruption, PageNotFound, Overflow}
      ensures r.Err? && got > 0 ==> Damaged(m.data, i, p, got)
      ensures r.Err? ==> (View() == PoolModel.View(m) <==> Spared(m.frames[i].valid, m.data[i], p, got))
      ensures got == 0 ==> Img() == m && Valid()
      ensures r.Err? && old(store.io.CleanReads()) ==> got == 0
      ensures old(store.io.CleanReads()) ==> store.io.CleanReads()
      ensures old(store.io.Healthy()) ==> store.io.Healthy() && r == if p < |m.disk| then Ok(()) else Err(PageNotFound)
    {
      r, got := store.ReadPage(p, buffers[i]);
      OtherBuffersKept(i, m.data);
      if got == 0 {
        assert Img() == m;
      } else if r.Err? {
        FailedRead(m, i, p, got);
        assert Img() == m.(data := m.data[i := Blit(m.data[i], 0, m.disk[p][..got])]);
      }
    }

    /** What a failed read moved does not show. */
    ghost predicate Spared(valid: bool, held: seq<byte>, p: nat, got: nat)
      requires store.pageSize > 0
      reads store.io
    {
      got == 0 || (p < |store.Pages()| && Unharmed(valid, held, store.Pages()[p], got))
    }

    /** Empty frame `i` to the store, then read page `p` into its buffer; `m` is the pool in between. */
    method Refill(i: nat, p: nat) returns (r: Status, ghost got: nat, ghost m: Image)
      requires Valid() && Reusable(frames, i)
      modifies `frames, store.io, buffers[i]
      ensures Shaped() && store.Ready() && store.Pages() == m.disk && |m.disk| == |old(store.Pages())|
      ensures policy.Tracks(|frames|, Resident(frames))
      ensures Coherent(m) && m.frames == frames && PoolModel.View(m) == old(View())
      ensures |m.data| == |buffers| && Contents() == m.data[i := buffers[i][..]]
      ensures frames == old(frames) || frames == old(frames)[i := old(frames)[i].(dirty := false)]
      ensures FrameOf(frames, p) == old(FrameOf(frames, p))
      ensures r.Ok? ==> p < |m.disk| && buffers[i][..] == m.disk[p] && (frames[i].valid ==> !frames[i].dirty)
      ensures r.Err? ==> r.error in {IoError, Corruption, PageNotFound, Overflow}
      ensures r.Err? && got > 0 ==> Damaged(old(Contents()), i, p, got)
      ensures r.Err? ==> (View() == old(View()) <==> Spared(old(frames)[i].valid, old(Contents())[i], p, got))
      ensures got == 0 ==> Valid() && Img() == m
      ensures r.Err? && old(store.io.CleanReads()) ==> got == 0
      ensures old(store.io.CleanReads()) ==> store.io.CleanReads()
      ensures old(store.io.Healthy()) ==> store.io.Healthy() && r == if p < |m.disk| then Ok(()) else Err(PageNotFound)
    {
      got := 0;
      r := WriteBack(i);
      SamePlacesFrom(old(frames), frames, p, 0);
      m := Img();
      if r.Ok? {
        r, got := ReadInto(i, p, m);
      }
    }

    /**
     load_page_into_frame. On a failed read the first `got` bytes of the page are already in
     the victim's buffer, and the frame still claims to hold its old page.
     */
    method LoadPage(i: nat, p: nat) returns (r: Status, ghost got: nat)
      requires Valid() && Reusable(frames, i) && FrameOf(frames, p).None?
      modifies `frames, store.io, policy.Self(), buffers[i]
      ensures Shaped() && |store.Pages()| == |old(store.Pages())|
      ensures r.Ok? ==> Valid() && View() == old(View()) && frames == old(frames)[i := Frame(p, true, false, 1)] && Accounted(i)
      ensures r.Err? ==> frames == old(frames) || frames == old(frames)[i := old(frames)[i].(dirty := false)]
      ensures policy.Now() == if r.Ok? then Swapped(old(policy.Now()), old(frames)[i], i, p) else old(policy.Now())
      ensures r.Err? ==> r.error in {IoError, Corruption, PageNotFound, Overflow}
      ensures r.Err? && old(store.io.CleanReads()) ==> got == 0
      ensures r.Err? && got == 0 ==> Valid() && View() == old(View())
      ensures r.Err? && got > 0 ==> Damaged(old(Contents()), i, p, got)
      ensures r.Err? ==> (View() == old(View()) <==> Spared(old(frames)[i].valid, old(Contents())[i], p, got))
      ensures old(store.io.CleanReads()) ==> store.io.CleanReads()
      ensures old(store.io.Healthy()) ==> store.io.Healthy() && r == if p < |store.Pages()| then Ok(()) else Err(PageNotFound)
    {
      ghost var m;
      ghost var told := policy.Self();
      r, got, m := Refill(i, p);
      assert unchanged(told);
      assert frames[i].valid == old(frames)[i].valid && frames[i].pageId == old(frames)[i].pageId;
      if r.Ok? {
        r := Install(i, p, false, m);
      }
    }

    /** What a failed read leaves in the buffers. */
    ghost predicate Damaged(data: seq<seq<byte>>, i: nat, p: nat, got: nat)
      requires store.pageSize > 0 && |data| == |buffers| && i < |buffers|
      reads store.io, buffers
    {
      && p < |store.Pages()| && got <= store.pageSize && got <= |data[i]|
      && Contents() == data[i := Blit(data[i], 0, store.Pages()[p][..got])]
    }

    /** load_blank_page_into_frame: a zeroed, dirty frame for a page fresh in the file. */
    method LoadBlank(i: nat, p: nat) returns (r: Status)
      requires Valid() && Reusable(frames, i) && FrameOf(frames, p).None? && p < |store.Pages()|
      modifies `frames, store.io, policy.Self(), buffers[i]
      ensures Valid() && |store.Pages()| == |old(store.Pages())|
      ensures r.Ok? ==> View() == old(View())[p := Zeros(store.pageSize)] && frames == old(frames)[i := Frame(p, true, true, 1)]
      ensures r.Err? ==> View() == old(View()) && frames == old(frames)
      ensures policy.Now() == if r.Ok? then Swapped(old(policy.Now()), old(frames)[i], i, p) else old(policy.Now())
      ensures r.Err? ==> r.error in {IoError, Corruption, PageNotFound, Overflow}
      ensures old(store.io.CleanReads()) ==> store.io.CleanReads()
      ensures old(store.io.Healthy()) ==> store.io.Healthy() && r.Ok?
    {
      ghost var told := policy.Self();
      r := WriteBack(i);
      assert unchanged(told);
      if r.Ok? {
        SamePlacesFrom(old(frames), frames, p, 0);
        assert frames[i].valid == old(frames)[i].valid && frames[i].pageId == old(frames)[i].pageId;
        r := InstallBlank(i, p);
      }
    }

    /** Zero the buffer of a clean, reusable frame and give it to page `p`. */
    method InstallBlank(i: nat, p: nat) returns (r: Status)
      requires Valid() && i < |frames| && (frames[i].valid ==> !frames[i].dirty && frames[i].pins == 0)
      requires FrameOf(frames, p).None? && p < |store.Pages()|
      modifies `frames, policy.Self(), buffers[i]
      ensures Valid() && r.Ok?
      ensures View() == old(View())[p := Zeros(store.pageSize)] && frames == old(frames)[i := Frame(p, true, true, 1)]
      ensures policy.Now() == Swapped(old(policy.Now()), old(frames)[i], i, p)
    {
      ghost var m := Img();
      FillZero(buffers[i]);
      OtherBuffersKept(i, m.data);
      r := Install(i, p, true, m);
    }

    /** Change a frame's flags, keeping the bytes accounted for. */
    method SetMeta(i: nat, dirty: bool, pins: nat)
      requires Valid() && i < |frames| && frames[i].valid
      requires dirty || pins > 0 || Accounted(i)
      requires frames[i].dirty ==> dirty
      modifies `frames
      ensures Valid() && View() == old(View())
      ensures frames == old(frames)[i := old(frames)[i].(dirty := dirty, pins := pins)]
    {
      ghost var m := Img();
      assert FrameOk(m, i);
      SetFlags(m, i, dirty, pins);
      frames := frames[i := frames[i].(dirty := dirty, pins := pins)];
      ResidentSame(m.frames, frames);
      assert Img() == m.(frames := frames);
    }

    /** Tell the policy a resident page was used again. */
    method Touch(i: nat)
      requires Valid() && i < |frames| && frames[i].valid
      modifies policy.Self()
      ensures Valid() && View() == old(View()) && policy.Now() == Told(old(policy.Now()), Hit(frames[i].pageId, i))
    {
      ghost var m := Img();
      assert Holds(frames, i, frames[i].pageId);
      PlaceOf(frames, i, frames[i].pageId);
      var _ := policy.RecordAccess(|frames|, Resident(frames), frames[i].pageId, i);
      assert Img() == m;
    }

    /** One more pin on a resident page. */
    method Repin(i: nat, dirty: bool)
      requires Valid() && i < |frames| && frames[i].valid
      modifies `frames, policy.Self()
      ensures Valid() && View() == old(View())
      ensures PinnedOne(old(frames), frames, i, old(frames)[i].pageId) && (dirty ==> frames[i].dirty)
      ensures old(frames)[i].pins == 0 ==> Accounted(i)
      ensures policy.Now() == Told(old(policy.Now()), Hit(frames[i].pageId, i))
    {
      assert FrameOk(Img(), i);
      SetMeta(i, frames[i].dirty || dirty, frames[i].pins + 1);
      Touch(i);
    }

    /**
     Pin a page, reading it in if no frame holds it. After a failure the view is the old one
     exactly when the `got` bytes already read into the `victim` do not show.
     */
    method Fetch(p: nat) returns (r: Result<FrameHandle>, ghost victim: nat, ghost got: nat)
      requires isOpen ==> Valid()
      modifies this, store.io, policy.Self(), buffers
      ensures isOpen == old(isOpen)
      ensures !isOpen ==> r == Err(IoError) && frames == old(frames)
      ensures isOpen && (r.Ok? || old(store.io.CleanReads())) ==> Valid() && View() == old(View())
      ensures isOpen && r.Ok? ==> PinnedOne(old(frames), frames, r.value.index, p)
      ensures isOpen && r.Ok? && frames[r.value.index].pins == 1 ==> Accounted(r.value.index)
      ensures isOpen ==> FetchTold(old(policy.Now()), old(frames), p, LandedIn(r), LeftAt(r, victim), policy.Now())
      ensures isOpen && r.Ok? ==> r.value == FrameHandle(this, r.value.index, p, buffers[r.value.index])
      ensures r.Err? ==> SamePins(old(frames), frames)
      ensures isOpen && r.Err? ==> Shaped() && victim < |old(frames)|
      ensures isOpen && r.Err? && got > 0 ==> Damaged(old(Contents()), victim, p, got) && Reusable(old(frames), victim)
      ensures isOpen && r.Err? ==>
        (View() == old(View()) <==> Spared(old(frames)[victim].valid, old(Contents())[victim], p, got))
      ensures r.Err? ==> r.error in {IoError, Corruption, PageNotFound, Overflow, BufferPoolFull}
      ensures isOpen && r.Err? && r.error == BufferPoolFull ==> !SomeReusable(old(frames))
      ensures isOpen && old(store.io.CleanReads()) ==> store.io.CleanReads()
      ensures isOpen && old(store.io.Healthy()) ==> store.io.Healthy()
      ensures isOpen && old(store.io.Healthy()) && r.Err? ==> r.error in {PageNotFound, BufferPoolFull}
      ensures isOpen && old(store.io.Healthy()) ==>
        (r.Ok? <==> FrameOf(old(frames), p).Some? || (SomeReusable(old(frames)) && p < |old(store.Pages())|))
    {
      victim, got := 0, 0;
      if !isOpen {
        return Err(IoError), 0, 0;
      }
      r, victim, got := FetchOpen(p);
    }

    method FetchOpen(p: nat) returns (r: Result<FrameHandle>, ghost victim: nat, ghost got: nat)
      requires Valid()
      modifies `frames, store.io, policy.Self(), buffers
      ensures r.Ok? || old(store.io.CleanReads()) ==> Valid() && View() == old(View())
      ensures r.Ok? ==> PinnedOne(old(frames), frames, r.value.index, p)
      ensures r.Ok? && frames[r.value.index].pins == 1 ==> Accounted(r.value.index)
      ensures FetchTold(old(policy.Now()), old(frames), p, LandedIn(r), LeftAt(r, victim), policy.Now())
      ensures r.Ok? ==> r.value == FrameHandle(this, r.value.index, p, buffers[r.value.index])
      ensures r.Err? ==> SamePins(old(frames), frames)
      ensures r.Err? ==> Shaped() && victim < |old(frames)|
      ensures r.Err? && got > 0 ==> Damaged(old(Contents()), victim, p, got) && Reusable(old(frames), victim)
      ensures r.Err? ==> (View() == old(View()) <==> Spared(old(frames)[victim].valid, old(Contents())[victim], p, got))
      ensures r.Err? ==> r.error in {IoError, Corruption, PageNotFound, Overflow, BufferPoolFull}
      ensures r.Err? && r.error == BufferPoolFull ==> !SomeReusable(old(frames))
      ensures old(store.io.CleanReads()) ==> store.io.CleanReads()
      ensures old(store.io.Healthy()) ==> store.io.Healthy()
      ensures old(store.io.Healthy()) && r.Err? ==> r.error in {PageNotFound, BufferPoolFull}
      ensures old(store.io.Healthy()) ==>
        (r.Ok? <==> FrameOf(old(frames), p).Some? || (SomeReusable(old(frames)) && p < |old(store.Pages())|))
    {
      victim, got := 0, 0;
      ghost var told := policy.Self();
      var cached := FindFrame(p);
      assert unchanged(told);
      if cached.Some? {
        FoundTold(policy.Now(), frames, p, cached.value, Some(victim));
        Repin(cached.value, false);
        r := Ok(FrameHandle(this, cached.value, p, buffers[cached.value]));
      } else {
        r, victim, got := FetchMiss(p);
      }
    }

    /** Fetch of a page no frame holds. */
    method FetchMiss(p: nat) returns (r: Result<FrameHandle>, ghost victim: nat, ghost got: nat)
      requires Valid() && FrameOf(frames, p).None?
      modifies `frames, store.io, policy.Self(), buffers
      ensures r.Ok? || old(store.io.CleanReads()) ==> Valid() && View() == old(View())
      ensures r.Ok? ==> PinnedOne(old(frames), frames, r.value.index, p) && Accounted(r.value.index)
      ensures FetchTold(old(policy.Now()), old(frames), p, LandedIn(r), LeftAt(r, victim), policy.Now())
      ensures r.Ok? ==> r.value == FrameHandle(this, r.value.index, p, buffers[r.value.index])
      ensures r.Err? ==> SamePins(old(frames), frames)
      ensures r.Err? ==> Shaped() && victim < |old(frames)|
      ensures r.Err? && got > 0 ==> Damaged(old(Contents()), victim, p, got) && Reusable(old(frames), victim)
      ensures r.Err? ==> (View() == old(View()) <==> Spared(old(frames)[victim].valid, old(Contents())[victim], p, got))
      ensures r.Err? ==> r.error in {IoError, Corruption, PageNotFound, Overflow, BufferPoolFull}
      ensures r.Err? && r.error == BufferPoolFull ==> !SomeReusable(old(frames))
      ensures old(store.io.CleanReads()) ==> store.io.CleanReads()
      ensures old(store.io.Healthy()) ==> store.io.Healthy()
      ensures old(store.io.Healthy()) && r.Err? ==> r.error in {PageNotFound, BufferPoolFull}
      ensures old(store.io.Healthy()) ==> (r.Ok? <==> SomeReusable(old(frames)) && p < |old(store.Pages())|)
    {
      victim, got := 0, 0;
      var frame := PickFrameFor(p);
      if frame.Err? {
        return Err(frame.error), 0, 0;
      }
      victim := frame.value;
      LoadedTold(old(policy.Now()), frames, p, victim, policy.Now());
      r, got := TakeFrame(frame.value, p);
    }

    /** Load page `p` into frame `i` and hand the frame out. */
    method TakeFrame(i: nat, p: nat) returns (r: Result<FrameHandle>, ghost got: nat)
      requires Valid() && Reusable(frames, i) && FrameOf(frames, p).None?
      modifies `frames, store.io, policy.Self(), buffers
      ensures r.Ok? || old(store.io.CleanReads()) ==> Valid() && View() == old(View())
      ensures r.Ok? ==> PinnedOne(old(frames), frames, i, p) && Accounted(i)
      ensures r.Ok? ==> r.value == FrameHandle(this, i, p, buffers[i])
      ensures policy.Now() == if r.Ok? then Swapped(old(policy.Now()), old(frames)[i], i, p) else old(policy.Now())
      ensures r.Err? ==> SamePins(old(frames), frames) && Shaped()
      ensures r.Err? && got > 0 ==> Damaged(old(Contents()), i, p, got)
      ensures r.Err? ==> (View() == old(View()) <==> Spared(old(frames)[i].valid, old(Contents())[i], p, got))
      ensures r.Err? ==> r.error in {IoError, Corruption, PageNotFound, Overflow}
      ensures old(store.io.CleanReads()) ==> store.io.CleanReads()
      ensures old(store.io.Healthy()) ==> store.io.Healthy() && (r.Err? ==> r.error == PageNotFound)
      ensures old(store.io.Healthy()) ==> (r.Ok? <==> p < |old(store.Pages())|)
    {
      var done;
      done, got := LoadPage(i, p);
      r := if done.Ok? then Ok(FrameHandle(this, i, p, buffers[i])) else Err(done.error);
    }

    /** Pin a page just added to the file, as zeros, without reading it. */
    method FetchNew(p: nat) returns (r: Result<FrameHandle>, ghost victim: nat)
      requires isOpen ==> Valid() && p < |store.Pages()|
      modifies this, store.io, policy.Self(), buffers
      ensures isOpen == old(isOpen)
      ensures !isOpen ==> r == Err(IoError) && frames == old(frames)
      ensures isOpen ==> Valid()
      ensures isOpen ==> View() == if r.Ok? then old(View())[p := Zeros(store.pageSize)] else old(View())
      ensures isOpen && r.Ok? ==> PinnedOne(old(frames), frames, r.value.index, p) && frames[r.value.index].dirty
      ensures isOpen ==> FetchTold(old(policy.Now()), old(frames), p, LandedIn(r), LeftAt(r, victim), policy.Now())
      ensures isOpen && r.Ok? ==> r.value == FrameHandle(this, r.value.index, p, buffers[r.value.index])
      ensures r.Err? ==> frames == old(frames)
      ensures r.Err? ==> r.error in {IoError, Corruption, PageNotFound, Overflow, BufferPoolFull}
      ensures isOpen && r.Err? && r.error == BufferPoolFull ==> !SomeReusable(old(frames))
      ensures isOpen && old(store.io.CleanReads()) ==> store.io.CleanReads()
      ensures isOpen && old(store.io.Healthy()) ==> store.io.Healthy()
      ensures isOpen && old(store.io.Healthy()) ==> (r.Ok? <==> FrameOf(old(frames), p).Some? || SomeReusable(old(frames)))
    {
      victim := 0;
      if !isOpen {
        return Err(IoError), 0;
      }
      ghost var told := policy.Self();
      var cached := FindFrame(p);
      assert unchanged(told);
      if cached.Some? {
        FoundTold(policy.Now(), frames, p, cached.value, Some(victim));
        FetchNewHit(cached.value, p);
        return Ok(FrameHandle(this, cached.value, p, buffers[cached.value])), 0;
      }
      r, victim := FetchNewMiss(p);
    }

    /** Zero a pinned, dirty frame's buffer. */
    method Blank(i: nat)
      requires Valid() && i < |frames| && frames[i].valid && frames[i].dirty && frames[i].pageId < |store.Pages()|
      modifies buffers[i]
      ensures Valid() && View() == old(View())[frames[i].pageId := Zeros(store.pageSize)]
    {
      ghost var m := Img();
      FillZero(buffers[i]);
      OtherBuffersKept(i, m.data);
      Poke(m, i, buffers[i][..]);
      assert Img() == m.(data := m.data[i := buffers[i][..]]);
    }

    /** FetchNew of a page frame `i` holds. */
    method FetchNewHit(i: nat, p: nat)
      requires Valid() && Holds(frames, i, p) && p < |store.Pages()|
      modifies `frames, policy.Self(), buffers[i]
      ensures Valid() && View() == old(View())[p := Zeros(store.pageSize)]
      ensures PinnedOne(old(frames), frames, i, p) && frames[i].dirty
      ensures policy.Now() == Told(old(policy.Now()), Hit(p, i))
    {
      Repin(i, true);
      Blank(i);
    }

    /** FetchNew of a page no frame holds. */
    method FetchNewMiss(p: nat) returns (r: Result<FrameHandle>, ghost victim: nat)
      requires Valid() && FrameOf(frames, p).None? && p < |store.Pages()|
      modifies `frames, store.io, policy.Self(), buffers
      ensures Valid()
      ensures View() == if r.Ok? then old(View())[p := Zeros(store.pageSize)] else old(View())
      ensures r.Ok? ==> PinnedOne(old(frames), frames, r.value.index, p) && frames[r.value.index].dirty
      ensures FetchTold(old(policy.Now()), old(frames), p, LandedIn(r), LeftAt(r, victim), policy.Now())
      ensures r.Ok? ==> r.value == FrameHandle(this, r.value.index, p, buffers[r.value.index])
      ensures r.Err? ==> frames == old(frames)
      ensures r.Err? ==> r.error in {IoError, Corruption, PageNotFound, Overflow, BufferPoolFull}
      ensures r.Err? && r.error == BufferPoolFull ==> !SomeReusable(old(frames))
      ensures old(store.io.CleanReads()) ==> store.io.CleanReads()
      ensures old(store.io.Healthy()) ==> store.io.Healthy()
      ensures old(store.io.Healthy()) ==> (r.Ok? <==> SomeReusable(old(frames)))
    {
      var frame := PickFrameFor(p);
      if frame.Err? {
        return Err(frame.error), 0;
      }
      victim := frame.value;
      LoadedTold(old(policy.Now()), frames, p, victim, policy.Now());
      var done := LoadBlank(frame.value, p);
      if done.Err? {
        return Err(done.error), victim;
      }
      r := Ok(FrameHandle(this, frame.value, p, buffers[frame.value]));
    }

    /**
     Give back one pin. A client that changed the bytes must say so: the pool stays coherent
     if the frame ends up dirty, still pinned, or equal to its stored page.
     */
    method Unpin(h: FrameHandle, dirty: bool) returns (r: Status, left: FrameHandle)
      requires isOpen ==> Valid()
      modifies `frames
      ensures !isOpen ==> r == Err(IoError)
      ensures isOpen ==>
        r == if h.owner == this && Returnable(old(frames), h.index) then Ok(()) else Err(InvalidArgument)
      ensures left == if r.Ok? then h.(owner := null, index := 0, pageId := 0) else h
      ensures r.Err? ==> frames == old(frames)
      ensures r.Ok? ==> var f := old(frames)[h.index];
        frames == old(frames)[h.index := f.(dirty := f.dirty || dirty, pins := f.pins - 1)]
      ensures r.Ok? && FrameOk(Img(), h.index) ==> Valid() && View() == old(View())
    {
      if !isOpen {
        return Err(IoError), h;
      }
      if h.owner != this || h.index >= |frames| {
        return Err(InvalidArgument), h;
      }
      var f := frames[h.index];
      if !f.valid || f.pins == 0 {
        return Err(InvalidArgument), h;
      }
      ghost var m := Img();
      assert FrameOk(m, h.index);
      frames := frames[h.index := f.(dirty := f.dirty || dirty, pins := f.pins - 1)];
      if FrameOk(Img(), h.index) {
        SetFlags(m, h.index, f.dirty || dirty, f.pins - 1);
        ResidentSame(m.frames, frames);
        assert Img() == m.(frames := frames);
      }
      r, left := Ok(()), h.(owner := null, index := 0, pageId := 0);
    }

    method Flush(p: nat) returns (r: Status)
      requires isOpen ==> Valid()
      modifies `frames, store.io`data, store.io`faults
      ensures isOpen ==> Valid() && View() == old(View())
      ensures !isOpen ==> r == Err(IoError)
      ensures isOpen && (FrameOf(old(frames), p).None? || !old(frames)[FrameOf(old(frames), p).value].dirty) ==>
        r.Ok? && frames == old(frames) && store.Pages() == old(store.Pages())
      ensures isOpen && r.Ok? && FrameOf(old(frames), p).Some? ==> var i := FrameOf(old(frames), p).value;
        && frames == old(frames)[i := old(frames)[i].(dirty := false)] && p < |old(store.Pages())|
        && (old(frames)[i].dirty ==> store.Pages() == old(store.Pages())[p := buffers[i][..]])
      ensures r.Err? ==> frames == old(frames)
      ensures isOpen && old(store.io.Healthy()) ==> r.Ok?
    {
      if !isOpen {
        return Err(IoError);
      }
      var cached := FindFrame(p);
      if cached.None? {
        return Ok(());
      }
      r := WriteBack(cached.value);
      assert FrameOk(Img(), cached.value);
    }

    method FlushAll() returns (r: Status)
      requires isOpen ==> Valid()
      modifies `frames, store.io`data, store.io`faults, store.io`durable
      ensures !isOpen ==> r == Err(IoError) && frames == old(frames)
      ensures isOpen ==> Valid() && View() == old(View()) && SamePins(old(frames), frames)
      ensures isOpen && r.Ok? ==> forall i :: 0 <= i < |frames| && frames[i].valid ==> !frames[i].dirty
      ensures isOpen && r.Ok? && (forall i :: 0 <= i < |frames| ==> frames[i].pins == 0) ==> store.Pages() == View()
      ensures isOpen && r.Ok? ==> store.io.durable == store.io.data
      ensures isOpen && old(store.io.Healthy()) ==> r.Ok? && store.io.Healthy()
    {
      if !isOpen {
        return Err(IoError);
      }
      var i := 0;
      while i < |frames|
        invariant 0 <= i <= |frames|
        invariant Valid() && View() == old(View()) && SamePins(old(frames), frames)
        invariant forall j :: 0 <= j < i && frames[j].valid ==> !frames[j].dirty
        invariant old(store.io.Healthy()) ==> store.io.Healthy()
      {
        r := WriteBack(i);
        if r.Err? {
          return;
        }
        i := i + 1;
      }
      r := store.Sync();
      if forall j :: 0 <= j < |frames| ==> frames[j].pins == 0 {
        AllClean(Img());
      }
    }

    /** Flush everything and drop the frames; a failed flush leaves the pool open. */
    method Close() returns (r: Status)
      requires isOpen ==> Valid()
      modifies this, store.io`data, store.io`faults, store.io`durable
      ensures r.Ok? ==> !isOpen && frames == []
      ensures old(isOpen) && r.Ok? ==> store.io.durable == store.io.data
      ensures r.Err? ==> old(isOpen) && Valid() && View() == old(View())
      ensures old(isOpen) && r.Ok? && (forall i :: 0 <= i < |old(frames)| ==> old(frames)[i].pins == 0) ==>
        store.Ready() && store.Pages() == old(View())
      ensures old(isOpen) && old(store.io.Healthy()) ==> r.Ok? && store.io.Healthy()
      ensures !old(isOpen) ==> r.Ok?
    {
      if isOpen {
        r := FlushAll();
        if r.Err? {
          return;
        }
      }
      frames, isOpen := [], false;
      r := Ok(());
    }

    // ----- what a client may rely on while it holds a pin ------------------------------------

    /** `h` is a pinned handle on page `p`. */
    ghost predicate Holding(h: FrameHandle, p: nat)
      reads this
    {
      && Holds(frames, h.index, p) && frames[h.index].pins > 0
      && h.index < |buffers| && h.bytes == buffers[h.index] && h.pageId == p && h.owner == this
    }

    lemma HandleShowsPage(h: FrameHandle, p: nat)
      requires Valid() && Holding(h, p)
      ensures p < |View()| == |store.Pages()| && h.bytes[..] == View()[p] && h.bytes.Length == store.pageSize
    {
      ViewResident(Img(), h.index);
    }

    /** Writing through the handle changes that page of the view and nothing else. */
    lemma HandleWrote(h: FrameHandle, p: nat, m: Image)
      requires isOpen && Shaped() && store.Ready() && Holding(h, p)
      requires policy.Tracks(|frames|, Resident(frames))
      requires Coherent(m) && m.frames == frames && m.disk == store.Pages() && |m.data| == |buffers|
      requires forall j :: 0 <= j < |buffers| && j != h.index ==> buffers[j][..] == m.data[j]
      ensures Valid() && p < |m.disk| && View() == PoolModel.View(m)[p := h.bytes[..]]
    {
      OtherBuffersKept(h.index, m.data);
      Poke(m, h.index, h.bytes[..]);
      assert Img() == m.(data := m.data[h.index := h.bytes[..]]);
    }

  }
}
