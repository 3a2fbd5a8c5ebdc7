/** The ARC policy object: its lists and maps updated in place, proved against `Arc`. */
module ArcObject {
  import opened Common
  import opened Eviction
  import opened Arc

  class ArcPolicy {
    var capacity: nat
    var target: nat
    var pendingB2Hit: bool
    var t1: seq<nat>
    var t2: seq<nat>
    var b1: seq<nat>
    var b2: seq<nat>
    var locations: map<nat, Location>
    var resident: map<nat, nat>

    ghost function State(): ArcState
      reads this
    {
      ArcState(capacity, target, pendingB2Hit, t1, t2, b1, b2, locations, resident)
    }

    ghost predicate Tracks(c: nat, r: map<nat, nat>)
      reads this
    {
      Inv(State(), c, r)
    }

    constructor (c: nat)
      requires c > 0
      ensures State() == Reset(c) && Tracks(c, map[])
    {
      capacity, target, pendingB2Hit := c, 0, false;
      t1, t2, b1, b2, locations, resident := [], [], [], [], map[], map[];
      new;
      ResetInv(c);
    }

    method RecordAccess(page: nat, frame: nat) returns (r: Status)
      modifies this
      ensures r == Ok(()) && State() == Access(old(State()), page, frame)
    {
      resident := resident[page := frame];
      if page !in locations {
        locations := locations[page := T1];
        t1 := PushFront(t1, page);
      } else if locations[page] == T1 {
        t1 := Without(t1, page);
        t2 := PushFront(t2, page);
        locations := locations[page := T2];
      } else if locations[page] == T2 {
        t2 := PushFront(t2, page);
      }
      r := Ok(());
    }

    method RecordMiss(page: nat) returns (r: Status)
      modifies this
      ensures r == Ok(()) && State() == Miss(old(State()), page)
    {
      pendingB2Hit := false;
      if page in locations && locations[page] == B1 {
        var delta := Max(1, |b2| / Max(1, |b1|));
        target := Min(capacity, target + delta);
      } else if page in locations && locations[page] == B2 {
        var delta := Max(1, |b1| / Max(1, |b2|));
        target := if target > delta then target - delta else 0;
        pendingB2Hit := true;
      }
      r := Ok(());
    }

    method RecordLoad(page: nat, frame: nat) returns (r: Status)
      modifies this
      ensures r == Ok(()) && State() == Load(old(State()), page, frame)
    {
      resident := resident[page := frame];
      if page in locations && locations[page] == B1 {
        b1 := Without(b1, page);
        t2 := PushFront(t2, page);
        locations := locations[page := T2];
      } else if page in locations && locations[page] == B2 {
        b2 := Without(b2, page);
        t2 := PushFront(t2, page);
        locations := locations[page := T2];
      } else {
        locations := locations[page := T1];
        t1 := PushFront(t1, page);
      }
      assert State() == Admit(old(State()), page, frame);
      PruneGhosts();
      r := Ok(());
    }

    method RecordEvict(page: nat, frame: nat) returns (r: Status)
      modifies this
      ensures r == Ok(()) && State() == Evict(old(State()), page)
    {
      resident := resident - {page};
      if page !in locations {
        return Ok(());
      }
      if locations[page] == T1 {
        t1 := Without(t1, page);
        b1 := PushFront(b1, page);
        locations := locations[page := B1];
      } else if locations[page] == T2 {
        t2 := Without(t2, page);
        b2 := PushFront(b2, page);
        locations := locations[page := B2];
      }
      assert State() == Forget(old(State()), page);
      PruneGhosts();
      r := Ok(());
    }

    method PruneGhosts()
      modifies this
      ensures State() == Prune(old(State()))
    {
      while |b1| > capacity
        invariant PruneB1(State()) == PruneB1(old(State()))
        decreases |b1|
      {
        ghost var before := State();
        b1, locations := b1[..|b1| - 1], locations - {b1[|b1| - 1]};
        assert State() == DropB1(before);
      }
      ghost var first := State();
      while |b2| > capacity
        invariant PruneB2(State()) == PruneB2(first)
        decreases |b2|
      {
        ghost var before := State();
        b2, locations := b2[..|b2| - 1], locations - {b2[|b2| - 1]};
        assert State() == DropB2(before);
      }
      ghost var second := State();
      while |b1| + |b2| > capacity
        invariant PruneBoth(State()) == PruneBoth(second)
        decreases |b1| + |b2|
      {
        ghost var before := State();
        if |b1| >= |b2| {
          b1, locations := b1[..|b1| - 1], locations - {b1[|b1| - 1]};
          assert State() == DropB1(before);
        } else {
          b2, locations := b2[..|b2| - 1], locations - {b2[|b2| - 1]};
          assert State() == DropB2(before);
        }
      }
    }

    method ChooseFromLru(pages: seq<nat>, frames: seq<FrameState>) returns (r: Result<nat>)
      ensures r == match ChooseFrom(pages, resident, frames) case Some(v) => Ok(v) case None => Err(NotFound)
    {
      var i := |pages|;
      assert pages[..i] == pages;
      while i > 0
        invariant 0 <= i <= |pages|
        invariant ChooseFrom(pages[..i], resident, frames) == ChooseFrom(pages, resident, frames)
      {
        i := i - 1;
        assert pages[..i + 1][..i] == pages[..i];
        var page := pages[i];
        if page in resident && Evictable(frames, resident[page]) {
          return Ok(resident[page]);
        }
      }
      r := Err(NotFound);
    }

    method ChooseVictim(frames: seq<FrameState>) returns (r: Result<nat>)
      ensures r == match Victim(State(), frames) case Some(v) => Ok(v) case None => Err(BufferPoolFull)
    {
      if |t1| > target || (pendingB2Hit && |t1| == target) {
        r := ChooseFromLru(t1, frames);
        if r.Ok? {
          return;
        }
      }
      r := ChooseFromLru(t2, frames);
      if r.Ok? {
        return;
      }
      r := ChooseFromLru(t1, frames);
      if r.Err? {
        r := Err(BufferPoolFull);
      }
    }
  }
}
