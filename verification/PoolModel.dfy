/**
 A buffer pool as a value: frame metadata, frame contents, and the stored pages. What a
 client of the pool sees is `View`: the frame's bytes where a page is resident, the stored
 bytes elsewhere. The lemmas say what each step of buffer_pool.cpp does to the view.
 */
module PoolModel {
  import opened Common
  import opened Eviction

  datatype Frame = Frame(pageId: nat, valid: bool, dirty: bool, pins: nat)

  datatype Image = Image(frames: seq<Frame>, data: seq<seq<byte>>, disk: seq<seq<byte>>)

  predicate Holds(frames: seq<Frame>, i: nat, p: nat)
  {
    i < |frames| && frames[i].valid && frames[i].pageId == p
  }

  /** find_frame: the lowest frame holding the page. */
  function FrameOf(frames: seq<Frame>, p: nat): (r: Option<nat>)
    ensures r.Some? ==> Holds(frames, r.value, p)
    ensures r.None? ==> forall i: nat :: !Holds(frames, i, p)
  {
    FrameFrom(frames, p, 0)
  }

  function FrameFrom(frames: seq<Frame>, p: nat, from: nat): (r: Option<nat>)
    requires from <= |frames|
    ensures r.Some? ==> Holds(frames, r.value, p)
    ensures r.None? ==> forall i: nat :: from <= i ==> !Holds(frames, i, p)
    decreases |frames| - from
  {
    if from == |frames| then None
    else if Holds(frames, from, p) then Some(from)
    else FrameFrom(frames, p, from + 1)
  }

  function ViewAt(m: Image, p: nat): seq<byte>
    requires |m.data| == |m.frames| && p < |m.disk|
  {
    match FrameOf(m.frames, p)
    case Some(i) => m.data[i]
    case None => m.disk[p]
  }

  function View(m: Image): (v: seq<seq<byte>>)
    requires |m.data| == |m.frames|
    ensures |v| == |m.disk|
    ensures forall p :: 0 <= p < |v| ==> v[p] == ViewAt(m, p)
  {
    seq(|m.disk|, p requires 0 <= p < |m.disk| => ViewAt(m, p))
  }

  // ----- the invariant ----------------------------------------------------------------------

  ghost predicate OneFrameEach(frames: seq<Frame>)
  {
    forall i: nat, j: nat, p :: Holds(frames, i, p) && Holds(frames, j, p) ==> i == j
  }

  /** Frame `i` holds a page of the file, and unless dirty or pinned exactly its stored bytes. */
  predicate FrameOk(m: Image, i: nat)
    requires |m.data| == |m.frames| && i < |m.frames|
  {
    var f := m.frames[i];
    f.valid ==> f.pageId < |m.disk| && (f.dirty || f.pins > 0 || m.data[i] == m.disk[f.pageId])
  }

  ghost predicate Coherent(m: Image)
  {
    && |m.data| == |m.frames|
    && OneFrameEach(m.frames)
    && forall i :: 0 <= i < |m.frames| ==> FrameOk(m, i)
  }

  lemma ViewResident(m: Image, i: nat)
    requires Coherent(m) && i < |m.frames| && m.frames[i].valid
    ensures m.frames[i].pageId < |m.disk| && View(m)[m.frames[i].pageId] == m.data[i]
  {
    assert FrameOk(m, i);
    assert Holds(m.frames, i, m.frames[i].pageId);
  }

  /** Equal views, checked page by page. */
  lemma ViewsEqual(m: Image, n: Image)
    requires |m.data| == |m.frames| && |n.data| == |n.frames| && |m.disk| == |n.disk|
    requires forall p :: 0 <= p < |m.disk| ==> ViewAt(m, p) == ViewAt(n, p)
    ensures View(m) == View(n)
  {
  }

  // ----- steps ------------------------------------------------------------------------------

  /** Metadata changes that keep every frame's page: pin, unpin, mark dirty or clean. */
  lemma SetFlags(m: Image, i: nat, dirty: bool, pins: nat)
    requires Coherent(m) && i < |m.frames|
    requires var f := m.frames[i]; f.valid ==> f.pageId < |m.disk| && (dirty || pins > 0 || m.data[i] == m.disk[f.pageId])
    ensures var n := m.(frames := m.frames[i := m.frames[i].(dirty := dirty, pins := pins)]);
      Coherent(n) && View(n) == View(m)
  {
    var n := m.(frames := m.frames[i := m.frames[i].(dirty := dirty, pins := pins)]);
    SamePlaces(m.frames, n.frames);
    forall j | 0 <= j < |n.frames| ensures FrameOk(n, j) { assert FrameOk(m, j); }
    ViewsEqual(m, n);
  }

  /** Frames that hold the same pages at the same places find and own them alike. */
  lemma SamePlaces(a: seq<Frame>, b: seq<Frame>)
    requires |a| == |b|
    requires forall i :: 0 <= i < |a| ==> a[i].valid == b[i].valid && a[i].pageId == b[i].pageId
    ensures forall p :: FrameOf(a, p) == FrameOf(b, p)
    ensures OneFrameEach(a) ==> OneFrameEach(b)
  {
    forall p ensures FrameOf(a, p) == FrameOf(b, p) { SamePlacesFrom(a, b, p, 0); }
    assert forall i: nat, p :: Holds(a, i, p) == Holds(b, i, p);
  }

  lemma {:induction false} SamePlacesFrom(a: seq<Frame>, b: seq<Frame>, p: nat, from: nat)
    requires |a| == |b| && from <= |a|
    requires forall i :: 0 <= i < |a| ==> a[i].valid == b[i].valid && a[i].pageId == b[i].pageId
    ensures FrameFrom(a, p, from) == FrameFrom(b, p, from)
    decreases |a| - from
  {
    if from < |a| { SamePlacesFrom(a, b, p, from + 1); }
  }

  lemma PlaceOf(frames: seq<Frame>, i: nat, p: nat)
    requires OneFrameEach(frames) && Holds(frames, i, p)
    ensures FrameOf(frames, p) == Some(i)
  {
  }

  /** Writing any bytes to the stored copy of a page held by a dirty frame is invisible. */
  lemma StoreBehindFrame(m: Image, i: nat, bytes: seq<byte>)
    requires Coherent(m) && i < |m.frames| && m.frames[i].valid && m.frames[i].dirty
    ensures m.frames[i].pageId < |m.disk|
    ensures var n := m.(disk := m.disk[m.frames[i].pageId := bytes]); Coherent(n) && View(n) == View(m)
  {
    assert FrameOk(m, i);
    var p := m.frames[i].pageId;
    var n := m.(disk := m.disk[p := bytes]);
    PlaceOf(m.frames, i, p);
    assert Holds(m.frames, i, p);
    forall j | 0 <= j < |n.frames| ensures FrameOk(n, j) {
      assert FrameOk(m, j);
      if m.frames[j].valid && m.frames[j].pageId == p { assert Holds(m.frames, j, p); }
    }
    ViewsEqual(m, n);
  }

  /** Changing a held page's bytes in its frame changes exactly that page of the view. */
  lemma Poke(m: Image, i: nat, bytes: seq<byte>)
    requires Coherent(m) && i < |m.frames| && m.frames[i].valid
    ensures m.frames[i].pageId < |m.disk|
    ensures var n := m.(data := m.data[i := bytes]);
      && View(n) == View(m)[m.frames[i].pageId := bytes]
      && (m.frames[i].dirty || m.frames[i].pins > 0 ==> Coherent(n))
  {
    assert FrameOk(m, i);
    var p := m.frames[i].pageId;
    var n := m.(data := m.data[i := bytes]);
    PlaceOf(m.frames, i, p);
    forall q | 0 <= q < |m.disk| ensures View(n)[q] == View(m)[p := bytes][q] {
      var at := FrameOf(m.frames, q);
      if at.Some? && q != p { assert at.value != i; }
    }
    if m.frames[i].dirty || m.frames[i].pins > 0 {
      forall j | 0 <= j < |n.frames| ensures FrameOk(n, j) { assert FrameOk(m, j); }
    }
  }

  /** The file grew by one page. */
  lemma Grow(m: Image, bytes: seq<byte>)
    requires Coherent(m)
    ensures var n := m.(disk := m.disk + [bytes]); Coherent(n) && View(n) == View(m) + [bytes]
  {
    var n := m.(disk := m.disk + [bytes]);
    forall j | 0 <= j < |n.frames| ensures FrameOk(n, j) { assert FrameOk(m, j); }
    assert forall j: nat :: Holds(m.frames, j, |m.disk|) ==> FrameOk(m, j);
  }

  function Replaced(m: Image, i: nat, p: nat, dirty: bool, bytes: seq<byte>): Image
    requires |m.data| == |m.frames| && i < |m.frames|
  {
    m.(frames := m.frames[i := Frame(p, true, dirty, 1)], data := m.data[i := bytes])
  }

  /** Reusing an empty or clean unpinned frame for page `p` changes no other page of the view. */
  lemma Replace(m: Image, i: nat, p: nat, dirty: bool, bytes: seq<byte>)
    requires Coherent(m) && i < |m.frames| && p < |m.disk| && FrameOf(m.frames, p).None?
    requires m.frames[i].valid ==> !m.frames[i].dirty && m.frames[i].pins == 0
    ensures Coherent(Replaced(m, i, p, dirty, bytes))
    ensures View(Replaced(m, i, p, dirty, bytes)) == View(m)[p := bytes]
    ensures View(m)[p] == m.disk[p]
  {
    var n := Replaced(m, i, p, dirty, bytes);
    assert forall j: nat, q :: Holds(n.frames, j, q) <==> if j == i then q == p else Holds(m.frames, j, q);
    assert OneFrameEach(n.frames);
    forall j | 0 <= j < |n.frames| ensures FrameOk(n, j) {
      if j != i { assert FrameOk(m, j); }
    }
    assert Holds(n.frames, i, p);
    PlaceOf(n.frames, i, p);
    forall q | 0 <= q < |m.disk| && q != p ensures ViewAt(n, q) == ViewAt(m, q) {
      ReplaceElsewhere(m, n, i, p, q);
    }
  }

  lemma ReplaceElsewhere(m: Image, n: Image, i: nat, p: nat, q: nat)
    requires Coherent(m) && Coherent(n) && i < |m.frames| == |n.frames|
    requires q < |m.disk| && q != p && n.disk == m.disk
    requires forall j: nat, r :: Holds(n.frames, j, r) <==> if j == i then r == p else Holds(m.frames, j, r)
    requires forall j :: 0 <= j < |m.data| && j != i ==> n.data[j] == m.data[j]
    requires m.frames[i].valid ==> !m.frames[i].dirty && m.frames[i].pins == 0
    ensures ViewAt(n, q) == ViewAt(m, q)
  {
    assert FrameOk(m, i);
    var at := FrameOf(m.frames, q);
    if at.Some? && at.value != i {
      assert Holds(n.frames, at.value, q);
      PlaceOf(n.frames, at.value, q);
    }
  }

  /**
   A failed read that already moved `got` bytes leaves them in the victim frame, which still
   claims to hold its old page. The view survives exactly when the frame held no page or the
   bytes moved are the ones already there.
   */
  lemma FailedRead(m: Image, i: nat, p: nat, got: nat)
    requires Coherent(m) && i < |m.frames| && p < |m.disk|
    requires m.frames[i].valid ==> !m.frames[i].dirty && m.frames[i].pins == 0
    requires got <= |m.disk[p]| && got <= |m.data[i]|
    ensures var n := m.(data := m.data[i := Blit(m.data[i], 0, m.disk[p][..got])]);
      View(n) == View(m) <==> Unharmed(m.frames[i].valid, m.data[i], m.disk[p], got)
  {
    var bytes := Blit(m.data[i], 0, m.disk[p][..got]);
    var n := m.(data := m.data[i := bytes]);
    if m.frames[i].valid {
      Poke(m, i, bytes);
      ViewResident(m, i);
      assert bytes[..got] == m.disk[p][..got];
      assert bytes == m.data[i] <==> m.disk[p][..got] == m.data[i][..got];
    } else {
      forall q | 0 <= q < |m.disk| ensures ViewAt(n, q) == ViewAt(m, q) { }
    }
  }

  /** The frame held no page, or the first `got` bytes of the page being read are those it already had. */
  predicate Unharmed(valid: bool, held: seq<byte>, page: seq<byte>, got: nat)
  {
    !valid || (got <= |held| && got <= |page| && page[..got] == held[..got])
  }

  /** One byte moved before the failure is enough: page 0 is then seen with a byte of page 1. */
  lemma FailedReadShows()
    ensures var m := Image([Frame(0, true, false, 0)], [[1, 2]], [[1, 2], [7, 8]]);
            var n := m.(data := [[7, 2]]);
      && Coherent(m) && n.data == m.data[0 := Blit(m.data[0], 0, m.disk[1][..1])]
      && View(m)[0] == [1, 2] && View(n)[0] == [7, 2]
  {
    var m := Image([Frame(0, true, false, 0)], [[1, 2]], [[1, 2], [7, 8]]);
    var n := m.(data := [[7, 2]]);
    assert Blit([1, 2], 0, [7]) == [7, 2] && m.disk[1][..1] == [7];
    assert FrameOf(m.frames, 0) == Some(0) && FrameOf(n.frames, 0) == Some(0);
    assert ViewAt(m, 0) == [1, 2] && ViewAt(n, 0) == [7, 2];
  }

  // ----- what the eviction policy is told ---------------------------------------------------

  function States(frames: seq<Frame>): (s: seq<FrameState>)
    ensures |s| == |frames|
    ensures forall i :: 0 <= i < |s| ==> s[i] == FrameState(frames[i].pageId, frames[i].valid, frames[i].pins > 0)
  {
    seq(|frames|, i requires 0 <= i < |frames| => FrameState(frames[i].pageId, frames[i].valid, frames[i].pins > 0))
  }

  /** Which frame each resident page is in. */
  ghost function Resident(frames: seq<Frame>): (r: map<nat, nat>)
    ensures forall p :: p in r <==> FrameOf(frames, p).Some?
    ensures forall p :: p in r ==> r[p] == FrameOf(frames, p).value
  {
    map p | p in (set i | 0 <= i < |frames| && frames[i].valid :: frames[i].pageId) && FrameOf(frames, p).Some?
      :: FrameOf(frames, p).value
  }

  lemma ResidentShown(frames: seq<Frame>)
    requires OneFrameEach(frames)
    ensures Placement(|frames|, Resident(frames)) && Shows(States(frames), Resident(frames))
  {
    forall i | 0 <= i < |frames| && frames[i].valid ensures FrameOf(frames, frames[i].pageId) == Some(i) {
      assert Holds(frames, i, frames[i].pageId);
      PlaceOf(frames, i, frames[i].pageId);
    }
  }

  lemma ResidentSame(a: seq<Frame>, b: seq<Frame>)
    requires |a| == |b|
    requires forall i :: 0 <= i < |a| ==> a[i].valid == b[i].valid && a[i].pageId == b[i].pageId
    ensures Resident(a) == Resident(b)
  {
    SamePlaces(a, b);
  }

  /** Evicting what frame `i` holds, if anything, and loading `p` there, as the policy records it. */
  lemma ResidentReplaced(frames: seq<Frame>, i: nat, p: nat, dirty: bool)
    requires OneFrameEach(frames) && i < |frames| && FrameOf(frames, p).None?
    ensures var rest := if frames[i].valid then Resident(frames) - {frames[i].pageId} else Resident(frames);
      && p !in rest && (forall q :: q in rest ==> rest[q] != i)
      && (frames[i].valid ==> frames[i].pageId in Resident(frames) && Resident(frames)[frames[i].pageId] == i)
      && Resident(frames[i := Frame(p, true, dirty, 1)]) == rest[p := i]
  {
    var next := frames[i := Frame(p, true, dirty, 1)];
    var rest := if frames[i].valid then Resident(frames) - {frames[i].pageId} else Resident(frames);
    if frames[i].valid {
      assert Holds(frames, i, frames[i].pageId);
      PlaceOf(frames, i, frames[i].pageId);
    }
    assert forall j: nat, q :: Holds(next, j, q) <==> if j == i then q == p else Holds(frames, j, q);
    assert OneFrameEach(next);
    assert Holds(next, i, p);
    PlaceOf(next, i, p);
    forall q | q != p ensures q in rest <==> FrameOf(next, q).Some?
                      ensures q in rest ==> rest[q] == FrameOf(next, q).value {
      var at := FrameOf(frames, q);
      if at.Some? && at.value != i {
        assert Holds(next, at.value, q);
        PlaceOf(next, at.value, q);
      }
    }
  }

  /** Once no frame is dirty or pinned, the stored pages are the view. */
  lemma AllClean(m: Image)
    requires Coherent(m)
    requires forall i :: 0 <= i < |m.frames| && m.frames[i].valid ==> !m.frames[i].dirty && m.frames[i].pins == 0
    ensures View(m) == m.disk
  {
    forall p | 0 <= p < |m.disk| ensures ViewAt(m, p) == m.disk[p] {
      var at := FrameOf(m.frames, p);
      if at.Some? { assert FrameOk(m, at.value); }
    }
  }
}
