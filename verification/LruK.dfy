/** LRU-K replacement (src/storage/buffer/lru_k_policy.cpp). */
module LruK {
  import opened Common
  import opened Eviction

  // ----- the reference: an access log -------------------------------------------------------

  /** The times at which `page` was accessed; the first access of all has time 1. */
  function Times(log: seq<nat>, page: nat): (ts: seq<nat>)
    ensures forall i :: 0 <= i < |ts| ==> 1 <= ts[i] <= |log| && log[ts[i] - 1] == page
    ensures forall i, j :: 0 <= i < j < |ts| ==> ts[i] < ts[j]
  {
    if log == [] then []
    else
      var n := |log| - 1;
      Times(log[..n], page) + if log[n] == page then [n + 1] else []
  }

  function LastK(ts: seq<nat>, k: nat): seq<nat>
  {
    if |ts| <= k then ts else ts[|ts| - k..]
  }

  /** The time of the k-th most recent access, if there were that many: backward k-distance. */
  function KthRecent(log: seq<nat>, k: nat, page: nat): Option<nat>
  {
    var ts := Times(log, page);
    if 0 < k <= |ts| then Some(ts[|ts| - k]) else None
  }

  /**
   `p` is the better victim: fewer than k accesses (infinite backward k-distance) beats k or
   more, then the older k-th access wins; among pages short of k accesses, the older first one.
   */
  predicate Preferred(log: seq<nat>, k: nat, p: nat, q: nat)
  {
    match (KthRecent(log, k, p), KthRecent(log, k, q))
    case (None, Some(_)) => true
    case (Some(_), None) => false
    case (Some(a), Some(b)) => a < b
    case (None, None) => Times(log, p) != [] && Times(log, q) != [] && Times(log, p)[0] < Times(log, q)[0]
  }

  /** Every page that was accessed has a time, and different pages never share one. */
  lemma TimesDiffer(log: seq<nat>, p: nat, q: nat, i: nat, j: nat)
    requires p != q && i < |Times(log, p)| && j < |Times(log, q)|
    ensures Times(log, p)[i] != Times(log, q)[j]
  {
  }

  /** Preference is a strict total order on the accessed pages, so the best victim is unique. */
  lemma PreferredTotal(log: seq<nat>, k: nat, p: nat, q: nat)
    requires k >= 1 && p != q && Times(log, p) != [] && Times(log, q) != []
    ensures Preferred(log, k, p, q) != Preferred(log, k, q, p)
  {
    TimesDiffer(log, p, q, 0, 0);
    if KthRecent(log, k, p).Some? && KthRecent(log, k, q).Some? {
      TimesDiffer(log, p, q, |Times(log, p)| - k, |Times(log, q)| - k);
    }
  }

  /** Recording one more access extends that page's times and nobody else's. */
  lemma TimesExtend(log: seq<nat>, page: nat, q: nat)
    ensures Times(log + [page], q) == Times(log, q) + if q == page then [|log| + 1] else []
  {
    assert (log + [page])[..|log|] == log;
  }

  // ----- retained histories -----------------------------------------------------------------

  type Histories = map<nat, seq<nat>>

  /** The history of `p` is exactly its last min(k, accesses) access times, oldest first. */
  ghost predicate RetainsPage(h: Histories, log: seq<nat>, k: nat, p: nat)
  {
    && (p in h <==> Times(log, p) != [])
    && (p in h ==> h[p] == LastK(Times(log, p), k))
  }

  ghost predicate Retains(h: Histories, log: seq<nat>, k: nat)
  {
    forall p :: RetainsPage(h, log, k, p)
  }

  lemma LastKExtend(ts: seq<nat>, t: nat, k: nat)
    ensures LastK(LastK(ts, k) + [t], k) == LastK(ts + [t], k)
  {
  }

  lemma AccessRetains(h: Histories, log: seq<nat>, k: nat, page: nat, history: seq<nat>)
    requires Retains(h, log, k)
    requires history == LastK((if page in h then h[page] else []) + [|log| + 1], k)
    ensures Retains(h[page := history], log + [page], k)
  {
    LastKExtend(Times(log, page), |log| + 1, k);
    var h', log' := h[page := history], log + [page];
    forall q ensures RetainsPage(h', log', k, q) {
      assert RetainsPage(h, log, k, q);
      TimesExtend(log, page, q);
    }
  }

  predicate NoHistory(h: Histories, frames: seq<FrameState>, i: nat)
  {
    Evictable(frames, i) && (frames[i].pageId !in h || h[frames[i].pageId] == [])
  }

  predicate HasScore(h: Histories, k: nat, page: nat, full: bool, score: nat)
  {
    page in h && h[page] != [] && full == (|h[page]| >= k) && score == h[page][0]
  }

  predicate NotBetter(h: Histories, k: nat, page: nat, full: bool, score: nat)
  {
    && page in h && h[page] != []
    && var f := |h[page]| >= k;
       (f && !full) || (f == full && score <= h[page][0])
  }

  ghost predicate LowestWithoutHistory(h: Histories, frames: seq<FrameState>, v: nat)
  {
    NoHistory(h, frames, v) && forall i: nat :: NoHistory(h, frames, i) ==> v <= i
  }

  /** Among the first `n` frames, `v` has the given score and no evictable one has a better. */
  ghost predicate LeastScore(h: Histories, k: nat, frames: seq<FrameState>, n: nat, v: nat, full: bool, score: nat)
  {
    && v < n && Evictable(frames, v) && HasScore(h, k, frames[v].pageId, full, score)
    && forall i: nat :: i < n && Evictable(frames, i) ==> NotBetter(h, k, frames[i].pageId, full, score)
  }

  /** Comparing retained scores is comparing backward k-distances over the whole log. */
  lemma ScoreMeans(h: Histories, log: seq<nat>, k: nat, p: nat, q: nat, full: bool, score: nat)
    requires Retains(h, log, k) && k >= 1 && p != q
    requires HasScore(h, k, p, full, score) && NotBetter(h, k, q, full, score)
    ensures Preferred(log, k, p, q)
  {
    assert RetainsPage(h, log, k, p) && RetainsPage(h, log, k, q);
    var tp, tq := Times(log, p), Times(log, q);
    var ip := if full then |tp| - k else 0;
    var iq := if |h[q]| >= k then |tq| - k else 0;
    assert score == tp[ip];
    assert h[q][0] == tq[iq];
    TimesDiffer(log, p, q, ip, iq);
  }

  /** Frame `v` beats every other evictable page. */
  ghost predicate BestVictim(log: seq<nat>, k: nat, frames: seq<FrameState>, v: nat)
  {
    && Evictable(frames, v)
    && forall i: nat :: Evictable(frames, i) && frames[i].pageId != frames[v].pageId ==>
         Preferred(log, k, frames[v].pageId, frames[i].pageId)
  }

  /** Two frames that both beat all others hold the same page. */
  lemma BestVictimPages(log: seq<nat>, k: nat, frames: seq<FrameState>, v: nat, w: nat)
    requires BestVictim(log, k, frames, v) && BestVictim(log, k, frames, w)
    ensures frames[v].pageId == frames[w].pageId
  {
    assert Evictable(frames, v) && Evictable(frames, w);
  }

  /** The lowest frame that may be evicted. */
  ghost predicate LowestEvictable(frames: seq<FrameState>, v: nat)
  {
    Evictable(frames, v) && forall i: nat :: Evictable(frames, i) ==> v <= i
  }

  lemma ScoresGiveBest(h: Histories, log: seq<nat>, k: nat, frames: seq<FrameState>, v: nat, full: bool, score: nat)
    requires Retains(h, log, k) && k >= 1 && LeastScore(h, k, frames, |frames|, v, full, score)
    ensures BestVictim(log, k, frames, v)
  {
    forall i: nat | Evictable(frames, i) && frames[i].pageId != frames[v].pageId
      ensures Preferred(log, k, frames[v].pageId, frames[i].pageId)
    {
      ScoreMeans(h, log, k, frames[v].pageId, frames[i].pageId, full, score);
    }
  }

  /** The page was accessed at least once. */
  predicate Accessed(log: seq<nat>, page: nat) { Times(log, page) != [] }

  lemma StillAccessed(log: seq<nat>, page: nat, q: nat)
    ensures Accessed(log + [page], q) <==> Accessed(log, q) || q == page
  {
    TimesExtend(log, page, q);
  }

  /** Every page that may be evicted was accessed. */
  ghost predicate AllAccessed(log: seq<nat>, frames: seq<FrameState>)
  {
    forall i: nat :: Evictable(frames, i) ==> Accessed(log, frames[i].pageId)
  }

  lemma AccessedHaveHistory(h: Histories, log: seq<nat>, k: nat, frames: seq<FrameState>, i: nat)
    requires Retains(h, log, k)
    ensures k >= 1 && AllAccessed(log, frames) ==> !NoHistory(h, frames, i)
    ensures k == 0 && Evictable(frames, i) ==> NoHistory(h, frames, i)
  {
    if Evictable(frames, i) { assert RetainsPage(h, log, k, frames[i].pageId); }
  }

  // ----- the policy -------------------------------------------------------------------------

  class LruKPolicy {
    const k: nat
    var tick: nat
    var histories: Histories
    ghost var log: seq<nat>

    ghost predicate Valid()
      reads this
    {
      tick == |log| && Retains(histories, log, k)
    }

    ghost predicate Tracks(capacity: nat, resident: map<nat, nat>)
      reads this
    {
      Valid() && Placement(capacity, resident) && forall p :: p in resident ==> Accessed(log, p)
    }

    constructor (history: nat)
      ensures Valid() && k == history && log == []
    {
      k, tick, histories, log := history, 0, map[], [];
    }

    method RecordAccess(page: nat, frame: nat) returns (r: Status)
      requires Valid()
      modifies this
      ensures Valid() && r == Ok(())
      ensures log == old(log) + [page]
      ensures forall q :: Accessed(log, q) <==> Accessed(old(log), q) || q == page
    {
      tick := tick + 1;
      var history := (if page in histories then histories[page] else []) + [tick];
      ghost var pushed := history;
      while |history| > k
        invariant |history| <= |pushed| && history == pushed[|pushed| - |history|..]
        invariant |history| >= Min(k, |pushed|)
      {
        history := history[1..];
      }
      AccessRetains(histories, log, k, page, history);
      histories := histories[page := history];
      forall q ensures Accessed(log + [page], q) <==> Accessed(log, q) || q == page { StillAccessed(log, page, q); }
      log := log + [page];
      r := Ok(());
    }

    /**
     An evictable frame whose page has no retained access is taken at once, lowest frame
     first: with k = 0 the lowest evictable frame. Otherwise, so whenever every page that may be
     evicted was accessed, the victim has maximal backward k-distance.
     */
    method ChooseVictim(frames: seq<FrameState>) returns (r: Result<nat>)
      requires Valid()
      ensures r.Ok? == SomeEvictable(frames)
      ensures r.Err? ==> r.error == BufferPoolFull
      ensures r.Ok? ==> Evictable(frames, r.value)
      ensures r.Ok? && (exists i: nat :: NoHistory(histories, frames, i)) ==> LowestWithoutHistory(histories, frames, r.value)
      ensures r.Ok? && k >= 1 && !(exists i: nat :: NoHistory(histories, frames, i)) ==>
        BestVictim(log, k, frames, r.value)
      ensures r.Ok? && k >= 1 && AllAccessed(log, frames) ==> BestVictim(log, k, frames, r.value)
      ensures r.Ok? && k == 0 ==> LowestEvictable(frames, r.value)
    {
      forall i: nat ensures
        && (k >= 1 && AllAccessed(log, frames) ==> !NoHistory(histories, frames, i))
        && (k == 0 && Evictable(frames, i) ==> NoHistory(histories, frames, i))
      {
        AccessedHaveHistory(histories, log, k, frames, i);
      }
      var full, score;
      r, full, score := Rank(frames);
      if r.Ok? && k >= 1 && !(exists i: nat :: NoHistory(histories, frames, i)) {
        ScoresGiveBest(histories, log, k, frames, r.value, full, score);
      }
    }

    /** The scan itself: lowest frame without history, else the least score seen. */
    method Rank(frames: seq<FrameState>) returns (r: Result<nat>, victimFull: bool, victimScore: nat)
      ensures r.Ok? == SomeEvictable(frames)
      ensures r.Err? ==> r.error == BufferPoolFull
      ensures r.Ok? ==> Evictable(frames, r.value)
      ensures r.Ok? ==> (|| LowestWithoutHistory(histories, frames, r.value)
                         || LeastScore(histories, k, frames, |frames|, r.value, victimFull, victimScore))
    {
      var found, victim := false, 0;
      victimFull, victimScore := true, 0;
      var i := 0;
      while i < |frames|
        invariant 0 <= i <= |frames|
        invariant !found ==> forall j: nat :: j < i ==> !Evictable(frames, j)
        invariant found ==> LeastScore(histories, k, frames, i, victim, victimFull, victimScore)
        invariant forall j: nat :: j < i ==> !NoHistory(histories, frames, j)
      {
        if frames[i].valid && !frames[i].pinned {
          assert Evictable(frames, i);
          var page := frames[i].pageId;
          if page !in histories || histories[page] == [] {
            return Ok(i), victimFull, victimScore;
          }
          var full := |histories[page]| >= k;
          var score := histories[page][0];
          if !found {
            found, victim, victimFull, victimScore := true, i, full, score;
          } else if !full && victimFull {
            victim, victimFull, victimScore := i, full, score;
          } else if full == victimFull && score < victimScore {
            victim, victimScore := i, score;
          }
        }
        i := i + 1;
      }
      r := if found then Ok(victim) else Err(BufferPoolFull);
    }
  }
}
