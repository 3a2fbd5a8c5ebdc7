/** A byte file seen as a sequence of fixed-size pages. */
module PageFile {
  import opened Common

  /** Page `p` ends inside a file of at least `p + 1` pages. */
  lemma PageInside(len: nat, size: nat, p: nat)
    requires size > 0 && p < len / size
    ensures 0 <= p * size <= p * size + size <= len
  {
    assert (p + 1) * size <= (len / size) * size;
  }

  lemma PagesApart(p: nat, q: nat, size: nat)
    requires p < q
    ensures p * size + size <= q * size
  {
    assert (p + 1) * size <= q * size;
  }

  function PageAt(data: seq<byte>, size: nat, p: nat): (pg: seq<byte>)
    requires size > 0 && p < |data| / size
    ensures |pg| == size
  {
    PageInside(|data|, size, p);
    data[p * size..p * size + size]
  }

  /** The whole pages of a file, in order. */
  function PagesOf(data: seq<byte>, size: nat): (pages: seq<seq<byte>>)
    requires size > 0
    ensures |pages| == |data| / size
    ensures forall p :: 0 <= p < |pages| ==> pages[p] == PageAt(data, size, p) && |pages[p]| == size
  {
    seq(|data| / size, p requires 0 <= p < |data| / size => PageAt(data, size, p))
  }

  lemma PagePrefix(data: seq<byte>, size: nat, p: nat, n: nat)
    requires size > 0 && p < |data| / size && n <= size
    ensures 0 <= p * size && p * size + n <= |data|
    ensures PagesOf(data, size)[p][..n] == data[p * size..p * size + n]
  {
    PageInside(|data|, size, p);
  }

  /** Overwriting the start of one page leaves every other page alone. */
  lemma PatchPage(data: seq<byte>, size: nat, p: nat, patch: seq<byte>)
    requires size > 0 && p < |data| / size && |patch| <= size
    ensures 0 <= p * size && p * size + |patch| <= |data|
    ensures PagesOf(Blit(data, p * size, patch), size)
         == PagesOf(data, size)[p := Blit(PageAt(data, size, p), 0, patch)]
  {
    PageInside(|data|, size, p);
    var r := Blit(data, p * size, patch);
    var want := PagesOf(data, size)[p := Blit(PageAt(data, size, p), 0, patch)];
    forall q | 0 <= q < |want| ensures PagesOf(r, size)[q] == want[q] {
      PageInside(|data|, size, q);
      if q < p { PagesApart(q, p, size); }
      if p < q { PagesApart(p, q, size); }
    }
  }

  /** Extending a whole number of pages by one zeroed page appends that page. */
  lemma AppendPage(data: seq<byte>, size: nat)
    requires size > 0 && |data| % size == 0
    ensures |data + Zeros(size)| == (|data| / size + 1) * size
    ensures |data + Zeros(size)| % size == 0
    ensures PagesOf(data + Zeros(size), size) == PagesOf(data, size) + [Zeros(size)]
  {
    var n := |data| / size;
    var r := data + Zeros(size);
    assert |data| == n * size;
    assert |r| == (n + 1) * size;
    WholePages(n + 1, size);
    forall q | 0 <= q < n ensures PagesOf(r, size)[q] == PagesOf(data, size)[q] {
      PageInside(|data|, size, q);
    }
    assert PageAt(r, size, n) == Zeros(size);
  }

  lemma WholePages(n: nat, size: nat)
    requires size > 0
    ensures (n * size) / size == n && (n * size) % size == 0
  {
    if n > 0 { WholePages(n - 1, size); AddOnePage((n - 1) * size, size); assert n * size == (n - 1) * size + size; }
  }

  lemma AddOnePage(x: nat, size: nat)
    requires size > 0
    ensures (x + size) / size == x / size + 1 && (x + size) % size == x % size
  {
    var q, m := x / size, x % size;
    assert x + size == (q + 1) * size + m;
    DivModUnique(x + size, size, q + 1, m);
  }

  lemma DivModUnique(x: nat, size: nat, q: nat, m: nat)
    requires size > 0 && x == q * size + m && m < size
    ensures x / size == q && x % size == m
  {
    var a, b := x / size, x % size;
    assert x == a * size + b;
    if a < q { PagesApart(a, q, size); }
    if q < a { PagesApart(q, a, size); }
  }
}
