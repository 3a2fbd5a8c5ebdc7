/** Bytes, error codes and the small amount of sequence algebra every layer shares. */
module Common {

  type byte = x: int | 0 <= x < 256

  const U16_MAX: int := 0xFFFF
  const U64_MAX: int := 0xFFFF_FFFF_FFFF_FFFF

  datatype Option<+T> = None | Some(value: T)

  datatype Error =
    | InvalidArgument
    | OutOfMemory
    | NotFound
    | AlreadyExists
    | Overflow
    | Corruption
    | IoError
    | PageNotFound
    | BufferPoolFull
    | TypeNotFound
    | ParseError
    | AnalyzerError
    | ExecutorError

  /** What the page store reports: failed calls, damaged or missing pages, sizes out of range. */
  predicate StorageError(e: Error) { e in {IoError, Corruption, PageNotFound, Overflow} }

  datatype Result<+T> = Ok(value: T) | Err(error: Error)

  type Status = Result<()>

  function Min(a: int, b: int): int { if a <= b then a else b }

  function Max(a: int, b: int): int { if a >= b then a else b }

  /** `n` zero bytes. */
  function Zeros(n: nat): (s: seq<byte>)
    ensures |s| == n
    ensures forall i :: 0 <= i < n ==> s[i] == 0
  {
    seq(n, _ => 0)
  }

  /** `s` with the bytes starting at `at` replaced by `patch`; the length is unchanged. */
  function Blit(s: seq<byte>, at: nat, patch: seq<byte>): (r: seq<byte>)
    requires at + |patch| <= |s|
    ensures |r| == |s|
    ensures forall i :: 0 <= i < |s| ==> r[i] == if at <= i < at + |patch| then patch[i - at] else s[i]
  {
    s[..at] + patch + s[at + |patch|..]
  }

  /** The patched range reads back as the patch. */
  lemma BlitReadBack(s: seq<byte>, at: nat, patch: seq<byte>)
    requires at + |patch| <= |s|
    ensures Blit(s, at, patch)[at..at + |patch|] == patch
  {
  }

  lemma SliceLeft<T>(a: seq<T>, b: seq<T>, lo: nat, hi: nat)
    requires lo <= hi <= |a|
    ensures (a + b)[lo..hi] == a[lo..hi]
  {
  }

  // ----- little-endian integers -------------------------------------------------------------

  function LeBytes(v: nat, n: nat): (r: seq<byte>)
    ensures |r| == n
  {
    if n == 0 then [] else [v % 256] + LeBytes(v / 256, n - 1)
  }

  function LeValue(s: seq<byte>): nat
  {
    if s == [] then 0 else s[0] as int + 256 * LeValue(s[1..])
  }

  function Pow256(n: nat): (r: nat) ensures r > 0 { if n == 0 then 1 else 256 * Pow256(n - 1) }

  /** The least significant byte comes first: byte k counts 256^k. */
  lemma {:induction false} LeDigit(v: nat, n: nat, k: nat)
    requires k < n
    ensures LeBytes(v, n)[k] as int == v / Pow256(k) % 256
  {
    if k > 0 {
      LeDigit(v / 256, n - 1, k - 1);
      DivideTwice(v, 256, Pow256(k - 1));
    }
  }

  lemma DivideTwice(v: nat, a: nat, b: nat)
    requires a > 0 && b > 0
    ensures a * b > 0 && v / a / b == v / (a * b)
  {
    var q, r, s := v / a / b, v / a % b, v % a;
    Regroup(a, b, q, r);
    Below(a, b, r, s);
    Quotient(v, a * b, q, r * a + s);
  }

  lemma Regroup(a: nat, b: nat, q: nat, r: nat)
    ensures a * (b * q + r) == q * (a * b) + r * a
  {
  }

  lemma Below(a: nat, b: nat, r: nat, s: nat)
    requires r < b && s < a
    ensures 0 <= r * a + s < a * b
  {
    NextMultiple(r, b, a);
  }

  lemma Quotient(v: nat, d: nat, q: nat, r: nat)
    requires d > 0 && v == q * d + r && r < d
    ensures v / d == q
  {
    var w := v / d;
    assert v == w * d + v % d;
    if w < q { NextMultiple(w, q, d); }
    if q < w { NextMultiple(q, w, d); }
  }

  lemma NextMultiple(a: nat, b: nat, n: nat)
    requires a < b
    ensures a * n + n <= b * n
  {
    TimesOrdered(a + 1, b, n);
    assert (a + 1) * n == a * n + n;
  }

  lemma TimesOrdered(a: nat, b: nat, n: nat)
    requires a <= b
    ensures a * n <= b * n
  {
    assert b * n == a * n + (b - a) * n;
  }

  lemma {:induction false} ZeroBytes(n: nat)
    ensures LeBytes(0, n) == Zeros(n)
  {
    if n > 0 { ZeroBytes(n - 1); }
  }

  /** Writing an n-byte number and reading it back is reduction modulo 256^n. */
  lemma {:induction false} LeRoundTrip(v: nat, n: nat)
    requires v < Pow256(n)
    ensures LeValue(LeBytes(v, n)) == v
  {
    if n > 0 {
      LeRoundTrip(v / 256, n - 1);
      assert LeBytes(v, n)[1..] == LeBytes(v / 256, n - 1);
    }
  }
}
