/**
 Bytes, 32-bit words, NUL-terminated strings and division facts, shared by the other modules.
 */
module Bytes {

  type byte = x: int | 0 <= x < 256

  const TWO32 := 0x1_0000_0000

  /** The value a C `uint32_t` holds after a computation whose exact result is n. */
  function U32(n: int): (w: int)
    ensures 0 <= w < TWO32
    ensures 0 <= n < TWO32 ==> w == n
    ensures -TWO32 <= n < 0 ==> w == n + TWO32
  {
    n % TWO32
  }

  /** The same 32 bits read as an `int32_t`. */
  function S32(w: int): (n: int)
    requires 0 <= w < TWO32
    ensures -0x8000_0000 <= n < 0x8000_0000 && U32(n) == w
  {
    if w < 0x8000_0000 then w else w - TWO32
  }

  function Min(a: int, b: int): int {
    if a <= b then a else b
  }

  function Max(a: int, b: int): int {
    if a <= b then b else a
  }

  /** The C string stored at the start of s: everything before the first NUL. */
  function CStr(s: seq<byte>): (r: seq<byte>)
    ensures |r| <= |s| && r == s[..|r|]
    ensures 0 !in r
    ensures |r| < |s| ==> s[|r|] == 0
  {
    if s == [] || s[0] == 0 then [] else [s[0]] + CStr(s[1..])
  }

  lemma {:induction false} CStrUnique(s: seq<byte>, k: nat)
    requires k <= |s| && 0 !in s[..k]
    requires k < |s| ==> s[k] == 0
    ensures CStr(s) == s[..k]
  {
    if k > 0 {
      assert s[0] == s[..k][0];
      assert s[1..][..k - 1] == s[..k][1..];
      CStrUnique(s[1..], k - 1);
    }
  }

  /** A byte as a C `char`, which is signed. */
  function SignedChar(b: byte): int {
    if b < 128 then b else b - 256
  }

  /** Two strings agree in their first n bytes or up to their ends. */
  predicate SameStart(a: seq<byte>, b: seq<byte>, n: int) {
    Min(n, |a|) == Min(n, |b|) && forall k :: 0 <= k < Min(n, |a|) ==> a[k] == b[k]
  }

  /** The length loop of strlen and ece391_strlen. */
  method Strlen(s: seq<byte>) returns (n: int)
    requires 0 in s
    ensures n == |CStr(s)|
  {
    n := 0;
    while s[n] != 0
      invariant 0 <= n <= |CStr(s)| < |s|
      decreases |s| - n
    {
      n := n + 1;
    }
  }

  // ---------------------------------------------------------------- quotients by a variable

  lemma MulAtLeast(k: int, m: int)
    requires k >= 1 && m > 0
    ensures k * m >= m
  {
  }

  lemma SameQuotient(q: int, r: int, q': int, r': int, m: int)
    requires m > 0 && 0 <= r < m && 0 <= r' < m && (q' - q) * m == r - r'
    ensures q == q'
  {
    assert (q - q') * m == -((q' - q) * m);
    if q' > q {
      MulAtLeast(q' - q, m);
    } else if q > q' {
      MulAtLeast(q - q', m);
    }
  }

  lemma DivModUnique(n: int, m: int, q: int, r: int)
    requires m > 0 && 0 <= r < m && n == q * m + r
    ensures n / m == q && n % m == r
  {
    var q', r' := n / m, n % m;
    assert n == q' * m + r';
    assert (q' - q) * m == q' * m - q * m;
    SameQuotient(q, r, q', r', m);
  }
}
