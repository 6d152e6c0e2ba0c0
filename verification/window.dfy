// The readable contents of a ring buffer, viewed abstractly: a run of bytes
// that starts at some index of the backing region and continues round its end
// back to index 0.

module Window {
  import opened Bits

  type byte = bv8

  /** n zero bytes, what Go's `make([]byte, n)` holds. */
  function Zeros(n: nat): (z: seq<byte>)
    ensures |z| == n && forall i :: 0 <= i < n ==> z[i] == 0
  {
    seq(n, _ => 0)
  }

  lemma ZerosSplit(a: nat, b: nat)
    ensures Zeros(a + b) == Zeros(a) + Zeros(b)
  {
  }

  /** An index that has run past the end of a region of length m, brought back once. */
  function Wrap(x: int, m: int): (y: int)
    requires m > 0 && 0 <= x < 2 * m
    ensures 0 <= y < m
  {
    if x < m then x else x - m
  }

  /** Bringing an index back once is reduction modulo the region length. */
  lemma WrapIsMod(x: int, m: int)
    requires m > 0 && 0 <= x < 2 * m
    ensures Wrap(x, m) == x % m
  {
    if x < m {
      ModUnique(x, m, 0, x);
    } else {
      ModUnique(x, m, 1, x - m);
    }
  }

  /** Two indices less than a region length apart wrap to different positions. */
  lemma WrapInjective(x: int, y: int, m: int)
    requires m > 0 && 0 <= x <= y < x + m && y < 2 * m
    requires Wrap(x, m) == Wrap(y, m)
    ensures x == y
  {
  }

  /** The len bytes of b that start at index s and continue cyclically. */
  function Ring(b: seq<byte>, s: int, len: int): (q: seq<byte>)
    requires 0 <= len <= |b| && (len == 0 || 0 <= s < |b|)
    ensures |q| == len
  {
    seq(len, i requires 0 <= i < len => b[Wrap(s + i, |b|)])
  }

  /** Byte i of the run is the byte at index s + i of b, taken modulo its length. */
  lemma RingAt(b: seq<byte>, s: int, len: int, i: int)
    requires 0 <= len <= |b| && (len == 0 || 0 <= s < |b|)
    requires 0 <= i < len
    ensures Ring(b, s, len)[i] == b[(s + i) % |b|]
  {
    WrapIsMod(s + i, |b|);
  }

  /**
   * The cyclic run is one slice of b when it stops at or before the end of b,
   * and otherwise the slice up to the end followed by a slice from index 0.
   */
  lemma RingSplit(b: seq<byte>, s: int, len: int)
    requires 0 <= len <= |b| && 0 <= s < |b|
    ensures s + len <= |b| ==> Ring(b, s, len) == b[s..s + len]
    ensures s + len > |b| ==> Ring(b, s, len) == b[s..] + b[..s + len - |b|]
  {
    var q := Ring(b, s, len);
    var t := if s + len <= |b| then b[s..s + len] else b[s..] + b[..s + len - |b|];
    assert |t| == len;
    forall i | 0 <= i < len ensures q[i] == t[i] {
      if i < |b| - s {
        assert t[i] == b[s + i];
        assert Wrap(s + i, |b|) == s + i;
      } else {
        assert t[i] == b[s + i - |b|];
        assert Wrap(s + i, |b|) == s + i - |b|;
      }
    }
    assert q == t;
  }

  /** A run of L + K bytes is the run of L bytes followed by the K bytes after it. */
  lemma RingConcat(b: seq<byte>, s: int, L: int, K: int)
    requires 0 <= s < |b| && 0 <= L && 0 <= K && L + K <= |b|
    ensures Ring(b, s, L + K) == Ring(b, s, L) + Ring(b, Wrap(s + L, |b|), K)
  {
    var m := |b|;
    var whole, front, back := Ring(b, s, L + K), Ring(b, s, L), Ring(b, Wrap(s + L, m), K);
    forall i | 0 <= i < L + K ensures whole[i] == (front + back)[i] {
      if i >= L {
        assert back[i - L] == b[Wrap(Wrap(s + L, m) + (i - L), m)];
        assert Wrap(Wrap(s + L, m) + (i - L), m) == Wrap(s + i, m);
      }
    }
  }

  /** Dropping the first k bytes of a run leaves the run that starts k places later. */
  lemma RingDrop(b: seq<byte>, s: int, len: int, k: int)
    requires 0 <= s < |b| && 0 <= k <= len <= |b|
    ensures Ring(b, s, len)[k..] == Ring(b, Wrap(s + k, |b|), len - k)
    ensures Ring(b, s, len)[..k] == Ring(b, s, k)
  {
    RingConcat(b, s, k, len - k);
  }
}
