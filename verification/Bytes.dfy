/** Byte strings and the fixed-width integer encodings every wire format here is built from. */
module Bytes {

  datatype Option<+T> = None | Some(value: T)

  type byte = x: int | 0 <= x < 256

  /** 256 to the power `k`: one more than the largest `k`-byte unsigned integer. */
  function Pow256(k: nat): (p: nat)
    ensures p >= 1
  {
    if k == 0 then 1 else 256 * Pow256(k - 1)
  }

  lemma PowValues()
    ensures Pow256(1) == 0x100
    ensures Pow256(2) == 0x1_0000
    ensures Pow256(4) == 0x1_0000_0000
    ensures Pow256(6) == 0x1_0000_0000_0000
    ensures Pow256(8) == 0x1_0000_0000_0000_0000
  {
    assert Pow256(3) == 256 * Pow256(2);
    assert Pow256(5) == 256 * Pow256(4);
    assert Pow256(7) == 256 * Pow256(6);
  }

  /** `to_le_bytes`, keeping the low `k` bytes. */
  function ToLE(n: nat, k: nat): (s: seq<byte>)
    ensures |s| == k
  {
    if k == 0 then [] else [n % 256] + ToLE(n / 256, k - 1)
  }

  /** `from_le_bytes`. */
  function FromLE(s: seq<byte>): nat {
    if s == [] then 0 else s[0] + 256 * FromLE(s[1..])
  }

  /** `to_be_bytes`, keeping the low `k` bytes. */
  function ToBE(n: nat, k: nat): (s: seq<byte>)
    ensures |s| == k
  {
    if k == 0 then [] else ToBE(n / 256, k - 1) + [n % 256]
  }

  /** `from_be_bytes`. */
  function FromBE(s: seq<byte>): nat {
    if s == [] then 0 else 256 * FromBE(s[..|s| - 1]) + s[|s| - 1]
  }

  lemma {:induction false} LeRoundTrip(n: nat, k: nat)
    requires n < Pow256(k)
    ensures FromLE(ToLE(n, k)) == n
  {
    if k > 0 {
      LeRoundTrip(n / 256, k - 1);
      assert ToLE(n, k)[1..] == ToLE(n / 256, k - 1);
    }
  }

  /** A digit and the rest of a base-256 number. */
  lemma BaseDigit(t: nat, b: byte)
    ensures (256 * t + b) / 256 == t && (256 * t + b) % 256 == b
  {
  }

  lemma {:induction false} LeInverse(s: seq<byte>)
    ensures FromLE(s) < Pow256(|s|)
    ensures ToLE(FromLE(s), |s|) == s
  {
    if s != [] {
      var t := FromLE(s[1..]);
      LeInverse(s[1..]);
      BaseDigit(t, s[0]);
      assert FromLE(s) == 256 * t + s[0];
      assert ToLE(FromLE(s), |s|) == [s[0]] + ToLE(t, |s| - 1);
    }
  }

  lemma {:induction false} BeRoundTrip(n: nat, k: nat)
    requires n < Pow256(k)
    ensures FromBE(ToBE(n, k)) == n
  {
    if k > 0 {
      BeRoundTrip(n / 256, k - 1);
      assert ToBE(n, k)[..k - 1] == ToBE(n / 256, k - 1);
    }
  }

  lemma {:induction false} BeInverse(s: seq<byte>)
    ensures FromBE(s) < Pow256(|s|)
    ensures ToBE(FromBE(s), |s|) == s
  {
    if s != [] {
      var front, b := s[..|s| - 1], s[|s| - 1];
      var t := FromBE(front);
      BeInverse(front);
      BaseDigit(t, b);
      assert FromBE(s) == 256 * t + b;
      assert ToBE(FromBE(s), |s|) == ToBE(t, |s| - 1) + [b];
    }
  }

  /** Two's complement: the unsigned image of `n` in a word of `m` values. */
  function Wrap(n: int, m: nat): (u: nat)
    requires 0 <= 2 * n + m && 2 * n < m
    ensures u < m
  {
    if n < 0 then n + m else n
  }

  /** The signed reading of the unsigned word `u` of `m` values. */
  function Signed(u: nat, m: nat): (n: int)
    requires u < m && m % 2 == 0
    ensures 0 <= 2 * n + m && 2 * n < m
    ensures Wrap(n, m) == u
  {
    if 2 * u < m then u else u - m
  }

  // ---- buffers ----

  function Zeros(n: nat): (s: seq<byte>)
    ensures |s| == n
    ensures forall i :: 0 <= i < n ==> s[i] == 0
  {
    seq(n, _ => 0)
  }

  /** `buf` with `data` written over it from `at` on. */
  function Overwrite(buf: seq<byte>, at: nat, data: seq<byte>): (out: seq<byte>)
    requires at + |data| <= |buf|
    ensures |out| == |buf|
  {
    buf[..at] + data + buf[at + |data|..]
  }

  lemma OverwriteMiddle(a: seq<byte>, b: seq<byte>, c: seq<byte>, b': seq<byte>)
    requires |b'| == |b|
    ensures Overwrite(a + b + c, |a|, b') == a + b' + c
  {
  }

  // ---- quotient and remainder ----

  lemma ProductSmall(m: int, d: int)
    requires m > 0 && -m < m * d < m
    ensures d == 0
  {
  }

  lemma ModuloUnique(a: int, m: int, q: int, r: int)
    requires m > 0 && 0 <= r < m && a == m * q + r
    ensures a % m == r && a / m == q
  {
    assert m * (a / m - q) == r - a % m;
    ProductSmall(m, a / m - q);
  }
}
