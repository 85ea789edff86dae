/** Bytes, fixed-width unsigned integers and their little- and big-endian layouts. */
module Bytes {

  type Byte = b: int | 0 <= b < 0x100
  type U16 = n: int | 0 <= n < 0x1_0000
  type U32 = n: int | 0 <= n < 0x1_0000_0000
  type U64 = n: int | 0 <= n < 0x1_0000_0000_0000_0000
  type S32 = n: int | -0x8000_0000 <= n < 0x8000_0000

  /** The size of every receive buffer. */
  const UART_MAX_LEN := 2048

  function Pow256(n: nat): (r: nat)
    ensures r > 0
  {
    if n == 0 then 1 else 256 * Pow256(n - 1)
  }

  lemma {:induction false} Pow256Values()
    ensures Pow256(1) == 0x100 && Pow256(2) == 0x1_0000
    ensures Pow256(4) == 0x1_0000_0000
    ensures Pow256(7) == 0x100_0000_0000_0000
    ensures Pow256(8) == 0x1_0000_0000_0000_0000
  {
    assert Pow256(2) == 0x1_0000;
    assert Pow256(3) == 0x100_0000;
    assert Pow256(4) == 0x1_0000_0000;
    assert Pow256(5) == 0x100_0000_0000;
    assert Pow256(6) == 0x1_0000_0000_0000;
    assert Pow256(7) == 0x100_0000_0000_0000;
  }

  /** The n low-order bytes of v, least significant first. */
  function ToLE(v: nat, n: nat): (s: seq<Byte>)
    ensures |s| == n
  {
    if n == 0 then [] else [v % 256] + ToLE(v / 256, n - 1)
  }

  /** The n low-order bytes of v, most significant first. */
  function ToBE(v: nat, n: nat): (s: seq<Byte>)
    ensures |s| == n
  {
    if n == 0 then [] else ToBE(v / 256, n - 1) + [v % 256]
  }

  lemma {:induction false} BigBytes(n: U32)
    ensures ToBE(n, 4) == [n / 0x100_0000, n / 0x1_0000 % 256, n / 0x100 % 256, n % 256]
  {
    var a, b, c := n / 256, n / 256 / 256, n / 256 / 256 / 256;
    Quarters(n);
    assert ToBE(c, 1) == ToBE(c / 256, 0) + [c % 256];
    assert ToBE(b, 2) == ToBE(c, 1) + [b % 256];
    assert ToBE(a, 3) == ToBE(b, 2) + [a % 256];
    assert ToBE(n, 4) == ToBE(a, 3) + [n % 256];
  }

  lemma {:induction false} Quarters(n: U32)
    ensures n / 256 / 256 == n / 0x1_0000 && n / 256 / 256 / 256 == n / 0x100_0000 < 256
  {
  }

  function FromLE(s: seq<Byte>): nat {
    if s == [] then 0 else s[0] + 256 * FromLE(s[1..])
  }

  function FromBE(s: seq<Byte>): nat {
    if s == [] then 0 else 256 * FromBE(s[..|s| - 1]) + s[|s| - 1]
  }

  lemma {:induction false} LERoundTrip(v: nat, n: nat)
    requires v < Pow256(n)
    ensures FromLE(ToLE(v, n)) == v
  {
    if n == 0 {
    } else {
      LERoundTrip(v / 256, n - 1);
      assert ToLE(v, n)[1..] == ToLE(v / 256, n - 1);
    }
  }

  lemma {:induction false} BERoundTrip(v: nat, n: nat)
    requires v < Pow256(n)
    ensures FromBE(ToBE(v, n)) == v
  {
    if n == 0 {
    } else {
      BERoundTrip(v / 256, n - 1);
      assert ToBE(v, n)[..n - 1] == ToBE(v / 256, n - 1);
    }
  }

  lemma {:induction false} LEBytes(s: seq<Byte>)
    ensures FromLE(s) < Pow256(|s|)
    ensures ToLE(FromLE(s), |s|) == s
  {
    if s == [] {
    } else {
      LEBytes(s[1..]);
      assert FromLE(s) / 256 == FromLE(s[1..]) && FromLE(s) % 256 == s[0];
    }
  }

  lemma {:induction false} BEBytes(s: seq<Byte>)
    ensures FromBE(s) < Pow256(|s|)
    ensures ToBE(FromBE(s), |s|) == s
  {
    if s == [] {
    } else {
      BEBytes(s[..|s| - 1]);
      assert FromBE(s) / 256 == FromBE(s[..|s| - 1]) && FromBE(s) % 256 == s[|s| - 1];
    }
  }

  /** A 64-bit two's-complement field and its bit pattern. */
  predicate Fits64(v: int) {
    -0x8000_0000_0000_0000 <= v < 0x8000_0000_0000_0000
  }

  function Pattern64(v: int): U64
    requires Fits64(v)
  {
    if v >= 0 then v else v + 0x1_0000_0000_0000_0000
  }

  function Signed64(n: U64): (v: int)
    ensures Fits64(v) && Pattern64(v) == n
  {
    if n < 0x8000_0000_0000_0000 then n else n - 0x1_0000_0000_0000_0000
  }

  function Pattern32(v: S32): U32 {
    if v >= 0 then v else v + 0x1_0000_0000
  }

  function Signed32(n: U32): (v: S32)
    ensures Pattern32(v) == n
  {
    if n < 0x8000_0000 then n else n - 0x1_0000_0000
  }

  function Zeros(n: nat): (z: seq<Byte>)
    ensures |z| == n
    ensures forall k :: 0 <= k < n ==> z[k] == 0
  {
    seq(n, k => 0)
  }

  lemma {:induction false} ZeroLE(n: nat)
    ensures ToLE(0, n) == Zeros(n)
  {
    if n > 0 {
      ZeroLE(n - 1);
    }
  }

  /** A 64-bit radio address. */
  type Address = a: seq<Byte> | |a| == 8 witness Zeros(8)

  function Flatten<T>(parts: seq<seq<T>>): seq<T> {
    if parts == [] then [] else Flatten(parts[..|parts| - 1]) + parts[|parts| - 1]
  }

  lemma {:induction false} FlattenAppend<T>(a: seq<seq<T>>, b: seq<seq<T>>)
    ensures Flatten(a + b) == Flatten(a) + Flatten(b)
  {
    if b == [] {
      assert a + b == a;
    } else {
      FlattenAppend(a, b[..|b| - 1]);
      assert (a + b)[..|a + b| - 1] == a + b[..|b| - 1];
    }
  }

  /** orig with its first |w| bytes overwritten by w: a buffer filled from the front. */
  function Over(w: seq<Byte>, orig: seq<Byte>): (r: seq<Byte>)
    requires |w| <= |orig|
    ensures |r| == |orig|
    ensures r[..|w|] == w
  {
    w + orig[|w|..]
  }

  lemma {:induction false} OverAppend(w: seq<Byte>, orig: seq<Byte>, x: seq<Byte>)
    requires |w| + |x| <= |orig|
    ensures Over(w, orig)[..|w|] + x + Over(w, orig)[|w| + |x|..] == Over(w + x, orig)
  {
  }

  /** Overwrites dst[at..at + |s|] with s (memcpy and strcpy into a buffer). */
  method PutBytes(dst: array<Byte>, at: nat, s: seq<Byte>)
    requires at + |s| <= dst.Length
    modifies dst
    ensures dst[..] == old(dst[..at]) + s + old(dst[at + |s|..])
  {
    for k := 0 to |s|
      invariant forall j :: 0 <= j < at ==> dst[j] == old(dst[j])
      invariant forall j :: 0 <= j < k ==> dst[at + j] == s[j]
      invariant forall j :: at + k <= j < dst.Length ==> dst[j] == old(dst[j])
    {
      dst[at + k] := s[k];
    }
    assert forall j :: at <= j < at + |s| ==> dst[j] == s[j - at];
  }

  /** Moves src[from..to] to the front of src, as memmove does. */
  method MoveToFront(src: array<Byte>, from: nat, to: nat)
    requires from <= to <= src.Length
    modifies src
    ensures src[..] == old(src[from..to]) + old(src[to - from..])
  {
    for k := 0 to to - from
      invariant forall j :: 0 <= j < k ==> src[j] == old(src[from + j])
      invariant forall j :: k <= j < src.Length ==> src[j] == old(src[j])
    {
      src[k] := src[from + k];
    }
  }
}
