/** The 64-bit byte-order helpers on a little-endian machine, as the code has them: one of the two does nothing. */
module ByteOrder {
  import opened Bytes

  function Reverse(s: seq<Byte>): (r: seq<Byte>)
    ensures |r| == |s|
    ensures forall k :: 0 <= k < |s| ==> r[k] == s[|s| - 1 - k]
  {
    seq(|s|, k requires 0 <= k < |s| => s[|s| - 1 - k])
  }

  lemma {:induction false} ReversedLoad(s: seq<Byte>)
    ensures FromLE(Reverse(s)) == FromBE(s)
  {
    if s != [] {
      var n := |s| - 1;
      ReversedLoad(s[..n]);
      assert Reverse(s)[0] == s[n] && Reverse(s)[1..] == Reverse(s[..n]);
    }
  }

  function LittleWide(s: seq<Byte>): U64
    requires |s| == 8
  {
    LEBytes(s);
    Pow256Values();
    FromLE(s)
  }

  function BigWide(s: seq<Byte>): U64
    requires |s| == 8
  {
    BEBytes(s);
    Pow256Values();
    FromBE(s)
  }

  /** A 64-bit word with its bytes in reverse. */
  function Swap64(n: U64): U64 {
    BigWide(ToLE(n, 8))
  }

  /** Swapping what a little-endian machine loads is loading big-endian. */
  lemma {:induction false} SwapLoaded(s: seq<Byte>)
    requires |s| == 8
    ensures Swap64(LittleWide(s)) == BigWide(s)
  {
    LEBytes(s);
  }

  lemma {:induction false} SwapReverses(n: U64)
    ensures ToLE(Swap64(n), 8) == Reverse(ToLE(n, 8))
  {
    ReversedLoad(ToLE(n, 8));
    LEBytes(Reverse(ToLE(n, 8)));
  }

  /** A conversion that did swap would be undone by the one that does. */
  lemma {:induction false} SwapUndone(n: U64)
    ensures Swap64(Swap64(n)) == n
  {
    var s := ToLE(n, 8);
    SwapReverses(n);
    ReversedLoad(Reverse(s));
    assert Reverse(Reverse(s)) == s;
    Pow256Values();
    LERoundTrip(n, 8);
    hide ToLE, FromLE, FromBE, Reverse;
  }

  /** Copies the bytes of src into dst back to front. */
  method ReverseInto(src: array<Byte>, dst: array<Byte>)
    requires src.Length == dst.Length == 8 && src != dst
    modifies dst
    ensures dst[..] == Reverse(src[..])
  {
    for i := 0 to 8
      invariant forall k :: 0 <= k < i ==> dst[k] == src[7 - k]
    {
      dst[i] := src[7 - i];
    }
  }

  /** htonll reverses the bytes into a second word but returns the first: its input. */
  method Htonll(n: U64) returns (r: U64)
    ensures r == n
  {
    var bytes := ToLE(n, 8);
    var src := new Byte[8](i requires 0 <= i < 8 => bytes[i]);
    var dst := new Byte[8](_ => 0);
    assert src[..] == bytes;
    ReverseInto(src, dst);
    Pow256Values();
    LERoundTrip(n, 8);
    LEBytes(src[..]);
    r := FromLE(src[..]);
  }

  /** ntohll returns the word with its bytes reversed. */
  method Ntohll(n: U64) returns (r: U64)
    ensures r == Swap64(n)
  {
    var bytes := ToLE(n, 8);
    var src := new Byte[8](i requires 0 <= i < 8 => bytes[i]);
    var dst := new Byte[8](_ => 0);
    assert src[..] == bytes;
    ReverseInto(src, dst);
    Pow256Values();
    ReversedLoad(src[..]);
    LEBytes(dst[..]);
    r := FromLE(dst[..]);
  }
}
