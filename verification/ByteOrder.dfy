/** Byte order (codechiev/net/Internet.h) on a host of either endianness. */
module ByteOrder {
  type Byte = b: int | 0 <= b < 256

  datatype Endian = Little | Big

  const W32 := 0x1_0000_0000
  const W64 := 0x1_0000_0000_0000_0000

  /** The n low bytes of v, most significant first. */
  function ToBE(v: nat, n: nat): (bs: seq<Byte>)
    ensures |bs| == n
  {
    if n == 0 then [] else ToBE(v / 256, n - 1) + [v % 256]
  }

  function FromBE(bs: seq<Byte>): nat {
    if |bs| == 0 then 0 else FromBE(bs[..|bs| - 1]) * 256 + bs[|bs| - 1]
  }

  function Pow256(n: nat): nat {
    if n == 0 then 1 else 256 * Pow256(n - 1)
  }

  lemma {:induction false} FromToBE(v: nat, n: nat)
    requires v < Pow256(n)
    ensures FromBE(ToBE(v, n)) == v
  {
    if n > 0 {
      assert v / 256 < Pow256(n - 1);
      FromToBE(v / 256, n - 1);
      assert ToBE(v, n)[..n - 1] == ToBE(v / 256, n - 1);
    }
  }

  lemma {:induction false} ToFromBE(bs: seq<Byte>)
    ensures FromBE(bs) < Pow256(|bs|)
    ensures ToBE(FromBE(bs), |bs|) == bs
  {
    if |bs| > 0 {
      ToFromBE(bs[..|bs| - 1]);
      assert FromBE(bs) / 256 == FromBE(bs[..|bs| - 1]);
      assert bs == bs[..|bs| - 1] + [bs[|bs| - 1]];
    }
  }

  lemma Widths()
    ensures Pow256(4) == W32 && Pow256(8) == W64
  {
    assert Pow256(2) == 0x1_0000;
    assert Pow256(4) == 256 * (256 * Pow256(2));
    assert Pow256(6) == 256 * (256 * Pow256(4));
    assert Pow256(8) == 256 * (256 * Pow256(6));
  }

  lemma DivTwice(v: nat, p: nat)
    requires p > 0
    ensures v / 256 / p == v / (256 * p)
  {
    var q, r := v / 256 / p, v / 256 % p;
    assert v == (q * p + r) * 256 + v % 256;
    assert v == q * (256 * p) + (r * 256 + v % 256);
    QuotientIs(v, 256 * p, q, r * 256 + v % 256);
  }

  lemma QuotientIs(v: nat, d: nat, q: nat, r: nat)
    requires v == q * d + r && r < d
    ensures v / d == q
  {
    var q', r' := v / d, v % d;
    assert v == q' * d + r';
    Distribute(q', q, d);
    Multiple(q' - q, d);
  }

  lemma Distribute(a: int, b: int, d: int)
    ensures a * d - b * d == (a - b) * d
  {
  }

  lemma Multiple(k: int, d: int)
    requires d >= 0
    ensures k >= 1 ==> k * d >= d
    ensures k <= -1 ==> k * d <= -d
  {
    if k >= 1 {
      assert k * d == (k - 1) * d + d && (k - 1) * d >= 0;
    } else if k <= -1 {
      assert k * d == (k + 1) * d - d && (-k - 1) * d >= 0;
    }
  }

  /** Network order: byte i of n has the weight 256 to the n - 1 - i. */
  lemma {:induction false} BigEndian(v: nat, n: nat, i: nat)
    requires i < n
    ensures Pow256(n - 1 - i) > 0 && ToBE(v, n)[i] == v / Pow256(n - 1 - i) % 256
  {
    if i < n - 1 {
      BigEndian(v / 256, n - 1, i);
      DivTwice(v, Pow256(n - 2 - i));
      assert ToBE(v, n)[i] == ToBE(v / 256, n - 1)[i];
    }
  }

  function Reverse<T>(s: seq<T>): (r: seq<T>)
    ensures |r| == |s| && forall i :: 0 <= i < |s| ==> r[i] == s[|s| - 1 - i]
  {
    if |s| == 0 then [] else Reverse(s[1..]) + [s[0]]
  }

  /** An unsigned integer of n bytes in the memory of the host, and back. */
  function Store(host: Endian, v: nat, n: nat): seq<Byte> {
    if host.Big? then ToBE(v, n) else Reverse(ToBE(v, n))
  }

  function Load(host: Endian, bs: seq<Byte>): nat {
    if host.Big? then FromBE(bs) else FromBE(Reverse(bs))
  }

  lemma {:induction false} LoadStore(host: Endian, v: nat, n: nat)
    requires v < Pow256(n)
    ensures Load(host, Store(host, v, n)) == v
  {
    FromToBE(v, n);
    assert Reverse(Reverse(ToBE(v, n))) == ToBE(v, n);
  }

  /** htonl and ntohl of the C library: the identity on a big-endian host, else a byte swap. */
  function Swap32(host: Endian, v: nat): nat {
    if host.Big? then v else FromBE(Reverse(ToBE(v, 4)))
  }

  /** htonll and ntohll: one expression, built from two 32-bit swaps; the halves it combines
      with "or" have no bits in common. */
  function Swap64(host: Endian, v: nat): nat {
    if Swap32(host, 1) == 1 then v
    else Swap32(host, v % W32) * W32 + Swap32(host, v / W32)
  }

  lemma HostTest(host: Endian)
    ensures Swap32(host, 1) == 1 <==> host.Big?
  {
    hide Reverse;
    if host.Little? {
      var one: seq<Byte> := [0, 0, 0, 1];
      assert ToBE(1, 4) == one by {
        assert ToBE(0, 1) == [0] && ToBE(0, 2) == [0, 0] && ToBE(0, 3) == [0, 0, 0];
      }
      var r: seq<Byte> := [1, 0, 0, 0];
      assert Reverse(one) == r;
      assert r[..3] == [1, 0, 0] && r[..3][..2] == [1, 0] && r[..3][..2][..1] == [1];
      assert FromBE(r) == ((FromBE([1]) * 256 + 0) * 256 + 0) * 256 + 0;
      assert FromBE([1]) == 1;
    }
  }

  /** What is in memory after the conversion is the value in network order, on either host. */
  lemma Network32(host: Endian, v: nat)
    requires v < W32
    ensures Store(host, Swap32(host, v), 4) == ToBE(v, 4)
    ensures Swap32(host, v) < W32 && Swap32(host, Swap32(host, v)) == v
  {
    Widths();
    var bs := ToBE(v, 4);
    FromToBE(v, 4);
    ToFromBE(Reverse(bs));
    assert Reverse(Reverse(bs)) == bs;
  }

  lemma TimesPow256(x: nat, n: nat)
    requires n > 0
    ensures x * Pow256(n) == x * Pow256(n - 1) * 256
  {
  }

  /** The n + 4 bytes of a number are the four of its high part, then the n of its low part. */
  lemma {:induction false} SplitBE(hi: nat, lo: nat, n: nat)
    requires lo < Pow256(n)
    ensures ToBE(hi * Pow256(n) + lo, n + 4) == ToBE(hi, 4) + ToBE(lo, n)
  {
    if n == 0 {
      assert ToBE(hi, 4) + ToBE(lo, 0) == ToBE(hi, 4);
    } else {
      var rest := hi * Pow256(n - 1);
      TimesPow256(hi, n);
      PeelBE(rest * 256 + lo, lo, rest, n);
      hide ToBE;
      assert lo / 256 < Pow256(n - 1);
      SplitBE(hi, lo / 256, n - 1);
      assert ToBE(rest * 256 + lo, n + 4) == (ToBE(hi, 4) + ToBE(lo / 256, n - 1)) + [lo % 256];
    }
  }

  lemma PeelBE(v: nat, lo: nat, rest: nat, n: nat)
    requires n > 0 && v == rest * 256 + lo
    ensures v / 256 == rest + lo / 256
    ensures ToBE(v, n + 4) == ToBE(v / 256, n + 3) + [v % 256]
    ensures v % 256 == lo % 256 && ToBE(lo, n) == ToBE(lo / 256, n - 1) + [lo % 256]
  {
  }

  lemma Network64(host: Endian, v: nat)
    requires v < W64
    ensures Store(host, Swap64(host, v), 8) == ToBE(v, 8)
    ensures Swap64(host, v) < W64
  {
    hide ToBE, FromBE, Reverse;
    HostTest(host);
    if host.Little? {
      var hi, lo := v / W32, v % W32;
      Network32(host, hi);
      Network32(host, lo);
      Widths();
      SplitBE(hi, lo, 4);
      SplitBE(Swap32(host, lo), Swap32(host, hi), 4);
      assert Reverse(Reverse(ToBE(lo, 4)) + Reverse(ToBE(hi, 4))) == ToBE(hi, 4) + ToBE(lo, 4);
      assert Reverse(Reverse(ToBE(lo, 4))) == ToBE(lo, 4) && Reverse(Reverse(ToBE(hi, 4))) == ToBE(hi, 4);
    }
  }

  /** Converting to network order, storing, loading and converting back restores every value. */
  lemma RoundTrip64(host: Endian, v: nat)
    requires v < W64
    ensures Swap64(host, Load(host, Store(host, Swap64(host, v), 8))) == v
  {
    Network64(host, v);
    Widths();
    LoadStore(host, Swap64(host, v), 8);
    HostTest(host);
    if host.Little? {
      var hi, lo := v / W32, v % W32;
      Network32(host, hi);
      Network32(host, lo);
      var n := Swap64(host, v);
      assert n / W32 == Swap32(host, lo) && n % W32 == Swap32(host, hi);
    }
  }

  /** What a receiver makes of bytes in network order, on either host. */
  lemma Reading32(host: Endian, bytes: seq<Byte>)
    requires |bytes| == 4
    ensures Load(host, bytes) < W32 && FromBE(bytes) < W32
    ensures Swap32(host, Load(host, bytes)) == FromBE(bytes)
  {
    hide ToBE, FromBE, Reverse;
    Widths();
    ToFromBE(bytes);
    ToFromBE(Reverse(bytes));
    assert Reverse(Reverse(bytes)) == bytes;
  }

  lemma Reading64(host: Endian, bytes: seq<Byte>)
    requires |bytes| == 8
    ensures FromBE(bytes) < W64
    ensures Swap64(host, Load(host, bytes)) == FromBE(bytes)
  {
    Widths();
    ToFromBE(bytes);
    var v := FromBE(bytes);
    Network64(host, v);
    RoundTrip64(host, v);
    assert Store(host, Swap64(host, v), 8) == bytes;
  }
}
