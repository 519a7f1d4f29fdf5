/** The integer columns of the object mapper (codechiev/db/orm.h). */
module Fields {
  import opened Runs
  import opened ByteOrder

  /** C++ conversion between signed and unsigned integers of the same width w = 2^bits. */
  function Unsigned(v: int, w: nat): nat
    requires 0 <= v + w && v < w
  {
    if v < 0 then v + w else v
  }

  function Signed(u: nat, w: nat): int
    requires u < w
  {
    if u >= w / 2 then u - w else u
  }

  /** Big-endian two's complement in n bytes. */
  function TwosComplement(v: int, n: nat): seq<Byte>
    requires 0 <= v + Pow256(n) && v < Pow256(n)
  {
    ToBE(Unsigned(v, Pow256(n)), n)
  }

  /** Storing a column value and reading it back restores it, negative ones included; what is
      stored is the value itself or, if it is negative, the value plus 256 to the n. */
  lemma ColumnRoundTrip(v: int, n: nat)
    requires n > 0 && 0 <= v + Pow256(n) / 2 && v < Pow256(n) / 2
    ensures FromBE(TwosComplement(v, n)) < Pow256(n)
    ensures FromBE(TwosComplement(v, n)) == v + (if v < 0 then Pow256(n) else 0)
    ensures Signed(FromBE(TwosComplement(v, n)), Pow256(n)) == v
  {
    FromToBE(Unsigned(v, Pow256(n)), n);
    assert Pow256(n) == 256 * Pow256(n - 1);
  }

  class Field32 {
    const host: Endian
    var t: int
    var netval: nat

    ghost predicate Valid()
      reads this
    {
      -0x8000_0000 <= t < 0x8000_0000
    }

    constructor (e: Endian)
      ensures Valid() && t == 0 && host == e
    {
      host, t, netval := e, 0, 0;
    }

    method GetNetValue() returns (bytes: seq<Byte>)
      requires Valid()
      modifies this`netval
      ensures Pow256(4) == W32 && bytes == TwosComplement(t, 4)
    {
      Widths();
      netval := Swap32(host, Unsigned(t, W32));
      Network32(host, Unsigned(t, W32));
      bytes := Store(host, netval, 4);
    }

    /** A null pointer leaves the field alone; any other is read as four bytes. */
    method ToField(ptr: Option<seq<Byte>>)
      requires Valid() && (ptr.Some? ==> |ptr.value| >= 4)
      modifies this`t
      ensures Valid()
      ensures ptr.None? ==> t == old(t)
      ensures ptr.Some? ==> FromBE(ptr.value[..4]) < W32 && t == Signed(FromBE(ptr.value[..4]), W32)
    {
      if ptr.Some? {
        Reading32(host, ptr.value[..4]);
        t := Signed(Swap32(host, Load(host, ptr.value[..4])), W32);
      }
    }
  }

  class Field64 {
    const host: Endian
    var t: int
    var netval: nat

    ghost predicate Valid()
      reads this
    {
      -0x8000_0000_0000_0000 <= t < 0x8000_0000_0000_0000
    }

    constructor (e: Endian)
      ensures Valid() && t == 0 && host == e
    {
      host, t, netval := e, 0, 0;
    }

    method GetNetValue() returns (bytes: seq<Byte>)
      requires Valid()
      modifies this`netval
      ensures Pow256(8) == W64 && bytes == TwosComplement(t, 8)
    {
      Widths();
      netval := Swap64(host, Unsigned(t, W64));
      Network64(host, Unsigned(t, W64));
      bytes := Store(host, netval, 8);
    }

    method ToField(ptr: Option<seq<Byte>>)
      requires Valid() && (ptr.Some? ==> |ptr.value| >= 8)
      modifies this`t
      ensures Valid()
      ensures ptr.None? ==> t == old(t)
      ensures ptr.Some? ==> FromBE(ptr.value[..8]) < W64 && t == Signed(FromBE(ptr.value[..8]), W64)
    {
      if ptr.Some? {
        Reading64(host, ptr.value[..8]);
        t := Signed(Swap64(host, Load(host, ptr.value[..8])), W64);
      }
    }
  }

  /** A column written by one host and read back by another, or the same: the value arrives. */
  method CarryColumn32(from: Field32, to: Field32)
    requires from.Valid() && to.Valid()
    modifies from`netval, to`t
    ensures to.Valid() && to.t == from.t == old(from.t)
  {
    var bytes := from.GetNetValue();
    ColumnRoundTrip(from.t, 4);
    to.ToField(Some(bytes));
    assert bytes[..4] == bytes;
  }

  method CarryColumn64(from: Field64, to: Field64)
    requires from.Valid() && to.Valid()
    modifies from`netval, to`t
    ensures to.Valid() && to.t == from.t == old(from.t)
  {
    var bytes := from.GetNetValue();
    ColumnRoundTrip(from.t, 8);
    to.ToField(Some(bytes));
    assert bytes[..8] == bytes;
  }
}
