/** The fixed-size byte buffer with two cursors and a NUL sentinel (codechiev/base/FixedBuffer.h). */
module FixedBuffers {
  import opened ByteOrder
  import opened CStrings

  /** What the buffer means: a queue of bytes of which size - 1 fit, minus those already read
      and not yet moved away. */
  datatype Buffer = Buffer(size: nat, reader: nat, bytes: seq<Byte>)

  predicate WellFormed(b: Buffer) {
    b.reader + |b.bytes| < b.size
  }

  function Room(b: Buffer): int {
    b.size - 1 - b.reader - |b.bytes|
  }

  /** How many of len bytes append takes. */
  function Accepted(b: Buffer, len: int): int {
    if len <= 0 then 0 else if len <= Room(b) then len else Room(b)
  }

  function Appended(b: Buffer, data: seq<Byte>): Buffer
    requires WellFormed(b)
  {
    b.(bytes := b.bytes + data[..Accepted(b, |data|)])
  }

  function AfterRead(b: Buffer, n: nat): Buffer
    requires n <= |b.bytes|
  {
    b.(reader := b.reader + n, bytes := b.bytes[n..])
  }

  function Moved(b: Buffer): Buffer {
    b.(reader := 0)
  }

  function Cleared(b: Buffer): Buffer {
    b.(reader := 0, bytes := [])
  }

  /** Two appends in a row take what one append of both takes, so how a burst is cut into reads
      does not matter, even when the buffer overflows. */
  lemma AppendTwice(b: Buffer, x: seq<Byte>, y: seq<Byte>)
    requires WellFormed(b)
    ensures WellFormed(Appended(b, x)) && Appended(Appended(b, x), y) == Appended(b, x + y)
  {
    if |x| <= Room(b) {
      assert (x + y)[..Accepted(b, |x + y|)] == x + y[..Accepted(Appended(b, x), |y|)];
    } else {
      assert (x + y)[..Room(b)] == x[..Room(b)];
    }
  }

  /** append takes all of what fits behind the content, and of anything longer the part that fills
      the buffer: one byte of it stays for the sentinel. */
  lemma AppendOutcome(b: Buffer, data: seq<Byte>)
    requires WellFormed(b)
    ensures var b' := Appended(b, data);
            && b'.reader == b.reader && b'.size == b.size && b.bytes <= b'.bytes <= b.bytes + data
            && (if b.reader + |b.bytes| + |data| < b.size then b'.bytes == b.bytes + data
                else b'.reader + |b'.bytes| == b.size - 1)
  {
    assert data[..|data|] == data;
  }

  class FixedBuffer {
    const size: nat
    const buffer: array<Byte>
    var reader: int
    var writer: int

    ghost predicate Valid()
      reads this, buffer
    {
      buffer.Length == size && 0 <= reader <= writer < size && buffer[writer] == 0
    }

    function View(): Buffer
      requires Valid()
      reads this, buffer
    {
      Buffer(size, reader, buffer[reader..writer])
    }

    constructor (n: nat)
      requires n > 0
      ensures Valid() && fresh(buffer) && size == n && View() == Buffer(n, 0, [])
    {
      size, reader, writer := n, 0, 0;
      buffer := new Byte[n](i => 0);
    }

    function Readable(): (n: int)
      requires Valid()
      reads this, buffer
      ensures n == |View().bytes|
    {
      writer - reader
    }

    function Writable(): (n: int)
      requires Valid()
      reads this, buffer
      ensures n == Room(View()) && n >= 0
    {
      size - 1 - writer
    }

    /** str()[k]: the sentinel follows the content. */
    function ByteAt(k: nat): (b: Byte)
      requires Valid() && k <= |View().bytes|
      reads this, buffer
      ensures b == if k < |View().bytes| then View().bytes[k] else 0
    {
      buffer[reader + k]
    }

    /** The bytes str()[from..to]. */
    function Slice(from: nat, to: nat): (bs: seq<Byte>)
      requires Valid() && from <= to <= |View().bytes|
      reads this, buffer
      ensures bs == View().bytes[from..to]
    {
      buffer[reader..writer][from..to]
    }

    /** memcpy of data[..n] to the end of the content. */
    method CopyIn(data: seq<Byte>, n: nat)
      requires Valid() && n <= |data| && writer + n < size
      modifies buffer
      ensures forall k :: 0 <= k < writer ==> buffer[k] == old(buffer[k])
      ensures forall k :: 0 <= k < n ==> buffer[writer + k] == data[k]
    {
      var i := 0;
      while i < n
        invariant 0 <= i <= n
        invariant forall k :: 0 <= k < writer ==> buffer[k] == old(buffer[k])
        invariant forall k :: 0 <= k < i ==> buffer[writer + k] == data[k]
      {
        buffer[writer + i] := data[i];
        i := i + 1;
      }
    }

    method Write(len: nat)
      requires buffer.Length == size && 0 <= reader <= writer && writer + len < size
      modifies this`writer, buffer
      ensures Valid() && writer == old(writer) + len
      ensures forall k :: 0 <= k < size && k != writer ==> buffer[k] == old(buffer[k])
    {
      writer := writer + len;
      buffer[writer] := 0;
    }

    /** len may be negative, as the result of a failed read; a full buffer takes nothing. */
    method Append(data: seq<Byte>, len: int) returns (taken: int)
      requires Valid() && len <= |data|
      modifies this`writer, buffer
      ensures Valid() && taken == Accepted(old(View()), len)
      ensures View() == Appended(old(View()), if len <= 0 then [] else data[..len])
    {
      if len <= 0 {
        return 0;
      }
      var wb := Writable();
      taken := 0;
      if wb > len {
        taken := len;
      } else if wb > 0 {
        taken := wb;
      }
      if taken > 0 {
        CopyIn(data, taken);
        Write(taken);
      }
      ghost var b := old(View());
      assert buffer[reader..writer] == b.bytes + data[..len][..taken];
    }

    /** append of a C string: strlen decides the length. */
    method AppendText(text: seq<Byte>) returns (taken: int)
      requires Valid()
      modifies this`writer, buffer
      ensures Valid() && taken == Accepted(old(View()), |CString(text)|)
      ensures View() == Appended(old(View()), CString(text))
    {
      var c := CString(text);
      taken := Append(c, |c|);
    }

    /** The cursor moves by len unchecked: the buffer stays valid exactly when len takes back no
        more than has been read and goes no further than what is there. */
    method Read(len: int)
      requires Valid()
      modifies this`reader
      ensures reader == old(reader) + len
      ensures Valid() <==> -old(reader) <= len <= old(Readable())
      ensures 0 <= len <= old(Readable()) ==> View() == AfterRead(old(View()), len)
    {
      reader := reader + len;
      assert 0 <= len <= old(Readable()) ==> buffer[reader..writer] == old(buffer[reader..writer])[len..];
    }

    /** readall also zeroes the whole buffer. */
    method ReadAll()
      requires Valid()
      modifies this, buffer
      ensures Valid() && View() == Cleared(old(View()))
      ensures forall k :: 0 <= k < size ==> buffer[k] == 0
    {
      reader, writer := 0, 0;
      forall k | 0 <= k < buffer.Length {
        buffer[k] := 0;
      }
    }

    /** The content is copied to the front byte by byte, upwards; source and target may overlap. */
    method Move()
      requires Valid()
      modifies this, buffer
      ensures Valid() && View() == Moved(old(View()))
    {
      var rb := Readable();
      var i := 0;
      while i < rb
        invariant 0 <= i <= rb
        invariant reader == old(reader) && writer == old(writer)
        invariant forall k :: 0 <= k < i ==> buffer[k] == old(buffer[reader + k])
        invariant forall k :: i <= k < size ==> buffer[k] == old(buffer[k])
      {
        buffer[i] := buffer[reader + i];
        i := i + 1;
      }
      reader := 0;
      writer := rb;
      buffer[writer] := 0;
      assert buffer[0..writer] == old(buffer[reader..writer]);
    }
  }
}
