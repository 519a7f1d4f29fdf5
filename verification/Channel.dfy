/** A connection and the endpoint code that moves bytes through it (codechiev/net/Channel.cpp,
    TcpServer.cpp, TcpLengthCoder.h, protobuf/protoServer.cpp, http/HttpServer.cpp). */
module Channels {
  import opened Runs
  import opened ByteOrder
  import opened CStrings
  import opened FixedBuffers
  import opened Incremental
  import opened LengthFrames
  import opened HeaderSections

  const BUFFER_SIZE := 8192
  const CAPACITY := BUFFER_SIZE - 1
  const EACH_TIME := 256

  // ---- The output side as a value ----

  /** pollOut: EPOLLOUT is registered besides EPOLLIN.  sent is what write(2) has taken,
      accepted what append has taken. */
  datatype Out = Out(buf: Buffer, pollOut: bool, sent: Bytes, accepted: Bytes)

  const FRESH := Out(Buffer(BUFFER_SIZE, 0, []), false, [], [])

  function Put(o: Out, data: Bytes): Out
    requires WellFormed(o.buf)
  {
    o.(buf := Appended(o.buf, data), accepted := o.accepted + data[..Accepted(o.buf, |data|)])
  }

  /** TcpEndpoint::write: append the message as a C string; pending output asks for EPOLLOUT. */
  function PutText(o: Out, msg: Bytes): Out
    requires WellFormed(o.buf)
  {
    var o' := Put(o, CString(msg));
    o'.(pollOut := o.pollOut || |o'.buf.bytes| > 0)
  }

  function Slice(o: Out): nat {
    if |o.buf.bytes| > EACH_TIME then EACH_TIME else |o.buf.bytes|
  }

  /** What write(2) may answer to a request for the current slice: never -1, and 0 only to a
      request for nothing. */
  predicate Answer(o: Out, n: nat) {
    if Slice(o) == 0 then n == 0 else 1 <= n <= Slice(o)
  }

  /** One turn of onWrite under the mutex; again says that errno is EAGAIN afterwards. */
  function Flushed(o: Out, n: nat, again: bool): Out
    requires Answer(o, n)
  {
    if n == 0 then o.(buf := Cleared(o.buf), pollOut := false)
    else
      var o' := o.(buf := AfterRead(o.buf, n), sent := o.sent + o.buf.bytes[..n]);
      if again then o'.(pollOut := |o'.buf.bytes| > 0) else o'
  }

  /** write(2) is asked for what is pending, 256 bytes at most. */
  lemma AnswerIff(o: Out, n: nat)
    ensures Answer(o, n) <==> n <= |o.buf.bytes| && n <= 256 && (n == 0 <==> o.buf.bytes == [])
  {
  }

  /** Nothing accepted is lost, repeated or reordered: it is sent or still readable. */
  predicate Conserves(o: Out) {
    && o.buf.size == BUFFER_SIZE && WellFormed(o.buf)
    && o.accepted == o.sent + o.buf.bytes
  }

  lemma PutConserves(o: Out, data: Bytes)
    requires Conserves(o)
    ensures Conserves(Put(o, data))
  {
  }

  lemma FlushConserves(o: Out, n: nat, again: bool)
    requires Conserves(o) && Answer(o, n)
    ensures Conserves(Flushed(o, n, again))
    ensures |Flushed(o, n, again).buf.bytes| + n == |o.buf.bytes|
    ensures Room(Flushed(o, n, again).buf) >= Room(o.buf)
  {
    assert o.buf.bytes == o.buf.bytes[..n] + o.buf.bytes[n..];
  }

  /** What write leaves behind: the message up to its first NUL behind what was pending, or as much
      of it as fills the buffer; registered for output if it was or if anything is pending. */
  lemma WriteOutcome(o: Out, msg: Bytes)
    requires Conserves(o)
    ensures var o' := PutText(o, msg);
            && o.buf.bytes <= o'.buf.bytes <= o.buf.bytes + CString(msg) && o'.sent == o.sent
            && (if |CString(msg)| <= Room(o.buf) then o'.buf.bytes == o.buf.bytes + CString(msg)
                else Room(o'.buf) == 0)
            && (o'.pollOut <==> o.pollOut || o'.buf.bytes != [])
  {
    AppendOutcome(o.buf, CString(msg));
    hide CString;
  }

  /** What a turn of onWrite leaves behind.  With nothing pending all the room is back and EPOLLOUT
      is off; else the first n bytes have gone, and the registration is what it was, unless errno is
      EAGAIN, when it is exactly what the rest needs. */
  lemma FlushOutcome(o: Out, n: nat, again: bool)
    requires Conserves(o) && Answer(o, n)
    ensures var o' := Flushed(o, n, again);
            if o.buf.bytes == [] then
              o'.buf.bytes == [] && Room(o'.buf) == 8191 && !o'.pollOut && o'.sent == o.sent
            else
              && |o'.sent| == |o.sent| + n && o.sent <= o'.sent
              && o'.sent + o'.buf.bytes == o.sent + o.buf.bytes
              && o'.pollOut == (if again then o'.buf.bytes != [] else o.pollOut)
  {
    assert o.buf.bytes == o.buf.bytes[..n] + o.buf.bytes[n..];
  }

  // ---- Reading ----

  /** One result of read(2) and whether errno is EAGAIN after it, which for a successful read is
      left over from an earlier call. */
  datatype ReadResult = Got(data: Bytes, again: bool) | Failed(again: bool) | Eof

  predicate Ends(r: ReadResult) {
    r.Eof? || r.again
  }

  /** The results one call of onRead sees: it returns at the first that ends it. */
  predicate OneCall(results: seq<ReadResult>) {
    && |results| > 0 && Ends(results[|results| - 1])
    && (forall i :: 0 <= i < |results| - 1 ==> !Ends(results[i]))
    && (forall i :: 0 <= i < |results| ==> results[i].Got? ==> 1 <= |results[i].data| <= EACH_TIME)
  }

  function Burst(results: seq<ReadResult>): Bytes {
    if |results| == 0 then []
    else Burst(results[..|results| - 1]) + DataOf(results[|results| - 1])
  }

  function DataOf(r: ReadResult): Bytes {
    if r.Got? then r.data else []
  }

  /** The bytes one result of read(2) brings, whatever errno is afterwards. */
  ghost predicate Brings(r: ReadResult, data: Bytes) {
    match r
    case Got(read, _) => data == read
    case Failed(_) => data == []
    case Eof => data == []
  }

  lemma BringsAll(r: ReadResult, data: Bytes)
    requires Brings(r, data)
    ensures DataOf(r) == data
  {
  }

  /** The burst is all that was read, in order: nothing of it depends on errno. */
  lemma {:induction false} BurstIs(results: seq<ReadResult>, datas: seq<Bytes>)
    requires |results| == |datas| && forall i :: 0 <= i < |results| ==> Brings(results[i], datas[i])
    ensures Burst(results) == Concat(datas)
  {
    if |results| > 0 {
      var n := |results| - 1;
      assert Burst(results) == Burst(results[..n]) + DataOf(results[n]);
      hide Burst, Concat, DataOf;
      BringsAll(results[n], datas[n]);
      hide Brings;
      BurstIs(results[..n], datas[..n]);
      ConcatSnoc(datas);
    }
  }

  /** A call of onRead goes on after a result exactly if it is neither end of file nor followed by
      an errno of EAGAIN. */
  lemma EndsIff(r: ReadResult)
    ensures !Ends(r) <==> r == Failed(false) || exists data :: r == Got(data, false)
  {
    if r.Got? && !r.again {
      assert r == Got(r.data, false);
    }
  }

  lemma BurstStart(b: Buffer)
    requires WellFormed(b)
    ensures Appended(b, Burst([])) == b
  {
  }

  lemma BurstStep(b: Buffer, results: seq<ReadResult>, i: nat)
    requires WellFormed(b) && i < |results|
    ensures WellFormed(Appended(b, Burst(results[..i])))
    ensures Appended(Appended(b, Burst(results[..i])), DataOf(results[i])) == Appended(b, Burst(results[..i + 1]))
    ensures results[i].Eof? ==> Burst(results[..i]) == Burst(results[..i + 1])
  {
    assert results[..i + 1][..i] == results[..i];
    AppendTwice(b, Burst(results[..i]), DataOf(results[i]));
  }

  /** A burst appended to input that stands at the front of its buffer is cut to the room there is. */
  lemma BurstClips(input: Bytes, burst: Bytes)
    requires |input| < BUFFER_SIZE
    ensures Appended(Buffer(BUFFER_SIZE, 0, input), burst)
         == Buffer(BUFFER_SIZE, 0, input + Clip(input, burst, CAPACITY))
  {
    assert burst[..|burst|] == burst;
  }

  datatype Decoded = NoMessage | Message(msg: Bytes) | Overread

  // ---- The class ----

  class Channel {
    const host: Endian
    const readbuf: FixedBuffer
    const writebuf: FixedBuffer
    var pollOut: bool
    ghost var sent: Bytes
    ghost var accepted: Bytes

    /** Between calls the undelivered input stands at the front of its buffer. */
    ghost predicate Valid()
      reads this, readbuf, readbuf.buffer, writebuf, writebuf.buffer
    {
      && readbuf != writebuf && readbuf.buffer != writebuf.buffer
      && readbuf.Valid() && writebuf.Valid()
      && readbuf.size == BUFFER_SIZE && readbuf.reader == 0 && Conserves(View())
    }

    ghost function View(): Out
      requires writebuf.Valid()
      reads this, writebuf, writebuf.buffer
    {
      Out(writebuf.View(), pollOut, sent, accepted)
    }

    /** The undelivered input. */
    ghost function Input(): Bytes
      requires readbuf.Valid()
      reads readbuf, readbuf.buffer
    {
      readbuf.View().bytes
    }

    constructor (e: Endian)
      ensures Valid() && fresh(readbuf) && fresh(readbuf.buffer) && fresh(writebuf) && fresh(writebuf.buffer)
      ensures host == e && View() == FRESH && readbuf.View() == Buffer(BUFFER_SIZE, 0, [])
    {
      host, pollOut, sent, accepted := e, false, [], [];
      readbuf := new FixedBuffer(BUFFER_SIZE);
      writebuf := new FixedBuffer(BUFFER_SIZE);
    }

    /** TcpLengthCoder::AppendInt32, with the length as the host stores it. */
    method AppendInt32(length: nat)
      requires Valid()
      modifies this`accepted, writebuf, writebuf.buffer
      ensures Valid() && View() == Put(old(View()), Header(length))
      ensures readbuf.View() == old(readbuf.View())
    {
      ghost var before := View();
      var header := Store(host, Swap32(host, length % W32), 4);
      Network32(host, length % W32);
      var taken := writebuf.Append(header, 4);
      accepted := accepted + header[..taken];
      assert header[..4] == header;
      PutConserves(before, Header(length));
    }

    /** TcpEndpoint::write. */
    method Write(msg: Bytes)
      requires Valid()
      modifies this`accepted, this`pollOut, writebuf, writebuf.buffer
      ensures Valid() && View() == PutText(old(View()), msg)
      ensures readbuf.View() == old(readbuf.View())
    {
      ghost var before := View();
      var taken := writebuf.AppendText(msg);
      accepted := accepted + CString(msg)[..taken];
      PutConserves(before, CString(msg));
      if writebuf.Readable() > 0 {
        pollOut := true;
      }
    }

    /** One turn of the loop of onWrite; it goes on unless write(2) took nothing or errno is EAGAIN. */
    method FlushOnce() returns (requested: nat, n: nat, again: bool)
      requires Valid()
      modifies this`pollOut, this`sent, writebuf, writebuf.buffer
      ensures Valid() && Answer(old(View()), n) && View() == Flushed(old(View()), n, again)
      ensures requested <= 256 && requested <= |old(View()).buf.bytes|
      ensures requested == 256 || requested == |old(View()).buf.bytes|
      ensures readbuf.View() == old(readbuf.View())
    {
      ghost var before := View();
      requested := writebuf.Readable();
      if requested > EACH_TIME {
        requested := EACH_TIME;
      }
      n, again := SysWrite(requested);
      FlushConserves(before, n, again);
      if n > 0 {
        sent := sent + writebuf.View().bytes[..n];
        writebuf.Read(n);
        if again {
          pollOut := writebuf.Readable() > 0;
        }
      } else {
        writebuf.ReadAll();
        pollOut := false;
      }
    }

    /** onWrite, when nothing is appended meanwhile: it terminates, loses nothing, and leaves
        EPOLLOUT registered exactly when output is pending.  Unless errno stops it, everything is
        sent and all the room is back. */
    method OnWrite() returns (again: bool)
      requires Valid()
      modifies this`pollOut, this`sent, writebuf, writebuf.buffer
      ensures Valid() && accepted == old(accepted)
      ensures sent + View().buf.bytes == old(sent + View().buf.bytes)
      ensures pollOut <==> |View().buf.bytes| > 0
      ensures !again ==> View().buf == Buffer(BUFFER_SIZE, 0, [])
      ensures readbuf.View() == old(readbuf.View())
    {
      again := false;
      while true
        invariant Valid() && accepted == old(accepted)
        invariant readbuf.View() == old(readbuf.View())
        decreases |View().buf.bytes|
      {
        ghost var before := View();
        var requested, n;
        requested, n, again := FlushOnce();
        FlushConserves(before, n, again);
        if n == 0 || again {
          break;
        }
      }
    }

    /** What onRead does with one result before it looks at errno; a length of -1 appends nothing. */
    method Absorb(r: ReadResult)
      requires Valid() && !r.Eof?
      modifies readbuf, readbuf.buffer
      ensures Valid() && readbuf.View() == Appended(old(readbuf.View()), DataOf(r))
      ensures View() == old(View())
    {
      if r.Got? {
        assert r.data[..|r.data|] == r.data;
        var taken := readbuf.Append(r.data, |r.data|);
      } else {
        var taken := readbuf.Append([], -1);
      }
    }

    /** onRead up to the callback: appends what is read until a result ends it.  Unless the peer
        has closed, only EPOLLIN stays registered, and onData is due if there is input. */
    method OnRead(results: seq<ReadResult>) returns (closed: bool, due: bool)
      requires Valid() && OneCall(results)
      modifies this`pollOut, readbuf, readbuf.buffer
      ensures Valid() && readbuf.View() == Appended(old(readbuf.View()), Burst(results))
      ensures closed <==> results[|results| - 1].Eof?
      ensures View() == old(View()).(pollOut := closed && old(pollOut))
      ensures due <==> !closed && |Input()| > 0
    {
      hide Appended;
      ghost var b := readbuf.View();
      var i := 0;
      closed, due := false, false;
      BurstStart(b);
      while true
        invariant 0 <= i < |results| && Valid()
        invariant readbuf.View() == Appended(b, Burst(results[..i]))
        invariant View() == old(View())
        decreases |results| - i
      {
        var r := results[i];
        BurstStep(b, results, i);
        if r.Eof? {
          closed := true;
          break;
        }
        Absorb(r);
        if r.again {
          pollOut := false;
          due := readbuf.Readable() > 0;
          break;
        }
        i := i + 1;
      }
      assert results[..i + 1] == results;
    }

    /** The length in the header, converted from network order. */
    method ReadHeader() returns (length: nat)
      requires Valid() && |Input()| >= HEADER
      ensures length == Declared(Input()) && length < W32
    {
      var raw := readbuf.Slice(0, HEADER);
      Reading32(host, raw);
      length := Swap32(host, Load(host, raw));
    }

    /** TcpLengthCoder::decode.  Overread stands for reading past the content, which the
        declared length makes the code do exactly when it wraps. */
    method Decode() returns (d: Decoded)
      requires Valid()
      modifies readbuf, readbuf.buffer
      ensures Valid() && View() == old(View())
      ensures d.Overread? <==> Wraps(old(Input()))
      ensures d.Message? <==> LengthCut(old(Input())).Some?
      ensures d.Message? ==>
                var n := LengthCut(old(Input())).value;
                && d.msg == Payload(old(Input())[..n])
                && readbuf.View() == Buffer(BUFFER_SIZE, 0, old(Input())[n..])
      ensures !d.Message? ==> readbuf.View() == old(readbuf.View())
    {
      hide Conserves, Wraps, LengthCut, Payload;
      var readable := readbuf.Readable();
      d := NoMessage;
      ShortInput(Input());
      if readable >= HEADER {
        var length := ReadHeader();
        var whole := (length + HEADER) % W32;
        DecodeCases(Input(), length, whole);
        if readable >= whole {
          if whole < length {
            d := Overread;
          } else {
            d := Message(readbuf.Slice(HEADER, whole));
            readbuf.Read(whole);
            readbuf.Move();
          }
        }
      }
    }

    /** ProtoServer::onData: every complete message becomes a job; what is left begins no message. */
    method OnData() returns (jobs: seq<Bytes>)
      requires Valid()
      modifies readbuf, readbuf.buffer
      ensures Valid() && View() == old(View())
      ensures var d := Drain(LengthCut, old(Input()));
              jobs == Payloads(d.items) && readbuf.View() == Buffer(BUFFER_SIZE, 0, d.rest)
    {
      hide Conserves, Draining, Drain, LengthCut, Payloads;
      jobs := [];
      ghost var items: seq<Bytes> := [];
      ghost var input := Input();
      DrainingStart(LengthCut, input);
      NoPayloads();
      while true
        invariant Valid() && View() == old(View())
        invariant jobs == Payloads(items) && Draining(LengthCut, input, items, Input())
        decreases |Input()|
      {
        ghost var rest := Input();
        DrainingStep(LengthCut, input, items, rest);
        CutBounds(rest);
        var d := Decode();
        if !d.Message? {
          break;
        }
        ghost var item := rest[..LengthCut(rest).value];
        PayloadsSnoc(items, item);
        items := items + [item];
        jobs := jobs + [d.msg];
      }
    }

    /** The four comparisons of strstr at one byte that is not NUL; each is made only if the one
        before succeeded, so none goes past the sentinel. */
    method MatchesAt(p: nat) returns (matches: bool)
      requires readbuf.Valid() && p < |Input()|
      ensures matches <==> DelimAt(Input(), p)
    {
      matches := readbuf.ByteAt(p) == 13 && readbuf.ByteAt(p + 1) == 10
                 && readbuf.ByteAt(p + 2) == 13 && readbuf.ByteAt(p + 3) == 10;
    }

    /** strstr on the content: it stops at a NUL, at the latest at the sentinel. */
    method StrStr() returns (found: bool, at: nat)
      requires readbuf.Valid()
      ensures found <==> Find(CString(Input()), 0).Some?
      ensures found ==> at == Find(CString(Input()), 0).value && DelimAt(Input(), at)
    {
      hide CString, Find, DelimAt;
      ghost var input := Input();
      at, found := 0, false;
      while readbuf.ByteAt(at) != 0
        invariant at <= |CString(input)| <= |input|
        invariant forall q :: 0 <= q < at ==> !DelimAt(CString(input), q)
        decreases |input| - at
      {
        found := MatchesAt(at);
        DelimInText(input, at);
        if found {
          FindIs(CString(input), at);
          return;
        }
        at := at + 1;
      }
      NotFound(input, at);
    }

    /** The body of the loop of onMessage once the delimiter is found at distance len. */
    method TakeSection(len: nat) returns (section: Bytes)
      requires Valid() && DelimAt(Input(), len)
      modifies readbuf, readbuf.buffer
      ensures Valid() && View() == old(View())
      ensures section + DELIM == old(Input())[..len + 4] && Input() == old(Input())[len + 4..]
    {
      hide Conserves;
      ghost var input := Input();
      section := readbuf.Slice(0, len);
      DelimAtIff(input, len);
      assert input[..len + 4] == input[..len] + input[len..len + 4];
      readbuf.Read(len + 4);
      readbuf.Move();
    }

    /** One turn of the loop of onMessage. */
    method NextSection() returns (found: bool, section: Bytes)
      requires Valid()
      modifies readbuf, readbuf.buffer
      ensures Valid() && View() == old(View())
      ensures found <==> HeaderCut(old(Input())).Some?
      ensures found ==>
                var n := HeaderCut(old(Input())).value;
                0 < n <= |old(Input())| && section + DELIM == old(Input())[..n] && Input() == old(Input())[n..]
      ensures !found ==> readbuf.View() == old(readbuf.View())
    {
      hide Conserves, CString, Find;
      section := [];
      var len;
      found, len := StrStr();
      if found {
        section := TakeSection(len);
      }
    }

    /** HttpServer::onMessage: the sections taken out, and whether the full buffer makes it shut
        the connection down. */
    method OnMessage() returns (sections: seq<Bytes>, shut: bool)
      requires Valid()
      modifies readbuf, readbuf.buffer
      ensures Valid() && View() == old(View())
      ensures var d := Drain(HeaderCut, old(Input()));
              && readbuf.View() == Buffer(BUFFER_SIZE, 0, d.rest) && |sections| == |d.items|
              && forall i :: 0 <= i < |sections| ==> sections[i] + DELIM == d.items[i]
      ensures shut <==> Room(readbuf.View()) == 0
    {
      hide Conserves, Draining, Drain, HeaderCut;
      sections := [];
      ghost var items: seq<Bytes> := [];
      ghost var input := Input();
      DrainingStart(HeaderCut, input);
      while true
        invariant Valid() && View() == old(View())
        invariant |sections| == |items| && Draining(HeaderCut, input, items, Input())
        invariant forall i :: 0 <= i < |sections| ==> sections[i] + DELIM == items[i]
        decreases |Input()|
      {
        ghost var rest := Input();
        DrainingStep(HeaderCut, input, items, rest);
        var found, section := NextSection();
        if !found {
          break;
        }
        items := items + [rest[..HeaderCut(rest).value]];
        sections := sections + [section];
      }
      shut := readbuf.Writable() == 0;
    }

    /** The whole of onRead with onData as its callback: unless the peer closes, it is one turn
        of the bounded feed with all that is read as one chunk. */
    method OnReadMessages(results: seq<ReadResult>) returns (closed: bool, jobs: seq<Bytes>)
      requires Valid() && OneCall(results)
      modifies this`pollOut, readbuf, readbuf.buffer
      ensures Valid() && (closed <==> results[|results| - 1].Eof?)
      ensures View() == old(View()).(pollOut := closed && old(pollOut))
      ensures closed ==> jobs == [] && readbuf.View() == Appended(old(readbuf.View()), Burst(results))
      ensures !closed ==>
                var d := FeedOne(LengthCut, CAPACITY, old(Input()), Burst(results));
                jobs == Payloads(d.items) && readbuf.View() == Buffer(BUFFER_SIZE, 0, d.rest)
    {
      hide Conserves, Drain, LengthCut, Appended, Burst, Clip;
      BurstClips(Input(), Burst(results));
      jobs := [];
      var due;
      closed, due := OnRead(results);
      if due {
        jobs := OnData();
      } else {
        NoPayloads();
        EmptyDrains();
      }
    }

    /** The same with onMessage as the callback. */
    method OnReadSections(results: seq<ReadResult>) returns (closed: bool, sections: seq<Bytes>, shut: bool)
      requires Valid() && OneCall(results)
      modifies this`pollOut, readbuf, readbuf.buffer
      ensures Valid() && (closed <==> results[|results| - 1].Eof?)
      ensures View() == old(View()).(pollOut := closed && old(pollOut))
      ensures closed ==> sections == [] && readbuf.View() == Appended(old(readbuf.View()), Burst(results))
      ensures !closed ==>
                var d := FeedOne(HeaderCut, CAPACITY, old(Input()), Burst(results));
                && readbuf.View() == Buffer(BUFFER_SIZE, 0, d.rest) && |sections| == |d.items|
                && (forall i :: 0 <= i < |sections| ==> sections[i] + DELIM == d.items[i])
                && (shut <==> |d.rest| == CAPACITY)
    {
      hide Conserves, Drain, HeaderCut, Appended, Burst, Clip;
      BurstClips(Input(), Burst(results));
      sections, shut := [], false;
      var due;
      closed, due := OnRead(results);
      if due {
        sections, shut := OnMessage();
      } else {
        EmptyDrains();
      }
    }
  }

  /** write(2) on a non-blocking socket, as far as the model needs it. */
  method SysWrite(requested: nat) returns (n: nat, again: bool)
    ensures if requested == 0 then n == 0 else 1 <= n <= requested
  {
    n := 0;
    if requested > 0 {
      n :| 1 <= n <= requested;
    }
    again :| again || !again;
  }

  lemma DelimInText(s: Bytes, q: nat)
    requires q < |s| && s[q] != 0 && q <= |CString(s)|
    ensures q < |CString(s)| && (DelimAt(s, q) <==> DelimAt(CString(s), q))
  {
  }

  lemma NotFound(s: Bytes, at: nat)
    requires at <= |CString(s)| && (at < |s| ==> s[at] == 0)
    requires forall q :: 0 <= q < at ==> !DelimAt(CString(s), q)
    ensures Find(CString(s), 0) == None
  {
    assert at == |CString(s)|;
  }

  lemma ShortInput(s: Bytes)
    ensures |s| < HEADER ==> !Wraps(s) && LengthCut(s) == None
  {
  }

  /** The comparisons decode makes, with the wrapped 32-bit sum, against what the header declares. */
  lemma DecodeCases(s: Bytes, length: nat, whole: nat)
    requires |s| >= HEADER && length == Declared(s) < W32 && whole == (length + HEADER) % W32
    ensures Wraps(s) <==> |s| >= whole && whole < length
    ensures LengthCut(s) == if |s| >= whole && whole >= length then Some(whole) else None
    ensures |s| >= whole >= length ==> Payload(s[..whole]) == s[HEADER..whole]
  {
    hide Declared;
  }

  lemma EmptyDrains()
    ensures Drain(LengthCut, []) == Drained([], []) && Drain(HeaderCut, []) == Drained([], [])
  {
  }

  lemma NoPayloads()
    ensures Payloads([]) == []
  {
  }

  lemma CutBounds(s: Bytes)
    ensures LengthCut(s).Some? ==> 0 < LengthCut(s).value <= |s|
  {
  }

  lemma {:induction false} PayloadsSnoc(items: seq<Bytes>, item: Bytes)
    ensures Payloads(items + [item]) == Payloads(items) + [Payload(item)]
  {
  }
}
