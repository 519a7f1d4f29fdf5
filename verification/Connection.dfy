/** The two ends of a connection, with the network between them, as one object: each of its methods
    is one step of a link (codechiev/net/TcpServer.cpp, protobuf/Rpc.cpp, protobuf/protoServer.cpp). */
module Connections {
  import opened Runs
  import opened ByteOrder
  import opened CStrings
  import opened FixedBuffers
  import opened Incremental
  import opened LengthFrames
  import opened Channels
  import opened Links

  /** The results of one call of onRead that ends with EAGAIN. */
  predicate Reads(results: seq<ReadResult>) {
    OneCall(results) && !results[|results| - 1].Eof?
  }

  /** caller and callee are the channels of the two ends, jobs is what the callee has queued, and
      link the state of the link the connection is in: its output side is that of the caller's
      channel, its input what the callee's has not consumed, its frames those of the jobs. */
  class Connection {
    const caller: Channel
    const callee: Channel
    var jobs: seq<Bytes>
    ghost var link: Link

    ghost predicate Apart()
      reads this
    {
      && caller != callee
      && caller.readbuf != callee.readbuf && caller.readbuf.buffer != callee.readbuf.buffer
      && caller.readbuf != callee.writebuf && caller.readbuf.buffer != callee.writebuf.buffer
      && caller.writebuf != callee.readbuf && caller.writebuf.buffer != callee.readbuf.buffer
      && caller.writebuf != callee.writebuf && caller.writebuf.buffer != callee.writebuf.buffer
    }

    ghost predicate Valid()
      reads this, caller, caller.readbuf, caller.readbuf.buffer, caller.writebuf, caller.writebuf.buffer
      reads callee, callee.readbuf, callee.readbuf.buffer, callee.writebuf, callee.writebuf.buffer
    {
      && Apart() && caller.Valid() && callee.Valid() && Inv(link)
      && caller.View() == link.out && callee.Input() == link.input && jobs == Payloads(link.got)
    }

    constructor (callerHost: Endian, calleeHost: Endian)
      ensures Valid() && link == INIT
    {
      caller := new Channel(callerHost);
      callee := new Channel(calleeHost);
      jobs, link := [], INIT;
      new;
      InitInv();
    }

    /** The first half of CallMethod: the header of the serialized message. */
    method Begin(m: Bytes)
      requires Valid() && link.calling.None?
      modifies this`link, caller, caller.writebuf, caller.writebuf.buffer
      ensures Valid() && Enabled(old(link), Step.Begin(m)) && link == Apply(old(link), Step.Begin(m))
    {
      hide Inv;
      InvBounds(link);
      KeepsInv(link, Step.Begin(m));
      link := Apply(link, Step.Begin(m));
      caller.AppendInt32(|m|);
    }

    /** The second half: the body, through send. */
    method End(m: Bytes)
      requires Valid() && link.calling == Some(m)
      modifies this`link, caller, caller.writebuf, caller.writebuf.buffer
      ensures Valid() && Enabled(old(link), Step.End) && link == Apply(old(link), Step.End)
    {
      hide Inv;
      InvBounds(link);
      KeepsInv(link, Step.End);
      link := Apply(link, Step.End);
      caller.Write(m);
    }

    /** One turn of onWrite on the caller's channel. */
    method Flush() returns (n: nat, again: bool)
      requires Valid() && caller.pollOut
      modifies this`link, caller, caller.writebuf, caller.writebuf.buffer
      ensures Valid() && Enabled(old(link), Step.Flush(n, again)) && link == Apply(old(link), Step.Flush(n, again))
    {
      hide Inv;
      InvBounds(link);
      var requested;
      requested, n, again := caller.FlushOnce();
      KeepsInv(link, Step.Flush(n, again));
      link := Apply(link, Step.Flush(n, again));
    }

    /** onRead on the caller's channel, for replies: what it does to the output side. */
    method ReadReplies(results: seq<ReadResult>)
      requires Valid() && Reads(results)
      modifies this`link, caller, caller.readbuf, caller.readbuf.buffer
      ensures Valid() && Enabled(old(link), Step.InOnly) && link == Apply(old(link), Step.InOnly)
    {
      hide Inv;
      InvBounds(link);
      KeepsInv(link, Step.InOnly);
      link := Apply(link, Step.InOnly);
      var closed, replies := caller.OnReadMessages(results);
    }

    /** onRead on the callee's channel, which hands what it has to onData, when the bytes read are
        the next ones of those sent. */
    method Receive(results: seq<ReadResult>)
      requires Valid() && Reads(results)
      requires link.received + |Burst(results)| <= |link.out.sent|
      requires Burst(results) == link.out.sent[link.received..link.received + |Burst(results)|]
      modifies this, callee, callee.readbuf, callee.readbuf.buffer
      ensures Valid() && Enabled(old(link), Step.Receive(|Burst(results)|))
      ensures link == Apply(old(link), Step.Receive(|Burst(results)|))
    {
      hide Inv, Apply, Enabled, Drain, LengthCut, Payloads, Burst, Clip, Conserves, FeedOne, OneCall;
      ghost var k, d := |Burst(results)|, FeedOne(LengthCut, CAPACITY, link.input, Burst(results));
      InvBounds(link);
      ReceiveIs(link, k);
      KeepsInv(link, Step.Receive(k));
      PayloadsAppend(link.got, d.items);
      link := Apply(link, Step.Receive(k));
      var closed, more := callee.OnReadMessages(results);
      jobs := jobs + more;
    }
  }

  lemma KeepsInv(s: Link, l: Step)
    requires Inv(s) && Enabled(s, l)
    ensures Inv(Apply(s, l))
  {
    KeepsOutput(s, l);
    KeepsInput(s, l);
  }

  lemma InvBounds(s: Link)
    requires Inv(s)
    ensures WellFormed(s.out.buf) && s.received <= |s.out.sent|
  {
  }

  lemma ReceiveIs(s: Link, k: nat)
    requires WellFormed(s.out.buf) && s.received + k <= |s.out.sent|
    ensures Enabled(s, Receive(k))
    ensures var d := FeedOne(LengthCut, CAPACITY, s.input, s.out.sent[s.received..s.received + k]);
            Apply(s, Receive(k)) == s.(received := s.received + k, input := d.rest, got := s.got + d.items,
                                       clippedIn := s.clippedIn || |s.input| + k > CAPACITY)
  {
  }

  lemma PayloadsAppend(a: seq<Bytes>, b: seq<Bytes>)
    ensures Payloads(a + b) == Payloads(a) + Payloads(b)
  {
  }
}
