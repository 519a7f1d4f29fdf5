/** One RPC direction end to end: the caller's two appends, onWrite, the network, onRead and the
    draining onData, in every interleaving (codechiev/net/protobuf/Rpc.cpp, TcpServer.cpp). */
module Links {
  import opened Runs
  import opened ByteOrder
  import opened CStrings
  import opened FixedBuffers
  import opened Incremental
  import opened LengthFrames
  import opened Channels

  /** calling: the message whose header has been appended but whose body has not.  calls: the
      messages sent.  received: how many of the sent bytes have been read.  input and got: the
      receiver's buffer and the frames it has taken out.  The clipped flags record appends that
      were cut short. */
  datatype Link = Link(out: Out, calling: Option<Bytes>, calls: seq<Bytes>,
                       received: nat, input: Bytes, got: seq<Bytes>,
                       clippedOut: bool, clippedIn: bool)

  datatype Step =
    | Begin(m: Bytes)                  // AppendInt32 of the size
    | End                              // send: the body, and EPOLLOUT
    | Flush(n: nat, again: bool)       // one turn of onWrite, which only an EPOLLOUT event enters
    | InOnly                           // onRead on this channel leaves only EPOLLIN registered
    | Receive(k: nat)                  // a burst of k bytes is read, then onData drains

  const INIT := Link(FRESH, None, [], 0, [], [], false, false)

  predicate Enabled(s: Link, l: Step) {
    && WellFormed(s.out.buf) && s.received <= |s.out.sent|
    && match l
       case Begin(m) => s.calling.None?
       case End => s.calling.Some?
       case Flush(n, again) => s.out.pollOut && Answer(s.out, n)
       case InOnly => true
       case Receive(k) => s.received + k <= |s.out.sent|
  }

  function Apply(s: Link, l: Step): Link {
    if !Enabled(s, l) then s else
    match l
    case Begin(m) =>
      s.(out := Put(s.out, Header(|m|)), calling := Some(m),
         clippedOut := s.clippedOut || Room(s.out.buf) < HEADER)
    case End =>
      var m := s.calling.value;
      s.(out := PutText(s.out, m), calling := None, calls := s.calls + [m],
         clippedOut := s.clippedOut || Room(s.out.buf) < |CString(m)|)
    case Flush(n, again) => s.(out := Flushed(s.out, n, again))
    case InOnly => s.(out := s.out.(pollOut := false))
    case Receive(k) =>
      var burst := s.out.sent[s.received..s.received + k];
      var d := FeedOne(LengthCut, CAPACITY, s.input, burst);
      s.(received := s.received + k, input := d.rest, got := s.got + d.items,
         clippedIn := s.clippedIn || |s.input| + k > CAPACITY)
  }

  // ---- What every run keeps ----

  /** The bytes the caller has meant to append. */
  function Meant(s: Link): Bytes {
    SentAll(s.calls) + if s.calling.Some? then Header(|s.calling.value|) else []
  }

  predicate Output(s: Link) {
    && Conserves(s.out) && s.received <= |s.out.sent|
    && (!s.clippedOut ==> s.out.accepted == Meant(s))
  }

  ghost predicate Input(s: Link) {
    && s.received <= |s.out.sent|
    && (!s.clippedIn ==> Drain(LengthCut, s.out.sent[..s.received]) == Drained(s.got, s.input))
  }

  ghost predicate Inv(s: Link) {
    Output(s) && Input(s)
  }

  lemma {:induction false} SentAllSnoc(ms: seq<Bytes>, m: Bytes)
    ensures SentAll(ms + [m]) == SentAll(ms) + Sent(m)
  {
    if |ms| > 0 {
      SentAllSnoc(ms[1..], m);
      assert (ms + [m])[1..] == ms[1..] + [m];
      assert Sent(ms[0]) + (SentAll(ms[1..]) + Sent(m)) == (Sent(ms[0]) + SentAll(ms[1..])) + Sent(m);
    } else {
      assert SentAll([m]) == Sent(m) + [];
    }
  }

  lemma BeginKeepsOutput(s: Link, m: Bytes)
    requires Output(s) && Enabled(s, Begin(m))
    ensures Output(Apply(s, Begin(m)))
  {
    PutConserves(s.out, Header(|m|));
    if Room(s.out.buf) >= HEADER {
      assert Header(|m|)[..Accepted(s.out.buf, HEADER)] == Header(|m|);
    }
    assert SentAll(s.calls) + [] == SentAll(s.calls);
  }

  lemma Assemble(all: Bytes, header: Bytes, c: Bytes)
    ensures all + (header + c) + [] == (all + header) + c
  {
  }

  lemma EndKeepsOutput(s: Link)
    requires Output(s) && Enabled(s, End)
    ensures Output(Apply(s, End))
  {
    var m := s.calling.value;
    var c := CString(m);
    PutConserves(s.out, c);
    if Room(s.out.buf) >= |c| {
      assert c[..Accepted(s.out.buf, |c|)] == c;
      SentAllSnoc(s.calls, m);
      Assemble(SentAll(s.calls), Header(|m|), c);
      hide SentAll, CString, Header;
    }
  }

  lemma KeepsOutput(s: Link, l: Step)
    requires Output(s) && Enabled(s, l)
    ensures Output(Apply(s, l))
  {
    match l
    case Begin(m) => BeginKeepsOutput(s, m);
    case End => EndKeepsOutput(s);
    case Flush(n, again) => FlushConserves(s.out, n, again);
    case InOnly =>
    case Receive(k) =>
  }

  lemma DrainMore(sent: Bytes, n: nat, k: nat, soFar: Drained)
    requires n + k <= |sent| && |soFar.rest| + k <= CAPACITY
    requires Drain(LengthCut, sent[..n]) == soFar
    ensures var d := FeedOne(LengthCut, CAPACITY, soFar.rest, sent[n..n + k]);
            Drain(LengthCut, sent[..n + k]) == Drained(soFar.items + d.items, d.rest)
  {
    hide Clip, Drain, LengthCut, Proper;
    ClipNothing(soFar.rest, sent[n..n + k], CAPACITY);
    LengthProper();
    DrainTwice(LengthCut, sent[..n], sent[n..n + k]);
    assert sent[..n + k] == sent[..n] + sent[n..n + k];
  }

  lemma ReceiveKeepsInput(s: Link, k: nat)
    requires Input(s) && Enabled(s, Receive(k))
    ensures Input(Apply(s, Receive(k)))
  {
    if !s.clippedIn && |s.input| + k <= CAPACITY {
      hide Clip, Drain, LengthCut, FeedOne;
      DrainMore(s.out.sent, s.received, k, Drained(s.got, s.input));
    }
  }

  /** What has been sent stays sent. */
  lemma SentGrows(s: Link, l: Step)
    requires Enabled(s, l)
    ensures s.out.sent <= Apply(s, l).out.sent
  {
  }

  lemma KeepsInput(s: Link, l: Step)
    requires Input(s) && Enabled(s, l)
    ensures Input(Apply(s, l))
  {
    if l.Receive? {
      ReceiveKeepsInput(s, l.k);
    } else {
      SentGrows(s, l);
      var s' := Apply(s, l);
      assert s'.out.sent[..s.received] == s.out.sent[..s.received];
    }
  }

  lemma InitInv()
    ensures Inv(INIT)
  {
    assert INIT.out.sent[..0] == [];
  }

  lemma {:induction false} Safe(ls: seq<Step>)
    requires Legal(Enabled, Apply, INIT, ls)
    ensures Inv(Run(Apply, INIT, ls))
  {
    InitInv();
    hide Output, Input, Enabled, Apply;
    forall s, l | Inv(s) && Enabled(s, l) ensures Inv(Apply(s, l)) {
      KeepsOutput(s, l);
      KeepsInput(s, l);
    }
    Invariant(Enabled, Apply, Inv, INIT, ls);
  }

  /** Over every interleaving of callers, onWrite and the network, what write(2) took followed by
      what is still readable is what append accepted, in order. */
  lemma {:induction false} OutputConserved(ls: seq<Step>)
    requires Legal(Enabled, Apply, INIT, ls)
    ensures var o := Run(Apply, INIT, ls).out;
            o.accepted == o.sent + o.buf.bytes && WellFormed(o.buf)
  {
    hide Legal, Run;
    Safe(ls);
  }

  // ---- End to end ----

  /** Nothing is under way any more. */
  predicate Settled(s: Link) {
    s.calling.None? && s.out.buf.bytes == [] && s.received == |s.out.sent|
  }

  /** When everything under way has arrived and no append was cut short, the receiver has decoded
      exactly the messages called, in order, if and only if none of them contains a NUL. */
  lemma {:induction false} DeliveredIff(ls: seq<Step>)
    requires Legal(Enabled, Apply, INIT, ls)
    ensures var s := Run(Apply, INIT, ls);
            Settled(s) && !s.clippedOut && !s.clippedIn && Encodable(s.calls) ==>
              (Payloads(s.got) == s.calls <==> AllNulFree(s.calls))
  {
    hide Legal, Run;
    Safe(ls);
    var s := Run(Apply, INIT, ls);
    if Settled(s) && !s.clippedOut && !s.clippedIn && Encodable(s.calls) {
      assert s.out.sent[..s.received] == s.out.sent;
      assert s.out.sent + [] == s.out.sent;
      assert SentAll(s.calls) + [] == SentAll(s.calls);
      RoundTripIff(s.calls);
    }
  }

  /** A discipline under which nothing is ever cut short: messages have no NUL and frames of at
      most m bytes, a call is begun only when its frame fits the write buffer, and at most b
      bytes are read between two drains. */
  predicate Fitting(m: nat, b: nat, s: Link, l: Step) {
    && Enabled(s, l)
    && (l.Begin? ==> NulFree(l.m) && |l.m| + HEADER <= m && |l.m| + HEADER <= Room(s.out.buf))
    && (l.Receive? ==> l.k <= b)
  }

  /** The messages called, the one whose body is still to come included. */
  function Messages(s: Link): seq<Bytes> {
    s.calls + if s.calling.Some? then [s.calling.value] else []
  }

  predicate Small(m: nat, ms: seq<Bytes>) {
    forall i :: 0 <= i < |ms| ==> NulFree(ms[i]) && |ms[i]| + HEADER <= m
  }

  ghost predicate Unclipped(m: nat, s: Link) {
    && Inv(s) && !s.clippedOut && !s.clippedIn && Small(m, Messages(s))
    && (s.calling.Some? ==> |s.calling.value| <= Room(s.out.buf))
  }

  lemma SmallIsClean(m: nat, ms: seq<Bytes>)
    requires m < W32 && Small(m, ms)
    ensures Encodable(ms) && SentAll(ms) == Concat(Frames(ms))
  {
    SentLength(ms);
  }

  /** The body still to come. */
  function Body(s: Link): Bytes {
    if s.calling.Some? then s.calling.value else []
  }

  lemma MeantThenBody(m: nat, s: Link)
    requires Small(m, Messages(s))
    ensures Meant(s) + Body(s) == SentAll(Messages(s))
  {
    if s.calling.Some? {
      var c := s.calling.value;
      assert Messages(s)[|s.calls|] == c;
      NulFreeIff(c);
      SentAllSnoc(s.calls, c);
      hide SentAll, Header;
      Regroup(SentAll(s.calls), Header(|c|), c);
    } else {
      assert SentAll(s.calls) + [] + [] == SentAll(s.calls);
      assert s.calls + [] == s.calls;
    }
  }

  /** What has been sent is the beginning of the frames of the messages called. */
  lemma SentIsPrefix(m: nat, s: Link) returns (x: Bytes)
    requires m < W32 && Output(s) && !s.clippedOut && Small(m, Messages(s))
    ensures s.out.sent + x == Concat(Frames(Messages(s))) && |x| >= |s.out.buf.bytes|
    ensures Encodable(Messages(s))
  {
    SmallIsClean(m, Messages(s));
    MeantThenBody(m, s);
    hide Concat, Frames, SentAll, Header, Encodable, Small, Messages, Meant;
    x := s.out.buf.bytes + Body(s);
    Regroup(s.out.sent, s.out.buf.bytes, Body(s));
  }

  lemma FramesWhole(m: nat, ms: seq<Bytes>)
    requires m < W32 && Small(m, ms)
    ensures forall i :: 0 <= i < |ms| ==> Whole(LengthCut, Frames(ms)[i]) && |Frames(ms)[i]| <= m
  {
    forall i | 0 <= i < |ms| ensures Whole(LengthCut, Frames(ms)[i]) && |Frames(ms)[i]| <= m {
      FramesAreWhole(ms[i]);
    }
  }

  /** The frames received are the first of those called. */
  lemma GotIsPrefix(m: nat, s: Link) returns (later: seq<Bytes>, x: Bytes)
    requires m < W32 && Unclipped(m, s)
    ensures Frames(Messages(s)) == s.got + later
    ensures s.input + x == Concat(later) && LengthCut(s.input) == None
    ensures forall i :: 0 <= i < |later| ==> Whole(LengthCut, later[i]) && |later[i]| <= m
  {
    hide Frames, Small, Messages, Concat, SentAll, Header, LengthCut, Drain, Whole, Conserves;
    var unsent := SentIsPrefix(m, s);
    FramesWhole(m, Messages(s));
    later, x := FirstFrames(m, Frames(Messages(s)), s.out.sent, s.received, unsent, Drained(s.got, s.input));
  }

  lemma KeepsUnclipped(m: nat, b: nat, s: Link, l: Step)
    requires HEADER <= m && m + b <= BUFFER_SIZE
    requires Unclipped(m, s) && Fitting(m, b, s, l)
    ensures Unclipped(m, Apply(s, l))
  {
    assert Inv(Apply(s, l)) by {
      KeepsOutput(s, l);
      KeepsInput(s, l);
    }
    match l
    case Begin(c) =>
      assert Messages(s) == s.calls;
      hide Inv;
    case End =>
      NulFreeIff(s.calling.value) by { assert Messages(s)[|s.calls|] == s.calling.value; }
      assert NulFree(Messages(s)[|s.calls|]);
      hide Inv;
    case Flush(n, again) =>
      FlushConserves(s.out, n, again);
      hide Inv;
    case InOnly => hide Inv;
    case Receive(k) =>
      var later, x := GotIsPrefix(m, s);
      LengthProper();
      RestIsShort(LengthCut, s.input, x, later, m);
      hide Inv;
  }

  lemma {:induction false} UnclippedThroughout(m: nat, b: nat, ls: seq<Step>)
    requires HEADER <= m && m + b <= BUFFER_SIZE
    requires Legal((s, l) => Fitting(m, b, s, l), Apply, INIT, ls)
    ensures Unclipped(m, Run(Apply, INIT, ls))
  {
    var fitting := (s, l) => Fitting(m, b, s, l);
    var inv := s => Unclipped(m, s);
    InitInv();
    assert inv(INIT);
    hide Unclipped, Fitting, Apply;
    forall s, l | inv(s) && fitting(s, l) ensures inv(Apply(s, l)) {
      KeepsUnclipped(m, b, s, l);
    }
    Invariant(fitting, Apply, inv, INIT, ls);
  }

  /** With frames of at most m bytes and bursts of at most b, m + b at most the buffer size, no
      append is ever cut short in a run of any length; what has been decoded at any time is a
      prefix of the messages called; and once everything has arrived it is all of them. */
  lemma {:induction false} EndToEnd(m: nat, b: nat, ls: seq<Step>)
    requires HEADER <= m && m + b <= BUFFER_SIZE
    requires Legal((s, l) => Fitting(m, b, s, l), Apply, INIT, ls)
    ensures var s := Run(Apply, INIT, ls);
            && !s.clippedOut && !s.clippedIn
            && Payloads(s.got) <= Messages(s)
            && (Settled(s) ==> Payloads(s.got) == s.calls && s.input == [])
  {
    UnclippedThroughout(m, b, ls);
    var s := Run(Apply, INIT, ls);
    hide Run, Legal;
    DecodedSoFar(m, s);
  }

  lemma DecodedSoFar(m: nat, s: Link)
    requires m <= BUFFER_SIZE && Unclipped(m, s)
    ensures Payloads(s.got) <= Messages(s)
    ensures Settled(s) ==> Payloads(s.got) == s.calls && s.input == []
  {
    var ms := Messages(s);
    var later, x := GotIsPrefix(m, s);
    var unsent := SentIsPrefix(m, s);
    FirstPayloads(ms, s.got, later);
    if Settled(s) {
      SettledReceived(s);
      RoundTripIff(ms);
    }
  }

  lemma SettledReceived(s: Link)
    requires Inv(s) && !s.clippedOut && !s.clippedIn && Settled(s)
    ensures Messages(s) == s.calls
    ensures Drain(LengthCut, SentAll(s.calls)) == Drained(s.got, s.input)
  {
    assert s.out.sent[..s.received] == s.out.sent;
    assert s.out.sent + [] == s.out.sent;
    assert SentAll(s.calls) + [] == SentAll(s.calls);
  }

  /** How much is under way. */
  function UnderWay(s: Link): nat {
    (if s.calling.Some? then 2 * |s.calling.value| + 1 else 0) + 2 * |s.out.buf.bytes|
    + (if s.received < |s.out.sent| then |s.out.sent| - s.received else 0)
  }

  // ---- Registered for output while output is pending ----

  /** Pending output has EPOLLOUT registered, except while a caller stands between header and body. */
  predicate Watched(s: Link) {
    |s.out.buf.bytes| > 0 ==> s.out.pollOut || s.calling.Some?
  }

  /** Every step other than the EPOLLIN update of onRead keeps it; that one keeps it exactly when
      no output is pending or a body is still to come.  Once lost, only a new call restores it. */
  lemma WatchedStep(s: Link, l: Step)
    requires Enabled(s, l)
    ensures Watched(Apply(s, l)) <==>
              if Watched(s) then l.InOnly? ==> |s.out.buf.bytes| == 0 || s.calling.Some? else l.Begin?
  {
  }

  predicate Careful(s: Link, l: Step) {
    Enabled(s, l) && (l.InOnly? ==> |s.out.buf.bytes| == 0)
  }

  lemma {:induction false} WatchedThroughout(ls: seq<Step>)
    requires Legal(Careful, Apply, INIT, ls)
    ensures Watched(Run(Apply, INIT, ls))
  {
    hide Enabled, Apply;
    forall s, l | Watched(s) && Careful(s, l) ensures Watched(Apply(s, l)) {
      WatchedStep(s, l);
    }
    Invariant(Careful, Apply, Watched, INIT, ls);
  }

  /** Any call followed by the EPOLLIN update leaves its frame pending with nobody registered to
      write it. */
  lemma InOnlyStalls(m: Bytes)
    ensures var ls := [Begin(m), End, InOnly];
            Legal(Enabled, Apply, INIT, ls) && !Watched(Run(Apply, INIT, ls))
  {
    var s1 := Apply(INIT, Begin(m));
    var s2 := Apply(s1, End);
    PutConserves(FRESH, Header(|m|));
    PutConserves(s1.out, CString(m));
    Extend(Enabled, Apply, INIT, [], Begin(m));
    Extend(Enabled, Apply, INIT, [Begin(m)], End);
    Extend(Enabled, Apply, INIT, [Begin(m), End], InOnly);
    assert [] + [Begin(m)] == [Begin(m)];
    assert [Begin(m)] + [End] == [Begin(m), End];
    assert [Begin(m), End] + [InOnly] == [Begin(m), End, InOnly];
  }

  // ---- Whether everything can still be delivered ----

  /** As long as something is under way and pending output is watched, a step that begins no call
      brings it on and leaves it watched. */
  lemma SettleStep(m: nat, b: nat, s: Link) returns (l: Step)
    requires Output(s) && b > 0 && !Settled(s) && Watched(s)
    ensures Quiet(m, b, s, l) && UnderWay(Apply(s, l)) < UnderWay(s) && Watched(Apply(s, l))
  {
    if s.calling.Some? {
      l := End;
    } else if |s.out.buf.bytes| > 0 {
      l := Flush(1, false);
    } else {
      l := Receive(1);
    }
  }

  /** A fitting step that begins no call. */
  predicate Quiet(m: nat, b: nat, s: Link, l: Step) {
    Fitting(m, b, s, l) && !l.Begin?
  }

  ghost predicate QuietRun(m: nat, b: nat, s: Link, ls: seq<Step>) {
    Legal((t, l) => Quiet(m, b, t, l), Apply, s, ls)
  }

  /** Without further calls, ls brings the receiver every message called. */
  ghost predicate Delivers(m: nat, b: nat, s: Link, ls: seq<Step>) {
    QuietRun(m, b, s, ls) && Payloads(Run(Apply, s, ls).got) == Messages(s)
  }

  lemma {:induction false} CanSettle(m: nat, b: nat, s: Link) returns (ls: seq<Step>)
    requires HEADER <= m && b > 0 && m + b <= BUFFER_SIZE && Unclipped(m, s) && Watched(s)
    ensures Delivers(m, b, s, ls) && Settled(Run(Apply, s, ls))
    decreases UnderWay(s)
  {
    ls := [];
    if Settled(s) {
      DecodedSoFar(m, s);
    } else {
      var l := SettleStep(m, b, s);
      KeepsUnclipped(m, b, s, l);
      SameMessages(s, l);
      hide Unclipped, Quiet, Watched, Apply, Messages;
      var more := CanSettle(m, b, Apply(s, l));
      Prepend((t, l) => Quiet(m, b, t, l), Apply, s, l, more);
      ls := [l] + more;
    }
  }

  lemma SameMessages(s: Link, l: Step)
    requires Enabled(s, l) && !l.Begin?
    ensures Messages(Apply(s, l)) == Messages(s)
  {
  }

  /** Pending output that is not watched stays so until a new call: nothing more is sent. */
  lemma {:induction false} StalledStays(m: nat, b: nat, s: Link, ls: seq<Step>)
    requires HEADER <= m && m + b <= BUFFER_SIZE
    requires Unclipped(m, s) && !Watched(s) && QuietRun(m, b, s, ls)
    ensures var t := Run(Apply, s, ls);
            Unclipped(m, t) && !Watched(t) && Messages(t) == Messages(s) && t.out.sent == s.out.sent
  {
    if |ls| > 0 {
      var n := |ls| - 1;
      StalledStays(m, b, s, ls[..n]);
      var t, l := Run(Apply, s, ls[..n]), ls[n];
      assert Quiet(m, b, t, l);
      hide Legal, Run;
      StalledStep(m, b, t, l);
    }
  }

  lemma StalledStep(m: nat, b: nat, s: Link, l: Step)
    requires HEADER <= m && m + b <= BUFFER_SIZE
    requires Unclipped(m, s) && !Watched(s) && Quiet(m, b, s, l)
    ensures var t := Apply(s, l);
            Unclipped(m, t) && !Watched(t) && Messages(t) == Messages(s) && t.out.sent == s.out.sent
  {
    KeepsUnclipped(m, b, s, l);
    hide Unclipped;
    SameMessages(s, l);
    WatchedStep(s, l);
  }

  /** While output is pending, not every message called has been decoded. */
  lemma PendingUndelivered(m: nat, s: Link)
    requires m <= BUFFER_SIZE && Unclipped(m, s) && |s.out.buf.bytes| > 0
    ensures Payloads(s.got) != Messages(s)
  {
    var ms := Messages(s);
    var later, y := GotIsPrefix(m, s);
    var unsent := SentIsPrefix(m, s);
    LengthProper();
    DrainDivides(LengthCut, s.out.sent[..s.received]);
    hide Frames, Messages, Concat, LengthCut, Drain, Small, Proper, Whole, Payloads;
    assert s.got != Frames(ms);
    assert |later| > 0;
  }

  /** From any state of a fitting run, everything called can be delivered without a further call
      if and only if pending output is registered for, or a body is still to come. */
  lemma DeliverableIff(m: nat, b: nat, s: Link)
    requires HEADER <= m && b > 0 && m + b <= BUFFER_SIZE && Unclipped(m, s)
    ensures (exists ls :: Delivers(m, b, s, ls)) <==> Watched(s)
  {
    hide Unclipped;
    if Watched(s) {
      var ls := CanSettle(m, b, s);
    } else {
      forall ls ensures !Delivers(m, b, s, ls) {
        if Delivers(m, b, s, ls) {
          StalledStays(m, b, s, ls);
          PendingUndelivered(m, Run(Apply, s, ls));
        }
      }
    }
  }

  // ---- Whether the room in the write buffer comes back ----

  /** EPOLLOUT is registered, or the call under way will register it, or the buffer is empty with
      all its room. */
  predicate Reclaimable(s: Link) {
    || s.out.pollOut
    || (s.calling.Some? && |s.out.buf.bytes| + |s.calling.value| > 0)
    || (s.out.buf.bytes == [] && s.out.buf.reader == 0)
  }

  /** Without further calls, ls ends with everything delivered and the whole write buffer free. */
  ghost predicate Reclaims(m: nat, b: nat, s: Link, ls: seq<Step>) {
    var t := Run(Apply, s, ls);
    Delivers(m, b, s, ls) && Settled(t) && Room(t.out.buf) == BUFFER_SIZE - 1
  }

  /** What is left to do: what is under way, and a last turn of onWrite that finds nothing pending. */
  function ToFree(s: Link): nat {
    2 * UnderWay(s) + if s.out.pollOut then 1 else 0
  }

  lemma EndStep(m: nat, b: nat, s: Link)
    requires Unclipped(m, s) && Reclaimable(s) && s.calling.Some?
    ensures Quiet(m, b, s, End) && Reclaimable(Apply(s, End)) && ToFree(Apply(s, End)) < ToFree(s)
  {
    var c := s.calling.value;
    assert Messages(s)[|s.calls|] == c;
    NulFreeIff(c);
    WriteOutcome(s.out, c);
    hide Inv, Messages, CString, Small;
  }

  lemma FlushStep(m: nat, b: nat, s: Link) returns (l: Step)
    requires Unclipped(m, s) && s.calling.None? && s.out.pollOut
    ensures Quiet(m, b, s, l) && Reclaimable(Apply(s, l)) && ToFree(Apply(s, l)) < ToFree(s)
  {
    l := Flush(if |s.out.buf.bytes| > 0 then 1 else 0, false);
    AnswerIff(s.out, l.n);
    FlushOutcome(s.out, l.n, false);
    FlushConserves(s.out, l.n, false);
    hide Inv, Messages, Small;
  }

  /** Until everything is delivered and the room is back, some step that begins no call brings
      that closer. */
  lemma FreeStep(m: nat, b: nat, s: Link) returns (l: Step)
    requires Unclipped(m, s) && b > 0 && Reclaimable(s)
    requires !(Settled(s) && Room(s.out.buf) == BUFFER_SIZE - 1)
    ensures Quiet(m, b, s, l) && Reclaimable(Apply(s, l)) && ToFree(Apply(s, l)) < ToFree(s)
  {
    if s.calling.Some? {
      l := End;
      EndStep(m, b, s);
    } else if s.out.pollOut {
      l := FlushStep(m, b, s);
    } else {
      l := Receive(1);
      hide FeedOne;
    }
  }

  lemma {:induction false} CanReclaim(m: nat, b: nat, s: Link) returns (ls: seq<Step>)
    requires HEADER <= m && b > 0 && m + b <= BUFFER_SIZE && Unclipped(m, s) && Reclaimable(s)
    ensures Reclaims(m, b, s, ls)
    decreases ToFree(s)
  {
    ls := [];
    if Settled(s) && Room(s.out.buf) == BUFFER_SIZE - 1 {
      DecodedSoFar(m, s);
    } else {
      var l := FreeStep(m, b, s);
      KeepsUnclipped(m, b, s, l);
      SameMessages(s, l);
      hide Unclipped, Quiet, Reclaimable, Apply, Messages, ToFree;
      var more := CanReclaim(m, b, Apply(s, l));
      Prepend((t, l) => Quiet(m, b, t, l), Apply, s, l, more);
      ls := [l] + more;
    }
  }

  lemma UnreclaimableStep(m: nat, b: nat, s: Link, l: Step)
    requires !Reclaimable(s) && Quiet(m, b, s, l)
    ensures !Reclaimable(Apply(s, l)) && Apply(s, l).out.buf.size == s.out.buf.size
  {
    hide FeedOne;
  }

  lemma {:induction false} UnreclaimableStays(m: nat, b: nat, s: Link, ls: seq<Step>)
    requires !Reclaimable(s) && QuietRun(m, b, s, ls)
    ensures !Reclaimable(Run(Apply, s, ls)) && Run(Apply, s, ls).out.buf.size == s.out.buf.size
  {
    if |ls| > 0 {
      var n := |ls| - 1;
      UnreclaimableStays(m, b, s, ls[..n]);
      assert Quiet(m, b, Run(Apply, s, ls[..n]), ls[n]);
      hide Quiet, Reclaimable, Apply;
      UnreclaimableStep(m, b, Run(Apply, s, ls[..n]), ls[n]);
    }
  }

  /** From any state of a fitting run, some continuation without a further call delivers everything
      and gives all the room in the write buffer back, if and only if EPOLLOUT is registered, or the
      call under way will register it, or the room is there already. */
  lemma ReclaimableIff(m: nat, b: nat, s: Link)
    requires HEADER <= m && b > 0 && m + b <= BUFFER_SIZE && Unclipped(m, s)
    ensures (exists ls :: Reclaims(m, b, s, ls)) <==> Reclaimable(s)
  {
    assert s.out.buf.size == BUFFER_SIZE;
    hide Unclipped;
    if Reclaimable(s) {
      var ls := CanReclaim(m, b, s);
    } else {
      forall ls ensures !Reclaims(m, b, s, ls) {
        if Reclaims(m, b, s, ls) {
          UnreclaimableStays(m, b, s, ls);
          FreeIsReclaimable(Run(Apply, s, ls));
        }
      }
    }
  }

  lemma FreeIsReclaimable(s: Link)
    requires Settled(s) && Room(s.out.buf) == BUFFER_SIZE - 1 && s.out.buf.size == BUFFER_SIZE
    ensures Reclaimable(s)
  {
  }

  /** So a single call of a short NUL-free message, followed by onRead's update, obeys the discipline
      and is never delivered, whatever happens short of a further call. */
  lemma InOnlyStrands(c: Bytes, b: nat)
    requires NulFree(c) && b > 0 && |c| + HEADER + b <= BUFFER_SIZE
    ensures var m := |c| + HEADER;
            var ls := [Begin(c), End, InOnly];
            && Legal((s, l) => Fitting(m, b, s, l), Apply, INIT, ls)
            && forall more :: !Delivers(m, b, Run(Apply, INIT, ls), more)
  {
    var m := |c| + HEADER;
    var ls := [Begin(c), End, InOnly];
    InOnlyStalls(c);
    assert Legal((s, l) => Fitting(m, b, s, l), Apply, INIT, ls) by {
      FittingCall(m, b, c);
    }
    hide Legal, Run, Unclipped, Watched, Delivers, Fitting, Apply, Enabled;
    UnclippedThroughout(m, b, ls);
    DeliverableIff(m, b, Run(Apply, INIT, ls));
  }

  lemma FittingCall(m: nat, b: nat, c: Bytes)
    requires NulFree(c) && |c| + HEADER == m < BUFFER_SIZE
    ensures Legal((s, l) => Fitting(m, b, s, l), Apply, INIT, [Begin(c), End, InOnly])
  {
    var f := (s, l) => Fitting(m, b, s, l);
    PutConserves(FRESH, Header(|c|));
    PutConserves(Apply(INIT, Begin(c)).out, CString(c));
    Extend(f, Apply, INIT, [], Begin(c));
    Extend(f, Apply, INIT, [Begin(c)], End);
    Extend(f, Apply, INIT, [Begin(c), End], InOnly);
    assert [] + [Begin(c)] == [Begin(c)];
    assert [Begin(c)] + [End] == [Begin(c), End];
    assert [Begin(c), End] + [InOnly] == [Begin(c), End, InOnly];
  }
}
