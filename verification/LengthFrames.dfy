/** The length-prefixed message format (codechiev/net/TcpLengthCoder.h with HEADER = 4). */
module LengthFrames {
  import opened Runs
  import opened ByteOrder
  import opened CStrings
  import opened Incremental

  const HEADER := 4

  /** The payload length the first four bytes declare. */
  function Declared(s: Bytes): nat
    requires |s| >= HEADER
  {
    FromBE(s[..HEADER])
  }

  /** The 32-bit sum of length and HEADER wraps; decode would then read past the message. */
  predicate Wraps(s: Bytes) {
    |s| >= HEADER && Declared(s) + HEADER >= W32
  }

  function LengthCut(s: Bytes): Option<nat> {
    if |s| < HEADER || Wraps(s) then None
    else if |s| >= Declared(s) + HEADER then Some(Declared(s) + HEADER)
    else None
  }

  lemma LengthProper()
    ensures Proper(LengthCut)
  {
    forall s: Bytes | LengthCut(s).Some?
      ensures 0 < LengthCut(s).value <= |s| && LengthCut(s[..LengthCut(s).value]) == LengthCut(s)
    {
      assert s[..LengthCut(s).value][..HEADER] == s[..HEADER];
    }
    forall s: Bytes, t: Bytes | LengthCut(s).Some? ensures LengthCut(s + t) == LengthCut(s) {
      assert (s + t)[..HEADER] == s[..HEADER];
    }
  }

  /** AppendInt32 puts the low 32 bits of the length in network order. */
  function Header(length: nat): Bytes {
    ToBE(length % W32, HEADER)
  }

  function Frame(m: Bytes): Bytes {
    Header(|m|) + m
  }

  function Payload(item: Bytes): Bytes {
    if |item| < HEADER then [] else item[HEADER..]
  }

  /** The whole items of the format are exactly the frames of messages below the 32-bit limit. */
  lemma FramesAreWhole(m: Bytes)
    requires |m| + HEADER < W32
    ensures Whole(LengthCut, Frame(m)) && Payload(Frame(m)) == m
  {
    hide ToBE, FromBE;
    Widths();
    FromToBE(|m|, HEADER);
    assert Frame(m)[..HEADER] == Header(|m|);
  }

  lemma WholeIsFrame(item: Bytes)
    requires Whole(LengthCut, item)
    ensures |Payload(item)| + HEADER < W32 && item == Frame(Payload(item))
  {
    hide ToBE, FromBE;
    ToFromBE(item[..HEADER]);
    assert item == item[..HEADER] + item[HEADER..];
  }

  function Frames(ms: seq<Bytes>): (fs: seq<Bytes>)
    ensures |fs| == |ms| && forall i :: 0 <= i < |ms| ==> fs[i] == Frame(ms[i])
  {
    if |ms| == 0 then [] else [Frame(ms[0])] + Frames(ms[1..])
  }

  function Payloads(items: seq<Bytes>): (ms: seq<Bytes>)
    ensures |ms| == |items| && forall i :: 0 <= i < |items| ==> ms[i] == Payload(items[i])
  {
    if |items| == 0 then [] else [Payload(items[0])] + Payloads(items[1..])
  }

  predicate Encodable(ms: seq<Bytes>) {
    forall i :: 0 <= i < |ms| ==> |ms[i]| + HEADER < W32
  }

  /** Decoding is the inverse of framing: a stream drains to the messages ms and the rest r
      exactly when it is the frames of ms followed by r, and r holds no complete frame. */
  lemma DecodeIff(s: Bytes, ms: seq<Bytes>, r: Bytes)
    requires Encodable(ms)
    ensures Drain(LengthCut, s) == Drained(Frames(ms), r)
       <==> s == Concat(Frames(ms)) + r && LengthCut(r) == None
  {
    LengthProper();
    DrainIff(LengthCut, s, Drained(Frames(ms), r));
    forall i | 0 <= i < |ms| ensures Whole(LengthCut, Frames(ms)[i]) {
      FramesAreWhole(ms[i]);
    }
  }

  /** Whatever the stream, what is decoded from it are messages whose frames it begins with. */
  lemma DecodedAreFramed(s: Bytes)
    ensures var d := Drain(LengthCut, s);
            var ms := Payloads(d.items);
            Encodable(ms) && Frames(ms) == d.items && s == Concat(Frames(ms)) + d.rest
  {
    LengthProper();
    DrainDivides(LengthCut, s);
    var d := Drain(LengthCut, s);
    forall i | 0 <= i < |d.items| ensures Frame(Payload(d.items[i])) == d.items[i]
                                       && |Payload(d.items[i])| + HEADER < W32 {
      assert Whole(LengthCut, d.items[i]);
      WholeIsFrame(d.items[i]);
    }
    assert Frames(Payloads(d.items)) == d.items;
  }

  lemma PayloadsOfFrames(ms: seq<Bytes>)
    requires Encodable(ms)
    ensures Payloads(Frames(ms)) == ms
  {
    forall i | 0 <= i < |ms| ensures Payload(Frame(ms[i])) == ms[i] {
      FramesAreWhole(ms[i]);
    }
  }

  lemma FramesDecode(ms: seq<Bytes>)
    requires Encodable(ms)
    ensures Payloads(Drain(LengthCut, Concat(Frames(ms))).items) == ms
    ensures Drain(LengthCut, Concat(Frames(ms))).rest == []
  {
    hide Drain, Frames, Concat, LengthCut, Payloads;
    var s := Concat(Frames(ms));
    assert s == s + [];
    EmptyHoldsNone();
    DecodeIff(s, ms, []);
    PayloadsOfFrames(ms);
  }

  // ---- Frames arriving in chunks at a buffer of cap bytes ----

  /** The chunks, of at most b bytes each, are the beginning of frames of at most m bytes each. */
  ghost predicate Arrives(m: nat, b: nat, ms: seq<Bytes>, chunks: seq<Bytes>) {
    && (forall i :: 0 <= i < |ms| ==> |ms[i]| + HEADER <= m)
    && (forall i :: 0 <= i < |chunks| ==> |chunks[i]| <= b)
    && Concat(chunks) <= Concat(Frames(ms))
  }

  lemma SmallFrames(m: nat, ms: seq<Bytes>)
    requires m < W32 && forall i :: 0 <= i < |ms| ==> |ms[i]| + HEADER <= m
    ensures forall i :: 0 <= i < |ms| ==> Whole(LengthCut, Frames(ms)[i]) && |Frames(ms)[i]| <= m
  {
    forall i | 0 <= i < |ms| ensures Whole(LengthCut, Frames(ms)[i]) && |Frames(ms)[i]| <= m {
      FramesAreWhole(ms[i]);
    }
  }

  lemma ArrivingFits(cap: nat, m: nat, b: nat, ms: seq<Bytes>, chunks: seq<Bytes>)
    requires HEADER <= m < W32 && m + b <= cap + 1 && Arrives(m, b, ms, chunks)
    ensures Fits(LengthCut, cap, [], chunks)
  {
    hide Frames, Whole, Proper, LengthCut, Concat, Fits;
    LengthProper();
    SmallFrames(m, ms);
    assert LengthCut([]) == None by { EmptyHoldsNone(); }
    var s, all := Concat(chunks), Concat(Frames(ms));
    assert [] + s + all[|s|..] == all;
    Sufficient(LengthCut, cap, m, b, [], chunks, all[|s|..], Frames(ms));
  }

  lemma EmptyHoldsNone()
    ensures LengthCut([]) == None
  {
  }

  /** Fed into the buffer chunk by chunk, with every append cut to the room there is, such a
      stream is decoded to the same messages as in one piece, and they are the first of ms. */
  lemma ChunkedDecode(cap: nat, m: nat, b: nat, ms: seq<Bytes>, chunks: seq<Bytes>)
    requires HEADER <= m < W32 && m + b <= cap + 1 && Arrives(m, b, ms, chunks)
    ensures FeedClipped(LengthCut, cap, [], chunks) == Drain(LengthCut, Concat(chunks))
    ensures Payloads(FeedClipped(LengthCut, cap, [], chunks).items) <= ms
  {
    hide Frames, Whole, Proper, LengthCut, Concat, Fits, Drain, Payloads, FeedClipped, Feed;
    ArrivingFits(cap, m, b, ms, chunks);
    FittingIsUnclipped(LengthCut, cap, [], chunks);
    LengthProper();
    EmptyHoldsNone();
    ChunkingIrrelevant(LengthCut, [], chunks);
    assert [] + Concat(chunks) == Concat(chunks);
    DecodedIsPrefix(m, ms, Concat(chunks));
  }

  /** What a beginning of the frames of ms decodes to is a beginning of ms. */
  lemma DecodedIsPrefix(m: nat, ms: seq<Bytes>, s: Bytes)
    requires m < W32 && forall i :: 0 <= i < |ms| ==> |ms[i]| + HEADER <= m
    requires s <= Concat(Frames(ms))
    ensures Payloads(Drain(LengthCut, s).items) <= ms
  {
    hide Frames, Whole, LengthCut, Concat, Drain, Payloads;
    SmallFrames(m, ms);
    var x := Concat(Frames(ms))[|s|..];
    assert s + x == Concat(Frames(ms)) && s[..|s|] == s;
    var d := Drain(LengthCut, s);
    var later, y := FirstFrames(m, Frames(ms), s, |s|, x, d);
    FirstPayloads(ms, d.items, later);
  }

  /** What is decoded from the first n bytes of a prefix of frames are the first of the frames. */
  lemma FirstFrames(m: nat, frames: seq<Bytes>, sent: Bytes, n: nat, unsent: Bytes, d: Drained)
      returns (later: seq<Bytes>, x: Bytes)
    requires forall i :: 0 <= i < |frames| ==> Whole(LengthCut, frames[i]) && |frames[i]| <= m
    requires n <= |sent| && sent + unsent == Concat(frames)
    requires Drain(LengthCut, sent[..n]) == d
    ensures frames == d.items + later
    ensures d.rest + x == Concat(later) && LengthCut(d.rest) == None
    ensures forall i :: 0 <= i < |later| ==> Whole(LengthCut, later[i]) && |later[i]| <= m
  {
    hide Concat, LengthCut, Drain, Whole;
    LengthProper();
    DrainDivides(LengthCut, sent[..n]);
    hide Proper;
    x := sent[n..] + unsent;
    Rejoin(sent, n, Concat(d.items), d.rest, unsent);
    later := PrefixItems(LengthCut, d.items, d.rest + x, frames);
    forall i | 0 <= i < |later| ensures Whole(LengthCut, later[i]) && |later[i]| <= m {
      assert later[i] == frames[|d.items| + i];
    }
  }

  lemma Rejoin(sent: Bytes, n: nat, a: Bytes, b: Bytes, c: Bytes)
    requires n <= |sent| && sent[..n] == a + b
    ensures a + (b + (sent[n..] + c)) == sent + c
  {
    assert sent == sent[..n] + sent[n..];
  }

  lemma FirstPayloads(ms: seq<Bytes>, items: seq<Bytes>, later: seq<Bytes>)
    requires Encodable(ms) && Frames(ms) == items + later
    ensures Payloads(items) <= ms
  {
    forall i | 0 <= i < |items| ensures Payload(items[i]) == ms[i] {
      assert Frames(ms)[i] == items[i];
      FramesAreWhole(ms[i]);
    }
  }

  function Copies(m: Bytes, n: nat): (ms: seq<Bytes>)
    ensures |ms| == n && forall i :: 0 <= i < n ==> ms[i] == m
  {
    if n == 0 then [] else [m] + Copies(m, n - 1)
  }

  lemma {:induction false} CopiesLength(m: Bytes, n: nat)
    ensures |Concat(Frames(Copies(m, n)))| >= n
  {
    if n > 0 {
      CopiesLength(m, n - 1);
      assert Copies(m, n)[1..] == Copies(m, n - 1);
      assert Frames(Copies(m, n))[1..] == Frames(Copies(m, n - 1));
    }
  }

  /** m + b - 1 bytes are the least capacity that never cuts a chunk short: with less, a frame of
      m bytes but its last, followed by a burst of b, is cut. */
  lemma CapacityIff(cap: nat, m: nat, b: nat)
    requires HEADER <= m < W32 && b > 0
    ensures (forall ms, chunks :: Arrives(m, b, ms, chunks) ==> Fits(LengthCut, cap, [], chunks))
       <==> m + b <= cap + 1
  {
    if m + b <= cap + 1 {
      forall ms, chunks | Arrives(m, b, ms, chunks) ensures Fits(LengthCut, cap, [], chunks) {
        ArrivingFits(cap, m, b, ms, chunks);
      }
    } else {
      var ms, chunks := TooSmall(cap, m, b);
      assert !Fits(LengthCut, cap, [], chunks);
    }
  }

  /** All bytes of an item but the last arrive one by one, then b bytes at once. */
  function SlowThenBurst(item: Bytes, more: Bytes, b: nat): seq<Bytes>
    requires 0 < |item| && b <= |more|
  {
    Singles(item[..|item| - 1]) + [([item[|item| - 1]] + more)[..b]]
  }

  lemma SlowThenBurstIs(item: Bytes, more: Bytes, b: nat)
    requires 0 < |item| && 0 < b <= |more|
    ensures Concat(SlowThenBurst(item, more, b)) <= item + more
    ensures forall i :: 0 <= i < |SlowThenBurst(item, more, b)| ==> |SlowThenBurst(item, more, b)[i]| <= b
  {
    var n := |item| - 1;
    var front, tail := item[..n], [item[n]] + more;
    ConcatSingles(front);
    ConcatAppend(Singles(front), [tail[..b]]);
    ConcatOne(tail[..b]);
    hide Concat;
    assert item + more == front + tail;
    assert front + tail[..b] <= front + tail;
  }

  lemma TooSmall(cap: nat, m: nat, b: nat) returns (ms: seq<Bytes>, chunks: seq<Bytes>)
    requires HEADER <= m < W32 && b > 0 && m + b > cap + 1
    ensures Arrives(m, b, ms, chunks) && !Fits(LengthCut, cap, [], chunks)
  {
    hide Whole, Proper, LengthCut, Fits, Drain;
    var msg: Bytes := seq(m - HEADER, i => 0 as Byte);
    ms := Copies(msg, b + 1);
    var item, more := Frame(msg), Concat(Frames(Copies(msg, b)));
    FramesAreWhole(msg);
    LengthProper();
    CopiesLength(msg, b);
    CopiesConcat(msg, b);
    hide Frames, Frame, Concat, Copies;
    chunks := SlowThenBurst(item, more, b);
    SlowThenBurstIs(item, more, b);
    BurstTooLarge(LengthCut, cap, item, 0, ([item[m - 1]] + more)[..b]);
    assert item[..0] == [] && item[0..m - 1] == item[..m - 1];
  }

  lemma CopiesConcat(msg: Bytes, n: nat)
    ensures Concat(Frames(Copies(msg, n + 1))) == Frame(msg) + Concat(Frames(Copies(msg, n)))
  {
    var ms := Copies(msg, n + 1);
    assert ms[1..] == Copies(msg, n) && Frames(ms)[1..] == Frames(ms[1..]);
  }

  // ---- What the RPC path puts on the wire ----

  /** The header of the whole message, then the part of it before its first NUL: the message
      body goes through c_str. */
  function Sent(m: Bytes): Bytes {
    Header(|m|) + CString(m)
  }

  function SentAll(ms: seq<Bytes>): Bytes {
    if |ms| == 0 then [] else Sent(ms[0]) + SentAll(ms[1..])
  }

  predicate AllNulFree(ms: seq<Bytes>) {
    forall i :: 0 <= i < |ms| ==> NulFree(ms[i])
  }

  lemma {:induction false} SentLength(ms: seq<Bytes>)
    ensures |SentAll(ms)| <= |Concat(Frames(ms))|
    ensures |SentAll(ms)| == |Concat(Frames(ms))| <==> AllNulFree(ms)
    ensures AllNulFree(ms) ==> SentAll(ms) == Concat(Frames(ms))
  {
    if |ms| > 0 {
      SentLength(ms[1..]);
      NulFreeIff(ms[0]);
      assert Frames(ms)[1..] == Frames(ms[1..]);
      assert AllNulFree(ms) <==> NulFree(ms[0]) && AllNulFree(ms[1..]) by {
        if NulFree(ms[0]) && AllNulFree(ms[1..]) {
          forall i | 0 <= i < |ms| ensures NulFree(ms[i]) {
            if i > 0 {
              assert ms[i] == ms[1..][i - 1];
            }
          }
        }
        if AllNulFree(ms) {
          forall i | 0 <= i < |ms| - 1 ensures NulFree(ms[1..][i]) {
            assert ms[1..][i] == ms[i + 1];
          }
        }
      }
    }
  }

  /** The messages sent are decoded exactly when none of them contains a NUL. */
  lemma RoundTripIff(ms: seq<Bytes>)
    requires Encodable(ms)
    ensures Payloads(Drain(LengthCut, SentAll(ms)).items) == ms <==> AllNulFree(ms)
    ensures AllNulFree(ms) ==> Drain(LengthCut, SentAll(ms)).rest == []
  {
    SentLength(ms);
    if AllNulFree(ms) {
      FramesDecode(ms);
    }
    DecodedAreFramed(SentAll(ms));
  }

  /** The header of a message below 2^24 bytes begins with a NUL. */
  lemma HeaderTop(length: nat)
    requires length < 0x100_0000
    ensures Header(length)[0] == 0
  {
    var v := length;
    assert ToBE(v, 4)[0] == ToBE(v / 256, 3)[0] == ToBE(v / 256 / 256, 2)[0] == ToBE(v / 256 / 256 / 256, 1)[0];
    assert v / 256 / 256 / 256 == 0;
    assert ToBE(0, 1) == [0];
  }

  /** The two messages, received in either order. */
  predicate Both(ms: seq<Bytes>, m1: Bytes, m2: Bytes) {
    ms == [m1, m2] || ms == [m2, m1]
  }

  /** Two callers on one channel whose headers both precede both bodies: whichever body comes
      first, the receiver gets the two messages, in any order, if and only if the first is empty. */
  lemma InterleavedIff(m1: Bytes, m2: Bytes)
    requires NulFree(m1) && NulFree(m2) && |m1| < 0x100_0000 && |m2| < 0x100_0000
    ensures var s := Header(|m1|) + Header(|m2|) + m1 + m2;
            Both(Payloads(Drain(LengthCut, s).items), m1, m2) <==> m1 == []
    ensures var s := Header(|m1|) + Header(|m2|) + m2 + m1;
            Both(Payloads(Drain(LengthCut, s).items), m1, m2) <==> m1 == []
  {
    if m1 == [] {
      FirstEmpty(m2);
      assert Header(0) + Header(|m2|) + [] + m2 == Header(0) + Header(|m2|) + m2 + [];
    } else {
      FirstNotEmpty(m1, m2, Header(|m1|) + Header(|m2|) + m1 + m2);
      FirstNotEmpty(m1, m2, Header(|m1|) + Header(|m2|) + m2 + m1);
    }
  }

  lemma FirstEmpty(m: Bytes)
    requires |m| + HEADER < W32
    ensures Payloads(Drain(LengthCut, Header(0) + Header(|m|) + [] + m).items) == [[], m]
  {
    hide Drain, Frames, Concat, LengthCut, Header, Payloads;
    var none: Bytes := [];
    TwoFrames(none, m);
    WithoutEmpty(Header(0), Header(|m|), m);
    FramesDecode([none, m]);
  }

  lemma WithoutEmpty(a: Bytes, b: Bytes, c: Bytes)
    ensures a + b + [] + c == a + [] + b + c
  {
  }

  /** The second header begins with a NUL, and the first message decoded begins with it. */
  lemma FirstNotEmpty(m1: Bytes, m2: Bytes, s: Bytes)
    requires NulFree(m1) && NulFree(m2) && 0 < |m1| < 0x100_0000 && |m2| < 0x100_0000
    requires Header(|m1|) + Header(|m2|) <= s
    ensures !Both(Payloads(Drain(LengthCut, s).items), m1, m2)
  {
    var d := Drain(LengthCut, s);
    var ms := Payloads(d.items);
    DecodedAreFramed(s);
    HeaderTop(|m2|);
    hide Drain, LengthCut, Payloads;
    if |ms| > 0 {
      StartsWithFrame(s, ms, d.rest);
      hide Header, Concat, Frames;
      assert s[..HEADER] == Header(|m1|) && s[HEADER] == 0;
      SameHeader(|ms[0]|, |m1|);
      assert !NulFree(ms[0]) by { assert ms[0][0] == s[HEADER]; }
    }
  }

  lemma StartsWithFrame(s: Bytes, ms: seq<Bytes>, rest: Bytes)
    requires |ms| > 0 && s == Concat(Frames(ms)) + rest
    ensures |s| >= HEADER + |ms[0]| && s[..HEADER] == Header(|ms[0]|) && s[HEADER..HEADER + |ms[0]|] == ms[0]
  {
    assert Frames(ms)[0] == Frame(ms[0]);
    var h, tail := Header(|ms[0]|), Concat(Frames(ms)[1..]);
    assert s == ((h + ms[0]) + tail) + rest;
    hide Header, Concat, Frames;
    FrontParts(h, ms[0], tail, rest);
  }

  lemma FrontParts(h: Bytes, m: Bytes, tail: Bytes, rest: Bytes)
    ensures var s := ((h + m) + tail) + rest;
            s[..|h|] == h && s[|h|..|h| + |m|] == m
  {
  }

  lemma SameHeader(a: nat, b: nat)
    requires a < W32 && b < W32 && Header(a) == Header(b)
    ensures a == b
  {
    hide ToBE, FromBE;
    Widths();
    FromToBE(a, HEADER);
    FromToBE(b, HEADER);
  }

  lemma TwoFrames(m1: Bytes, m2: Bytes)
    ensures Concat(Frames([m1, m2])) == Header(|m1|) + m1 + Header(|m2|) + m2
  {
    var fs := Frames([m1, m2]);
    assert fs == [Frame(m1), Frame(m2)] && fs[1..] == [Frame(m2)];
    ConcatOne(Frame(m2));
    hide Header;
    assert Frame(m1) + Frame(m2) == Header(|m1|) + m1 + Header(|m2|) + m2;
  }

  // ---- Frames too long for the buffer ----

  /** A header at the front that declares more than fits, without wrapping, blocks for good:
      whatever is appended, nothing is ever decoded again. */
  lemma {:induction false} OversizedBlocks(cap: nat, buf: Bytes, chunks: seq<Bytes>)
    requires HEADER <= |buf| <= cap && !Wraps(buf) && Declared(buf) + HEADER > cap
    ensures FeedClipped(LengthCut, cap, buf, chunks).items == []
    decreases |chunks|
  {
    if |chunks| > 0 {
      var buf' := buf + Clip(buf, chunks[0], cap);
      assert buf'[..HEADER] == buf[..HEADER];
      assert |buf'| <= cap;
      assert LengthCut(buf') == None;
      assert Drain(LengthCut, buf') == Drained([], buf');
      OversizedBlocks(cap, buf', chunks[1..]);
    }
  }

  /** A complete header whose length does not wrap lets some continuation through exactly when its
      frame fits the buffer. */
  lemma BlockedIffOversized(cap: nat, buf: Bytes)
    requires HEADER <= |buf| <= cap < W32 && !Wraps(buf) && LengthCut(buf) == None
    ensures (exists chunks :: FeedClipped(LengthCut, cap, buf, chunks).items != [])
       <==> Declared(buf) + HEADER <= cap
  {
    if Declared(buf) + HEADER <= cap {
      var need := seq(Declared(buf) + HEADER - |buf|, i => 0 as Byte);
      var all := buf + need;
      assert all[..HEADER] == buf[..HEADER];
      assert Clip(buf, need, cap) == need;
      assert LengthCut(all) == Some(|all|);
      assert Drain(LengthCut, all).items != [];
      assert FeedClipped(LengthCut, cap, buf, [need]).items != [];
    } else {
      forall chunks ensures FeedClipped(LengthCut, cap, buf, chunks).items == [] {
        OversizedBlocks(cap, buf, chunks);
      }
    }
  }
}
