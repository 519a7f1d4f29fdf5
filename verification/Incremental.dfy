/** Draining a byte stream that arrives in chunks.  A cut function says how long the item at
    the front of the buffer is, or that no item is complete yet; both message formats of the
    framework (length prefix, blank-line delimiter) are such cuts. */
module Incremental {
  import opened Runs
  import opened ByteOrder

  type Bytes = seq<Byte>

  datatype Drained = Drained(items: seq<Bytes>, rest: Bytes)

  ghost predicate Whole(cut: Bytes -> Option<nat>, item: Bytes) {
    cut(item) == Some(|item|) && |item| > 0
  }

  /** The item at the front is found as soon as its last byte is there, whatever follows it. */
  ghost predicate Proper(cut: Bytes -> Option<nat>) {
    && (forall s :: cut(s).Some? ==> 0 < cut(s).value <= |s| && cut(s[..cut(s).value]) == cut(s))
    && (forall s, t :: cut(s).Some? ==> cut(s + t) == cut(s))
  }

  lemma Front(cut: Bytes -> Option<nat>, s: Bytes)
    requires Proper(cut) && cut(s).Some?
    ensures 0 < cut(s).value <= |s| && Whole(cut, s[..cut(s).value])
  {
  }

  lemma Stable(cut: Bytes -> Option<nat>, item: Bytes, t: Bytes)
    requires Proper(cut) && Whole(cut, item)
    ensures cut(item + t) == Some(|item|)
  {
  }

  /** One-shot: take items off the front until none is complete. */
  function Drain(cut: Bytes -> Option<nat>, s: Bytes): Drained {
    if cut(s).Some? && 0 < cut(s).value <= |s| then
      var n := cut(s).value;
      var d := Drain(cut, s[n..]);
      Drained([s[..n]] + d.items, d.rest)
    else Drained([], s)
  }

  function Concat(items: seq<Bytes>): Bytes {
    if |items| == 0 then [] else items[0] + Concat(items[1..])
  }

  lemma {:induction false} ConcatAppend(a: seq<Bytes>, b: seq<Bytes>)
    ensures Concat(a + b) == Concat(a) + Concat(b)
  {
    if |a| == 0 {
      assert a + b == b;
    } else {
      ConcatAppend(a[1..], b);
      assert (a + b)[1..] == a[1..] + b && (a + b)[0] == a[0];
      Regroup(a[0], Concat(a[1..]), Concat(b));
    }
  }

  lemma ConcatOne(s: Bytes)
    ensures Concat([s]) == s
  {
    assert s + [] == s;
  }

  lemma ConcatSnoc(items: seq<Bytes>)
    requires |items| > 0
    ensures Concat(items) == Concat(items[..|items| - 1]) + items[|items| - 1]
  {
    var n := |items| - 1;
    ConcatAppend(items[..n], [items[n]]);
    ConcatOne(items[n]);
    hide Concat;
    assert items == items[..n] + [items[n]];
  }

  /** Drain only divides: the items and the rest, put together, are the stream. */
  ghost predicate Divides(cut: Bytes -> Option<nat>, s: Bytes, d: Drained) {
    && s == Concat(d.items) + d.rest
    && cut(d.rest) == None
    && forall i :: 0 <= i < |d.items| ==> Whole(cut, d.items[i])
  }

  lemma ConcatCons(item: Bytes, items: seq<Bytes>)
    ensures Concat([item] + items) == item + Concat(items)
  {
    assert ([item] + items)[1..] == items;
  }

  lemma DividesCons(cut: Bytes -> Option<nat>, s: Bytes, n: nat, d: Drained)
    requires n <= |s| && Whole(cut, s[..n]) && Divides(cut, s[n..], d)
    ensures Divides(cut, s, Drained([s[..n]] + d.items, d.rest))
  {
    hide Whole, Concat;
    ConcatCons(s[..n], d.items);
    Regroup(s[..n], Concat(d.items), d.rest);
    assert s == s[..n] + s[n..];
  }

  lemma Regroup(a: Bytes, b: Bytes, c: Bytes)
    ensures a + (b + c) == (a + b) + c
  {
  }

  lemma {:induction false} DrainDivides(cut: Bytes -> Option<nat>, s: Bytes)
    requires Proper(cut)
    ensures Divides(cut, s, Drain(cut, s))
    decreases |s|
  {
    hide Proper, Whole;
    if cut(s).Some? {
      Front(cut, s);
      var n := cut(s).value;
      DrainDivides(cut, s[n..]);
      var d := Drain(cut, s[n..]);
      assert Drain(cut, s) == Drained([s[..n]] + d.items, d.rest);
      hide Drain;
      ConcatCons(s[..n], d.items);
      hide Concat;
      DividesCons(cut, s, n, d);
    } else {
      assert [] + s == s;
    }
  }

  lemma {:induction false} DivisionIsUnique(cut: Bytes -> Option<nat>, s: Bytes, d: Drained)
    requires Proper(cut) && Divides(cut, s, d)
    ensures Drain(cut, s) == d
    decreases |d.items|
  {
    hide Proper;
    if |d.items| == 0 {
      assert s == d.rest;
    } else {
      var item, d' := d.items[0], Drained(d.items[1..], d.rest);
      assert d.items == [item] + d'.items;
      ConcatCons(item, d'.items);
      hide Concat;
      var s' := Concat(d'.items) + d'.rest;
      assert s == item + s';
      Stable(cut, item, s');
      assert s[|item|..] == s' && s[..|item|] == item;
      DivisionIsUnique(cut, s', d');
    }
  }

  /** Drain is the one way to divide a stream into whole items and a rest holding none. */
  lemma DrainIff(cut: Bytes -> Option<nat>, s: Bytes, d: Drained)
    requires Proper(cut)
    ensures Drain(cut, s) == d <==> Divides(cut, s, d)
  {
    DrainDivides(cut, s);
    if Divides(cut, s, d) {
      DivisionIsUnique(cut, s, d);
    }
  }

  /** A loop that takes one item per turn has taken items out of the stream s and stands at rest. */
  ghost predicate Draining(cut: Bytes -> Option<nat>, s: Bytes, items: seq<Bytes>, rest: Bytes) {
    var d := Drain(cut, rest);
    Drain(cut, s) == Drained(items + d.items, d.rest)
  }

  lemma DrainingStart(cut: Bytes -> Option<nat>, s: Bytes)
    ensures Draining(cut, s, [], s)
  {
    assert [] + Drain(cut, s).items == Drain(cut, s).items;
  }

  lemma DrainingStep(cut: Bytes -> Option<nat>, s: Bytes, items: seq<Bytes>, rest: Bytes)
    requires Draining(cut, s, items, rest)
    ensures cut(rest) == None ==> Drain(cut, s) == Drained(items, rest)
    ensures cut(rest).Some? && 0 < cut(rest).value <= |rest| ==>
              Draining(cut, s, items + [rest[..cut(rest).value]], rest[cut(rest).value..])
  {
    assert items + [] == items;
    if cut(rest).Some? && 0 < cut(rest).value <= |rest| {
      var n := cut(rest).value;
      var e := Drain(cut, rest[n..]);
      assert items + ([rest[..n]] + e.items) == (items + [rest[..n]]) + e.items;
    }
  }

  // ---- Chunks ----

  /** Append a chunk, drain, keep the rest; then the next chunk. */
  function Feed(cut: Bytes -> Option<nat>, buf: Bytes, chunks: seq<Bytes>): Drained
    decreases |chunks|
  {
    if |chunks| == 0 then Drained([], buf)
    else
      var d := Drain(cut, buf + chunks[0]);
      var f := Feed(cut, d.rest, chunks[1..]);
      Drained(d.items + f.items, f.rest)
  }

  lemma DrainTwice(cut: Bytes -> Option<nat>, a: Bytes, b: Bytes)
    requires Proper(cut)
    ensures var d := Drain(cut, a);
            var e := Drain(cut, d.rest + b);
            Drain(cut, a + b) == Drained(d.items + e.items, e.rest)
  {
    hide Proper, Concat, Drain, Whole;
    var d := Drain(cut, a);
    var e := Drain(cut, d.rest + b);
    DrainDivides(cut, a);
    DrainDivides(cut, d.rest + b);
    ConcatAppend(d.items, e.items);
    assert a + b == Concat(d.items) + (d.rest + b);
    assert a + b == (Concat(d.items) + Concat(e.items)) + e.rest;
    DivisionIsUnique(cut, a + b, Drained(d.items + e.items, e.rest));
  }

  lemma NothingToDrain(cut: Bytes -> Option<nat>, buf: Bytes)
    requires cut(buf) == None
    ensures Drain(cut, buf) == Drained([], buf)
  {
  }

  /** However a stream is cut into chunks, the items taken out and the rest left are the same. */
  lemma {:induction false} ChunkingIrrelevant(cut: Bytes -> Option<nat>, buf: Bytes, chunks: seq<Bytes>)
    requires Proper(cut) && cut(buf) == None
    ensures Feed(cut, buf, chunks) == Drain(cut, buf + Concat(chunks))
    decreases |chunks|
  {
    hide Proper, Drain, Whole;
    if |chunks| == 0 {
      NothingToDrain(cut, buf);
      assert buf + [] == buf;
    } else {
      var d := Drain(cut, buf + chunks[0]);
      DrainDivides(cut, buf + chunks[0]);
      ChunkingIrrelevant(cut, d.rest, chunks[1..]);
      DrainTwice(cut, buf + chunks[0], Concat(chunks[1..]));
      Regroup(buf, chunks[0], Concat(chunks[1..]));
    }
  }

  // ---- A buffer of limited capacity ----

  /** What append takes of a chunk when cap bytes fit and |buf| are there. */
  function Clip(buf: Bytes, chunk: Bytes, cap: nat): Bytes {
    if |buf| >= cap then []
    else if |chunk| <= cap - |buf| then chunk
    else chunk[..cap - |buf|]
  }

  lemma ClipNothing(buf: Bytes, chunk: Bytes, cap: nat)
    requires |buf| + |chunk| <= cap
    ensures Clip(buf, chunk, cap) == chunk
  {
  }

  /** One chunk: append what fits, then drain. */
  function FeedOne(cut: Bytes -> Option<nat>, cap: nat, buf: Bytes, chunk: Bytes): Drained {
    Drain(cut, buf + Clip(buf, chunk, cap))
  }

  function FeedClipped(cut: Bytes -> Option<nat>, cap: nat, buf: Bytes, chunks: seq<Bytes>): Drained
    decreases |chunks|
  {
    if |chunks| == 0 then Drained([], buf)
    else
      var d := FeedOne(cut, cap, buf, chunks[0]);
      var f := FeedClipped(cut, cap, d.rest, chunks[1..]);
      Drained(d.items + f.items, f.rest)
  }

  /** No append along the way is cut short. */
  ghost predicate Fits(cut: Bytes -> Option<nat>, cap: nat, buf: Bytes, chunks: seq<Bytes>)
    decreases |chunks|
  {
    |chunks| > 0 ==>
      |buf| + |chunks[0]| <= cap && Fits(cut, cap, Drain(cut, buf + chunks[0]).rest, chunks[1..])
  }

  lemma {:induction false} FittingIsUnclipped(cut: Bytes -> Option<nat>, cap: nat, buf: Bytes, chunks: seq<Bytes>)
    requires Fits(cut, cap, buf, chunks)
    ensures FeedClipped(cut, cap, buf, chunks) == Feed(cut, buf, chunks)
    decreases |chunks|
  {
    if |chunks| > 0 {
      ClipNothing(buf, chunks[0], cap);
      FittingIsUnclipped(cut, cap, Drain(cut, buf + chunks[0]).rest, chunks[1..]);
    }
  }

  /** A buffer without a whole item is shorter than the item it begins. */
  lemma RestIsShort(cut: Bytes -> Option<nat>, buf: Bytes, x: Bytes, items: seq<Bytes>, m: nat)
    requires Proper(cut) && cut(buf) == None && buf + x == Concat(items) && m > 0
    requires forall i :: 0 <= i < |items| ==> Whole(cut, items[i]) && |items[i]| <= m
    ensures |buf| < m
  {
    hide Proper;
    if |items| > 0 && |buf| >= |items[0]| {
      var n := |items[0]|;
      assert buf[..n] == (buf + x)[..n] == items[0];
      assert buf == items[0] + buf[n..];
      Stable(cut, items[0], buf[n..]);
    }
  }

  /** Two divisions of one stream agree item by item. */
  lemma {:induction false} PrefixItems(
      cut: Bytes -> Option<nat>, some: seq<Bytes>, r: Bytes, items: seq<Bytes>) returns (later: seq<Bytes>)
    requires Proper(cut) && Concat(some) + r == Concat(items)
    requires forall i :: 0 <= i < |some| ==> Whole(cut, some[i])
    requires forall i :: 0 <= i < |items| ==> Whole(cut, items[i])
    ensures items == some + later && r == Concat(later)
    decreases |some|
  {
    hide Proper;
    if |some| == 0 {
      assert [] + r == r;
      later := items;
    } else {
      var first, more := some[0], Concat(some[1..]) + r;
      var s := Concat(items);
      assert s == first + more;
      Stable(cut, first, more);
      assert |items| > 0 && s == items[0] + Concat(items[1..]);
      Stable(cut, items[0], Concat(items[1..]));
      hide Concat;
      assert first == s[..|first|] == items[0];
      assert more == s[|first|..] == Concat(items[1..]);
      later := PrefixItems(cut, some[1..], r, items[1..]);
      assert items == [items[0]] + items[1..] && some == [some[0]] + some[1..];
    }
  }

  /** What a beginning of a stream of items drains to are the first of them. */
  lemma DrainsFirst(cut: Bytes -> Option<nat>, s: Bytes, x: Bytes, items: seq<Bytes>)
    requires Proper(cut) && s + x == Concat(items)
    requires forall i :: 0 <= i < |items| ==> Whole(cut, items[i])
    ensures Drain(cut, s).items <= items
  {
    hide Proper, Whole, Concat, Drain;
    DrainDivides(cut, s);
    var d := Drain(cut, s);
    Regroup(Concat(d.items), d.rest, x);
    var later := PrefixItems(cut, d.items, d.rest + x, items);
  }

  /** Buffer sufficiency: if the stream consists of items of at most m bytes and at most b bytes
      arrive between drains, m + b - 1 bytes are enough for any number of chunks. */
  lemma {:induction false} Sufficient(cut: Bytes -> Option<nat>, cap: nat, m: nat, b: nat,
                                      buf: Bytes, chunks: seq<Bytes>, x: Bytes, items: seq<Bytes>)
    requires Proper(cut) && cut(buf) == None && m > 0 && m + b <= cap + 1
    requires buf + Concat(chunks) + x == Concat(items)
    requires forall i :: 0 <= i < |items| ==> Whole(cut, items[i]) && |items[i]| <= m
    requires forall i :: 0 <= i < |chunks| ==> |chunks[i]| <= b
    ensures Fits(cut, cap, buf, chunks)
    decreases |chunks|
  {
    hide Proper, Whole, Drain;
    if |chunks| > 0 {
      var c, more := chunks[0], Concat(chunks[1..]);
      assert buf + (c + more + x) == buf + Concat(chunks) + x;
      RestIsShort(cut, buf, c + more + x, items, m);
      var d := Drain(cut, buf + c);
      DrainDivides(cut, buf + c);
      hide Concat;
      assert Concat(d.items) + (d.rest + more + x) == (buf + c) + more + x;
      var later := PrefixItems(cut, d.items, d.rest + more + x, items);
      assert forall i :: 0 <= i < |later| ==> later[i] == items[|d.items| + i];
      Sufficient(cut, cap, m, b, d.rest, chunks[1..], x, later);
    }
  }

  function Singles(s: Bytes): seq<Bytes> {
    if |s| == 0 then [] else [[s[0]]] + Singles(s[1..])
  }

  lemma {:induction false} ConcatSingles(s: Bytes)
    ensures Concat(Singles(s)) == s
    ensures forall i :: 0 <= i < |Singles(s)| ==> |Singles(s)[i]| == 1
  {
    if |s| > 0 {
      ConcatSingles(s[1..]);
      assert Singles(s)[1..] == Singles(s[1..]);
    }
  }

  /** No proper prefix of an item holds an item. */
  lemma PrefixHoldsNone(cut: Bytes -> Option<nat>, item: Bytes, n: nat)
    requires Proper(cut) && Whole(cut, item) && n < |item|
    ensures cut(item[..n]) == None
  {
    hide Proper;
    if cut(item[..n]).Some? {
      Front(cut, item[..n]);
      var k := cut(item[..n]).value;
      assert item == item[..n][..k] + item[k..];
      Stable(cut, item[..n][..k], item[k..]);
    }
  }

  /** The bytes of an item arrive one by one up to its last but one, then a burst comes that
      no longer fits: what came before stays in the buffer, so the burst is cut short. */
  lemma {:induction false} BurstTooLarge(cut: Bytes -> Option<nat>, cap: nat, item: Bytes, n: nat, burst: Bytes)
    requires Proper(cut) && Whole(cut, item) && n < |item| && |item| - 1 + |burst| > cap
    ensures !Fits(cut, cap, item[..n], Singles(item[n..|item| - 1]) + [burst])
    decreases |item| - n
  {
    hide Proper, Whole;
    var later := item[n..|item| - 1];
    if n < |item| - 1 {
      var buf := item[..n] + [later[0]];
      assert buf == item[..n + 1] && later[1..] == item[n + 1..|item| - 1];
      PrefixHoldsNone(cut, item, n + 1);
      assert Drain(cut, buf).rest == buf;
      BurstTooLarge(cut, cap, item, n + 1, burst);
      assert (Singles(later) + [burst])[0] == [later[0]];
      assert (Singles(later) + [burst])[1..] == Singles(later[1..]) + [burst];
    } else {
      assert Singles(later) + [burst] == [burst];
    }
  }
}
