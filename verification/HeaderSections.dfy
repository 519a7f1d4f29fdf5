/** Splitting a stream at empty lines (codechiev/net/http/HttpServer.cpp), the end of the
    header section in section 2.1 of RFC 9112. */
module HeaderSections {
  import opened Runs
  import opened ByteOrder
  import opened CStrings
  import opened Incremental

  const DELIM: Bytes := [13, 10, 13, 10]

  /** The delimiter stands at position p. */
  predicate DelimAt(s: Bytes, p: nat) {
    p + 4 <= |s| && s[p] == 13 && s[p + 1] == 10 && s[p + 2] == 13 && s[p + 3] == 10
  }

  lemma DelimAtIff(s: Bytes, p: nat)
    ensures DelimAt(s, p) <==> p + |DELIM| <= |s| && s[p..p + |DELIM|] == DELIM
  {
    if p + 4 <= |s| {
      assert s[p..p + 4] == [s[p], s[p + 1], s[p + 2], s[p + 3]];
    }
  }

  /** strstr: the leftmost delimiter at or after position p. */
  function Find(s: Bytes, p: nat): (r: Option<nat>)
    ensures r.Some? ==> p <= r.value && DelimAt(s, r.value)
    ensures forall q :: p <= q < (if r.Some? then r.value else |s|) ==> !DelimAt(s, q)
    decreases |s| - p
  {
    if p >= |s| then None
    else if DelimAt(s, p) then Some(p)
    else Find(s, p + 1)
  }

  /** onMessage looks at the buffer as a C string, so a NUL ends what it can find. */
  function HeaderCut(s: Bytes): Option<nat> {
    match Find(CString(s), 0)
    case Some(p) => Some(p + 4)
    case None => None
  }

  lemma FindIs(s: Bytes, p: nat)
    requires DelimAt(s, p) && forall q :: 0 <= q < p ==> !DelimAt(s, q)
    ensures Find(s, 0) == Some(p)
  {
  }

  /** A longer stream has its leftmost delimiter at the same place. */
  lemma FindSame(s: Bytes, t: Bytes, p: nat)
    requires Find(s, 0) == Some(p) && p + 4 <= |t|
    requires t[..p + 4] == s[..p + 4]
    ensures Find(t, 0) == Some(p)
  {
    assert forall k :: 0 <= k < p + 4 ==> s[k] == s[..p + 4][k] == t[k];
    forall q | 0 <= q < p ensures !DelimAt(t, q) {
      assert !DelimAt(s, q);
    }
    FindIs(t, p);
  }

  lemma HeaderProper()
    ensures Proper(HeaderCut)
  {
    forall s: Bytes | HeaderCut(s).Some?
      ensures 0 < HeaderCut(s).value <= |s| && HeaderCut(s[..HeaderCut(s).value]) == HeaderCut(s)
    {
      CutFront(s);
    }
    forall s: Bytes, t: Bytes | HeaderCut(s).Some? ensures HeaderCut(s + t) == HeaderCut(s) {
      CutStable(s, t);
    }
  }

  lemma CutFront(s: Bytes)
    requires HeaderCut(s).Some?
    ensures 0 < HeaderCut(s).value <= |s| && HeaderCut(s[..HeaderCut(s).value]) == HeaderCut(s)
  {
    var c := CString(s);
    var p := Find(c, 0).value;
    var front := s[..p + 4];
    assert front == c[..p + 4];
    NulFreeIff(front);
    FindSame(c, CString(front), p);
  }

  lemma CutStable(s: Bytes, t: Bytes)
    requires HeaderCut(s).Some?
    ensures HeaderCut(s + t) == HeaderCut(s)
  {
    CStringAppend(s, t);
    NulFreeIff(s);
    var c := CString(s);
    var p := Find(c, 0).value;
    FindSame(c, CString(s + t), p);
  }

  /** A NUL-free text that ends with the delimiter and does not contain it earlier, not even
      overlapping its end. */
  predicate DelimitedSection(item: Bytes) {
    && NulFree(item) && |item| >= 4 && DelimAt(item, |item| - 4)
    && forall q :: 0 <= q < |item| - 4 ==> !DelimAt(item, q)
  }

  ghost predicate NoDelimiter(s: Bytes) {
    forall q :: !DelimAt(s, q)
  }

  lemma WholeIff(item: Bytes)
    ensures Whole(HeaderCut, item) <==> DelimitedSection(item)
  {
    NulFreeIff(item);
    if Whole(HeaderCut, item) {
      assert |CString(item)| == |item|;
    }
    if DelimitedSection(item) {
      FindIs(item, |item| - 4);
    }
  }

  lemma NoneIff(s: Bytes)
    ensures HeaderCut(s) == None <==> NoDelimiter(CString(s))
  {
  }

  /** Splitting a stream gives the leftmost non-overlapping delimited sections: it yields d
      exactly when the stream is the items of d followed by its rest, each item is one section
      with its delimiter, and in the rest no delimiter comes before the first NUL. */
  lemma SplitIff(s: Bytes, d: Drained)
    ensures Drain(HeaderCut, s) == d <==>
              && s == Concat(d.items) + d.rest
              && NoDelimiter(CString(d.rest))
              && forall i :: 0 <= i < |d.items| ==> DelimitedSection(d.items[i])
  {
    hide DelimitedSection, NoDelimiter, HeaderCut, Whole, Concat, Drain;
    HeaderProper();
    DrainIff(HeaderCut, s, d);
    NoneIff(d.rest);
    forall i | 0 <= i < |d.items|
      ensures Whole(HeaderCut, d.items[i]) <==> DelimitedSection(d.items[i])
    {
      WholeIff(d.items[i]);
    }
  }

  // ---- Sections arriving in chunks at a buffer of cap bytes ----

  /** The chunks, of at most b bytes each, are the beginning of sections of at most m bytes each,
      their delimiters included. */
  ghost predicate Arrives(m: nat, b: nat, sections: seq<Bytes>, chunks: seq<Bytes>) {
    && (forall i :: 0 <= i < |sections| ==> DelimitedSection(sections[i]) && |sections[i]| <= m)
    && (forall i :: 0 <= i < |chunks| ==> |chunks[i]| <= b)
    && Concat(chunks) <= Concat(sections)
  }

  /** Fed into the buffer chunk by chunk, with every append cut to the room there is, such a
      stream is split as in one piece, and what is taken out are the first of the sections. */
  lemma ChunkedSplit(cap: nat, m: nat, b: nat, sections: seq<Bytes>, chunks: seq<Bytes>)
    requires m > 0 && m + b <= cap + 1 && Arrives(m, b, sections, chunks)
    ensures FeedClipped(HeaderCut, cap, [], chunks) == Drain(HeaderCut, Concat(chunks))
    ensures FeedClipped(HeaderCut, cap, [], chunks).items <= sections
  {
    hide DelimitedSection, HeaderCut, Concat, Drain, Whole, Proper, Fits, Feed, FeedClipped;
    SectionsAreWhole(sections);
    HeaderProper();
    EmptyHoldsNoSection();
    var s := Concat(chunks);
    var x := Concat(sections)[|s|..];
    assert [] + s == s && s + x == Concat(sections);
    Sufficient(HeaderCut, cap, m, b, [], chunks, x, sections);
    FittingIsUnclipped(HeaderCut, cap, [], chunks);
    ChunkingIrrelevant(HeaderCut, [], chunks);
    DrainsFirst(HeaderCut, s, x, sections);
  }

  lemma EmptyHoldsNoSection()
    ensures HeaderCut([]) == None
  {
  }

  lemma SectionsAreWhole(sections: seq<Bytes>)
    requires forall i :: 0 <= i < |sections| ==> DelimitedSection(sections[i])
    ensures forall i :: 0 <= i < |sections| ==> Whole(HeaderCut, sections[i])
  {
    forall i | 0 <= i < |sections| ensures Whole(HeaderCut, sections[i]) {
      WholeIff(sections[i]);
    }
  }

  /** A NUL stops everything behind it: once one is in the buffer before any delimiter, no later
      chunk brings out another section. */
  lemma {:induction false} NulBlocks(buf: Bytes, chunks: seq<Bytes>)
    requires !NulFree(buf) && HeaderCut(buf) == None
    ensures Feed(HeaderCut, buf, chunks).items == []
    decreases |chunks|
  {
    if |chunks| > 0 {
      CStringAppend(buf, chunks[0]);
      assert HeaderCut(buf + chunks[0]) == None;
      NulBlocks(buf + chunks[0], chunks[1..]);
    }
  }
}
