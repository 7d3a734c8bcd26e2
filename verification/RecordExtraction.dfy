/**
 * Cutting reviewed records out of a decoded index while it streams past in chunks of any size.
 */
module RecordExtraction {
  import opened Text

  const MAXIMUM_INDEX_BYTES: nat := 512 * 1024 * 1024
  const UINT64_MAX: nat := 0xffff_ffff_ffff_ffff

  /** Where a record lies in the index. */
  datatype Locator = Locator(offset: nat, size: nat)

  datatype Range = Range(begin: nat, end: nat, locator: Locator, bytes: string)

  datatype Failure = TooLarge | OutOfRange | Boundary

  datatype Extracted = Records(records: seq<string>) | Failed(failure: Failure)

  function Min(a: nat, b: nat): nat {
    if a <= b then a else b
  }

  function Max(a: nat, b: nat): nat {
    if a >= b then a else b
  }

  // ---------------------------------------------------------------------------------------------
  // Slices of a growing stream

  /** What the stream holds of a range so far. */
  function Slice(stream: string, begin: nat, end: nat): string {
    if begin <= end then stream[Min(begin, |stream|)..Min(end, |stream|)] else ""
  }

  lemma SliceGrows(stream: string, chunk: string, begin: nat, end: nat)
    requires begin <= end
    ensures var next, total := Slice(stream + chunk, begin, end), |stream| + |chunk|;
            if end <= |stream| || begin >= total then next == Slice(stream, begin, end)
            else next == Slice(stream, begin, end) + chunk[Max(|stream|, begin) - |stream|..Min(total, end) - |stream|]
  {
    hide Slice;
    if end <= |stream| {
      SliceDone(stream, chunk, begin, end);
    } else if begin >= |stream| + |chunk| {
      SliceAhead(stream, chunk, begin, end);
    } else {
      SliceTakes(stream, chunk, begin, end);
    }
  }

  lemma SliceDone(stream: string, chunk: string, begin: nat, end: nat)
    requires begin <= end <= |stream|
    ensures Slice(stream + chunk, begin, end) == Slice(stream, begin, end)
  {
    assert (stream + chunk)[begin..end] == stream[begin..end];
  }

  lemma SliceAhead(stream: string, chunk: string, begin: nat, end: nat)
    requires |stream| + |chunk| <= begin <= end
    ensures Slice(stream + chunk, begin, end) == Slice(stream, begin, end)
  {
  }

  lemma SliceTakes(stream: string, chunk: string, begin: nat, end: nat)
    requires begin <= end && end > |stream| && begin < |stream| + |chunk|
    ensures Slice(stream + chunk, begin, end) ==
            Slice(stream, begin, end) + chunk[Max(|stream|, begin) - |stream|..Min(|stream| + |chunk|, end) - |stream|]
  {
    var n, to := |stream|, Min(|stream| + |chunk|, end);
    if begin <= n { Straddles(stream, chunk, begin, to); } else { Beyond(stream, chunk, begin, to); }
  }

  lemma Straddles(x: string, y: string, lo: nat, hi: nat)
    requires lo <= |x| <= hi <= |x| + |y|
    ensures (x + y)[lo..hi] == x[lo..] + y[..hi - |x|]
  {
    var s, t := (x + y)[lo..hi], x[lo..] + y[..hi - |x|];
    forall k | 0 <= k < |s|
      ensures s[k] == t[k]
    {
      assert s[k] == (x + y)[lo + k];
    }
  }

  lemma Beyond(x: string, y: string, lo: nat, hi: nat)
    requires |x| <= lo <= hi <= |x| + |y|
    ensures (x + y)[lo..hi] == y[lo - |x|..hi - |x|]
  {
    var s, t := (x + y)[lo..hi], y[lo - |x|..hi - |x|];
    forall k | 0 <= k < |s|
      ensures s[k] == t[k]
    {
      assert s[k] == (x + y)[lo + k];
    }
  }

  // ---------------------------------------------------------------------------------------------
  // Ranges in order

  predicate Ordered(rs: seq<Range>) {
    forall i, j :: 0 <= i < j < |rs| ==> rs[i].begin <= rs[j].begin
  }

  function Place(rs: seq<Range>, r: Range): (out: seq<Range>)
    ensures multiset(out) == multiset(rs) + multiset{r}
  {
    if |rs| == 0 || rs[|rs| - 1].begin <= r.begin then rs + [r]
    else
      assert rs == rs[..|rs| - 1] + [rs[|rs| - 1]];
      Place(rs[..|rs| - 1], r) + [rs[|rs| - 1]]
  }

  function ByBegin(rs: seq<Range>): (out: seq<Range>)
    ensures multiset(out) == multiset(rs)
  {
    if |rs| == 0 then []
    else
      assert rs == rs[..|rs| - 1] + [rs[|rs| - 1]];
      Place(ByBegin(rs[..|rs| - 1]), rs[|rs| - 1])
  }

  lemma {:induction false} PlaceOrders(rs: seq<Range>, r: Range)
    requires Ordered(rs)
    ensures Ordered(Place(rs, r))
    ensures forall k :: 0 <= k < |Place(rs, r)| ==> Place(rs, r)[k] == r || Place(rs, r)[k] in rs
  {
    if |rs| > 0 && rs[|rs| - 1].begin > r.begin {
      PlaceOrders(rs[..|rs| - 1], r);
    }
  }

  lemma {:induction false} ByBeginOrders(rs: seq<Range>)
    ensures Ordered(ByBegin(rs))
  {
    if |rs| > 0 {
      ByBeginOrders(rs[..|rs| - 1]);
      PlaceOrders(ByBegin(rs[..|rs| - 1]), rs[|rs| - 1]);
    }
  }

  // ---------------------------------------------------------------------------------------------
  // Windows

  /** The range a record is read with: a little before and a little behind it. */
  function WindowOf(l: Locator): Range {
    Range(if l.offset > 4 then l.offset - 4 else 0, l.offset + l.size + 2, l, "")
  }

  function Windows(ls: seq<Locator>): seq<Range> {
    seq(|ls|, k requires 0 <= k < |ls| => WindowOf(ls[k]))
  }

  predicate Ends(s: string, tail: string) {
    |s| >= |tail| && s[|s| - |tail|..] == tail
  }

  /** A record is a whole paragraph of the stream. */
  predicate Paragraph(stream: string, l: Locator) {
    && l.offset + l.size <= |stream|
    && (l.offset == 0 || Ends(stream[..l.offset], "\n\n") || Ends(stream[..l.offset], "\r\n\r\n"))
    && var record, rest := stream[l.offset..l.offset + l.size], stream[l.offset + l.size..];
       || |rest| == 0 || Ends(record, "\n\n") || Ends(record, "\r\n\r\n")
       || (Ends(record, "\n") && ("\n" <= rest || "\r\n" <= rest))
  }

  function VerdictOn(stream: string, l: Locator): Option<Failure> {
    if l.offset + l.size > |stream| then Some(OutOfRange) else if Paragraph(stream, l) then None else Some(Boundary)
  }

  /** The outcome of the whole extraction, from the whole stream. */
  function Outcome(stream: string, rs: seq<Range>): Extracted {
    if |rs| == 0 then Records([])
    else
      var l, before := rs[|rs| - 1].locator, Outcome(stream, rs[..|rs| - 1]);
      if before.Failed? then before
      else
        match VerdictOn(stream, l)
        case Some(failure) => Failed(failure)
        case None => if l.offset + l.size <= |stream| then Records(before.records + [stream[l.offset..l.offset + l.size]]) else before
  }

  // ---------------------------------------------------------------------------------------------
  // The consumer

  class Extraction {
    var ranges: seq<Range>
    var offset: nat
    var first: nat
    ghost var stream: string

    ghost predicate Valid()
      reads this
    {
      && Ordered(ranges) && offset == |stream| <= MAXIMUM_INDEX_BYTES && first <= |ranges|
      && Caught(ranges, stream)
      && (forall i :: 0 <= i < first ==> ranges[i].end <= offset)
    }

    constructor (ls: seq<Locator>)
      ensures Valid() && stream == "" && SameRanges(ranges, ByBegin(Windows(ls)))
    {
      var sorted := ByBegin(Windows(ls));
      ByBeginOrders(Windows(ls));
      SortedWindows(ls);
      ranges, offset, first, stream := sorted, 0, 0, "";
    }

    /** Takes the next chunk; however the stream is cut, every range gets its own part of it. */
    method Consume(chunk: string) returns (ok: bool)
      requires Valid()
      modifies this
      ensures ok == (old(|stream|) + |chunk| <= MAXIMUM_INDEX_BYTES)
      ensures Valid() && SameRanges(ranges, old(ranges))
      ensures stream == if ok then old(stream) + chunk else old(stream)
    {
      hide Slice, Ordered;
      if |chunk| > MAXIMUM_INDEX_BYTES - offset { return false; }
      first := Advance(ranges, offset, first);
      ranges := Deliver(ranges, first, offset, chunk, stream);
      offset, stream := offset + |chunk|, stream + chunk;
      ok := true;
    }
  }

  /** Every range has its part of the stream so far. */
  predicate Caught(rs: seq<Range>, stream: string) {
    forall i :: 0 <= i < |rs| ==> rs[i].begin <= rs[i].end && rs[i].bytes == Slice(stream, rs[i].begin, rs[i].end)
  }

  /** A range with its part of the chunk at an offset added. */
  function Fed(r: Range, offset: nat, chunk: string): Range
    requires r.begin <= r.end && r.begin < offset + |chunk|
  {
    if r.end <= offset then r
    else r.(bytes := r.bytes + chunk[Max(offset, r.begin) - offset..Min(offset + |chunk|, r.end) - offset])
  }

  method Deliver(rs: seq<Range>, first: nat, offset: nat, chunk: string, ghost stream: string) returns (out: seq<Range>)
    requires Ordered(rs) && offset == |stream| && first <= |rs| && Caught(rs, stream)
    requires forall i :: 0 <= i < first ==> rs[i].end <= offset
    ensures SameRanges(out, rs) && Caught(out, stream + chunk) && Ordered(out)
  {
    hide Slice;
    out := rs;
    var i := first;
    while i < |rs| && out[i].begin < offset + |chunk|
      invariant first <= i <= |rs| == |out|
      invariant forall j :: first <= j < i ==> rs[j].begin < offset + |chunk| && out[j] == Fed(rs[j], offset, chunk)
      invariant forall j :: 0 <= j < |rs| && !(first <= j < i) ==> out[j] == rs[j]
    {
      out := out[i := Fed(out[i], offset, chunk)];
      i := i + 1;
    }
    forall j | 0 <= j < |rs|
      ensures out[j].(bytes := "") == rs[j].(bytes := "") && out[j].bytes == Slice(stream + chunk, rs[j].begin, rs[j].end)
    {
      SliceGrows(stream, chunk, rs[j].begin, rs[j].end);
      if j >= i { assert rs[i].begin <= rs[j].begin; }
    }
  }

  /** Skips the ranges at the front that the stream has left behind. */
  method Advance(rs: seq<Range>, offset: nat, from: nat) returns (first: nat)
    requires from <= |rs|
    ensures from <= first <= |rs| && forall i :: from <= i < first ==> rs[i].end <= offset
    ensures first < |rs| ==> rs[first].end > offset
  {
    first := from;
    while first < |rs| && rs[first].end <= offset
      invariant from <= first <= |rs| && forall i :: from <= i < first ==> rs[i].end <= offset
    {
      first := first + 1;
    }
  }

  /** The same ranges but for what has been read of them. */
  predicate SameRanges(xs: seq<Range>, ys: seq<Range>) {
    |xs| == |ys| && forall i :: 0 <= i < |xs| ==> xs[i].(bytes := "") == ys[i].(bytes := "")
  }

  lemma SortedWindows(ls: seq<Locator>)
    ensures forall i :: 0 <= i < |ByBegin(Windows(ls))| ==>
              ByBegin(Windows(ls))[i] == WindowOf(ByBegin(Windows(ls))[i].locator) && ByBegin(Windows(ls))[i].locator in ls
  {
    var rs, out := Windows(ls), ByBegin(Windows(ls));
    forall i | 0 <= i < |out|
      ensures out[i] == WindowOf(out[i].locator) && out[i].locator in ls
    {
      assert out[i] in multiset(rs);
      var k :| 0 <= k < |rs| && rs[k] == out[i];
    }
  }

  // ---------------------------------------------------------------------------------------------
  // The records

  /** Looking four bytes back is enough to find either blank line. */
  lemma WindowEnds(whole: string, window: string, tail: string)
    requires |tail| <= 4 && |window| == Min(4, |whole|) && window == whole[|whole| - |window|..]
    ensures Ends(window, tail) == Ends(whole, tail)
  {
    if |tail| <= |window| {
      assert whole[|whole| - |tail|..] == window[|window| - |tail|..];
    }
  }

  /** Looking two bytes ahead is enough to find either line end. */
  lemma WindowStarts(rest: string, after: string)
    requires |after| == Min(2, |rest|) && after == rest[..|after|]
    ensures ("\n" <= rest) == ("\n" <= after) && ("\r\n" <= rest) == ("\r\n" <= after)
  {
  }

  lemma SliceOfSlice(s: string, lo: nat, hi: nat, from: nat, to: nat)
    requires lo <= from <= to <= hi <= |s|
    ensures s[lo..hi][from - lo..to - lo] == s[from..to]
  {
    var x, y := s[lo..hi][from - lo..to - lo], s[from..to];
    assert |x| == |y|;
    forall k | 0 <= k < |x|
      ensures x[k] == y[k]
    {
      assert x[k] == s[lo..hi][from - lo + k] == s[from + k];
    }
  }

  /** The parts of a window are parts of the stream. */
  lemma WindowParts(stream: string, l: Locator, bytes: string)
    requires bytes == Slice(stream, WindowOf(l).begin, WindowOf(l).end) && l.offset + l.size <= |stream|
    ensures var prefix := l.offset - WindowOf(l).begin;
            var rest := stream[l.offset + l.size..];
            && |bytes| == prefix + l.size + Min(2, |rest|) && prefix == Min(4, l.offset)
            && bytes[..prefix] == stream[..l.offset][l.offset - prefix..]
            && bytes[prefix..prefix + l.size] == stream[l.offset..l.offset + l.size]
            && bytes[prefix + l.size..] == rest[..Min(2, |rest|)]
  {
    var lo, hi, at, to := WindowOf(l).begin, Min(l.offset + l.size + 2, |stream|), l.offset, l.offset + l.size;
    WindowIs(stream, l, bytes);
    Front(stream, lo, hi, at);
    SliceOfSlice(stream, lo, hi, at, to);
    Back(stream, lo, hi, to);
  }

  lemma WindowIs(stream: string, l: Locator, bytes: string)
    requires bytes == Slice(stream, WindowOf(l).begin, WindowOf(l).end) && l.offset + l.size <= |stream|
    ensures bytes == stream[WindowOf(l).begin..Min(l.offset + l.size + 2, |stream|)]
  {
  }

  lemma Front(s: string, lo: nat, hi: nat, at: nat)
    requires lo <= at <= hi <= |s|
    ensures s[lo..hi][..at - lo] == s[..at][lo..]
  {
    SliceOfSlice(s, lo, hi, lo, at);
    SliceOfSlice(s, 0, at, lo, at);
  }

  lemma Back(s: string, lo: nat, hi: nat, at: nat)
    requires lo <= at <= hi <= |s|
    ensures s[lo..hi][at - lo..] == s[at..][..hi - at]
  {
    SliceOfSlice(s, lo, hi, at, hi);
    SliceOfSlice(s, at, |s|, at, hi);
  }

  lemma EndsWithLine(record: string)
    requires |record| > 0
    ensures Ends(record, "\n") == (record[|record| - 1] == '\n')
  {
    assert record[|record| - 1..] == [record[|record| - 1]];
  }

  /** A record is taken from its window exactly when it is a whole paragraph of the stream. */
  method TakeRecord(bytes: string, l: Locator, total: nat, ghost stream: string) returns (failure: Option<Failure>, record: string)
    requires bytes == Slice(stream, WindowOf(l).begin, WindowOf(l).end) && total == |stream| && l.size > 0
    ensures failure == VerdictOn(stream, l)
    ensures failure.None? ==> l.offset + l.size <= |stream| && record == stream[l.offset..l.offset + l.size]
  {
    hide Slice, Ends;
    record := "";
    var prefix := l.offset - WindowOf(l).begin;
    if l.offset + l.size > total { return Some(OutOfRange), ""; }
    WindowParts(stream, l, bytes);
    if |bytes| < prefix + l.size { return Some(OutOfRange), ""; }
    var before := bytes[..prefix];
    WindowEnds(stream[..l.offset], before, "\n\n");
    WindowEnds(stream[..l.offset], before, "\r\n\r\n");
    if l.offset != 0 && !Ends(before, "\n\n") && !Ends(before, "\r\n\r\n") { return Some(Boundary), ""; }
    record := bytes[prefix..prefix + l.size];
    var after := bytes[prefix + l.size..];
    WindowStarts(stream[l.offset + l.size..], after);
    EndsWithLine(record);
    if l.offset + l.size != total && !Ends(record, "\n\n") && !Ends(record, "\r\n\r\n")
       && !(record[|record| - 1] == '\n' && ("\n" <= after || "\r\n" <= after)) { return Some(Boundary), ""; }
    failure := None;
  }

  method TakeRecords(ranges: seq<Range>, total: nat, ghost stream: string) returns (r: Extracted)
    requires Caught(ranges, stream) && total == |stream|
    requires forall i :: 0 <= i < |ranges| ==>
               ranges[i].(bytes := "") == WindowOf(ranges[i].locator) && ranges[i].locator.size > 0
    ensures r == Outcome(stream, ranges)
  {
    hide Slice, VerdictOn;
    var records: seq<string> := [];
    for i := 0 to |ranges|
      invariant Outcome(stream, ranges[..i]) == Records(records)
    {
      assert ranges[..i + 1][..i] == ranges[..i];
      var failure, record := TakeRecord(ranges[i].bytes, ranges[i].locator, total, stream);
      if failure.Some? {
        StillFailed(stream, ranges, i + 1);
        return Failed(failure.value);
      }
      records := records + [record];
    }
    assert ranges[..|ranges|] == ranges;
    r := Records(records);
  }

  /** The first failure decides. */
  lemma {:induction false} StillFailed(stream: string, rs: seq<Range>, k: nat)
    requires k <= |rs| && Outcome(stream, rs[..k]).Failed?
    ensures Outcome(stream, rs) == Outcome(stream, rs[..k])
    decreases |rs|
  {
    if k < |rs| {
      assert rs[..|rs| - 1][..k] == rs[..k];
      StillFailed(stream, rs[..|rs| - 1], k);
    } else {
      assert rs[..k] == rs;
    }
  }

  lemma {:induction false} OutcomeUnread(stream: string, xs: seq<Range>, ys: seq<Range>)
    requires SameRanges(xs, ys)
    ensures Outcome(stream, xs) == Outcome(stream, ys)
    decreases |xs|
  {
    hide VerdictOn;
    if |xs| > 0 {
      var n := |xs| - 1;
      assert xs[n].(bytes := "") == ys[n].(bytes := "");
      assert SameRanges(xs[..n], ys[..n]);
      OutcomeUnread(stream, xs[..n], ys[..n]);
    }
  }

  function Joined(chunks: seq<string>): string {
    if |chunks| == 0 then "" else Joined(chunks[..|chunks| - 1]) + chunks[|chunks| - 1]
  }

  lemma {:induction false} JoinedGrows(chunks: seq<string>, k: nat)
    requires k <= |chunks|
    ensures |Joined(chunks[..k])| <= |Joined(chunks)|
    decreases |chunks|
  {
    if k < |chunks| {
      assert chunks[..|chunks| - 1][..k] == chunks[..k];
      JoinedGrows(chunks[..|chunks| - 1], k);
    } else {
      assert chunks[..k] == chunks;
    }
  }

  /** The outcome of the extraction depends on the stream, not on how it was cut into chunks. */
  method ReadRecords(chunks: seq<string>, ls: seq<Locator>) returns (r: Extracted)
    requires forall i :: 0 <= i < |ls| ==> ls[i].size > 0
    ensures r == if |Joined(chunks)| > MAXIMUM_INDEX_BYTES then Failed(TooLarge)
                 else Outcome(Joined(chunks), ByBegin(Windows(ls)))
  {
    hide Slice, Ordered, Caught;
    var extraction := new Extraction(ls);
    for k := 0 to |chunks|
      invariant fresh(extraction) && extraction.Valid() && extraction.stream == Joined(chunks[..k])
      invariant SameRanges(extraction.ranges, ByBegin(Windows(ls)))
    {
      assert chunks[..k + 1][..k] == chunks[..k];
      var ok := extraction.Consume(chunks[k]);
      if !ok {
        JoinedGrows(chunks, k + 1);
        return Failed(TooLarge);
      }
    }
    assert chunks[..|chunks|] == chunks;
    SortedWindows(ls);
    forall i | 0 <= i < |extraction.ranges|
      ensures extraction.ranges[i].(bytes := "") == WindowOf(extraction.ranges[i].locator) && extraction.ranges[i].locator.size > 0
    {
      assert extraction.ranges[i].(bytes := "") == ByBegin(Windows(ls))[i].(bytes := "");
    }
    r := TakeRecords(extraction.ranges, extraction.offset, extraction.stream);
    OutcomeUnread(extraction.stream, extraction.ranges, ByBegin(Windows(ls)));
  }

  /** Records come out if and only if every record is a paragraph of the stream, and then each is its own. */
  lemma {:induction false} OutcomeExact(stream: string, rs: seq<Range>)
    ensures Outcome(stream, rs).Records? <==> forall i :: 0 <= i < |rs| ==> Paragraph(stream, rs[i].locator)
    ensures Outcome(stream, rs).Records? ==>
              |Outcome(stream, rs).records| == |rs|
              && forall i :: 0 <= i < |rs| && rs[i].locator.offset + rs[i].locator.size <= |stream| ==>
                   Outcome(stream, rs).records[i] == stream[rs[i].locator.offset..rs[i].locator.offset + rs[i].locator.size]
  {
    hide Ends;
    if |rs| > 0 {
      OutcomeExact(stream, rs[..|rs| - 1]);
      assert rs == rs[..|rs| - 1] + [rs[|rs| - 1]];
    }
  }

  // ---------------------------------------------------------------------------------------------
  // Sizes

  function ValueOf(s: string): nat {
    if |s| == 0 then 0
    else ValueOf(s[..|s| - 1]) * 10 + (if Digit(s[|s| - 1]) then s[|s| - 1] as nat - '0' as nat else 0)
  }

  lemma {:induction false} ValueGrows(s: string, k: nat)
    requires k <= |s|
    ensures ValueOf(s[..k]) <= ValueOf(s)
    decreases |s|
  {
    if k < |s| {
      assert s[..|s| - 1][..k] == s[..k];
      ValueGrows(s[..|s| - 1], k);
    } else {
      assert s[..k] == s;
    }
  }

  /** Digits only, and exactly up to the largest 64-bit value; leading zeros are allowed. */
  method Decimal(s: string) returns (r: Option<nat>)
    ensures r == if |s| > 0 && (forall k :: 0 <= k < |s| ==> Digit(s[k])) && ValueOf(s) <= UINT64_MAX then Some(ValueOf(s)) else None
  {
    if |s| == 0 { return None; }
    var value: nat := 0;
    for k := 0 to |s|
      invariant value == ValueOf(s[..k]) <= UINT64_MAX && forall j :: 0 <= j < k ==> Digit(s[j])
    {
      assert s[..k + 1][..k] == s[..k];
      ValueGrows(s, k + 1);
      if !Digit(s[k]) { return None; }
      if value > (UINT64_MAX - (s[k] as nat - '0' as nat)) / 10 { return None; }
      value := value * 10 + (s[k] as nat - '0' as nat);
    }
    assert s[..|s|] == s;
    r := Some(value);
  }
}
