/** Which stretches of an index are records, character by character. */
module ExtractionMeaning {
  import opened Text
  import opened RecordExtraction

  /** The text between the two places ends with a line end and an empty line, of either kind. */
  ghost predicate BlankLine(s: string, from: nat, to: nat)
    requires from <= to <= |s|
  {
    || (to - from >= 2 && s[to - 2] == '\n' && s[to - 1] == '\n')
    || (to - from >= 4 && s[to - 4] == '\r' && s[to - 3] == '\n' && s[to - 2] == '\r' && s[to - 1] == '\n')
  }

  /** A line end of either kind starts here. */
  ghost predicate LineEnd(s: string, at: nat) {
    (at < |s| && s[at] == '\n') || (at + 1 < |s| && s[at] == '\r' && s[at + 1] == '\n')
  }

  /** It starts the stream or follows an empty line, and it ends the stream, with an empty line, or before one. */
  ghost predicate Whole(s: string, begin: nat, end: nat) {
    && begin < end <= |s|
    && (begin == 0 || BlankLine(s, 0, begin))
    && (end == |s| || BlankLine(s, begin, end) || (s[end - 1] == '\n' && LineEnd(s, end)))
  }

  lemma OneMeans(t: string)
    ensures Ends(t, "\n") <==> |t| >= 1 && t[|t| - 1] == '\n'
  {
    if |t| >= 1 {
      var end := t[|t| - 1..];
      assert |end| == 1 && end[0] == t[|t| - 1];
    }
  }

  lemma TwoMeans(t: string)
    ensures Ends(t, "\n\n") <==> |t| >= 2 && t[|t| - 2] == '\n' && t[|t| - 1] == '\n'
  {
    if |t| >= 2 {
      var end := t[|t| - 2..];
      assert |end| == 2 && end[0] == t[|t| - 2] && end[1] == t[|t| - 1];
    }
  }

  lemma FourMeans(t: string)
    ensures Ends(t, "\r\n\r\n") <==>
            |t| >= 4 && t[|t| - 4] == '\r' && t[|t| - 3] == '\n' && t[|t| - 2] == '\r' && t[|t| - 1] == '\n'
  {
    if |t| >= 4 {
      var end := t[|t| - 4..];
      assert |end| == 4 && end[0] == t[|t| - 4] && end[1] == t[|t| - 3] && end[2] == t[|t| - 2] && end[3] == t[|t| - 1];
    }
  }

  lemma FromEnd(s: string, from: nat, to: nat, k: nat)
    requires from <= to <= |s| && 0 < k <= to - from
    ensures s[from..to][|s[from..to]| - k] == s[to - k]
  {
  }

  lemma EndsMeans(s: string, from: nat, to: nat)
    requires from <= to <= |s|
    ensures Ends(s[from..to], "\n\n") || Ends(s[from..to], "\r\n\r\n") <==> BlankLine(s, from, to)
    ensures Ends(s[from..to], "\n") <==> from < to && s[to - 1] == '\n'
  {
    hide Ends;
    var t := s[from..to];
    OneMeans(t);
    TwoMeans(t);
    FourMeans(t);
    if to - from >= 1 { FromEnd(s, from, to, 1); }
    if to - from >= 2 { FromEnd(s, from, to, 2); }
    if to - from >= 4 { FromEnd(s, from, to, 3); }
    if to - from >= 4 { FromEnd(s, from, to, 4); }
  }

  lemma RestMeans(s: string, at: nat)
    requires at <= |s|
    ensures "\n" <= s[at..] || "\r\n" <= s[at..] <==> LineEnd(s, at)
  {
    var rest := s[at..];
    assert "\n" <= rest <==> |rest| >= 1 && rest[0] == '\n';
    assert "\r\n" <= rest <==> |rest| >= 2 && rest[0] == '\r' && rest[1] == '\n';
  }

  lemma ParagraphMeans(s: string, l: Locator)
    requires l.size > 0
    ensures Paragraph(s, l) <==> Whole(s, l.offset, l.offset + l.size)
  {
    hide Ends;
    if l.offset + l.size <= |s| {
      assert s[..l.offset] == s[0..l.offset];
      EndsMeans(s, 0, l.offset);
      EndsMeans(s, l.offset, l.offset + l.size);
      RestMeans(s, l.offset + l.size);
    }
  }

  /** What reading gives for a stream: an error for more than 512 MiB, else the records when all of them are whole. */
  ghost function Reading(s: string, ls: seq<Locator>): Extracted {
    if |s| > MAXIMUM_INDEX_BYTES then Failed(TooLarge) else Outcome(s, ByBegin(Windows(ls)))
  }

  lemma ReadingMeans(s: string, ls: seq<Locator>)
    requires forall l :: l in ls ==> l.size > 0
    ensures Reading(s, ls).Records? <==> |s| <= 536870912 && forall l :: l in ls ==> Whole(s, l.offset, l.offset + l.size)
    ensures Reading(s, ls).Records? ==>
              var records := Reading(s, ls).records;
              && |records| == |ls|
              && (forall l :: l in ls && l.offset + l.size <= |s| ==> s[l.offset..l.offset + l.size] in records)
  {
    hide Paragraph, Outcome, Whole, ByBegin, Windows, WindowOf;
    var rs := ByBegin(Windows(ls));
    OutcomeExact(s, rs);
    SortedWindows(ls);
    AllSorted(ls);
    forall l | l in ls
      ensures Paragraph(s, l) <==> Whole(s, l.offset, l.offset + l.size)
      ensures exists i :: 0 <= i < |rs| && rs[i].locator == l
    {
      ParagraphMeans(s, l);
      Sorted(ls, l);
    }
  }

  lemma AllSorted(ls: seq<Locator>)
    ensures |ByBegin(Windows(ls))| == |ls|
  {
    assert |multiset(ByBegin(Windows(ls)))| == |multiset(Windows(ls))|;
  }

  lemma Sorted(ls: seq<Locator>, l: Locator)
    requires l in ls
    ensures exists i :: 0 <= i < |ByBegin(Windows(ls))| && ByBegin(Windows(ls))[i].locator == l
  {
    var k :| 0 <= k < |ls| && ls[k] == l;
    assert Windows(ls)[k] == WindowOf(l);
    assert WindowOf(l) in multiset(Windows(ls));
    assert WindowOf(l) in ByBegin(Windows(ls));
  }

  /** The records come in the order of their places in the index. */
  lemma ReadingOrdered(s: string, ls: seq<Locator>, i: nat, j: nat)
    requires (forall l :: l in ls ==> l.size > 0) && Reading(s, ls).Records? && i < j < |ls|
    ensures |Reading(s, ls).records| == |ls|
    ensures exists l, m :: l in ls && m in ls
              && l.offset + l.size <= |s| && m.offset + m.size <= |s|
              && Reading(s, ls).records[i] == s[l.offset..l.offset + l.size]
              && Reading(s, ls).records[j] == s[m.offset..m.offset + m.size]
              && (l.offset <= m.offset || (l.offset <= 4 && m.offset <= 4))
  {
    hide Ends, Outcome;
    var rs := ByBegin(Windows(ls));
    OutcomeExact(s, rs);
    SortedWindows(ls);
    AllSorted(ls);
    ByBeginOrders(Windows(ls));
    var l, m := rs[i].locator, rs[j].locator;
    assert rs[i].begin <= rs[j].begin;
    assert Paragraph(s, l) && Paragraph(s, m);
  }

  /** Sizes up to the largest unsigned 64-bit integer. */
  lemma LargestSize()
    ensures UINT64_MAX == 18446744073709551615
  {
  }
}
