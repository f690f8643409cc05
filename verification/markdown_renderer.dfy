/** The answer text renderer (components/MarkdownRenderer.tsx): the text is cut into
    lines and each line becomes one block, decided by the first rule that applies —
    second- and third-level headings, bold key/value list items, plain list items,
    blank spacers, and paragraphs with inline bold runs. */
module MarkdownRenderer {
  import opened Text
  import opened Seqs
  import Types

  /** Two asterisks start at `k`. */
  predicate IsStarPair(s: string, k: nat) {
    k + 1 < |s| && s[k] == '*' && s[k + 1] == '*'
  }

  /** The lazy part `(.*?)\*\*` of the bold pattern, tried from `j`, stops at `e`:
      `e` is the first place from `j` on where two asterisks start, and no line
      terminator (which `.` does not match) comes before it. */
  ghost predicate CloseAt(s: string, j: nat, e: nat) {
    && j <= e && IsStarPair(s, e)
    && forall k :: j <= k < e ==> !IsLineTerminator(s[k]) && !IsStarPair(s, k)
  }

  /** The closing asterisks for a bold run whose text starts at `j`, if any. */
  function CloseFrom(s: string, j: nat): (r: Types.Option<nat>)
    ensures r.Some? ==> CloseAt(s, j, r.value)
    ensures r.None? ==> forall e :: !CloseAt(s, j, e)
    decreases |s| - j
  {
    if j + 2 > |s| then Types.None
    else if IsStarPair(s, j) then Types.Some(j)
    else if IsLineTerminator(s[j]) then Types.None
    else
      CloseAtStep(s, j);
      CloseFrom(s, j + 1)
  }

  /** Past a character that is neither a terminator nor the start of two asterisks,
      the lazy search goes on from the next one. */
  lemma CloseAtStep(s: string, j: nat)
    requires j + 2 <= |s| && !IsStarPair(s, j) && !IsLineTerminator(s[j])
    ensures forall e :: CloseAt(s, j, e) ==> CloseAt(s, j + 1, e)
  {
  }

  /** `s[q..e + 2]` is a match of `\*\*(.*?)\*\*` whose closing asterisks start at `e`. */
  ghost predicate BoldAt(s: string, q: nat, e: nat) {
    IsStarPair(s, q) && CloseAt(s, q + 2, e)
  }

  /** The bold pattern tried at `q`: where its closing asterisks start, or nothing
      when it does not match there. */
  function BoldClose(s: string, q: nat): (r: Types.Option<nat>)
    ensures r.Some? ==> BoldAt(s, q, r.value)
    ensures r.None? ==> forall e :: !BoldAt(s, q, e)
  {
    if IsStarPair(s, q) then CloseFrom(s, q + 2) else Types.None
  }

  /** `"**" + t + "**"`. */
  function Wrap(t: string): string
  {
    "**" + t + "**"
  }

  function WrapAll(ts: seq<string>): (r: seq<string>)
    ensures |r| == |ts|
    ensures forall i :: 0 <= i < |ts| ==> r[i] == Wrap(ts[i])
  {
    if |ts| == 0 then [] else [Wrap(ts[0])] + WrapAll(ts[1..])
  }

  /** The text outside the bold runs, and the text inside each run. */
  datatype BoldSplit = BoldSplit(pieces: seq<string>, inners: seq<string>)

  /** The global search for `\*\*(.*?)\*\*` that both `split` and `replace` perform,
      scanning from `q` with the current outside piece starting at `p`: the pattern
      is tried at each position in turn, and after a match the search resumes past
      its closing asterisks. */
  function BoldScan(s: string, p: nat, q: nat): (r: BoldSplit)
    requires p <= q <= |s|
    ensures |r.pieces| == |r.inners| + 1
    ensures Interleave(r.pieces, WrapAll(r.inners)) == s[p..]
    decreases |s| - q
  {
    if q == |s| then BoldSplit([s[p..]], [])
    else
      match BoldClose(s, q)
      case None => BoldScan(s, p, q + 1)
      case Some(e) =>
        var rest := BoldScan(s, e + 2, e + 2);
        var r := BoldSplit([s[p..q]] + rest.pieces, [s[q + 2..e]] + rest.inners);
        BoldAtWrap(s, q, e);
        assert r.pieces[1..] == rest.pieces && r.inners[1..] == rest.inners;
        assert s[p..] == s[p..q] + s[q..e + 2] + s[e + 2..];
        r
  }

  /** A bold match is its inner text between two pairs of asterisks. */
  lemma BoldAtWrap(s: string, q: nat, e: nat)
    requires BoldAt(s, q, e)
    ensures q + 2 <= e && e + 2 <= |s| && Wrap(s[q + 2..e]) == s[q..e + 2]
  {
    assert s[q..e + 2] == s[q..q + 2] + s[q + 2..e] + s[e..e + 2];
    assert s[q..q + 2] == "**" && s[e..e + 2] == "**";
  }

  /** The text inside a bold run holds neither a line terminator nor two asterisks
      in a row. */
  ghost predicate PlainRun(t: string) {
    forall k :: 0 <= k < |t| ==> !IsLineTerminator(t[k]) && !IsStarPair(t, k)
  }

  lemma BoldInnerPlain(s: string, q: nat, e: nat)
    requires BoldAt(s, q, e)
    ensures PlainRun(s[q + 2..e])
  {
    var t := s[q + 2..e];
    forall k | 0 <= k < |t| ensures !IsLineTerminator(t[k]) && !IsStarPair(t, k) {
      assert t[k] == s[q + 2 + k];
      assert !IsStarPair(s, q + 2 + k);
    }
  }

  lemma {:induction false} BoldScanInners(s: string, p: nat, q: nat)
    requires p <= q <= |s|
    ensures forall i :: 0 <= i < |BoldScan(s, p, q).inners| ==> PlainRun(BoldScan(s, p, q).inners[i])
    decreases |s| - q
  {
    if q < |s| {
      match BoldClose(s, q)
      case None =>
        BoldScanInners(s, p, q + 1);
      case Some(e) =>
        BoldScanInners(s, e + 2, e + 2);
        BoldInnerPlain(s, q, e);
    }
  }

  /** A text without two asterisks in a row from `q` on is one outside piece. */
  lemma {:induction false} BoldScanNone(s: string, p: nat, q: nat)
    requires p <= q <= |s|
    requires forall k :: q <= k ==> !IsStarPair(s, k)
    ensures BoldScan(s, p, q) == BoldSplit([s[p..]], [])
    decreases |s| - q
  {
    if q < |s| {
      BoldScanNone(s, p, q + 1);
    }
  }

  /** Somewhere in `t` the bold pattern matches. */
  ghost predicate HasBold(t: string) {
    exists q: nat, e: nat :: BoldAt(t, q, e)
  }

  /** A bold match inside `s[p..r]` is a bold match in `s`. */
  lemma BoldAtFromSlice(s: string, p: nat, r: nat, q: nat, e: nat)
    requires p <= r <= |s| && BoldAt(s[p..r], q, e)
    ensures BoldAt(s, p + q, p + e)
  {
    var t := s[p..r];
    assert IsStarPair(t, q) && IsStarPair(t, e);
    assert t[q] == s[p + q] && t[q + 1] == s[p + q + 1];
    assert t[e] == s[p + e] && t[e + 1] == s[p + e + 1];
    forall k | p + q + 2 <= k < p + e
      ensures !IsLineTerminator(s[k]) && !IsStarPair(s, k)
    {
      assert !IsLineTerminator(t[k - p]) && !IsStarPair(t, k - p);
      assert t[k - p] == s[k] && t[k - p + 1] == s[k + 1];
    }
  }

  /** A bold match inside `s[p..r]` is a place in `s`, between `p` and `r`, where the
      search finds one. */
  lemma BoldInSlice(s: string, p: nat, r: nat)
    requires p <= r <= |s|
    ensures HasBold(s[p..r]) ==> exists k :: p <= k < r && BoldClose(s, k).Some?
  {
    if HasBold(s[p..r]) {
      var q: nat, e: nat :| BoldAt(s[p..r], q, e);
      BoldAtFromSlice(s, p, r, q, e);
      assert BoldClose(s, p + q).Some?;
    }
  }

  /** The search finds nothing at any position from `p` up to, not including, `q`. */
  ghost predicate NoBoldCut(s: string, p: nat, q: nat)
    decreases q
  {
    q <= p || (BoldClose(s, q - 1).None? && NoBoldCut(s, p, q - 1))
  }

  lemma {:induction false} NoBoldCutAll(s: string, p: nat, q: nat)
    requires NoBoldCut(s, p, q)
    ensures forall k :: p <= k < q ==> BoldClose(s, k).None?
    decreases q
  {
    if q > p {
      NoBoldCutAll(s, p, q - 1);
    }
  }

  /** A stretch where the search finds nothing holds no bold match. */
  lemma PieceBoldFree(s: string, p: nat, r: nat)
    requires p <= r <= |s| && NoBoldCut(s, p, r)
    ensures !HasBold(s[p..r])
  {
    NoBoldCutAll(s, p, r);
    BoldInSlice(s, p, r);
  }

  /** Every element is free of bold matches. */
  ghost predicate AllBoldFree(pieces: seq<string>) {
    forall i :: 0 <= i < |pieces| ==> !HasBold(pieces[i])
  }

  lemma AllBoldFreeCons(x: string, xs: seq<string>)
    requires !HasBold(x) && AllBoldFree(xs)
    ensures AllBoldFree([x] + xs)
  {
    assert forall i :: 0 < i < |[x] + xs| ==> ([x] + xs)[i] == xs[i - 1];
  }

  /** No outside piece contains a match of the bold pattern: the search misses none. */
  lemma {:induction false} BoldScanPieces(s: string, p: nat, q: nat)
    requires p <= q <= |s| && NoBoldCut(s, p, q)
    ensures AllBoldFree(BoldScan(s, p, q).pieces)
    decreases |s| - q
  {
    if q == |s| {
      BoldScanLast(s, p);
    } else if BoldClose(s, q).Some? {
      var e := BoldClose(s, q).value;
      BoldScanPieces(s, e + 2, e + 2);
      BoldScanCut(s, p, q, e);
    } else {
      BoldScanPieces(s, p, q + 1);
    }
  }

  lemma BoldScanLast(s: string, p: nat)
    requires p <= |s| && NoBoldCut(s, p, |s|)
    ensures AllBoldFree(BoldScan(s, p, |s|).pieces)
  {
    PieceBoldFree(s, p, |s|);
    assert s[p..] == s[p..|s|];
    AllBoldFreeCons(s[p..], []);
  }

  lemma BoldScanCut(s: string, p: nat, q: nat, e: nat)
    requires p <= q < |s| && BoldClose(s, q) == Types.Some(e) && NoBoldCut(s, p, q)
    requires e + 2 <= |s| && AllBoldFree(BoldScan(s, e + 2, e + 2).pieces)
    ensures AllBoldFree(BoldScan(s, p, q).pieces)
  {
    PieceBoldFree(s, p, q);
    AllBoldFreeCons(s[p..q], BoldScan(s, e + 2, e + 2).pieces);
  }

  /** A run is found only where the pattern matches. */
  lemma {:induction false} BoldScanFound(s: string, p: nat, q: nat)
    requires p <= q <= |s|
    ensures |BoldScan(s, p, q).inners| > 0 ==> HasBold(s)
    decreases |s| - q
  {
    if q < |s| {
      match BoldClose(s, q)
      case None =>
        BoldScanFound(s, p, q + 1);
      case Some(e) =>
        assert BoldAt(s, q, e);
    }
  }

  /** The outside pieces and inside texts of a whole line: the pieces hold no match
      of the bold pattern, so every run the pattern finds is one of the inner texts,
      and a line with a match has at least one run. */
  function BoldRuns(s: string): (r: BoldSplit)
    ensures |r.pieces| == |r.inners| + 1
    ensures Interleave(r.pieces, WrapAll(r.inners)) == s
    ensures forall i :: 0 <= i < |r.inners| ==> PlainRun(r.inners[i])
    ensures forall i :: 0 <= i < |r.pieces| ==> !HasBold(r.pieces[i])
    ensures |r.inners| == 0 <==> !HasBold(s)
  {
    BoldScanInners(s, 0, 0);
    BoldScanPieces(s, 0, 0);
    BoldScanFound(s, 0, 0);
    BoldScan(s, 0, 0)
  }

  /** `replace` with the global bold pattern and a callback returning the captured
      text: every bold run loses its asterisks. */
  function StripBold(s: string): string
  {
    var r := BoldRuns(s);
    Interleave(r.pieces, r.inners)
  }

  lemma {:induction false} InterleaveWrapLength(pieces: seq<string>, inners: seq<string>)
    requires |pieces| == |inners| + 1
    ensures |Interleave(pieces, WrapAll(inners))| == |Interleave(pieces, inners)| + 4 * |inners|
  {
    if |inners| > 0 {
      assert WrapAll(inners)[1..] == WrapAll(inners[1..]);
      InterleaveWrapLength(pieces[1..], inners[1..]);
    }
  }

  /** Stripping removes exactly four asterisks per bold run; a text in which the bold
      pattern matches gets shorter, and one in which it does not (in particular one
      without two asterisks in a row) is left as it is. */
  lemma StripBoldFacts(s: string)
    ensures |StripBold(s)| == |s| - 4 * |BoldRuns(s).inners|
    ensures HasBold(s) ==> |StripBold(s)| <= |s| - 4
    ensures !HasBold(s) ==> StripBold(s) == s
    ensures (forall k :: !IsStarPair(s, k)) ==> StripBold(s) == s
  {
    var r := BoldRuns(s);
    InterleaveWrapLength(r.pieces, r.inners);
    if forall k :: !IsStarPair(s, k) {
      BoldScanNone(s, 0, 0);
    }
  }

  /** The list `split` returns for a pattern with one capture group: the outside
      pieces with the captured texts between them. */
  function Parts(pieces: seq<string>, seps: seq<string>): (r: seq<string>)
    requires |pieces| == |seps| + 1
    ensures |r| == 2 * |seps| + 1
  {
    if |seps| == 0 then [pieces[0]] else [pieces[0], seps[0]] + Parts(pieces[1..], seps[1..])
  }

  lemma {:induction false} PartsIndex(pieces: seq<string>, seps: seq<string>, i: nat)
    requires |pieces| == |seps| + 1
    requires i < 2 * |seps| + 1
    ensures i % 2 == 0 ==> Parts(pieces, seps)[i] == pieces[i / 2]
    ensures i % 2 == 1 ==> Parts(pieces, seps)[i] == seps[i / 2]
  {
    if i >= 2 {
      PartsIndex(pieces[1..], seps[1..], i - 2);
    }
  }

  lemma {:induction false} ConcatParts(pieces: seq<string>, seps: seq<string>)
    requires |pieces| == |seps| + 1
    ensures Concat(Parts(pieces, seps)) == Interleave(pieces, seps)
  {
    if |seps| == 0 {
      assert Concat([pieces[0]]) == pieces[0] + Concat([]);
    } else {
      var r := Parts(pieces, seps);
      ConcatParts(pieces[1..], seps[1..]);
      assert r[1..] == [seps[0]] + Parts(pieces[1..], seps[1..]);
      assert r[1..][1..] == Parts(pieces[1..], seps[1..]);
    }
  }

  /** `line.split(/(\*\*.*?\*\*)/g)`: the outside pieces, which hold no match of the
      bold pattern, alternating with the whole bold runs, asterisks included. */
  function SplitBold(line: string): (parts: seq<string>)
    ensures |parts| == 2 * |BoldRuns(line).inners| + 1
    ensures Concat(parts) == line
    ensures forall i :: 0 <= i < |parts| && i % 2 == 0 ==>
      parts[i] == BoldRuns(line).pieces[i / 2] && !HasBold(parts[i])
    ensures forall i :: 0 <= i < |parts| && i % 2 == 1 ==>
      parts[i] == Wrap(BoldRuns(line).inners[i / 2]) && PlainRun(BoldRuns(line).inners[i / 2])
  {
    var r := BoldRuns(line);
    ConcatParts(r.pieces, WrapAll(r.inners));
    PartsWrapped(r.pieces, r.inners);
    Parts(r.pieces, WrapAll(r.inners))
  }

  lemma PartsWrapped(pieces: seq<string>, inners: seq<string>)
    requires |pieces| == |inners| + 1
    ensures forall i :: 0 <= i < |Parts(pieces, WrapAll(inners))| && i % 2 == 0 ==>
      Parts(pieces, WrapAll(inners))[i] == pieces[i / 2]
    ensures forall i :: 0 <= i < |Parts(pieces, WrapAll(inners))| && i % 2 == 1 ==>
      Parts(pieces, WrapAll(inners))[i] == Wrap(inners[i / 2])
  {
    forall i | 0 <= i < |Parts(pieces, WrapAll(inners))|
      ensures i % 2 == 0 ==> Parts(pieces, WrapAll(inners))[i] == pieces[i / 2]
      ensures i % 2 == 1 ==> Parts(pieces, WrapAll(inners))[i] == Wrap(inners[i / 2])
    {
      PartsIndex(pieces, WrapAll(inners), i);
    }
  }

  /** A piece of paragraph text: shown as is, or in bold. */
  datatype Segment = Plain(text: string) | Bold(text: string)

  /** The markup a segment stands for. */
  function Markup(seg: Segment): string
  {
    match seg
    case Plain(t) => t
    case Bold(t) => Wrap(t)
  }

  function MarkupAll(segs: seq<Segment>): string
  {
    Concat(seq(|segs|, i requires 0 <= i < |segs| => Markup(segs[i])))
  }

  /** `part.slice(2, -2)`. */
  function SliceInner(part: string): (r: string)
    ensures |part| >= 4 ==> r == part[2..|part| - 2]
    ensures |part| < 4 ==> r == []
  {
    var start := if 2 < |part| then 2 else |part|;
    var end := if |part| > 2 then |part| - 2 else 0;
    if start < end then part[start..end] else []
  }

  /** The paragraph's choice for each part, as written: any part that starts and ends
      with two asterisks is shown in bold without them. */
  function SegmentAsWritten(part: string): (r: Segment)
    ensures r.Bold? <==> StartsWith(part, "**") && EndsWith(part, "**")
    ensures r.Plain? ==> r.text == part
    ensures r.Bold? ==> r.text == SliceInner(part)
  {
    if StartsWith(part, "**") && EndsWith(part, "**") then Bold(SliceInner(part)) else Plain(part)
  }

  /** The paragraph as written: every captured run is bold with its own text, and an
      outside piece is shown as typed unless it starts and ends with two asterisks. */
  function ParagraphAsWritten(line: string): (r: seq<Segment>)
    ensures |r| == |SplitBold(line)|
    ensures forall i :: 0 <= i < |r| ==> r[i] == SegmentAsWritten(SplitBold(line)[i])
    ensures forall i :: 0 <= i < |r| && i % 2 == 1 ==> r[i] == Bold(BoldRuns(line).inners[i / 2])
    ensures forall i :: 0 <= i < |r| && i % 2 == 0 ==>
      (r[i] == Plain(BoldRuns(line).pieces[i / 2]) <==>
        !(StartsWith(BoldRuns(line).pieces[i / 2], "**") && EndsWith(BoldRuns(line).pieces[i / 2], "**")))
  {
    var parts := SplitBold(line);
    forall i | 0 <= i < |parts| && i % 2 == 1
      ensures SegmentAsWritten(parts[i]) == Bold(BoldRuns(line).inners[i / 2])
    {
      WrapInner(BoldRuns(line).inners[i / 2]);
    }
    seq(|parts|, i requires 0 <= i < |parts| => SegmentAsWritten(parts[i]))
  }

  /** A line of two asterisks is an outside piece, yet the test as written shows it
      as an empty bold run, so the asterisks the author typed disappear. */
  lemma ParagraphAsWrittenLosesText()
    ensures ParagraphAsWritten("**") == [Bold("")]
    ensures MarkupAll(ParagraphAsWritten("**")) != "**"
  {
    var s := "**";
    assert BoldClose(s, 0).None?;
    assert BoldClose(s, 1).None?;
    assert BoldScan(s, 0, 0) == BoldScan(s, 0, 1) == BoldScan(s, 0, 2);
    assert BoldRuns(s) == BoldSplit([s], []);
    assert SplitBold(s) == [s];
    var segs := ParagraphAsWritten(s);
    assert Markup(segs[0]) == "****";
    assert seq(|segs|, i requires 0 <= i < |segs| => Markup(segs[i])) == ["****"];
    assert Concat(["****"]) == "****" + Concat([]);
  }

  /** The paragraph's choice for each part by where the split put it: the captured
      runs are bold, the outside pieces are shown exactly as typed. */
  function ParagraphSegments(line: string): (r: seq<Segment>)
    ensures |r| == |SplitBold(line)|
    ensures forall i :: 0 <= i < |r| ==> (r[i].Bold? <==> i % 2 == 1)
  {
    var parts := SplitBold(line);
    seq(|parts|, i requires 0 <= i < |parts| =>
      if i % 2 == 1 then Bold(BoldRuns(line).inners[i / 2]) else Plain(parts[i]))
  }

  /** The segments give back the line exactly, and each bold segment is a run that
      holds no line terminator and no two asterisks in a row. */
  lemma ParagraphRoundTrip(line: string)
    ensures MarkupAll(ParagraphSegments(line)) == line
    ensures forall i :: 0 <= i < |ParagraphSegments(line)| && ParagraphSegments(line)[i].Bold? ==>
      PlainRun(ParagraphSegments(line)[i].text)
  {
    var segs := ParagraphSegments(line);
    var parts := SplitBold(line);
    assert forall i :: 0 <= i < |segs| ==> Markup(segs[i]) == parts[i];
    assert seq(|segs|, i requires 0 <= i < |segs| => Markup(segs[i])) == parts;
  }

  lemma WrapInner(t: string)
    ensures StartsWith(Wrap(t), "**") && EndsWith(Wrap(t), "**")
    ensures SliceInner(Wrap(t)) == t
  {
    var w := Wrap(t);
    assert w[..2] == "**";
    assert w[|w| - 2..] == "**";
    assert w[2..|w| - 2] == t;
  }

  /** The test as written and the positional choice differ exactly on the outside
      pieces that happen to start and end with two asterisks. */
  lemma ParagraphAsWrittenDiffers(line: string, i: nat)
    requires i < |SplitBold(line)|
    ensures ParagraphAsWritten(line)[i] != ParagraphSegments(line)[i] <==>
      ParagraphSegments(line)[i].Plain? && StartsWith(ParagraphSegments(line)[i].text, "**")
        && EndsWith(ParagraphSegments(line)[i].text, "**")
  {
    if i % 2 == 1 {
      WrapInner(BoldRuns(line).inners[i / 2]);
    }
  }

  /** One rendered line. */
  datatype Block =
    | Heading2(text: string)
    | Heading3(text: string)
    | KeyValue(key: string, value: string)
    | ListItem(text: string)
    | Spacer
    | Paragraph(segments: seq<Segment>)

  /** `line.replace(/^[\-\*]\s/, '')`: a leading dash or asterisk and the blank after it. */
  function StripListMarker(line: string): (r: string)
    ensures r == line || (|line| >= 2 && (line[0] == '-' || line[0] == '*') && IsSpace(line[1]) && r == line[2..])
  {
    if |line| >= 2 && (line[0] == '-' || line[0] == '*') && IsSpace(line[1]) then line[2..] else line
  }

  /** The trimmed line opens a list item with a bold run. */
  predicate IsKeyValueLine(line: string) {
    StartsWith(Trim(line), "- **") || StartsWith(Trim(line), "* **")
  }

  /** The trimmed line opens a list item. */
  predicate IsListLine(line: string) {
    StartsWith(Trim(line), "- ") || StartsWith(Trim(line), "* ")
  }

  /** The block for one line: the first rule that applies wins. A key/value line whose
      text holds fewer than two pairs of asterisks falls through to the list rule, and
      a paragraph is cut into segments by the test as written. */
  function ClassifyLine(line: string): (r: Block)
    ensures r.Heading2? <==> StartsWith(line, "## ")
    ensures r.Heading2? ==> "## " + r.text == line
    ensures r.Heading3? <==> StartsWith(line, "### ")
    ensures r.Heading3? ==> "### " + r.text == line
    ensures r.KeyValue? <==> IsKeyValueLine(line) && |SplitOn(StripListMarker(line), "**")| >= 3
    ensures r.KeyValue? ==> (r.key == SplitOn(StripListMarker(line), "**")[1]
      && r.value == Join(SplitOn(StripListMarker(line), "**")[2..], "**"))
    ensures r.ListItem? <==> IsListLine(line) && !r.KeyValue?
    ensures r.ListItem? ==> r.text == StripBold(StripListMarker(line))
    ensures r.Paragraph? <==> !StartsWith(line, "## ") && !StartsWith(line, "### ") && !IsListLine(line) && !AllSpace(line)
    ensures r.Paragraph? ==> r.segments == ParagraphAsWritten(line)
  {
    HeadingsExclusive(line);
    if StartsWith(line, "## ") then
      ReplaceFirstPrefix(line, "## ");
      HeadingNotList(line);
      Heading2(ReplaceFirst(line, "## ", ""))
    else if StartsWith(line, "### ") then
      ReplaceFirstPrefix(line, "### ");
      HeadingNotList(line);
      Heading3(ReplaceFirst(line, "### ", ""))
    else
      var parts := SplitOn(StripListMarker(line), "**");
      if IsKeyValueLine(line) && |parts| >= 3 then
        KeyValueIsList(line);
        KeyValue(parts[1], Join(parts[2..], "**"))
      else if IsListLine(line) then
        ListItem(StripBold(StripListMarker(line)))
      else
        assert Trim(line) == [] <==> AllSpace(line);
        if Trim(line) == [] then Spacer else Paragraph(ParagraphAsWritten(line))
  }

  /** The third character tells the two heading prefixes apart. */
  lemma HeadingsExclusive(line: string)
    ensures !(StartsWith(line, "## ") && StartsWith(line, "### "))
  {
    if StartsWith(line, "## ") {
      assert line[2] == line[..3][2] == ' ';
    }
  }

  /** A list line starts, after any whitespace, with a dash or an asterisk, so a
      heading line is never one, nor a key/value line. */
  lemma HeadingNotList(line: string)
    requires StartsWith(line, "## ") || StartsWith(line, "### ")
    ensures !IsListLine(line) && !IsKeyValueLine(line)
  {
    assert line[0] == '#';
    TrimFirst(line);
    var t := Trim(line);
    assert |t| > 0 && t[0] == '#';
    KeyValueIsList(line);
  }

  /** A key/value line is a list line. */
  lemma KeyValueIsList(line: string)
    ensures IsKeyValueLine(line) ==> IsListLine(line)
  {
    if IsKeyValueLine(line) {
      var t := Trim(line);
      assert t[..2] == t[..4][..2];
    }
  }

  /** A key/value item is the marker-stripped line cut at its first two pairs of
      asterisks: the key holds no pair, and putting the pairs back restores the text
      after whatever came before the first pair. */
  lemma KeyValueRoundTrip(line: string)
    requires ClassifyLine(line).KeyValue?
    ensures !Contains(ClassifyLine(line).key, "**")
    ensures exists lead :: (!Contains(lead, "**")
      && StripListMarker(line) == lead + "**" + ClassifyLine(line).key + "**" + ClassifyLine(line).value)
  {
    var parts := SplitOn(StripListMarker(line), "**");
    JoinFirstTwo(parts, "**");
    assert StripListMarker(line) == parts[0] + "**" + parts[1] + "**" + Join(parts[2..], "**");
  }

  lemma JoinFirstTwo(parts: seq<string>, sep: string)
    requires |parts| >= 3
    ensures Join(parts, sep) == parts[0] + sep + parts[1] + sep + Join(parts[2..], sep)
  {
    assert parts[1..][1..] == parts[2..];
  }

  /** A line is a spacer exactly when it is all whitespace. */
  lemma SpacerIffBlank(line: string)
    ensures ClassifyLine(line).Spacer? <==> AllSpace(line)
  {
    if StartsWith(line, "## ") {
      assert line[..3][0] == '#';
    }
    if StartsWith(line, "### ") {
      assert line[..4][0] == '#';
    }
  }

  /** An outside piece of two or three asterisks, which the test as written shows as
      an empty bold run. */
  predicate LoneStars(t: string) {
    t == "**" || t == "***"
  }

  /** What the markup of one segment chosen as written is: the part itself, except for
      lone asterisks, which come back as four. */
  lemma SegmentMarkup(part: string)
    ensures |Markup(SegmentAsWritten(part))| >= |part|
    ensures Markup(SegmentAsWritten(part)) == part <==> !LoneStars(part)
    ensures LoneStars(part) ==> |Markup(SegmentAsWritten(part))| > |part|
  {
    if StartsWith(part, "**") && EndsWith(part, "**") {
      if |part| >= 4 {
        WrapSliceInner(part);
      } else {
        ShortStars(part);
      }
    }
  }

  lemma WrapSliceInner(part: string)
    requires |part| >= 4 && StartsWith(part, "**") && EndsWith(part, "**")
    ensures Wrap(SliceInner(part)) == part
  {
    assert part == part[..2] + part[2..|part| - 2] + part[|part| - 2..];
  }

  lemma ShortStars(part: string)
    requires |part| < 4 && StartsWith(part, "**") && EndsWith(part, "**")
    ensures LoneStars(part) && Wrap(SliceInner(part)) == "****"
  {
    if |part| == 3 {
      assert part == "***";
    } else {
      assert part == "**";
    }
  }

  /** The segments a paragraph block shows (see `ClassifyLine`) give back its line
      exactly when no outside piece is a lone `**` or `***`; such a piece comes back
      longer. */
  lemma ParagraphKeepsLine(line: string)
    ensures MarkupAll(ParagraphAsWritten(line)) == line <==>
      forall j :: 0 <= j < |BoldRuns(line).pieces| ==> !LoneStars(BoldRuns(line).pieces[j])
  {
    if forall j :: 0 <= j < |BoldRuns(line).pieces| ==> !LoneStars(BoldRuns(line).pieces[j]) {
      AsWrittenKeeps(line);
    } else {
      var j :| 0 <= j < |BoldRuns(line).pieces| && LoneStars(BoldRuns(line).pieces[j]);
      AsWrittenGrows(line, j);
    }
  }

  /** The markups of the parts, each segment chosen as written. */
  function AsWrittenMarkups(parts: seq<string>): (ms: seq<string>)
    ensures |ms| == |parts|
  {
    seq(|parts|, i requires 0 <= i < |parts| => Markup(SegmentAsWritten(parts[i])))
  }

  lemma AsWrittenMarkupAll(line: string)
    ensures MarkupAll(ParagraphAsWritten(line)) == Concat(AsWrittenMarkups(SplitBold(line)))
  {
    var segs := ParagraphAsWritten(line);
    assert seq(|segs|, i requires 0 <= i < |segs| => Markup(segs[i])) == AsWrittenMarkups(SplitBold(line));
  }

  /** Without lone asterisks the markups are the parts themselves. */
  lemma MarkupsKeep(parts: seq<string>)
    requires forall i :: 0 <= i < |parts| ==> !LoneStars(parts[i])
    ensures AsWrittenMarkups(parts) == parts
  {
    forall i | 0 <= i < |parts|
      ensures AsWrittenMarkups(parts)[i] == parts[i]
    {
      SegmentMarkup(parts[i]);
    }
  }

  /** With lone asterisks at `j` the markups are longer than the parts. */
  lemma MarkupsGrow(parts: seq<string>, j: nat)
    requires j < |parts| && LoneStars(parts[j])
    ensures |Concat(AsWrittenMarkups(parts))| > |Concat(parts)|
  {
    var ms := AsWrittenMarkups(parts);
    forall i | 0 <= i < |parts|
      ensures |ms[i]| >= |parts[i]|
    {
      SegmentMarkup(parts[i]);
    }
    SegmentMarkup(parts[j]);
    ConcatLonger(ms, parts, j);
  }

  lemma AsWrittenKeeps(line: string)
    requires forall j :: 0 <= j < |BoldRuns(line).pieces| ==> !LoneStars(BoldRuns(line).pieces[j])
    ensures MarkupAll(ParagraphAsWritten(line)) == line
  {
    var parts := SplitBold(line);
    assert forall i :: 0 <= i < |parts| && i % 2 == 1 ==> |parts[i]| >= 4;
    assert forall i :: 0 <= i < |parts| ==> !LoneStars(parts[i]);
    MarkupsKeep(parts);
    AsWrittenMarkupAll(line);
  }

  lemma AsWrittenGrows(line: string, j: nat)
    requires j < |BoldRuns(line).pieces| && LoneStars(BoldRuns(line).pieces[j])
    ensures |MarkupAll(ParagraphAsWritten(line))| > |line|
  {
    var parts := SplitBold(line);
    assert parts[2 * j] == BoldRuns(line).pieces[j];
    MarkupsGrow(parts, 2 * j);
    AsWrittenMarkupAll(line);
  }

  /** `content.split('\n').map(...)`: the text cut at its newlines, one block per
      line, each decided by the rules for that line alone. */
  function Render(content: string): (r: seq<Block>)
    ensures |r| == CountChar(content, '\n') + 1
    ensures |r| == |SplitOn(content, "\n")|
    ensures forall i :: 0 <= i < |r| ==> r[i] == ClassifyLine(SplitOn(content, "\n")[i])
    ensures Join(SplitOn(content, "\n"), "\n") == content
    ensures forall i :: 0 <= i < |r| ==> '\n' !in SplitOn(content, "\n")[i]
  {
    var lines := SplitOn(content, "\n");
    forall m | 0 <= m < |lines| ensures '\n' !in lines[m] {
      NotContainsChar(lines[m], '\n');
    }
    CountCharJoin(lines, '\n');
    seq(|lines|, i requires 0 <= i < |lines| => ClassifyLine(lines[i]))
  }
}
