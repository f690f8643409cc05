/** The answer panel (components/ResultDisplay.tsx): the split of the answer text
    into its four numbered sections, the choice between the tabbed and the plain
    layout, and the per-tab filter of the reference list. */
module ResultDisplay {
  import opened Text
  import opened Seqs
  import Types
  import SourceList

  type Source = Types.Source

  /** `s[q..e]` matches the section marker `\n?##\s*\d+\.?\s+`, cut at the indices
      `h` (after the optional newline), `a` (after the spaces following `##`),
      `b` (after the digits) and `c` (after the optional dot). */
  predicate MarkerCut(s: string, q: nat, e: nat, h: nat, a: nat, b: nat, c: nat) {
    && q <= h <= q + 1 && h + 2 <= a < b <= c < e <= |s|
    && (h == q + 1 ==> s[q] == '\n')
    && s[h] == '#' && s[h + 1] == '#'
    && (forall k :: h + 2 <= k < a ==> IsSpace(s[k]))
    && (forall k :: a <= k < b ==> IsDigit(s[k]))
    && c <= b + 1 && (c == b + 1 ==> s[b] == '.')
    && (forall k :: c <= k < e ==> IsSpace(s[k]))
  }

  /** The pattern matches `s` from `q` to `e`. */
  ghost predicate MarkerMatch(s: string, q: nat, e: nat) {
    exists h: nat, a: nat, b: nat, c: nat :: MarkerCut(s, q, e, h, a, b, c)
  }

  /** The marker matched at position `q` of `s`, if any, given as the index just past
      the match. The classes of the pattern do not overlap, so backtracking never
      changes the outcome: the optional newline, the optional dot and every repeated
      class are taken as far as they go. */
  function MarkerEnd(s: string, q: nat): (e: Types.Option<nat>)
    requires q <= |s|
    ensures e.Some? ==> q < e.value <= |s|
  {
    var h := if q < |s| && s[q] == '\n' then q + 1 else q;
    if !(h + 2 <= |s| && s[h] == '#' && s[h + 1] == '#') then Types.None
    else
      var a := SkipSpaces(s, h + 2);
      var b := SkipDigits(s, a);
      if b == a then Types.None
      else
        var c := if b < |s| && s[b] == '.' then b + 1 else b;
        var e := SkipSpaces(s, c);
        if e == c then Types.None else Types.Some(e)
  }

  /** The skips stop exactly at the first index where their class fails. */
  lemma SkipSpacesExact(s: string, i: nat, j: nat)
    requires i <= j <= |s|
    requires forall k :: i <= k < j ==> IsSpace(s[k])
    requires j < |s| ==> !IsSpace(s[j])
    ensures SkipSpaces(s, i) == j
  {
  }

  lemma SkipDigitsExact(s: string, i: nat, j: nat)
    requires i <= j <= |s|
    requires forall k :: i <= k < j ==> IsDigit(s[k])
    requires j < |s| ==> !IsDigit(s[j])
    ensures SkipDigits(s, i) == j
  {
  }

  /** What `MarkerEnd` finds is a match of the marker, and the match swallows the
      whole run of whitespace after the number. */
  lemma MarkerEndSound(s: string, q: nat)
    requires q <= |s|
    ensures MarkerEnd(s, q).Some? ==> MarkerMatch(s, q, MarkerEnd(s, q).value)
    ensures MarkerEnd(s, q).Some? ==> MarkerEnd(s, q).value == |s| || !IsSpace(s[MarkerEnd(s, q).value])
  {
    if MarkerEnd(s, q).Some? {
      var h := if q < |s| && s[q] == '\n' then q + 1 else q;
      var a := SkipSpaces(s, h + 2);
      var b := SkipDigits(s, a);
      var c := if b < |s| && s[b] == '.' then b + 1 else b;
      assert MarkerCut(s, q, MarkerEnd(s, q).value, h, a, b, c);
    }
  }

  /** What `MarkerEnd` finds, cut out of the text, is a marker on its own. */
  lemma MarkerEndIsMarker(s: string, q: nat, e: nat)
    requires q <= |s| && MarkerEnd(s, q) == Types.Some(e)
    ensures IsMarker(s[q..e])
  {
    var h := if q < |s| && s[q] == '\n' then q + 1 else q;
    var a := SkipSpaces(s, h + 2);
    var b := SkipDigits(s, a);
    var c := if b < |s| && s[b] == '.' then b + 1 else b;
    MarkerEndCut(s, q, e, h, a, b, c);
    CutToSlice(s, q, e, q, e, h, a, b, c);
    assert |s[q..e]| == e - q;
  }

  /** The indices `MarkerEnd` computes are the cuts of a match. */
  lemma MarkerEndCut(s: string, q: nat, e: nat, h: nat, a: nat, b: nat, c: nat)
    requires q <= |s| && MarkerEnd(s, q) == Types.Some(e)
    requires h == if q < |s| && s[q] == '\n' then q + 1 else q
    requires h + 2 <= |s| && a == SkipSpaces(s, h + 2) && b == SkipDigits(s, a)
    requires c == if b < |s| && s[b] == '.' then b + 1 else b
    ensures MarkerCut(s, q, e, h, a, b, c)
  {
  }

  /** Every match of the marker that starts at `q` is found, and `MarkerEnd` reports
      the longest one, as the greedy pattern does. */
  lemma MarkerEndComplete(s: string, q: nat, e: nat)
    requires MarkerMatch(s, q, e)
    ensures MarkerEnd(s, q).Some? && e <= MarkerEnd(s, q).value
    ensures forall k :: e <= k < MarkerEnd(s, q).value ==> IsSpace(s[k])
  {
    var h: nat, a: nat, b: nat, c: nat :| MarkerCut(s, q, e, h, a, b, c);
    CutStart(s, q, e, h, a, b, c);
    SkipSpacesPast(s, c, e);
    MarkerEndValue(s, q, h, a, b, c);
  }

  /** `MarkerEnd` once its intermediate indices are known and the match succeeds. */
  lemma MarkerEndValue(s: string, q: nat, h: nat, a: nat, b: nat, c: nat)
    requires q <= |s| && h == if q < |s| && s[q] == '\n' then q + 1 else q
    requires h + 2 <= |s| && s[h] == '#' && s[h + 1] == '#'
    requires a == SkipSpaces(s, h + 2) && b == SkipDigits(s, a) && a < b
    requires c == if b < |s| && s[b] == '.' then b + 1 else b
    requires c < SkipSpaces(s, c)
    ensures MarkerEnd(s, q) == Types.Some(SkipSpaces(s, c))
  {
  }

  /** A match fixes every cut but the last: the optional parts and the runs up to
      the number's end are what `MarkerEnd` computes. */
  lemma CutStart(s: string, q: nat, e: nat, h: nat, a: nat, b: nat, c: nat)
    requires MarkerCut(s, q, e, h, a, b, c)
    ensures h == if q < |s| && s[q] == '\n' then q + 1 else q
    ensures SkipSpaces(s, h + 2) == a && SkipDigits(s, a) == b
    ensures c == if b < |s| && s[b] == '.' then b + 1 else b
  {
    SkipSpacesExact(s, h + 2, a);
    SkipDigitsExact(s, a, b);
  }

  lemma SkipSpacesPast(s: string, i: nat, e: nat)
    requires i <= e <= |s|
    requires forall k :: i <= k < e ==> IsSpace(s[k])
    ensures e <= SkipSpaces(s, i)
  {
  }

  /** A match inside a slice is a match in the whole string, and back. */
  lemma MarkerMatchSlice(s: string, p: nat, r: nat, q: nat, e: nat)
    requires p <= q <= e <= r <= |s|
    ensures MarkerMatch(s, q, e) <==> MarkerMatch(s[p..r], q - p, e - p)
  {
    if MarkerMatch(s, q, e) {
      var h: nat, a: nat, b: nat, c: nat :| MarkerCut(s, q, e, h, a, b, c);
      CutToSlice(s, p, r, q, e, h, a, b, c);
    }
    if MarkerMatch(s[p..r], q - p, e - p) {
      var h: nat, a: nat, b: nat, c: nat :| MarkerCut(s[p..r], q - p, e - p, h, a, b, c);
      CutFromSlice(s, p, r, q, e, h, a, b, c);
    }
  }

  lemma CutToSlice(s: string, p: nat, r: nat, q: nat, e: nat, h: nat, a: nat, b: nat, c: nat)
    requires p <= q <= e <= r <= |s|
    requires MarkerCut(s, q, e, h, a, b, c)
    ensures MarkerCut(s[p..r], q - p, e - p, h - p, a - p, b - p, c - p)
  {
    var t := s[p..r];
    assert forall k :: p <= k < r ==> t[k - p] == s[k];
  }

  lemma CutFromSlice(s: string, p: nat, r: nat, q: nat, e: nat, h: nat, a: nat, b: nat, c: nat)
    requires p <= q <= e <= r <= |s|
    requires MarkerCut(s[p..r], q - p, e - p, h, a, b, c)
    ensures MarkerCut(s, q, e, h + p, a + p, b + p, c + p)
  {
    var t := s[p..r];
    assert forall k :: 0 <= k < r - p ==> t[k] == s[k + p];
  }

  /** The whole of `m` is one match of the section marker. */
  ghost predicate IsMarker(m: string) {
    MarkerMatch(m, 0, |m|)
  }

  /** Somewhere in `t` the section marker matches. */
  ghost predicate HasMarker(t: string) {
    exists k: nat, e: nat :: MarkerMatch(t, k, e)
  }

  /** A marker inside `s[p..r]` is a place in `s`, between `p` and `r`, where `MarkerEnd` finds one. */
  lemma MarkerInSlice(s: string, p: nat, r: nat)
    requires p <= r <= |s|
    ensures HasMarker(s[p..r]) ==> exists k :: p <= k < r && MarkerEnd(s, k).Some?
  {
    if HasMarker(s[p..r]) {
      var k: nat, e: nat :| MarkerMatch(s[p..r], k, e);
      MarkerMatchSlice(s, p, r, p + k, p + e);
      MarkerEndComplete(s, p + k, p + e);
    }
  }

  /** The output of a split: the pieces and, between consecutive pieces, the text
      the marker matched. */
  datatype Split = Split(pieces: seq<string>, markers: seq<string>)

  /** `text.split(/\n?##\s*\d+\.?\s+/)` scanning from `q`, with the current piece
      starting at `p`: the ECMAScript split algorithm, which tries the pattern at
      each position in turn, cuts at the first match and resumes after it. An empty
      text gives one empty piece, as the pattern cannot match the empty string. */
  function Scan(s: string, p: nat, q: nat): (r: Split)
    requires p <= q <= |s|
    ensures |r.pieces| == |r.markers| + 1
    ensures Interleave(r.pieces, r.markers) == s[p..]
    decreases |s| - q
  {
    if q == |s| then
      Split([s[p..]], [])
    else
      match MarkerEnd(s, q)
      case Some(e) =>
        var rest := Scan(s, e, e);
        var r := Split([s[p..q]] + rest.pieces, [s[q..e]] + rest.markers);
        assert r.pieces[1..] == rest.pieces && r.markers[1..] == rest.markers;
        assert s[p..] == s[p..q] + s[q..e] + s[e..];
        r
      case None =>
        Scan(s, p, q + 1)
  }

  /** One step of the scan: a cut at a match, or a move past a position without one. */
  lemma ScanCut(s: string, p: nat, q: nat, e: nat)
    requires p <= q < |s| && MarkerEnd(s, q) == Types.Some(e)
    ensures Scan(s, p, q) == Split([s[p..q]] + Scan(s, e, e).pieces, [s[q..e]] + Scan(s, e, e).markers)
  {
  }

  lemma ScanNoCut(s: string, p: nat, q: nat)
    requires p <= q < |s| && MarkerEnd(s, q).None?
    ensures Scan(s, p, q) == Scan(s, p, q + 1)
  {
  }

  /** Every element is a match of the marker. */
  ghost predicate AllMarkers(markers: seq<string>) {
    forall i :: 0 <= i < |markers| ==> IsMarker(markers[i])
  }

  /** No element contains a match of the marker. */
  ghost predicate AllMarkerFree(pieces: seq<string>) {
    forall i :: 0 <= i < |pieces| ==> !HasMarker(pieces[i])
  }

  lemma AllMarkersCons(m: string, ms: seq<string>)
    requires IsMarker(m) && AllMarkers(ms)
    ensures AllMarkers([m] + ms)
  {
    assert forall i :: 0 < i < |[m] + ms| ==> ([m] + ms)[i] == ms[i - 1];
  }

  lemma AllMarkerFreeCons(x: string, xs: seq<string>)
    requires !HasMarker(x) && AllMarkerFree(xs)
    ensures AllMarkerFree([x] + xs)
  {
    assert forall i :: 0 < i < |[x] + xs| ==> ([x] + xs)[i] == xs[i - 1];
  }

  /** Every cut is made at a match of the marker. */
  lemma {:induction false} ScanMarkers(s: string, p: nat, q: nat)
    requires p <= q <= |s|
    ensures AllMarkers(Scan(s, p, q).markers)
    decreases |s| - q
  {
    if q < |s| {
      match MarkerEnd(s, q)
      case Some(e) =>
        ScanMarkers(s, e, e);
        ScanMarkersCut(s, p, q, e);
      case None =>
        ScanNoCut(s, p, q);
        ScanMarkers(s, p, q + 1);
    }
  }

  lemma ScanMarkersCut(s: string, p: nat, q: nat, e: nat)
    requires p <= q < |s| && MarkerEnd(s, q) == Types.Some(e)
    requires AllMarkers(Scan(s, e, e).markers)
    ensures AllMarkers(Scan(s, p, q).markers)
  {
    MarkerEndIsMarker(s, q, e);
    ScanCut(s, p, q, e);
    AllMarkersCons(s[q..e], Scan(s, e, e).markers);
  }

  /** `MarkerEnd` finds nothing at any position from `p` up to, not including, `q`. */
  ghost predicate NoCut(s: string, p: nat, q: nat)
    requires q <= |s|
    decreases q
  {
    q <= p || (MarkerEnd(s, q - 1).None? && NoCut(s, p, q - 1))
  }

  lemma {:induction false} NoCutAll(s: string, p: nat, q: nat)
    requires q <= |s| && NoCut(s, p, q)
    ensures forall k :: p <= k < q ==> MarkerEnd(s, k).None?
    decreases q
  {
    if q > p {
      NoCutAll(s, p, q - 1);
    }
  }

  /** A stretch where `MarkerEnd` finds nothing holds no marker. */
  lemma PieceMarkerFree(s: string, p: nat, r: nat)
    requires p <= r <= |s| && NoCut(s, p, r)
    ensures !HasMarker(s[p..r])
  {
    NoCutAll(s, p, r);
    MarkerInSlice(s, p, r);
  }

  /** No piece contains a match of the marker: the scan misses none. */
  lemma {:induction false} ScanPieces(s: string, p: nat, q: nat)
    requires p <= q <= |s| && NoCut(s, p, q)
    ensures AllMarkerFree(Scan(s, p, q).pieces)
    decreases |s| - q
  {
    if q == |s| {
      ScanPiecesLast(s, p);
    } else if MarkerEnd(s, q).Some? {
      var e := MarkerEnd(s, q).value;
      ScanPieces(s, e, e);
      ScanPiecesCut(s, p, q, e);
    } else {
      ScanPieces(s, p, q + 1);
      ScanNoCut(s, p, q);
    }
  }

  lemma ScanPiecesLast(s: string, p: nat)
    requires p <= |s| && NoCut(s, p, |s|)
    ensures AllMarkerFree(Scan(s, p, |s|).pieces)
  {
    PieceMarkerFree(s, p, |s|);
    assert s[p..] == s[p..|s|];
    AllMarkerFreeCons(s[p..], []);
  }

  lemma ScanPiecesCut(s: string, p: nat, q: nat, e: nat)
    requires p <= q < |s| && MarkerEnd(s, q) == Types.Some(e) && NoCut(s, p, q)
    requires AllMarkerFree(Scan(s, e, e).pieces)
    ensures AllMarkerFree(Scan(s, p, q).pieces)
  {
    PieceMarkerFree(s, p, q);
    ScanCut(s, p, q, e);
    AllMarkerFreeCons(s[p..q], Scan(s, e, e).pieces);
  }

  /** The pieces of the answer text between the numbered section headers. */
  function SplitSections(text: string): (r: Split)
    ensures |r.pieces| == |r.markers| + 1
    ensures Interleave(r.pieces, r.markers) == text
    ensures forall i :: 0 <= i < |r.markers| ==> IsMarker(r.markers[i])
    ensures forall i :: 0 <= i < |r.pieces| ==> !HasMarker(r.pieces[i])
  {
    ScanMarkers(text, 0, 0);
    ScanPieces(text, 0, 0);
    Scan(text, 0, 0)
  }

  /** A piece is the whole text exactly when the text holds no section marker. */
  lemma SplitSectionsWhole(text: string)
    ensures |SplitSections(text).pieces| == 1 <==> !HasMarker(text)
  {
    var r := SplitSections(text);
    if |r.pieces| > 1 {
      assert text == r.pieces[0] + (r.markers[0] + Interleave(r.pieces[1..], r.markers[1..]));
      MarkerInside(r.pieces[0], r.markers[0], Interleave(r.pieces[1..], r.markers[1..]));
    }
  }

  /** A marker surrounded by any text is a marker of the whole. */
  lemma MarkerInside(x: string, m: string, y: string)
    requires IsMarker(m)
    ensures HasMarker(x + (m + y))
  {
    var t := x + (m + y);
    assert t[|x|..|x| + |m|] == m;
    MarkerMatchSlice(t, |x|, |x| + |m|, |x|, |x| + |m|);
  }

  /** A marker opens with a newline or `#`, and its second character is `#`. */
  lemma MarkerHead(m: string)
    requires IsMarker(m)
    ensures |m| >= 4 && (m[0] == '\n' || m[0] == '#') && m[1] == '#'
  {
    var h: nat, a: nat, b: nat, c: nat :| MarkerCut(m, 0, |m|, h, a, b, c);
  }

  /** A text without `#` holds no marker. */
  lemma MarkerNeedsHash(t: string)
    ensures HasMarker(t) ==> '#' in t
  {
    if HasMarker(t) {
      var k: nat, e: nat :| MarkerMatch(t, k, e);
      var h: nat, a: nat, b: nat, c: nat :| MarkerCut(t, k, e, h, a, b, c);
      assert t[h] == '#';
    }
  }

  /** Positions where no marker starts are passed over without a cut. */
  lemma {:induction false} ScanSkip(s: string, p: nat, q: nat, k: nat)
    requires p <= q <= k <= |s|
    requires forall j :: q <= j < k ==> MarkerEnd(s, j).None?
    ensures Scan(s, p, q) == Scan(s, p, k)
    decreases k - q
  {
    if q < k {
      ScanNoCut(s, p, q);
      ScanSkip(s, p, q + 1, k);
    }
  }

  /** `t[j..]` is an unfinished marker reaching the end of `t`: a match of
      `\n?##\s*\d+\.?`, cut at `h`, `a` and `b` as in `MarkerCut`. */
  predicate PartialCut(t: string, j: nat, h: nat, a: nat, b: nat) {
    && j <= h <= j + 1 && h + 2 <= a < b <= |t| && |t| <= b + 1
    && (h == j + 1 ==> t[j] == '\n')
    && t[h] == '#' && t[h + 1] == '#'
    && (forall k :: h + 2 <= k < a ==> IsSpace(t[k]))
    && (forall k :: a <= k < b ==> IsDigit(t[k]))
    && (b < |t| ==> t[b] == '.')
  }

  /** `t` ends with a marker that only lacks its trailing whitespace. */
  ghost predicate EndsInPartialMarker(t: string) {
    exists j: nat, h: nat, a: nat, b: nat :: PartialCut(t, j, h, a, b)
  }

  lemma PartialNeedsHash(t: string)
    ensures EndsInPartialMarker(t) ==> '#' in t
  {
    if EndsInPartialMarker(t) {
      var j: nat, h: nat, a: nat, b: nat :| PartialCut(t, j, h, a, b);
      assert t[h] == '#';
    }
  }

  /** The marker `m` can follow the piece `x` without a match reaching back into `x`:
      a marker opening with `#` does not follow a newline, which the pattern's
      optional newline would take, and a marker opening with a newline does not
      follow an unfinished marker, which that newline would complete. */
  ghost predicate JoinsCleanly(x: string, m: string) {
    |m| > 0 && (if m[0] == '\n' then !EndsInPartialMarker(x) else x == [] || x[|x| - 1] != '\n')
  }

  /** What comes after the marker before piece `i` ends the marker's greedy trailing
      whitespace: the piece starts with a non-space, or it is empty and followed by
      the end of the text or by a marker opening with `#`. */
  ghost predicate StopsMarker(pieces: seq<string>, markers: seq<string>, i: nat)
    requires i < |pieces| == |markers| + 1
  {
    if pieces[i] == [] then i == |markers| || (|markers[i]| > 0 && markers[i][0] == '#')
    else !IsSpace(pieces[i][0])
  }

  /** How a text built from pieces and markers must look for the split to recover
      exactly those pieces and markers: no piece holds a marker, every marker is one,
      each piece joins cleanly with the marker after it, and each marker's trailing
      whitespace stops where the next piece begins. `SplitIffWellSeparated` shows
      these conditions are exactly the right ones. */
  ghost predicate WellSeparated(pieces: seq<string>, markers: seq<string>) {
    && |pieces| == |markers| + 1
    && (forall i :: 0 <= i < |pieces| ==> !HasMarker(pieces[i]))
    && (forall i :: 0 <= i < |markers| ==> IsMarker(markers[i]))
    && (forall i :: 0 <= i < |markers| ==> JoinsCleanly(pieces[i], markers[i]))
    && (forall i :: 0 < i < |pieces| ==> StopsMarker(pieces, markers, i))
  }

  /** A match starting in the rest `s[p..]` of the text is a marker of that rest. */
  lemma NoMarkerStarts(s: string, p: nat, j: nat)
    requires p <= j < |s|
    ensures MarkerEnd(s, j).Some? ==> HasMarker(s[p..])
  {
    MarkerEndSound(s, j);
    if MarkerEnd(s, j).Some? {
      var e := MarkerEnd(s, j).value;
      MarkerMatchSlice(s, p, |s|, j, e);
      assert s[p..|s|] == s[p..];
      assert MarkerMatch(s[p..], j - p, e - p);
    }
  }

  /** A match starting inside the piece `x` = `s[p..k]` either lies inside `x` or
      reaches into the marker `m` after it, which only a piece and a marker that do
      not join cleanly allow. */
  lemma CrossingMatch(s: string, p: nat, k: nat, j: nat, x: string, m: string)
    requires p <= j < k && k + |m| <= |s| && s[p..k] == x && s[k..k + |m|] == m && IsMarker(m)
    ensures MarkerEnd(s, j).Some? ==> HasMarker(x) || !JoinsCleanly(x, m)
  {
    MarkerEndSound(s, j);
    if MarkerEnd(s, j).Some? {
      var e := MarkerEnd(s, j).value;
      var h: nat, a: nat, b: nat, c: nat :| MarkerCut(s, j, e, h, a, b, c);
      if e <= k {
        MarkerMatchSlice(s, p, k, j, e);
        assert MarkerMatch(x, j - p, e - p);
      } else {
        CrossingCut(s, p, k, j, e, h, a, b, c, x, m);
      }
    }
  }

  /** The cases of a match that starts in `x` and ends past it: it holds a whole
      marker inside `x`, or its optional newline ends `x` before a marker opening
      with `#`, or `x` ends with its unfinished part and the marker's newline supplies
      the whitespace. Cutting `x` anywhere else would put a `#` where the match has a
      space, a digit or a dot. */
  lemma CrossingCut(s: string, p: nat, k: nat, j: nat, e: nat, h: nat, a: nat, b: nat, c: nat, x: string, m: string)
    requires MarkerCut(s, j, e, h, a, b, c) && p <= j < k < e
    requires k + |m| <= |s| && s[p..k] == x && s[k..k + |m|] == m && IsMarker(m)
    ensures HasMarker(x) || !JoinsCleanly(x, m)
  {
    MarkerHead(m);
    assert s[k] == m[0] && s[k + 1] == m[1];
    CutInterior(s, j, e, h, a, b, c, k);
    if c < k {
      assert MarkerCut(s, j, k, h, a, b, c);
      MarkerMatchSlice(s, p, k, j, k);
      assert MarkerMatch(x, j - p, k - p);
    } else if k <= h {
      assert x[|x| - 1] == s[k - 1];
    } else if b <= k && IsSpace(s[k]) {
      PartialFromCut(s, p, k, j, e, h, a, b, c);
    }
  }

  /** Inside the `##`, the spaces and the digits of a match, the next character is no `#`. */
  lemma CutInterior(s: string, q: nat, e: nat, h: nat, a: nat, b: nat, c: nat, k: nat)
    requires MarkerCut(s, q, e, h, a, b, c)
    ensures h < k < b ==> s[k + 1] != '#'
  {
    if h < k < b {
      if k + 1 < a {
        assert IsSpace(s[k + 1]);
      } else if k + 1 < b {
        assert IsDigit(s[k + 1]);
      } else if c == b {
        assert IsSpace(s[c]);
      }
    }
  }

  /** A match cut off after its number or its dot leaves an unfinished marker. */
  lemma PartialFromCut(s: string, p: nat, k: nat, j: nat, e: nat, h: nat, a: nat, b: nat, c: nat)
    requires MarkerCut(s, j, e, h, a, b, c) && p <= j && b <= k <= c
    ensures PartialCut(s[p..k], j - p, h - p, a - p, b - p)
  {
    var t := s[p..k];
    assert forall i :: p <= i < k ==> t[i - p] == s[i];
  }

  /** A marker sitting at `k` and followed by a non-space (or by the end) is exactly
      what `MarkerEnd` finds there. */
  lemma MarkerEndAt(s: string, k: nat, e: nat)
    requires k <= e <= |s|
    requires IsMarker(s[k..e])
    requires e == |s| || !IsSpace(s[e])
    ensures MarkerEnd(s, k) == Types.Some(e)
  {
    MarkerMatchSlice(s, k, e, k, e);
    MarkerEndComplete(s, k, e);
  }

  /** A marker-free rest of the text is one last piece. */
  lemma ScanLastPiece(s: string, p: nat)
    requires p <= |s|
    requires !HasMarker(s[p..])
    ensures Scan(s, p, p) == Split([s[p..]], [])
  {
    assert s[p..|s|] == s[p..];
    forall j | p <= j < |s|
      ensures MarkerEnd(s, j).None?
    {
      NoMarkerStarts(s, p, j);
    }
    ScanSkip(s, p, p, |s|);
  }

  /** The split cuts at the leftmost match and resumes after it. */
  lemma ScanFirstCut(s: string, p: nat, k: nat, e: nat, x: string, m: string)
    requires p <= k <= |s|
    requires forall j :: p <= j < k ==> MarkerEnd(s, j).None?
    requires MarkerEnd(s, k) == Types.Some(e)
    requires s[p..k] == x && s[k..e] == m
    ensures Scan(s, p, p) == Split([x] + Scan(s, e, e).pieces, [m] + Scan(s, e, e).markers)
  {
    ScanSkip(s, p, p, k);
  }

  lemma WellSeparatedHead(pieces: seq<string>, markers: seq<string>)
    requires WellSeparated(pieces, markers) && |markers| > 0
    ensures !HasMarker(pieces[0]) && IsMarker(markers[0])
    ensures JoinsCleanly(pieces[0], markers[0])
    ensures StopsMarker(pieces, markers, 1)
  {
  }

  lemma WellSeparatedTail(pieces: seq<string>, markers: seq<string>)
    requires WellSeparated(pieces, markers) && |markers| > 0
    ensures WellSeparated(pieces[1..], markers[1..])
  {
    assert forall i :: 0 <= i < |pieces| - 1 ==> pieces[1..][i] == pieces[i + 1];
    assert forall i :: 0 <= i < |markers| - 1 ==> markers[1..][i] == markers[i + 1];
    forall i | 0 < i < |pieces| - 1
      ensures StopsMarker(pieces[1..], markers[1..], i)
    {
      assert StopsMarker(pieces, markers, i + 1);
    }
  }

  /** Splitting the rest of `s` from `p`, when it is well-separated pieces and markers
      put together, gives back those pieces and markers. */
  lemma {:induction false} ScanInterleave(s: string, p: nat, pieces: seq<string>, markers: seq<string>)
    requires p <= |s|
    requires WellSeparated(pieces, markers)
    requires s[p..] == Interleave(pieces, markers)
    ensures Scan(s, p, p) == Split(pieces, markers)
    decreases |markers|
  {
    if |markers| == 0 {
      ScanLastPiece(s, p);
    } else {
      var e := p + |pieces[0]| + |markers[0]|;
      WellSeparatedHead(pieces, markers);
      ScanFirstPiece(s, p, pieces, markers, e);
      WellSeparatedTail(pieces, markers);
      ScanInterleave(s, e, pieces[1..], markers[1..]);
      var r := Scan(s, e, e);
      assert r.pieces == pieces[1..] && r.markers == markers[1..];
      assert Scan(s, p, p) == Split([pieces[0]] + r.pieces, [markers[0]] + r.markers);
      assert [pieces[0]] + r.pieces == pieces;
      assert [markers[0]] + r.markers == markers;
    }
  }

  /** The first cut of well-separated pieces and markers falls after the first piece. */
  lemma ScanFirstPiece(s: string, p: nat, pieces: seq<string>, markers: seq<string>, e: nat)
    requires p <= |s|
    requires |pieces| == |markers| + 1 && |markers| > 0
    requires !HasMarker(pieces[0]) && IsMarker(markers[0])
    requires JoinsCleanly(pieces[0], markers[0])
    requires StopsMarker(pieces, markers, 1)
    requires s[p..] == Interleave(pieces, markers)
    requires e == p + |pieces[0]| + |markers[0]|
    ensures e <= |s|
    ensures s[e..] == Interleave(pieces[1..], markers[1..])
    ensures Scan(s, p, p) == Split([pieces[0]] + Scan(s, e, e).pieces, [markers[0]] + Scan(s, e, e).markers)
  {
    var k := p + |pieces[0]|;
    InterleaveParts(s, p, pieces, markers, e);
    FirstPieceUncut(s, p, k, pieces[0], markers[0]);
    FirstMarkerFound(s, k, e, pieces, markers);
    ScanFirstCut(s, p, k, e, pieces[0], markers[0]);
  }

  /** No match starts inside the first piece. */
  lemma FirstPieceUncut(s: string, p: nat, k: nat, x: string, m: string)
    requires p <= k && k + |m| <= |s| && s[p..k] == x && s[k..k + |m|] == m
    requires !HasMarker(x) && IsMarker(m) && JoinsCleanly(x, m)
    ensures forall j :: p <= j < k ==> MarkerEnd(s, j).None?
  {
    forall j | p <= j < k
      ensures MarkerEnd(s, j).None?
    {
      CrossingMatch(s, p, k, j, x, m);
    }
  }

  /** The first marker is what `MarkerEnd` finds after the first piece. */
  lemma FirstMarkerFound(s: string, k: nat, e: nat, pieces: seq<string>, markers: seq<string>)
    requires k <= e <= |s| && |markers| > 0 && |pieces| == |markers| + 1
    requires s[k..e] == markers[0] && IsMarker(markers[0])
    requires s[e..] == Interleave(pieces[1..], markers[1..])
    requires StopsMarker(pieces, markers, 1)
    ensures MarkerEnd(s, k) == Types.Some(e)
  {
    InterleaveStart(pieces[1..], markers[1..]);
    if e < |s| {
      if pieces[1] != [] {
        assert s[e] == s[e..][0] == pieces[1][0];
      } else {
        assert |markers| > 1;
        assert pieces[1..][1..] == pieces[2..] && markers[1..][1..] == markers[2..];
        assert s[e..] == pieces[1] + markers[1] + Interleave(pieces[2..], markers[2..]);
        assert s[e] == markers[1][0];
      }
    }
    MarkerEndAt(s, k, e);
  }

  lemma InterleaveParts(s: string, p: nat, pieces: seq<string>, markers: seq<string>, e: nat)
    requires p <= |s|
    requires |pieces| == |markers| + 1 && |markers| > 0
    requires s[p..] == Interleave(pieces, markers)
    requires e == p + |pieces[0]| + |markers[0]|
    ensures e <= |s|
    ensures s[p..p + |pieces[0]|] == pieces[0]
    ensures s[p + |pieces[0]|..e] == markers[0]
    ensures s[e..] == Interleave(pieces[1..], markers[1..])
    ensures pieces[0] != [] ==> s[p + |pieces[0]| - 1] == pieces[0][|pieces[0]| - 1]
  {
    SliceParts(s, p, pieces[0], markers[0], Interleave(pieces[1..], markers[1..]));
  }

  /** The assembled text starts with the first piece. */
  lemma InterleaveStart(pieces: seq<string>, seps: seq<string>)
    requires |pieces| == |seps| + 1
    ensures |pieces[0]| <= |Interleave(pieces, seps)|
    ensures Interleave(pieces, seps)[..|pieces[0]|] == pieces[0]
    ensures |seps| == 0 ==> Interleave(pieces, seps) == pieces[0]
  {
  }

  /** Where the three parts of `s[p..]` sit in `s`. */
  lemma SliceParts(s: string, p: nat, x: string, m: string, y: string)
    requires p <= |s| && s[p..] == x + m + y
    ensures s[p..p + |x|] == x
    ensures s[p + |x|..p + |x| + |m|] == m
    ensures s[p + |x| + |m|..] == y
    ensures x != [] ==> s[p + |x| - 1] == x[|x| - 1]
  {
    var u := s[p..];
    assert u[..|x|] == x;
    assert u[|x|..|x| + |m|] == m;
    assert u[|x| + |m|..] == y;
  }

  /** The split undoes the assembly of well-separated pieces and markers; together
      with the contract of `SplitSections` this makes the two mutually inverse. */
  lemma SplitInterleave(pieces: seq<string>, markers: seq<string>)
    requires WellSeparated(pieces, markers)
    ensures SplitSections(Interleave(pieces, markers)) == Split(pieces, markers)
  {
    var s := Interleave(pieces, markers);
    assert s[0..] == s;
    ScanInterleave(s, 0, pieces, markers);
  }

  /** A cut piece and its marker join cleanly, since a match reaching back into the
      piece would have been found first. */
  lemma CutJoinsCleanly(s: string, p: nat, k: nat, e: nat)
    requires p <= k < |s| && MarkerEnd(s, k) == Types.Some(e) && NoCut(s, p, k)
    ensures JoinsCleanly(s[p..k], s[k..e])
  {
    NoCutAll(s, p, k);
    MarkerEndIsMarker(s, k, e);
    MarkerHead(s[k..e]);
    assert s[k..e][0] == s[k];
    PartialBeforeSpace(s, p, k);
    if p < k {
      NewlineBeforeHash(s, k, e);
      assert s[p..k][k - p - 1] == s[k - 1];
    }
  }

  /** An unfinished marker just before whitespace is a match. */
  lemma PartialBeforeSpace(s: string, p: nat, k: nat)
    requires p <= k < |s|
    ensures IsSpace(s[k]) && EndsInPartialMarker(s[p..k]) ==> exists j :: p <= j < k && MarkerEnd(s, j).Some?
  {
    if IsSpace(s[k]) && EndsInPartialMarker(s[p..k]) {
      var j: nat, h: nat, a: nat, b: nat :| PartialCut(s[p..k], j, h, a, b);
      PartialToCut(s, p, k, j, h, a, b);
      assert MarkerMatch(s, p + j, k + 1);
      MarkerEndComplete(s, p + j, k + 1);
    }
  }

  lemma PartialToCut(s: string, p: nat, k: nat, j: nat, h: nat, a: nat, b: nat)
    requires p <= k < |s| && IsSpace(s[k]) && PartialCut(s[p..k], j, h, a, b)
    ensures MarkerCut(s, p + j, k + 1, p + h, p + a, p + b, k)
  {
    var t := s[p..k];
    assert forall i :: 0 <= i < k - p ==> t[i] == s[p + i];
  }

  /** A newline just before a marker opening with `#` starts a match itself. */
  lemma NewlineBeforeHash(s: string, k: nat, e: nat)
    requires 0 < k < |s| && MarkerEnd(s, k) == Types.Some(e)
    ensures s[k - 1] == '\n' && s[k] == '#' ==> MarkerEnd(s, k - 1).Some?
  {
    if s[k - 1] == '\n' && s[k] == '#' {
      MarkerEndSound(s, k);
      var h: nat, a: nat, b: nat, c: nat :| MarkerCut(s, k, e, h, a, b, c);
      assert MarkerCut(s, k - 1, e, h, a, b, c);
      MarkerEndComplete(s, k - 1, e);
    }
  }

  /** What follows a marker that ends at `e` where no whitespace follows stops it. */
  lemma CutStops(s: string, e: nat, pieces: seq<string>, markers: seq<string>)
    requires e <= |s| && (e == |s| || !IsSpace(s[e]))
    requires |pieces| == |markers| + 1 && Interleave(pieces, markers) == s[e..] && AllMarkers(markers)
    ensures StopsMarker(pieces, markers, 0)
  {
    InterleaveStart(pieces, markers);
    if pieces[0] != [] {
      assert pieces[0][0] == s[e..][0];
    } else if |markers| > 0 {
      assert s[e..] == pieces[0] + markers[0] + Interleave(pieces[1..], markers[1..]);
      MarkerHead(markers[0]);
      assert s[e..][0] == markers[0][0];
    }
  }

  /** Every cut of the split joins cleanly and every marker is stopped. */
  ghost predicate CleanJoins(r: Split)
    requires |r.pieces| == |r.markers| + 1
  {
    && (forall i :: 0 <= i < |r.markers| ==> JoinsCleanly(r.pieces[i], r.markers[i]))
    && (forall i :: 0 < i < |r.pieces| ==> StopsMarker(r.pieces, r.markers, i))
  }

  lemma JoinsCons(x: string, m: string, rest: Split)
    requires |rest.pieces| == |rest.markers| + 1
    requires JoinsCleanly(x, m) && CleanJoins(rest) && StopsMarker(rest.pieces, rest.markers, 0)
    ensures CleanJoins(Split([x] + rest.pieces, [m] + rest.markers))
  {
    var ps := [x] + rest.pieces;
    var ms := [m] + rest.markers;
    assert forall i :: 0 < i < |ps| ==> ps[i] == rest.pieces[i - 1];
    assert forall i :: 0 < i < |ms| ==> ms[i] == rest.markers[i - 1];
    forall i | 0 < i < |ps|
      ensures StopsMarker(ps, ms, i)
    {
      assert StopsMarker(rest.pieces, rest.markers, i - 1);
    }
  }

  lemma {:induction false} ScanJoins(s: string, p: nat, q: nat)
    requires p <= q <= |s| && NoCut(s, p, q)
    ensures CleanJoins(Scan(s, p, q))
    decreases |s| - q
  {
    if q < |s| {
      if MarkerEnd(s, q).Some? {
        var e := MarkerEnd(s, q).value;
        ScanJoins(s, e, e);
        ScanJoinsCut(s, p, q, e);
      } else {
        ScanJoins(s, p, q + 1);
        ScanNoCut(s, p, q);
      }
    }
  }

  lemma ScanJoinsCut(s: string, p: nat, q: nat, e: nat)
    requires p <= q < |s| && MarkerEnd(s, q) == Types.Some(e) && NoCut(s, p, q)
    requires CleanJoins(Scan(s, e, e))
    ensures CleanJoins(Scan(s, p, q))
  {
    ScanCut(s, p, q, e);
    var rest := Scan(s, e, e);
    CutJoinsCleanly(s, p, q, e);
    MarkerEndSound(s, q);
    ScanMarkers(s, e, e);
    CutStops(s, e, rest.pieces, rest.markers);
    JoinsCons(s[p..q], s[q..e], rest);
  }

  /** Every text's own split is well-separated, so what is proved for well-separated
      pieces holds for every answer text. */
  lemma SplitWellSeparated(text: string)
    ensures WellSeparated(SplitSections(text).pieces, SplitSections(text).markers)
  {
    ScanJoins(text, 0, 0);
  }

  /** Pieces and markers are what the split of their assembly gives exactly when they
      are well-separated. */
  lemma SplitIffWellSeparated(pieces: seq<string>, markers: seq<string>)
    requires |pieces| == |markers| + 1
    ensures SplitSections(Interleave(pieces, markers)) == Split(pieces, markers) <==> WellSeparated(pieces, markers)
  {
    if WellSeparated(pieces, markers) {
      SplitInterleave(pieces, markers);
    } else {
      SplitWellSeparated(Interleave(pieces, markers));
    }
  }

  /** The four sections the answer is asked to have; missing ones are empty. */
  datatype Sections = Sections(overview: string, applications: string, research: string, ecosystem: string)

  /** `parts[i]?.trim() || ""`: a trimmed piece, or the empty string past the end. */
  function PieceOrEmpty(parts: seq<string>, i: nat): (r: string)
    ensures IsTrimmed(r)
    ensures i >= |parts| ==> r == []
    ensures i < |parts| ==> (r == [] <==> AllSpace(parts[i]))
  {
    if i < |parts| then Trim(parts[i]) else ""
  }

  /** The section partition of the answer text (`sections`): the text before the
      first numbered header is the overview and the pieces after the first three
      headers are the applications, research and ecosystem sections, each trimmed;
      any later pieces are dropped. */
  function Partition(text: string): (r: Sections)
    ensures IsTrimmed(r.overview) && IsTrimmed(r.applications) && IsTrimmed(r.research) && IsTrimmed(r.ecosystem)
    ensures !HasMarker(text) ==> r == Sections(Trim(text), "", "", "")
    ensures r.applications != [] || r.research != [] || r.ecosystem != [] ==> HasMarker(text)
  {
    var parts := SplitSections(text).pieces;
    SplitSectionsWhole(text);
    Sections(PieceOrEmpty(parts, 0), PieceOrEmpty(parts, 1), PieceOrEmpty(parts, 2), PieceOrEmpty(parts, 3))
  }

  /** For an answer assembled from well-separated pieces and headers, the sections
      are the first four pieces, trimmed, and empty when absent. */
  lemma PartitionOfPieces(pieces: seq<string>, markers: seq<string>)
    requires WellSeparated(pieces, markers)
    ensures Partition(Interleave(pieces, markers))
      == Sections(PieceOrEmpty(pieces, 0), PieceOrEmpty(pieces, 1), PieceOrEmpty(pieces, 2), PieceOrEmpty(pieces, 3))
  {
    SplitInterleave(pieces, markers);
  }

  /** The header text `\n## 1. ` is a match of the marker. */
  lemma NumberedHeaderIsMarker(d: char)
    requires IsDigit(d)
    ensures IsMarker("\n## " + [d] + ". ")
  {
    var m := "\n## " + [d] + ". ";
    assert MarkerCut(m, 0, 7, 1, 4, 5, 6);
  }

  /** The title after the number stays in the section: "Intro\n## 1. Apps\nA" has
      overview "Intro" and applications "Apps\nA". */
  lemma PartitionKeepsTitle()
    ensures Partition("Intro\n## 1. Apps\nA") == Sections("Intro", "Apps\nA", "", "")
  {
    var pieces := ["Intro", "Apps\nA"];
    var markers := ["\n## 1. "];
    TitleExampleSeparated(pieces, markers);
    assert Interleave(pieces, markers) == "Intro\n## 1. Apps\nA";
    PartitionOfPieces(pieces, markers);
    TitleExampleTrimmed(pieces);
  }

  lemma TitleExampleSeparated(pieces: seq<string>, markers: seq<string>)
    requires pieces == ["Intro", "Apps\nA"] && markers == ["\n## 1. "]
    ensures WellSeparated(pieces, markers)
  {
    NumberedHeaderIsMarker('1');
    assert "\n## " + ['1'] + ". " == markers[0];
    MarkerNeedsHash(pieces[0]);
    MarkerNeedsHash(pieces[1]);
  }

  lemma TitleExampleTrimmed(pieces: seq<string>)
    requires pieces == ["Intro", "Apps\nA"]
    ensures PieceOrEmpty(pieces, 0) == "Intro" && PieceOrEmpty(pieces, 1) == "Apps\nA"
    ensures PieceOrEmpty(pieces, 2) == "" && PieceOrEmpty(pieces, 3) == ""
  {
    assert Trim(pieces[0]) == pieces[0];
    assert Trim(pieces[1]) == pieces[1];
  }

  /** A section may end in a number and a full stop and be followed by a blank line:
      "Intro 2.\n\n## 1. Apps\nA" has overview "Intro 2." and applications "Apps\nA". */
  lemma PartitionAfterBlankLine()
    ensures Partition("Intro 2.\n\n## 1. Apps\nA") == Sections("Intro 2.", "Apps\nA", "", "")
  {
    var pieces := ["Intro 2.\n", "Apps\nA"];
    var markers := ["\n## 1. "];
    BlankLineExampleSeparated(pieces, markers);
    assert Interleave(pieces, markers) == "Intro 2.\n\n## 1. Apps\nA";
    PartitionOfPieces(pieces, markers);
    BlankLineExampleTrimmed(pieces);
  }

  lemma BlankLineExampleSeparated(pieces: seq<string>, markers: seq<string>)
    requires pieces == ["Intro 2.\n", "Apps\nA"] && markers == ["\n## 1. "]
    ensures WellSeparated(pieces, markers)
  {
    NumberedHeaderIsMarker('1');
    assert "\n## " + ['1'] + ". " == markers[0];
    MarkerNeedsHash(pieces[0]);
    MarkerNeedsHash(pieces[1]);
    PartialNeedsHash(pieces[0]);
  }

  lemma BlankLineExampleTrimmed(pieces: seq<string>)
    requires pieces == ["Intro 2.\n", "Apps\nA"]
    ensures PieceOrEmpty(pieces, 0) == "Intro 2." && PieceOrEmpty(pieces, 1) == "Apps\nA"
    ensures PieceOrEmpty(pieces, 2) == "" && PieceOrEmpty(pieces, 3) == ""
  {
    var t := pieces[0];
    assert SkipSpaces(t, 0) == 0;
    assert SkipBackSpaces(t, 0, 8) == 8;
    assert SkipBackSpaces(t, 0, 9) == 8;
    assert t[0..8] == "Intro 2.";
    assert Trim(pieces[1]) == pieces[1];
  }

  /** Whatever follows the fourth piece has no effect on the sections. */
  lemma LaterSectionsDropped(pieces: seq<string>, markers: seq<string>)
    requires WellSeparated(pieces, markers) && |pieces| > 4
    ensures Partition(Interleave(pieces, markers)) == Partition(Interleave(pieces[..4], markers[..3]))
  {
    forall i | 0 < i < 4
      ensures StopsMarker(pieces[..4], markers[..3], i)
    {
      assert StopsMarker(pieces, markers, i);
    }
    assert WellSeparated(pieces[..4], markers[..3]);
    PartitionOfPieces(pieces, markers);
    PartitionOfPieces(pieces[..4], markers[..3]);
  }

  /** For every answer text, only the first three headers count: the text after the
      fourth piece's end has no effect on the sections. */
  lemma LaterSectionsDroppedText(text: string)
    ensures var r := SplitSections(text);
      |r.pieces| > 4 ==> Partition(text) == Partition(Interleave(r.pieces[..4], r.markers[..3]))
  {
    var r := SplitSections(text);
    if |r.pieces| > 4 {
      SplitWellSeparated(text);
      LaterSectionsDropped(r.pieces, r.markers);
    }
  }

  /** How the answer panel renders the text (`renderContent`). */
  datatype Layout =
    | NoContent  // an empty answer: the "No content available." note
    | Plain      // the whole text through the markdown renderer
    | Tabbed     // the four section tabs

  /** `renderContent`'s choice: nothing for an empty text; the tabs when the split
      found a non-blank applications or research section (`isParsedCorrectly`);
      otherwise the plain renderer. */
  function ChooseLayout(text: string): (l: Layout)
    ensures l == NoContent <==> text == []
    ensures l == Tabbed ==> HasMarker(text)
    ensures text != [] && !HasMarker(text) ==> l == Plain
  {
    if text == [] then NoContent
    else
      var sections := Partition(text);
      if sections.applications != [] || sections.research != [] then Tabbed else Plain
  }

  /** Piece `i` is missing or all whitespace. */
  predicate Blank(pieces: seq<string>, i: nat) {
    i >= |pieces| || AllSpace(pieces[i])
  }

  /** For an assembled answer the tabs appear exactly when its second or third piece
      is not blank; an ecosystem section alone does not bring them up. */
  lemma TabbedIffContent(pieces: seq<string>, markers: seq<string>)
    requires WellSeparated(pieces, markers)
    requires Interleave(pieces, markers) != []
    ensures ChooseLayout(Interleave(pieces, markers)) == Tabbed <==> !Blank(pieces, 1) || !Blank(pieces, 2)
  {
    PartitionOfPieces(pieces, markers);
  }

  /** A numbered header followed by nothing keeps the plain layout. */
  lemma EmptySectionsStayPlain()
    ensures ChooseLayout("Intro\n## 1. ") == Plain
  {
    var pieces := ["Intro", ""];
    var markers := ["\n## 1. "];
    NumberedHeaderIsMarker('1');
    assert "\n## " + ['1'] + ". " == markers[0];
    MarkerNeedsHash(pieces[0]);
    MarkerNeedsHash(pieces[1]);
    assert WellSeparated(pieces, markers);
    assert Interleave(pieces, markers) == "Intro\n## 1. ";
    TabbedIffContent(pieces, markers);
  }

  /** The result tabs (`SectionTab`). */
  datatype Tab = Overview | Applications | Research | Ecosystem

  /** The source category a tab focuses on; the overview shows every source. */
  function TabCategory(tab: Tab): Types.Option<SourceList.SourceCategory>
  {
    match tab
    case Overview => Types.None
    case Applications => Types.Some(SourceList.App)
    case Research => Types.Some(SourceList.Paper)
    case Ecosystem => Types.Some(SourceList.General)
  }

  /** `filteredSources`: no list for an absent source list, the whole list on the
      overview, and otherwise the sources of the tab's category in their order. */
  function FilteredSources(tab: Tab, sources: Types.Option<seq<Source>>): (r: seq<Source>)
    ensures sources.None? ==> r == []
    ensures sources.Some? && tab == Overview ==> r == sources.value
    ensures sources.Some? ==> IsSubsequence(r, sources.value)
    ensures tab != Overview ==> forall i :: 0 <= i < |r| ==> TabCategory(tab) == Types.Some(SourceList.GetCategory(r[i].uri))
  {
    if sources.None? then []
    else
      match TabCategory(tab)
      case None => SubsequenceRefl(sources.value); sources.value
      case Some(c) => SourceList.OfCategory(sources.value, c)
  }

  /** A source appears under a category tab exactly when it is in the list and of
      that tab's category. */
  lemma FilteredMembers(tab: Tab, sources: seq<Source>, x: Source)
    requires tab != Overview
    ensures x in FilteredSources(tab, Types.Some(sources))
      <==> x in sources && TabCategory(tab) == Types.Some(SourceList.GetCategory(x.uri))
  {
    SourceList.OfCategoryCount(sources, TabCategory(tab).value);
  }

  /** The three category tabs split the overview's list between them: every source
      shows up under exactly one of them, as often as it occurs. */
  lemma TabsPartitionSources(sources: Types.Option<seq<Source>>)
    ensures multiset(FilteredSources(Research, sources)) + multiset(FilteredSources(Applications, sources))
            + multiset(FilteredSources(Ecosystem, sources)) == multiset(FilteredSources(Overview, sources))
  {
    if sources.Some? {
      SourceList.CategoriesPartition(sources.value);
    }
  }

  /** The reference-list panel is shown when the filtered list is not empty. */
  function ShowSourcePanel(tab: Tab, sources: Types.Option<seq<Source>>): (shown: bool)
    ensures shown ==> sources.Some? && sources.value != []
    ensures tab == Overview ==> (shown <==> sources.Some? && sources.value != [])
  {
    |FilteredSources(tab, sources)| > 0
  }

  /** On a category tab the panel appears exactly when some source has that category. */
  lemma PanelIffCategoryPresent(tab: Tab, sources: seq<Source>)
    requires tab != Overview
    ensures ShowSourcePanel(tab, Types.Some(sources))
      <==> exists x :: x in sources && TabCategory(tab) == Types.Some(SourceList.GetCategory(x.uri))
  {
    var r := FilteredSources(tab, Types.Some(sources));
    if |r| > 0 {
      FilteredMembers(tab, sources, r[0]);
    }
    forall x | x in sources && TabCategory(tab) == Types.Some(SourceList.GetCategory(x.uri))
      ensures x in r
    {
      FilteredMembers(tab, sources, x);
    }
  }

  /** On a category tab the reference list shows at most one group, the tab's own. */
  lemma CategoryTabShowsOneGroup(tab: Tab, sources: Types.Option<seq<Source>>)
    requires tab != Overview
    ensures var g := SourceList.RenderedGroups(Types.Some(FilteredSources(tab, sources)));
      |g| <= 1 && forall i :: 0 <= i < |g| ==> Types.Some(g[i].category) == TabCategory(tab)
  {
    var f := FilteredSources(tab, sources);
    var g := SourceList.RenderedGroups(Types.Some(f));
    var c := TabCategory(tab).value;
    forall i | 0 <= i < |g|
      ensures g[i].category == c
    {
      GroupOfOneCategory(f, g[i], c);
    }
    OneCategoryGroups(g, c);
  }

  /** A non-empty group of a list whose sources all have category `c` is `c`'s group. */
  lemma GroupOfOneCategory(f: seq<Source>, group: SourceList.SourceGroup, c: SourceList.SourceCategory)
    requires forall i :: 0 <= i < |f| ==> SourceList.GetCategory(f[i].uri) == c
    requires group.items != [] && group.items == SourceList.OfCategory(f, group.category)
    ensures group.category == c
  {
    var x := group.items[0];
    SourceList.OfCategoryCount(f, group.category);
    assert x in f;
  }

  /** Groups in strictly increasing rank that all have the same category: at most one. */
  lemma OneCategoryGroups(g: seq<SourceList.SourceGroup>, c: SourceList.SourceCategory)
    requires forall i, j :: 0 <= i < j < |g| ==> SourceList.Rank(g[i].category) < SourceList.Rank(g[j].category)
    requires forall i :: 0 <= i < |g| ==> g[i].category == c
    ensures |g| <= 1
  {
    if |g| >= 2 {
      FirstTwoGroups(g, c);
      assert false;
    }
  }

  lemma FirstTwoGroups(g: seq<SourceList.SourceGroup>, c: SourceList.SourceCategory)
    requires |g| >= 2
    requires forall i :: 0 <= i < |g| ==> g[i].category == c
    ensures g[0].category == c && g[1].category == c
  {
  }
}
