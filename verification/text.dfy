/** Character classes and the JavaScript string operations the components rely on
    (`toLowerCase`, `includes`, `indexOf`, `trim`, `startsWith`, `endsWith`,
    `replace` with a string pattern, `split` with a string separator, `join`),
    with lower-casing restricted to the ASCII letters. */
module Text {

  /** JavaScript's `\s`, which is also the set of characters `String.prototype.trim`
      removes: the ECMAScript WhiteSpace characters (tab, vertical tab, form feed,
      space, no-break space, the byte-order mark and the other Unicode space
      separators) and the LineTerminator characters. */
  predicate IsSpace(c: char) {
    c == '\t' || c == '\U{000B}' || c == '\U{000C}' || c == ' ' || c == '\U{00A0}' || c == '\U{FEFF}'
    || c == '\U{1680}' || ('\U{2000}' <= c <= '\U{200A}') || c == '\U{202F}' || c == '\U{205F}' || c == '\U{3000}'
    || IsLineTerminator(c)
  }

  /** JavaScript's `\d`: the ten ASCII digits. */
  predicate IsDigit(c: char) {
    '0' <= c <= '9'
  }

  /** The characters the regular-expression `.` refuses to match. */
  predicate IsLineTerminator(c: char) {
    c == '\n' || c == '\r' || c == '\U{2028}' || c == '\U{2029}'
  }

  predicate AllSpace(s: string) {
    forall i :: 0 <= i < |s| ==> IsSpace(s[i])
  }

  /** A string `trim` leaves unchanged: empty, or non-blank at both ends. */
  predicate IsTrimmed(s: string) {
    s == [] || (!IsSpace(s[0]) && !IsSpace(s[|s| - 1]))
  }

  /** ASCII lower-casing of one character. */
  function ToLower(c: char): (r: char)
    ensures !('A' <= r <= 'Z')
  {
    if 'A' <= c <= 'Z' then (c as int + 32) as char else c
  }

  /** `toLowerCase`, character by character. */
  function Lower(s: string): (r: string)
    ensures |r| == |s|
  {
    seq(|s|, i requires 0 <= i < |s| => ToLower(s[i]))
  }

  /** A string without upper-case ASCII letters. */
  predicate IsLowerCase(s: string) {
    forall i :: 0 <= i < |s| ==> !('A' <= s[i] <= 'Z')
  }

  /** Lower-casing leaves a lower-case string unchanged. */
  lemma LowerOfLowerCase(s: string)
    requires IsLowerCase(s)
    ensures Lower(s) == s
  {
  }

  /** Two strings that differ at most in the case of ASCII letters. */
  predicate SameIgnoringCase(s: string, t: string) {
    |s| == |t| && forall i :: 0 <= i < |s| ==> ToLower(s[i]) == ToLower(t[i])
  }

  lemma LowerOfSameIgnoringCase(s: string, t: string)
    requires SameIgnoringCase(s, t)
    ensures Lower(s) == Lower(t)
  {
  }

  /** `sub` occurs in `s` starting at index `k`. */
  predicate OccursAt(s: string, sub: string, k: nat) {
    k + |sub| <= |s| && s[k..k + |sub|] == sub
  }

  /** The declarative meaning of `s.includes(sub)`. */
  ghost predicate Contains(s: string, sub: string) {
    exists k: nat :: OccursAt(s, sub, k)
  }

  /** `s.indexOf(sub, i)`: the leftmost occurrence of `sub` at or after `i`, or -1. */
  function FindFrom(s: string, sub: string, i: nat): (r: int)
    ensures r == -1 || (i <= r && OccursAt(s, sub, r))
    ensures r == -1 ==> forall k: nat :: i <= k ==> !OccursAt(s, sub, k)
    ensures r != -1 ==> forall k: nat :: i <= k < r ==> !OccursAt(s, sub, k)
    decreases |s| - i
  {
    if i + |sub| > |s| then -1
    else if OccursAt(s, sub, i) then i
    else FindFrom(s, sub, i + 1)
  }

  /** `s.includes(sub)`, computed by a left-to-right search. */
  function Includes(s: string, sub: string): (r: bool)
    ensures r <==> Contains(s, sub)
  {
    FindFrom(s, sub, 0) != -1
  }

  predicate StartsWith(s: string, prefix: string) {
    |prefix| <= |s| && s[..|prefix|] == prefix
  }

  predicate EndsWith(s: string, suffix: string) {
    |suffix| <= |s| && s[|s| - |suffix|..] == suffix
  }

  /** `s.replace(pat, rep)` with a string pattern: only the first occurrence is replaced. */
  function ReplaceFirst(s: string, pat: string, rep: string): (r: string)
  {
    var k := FindFrom(s, pat, 0);
    if k == -1 then s else s[..k] + rep + s[k + |pat|..]
  }

  /** Removing a prefix with `replace` drops exactly its characters. */
  lemma ReplaceFirstPrefix(s: string, pat: string)
    requires StartsWith(s, pat)
    ensures ReplaceFirst(s, pat, "") == s[|pat|..]
  {
    assert OccursAt(s, pat, 0);
  }

  /** The first index at or after `i` that holds no whitespace, or `|s|`. */
  function SkipSpaces(s: string, i: nat): (j: nat)
    requires i <= |s|
    ensures i <= j <= |s|
    ensures forall k :: i <= k < j ==> IsSpace(s[k])
    ensures j < |s| ==> !IsSpace(s[j])
    decreases |s| - i
  {
    if i < |s| && IsSpace(s[i]) then SkipSpaces(s, i + 1) else i
  }

  /** The first index at or after `i` that holds no decimal digit, or `|s|`. */
  function SkipDigits(s: string, i: nat): (j: nat)
    requires i <= |s|
    ensures i <= j <= |s|
    ensures forall k :: i <= k < j ==> IsDigit(s[k])
    ensures j < |s| ==> !IsDigit(s[j])
    decreases |s| - i
  {
    if i < |s| && IsDigit(s[i]) then SkipDigits(s, i + 1) else i
  }

  /** The least `k >= lo` such that `s[k..j]` is all whitespace. */
  function SkipBackSpaces(s: string, lo: nat, j: nat): (k: nat)
    requires lo <= j <= |s|
    ensures lo <= k <= j
    ensures forall m :: k <= m < j ==> IsSpace(s[m])
    ensures k > lo ==> !IsSpace(s[k - 1])
    decreases j
  {
    if j > lo && IsSpace(s[j - 1]) then SkipBackSpaces(s, lo, j - 1) else j
  }

  /** `s.trim()`: the slice of `s` between its leading and trailing whitespace. */
  function Trim(s: string): (r: string)
    ensures IsTrimmed(r)
    ensures r == [] <==> AllSpace(s)
    ensures IsTrimmed(s) ==> r == s
    ensures exists i, j | 0 <= i <= j <= |s| :: r == s[i..j] && AllSpace(s[..i]) && AllSpace(s[j..])
  {
    var i := SkipSpaces(s, 0);
    var j := SkipBackSpaces(s, i, |s|);
    assert AllSpace(s[..i]) && AllSpace(s[j..]);
    s[i..j]
  }

  /** A text that starts with a non-space character keeps it first when trimmed. */
  lemma TrimFirst(s: string)
    ensures |s| > 0 && !IsSpace(s[0]) ==> |Trim(s)| > 0 && Trim(s)[0] == s[0]
  {
    if |s| > 0 && !IsSpace(s[0]) {
      assert SkipSpaces(s, 0) == 0;
    }
  }

  /** `s.split(sep)` scanning from `q` with the current piece starting at `p`:
      the ECMAScript split algorithm for a non-empty string separator. */
  function SplitOnFrom(s: string, sep: string, p: nat, q: nat): (parts: seq<string>)
    requires |sep| > 0 && p <= q <= |s|
    requires forall k: nat :: p <= k < q ==> !OccursAt(s, sep, k)
    ensures |parts| >= 1
    ensures Join(parts, sep) == s[p..]
    ensures forall m :: 0 <= m < |parts| ==> !Contains(parts[m], sep)
    decreases |s| - q
  {
    if q >= |s| then
      OccurrenceInSlice(s, sep, p, |s|);
      assert s[p..] == s[p..|s|];
      [s[p..]]
    else if OccursAt(s, sep, q) then
      OccurrenceInSlice(s, sep, p, q);
      var rest := SplitOnFrom(s, sep, q + |sep|, q + |sep|);
      assert s[p..] == s[p..q] + sep + s[q + |sep|..];
      [s[p..q]] + rest
    else
      SplitOnFrom(s, sep, p, q + 1)
  }

  /** `s.split(sep)`: the pieces between the leftmost non-overlapping occurrences of `sep`. */
  function SplitOn(s: string, sep: string): (parts: seq<string>)
    requires |sep| > 0
    ensures |parts| >= 1
    ensures Join(parts, sep) == s
    ensures forall m :: 0 <= m < |parts| ==> !Contains(parts[m], sep)
  {
    SplitOnFrom(s, sep, 0, 0)
  }

  /** An occurrence inside a slice of `s` is an occurrence in `s` that starts inside the slice. */
  lemma OccurrenceInSlice(s: string, sep: string, p: nat, q: nat)
    requires |sep| > 0 && p <= q <= |s|
    ensures Contains(s[p..q], sep) ==> exists k: nat :: p <= k < q && OccursAt(s, sep, k)
  {
    if Contains(s[p..q], sep) {
      var k: nat :| OccursAt(s[p..q], sep, k);
      forall i | 0 <= i < |sep|
        ensures s[p + k..p + k + |sep|][i] == sep[i]
      {
        assert s[p..q][k..k + |sep|][i] == sep[i];
      }
      assert OccursAt(s, sep, p + k);
    }
  }

  /** `parts.join(sep)`. */
  function Join(parts: seq<string>, sep: string): string
  {
    if |parts| == 0 then []
    else if |parts| == 1 then parts[0]
    else parts[0] + sep + Join(parts[1..], sep)
  }

  /** The pieces of a regular-expression split with the matched texts put back
      between them. */
  function Interleave(pieces: seq<string>, seps: seq<string>): string
    requires |pieces| == |seps| + 1
  {
    if |seps| == 0 then pieces[0] else pieces[0] + seps[0] + Interleave(pieces[1..], seps[1..])
  }

  /** The number of occurrences of `c` in `s`. */
  function CountChar(s: string, c: char): nat
  {
    if |s| == 0 then 0 else (if s[0] == c then 1 else 0) + CountChar(s[1..], c)
  }

  lemma {:induction false} CountCharAppend(a: string, b: string, c: char)
    ensures CountChar(a + b, c) == CountChar(a, c) + CountChar(b, c)
  {
    if |a| == 0 {
      assert a + b == b;
    } else {
      assert (a + b)[1..] == a[1..] + b;
      CountCharAppend(a[1..], b, c);
    }
  }

  lemma CountCharAbsent(s: string, c: char)
    requires c !in s
    ensures CountChar(s, c) == 0
  {
  }

  /** Joining pieces free of `c` with the one-character separator `[c]`
      yields exactly one `c` per gap between pieces. */
  lemma {:induction false} CountCharJoin(parts: seq<string>, c: char)
    requires |parts| >= 1
    requires forall m :: 0 <= m < |parts| ==> c !in parts[m]
    ensures CountChar(Join(parts, [c]), c) == |parts| - 1
  {
    CountCharAbsent(parts[0], c);
    if |parts| > 1 {
      CountCharJoin(parts[1..], c);
      CountCharAppend(parts[0], [c], c);
      CountCharAppend(parts[0] + [c], Join(parts[1..], [c]), c);
    }
  }

  lemma NotContainsChar(s: string, c: char)
    requires !Contains(s, [c])
    ensures c !in s
  {
    if c in s {
      var k :| 0 <= k < |s| && s[k] == c;
      assert OccursAt(s, [c], k);
    }
  }
}
