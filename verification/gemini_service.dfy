/** The search service (services/geminiService.ts) without its network call: the
    per-category instruction table, the fallback answer text, and the conversion of
    the model's grounding chunks into a de-duplicated list of sources. */
module GeminiService {
  import opened Types
  import opened Seqs

  /** The instruction each category adds to the prompt (`CATEGORY_PROMPTS`). */
  const GeneralPrompt: string := "Provide a broad, general overview covering all aspects."
  const HealthPrompt: string := "Strictly focus on healthcare, medical applications, clinical research papers, and health-tech. Prioritize medical accuracy."
  const EmotionPrompt: string := "Strictly focus on sentiment analysis, emotional AI (Affective Computing), psychology papers, and human interactions."
  const BusinessPrompt: string := "Strictly focus on enterprise solutions, financial models, business automation, and market ecosystem trends."
  const EducationPrompt: string := "Strictly focus on educational technology, learning analytics, tutoring systems, and pedagogical research."
  const CreativePrompt: string := "Strictly focus on generative art, music, creative writing tools, and entertainment industry applications."

  function CategoryPrompt(c: SearchCategory): string
  {
    match c
    case General => GeneralPrompt
    case Health => HealthPrompt
    case Emotion => EmotionPrompt
    case Business => BusinessPrompt
    case Education => EducationPrompt
    case Creative => CreativePrompt
  }

  /** The length of each instruction; in particular none is empty, so the `||`
      fallback never replaces a category's own instruction. */
  lemma PromptLength(c: SearchCategory)
    ensures |CategoryPrompt(c)| == match c
      case General => 55 case Health => 123 case Emotion => 116
      case Business => 107 case Education => 105 case Creative => 105
  {
  }

  /** Different categories get different instructions. */
  lemma PromptsDistinct(c: SearchCategory, d: SearchCategory)
    requires c != d
    ensures CategoryPrompt(c) != CategoryPrompt(d)
  {
    PromptLength(c);
    PromptLength(d);
    if {c, d} == {Education, Creative} {
      // the two instructions of equal length still differ in their text
      assert EducationPrompt != CreativePrompt;
    }
  }

  /** The category a key names, if it names one. */
  function ParseCategory(key: string): (c: Option<SearchCategory>)
    ensures c.Some? ==> CategoryName(c.value) == key
    ensures c.None? ==> forall d :: CategoryName(d) != key
  {
    if key == "General" then Some(General)
    else if key == "Health" then Some(Health)
    else if key == "Emotion" then Some(Emotion)
    else if key == "Business" then Some(Business)
    else if key == "Education" then Some(Education)
    else if key == "Creative" then Some(Creative)
    else None
  }

  /** Every category name parses back to its category, so no key names two categories. */
  lemma ParseCategoryName(c: SearchCategory)
    ensures ParseCategory(CategoryName(c)) == Some(c)
  {
  }

  /** `CATEGORY_PROMPTS[category] || CATEGORY_PROMPTS['General']`: the table lookup
      yields nothing for a key that names no category, and an empty instruction
      would also fall back to the general one. */
  function InstructionFor(key: string): (r: string)
    ensures r != []
    ensures ParseCategory(key).Some? ==> r == CategoryPrompt(ParseCategory(key).value)
    ensures ParseCategory(key).None? ==> r == CategoryPrompt(General)
  {
    PromptLength(General);
    var looked := ParseCategory(key);
    if looked.Some? then
      PromptLength(looked.value);
      var prompt := CategoryPrompt(looked.value);
      if prompt != [] then prompt else CategoryPrompt(General)
    else CategoryPrompt(General)
  }

  /** Every category asks for its own instruction, and anything else for the general one. */
  lemma InstructionForCategory(c: SearchCategory, key: string)
    ensures InstructionFor(CategoryName(c)) == CategoryPrompt(c)
    ensures (forall d :: CategoryName(d) != key) ==> InstructionFor(key) == CategoryPrompt(General)
  {
    ParseCategoryName(c);
  }

  /** The instruction determines the category a valid key names. */
  lemma InstructionForInjective(c: SearchCategory, d: SearchCategory)
    requires InstructionFor(CategoryName(c)) == InstructionFor(CategoryName(d))
    ensures c == d
  {
    InstructionForCategory(c, CategoryName(c));
    InstructionForCategory(d, CategoryName(d));
    if c != d {
      PromptsDistinct(c, d);
    }
  }

  /** The text shown when the model returns none. */
  const NoInformation: string := "No information found."

  /** `response.text || "No information found."`. */
  function ResponseText(text: Option<string>): (r: string)
    ensures r != []
    ensures text.Some? && text.value != [] ==> r == text.value
    ensures text.None? || text.value == [] ==> r == NoInformation
  {
    if text.Some? && text.value != [] then text.value else NoInformation
  }

  /** The parts of a model response the service reads; each may be missing. */
  datatype GroundingMetadata = GroundingMetadata(groundingChunks: Option<seq<GroundingChunk>>)
  datatype Candidate = Candidate(groundingMetadata: Option<GroundingMetadata>)
  datatype ModelResponse = ModelResponse(text: Option<string>, candidates: Option<seq<Candidate>>)

  /** `response.candidates?.[0]?.groundingMetadata?.groundingChunks || []`. */
  function ChunksOf(response: ModelResponse): (chunks: seq<GroundingChunk>)
    ensures response.candidates.None? || response.candidates.value == [] ==> chunks == []
    ensures response.candidates.Some? && response.candidates.value != [] ==>
      var first := response.candidates.value[0];
      (first.groundingMetadata.None? || first.groundingMetadata.value.groundingChunks.None? ==> chunks == [])
      && (first.groundingMetadata.Some? && first.groundingMetadata.value.groundingChunks.Some? ==>
            chunks == first.groundingMetadata.value.groundingChunks.value)
  {
    if response.candidates.None? || |response.candidates.value| == 0 then []
    else
      var first := response.candidates.value[0];
      if first.groundingMetadata.None? || first.groundingMetadata.value.groundingChunks.None? then []
      else first.groundingMetadata.value.groundingChunks.value
  }

  /** The title given to a source whose chunk has none. */
  const DefaultTitle: string := "Web Source"

  /** A chunk yields a source only when it has a web part with a non-empty URI. */
  predicate HasUsableUri(chunk: GroundingChunk) {
    chunk.web.Some? && chunk.web.value.uri.Some? && chunk.web.value.uri.value != []
  }

  /** The `map` step: a chunk with a usable URI becomes a source carrying that URI and
      its title, or "Web Source" when the title is missing or empty; any other chunk
      becomes nothing. */
  function ChunkToSource(chunk: GroundingChunk): (r: Option<Source>)
    ensures r.Some? <==> HasUsableUri(chunk)
    ensures r.Some? ==> r.value.uri == chunk.web.value.uri.value && r.value.title.Some? && r.value.title.value != []
    ensures r.Some? && chunk.web.value.title.Some? && chunk.web.value.title.value != [] ==> r.value.title == chunk.web.value.title
  {
    if HasUsableUri(chunk) then
      var web := chunk.web.value;
      var title := if web.title.Some? && web.title.value != [] then web.title.value else DefaultTitle;
      Some(Source(Some(title), web.uri.value))
    else None
  }

  /** The `map` and the null-dropping `filter`, in chunk order. */
  function CollectSources(chunks: seq<GroundingChunk>): (r: seq<Source>)
    ensures |r| <= |chunks|
    ensures forall i :: 0 <= i < |r| ==> r[i].uri != [] && r[i].title.Some? && r[i].title.value != []
  {
    if |chunks| == 0 then []
    else
      var head := ChunkToSource(chunks[0]);
      (if head.Some? then [head.value] else []) + CollectSources(chunks[1..])
  }

  /** Collecting keeps the chunks' order: the sources of a concatenation are the
      sources of the first part followed by those of the second. */
  lemma {:induction false} CollectSourcesAppend(a: seq<GroundingChunk>, b: seq<GroundingChunk>)
    ensures CollectSources(a + b) == CollectSources(a) + CollectSources(b)
  {
    if |a| > 0 {
      assert (a + b)[0] == a[0];
      assert (a + b)[1..] == a[1..] + b;
      CollectSourcesAppend(a[1..], b);
    } else {
      assert a + b == b;
    }
  }

  /** The sources collected are exactly the conversions of the usable chunks. */
  lemma {:induction false} CollectSourcesMembers(chunks: seq<GroundingChunk>, x: Source)
    ensures x in CollectSources(chunks) <==> exists k :: 0 <= k < |chunks| && ChunkToSource(chunks[k]) == Some(x)
  {
    if |chunks| > 0 {
      CollectSourcesMembers(chunks[1..], x);
      if exists k :: 0 <= k < |chunks| && ChunkToSource(chunks[k]) == Some(x) {
        var k :| 0 <= k < |chunks| && ChunkToSource(chunks[k]) == Some(x);
        if k > 0 {
          assert chunks[1..][k - 1] == chunks[k];
        }
      }
      if exists k :: 0 <= k < |chunks[1..]| && ChunkToSource(chunks[1..][k]) == Some(x) {
        var k :| 0 <= k < |chunks[1..]| && ChunkToSource(chunks[1..][k]) == Some(x);
        assert chunks[k + 1] == chunks[1..][k];
      }
    }
  }

  /** One source per usable chunk. */
  function UsableCount(chunks: seq<GroundingChunk>): nat
  {
    if |chunks| == 0 then 0 else (if HasUsableUri(chunks[0]) then 1 else 0) + UsableCount(chunks[1..])
  }

  lemma {:induction false} CollectSourcesCount(chunks: seq<GroundingChunk>)
    ensures |CollectSources(chunks)| == UsableCount(chunks)
  {
    if |chunks| > 0 {
      CollectSourcesCount(chunks[1..]);
    }
  }

  /** The URIs a list of sources carries. */
  function Uris(s: seq<Source>): set<string>
  {
    set x | x in s :: x.uri
  }

  /** No URI occurs twice. */
  ghost predicate UniqueUris(s: seq<Source>)
  {
    forall i, j :: 0 <= i < j < |s| ==> s[i].uri != s[j].uri
  }

  /** `findIndex` from position `i`: the first index at or after `i` whose source has
      the URI, or -1. */
  function FindUri(a: seq<Source>, uri: string, i: nat): (k: int)
    requires i <= |a|
    ensures -1 <= k < |a|
    ensures k >= 0 ==> i <= k && a[k].uri == uri && forall j :: i <= j < k ==> a[j].uri != uri
    ensures k == -1 ==> forall j :: i <= j < |a| ==> a[j].uri != uri
    decreases |a| - i
  {
    if i == |a| then -1
    else if a[i].uri == uri then i
    else FindUri(a, uri, i + 1)
  }

  /** `a.findIndex(t => t.uri === uri)`. */
  function FirstIndexOfUri(a: seq<Source>, uri: string): (k: int)
    ensures -1 <= k < |a|
    ensures k >= 0 ==> a[k].uri == uri && forall j :: 0 <= j < k ==> a[j].uri != uri
    ensures k == -1 <==> uri !in Uris(a)
  {
    var k := FindUri(a, uri, 0);
    if k == -1 then k
    else
      assert a[k] in a;
      k
  }

  /** The `filter` keeping the entries of `a` from index `i` on that are the first
      with their URI. */
  function DedupFrom(a: seq<Source>, i: nat): seq<Source>
    requires i <= |a|
    decreases |a| - i
  {
    if i == |a| then []
    else (if FirstIndexOfUri(a, a[i].uri) == i then [a[i]] else []) + DedupFrom(a, i + 1)
  }

  /** An independent reference for de-duplication: walk the list once, remembering
      the URIs already kept. */
  function DedupSeen(a: seq<Source>, seen: set<string>): seq<Source>
  {
    if |a| == 0 then []
    else if a[0].uri in seen then DedupSeen(a[1..], seen)
    else [a[0]] + DedupSeen(a[1..], seen + {a[0].uri})
  }

  /** The source keeps entry `i` exactly when no earlier entry has its URI. */
  lemma FirstIndexIffUnseen(a: seq<Source>, i: nat)
    requires i < |a|
    ensures FirstIndexOfUri(a, a[i].uri) == i <==> a[i].uri !in Uris(a[..i])
  {
    var k := FirstIndexOfUri(a, a[i].uri);
    if k != i {
      assert 0 <= k < i;
      assert a[..i][k] == a[k];
    }
    if a[i].uri in Uris(a[..i]) {
      var x :| x in a[..i] && x.uri == a[i].uri;
      var j :| 0 <= j < i && a[..i][j] == x;
      assert a[j].uri == a[i].uri;
    }
  }

  lemma UrisSnoc(a: seq<Source>, i: nat)
    requires i < |a|
    ensures Uris(a[..i + 1]) == Uris(a[..i]) + {a[i].uri}
  {
    assert a[..i + 1] == a[..i] + [a[i]];
  }

  /** The `findIndex` filter agrees with the reference from any position on. */
  lemma {:induction false} DedupFromSeen(a: seq<Source>, i: nat)
    requires i <= |a|
    ensures DedupFrom(a, i) == DedupSeen(a[i..], Uris(a[..i]))
    decreases |a| - i
  {
    if i < |a| {
      DedupFromSeen(a, i + 1);
      DedupFromStep(a, i);
      DedupSeenStep(a, i);
    }
  }

  /** One step of the filter: entry `i` is kept exactly when its URI is new. */
  lemma DedupFromStep(a: seq<Source>, i: nat)
    requires i < |a|
    ensures DedupFrom(a, i) == (if a[i].uri in Uris(a[..i]) then [] else [a[i]]) + DedupFrom(a, i + 1)
  {
    FirstIndexIffUnseen(a, i);
  }

  /** One step of the reference walk over `a[i..]`, with the URIs of `a[..i]` seen. */
  lemma DedupSeenStep(a: seq<Source>, i: nat)
    requires i < |a|
    ensures DedupSeen(a[i..], Uris(a[..i]))
      == (if a[i].uri in Uris(a[..i]) then [] else [a[i]]) + DedupSeen(a[i + 1..], Uris(a[..i + 1]))
  {
    UrisSnoc(a, i);
    var suffix := a[i..];
    assert suffix[0] == a[i];
    assert suffix[1..] == a[i + 1..];
    var seen := Uris(a[..i]);
    if a[i].uri in seen {
      assert Uris(a[..i + 1]) == seen;
    }
  }

  /** The reference keeps an order-preserving selection with distinct URIs, avoids
      the URIs already seen and loses none of the others. */
  lemma {:induction false} DedupSeenFacts(a: seq<Source>, seen: set<string>)
    ensures IsSubsequence(DedupSeen(a, seen), a)
    ensures UniqueUris(DedupSeen(a, seen))
    ensures Uris(DedupSeen(a, seen)) == Uris(a) - seen
  {
    if |a| > 0 {
      var rest := a[1..];
      assert a == [a[0]] + rest;
      assert Uris(a) == {a[0].uri} + Uris(rest);
      if a[0].uri in seen {
        DedupSeenFacts(rest, seen);
        SubsequenceCons(a[0], DedupSeen(rest, seen), rest, false);
      } else {
        var tail := DedupSeen(rest, seen + {a[0].uri});
        DedupSeenFacts(rest, seen + {a[0].uri});
        SubsequenceCons(a[0], tail, rest, true);
        var r := [a[0]] + tail;
        assert Uris(r) == {a[0].uri} + Uris(tail);
        forall i, j | 0 <= i < j < |r| ensures r[i].uri != r[j].uri {
          if i == 0 {
            assert r[j] == tail[j - 1];
            assert r[j] in tail;
          } else {
            assert r[i] == tail[i - 1] && r[j] == tail[j - 1];
          }
        }
      }
    }
  }

  /** A list whose URIs are distinct and unseen passes through the reference unchanged. */
  lemma {:induction false} DedupSeenUnique(a: seq<Source>, seen: set<string>)
    requires UniqueUris(a)
    requires Uris(a) !! seen
    ensures DedupSeen(a, seen) == a
  {
    if |a| > 0 {
      var rest := a[1..];
      UniqueUrisTail(a, seen);
      DedupSeenUnique(rest, seen + {a[0].uri});
      DedupSeenKeep(a, seen);
      assert a == [a[0]] + rest;
    }
  }

  lemma DedupSeenKeep(a: seq<Source>, seen: set<string>)
    requires |a| > 0 && a[0].uri !in seen
    ensures DedupSeen(a, seen) == [a[0]] + DedupSeen(a[1..], seen + {a[0].uri})
  {
  }

  /** Past the head of a list with distinct, unseen URIs, the rest is distinct and
      avoids the head's URI too. */
  lemma UniqueUrisTail(a: seq<Source>, seen: set<string>)
    requires |a| > 0 && UniqueUris(a) && Uris(a) !! seen
    ensures a[0].uri !in seen
    ensures UniqueUris(a[1..]) && Uris(a[1..]) !! seen + {a[0].uri}
  {
    var rest := a[1..];
    assert a[0] in a;
    assert forall i, j :: 0 <= i < j < |rest| ==> rest[i] == a[i + 1] && rest[j] == a[j + 1];
    forall x | x in rest ensures x.uri != a[0].uri {
      var j :| 0 <= j < |rest| && rest[j] == x;
      assert a[j + 1] == x;
    }
    assert Uris(rest) !! seen + {a[0].uri} by {
      forall x | x in rest ensures x in a {
        var j :| 0 <= j < |rest| && rest[j] == x;
        assert a[j + 1] == x;
      }
    }
  }

  /** Every entry the filter keeps is the first entry of `a` with its URI. */
  lemma {:induction false} DedupFromFirst(a: seq<Source>, i: nat, x: Source)
    requires i <= |a|
    requires x in DedupFrom(a, i)
    ensures FirstIndexOfUri(a, x.uri) >= 0 && x == a[FirstIndexOfUri(a, x.uri)]
    decreases |a| - i
  {
    if FirstIndexOfUri(a, a[i].uri) == i && x == a[i] {
    } else {
      DedupFromFirst(a, i + 1, x);
    }
  }

  /** `.filter((v, i, a) => a.findIndex(t => t.uri === v.uri) === i)`: keeps the
      first source for each URI, in order. */
  function DedupByUri(a: seq<Source>): (r: seq<Source>)
    ensures IsSubsequence(r, a)
    ensures UniqueUris(r)
    ensures Uris(r) == Uris(a)
    ensures forall x :: x in r ==> FirstIndexOfUri(a, x.uri) >= 0 && x == a[FirstIndexOfUri(a, x.uri)]
  {
    DedupFromSeen(a, 0);
    assert a[0..] == a;
    assert Uris(a[..0]) == {};
    DedupSeenFacts(a, {});
    forall x | x in DedupFrom(a, 0)
      ensures FirstIndexOfUri(a, x.uri) >= 0 && x == a[FirstIndexOfUri(a, x.uri)]
    {
      DedupFromFirst(a, 0, x);
    }
    DedupFrom(a, 0)
  }

  /** The `findIndex` filter is the one-pass reference that remembers seen URIs. */
  lemma DedupMatchesReference(a: seq<Source>)
    ensures DedupByUri(a) == DedupSeen(a, {})
  {
    DedupFromSeen(a, 0);
    assert a[0..] == a;
    assert Uris(a[..0]) == {};
  }

  /** De-duplicating twice changes nothing, and a list without repeated URIs is kept whole. */
  lemma DedupIdempotent(a: seq<Source>)
    ensures DedupByUri(DedupByUri(a)) == DedupByUri(a)
    ensures UniqueUris(a) ==> DedupByUri(a) == a
  {
    var r := DedupByUri(a);
    DedupMatchesReference(r);
    DedupSeenUnique(r, {});
    if UniqueUris(a) {
      DedupMatchesReference(a);
      DedupSeenUnique(a, {});
    }
  }

  /** The chunk yields a source with URI `uri`. */
  predicate YieldsUri(chunk: GroundingChunk, uri: string) {
    HasUsableUri(chunk) && chunk.web.value.uri.value == uri
  }

  /** An independent reference for the source kept per URI: the index of the first
      chunk that yields that URI, or -1 when none does. */
  function FirstChunkWith(chunks: seq<GroundingChunk>, uri: string): (k: int)
    ensures -1 <= k < |chunks|
    ensures k >= 0 ==> YieldsUri(chunks[k], uri) && forall j :: 0 <= j < k ==> !YieldsUri(chunks[j], uri)
    ensures k == -1 ==> forall j :: 0 <= j < |chunks| ==> !YieldsUri(chunks[j], uri)
  {
    if |chunks| == 0 then -1
    else if YieldsUri(chunks[0], uri) then 0
    else
      var k := FirstChunkWith(chunks[1..], uri);
      if k == -1 then -1 else k + 1
  }

  /** The first source with a URI in a list whose head has it is the head. */
  lemma FirstIndexHead(a: seq<Source>, uri: string)
    requires |a| > 0 && a[0].uri == uri
    ensures FirstIndexOfUri(a, uri) == 0
  {
    assert a[0] in a;
  }

  /** Before a prefix without the URI, the first index moves by the prefix's length. */
  lemma FirstIndexShift(pre: seq<Source>, t: seq<Source>, uri: string)
    requires forall i :: 0 <= i < |pre| ==> pre[i].uri != uri
    requires uri in Uris(t)
    ensures FirstIndexOfUri(t, uri) >= 0
    ensures FirstIndexOfUri(pre + t, uri) == |pre| + FirstIndexOfUri(t, uri)
  {
    var kt := FirstIndexOfUri(t, uri);
    var a := pre + t;
    assert a[|pre| + kt] == t[kt];
    assert a[|pre| + kt] in a;
    var ka := FirstIndexOfUri(a, uri);
    assert forall j :: 0 <= j < |pre| ==> a[j] == pre[j];
    assert ka >= |pre|;
    assert a[ka] == t[ka - |pre|];
  }

  /** The collected source that `findIndex` finds first for a URI is the conversion
      of the first chunk yielding that URI. */
  lemma {:induction false} CollectFirst(chunks: seq<GroundingChunk>, uri: string)
    requires uri in Uris(CollectSources(chunks))
    ensures FirstIndexOfUri(CollectSources(chunks), uri) >= 0
    ensures FirstChunkWith(chunks, uri) >= 0
    ensures ChunkToSource(chunks[FirstChunkWith(chunks, uri)])
      == Some(CollectSources(chunks)[FirstIndexOfUri(CollectSources(chunks), uri)])
  {
    var a := CollectSources(chunks);
    var x :| x in a && x.uri == uri;
    var head := ChunkToSource(chunks[0]);
    var pre := if head.Some? then [head.value] else [];
    var t := CollectSources(chunks[1..]);
    assert a == pre + t;
    if YieldsUri(chunks[0], uri) {
      FirstIndexHead(a, uri);
    } else {
      assert x !in pre;
      assert x in t;
      CollectFirst(chunks[1..], uri);
      FirstIndexShift(pre, t, uri);
      assert a[|pre| + FirstIndexOfUri(t, uri)] == t[FirstIndexOfUri(t, uri)];
      assert chunks[1..][FirstChunkWith(chunks[1..], uri)] == chunks[FirstChunkWith(chunks, uri)];
    }
  }

  /** What the service returns for a model response: its text or the fallback, and
      one source per distinct usable URI, in chunk order, each made from the first
      chunk that yields its URI. */
  function ExtractResult(response: ModelResponse): (r: SearchResult)
    ensures r.markdownText != []
    ensures response.text.Some? && response.text.value != [] ==> r.markdownText == response.text.value
    ensures response.text.None? || response.text.value == [] ==> r.markdownText == NoInformation
    ensures ChunksOf(response) == [] ==> r.sources == []
    ensures IsSubsequence(r.sources, CollectSources(ChunksOf(response)))
    ensures UniqueUris(r.sources)
    ensures forall i :: 0 <= i < |r.sources| ==>
      r.sources[i].uri != [] && r.sources[i].title.Some? && r.sources[i].title.value != []
    ensures forall u :: u in Uris(r.sources) <==>
      exists k :: 0 <= k < |ChunksOf(response)| && YieldsUri(ChunksOf(response)[k], u)
    ensures forall x :: x in r.sources ==> (FirstChunkWith(ChunksOf(response), x.uri) >= 0
      && ChunkToSource(ChunksOf(response)[FirstChunkWith(ChunksOf(response), x.uri)]) == Some(x))
  {
    var chunks := ChunksOf(response);
    var collected := CollectSources(chunks);
    var sources := DedupByUri(collected);
    SubsequenceMembers(sources, collected);
    ExtractedUris(chunks);
    ExtractedFirst(chunks, sources);
    SearchResult(ResponseText(response.text), sources)
  }

  lemma ExtractedFirst(chunks: seq<GroundingChunk>, sources: seq<Source>)
    requires sources == DedupByUri(CollectSources(chunks))
    ensures forall x :: x in sources ==> (FirstChunkWith(chunks, x.uri) >= 0
      && ChunkToSource(chunks[FirstChunkWith(chunks, x.uri)]) == Some(x))
  {
    var a := CollectSources(chunks);
    forall x | x in sources
      ensures FirstChunkWith(chunks, x.uri) >= 0 && ChunkToSource(chunks[FirstChunkWith(chunks, x.uri)]) == Some(x)
    {
      assert a[FirstIndexOfUri(a, x.uri)] in a;
      CollectFirst(chunks, x.uri);
    }
  }

  lemma ExtractedUris(chunks: seq<GroundingChunk>)
    ensures forall u :: u in Uris(CollectSources(chunks)) <==>
      exists k :: 0 <= k < |chunks| && YieldsUri(chunks[k], u)
  {
    forall u
      ensures u in Uris(CollectSources(chunks)) <==>
        exists k :: 0 <= k < |chunks| && YieldsUri(chunks[k], u)
    {
      if u in Uris(CollectSources(chunks)) {
        var x :| x in CollectSources(chunks) && x.uri == u;
        CollectSourcesMembers(chunks, x);
      }
      if exists k :: 0 <= k < |chunks| && YieldsUri(chunks[k], u) {
        var k :| 0 <= k < |chunks| && YieldsUri(chunks[k], u);
        var x := ChunkToSource(chunks[k]).value;
        CollectSourcesMembers(chunks, x);
      }
    }
  }
}
