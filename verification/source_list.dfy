/** The reference list (components/SourceList.tsx): classification of a source
    URI as a research paper, an application or a general page, and the grouping
    of a source list into those three buckets for display. */
module SourceList {
  import opened Text
  import opened Seqs
  import Types

  type Source = Types.Source

  /** The three buckets `getCategory` returns ('PAPER' | 'APP' | 'GENERAL'). */
  datatype SourceCategory = Paper | App | General

  /** Academic, preprint and indexing domains. */
  const PaperDomains: seq<string> := [
    "arxiv.org", "biorxiv.org", "medrxiv.org", "ieee.org", "acm.org",
    "nature.com", "science.org", "springer.com", "sciencedirect.com",
    "ncbi.nlm.nih.gov", "semanticscholar.org", "researchgate.net"
  ]

  /** Code hosting, package registry and developer-community domains. */
  const AppDomains: seq<string> := [
    "github.com", "gitlab.com", "huggingface.co", "producthunt.com",
    "pypi.org", "npmjs.com", "sourceforge.net", "stackoverflow.com",
    "dev.to", "vercel.com", "netlify.com"
  ]

  /** Some domain of the list occurs somewhere in `s`. */
  ghost predicate MentionsAny(s: string, domains: seq<string>) {
    exists d :: d in domains && Contains(s, d)
  }

  /** `domains.some(d => s.includes(d))`. */
  function SomeIncluded(s: string, domains: seq<string>): bool
  {
    if |domains| == 0 then false
    else Includes(s, domains[0]) || SomeIncluded(s, domains[1..])
  }

  /** The search over the list finds a domain exactly when one occurs. */
  lemma {:induction false} SomeIncludedSpec(s: string, domains: seq<string>)
    ensures SomeIncluded(s, domains) <==> MentionsAny(s, domains)
  {
    if |domains| > 0 {
      SomeIncludedSpec(s, domains[1..]);
      assert forall d :: d in domains <==> d == domains[0] || d in domains[1..];
    }
  }

  /** `getCategory`: lower-case the URI, consult the paper list, then the application list. */
  function GetCategory(uri: string): SourceCategory
  {
    var lower := Lower(uri);
    if SomeIncluded(lower, PaperDomains) then Paper
    else if SomeIncluded(lower, AppDomains) then App
    else General
  }

  /** What `getCategory` decides: a URI is a paper exactly when a paper domain occurs
      in its lower-cased form; an application exactly when no paper domain but an
      application domain occurs (so a paper domain wins when both occur); and a
      general source exactly when neither list matches, malformed URIs included. */
  lemma CategorySpec(uri: string)
    ensures GetCategory(uri) == Paper <==> MentionsAny(Lower(uri), PaperDomains)
    ensures GetCategory(uri) == App <==> !MentionsAny(Lower(uri), PaperDomains) && MentionsAny(Lower(uri), AppDomains)
    ensures GetCategory(uri) == General <==> !MentionsAny(Lower(uri), PaperDomains) && !MentionsAny(Lower(uri), AppDomains)
  {
    SomeIncludedSpec(Lower(uri), PaperDomains);
    SomeIncludedSpec(Lower(uri), AppDomains);
  }

  /** Changing the case of letters in a URI never changes its category. */
  lemma CategoryIgnoresCase(u: string, v: string)
    requires SameIgnoringCase(u, v)
    ensures GetCategory(u) == GetCategory(v)
  {
    LowerOfSameIgnoringCase(u, v);
  }

  /** Every listed domain is already lower-case, so it survives lower-casing. */
  lemma DomainsAreLowerCase(d: string)
    requires d in PaperDomains || d in AppDomains
    ensures Lower(d) == d
  {
    if d in PaperDomains {
      PaperDomainsLowerCase();
    } else {
      AppDomainsLowerCase();
    }
    LowerOfLowerCase(d);
  }

  /** Every paper domain is already lower case, so matching the lower-cased URI
      against the list is the same as matching without case. */
  lemma PaperDomainsLowerCase()
    ensures forall i :: 0 <= i < |PaperDomains| ==> IsLowerCase(PaperDomains[i])
  {
    PaperDomainsLowerCaseFirst();
    PaperDomainsLowerCaseRest();
  }

  /** The paper list is checked in two halves so each proof stays small. */
  lemma PaperDomainsLowerCaseFirst()
    ensures forall i :: 0 <= i < 6 ==> IsLowerCase(PaperDomains[i])
  {
  }

  lemma PaperDomainsLowerCaseRest()
    ensures forall i :: 6 <= i < |PaperDomains| ==> IsLowerCase(PaperDomains[i])
  {
  }

  /** Every application domain is already lower case. */
  lemma AppDomainsLowerCase()
    ensures forall i :: 0 <= i < |AppDomains| ==> IsLowerCase(AppDomains[i])
  {
  }

  /** Lower-casing distributes over concatenation. */
  lemma LowerAppend(a: string, b: string)
    ensures Lower(a + b) == Lower(a) + Lower(b)
  {
  }

  /** Matching is by substring anywhere in the URI, not by host name: an
      application domain embedded anywhere (say in a query string) makes the
      URI an application source, unless a paper domain occurs as well. */
  lemma EmbeddedAppDomain(pre: string, d: string, post: string)
    requires d in AppDomains
    requires !MentionsAny(Lower(pre + d + post), PaperDomains)
    ensures GetCategory(pre + d + post) == App
  {
    DomainsAreLowerCase(d);
    LowerAppend(pre + d, post);
    LowerAppend(pre, d);
    var s := Lower(pre + d + post);
    assert s == Lower(pre) + d + Lower(post);
    assert s[|pre|..|pre| + |d|] == d;
    assert OccursAt(s, d, |pre|);
    CategorySpec(pre + d + post);
  }

  /** An embedded paper domain wins over any application domain. */
  lemma EmbeddedPaperDomain(pre: string, d: string, post: string)
    requires d in PaperDomains
    ensures GetCategory(pre + d + post) == Paper
  {
    DomainsAreLowerCase(d);
    LowerAppend(pre + d, post);
    LowerAppend(pre, d);
    var s := Lower(pre + d + post);
    assert s == Lower(pre) + d + Lower(post);
    assert s[|pre|..|pre| + |d|] == d;
    assert OccursAt(s, d, |pre|);
    CategorySpec(pre + d + post);
  }

  /** `sources.filter(s => getCategory(s.uri) === c)`: the sources of category `c`, in input order. */
  function OfCategory(sources: seq<Source>, c: SourceCategory): (r: seq<Source>)
    ensures IsSubsequence(r, sources)
    ensures forall i :: 0 <= i < |r| ==> GetCategory(r[i].uri) == c
  {
    if |sources| == 0 then []
    else
      var keep := GetCategory(sources[0].uri) == c;
      var rest := OfCategory(sources[1..], c);
      assert sources == [sources[0]] + sources[1..];
      SubsequenceCons(sources[0], rest, sources[1..], keep);
      (if keep then [sources[0]] else []) + rest
  }

  /** The filter keeps every source of category `c` as often as it occurs, and nothing else. */
  lemma {:induction false} OfCategoryCount(sources: seq<Source>, c: SourceCategory)
    ensures forall x :: multiset(OfCategory(sources, c))[x] == if GetCategory(x.uri) == c then multiset(sources)[x] else 0
    ensures forall x :: x in OfCategory(sources, c) <==> x in sources && GetCategory(x.uri) == c
  {
    if |sources| > 0 {
      OfCategoryCount(sources[1..], c);
      assert sources == [sources[0]] + sources[1..];
    }
  }

  lemma {:induction false} OfCategoryAppend(xs: seq<Source>, x: Source, c: SourceCategory)
    ensures OfCategory(xs + [x], c) == OfCategory(xs, c) + (if GetCategory(x.uri) == c then [x] else [])
  {
    var ys := xs + [x];
    OfCategoryStep(ys, c);
    if |xs| == 0 {
      assert ys[1..] == [];
    } else {
      assert ys[0] == xs[0] && ys[1..] == xs[1..] + [x];
      OfCategoryStep(xs, c);
      OfCategoryAppend(xs[1..], x, c);
    }
  }

  lemma OfCategoryStep(sources: seq<Source>, c: SourceCategory)
    requires |sources| > 0
    ensures OfCategory(sources, c)
      == (if GetCategory(sources[0].uri) == c then [sources[0]] else []) + OfCategory(sources[1..], c)
  {
  }

  /** The three category filters partition a source list: every source lands in
      exactly one of them, as often as it occurs. */
  lemma CategoriesPartition(sources: seq<Source>)
    ensures multiset(OfCategory(sources, Paper)) + multiset(OfCategory(sources, App))
            + multiset(OfCategory(sources, General)) == multiset(sources)
  {
    OfCategoryCount(sources, Paper);
    OfCategoryCount(sources, App);
    OfCategoryCount(sources, General);
  }

  /** The buckets built by the grouping reduce, keyed by category. */
  type Groups = map<SourceCategory, seq<Source>>

  /** One step of the reduce: append `source` to its category's bucket,
      creating the bucket on first use. */
  function AddToGroup(acc: Groups, source: Source): Groups
  {
    var cat := GetCategory(source.uri);
    acc[cat := (if cat in acc then acc[cat] else []) + [source]]
  }

  /** The reduce over `sources`, left to right, starting from `acc`. */
  function GroupFrom(acc: Groups, sources: seq<Source>): Groups
    decreases |sources|
  {
    if |sources| == 0 then acc else GroupFrom(AddToGroup(acc, sources[0]), sources[1..])
  }

  /** The categories that occur in `sources`. */
  ghost function CategoriesOf(sources: seq<Source>): set<SourceCategory>
  {
    set x | x in sources :: GetCategory(x.uri)
  }

  /** The grouping described declaratively: one bucket per occurring category,
      holding that category's sources in input order. */
  ghost function GroupSpec(sources: seq<Source>): Groups
  {
    map c | c in CategoriesOf(sources) :: OfCategory(sources, c)
  }

  lemma CategoriesOfSnoc(done: seq<Source>, x: Source)
    ensures CategoriesOf(done + [x]) == CategoriesOf(done) + {GetCategory(x.uri)}
  {
    forall c | c in CategoriesOf(done + [x])
      ensures c in CategoriesOf(done) + {GetCategory(x.uri)}
    {
      var y :| y in done + [x] && GetCategory(y.uri) == c;
      if y != x {
        assert y in done;
      }
    }
    forall c | c in CategoriesOf(done)
      ensures c in CategoriesOf(done + [x])
    {
      var y :| y in done && GetCategory(y.uri) == c;
      assert y in done + [x];
    }
    assert x in done + [x];
  }

  lemma AddToGroupBucket(done: seq<Source>, x: Source, c: SourceCategory)
    requires c in CategoriesOf(done + [x])
    ensures c in AddToGroup(GroupSpec(done), x)
    ensures AddToGroup(GroupSpec(done), x)[c] == OfCategory(done + [x], c)
  {
    CategoriesOfSnoc(done, x);
    OfCategoryAppend(done, x, c);
    if c == GetCategory(x.uri) && c !in CategoriesOf(done) {
      OfCategoryCount(done, c);
      assert OfCategory(done, c) == [];
    }
  }

  lemma AddToGroupSpec(done: seq<Source>, x: Source)
    ensures AddToGroup(GroupSpec(done), x) == GroupSpec(done + [x])
  {
    var lhs := AddToGroup(GroupSpec(done), x);
    var rhs := GroupSpec(done + [x]);
    CategoriesOfSnoc(done, x);
    assert lhs.Keys == rhs.Keys;
    forall c | c in rhs.Keys
      ensures lhs[c] == rhs[c]
    {
      AddToGroupBucket(done, x, c);
    }
  }

  lemma {:induction false} GroupFromSpec(done: seq<Source>, rest: seq<Source>)
    ensures GroupFrom(GroupSpec(done), rest) == GroupSpec(done + rest)
    decreases |rest|
  {
    if |rest| == 0 {
      assert done + rest == done;
    } else {
      var next := done + [rest[0]];
      AddToGroupSpec(done, rest[0]);
      GroupFromSpec(next, rest[1..]);
      SeqSplitHead(done, rest);
      GroupFromUnfold(GroupSpec(done), rest);
    }
  }

  lemma GroupFromUnfold(acc: Groups, rest: seq<Source>)
    requires |rest| > 0
    ensures GroupFrom(acc, rest) == GroupFrom(AddToGroup(acc, rest[0]), rest[1..])
  {
  }

  lemma SeqSplitHead(done: seq<Source>, rest: seq<Source>)
    requires |rest| > 0
    ensures done + [rest[0]] + rest[1..] == done + rest
  {
  }

  /** The grouping reduce: a bucket exists exactly for the categories that occur,
      and each bucket holds exactly that category's sources, in input order. */
  function Group(sources: seq<Source>): (g: Groups)
    ensures g.Keys == CategoriesOf(sources)
    ensures forall c :: c in g ==> g[c] == OfCategory(sources, c)
  {
    assert GroupSpec([]) == map[];
    GroupFromSpec([], sources);
    assert [] + sources == sources;
    GroupFrom(map[], sources)
  }

  /** One rendered group: its category heading and its links. */
  datatype SourceGroup = SourceGroup(category: SourceCategory, items: seq<Source>)

  /** The position of a category in the fixed display order. */
  function Rank(c: SourceCategory): nat
  {
    match c
    case Paper => 0
    case App => 1
    case General => 2
  }

  /** `renderGroup` for one category: nothing for a missing or empty bucket. */
  function RenderGroup(g: Groups, c: SourceCategory): seq<SourceGroup>
  {
    if c in g && |g[c]| > 0 then [SourceGroup(c, g[c])] else []
  }

  /** The categories that have a rendered group. */
  function Shown(groups: seq<SourceGroup>): set<SourceCategory>
  {
    if |groups| == 0 then {} else {groups[0].category} + Shown(groups[1..])
  }

  /** All links of the rendered groups, in display order. */
  function Links(groups: seq<SourceGroup>): seq<Source>
  {
    if |groups| == 0 then [] else groups[0].items + Links(groups[1..])
  }

  /** The groups the reference list shows for `sources` (`None` is an undefined list):
      nothing for an absent or empty list; otherwise Papers, Applications and General
      sources in that order, one group per occurring category, each non-empty and
      holding exactly its category's sources in input order, all sources shown once. */
  function RenderedGroups(sources: Types.Option<seq<Source>>): (r: seq<SourceGroup>)
    ensures sources.None? || sources == Types.Some([]) ==> r == []
    ensures forall i :: 0 <= i < |r| ==> r[i].items != [] && r[i].items == OfCategory(sources.value, r[i].category)
    ensures forall i, j :: 0 <= i < j < |r| ==> Rank(r[i].category) < Rank(r[j].category)
    ensures sources.Some? ==> Shown(r) == CategoriesOf(sources.value)
    ensures sources.Some? ==> multiset(Links(r)) == multiset(sources.value)
  {
    if sources.None? || |sources.value| == 0 then []
    else
      var s := sources.value;
      var g := Group(s);
      RenderedFacts(s);
      RenderGroup(g, Paper) + RenderGroup(g, App) + RenderGroup(g, General)
  }

  /** Everything `RenderedGroups` promises, stated of the declarative rendering. */
  lemma RenderedFacts(s: seq<Source>)
    ensures var r := RenderGroup(Group(s), Paper) + RenderGroup(Group(s), App) + RenderGroup(Group(s), General);
      && r == Present(s, Paper) + Present(s, App) + Present(s, General)
      && (forall i :: 0 <= i < |r| ==> r[i].items != [] && r[i].items == OfCategory(s, r[i].category))
      && (forall i, j :: 0 <= i < j < |r| ==> Rank(r[i].category) < Rank(r[j].category))
      && Shown(r) == CategoriesOf(s)
      && multiset(Links(r)) == multiset(s)
  {
    RenderGroupOfGroup(s, Paper);
    RenderGroupOfGroup(s, App);
    RenderGroupOfGroup(s, General);
    RenderedItems(s);
    RenderedOrder(s);
    RenderedShown(s);
    RenderedLinks(s);
  }

  lemma RenderedItems(s: seq<Source>)
    ensures var r := Present(s, Paper) + Present(s, App) + Present(s, General);
      forall i :: 0 <= i < |r| ==> r[i].items != [] && r[i].items == OfCategory(s, r[i].category)
  {
    var p, a, g := Present(s, Paper), Present(s, App), Present(s, General);
    RenderGroupOfGroup(s, Paper);
    RenderGroupOfGroup(s, App);
    RenderGroupOfGroup(s, General);
    forall i | 0 <= i < |p + a + g|
      ensures (p + a + g)[i].items != [] && (p + a + g)[i].items == OfCategory(s, (p + a + g)[i].category)
    {
      if i < |p| {
        assert (p + a + g)[i] == p[i];
      } else if i < |p| + |a| {
        assert (p + a + g)[i] == a[i - |p|];
      } else {
        assert (p + a + g)[i] == g[i - |p| - |a|];
      }
    }
  }

  /** The group the grouped list renders for one category, described declaratively. */
  ghost function Present(s: seq<Source>, c: SourceCategory): seq<SourceGroup>
  {
    if c in CategoriesOf(s) then [SourceGroup(c, OfCategory(s, c))] else []
  }

  lemma RenderGroupOfGroup(s: seq<Source>, c: SourceCategory)
    ensures RenderGroup(Group(s), c) == Present(s, c)
    ensures c in CategoriesOf(s) ==> OfCategory(s, c) != []
  {
    OfCategoryCount(s, c);
    if c in CategoriesOf(s) {
      var x :| x in s && GetCategory(x.uri) == c;
      assert x in OfCategory(s, c);
    }
  }

  lemma RenderedOrder(s: seq<Source>)
    ensures var r := Present(s, Paper) + Present(s, App) + Present(s, General);
      forall i, j :: 0 <= i < j < |r| ==> Rank(r[i].category) < Rank(r[j].category)
  {
  }

  lemma {:induction false} ShownAppend(a: seq<SourceGroup>, b: seq<SourceGroup>)
    ensures Shown(a + b) == Shown(a) + Shown(b)
  {
    if |a| == 0 {
      assert a + b == b;
    } else {
      assert (a + b)[1..] == a[1..] + b;
      ShownAppend(a[1..], b);
    }
  }

  lemma RenderedShown(s: seq<Source>)
    ensures Shown(Present(s, Paper) + Present(s, App) + Present(s, General)) == CategoriesOf(s)
  {
    var p, a, g := Present(s, Paper), Present(s, App), Present(s, General);
    ShownAppend(p, a);
    ShownAppend(p + a, g);
    ShownPresent(s, Paper);
    ShownPresent(s, App);
    ShownPresent(s, General);
    forall c
      ensures c in Shown(p + a + g) <==> c in CategoriesOf(s)
    {
      match c
      case Paper =>
      case App =>
      case General =>
    }
  }

  lemma ShownPresent(s: seq<Source>, c: SourceCategory)
    ensures Shown(Present(s, c)) == if c in CategoriesOf(s) then {c} else {}
  {
  }

  lemma RenderedLinks(s: seq<Source>)
    ensures multiset(Links(Present(s, Paper) + Present(s, App) + Present(s, General))) == multiset(s)
  {
    var p, a, g := Present(s, Paper), Present(s, App), Present(s, General);
    PresentLinks(s, Paper);
    PresentLinks(s, App);
    PresentLinks(s, General);
    LinksAppend(p, a);
    LinksAppend(p + a, g);
    assert Links(p + a + g) == OfCategory(s, Paper) + OfCategory(s, App) + OfCategory(s, General);
    CategoriesPartition(s);
  }

  lemma PresentLinks(s: seq<Source>, c: SourceCategory)
    ensures Links(Present(s, c)) == OfCategory(s, c)
  {
    if c in CategoriesOf(s) {
      assert Links(Present(s, c)) == OfCategory(s, c) + Links([]);
    } else {
      OfCategoryCount(s, c);
      assert OfCategory(s, c) == [];
    }
  }

  lemma {:induction false} LinksAppend(a: seq<SourceGroup>, b: seq<SourceGroup>)
    ensures Links(a + b) == Links(a) + Links(b)
  {
    if |a| == 0 {
      assert a + b == b;
    } else {
      assert (a + b)[1..] == a[1..] + b;
      LinksAppend(a[1..], b);
    }
  }
}
