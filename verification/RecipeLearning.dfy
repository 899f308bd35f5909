/**
 * Learning card and link selectors from a results page: group the vacancy links, climb to their
 * cards, describe the cards by one selector, and make it specific enough.
 */
module RecipeLearning {
  import opened HtmlTree
  import opened PageTree
  import opened RecipeSelectors
  import opened VacancyCards
  import opened Sorting
  import opened Wrappers

  datatype LearningError =
    NoAllowedLinks | TooFewLinks | CardsTooDiverse | AmbiguousCardSelector | AmbiguousLink

  const MIN_CARDS := 3
  const MAX_LEVELS := 4

  // ----- _group_links

  type Link = (nat, string)

  predicate IsChrome(tag: string) {
    tag in {"nav", "header", "footer", "aside"}
  }

  predicate UnderChrome(page: Page, i: nat)
    requires TreeOk(page) && i < |page|
    decreases i
  {
    var up := Parent(page, i);
    up.Some? && (IsChrome(page[up.value].tag) || UnderChrome(page, up.value))
  }

  /** An anchor outside page chrome whose URL is allowed and leaves the results page. */
  predicate IsCandidate(rules: Rules, page: Page, i: nat, url: string)
    requires TreeOk(page) && i < |page|
  {
    && page[i].tag == "a" && !UnderChrome(page, i)
    && rules.resolve(Attr(page, i, "href")) == Some(url) && !rules.samePath(url)
  }

  ghost predicate Candidates(rules: Rules, page: Page, links: seq<Link>, nodes: seq<nat>)
    requires TreeOk(page) && InPage(page, nodes)
  {
    && (forall k :: 0 <= k < |links| ==>
         links[k].0 in nodes && links[k].0 < |page| && IsCandidate(rules, page, links[k].0, links[k].1))
    && (forall k :: 0 <= k < |nodes| ==>
         forall url :: IsCandidate(rules, page, nodes[k], url) ==> (nodes[k], url) in links)
  }

  method CollectCandidates(rules: Rules, page: Page, nodes: seq<nat>) returns (links: seq<Link>)
    requires TreeOk(page) && InPage(page, nodes)
    ensures Candidates(rules, page, links, nodes)
  {
    links := [];
    for n := 0 to |nodes|
      invariant Candidates(rules, page, links, nodes[..n])
    {
      var node := nodes[n];
      assert nodes[..n + 1] == nodes[..n] + [node];
      if page[node].tag != "a" || UnderChrome(page, node) {
        continue;
      }
      var resolved := rules.resolve(Attr(page, node, "href"));
      if resolved.None? || rules.samePath(resolved.value) {
        continue;
      }
      links := links + [(node, resolved.value)];
    }
    assert nodes[..|nodes|] == nodes;
  }

  function WithShape(rules: Rules, links: seq<Link>, shape: string): seq<Link> {
    if links == [] then [] else
      var last := links[|links| - 1];
      WithShape(rules, links[..|links| - 1], shape) + (if rules.shape(last.1) == shape then [last] else [])
  }

  lemma {:induction false} WithShapeMembers(rules: Rules, links: seq<Link>, shape: string, l: Link)
    ensures l in WithShape(rules, links, shape) <==> l in links && rules.shape(l.1) == shape
  {
    if links == [] {
    } else {
      var before, last := links[..|links| - 1], links[|links| - 1];
      WithShapeMembers(rules, before, shape, l);
      assert links == before + [last];
    }
  }

  function Urls(links: seq<Link>): set<string> {
    set k | 0 <= k < |links| :: links[k].1
  }

  /** Links by shape, and every shape in the order of its first link. */
  ghost predicate SplitByShape(rules: Rules, links: seq<Link>, byShape: Dict<string, seq<Link>>) {
    && byShape.Valid()
    && (links != [] ==> byShape.order != [])
    && forall shape {:trigger WithShape(rules, links, shape)} ::
         WithShape(rules, links, shape) == if shape in byShape.at then byShape.at[shape] else []
  }

  lemma SplitGrows(rules: Rules, links: seq<Link>, byShape: Dict<string, seq<Link>>, l: Link)
    requires SplitByShape(rules, links, byShape)
    ensures SplitByShape(rules, links + [l], AddLink(byShape, rules.shape(l.1), l))
  {
    assert (links + [l])[..|links|] == links;
    var shape := rules.shape(l.1);
    assert WithShape(rules, links, shape) == if shape in byShape.at then byShape.at[shape] else [];
  }

  function AddLink(byShape: Dict<string, seq<Link>>, shape: string, l: Link): Dict<string, seq<Link>> {
    if shape in byShape.at then byShape.(at := byShape.at[shape := byShape.at[shape] + [l]])
    else Dict(byShape.order + [shape], byShape.at[shape := [l]])
  }

  /** Splits the links by URL shape and returns the first shape with the most different URLs. */
  method BestShape(rules: Rules, links: seq<Link>) returns (best: string)
    requires links != []
    ensures forall shape :: |Urls(WithShape(rules, links, shape))| <= |Urls(WithShape(rules, links, best))|
  {
    var byShape: Dict<string, seq<Link>> := Dict([], map[]);
    for n := 0 to |links|
      invariant SplitByShape(rules, links[..n], byShape)
    {
      assert links[..n + 1] == links[..n] + [links[n]];
      SplitGrows(rules, links[..n], byShape, links[n]);
      byShape := AddLink(byShape, rules.shape(links[n].1), links[n]);
    }
    assert links[..|links|] == links;
    best := LargestShape(byShape);
    forall shape ensures |Urls(WithShape(rules, links, shape))| <= |Urls(WithShape(rules, links, best))| {
      assert WithShape(rules, links, shape) == if shape in byShape.at then byShape.at[shape] else [];
      assert WithShape(rules, links, best) == byShape.at[best];
      assert Urls([]) == {};
    }
  }

  /** `max(by_shape.values(), key=...)`: the first group with the most different URLs. */
  method LargestShape(byShape: Dict<string, seq<Link>>) returns (best: string)
    requires byShape.Valid() && byShape.order != []
    ensures best in byShape.at
    ensures forall shape :: shape in byShape.at ==> |Urls(byShape.at[shape])| <= |Urls(byShape.at[best])|
  {
    best := byShape.order[0];
    for n := 1 to |byShape.order|
      invariant best in byShape.at
      invariant forall k :: 0 <= k < n ==> |Urls(byShape.at[byShape.order[k]])| <= |Urls(byShape.at[best])|
    {
      if |Urls(byShape.at[byShape.order[n]])| > |Urls(byShape.at[best])| {
        best := byShape.order[n];
      }
    }
    forall shape | shape in byShape.at ensures |Urls(byShape.at[shape])| <= |Urls(byShape.at[best])| {
      var k :| 0 <= k < |byShape.order| && byShape.order[k] == shape;
    }
  }

  /**
   * One anchor per URL, all URLs of one shape, every URL of that shape kept, and by its anchor with
   * the longest text.
   */
  ghost predicate Grouped(rules: Rules, page: Page, group: Links) {
    && LinksOk(page, group)
    && (forall a :: a in group ==> IsCandidate(rules, page, a, group[a]))
    && (forall a, b :: a in group && b in group ==> rules.shape(group[a]) == rules.shape(group[b]))
    && (forall a: nat, url, b ::
         (a < |page| && b in group && IsCandidate(rules, page, a, url) && rules.shape(url) == rules.shape(group[b]))
         ==> url in group.Values)
    && (forall a: nat, b :: a < |page| && b in group && IsCandidate(rules, page, a, group[b])
                            ==> rules.textLength(a) <= rules.textLength(b))
    && |group| >= MIN_CARDS
  }

  /** One link of every URL in `links`, keyed by its anchor. */
  ghost predicate OneOfEach(links: seq<Link>, group: map<nat, string>) {
    group.Values == Urls(links) && |group| == |Urls(links)| && KeyedBy(links, group) && UniqueUrls(group)
  }

  ghost predicate KeyedBy(links: seq<Link>, group: map<nat, string>) {
    forall a :: a in group ==> (a, group[a]) in links
  }

  ghost predicate UniqueUrls(group: map<nat, string>) {
    forall a, b :: a in group && b in group && group[a] == group[b] ==> a == b
  }

  /** No link has a longer text than the kept one with its URL. */
  ghost predicate Longest(links: seq<Link>, group: map<nat, string>, length: nat -> nat) {
    forall a, l :: a in group && l in links && l.1 == group[a] ==> length(l.0) <= length(a)
  }

  ghost predicate LongestFirst(links: seq<Link>, length: nat -> nat) {
    forall j, k :: 0 <= j < k < |links| ==> length(links[j].0) >= length(links[k].0)
  }

  ghost predicate UrlPerNode(links: seq<Link>) {
    forall j, k :: 0 <= j < |links| && 0 <= k < |links| && links[j].0 == links[k].0 ==> links[j] == links[k]
  }

  ghost predicate Kept(links: seq<Link>, group: Dict<nat, string>, length: nat -> nat) {
    group.Valid() && OneOfEach(links, group.at) && Longest(links, group.at, length)
  }

  /** The longest-text anchor of each URL: the first one, the links being sorted by text length. */
  method OnePerUrl(links: seq<Link>, ghost length: nat -> nat) returns (group: Dict<nat, string>)
    requires UrlPerNode(links) && LongestFirst(links, length)
    ensures group.Valid() && OneOfEach(links, group.at) && Longest(links, group.at, length)
  {
    group := Dict([], map[]);
    var seen: set<string> := {};
    for n := 0 to |links|
      invariant seen == Urls(links[..n]) && Kept(links[..n], group, length)
    {
      KeepGoing(links, n, group, length);
      if links[n].1 !in seen {
        seen := seen + {links[n].1};
        group := Dict(group.order + [links[n].0], group.at[links[n].0 := links[n].1]);
      }
    }
    assert links[..|links|] == links;
  }

  lemma KeepGoing(links: seq<Link>, n: nat, group: Dict<nat, string>, length: nat -> nat)
    requires n < |links| && UrlPerNode(links) && LongestFirst(links, length) && Kept(links[..n], group, length)
    ensures Urls(links[..n + 1]) == Urls(links[..n]) + {links[n].1}
    ensures links[n].1 in Urls(links[..n]) ==> Kept(links[..n + 1], group, length)
    ensures links[n].1 !in Urls(links[..n]) ==>
              Kept(links[..n + 1], Dict(group.order + [links[n].0], group.at[links[n].0 := links[n].1]), length)
  {
    assert links[..n + 1] == links[..n] + [links[n]];
    UrlsAppend(links[..n], links[n]);
    if links[n].1 !in Urls(links[..n]) {
      FreshNode(links, n, group.at);
      KeepNew(links[..n], links[n], group, length);
    } else {
      PrefixLongestFirst(links, n, length);
      RepeatedLink(links[..n], links[n], group.at);
      LongestWithRepeated(links[..n], links[n], group.at, length);
    }
  }

  lemma KeepNew(before: seq<Link>, l: Link, group: Dict<nat, string>, length: nat -> nat)
    requires Kept(before, group, length) && l.1 !in Urls(before) && l.0 !in group.at
    ensures Kept(before + [l], Dict(group.order + [l.0], group.at[l.0 := l.1]), length)
  {
    NewLink(before, l, group.at);
    LongestWithNew(before, l, group.at, length);
  }

  lemma LongestWithNew(before: seq<Link>, l: Link, group: map<nat, string>, length: nat -> nat)
    requires Longest(before, group, length) && group.Values == Urls(before) && l.1 !in Urls(before)
    ensures Longest(before + [l], group[l.0 := l.1], length)
  {
    var more := group[l.0 := l.1];
    forall a, m | a in more && m in before + [l] && m.1 == more[a] ensures length(m.0) <= length(a) {
      assert a != l.0 ==> more[a] in group.Values;
      if m in before {
        var k :| 0 <= k < |before| && before[k] == m;
        assert m.1 in Urls(before);
      }
    }
  }

  lemma LongestWithRepeated(before: seq<Link>, l: Link, group: map<nat, string>, length: nat -> nat)
    requires Longest(before, group, length) && KeyedBy(before, group)
    requires forall m :: m in before ==> length(m.0) >= length(l.0)
    ensures Longest(before + [l], group, length)
  {
  }

  lemma PrefixLongestFirst(links: seq<Link>, n: nat, length: nat -> nat)
    requires LongestFirst(links, length) && n < |links|
    ensures forall m :: m in links[..n] ==> length(m.0) >= length(links[n].0)
  {
  }

  lemma UrlsAppend(before: seq<Link>, l: Link)
    ensures Urls(before + [l]) == Urls(before) + {l.1}
  {
    var links := before + [l];
    assert links[|before|] == l;
    assert forall k :: 0 <= k < |before| ==> links[k] == before[k];
  }

  lemma FreshNode(links: seq<Link>, n: nat, group: map<nat, string>)
    requires n < |links| && UrlPerNode(links) && OneOfEach(links[..n], group) && links[n].1 !in Urls(links[..n])
    ensures links[n].0 !in group
  {
    forall a | a in group ensures a != links[n].0 {
      var k :| 0 <= k < n && links[..n][k] == (a, group[a]);
      assert links[..n][k].1 in Urls(links[..n]);
      assert links[k] != links[n];
    }
  }

  lemma ValuesGrow(group: map<nat, string>, node: nat, url: string)
    requires node !in group
    ensures group[node := url].Values == group.Values + {url} && |group[node := url]| == |group| + 1
  {
    var more := group[node := url];
    assert more[node] == url;
    assert forall a :: a in group ==> more[a] == group[a];
  }

  lemma RepeatedLink(before: seq<Link>, l: Link, group: map<nat, string>)
    requires OneOfEach(before, group) && l.1 in Urls(before)
    ensures OneOfEach(before + [l], group)
  {
    UrlsAppend(before, l);
    assert Urls(before + [l]) == Urls(before);
    forall a | a in group ensures (a, group[a]) in before + [l] {
      assert (a, group[a]) in before;
    }
  }

  lemma NewLink(before: seq<Link>, l: Link, group: map<nat, string>)
    requires OneOfEach(before, group) && l.1 !in Urls(before) && l.0 !in group
    ensures OneOfEach(before + [l], group[l.0 := l.1])
  {
    UrlsAppend(before, l);
    ValuesGrow(group, l.0, l.1);
    NewLinkIsKeyed(before, l, group);
    NewUrlStaysUnique(group, l.0, l.1);
  }

  lemma NewLinkIsKeyed(before: seq<Link>, l: Link, group: map<nat, string>)
    requires KeyedBy(before, group) && l.0 !in group
    ensures KeyedBy(before + [l], group[l.0 := l.1])
  {
    var more, links := group[l.0 := l.1], before + [l];
    forall a | a in more ensures (a, more[a]) in links {
      if a == l.0 {
        assert links[|before|] == l;
      } else {
        assert (a, group[a]) in before;
      }
    }
  }

  lemma NewUrlStaysUnique(group: map<nat, string>, node: nat, url: string)
    requires url !in group.Values && UniqueUrls(group)
    ensures UniqueUrls(group[node := url])
  {
    var more := group[node := url];
    forall a, b | a in more && b in more && more[a] == more[b] ensures a == b {
      assert a != node ==> more[a] in group.Values;
      assert b != node ==> more[b] in group.Values;
    }
  }

  /** The URLs of one shape among all candidate links of the page. */
  ghost function ShapeUrls(rules: Rules, page: Page, shape: string): set<string>
    requires TreeOk(page)
  {
    set i: nat | i < |page| && rules.resolve(Attr(page, i, "href")).Some?
                 && IsCandidate(rules, page, i, rules.resolve(Attr(page, i, "href")).value)
                 && rules.shape(rules.resolve(Attr(page, i, "href")).value) == shape
              :: rules.resolve(Attr(page, i, "href")).value
  }

  lemma CollectedUrls(rules: Rules, page: Page, candidates: seq<Link>, shape: string)
    requires TreeOk(page) && InPage(page, Walk(page, 0)) && Candidates(rules, page, candidates, Walk(page, 0))
    ensures Urls(WithShape(rules, candidates, shape)) == ShapeUrls(rules, page, shape)
  {
    var best := WithShape(rules, candidates, shape);
    forall url | url in Urls(best) ensures url in ShapeUrls(rules, page, shape) {
      var k :| 0 <= k < |best| && best[k].1 == url;
      WithShapeMembers(rules, candidates, shape, best[k]);
      var j :| 0 <= j < |candidates| && candidates[j] == best[k];
    }
    forall url | url in ShapeUrls(rules, page, shape) ensures url in Urls(best) {
      var i: nat :| i < |page| && IsCandidate(rules, page, i, url) && rules.shape(url) == shape;
      WalkIsSubtree(page, 0);
      RootIsAboveAll(page, i);
      var k :| 0 <= k < |Walk(page, 0)| && Walk(page, 0)[k] == i;
      WithShapeMembers(rules, candidates, shape, (i, url));
      var j :| 0 <= j < |best| && best[j] == (i, url);
      assert best[j].1 in Urls(best);
    }
  }

  method GroupLinks(rules: Rules, page: Page) returns (r: Result<Dict<nat, string>, LearningError>)
    requires TreeOk(page)
    ensures r.Ok? <==> exists shape :: |ShapeUrls(rules, page, shape)| >= MIN_CARDS
    ensures r.Err? ==> r.error.NoAllowedLinks? || r.error.TooFewLinks?
    ensures r.Ok? ==> r.value.Valid() && Grouped(rules, page, r.value.at)
    ensures r.Ok? ==> forall shape :: |ShapeUrls(rules, page, shape)| <= |r.value.at|
  {
    WalkInPage(page, 0);
    var candidates := CollectCandidates(rules, page, Walk(page, 0));
    forall shape ensures Urls(WithShape(rules, candidates, shape)) == ShapeUrls(rules, page, shape) {
      CollectedUrls(rules, page, candidates, shape);
    }
    if candidates == [] {
      return Err(NoAllowedLinks);
    }
    var shape := BestShape(rules, candidates);
    var best := WithShape(rules, candidates, shape);
    if |Urls(best)| < MIN_CARDS {
      return Err(TooFewLinks);
    }
    var byLength := SortBy(best, (l: Link) => -(rules.textLength(l.0) as real));
    SortedLinks(rules, page, candidates, shape, byLength);
    SortedLongestFirst(best, rules.textLength);
    var group := OnePerUrl(byLength, rules.textLength);
    GroupedLinks(rules, page, candidates, shape, byLength, group);
    r := Ok(group);
  }

  lemma SortedLongestFirst(links: seq<Link>, length: nat -> nat)
    ensures LongestFirst(SortBy(links, (l: Link) => -(length(l.0) as real)), length)
  {
    var key := (l: Link) => -(length(l.0) as real);
    SortBySorts(links, key);
    var sorted := SortBy(links, key);
    forall j, k | 0 <= j < k < |sorted| ensures length(sorted[j].0) >= length(sorted[k].0) {
      assert key(sorted[j]) <= key(sorted[k]);
    }
  }

  lemma SortedLinks(rules: Rules, page: Page, candidates: seq<Link>, shape: string, byLength: seq<Link>)
    requires TreeOk(page) && InPage(page, Walk(page, 0)) && Candidates(rules, page, candidates, Walk(page, 0))
    requires multiset(byLength) == multiset(WithShape(rules, candidates, shape))
    ensures forall l :: l in byLength <==> l in candidates && rules.shape(l.1) == shape
    ensures Urls(byLength) == Urls(WithShape(rules, candidates, shape))
    ensures UrlPerNode(byLength)
  {
    var best := WithShape(rules, candidates, shape);
    forall l ensures l in byLength <==> l in candidates && rules.shape(l.1) == shape {
      assert l in byLength <==> l in multiset(byLength);
      assert l in best <==> l in multiset(best);
      WithShapeMembers(rules, candidates, shape, l);
    }
    SameUrls(byLength, best);
    forall j, k | 0 <= j < |byLength| && 0 <= k < |byLength| && byLength[j].0 == byLength[k].0
      ensures byLength[j] == byLength[k]
    {
      assert byLength[j] in candidates && byLength[k] in candidates;
    }
  }

  lemma SameUrls(links: seq<Link>, more: seq<Link>)
    requires multiset(links) == multiset(more)
    ensures Urls(links) == Urls(more)
  {
    forall url ensures url in Urls(links) <==> url in Urls(more) {
      if k :| 0 <= k < |links| && links[k].1 == url {
        assert links[k] in multiset(more);
        var j :| 0 <= j < |more| && more[j] == links[k];
      }
      if k :| 0 <= k < |more| && more[k].1 == url {
        assert more[k] in multiset(links);
        var j :| 0 <= j < |links| && links[j] == more[k];
      }
    }
  }

  lemma GroupedLinks(rules: Rules, page: Page, candidates: seq<Link>, shape: string, links: seq<Link>,
      group: Dict<nat, string>)
    requires TreeOk(page) && InPage(page, Walk(page, 0)) && Candidates(rules, page, candidates, Walk(page, 0))
    requires forall l :: l in links <==> l in candidates && rules.shape(l.1) == shape
    requires OneOfEach(links, group.at) && Longest(links, group.at, rules.textLength) && |group.at| >= MIN_CARDS
    ensures Grouped(rules, page, group.at)
  {
    GroupCandidates(rules, page, candidates, shape, links, group.at);
    GroupHoldsShape(rules, page, candidates, shape, links, group.at);
    GroupOfShape(rules, page, shape, group.at);
  }

  lemma GroupOfShape(rules: Rules, page: Page, shape: string, group: Links)
    requires TreeOk(page) && UniqueUrls(group) && |group| >= MIN_CARDS
    requires forall a :: a in group ==>
      a < |page| && IsCandidate(rules, page, a, group[a]) && rules.shape(group[a]) == shape
    requires forall a: nat, url :: a < |page| && IsCandidate(rules, page, a, url) && rules.shape(url) == shape ==>
      url in group.Values
    requires forall a: nat, b :: a < |page| && b in group && IsCandidate(rules, page, a, group[b])
                                 ==> rules.textLength(a) <= rules.textLength(b)
    ensures Grouped(rules, page, group)
  {
  }

  lemma GroupCandidates(rules: Rules, page: Page, candidates: seq<Link>, shape: string, links: seq<Link>, group: Links)
    requires TreeOk(page) && InPage(page, Walk(page, 0)) && Candidates(rules, page, candidates, Walk(page, 0))
    requires forall l :: l in links <==> l in candidates && rules.shape(l.1) == shape
    requires KeyedBy(links, group)
    ensures forall a :: a in group ==>
      a < |page| && IsCandidate(rules, page, a, group[a]) && rules.shape(group[a]) == shape
  {
    forall a | a in group
      ensures a < |page| && IsCandidate(rules, page, a, group[a]) && rules.shape(group[a]) == shape
    {
      assert (a, group[a]) in candidates;
      var k :| 0 <= k < |candidates| && candidates[k] == (a, group[a]);
    }
  }

  lemma GroupHoldsShape(rules: Rules, page: Page, candidates: seq<Link>, shape: string, links: seq<Link>, group: Links)
    requires TreeOk(page) && InPage(page, Walk(page, 0)) && Candidates(rules, page, candidates, Walk(page, 0))
    requires forall l :: l in links <==> l in candidates && rules.shape(l.1) == shape
    requires forall a :: a in group ==> rules.shape(group[a]) == shape
    requires group.Values == Urls(links) && Longest(links, group, rules.textLength)
    ensures forall a: nat, url :: a < |page| && IsCandidate(rules, page, a, url) && rules.shape(url) == shape ==>
      url in group.Values
    ensures forall a: nat, b :: a < |page| && b in group && IsCandidate(rules, page, a, group[b])
                                ==> rules.textLength(a) <= rules.textLength(b)
  {
    forall a: nat, url | a < |page| && IsCandidate(rules, page, a, url) && rules.shape(url) == shape
      ensures url in group.Values
    {
      var j := CandidateIsLink(rules, page, candidates, shape, links, a, url);
      assert links[j].1 in Urls(links);
    }
    forall a: nat, b | a < |page| && b in group && IsCandidate(rules, page, a, group[b])
      ensures rules.textLength(a) <= rules.textLength(b)
    {
      var j := CandidateIsLink(rules, page, candidates, shape, links, a, group[b]);
      assert links[j] in links;
    }
  }

  lemma CandidateIsLink(rules: Rules, page: Page, candidates: seq<Link>, shape: string, links: seq<Link>, a: nat,
      url: string)
    returns (j: nat)
    requires TreeOk(page) && InPage(page, Walk(page, 0)) && Candidates(rules, page, candidates, Walk(page, 0))
    requires forall l :: l in links <==> l in candidates && rules.shape(l.1) == shape
    requires a < |page| && IsCandidate(rules, page, a, url) && rules.shape(url) == shape
    ensures j < |links| && links[j] == (a, url)
  {
    WalkIsSubtree(page, 0);
    RootIsAboveAll(page, a);
    var k :| 0 <= k < |Walk(page, 0)| && Walk(page, 0)[k] == a;
    assert (a, url) in links;
    j :| 0 <= j < |links| && links[j] == (a, url);
  }

  // ----- the most common selector

  function Count(selectors: seq<Sel>, sel: Sel): nat {
    if selectors == [] then 0
    else Count(selectors[..|selectors| - 1], sel) + if selectors[|selectors| - 1] == sel then 1 else 0
  }

  /** The selector stands at `m`, and everything before it is less common. */
  ghost predicate FirstBest(selectors: seq<Sel>, m: int, best: Sel) {
    && 0 <= m < |selectors| && selectors[m] == best
    && forall k :: 0 <= k < m ==> Count(selectors, selectors[k]) < Count(selectors, best)
  }

  /** `Counter(selectors).most_common(1)`: the first selector with the highest count. */
  function MostCommon(selectors: seq<Sel>): (best: Sel)
    requires selectors != []
    ensures best in selectors
    ensures forall sel :: Count(selectors, sel) <= Count(selectors, best)
    ensures exists m :: FirstBest(selectors, m, best)
  {
    var best := MostCommonOf(selectors, |selectors|);
    forall sel ensures Count(selectors, sel) <= Count(selectors, best) {
      if sel !in selectors {
        CountZero(selectors, sel);
      }
    }
    best
  }

  function MostCommonOf(selectors: seq<Sel>, n: nat): (best: Sel)
    requires 0 < n <= |selectors|
    ensures best in selectors
    ensures forall k :: 0 <= k < n ==> Count(selectors, selectors[k]) <= Count(selectors, best)
    ensures exists m :: m < n && FirstBest(selectors, m, best)
  {
    if n == 1 then
      assert FirstBest(selectors, 0, selectors[0]);
      selectors[0]
    else
      var best := MostCommonOf(selectors, n - 1);
      assert Count(selectors, selectors[n - 1]) > Count(selectors, best) ==>
        FirstBest(selectors, n - 1, selectors[n - 1]);
      if Count(selectors, selectors[n - 1]) > Count(selectors, best) then selectors[n - 1] else best
  }

  lemma {:induction false} CountZero(selectors: seq<Sel>, sel: Sel)
    requires sel !in selectors
    ensures Count(selectors, sel) == 0
  {
    if selectors == [] {
    } else {
      CountZero(selectors[..|selectors| - 1], sel);
    }
  }

  lemma {:induction false} CountAll(selectors: seq<Sel>, sel: Sel)
    ensures Count(selectors, sel) <= |selectors|
    ensures Count(selectors, sel) == |selectors| ==> forall k :: 0 <= k < |selectors| ==> selectors[k] == sel
  {
    if selectors == [] {
    } else {
      CountAll(selectors[..|selectors| - 1], sel);
    }
  }

  // ----- making the card selector specific

  /** A card with its vacancy link. */
  type Card = (nat, nat)

  ghost predicate CardsIn(page: Page, cards: seq<Card>) {
    forall k :: 0 <= k < |cards| ==> cards[k].0 < |page| && cards[k].1 < |page|
  }

  ghost predicate MatchesAll(page: Page, selector: CardSelector, cards: seq<Card>)
    requires TreeOk(page) && CardsIn(page, cards)
  {
    forall k :: 0 <= k < |cards| ==> CardMatches(page, selector, cards[k].0)
  }

  /** Specific enough: all learned cards, and at most as many other nodes of the page. */
  ghost predicate Specific(page: Page, selector: CardSelector, cards: seq<Card>)
    requires TreeOk(page) && CardsIn(page, cards)
  {
    MatchesAll(page, selector, cards) && |MatchedNodes(page, selector)| <= 2 * |cards|
  }

  function CommonPrefix(a: string, b: string): string {
    if a == "" || b == "" || a[0] != b[0] then "" else [a[0]] + CommonPrefix(a[1..], b[1..])
  }

  function CommonPrefixOfAll(texts: seq<string>): string
    requires texts != []
  {
    if |texts| == 1 then texts[0] else CommonPrefix(texts[0], CommonPrefixOfAll(texts[1..]))
  }

  function Hrefs(page: Page, cards: seq<Card>): seq<string>
    requires CardsIn(page, cards)
  {
    seq(|cards|, k requires 0 <= k < |cards| => Attr(page, cards[k].1, "href"))
  }

  /** `os.path.commonprefix`: the longest text that begins every text. */
  lemma {:induction false} LongestCommonPrefix(texts: seq<string>, prefix: string)
    requires texts != []
    ensures prefix <= CommonPrefixOfAll(texts) <==> forall k :: 0 <= k < |texts| ==> prefix <= texts[k]
  {
    if |texts| <= 1 {
    } else {
      LongestCommonPrefix(texts[1..], prefix);
      CommonPrefixOfTwo(texts[0], CommonPrefixOfAll(texts[1..]), prefix);
      assert (forall k :: 0 <= k < |texts| ==> prefix <= texts[k])
        <==> prefix <= texts[0] && forall k :: 0 <= k < |texts[1..]| ==> prefix <= texts[1..][k] by {
        assert forall k :: 1 <= k < |texts| ==> texts[k] == texts[1..][k - 1];
      }
    }
  }

  lemma {:induction false} CommonPrefixOfTwo(a: string, b: string, prefix: string)
    ensures prefix <= CommonPrefix(a, b) <==> prefix <= a && prefix <= b
  {
    if a == "" || b == "" || a[0] != b[0] {
    } else {
      if prefix != "" {
        CommonPrefixOfTwo(a[1..], b[1..], prefix[1..]);
        assert prefix == [prefix[0]] + prefix[1..] && a == [a[0]] + a[1..] && b == [b[0]] + b[1..];
      }
    }
  }

  /** The text that the vacancy links of all cards share, if it is long enough; else the site's generic path prefix. */
  function LinkPrefix(rules: Rules, page: Page, cards: seq<Card>): Option<string>
    requires CardsIn(page, cards) && cards != []
  {
    var common := CommonPrefixOfAll(Hrefs(page, cards));
    var prefix := if |common| > 8 then Some(common) else rules.literalPrefix(Hrefs(page, cards)[0]);
    if prefix.Some? && (prefix.value == "" || '"' in prefix.value) then None else prefix
  }

  /** `selector:has(a[href*=prefix])` describes the cards specifically enough. */
  ghost predicate ContentWorks(rules: Rules, page: Page, cards: seq<Card>, selector: Sel)
    requires TreeOk(page) && CardsIn(page, cards) && cards != []
  {
    var prefix := LinkPrefix(rules, page, cards);
    prefix.Some? && Specific(page, Plain(selector.(hasLink := prefix)), cards)
  }

  /** Requires the vacancy link itself inside the card. */
  method ContentDisambiguated(rules: Rules, page: Page, cards: seq<Card>, selector: Sel)
    returns (r: Option<(CardSelector, nat)>)
    requires TreeOk(page) && CardsIn(page, cards) && cards != []
    ensures r.Some? <==> ContentWorks(rules, page, cards, selector)
    ensures r.Some? ==>
      var refined := Plain(selector.(hasLink := LinkPrefix(rules, page, cards)));
      r.value == (refined, |MatchedNodes(page, refined)|)
  {
    var prefix := LinkPrefix(rules, page, cards);
    if prefix.None? {
      return None;
    }
    var refined := Plain(selector.(hasLink := prefix));
    var all := MatchesEvery(page, refined, cards);
    if !all {
      return None;
    }
    WalkCountsMatches(page, refined);
    MatchedSome(page, refined, cards);
    var matches := Matched(page, Walk(page, 0), refined);
    if matches != [] && |matches| <= |cards| * 2 {
      return Some((refined, |matches|));
    }
    return None;
  }

  method MatchesEvery(page: Page, selector: CardSelector, cards: seq<Card>) returns (all: bool)
    requires TreeOk(page) && CardsIn(page, cards)
    ensures all <==> MatchesAll(page, selector, cards)
  {
    for k := 0 to |cards|
      invariant forall j :: 0 <= j < k ==> CardMatches(page, selector, cards[j].0)
    {
      if !CardMatches(page, selector, cards[k].0) {
        return false;
      }
    }
    return true;
  }

  lemma MatchedSome(page: Page, selector: CardSelector, cards: seq<Card>)
    requires TreeOk(page) && CardsIn(page, cards) && cards != [] && MatchesAll(page, selector, cards)
    ensures MatchedNodes(page, selector) != {}
  {
    assert cards[0].0 in MatchedNodes(page, selector);
  }

  function LevelUp(page: Page, nodes: seq<Option<nat>>): (r: seq<Option<nat>>)
    requires TreeOk(page) && forall k :: 0 <= k < |nodes| && nodes[k].Some? ==> nodes[k].value < |page|
    ensures |r| == |nodes|
    ensures forall k :: 0 <= k < |r| && r[k].Some? ==> r[k].value < |page|
  {
    seq(|nodes|, k requires 0 <= k < |nodes| => if nodes[k].Some? then Parent(page, nodes[k].value) else None)
  }

  /** The `level`-th ancestor. */
  ghost function Ancestor(page: Page, i: nat, level: nat): (r: Option<nat>)
    requires TreeOk(page) && i < |page|
    ensures r.Some? ==> r.value < |page|
  {
    if level == 0 then Some(i)
    else
      var below := Ancestor(page, i, level - 1);
      if below.None? then None else Parent(page, below.value)
  }

  /** All cards have, `level` nodes up, an ancestor described by the one selector `ancestor`. */
  ghost predicate SharedAt(rules: Rules, page: Page, cards: seq<Card>, level: nat, ancestor: Sel)
    requires TreeOk(page) && CardsIn(page, cards)
  {
    forall k :: 0 <= k < |cards| ==>
      && Ancestor(page, cards[k].0, level).Some?
      && SelectorFor(rules, page, Ancestor(page, cards[k].0, level).value) == ancestor
  }

  lemma AncestorMatches(rules: Rules, page: Page, i: nat, level: nat)
    requires TreeOk(page) && i < |page| && level > 0 && Ancestor(page, i, level).Some?
    ensures MatchesSomeAncestor(page, SelectorFor(rules, page, Ancestor(page, i, level).value), i)
  {
    var top := Ancestor(page, i, level).value;
    SelectorForMatchesItsNode(rules, page, top);
    AboveMatches(page, SelectorFor(rules, page, top), i, level);
  }

  lemma {:induction false} AboveMatches(page: Page, sel: Sel, i: nat, level: nat)
    requires TreeOk(page) && i < |page| && level > 0 && Ancestor(page, i, level).Some?
    requires Matches(page, sel, Ancestor(page, i, level).value)
    ensures MatchesSomeAncestor(page, sel, i)
    decreases level
  {
    AncestorFromParent(page, i, level);
    if level == 1 {
    } else {
      AboveMatches(page, sel, Parent(page, i).value, level - 1);
    }
  }

  lemma {:induction false} AncestorFromParent(page: Page, i: nat, level: nat)
    requires TreeOk(page) && i < |page| && level > 0 && Ancestor(page, i, level).Some?
    ensures Parent(page, i).Some? && Ancestor(page, i, level) == Ancestor(page, Parent(page, i).value, level - 1)
    decreases level
  {
    if level == 1 {
    } else {
      AncestorFromParent(page, i, level - 1);
    }
  }

  /** Behind an ancestor shared by all cards the selector still matches all of them. */
  lemma SharedAncestorMatchesAll(rules: Rules, page: Page, cards: seq<Card>, level: nat, ancestor: Sel, selector: Sel)
    requires TreeOk(page) && CardsIn(page, cards) && level > 0
    requires SharedAt(rules, page, cards, level, ancestor) && MatchesAll(page, Plain(selector), cards)
    ensures MatchesAll(page, Chained(ancestor, selector), cards)
  {
    forall k | 0 <= k < |cards| ensures CardMatches(page, Chained(ancestor, selector), cards[k].0) {
      AncestorMatches(rules, page, cards[k].0, level);
    }
  }

  /** No selector shared by all cards' ancestors at this level narrows the page enough. */
  ghost predicate LevelFails(rules: Rules, page: Page, cards: seq<Card>, selector: Sel, level: nat)
    requires TreeOk(page) && CardsIn(page, cards)
  {
    forall ancestor {:trigger SharedAt(rules, page, cards, level, ancestor)} ::
      SharedAt(rules, page, cards, level, ancestor) ==> !Narrow(page, Chained(ancestor, selector), |cards|)
  }

  /** At most twice as many nodes of the page match as there are cards, and some do. */
  ghost predicate Narrow(page: Page, selector: CardSelector, count: nat)
    requires TreeOk(page)
  {
    0 < |MatchedNodes(page, selector)| <= 2 * count
  }

  /** Levels 1 to `levels` all fail. */
  ghost predicate LevelsFail(rules: Rules, page: Page, cards: seq<Card>, selector: Sel, levels: nat)
    requires TreeOk(page) && CardsIn(page, cards)
  {
    levels == 0 || (LevelFails(rules, page, cards, selector, levels)
      && LevelsFail(rules, page, cards, selector, levels - 1))
  }

  ghost predicate LevelSelector(
      rules: Rules, page: Page, cards: seq<Card>, selector: Sel, level: nat, result: (CardSelector, nat))
    requires TreeOk(page) && CardsIn(page, cards)
  {
    && result.0.Chained? && result.0.sel == selector
    && SharedAt(rules, page, cards, level, result.0.ancestor)
    && Narrow(page, result.0, |cards|)
    && result.1 == if |cards| <= |MatchedNodes(page, result.0)| then |cards| else |MatchedNodes(page, result.0)|
  }

  /** `nodes` are the cards' ancestors at the level, or None above the root. */
  ghost predicate AtLevel(page: Page, cards: seq<Card>, level: nat, nodes: seq<Option<nat>>)
    requires TreeOk(page) && CardsIn(page, cards)
  {
    |nodes| == |cards| && forall k :: 0 <= k < |cards| ==> nodes[k] == Ancestor(page, cards[k].0, level)
  }

  lemma LevelUpMoves(page: Page, cards: seq<Card>, level: nat, nodes: seq<Option<nat>>)
    requires TreeOk(page) && CardsIn(page, cards) && AtLevel(page, cards, level, nodes)
    ensures forall k :: 0 <= k < |nodes| && nodes[k].Some? ==> nodes[k].value < |page|
    ensures AtLevel(page, cards, level + 1, LevelUp(page, nodes))
  {
  }

  /** The levels that fail, and what the next one gives; all fail if there is none. */
  ghost predicate Climbed(
      rules: Rules, page: Page, cards: seq<Card>, selector: Sel, failed: nat, r: Option<(CardSelector, nat)>)
    requires TreeOk(page) && CardsIn(page, cards)
  {
    && LevelsFail(rules, page, cards, selector, failed)
    && match r
       case Some(value) => failed < MAX_LEVELS && LevelSelector(rules, page, cards, selector, failed + 1, value)
       case None => failed == MAX_LEVELS
  }

  /** Climbs all cards together and takes the first level whose common selector narrows the page enough. */
  method DisambiguateCardSelector(rules: Rules, page: Page, cards: seq<Card>, selector: Sel)
    returns (r: Option<(CardSelector, nat)>, ghost failed: nat)
    requires TreeOk(page) && CardsIn(page, cards) && cards != []
    ensures Climbed(rules, page, cards, selector, failed, r)
    ensures r.Some? ==> r.value.0.Chained? && r.value.0.sel == selector && Narrow(page, r.value.0, |cards|)
  {
    var nodes: seq<Option<nat>> := seq(|cards|, k requires 0 <= k < |cards| => Some(cards[k].0));
    failed := 0;
    for level := 0 to MAX_LEVELS
      invariant level == failed && AtLevel(page, cards, failed, nodes)
      invariant LevelsFail(rules, page, cards, selector, failed)
    {
      LevelUpMoves(page, cards, failed, nodes);
      nodes := LevelUp(page, nodes);
      var missing := SomeNone(nodes);
      if missing.Some? {
        NoneAbove(rules, page, cards, selector, missing.value, failed, MAX_LEVELS);
        AllLevelsLose(rules, page, cards, selector, MAX_LEVELS);
        return None, MAX_LEVELS;
      }
      r := TryLevel(rules, page, cards, selector, failed + 1, nodes);
      if r.Some? {
        LevelWins(rules, page, cards, selector, failed, r.value);
        return;
      }
      OneMoreLevelFails(rules, page, cards, selector, failed);
      failed := failed + 1;
    }
    AllLevelsLose(rules, page, cards, selector, failed);
    return None, failed;
  }

  lemma LevelWins(rules: Rules, page: Page, cards: seq<Card>, selector: Sel, failed: nat, value: (CardSelector, nat))
    requires TreeOk(page) && CardsIn(page, cards) && LevelsFail(rules, page, cards, selector, failed)
    requires failed < MAX_LEVELS && LevelSelector(rules, page, cards, selector, failed + 1, value)
    ensures Climbed(rules, page, cards, selector, failed, Some(value))
  {
  }

  lemma AllLevelsLose(rules: Rules, page: Page, cards: seq<Card>, selector: Sel, failed: nat)
    requires TreeOk(page) && CardsIn(page, cards) && LevelsFail(rules, page, cards, selector, failed)
      && failed == MAX_LEVELS
    ensures Climbed(rules, page, cards, selector, failed, None)
  {
  }

  /** `any(node is None for node in level_nodes)`, with a witness. */
  function SomeNone(nodes: seq<Option<nat>>): (r: Option<nat>)
    ensures r.None? ==> forall k :: 0 <= k < |nodes| ==> nodes[k].Some?
    ensures r.Some? ==> r.value < |nodes| && nodes[r.value].None?
  {
    if nodes == [] then None
    else if nodes[|nodes| - 1].None? then Some(|nodes| - 1)
    else SomeNone(nodes[..|nodes| - 1])
  }

  function AncestorSignatures(rules: Rules, page: Page, nodes: seq<Option<nat>>): (r: seq<Sel>)
    requires forall k :: 0 <= k < |nodes| ==> nodes[k].Some? && nodes[k].value < |page|
    ensures |r| == |nodes| && forall k :: 0 <= k < |r| ==> r[k] == SelectorFor(rules, page, nodes[k].value)
  {
    seq(|nodes|, k requires 0 <= k < |nodes| => SelectorFor(rules, page, nodes[k].value))
  }

  method TryLevel(rules: Rules, page: Page, cards: seq<Card>, selector: Sel, ghost level: nat, nodes: seq<Option<nat>>)
    returns (r: Option<(CardSelector, nat)>)
    requires TreeOk(page) && CardsIn(page, cards) && cards != []
    requires AtLevel(page, cards, level, nodes) && forall k :: 0 <= k < |nodes| ==> nodes[k].Some?
    ensures r.Some? ==> LevelSelector(rules, page, cards, selector, level, r.value)
    ensures r.None? ==> LevelFails(rules, page, cards, selector, level)
  {
    var signatures := AncestorSignatures(rules, page, nodes);
    var ancestor := MostCommon(signatures);
    LevelDecided(rules, page, cards, selector, level, signatures, ancestor);
    if Count(signatures, ancestor) < |nodes| {
      return None;
    }
    WalkCountsMatches(page, Chained(ancestor, selector));
    var chained := Matched(page, Walk(page, 0), Chained(ancestor, selector));
    if chained != [] && |chained| <= |cards| * 2 {
      return Some((Chained(ancestor, selector), if |cards| <= |chained| then |cards| else |chained|));
    }
    return None;
  }

  /** What the frequency of the most common selector says about the level. */
  lemma LevelDecided(
      rules: Rules, page: Page, cards: seq<Card>, selector: Sel, level: nat, signatures: seq<Sel>, ancestor: Sel)
    requires TreeOk(page) && CardsIn(page, cards) && cards != [] && |signatures| == |cards|
    requires forall k :: 0 <= k < |cards| ==> Ancestor(page, cards[k].0, level).Some?
    requires forall k :: 0 <= k < |cards| ==>
      signatures[k] == SelectorFor(rules, page, Ancestor(page, cards[k].0, level).value)
    requires ancestor in signatures
    ensures Count(signatures, ancestor) < |signatures| ==> LevelFails(rules, page, cards, selector, level)
    ensures Count(signatures, ancestor) >= |signatures| ==>
      Settles(rules, page, cards, selector, level, Chained(ancestor, selector),
        |MatchedNodes(page, Chained(ancestor, selector))|)
  {
    SharedIffMostCommon(rules, page, cards, level, signatures, ancestor);
    CountAll(signatures, ancestor);
  }

  /** The chained selector with this number of matches decides the level. */
  ghost predicate Settles(
      rules: Rules, page: Page, cards: seq<Card>, selector: Sel, level: nat, chained: CardSelector, matches: nat)
    requires TreeOk(page) && CardsIn(page, cards)
  {
    && (0 < matches <= 2 * |cards| ==>
         LevelSelector(rules, page, cards, selector, level, (chained, if |cards| <= matches then |cards| else matches)))
    && (!(0 < matches <= 2 * |cards|) ==> LevelFails(rules, page, cards, selector, level))
  }

  lemma NothingShared(rules: Rules, page: Page, cards: seq<Card>, selector: Sel, level: nat, k: nat)
    requires TreeOk(page) && CardsIn(page, cards) && k < |cards| && Ancestor(page, cards[k].0, level).None?
    ensures LevelFails(rules, page, cards, selector, level)
  {
  }

  lemma OneMoreLevelFails(rules: Rules, page: Page, cards: seq<Card>, selector: Sel, level: nat)
    requires TreeOk(page) && CardsIn(page, cards)
    requires LevelsFail(rules, page, cards, selector, level) && LevelFails(rules, page, cards, selector, level + 1)
    ensures LevelsFail(rules, page, cards, selector, level + 1)
  {
  }

  /** Above the root of one card, no level succeeds. */
  lemma NoneAbove(rules: Rules, page: Page, cards: seq<Card>, selector: Sel, k: nat, level: nat, top: nat)
    requires TreeOk(page) && CardsIn(page, cards)
    requires k < |cards| && Ancestor(page, cards[k].0, level + 1).None?
    requires level <= top && LevelsFail(rules, page, cards, selector, level)
    ensures LevelsFail(rules, page, cards, selector, top)
  {
    forall l: nat | level < l <= top ensures LevelFails(rules, page, cards, selector, l) {
      StillNone(page, cards[k].0, level + 1, l);
      NothingShared(rules, page, cards, selector, l, k);
    }
    MoreLevelsFail(rules, page, cards, selector, level, top);
  }

  lemma {:induction false} MoreLevelsFail(rules: Rules, page: Page, cards: seq<Card>, selector: Sel, level: nat,
      top: nat)
    requires TreeOk(page) && CardsIn(page, cards)
    requires level <= top && LevelsFail(rules, page, cards, selector, level)
    requires forall l: nat :: level < l <= top ==> LevelFails(rules, page, cards, selector, l)
    ensures LevelsFail(rules, page, cards, selector, top)
    decreases top
  {
    if level >= top {
    } else {
      MoreLevelsFail(rules, page, cards, selector, level, top - 1);
      OneMoreLevelFails(rules, page, cards, selector, top - 1);
    }
  }

  lemma {:induction false} StillNone(page: Page, i: nat, level: nat, higher: nat)
    requires TreeOk(page) && i < |page| && level <= higher && Ancestor(page, i, level).None?
    ensures Ancestor(page, i, higher).None?
    decreases higher
  {
    if level >= higher {
    } else {
      StillNone(page, i, level, higher - 1);
    }
  }

  lemma SharedIffMostCommon(rules: Rules, page: Page, cards: seq<Card>, level: nat, signatures: seq<Sel>, best: Sel)
    requires TreeOk(page) && CardsIn(page, cards) && cards != [] && |signatures| == |cards|
    requires forall k :: 0 <= k < |cards| ==> Ancestor(page, cards[k].0, level).Some?
    requires forall k :: 0 <= k < |cards| ==>
      signatures[k] == SelectorFor(rules, page, Ancestor(page, cards[k].0, level).value)
    requires best in signatures
    ensures Count(signatures, best) == |signatures| <==> SharedAt(rules, page, cards, level, best)
    ensures forall other :: SharedAt(rules, page, cards, level, other) ==> other == best
  {
    CountAll(signatures, best);
    if SharedAt(rules, page, cards, level, best) {
      CountEqual(signatures, best);
    }
    var k :| 0 <= k < |signatures| && signatures[k] == best;
  }

  lemma {:induction false} CountEqual(selectors: seq<Sel>, sel: Sel)
    requires forall k :: 0 <= k < |selectors| ==> selectors[k] == sel
    ensures Count(selectors, sel) == |selectors|
  {
    if selectors == [] {
    } else {
      CountEqual(selectors[..|selectors| - 1], sel);
    }
  }

  // ----- the link selector

  datatype LinkSelector = CardItself | InCard(sel: Sel)

  function LinkCandidates(rules: Rules, page: Page, anchor: nat): seq<Sel>
    requires anchor < |page|
  {
    var prefix := rules.literalPrefix(Attr(page, anchor, "href"));
    [Sel("a", StableClasses(rules, page, anchor), None, None, None)]
    + (if prefix.Some? && prefix.value != "" then [Sel("a", [], None, prefix, None)] else [])
    + [Sel("a", [], None, None, None)]
  }

  /** In every card the first match, in document order, is the card's own vacancy link. */
  predicate PicksEachLink(page: Page, cards: seq<Card>, sel: Sel)
    requires TreeOk(page) && CardsIn(page, cards)
  {
    forall k :: 0 <= k < |cards| ==> FirstMatch(page, cards[k].0, sel) == Some(cards[k].1)
  }

  predicate AllThemselves(cards: seq<Card>) {
    forall k :: 0 <= k < |cards| ==> cards[k].0 == cards[k].1
  }

  /** The first candidate, classes before URL prefix before plain `a`, that picks every link. */
  ghost predicate FirstToPick(page: Page, cards: seq<Card>, candidates: seq<Sel>, sel: Sel)
    requires TreeOk(page) && CardsIn(page, cards)
  {
    exists n :: 0 <= n < |candidates| && sel == candidates[n] && forall k :: 0 <= k < n ==>
      !PicksEachLink(page, cards, candidates[k])
  }

  ghost predicate NoLinkSelector(rules: Rules, page: Page, cards: seq<Card>)
    requires TreeOk(page) && CardsIn(page, cards) && cards != []
  {
    && !AllThemselves(cards)
    && forall sel :: sel in LinkCandidates(rules, page, cards[0].1) ==> !PicksEachLink(page, cards, sel)
  }

  ghost predicate LinkLearned(page: Page, cards: seq<Card>, link: LinkSelector)
    requires TreeOk(page) && CardsIn(page, cards)
  {
    match link
    case CardItself => AllThemselves(cards)
    case InCard(sel) => !AllThemselves(cards) && PicksEachLink(page, cards, sel)
  }

  method LearnLinkSelector(rules: Rules, page: Page, cards: seq<Card>) returns (r: Result<LinkSelector, LearningError>)
    requires TreeOk(page) && CardsIn(page, cards) && cards != []
    ensures r.Ok? ==> LinkLearned(page, cards, r.value)
    ensures r.Ok? && r.value.InCard? ==> FirstToPick(page, cards, LinkCandidates(rules, page, cards[0].1), r.value.sel)
    ensures r == Ok(CardItself) <==> forall k :: 0 <= k < |cards| ==> cards[k].0 == cards[k].1
    ensures r.Err? <==> NoLinkSelector(rules, page, cards)
    ensures r.Err? ==> r.error == AmbiguousLink
  {
    if AllThemselves(cards) {
      return Ok(CardItself);
    }
    var sel := FirstCandidate(page, cards, LinkCandidates(rules, page, cards[0].1));
    r := if sel.Some? then Ok(InCard(sel.value)) else Err(AmbiguousLink);
  }

  method FirstCandidate(page: Page, cards: seq<Card>, candidates: seq<Sel>) returns (r: Option<Sel>)
    requires TreeOk(page) && CardsIn(page, cards)
    ensures r.Some? ==> PicksEachLink(page, cards, r.value) && FirstToPick(page, cards, candidates, r.value)
    ensures r.None? <==> forall sel :: sel in candidates ==> !PicksEachLink(page, cards, sel)
  {
    for n := 0 to |candidates|
      invariant forall k :: 0 <= k < n ==> !PicksEachLink(page, cards, candidates[k])
    {
      if PicksEachLink(page, cards, candidates[n]) {
        return Some(candidates[n]);
      }
    }
    return None;
  }

  // ----- learn_selectors

  datatype LearnedSelectors = LearnedSelectors(card: CardSelector, link: LinkSelector, cardCount: nat)

  ghost predicate CardsOf(page: Page, group: Links, cards: seq<Card>)
    requires TreeOk(page)
  {
    && CardsIn(page, cards)
    && (forall k :: 0 <= k < |cards| ==> cards[k].1 in group && IsCard(page, group, cards[k].1, cards[k].0))
    && DistinctAnchors(cards)
  }

  method FindCards(page: Page, group: Dict<nat, string>) returns (pairs: seq<Card>)
    requires LinksOk(page, group.at) && group.Valid()
    ensures CardsOf(page, group.at, pairs) && |pairs| == |group.order|
    ensures forall k :: 0 <= k < |pairs| ==> pairs[k].1 == group.order[k]
  {
    pairs := [];
    for n := 0 to |group.order|
      invariant CardsOf(page, group.at, pairs) && |pairs| == n
      invariant forall k :: 0 <= k < n ==> pairs[k].1 == group.order[k]
    {
      var anchor := group.order[n];
      assert anchor in group.at;
      var card := CardFor(page, group.at, anchor);
      CardsOfAppend(page, group.at, pairs, card, anchor);
      pairs := pairs + [(card, anchor)];
    }
  }

  lemma CardsOfAppend(page: Page, group: Links, pairs: seq<Card>, card: nat, anchor: nat)
    requires LinksOk(page, group) && CardsOf(page, group, pairs) && anchor in group && IsCard(page, group, anchor, card)
    requires forall k :: 0 <= k < |pairs| ==> pairs[k].1 != anchor
    ensures CardsOf(page, group, pairs + [(card, anchor)])
  {
  }

  function Signatures(rules: Rules, page: Page, pairs: seq<Card>): seq<Sel>
    requires CardsIn(page, pairs)
  {
    seq(|pairs|, k requires 0 <= k < |pairs| => SelectorFor(rules, page, pairs[k].0))
  }

  /** The pairs whose signature is `sel`. */
  function WithSelector(pairs: seq<Card>, signatures: seq<Sel>, sel: Sel): seq<Card>
    requires |signatures| == |pairs|
  {
    if pairs == [] then [] else
      var n := |pairs| - 1;
      WithSelector(pairs[..n], signatures[..n], sel) + (if signatures[n] == sel then [pairs[n]] else [])
  }

  ghost predicate DistinctAnchors(cards: seq<Card>) {
    forall j, k :: 0 <= j < k < |cards| ==> cards[j].1 != cards[k].1
  }

  lemma {:induction false} WithSelectorCounts(pairs: seq<Card>, signatures: seq<Sel>, sel: Sel)
    requires |signatures| == |pairs| && DistinctAnchors(pairs)
    ensures |WithSelector(pairs, signatures, sel)| == Count(signatures, sel)
    ensures DistinctAnchors(WithSelector(pairs, signatures, sel))
    ensures forall k :: 0 <= k < |WithSelector(pairs, signatures, sel)| ==>
              KeptFrom(pairs, signatures, sel, WithSelector(pairs, signatures, sel)[k])
  {
    if pairs == [] {
    } else {
      var n := |pairs| - 1;
      WithSelectorCounts(pairs[..n], signatures[..n], sel);
      var kept := WithSelector(pairs[..n], signatures[..n], sel);
      forall k | 0 <= k < |kept| ensures kept[k].1 != pairs[n].1 && KeptFrom(pairs, signatures, sel, kept[k]) {
        assert KeptFrom(pairs[..n], signatures[..n], sel, kept[k]);
        var j :| 0 <= j < n && pairs[..n][j] == kept[k] && signatures[..n][j] == sel;
        assert pairs[j] == kept[k] && signatures[j] == sel;
      }
    }
  }

  ghost predicate KeptFrom(pairs: seq<Card>, signatures: seq<Sel>, sel: Sel, kept: Card)
    requires |signatures| == |pairs|
  {
    exists j :: 0 <= j < |pairs| && pairs[j] == kept && signatures[j] == sel
  }

  lemma CardsOfSome(rules: Rules, page: Page, group: Links, pairs: seq<Card>, sel: Sel, kept: seq<Card>)
    requires TreeOk(page) && CardsOf(page, group, pairs) && DistinctAnchors(kept)
    requires forall k :: 0 <= k < |kept| ==> KeptFrom(pairs, Signatures(rules, page, pairs), sel, kept[k])
    ensures CardsOf(page, group, kept)
    ensures forall k :: 0 <= k < |kept| ==> SelectorFor(rules, page, kept[k].0) == sel
  {
    var signatures := Signatures(rules, page, pairs);
    forall k | 0 <= k < |kept|
      ensures kept[k].0 < |page| && kept[k].1 < |page| && kept[k].1 in group
        && IsCard(page, group, kept[k].1, kept[k].0)
      ensures SelectorFor(rules, page, kept[k].0) == sel
    {
      assert KeptFrom(pairs, signatures, sel, kept[k]);
      var j :| 0 <= j < |pairs| && pairs[j] == kept[k] && signatures[j] == sel;
    }
  }

  /** Everything a returned recipe promises about the page it was learned from. */
  ghost predicate Learned(page: Page, group: Links, cards: seq<Card>, r: LearnedSelectors)
    requires TreeOk(page)
  {
    && |cards| >= MIN_CARDS && CardsOf(page, group, cards)
    && Specific(page, r.card, cards)
    && LinkLearned(page, cards, r.link)
    && |cards| <= r.cardCount <= 2 * |cards|
  }

  lemma CardsAreMatchedNodes(page: Page, group: Links, cards: seq<Card>, selector: CardSelector)
    requires LinksOk(page, group) && CardsOf(page, group, cards) && MatchesAll(page, selector, cards)
    ensures |cards| <= |MatchedNodes(page, selector)|
  {
    var nodes := seq(|cards|, k requires 0 <= k < |cards| => cards[k].0);
    forall j, k | 0 <= j < k < |nodes| ensures nodes[j] != nodes[k] {
      if cards[j].0 == cards[k].0 {
        CardsAreDistinct(page, group, cards[j].1, cards[k].1, cards[j].0);
      }
    }
    forall k | 0 <= k < |nodes| ensures nodes[k] in MatchedNodes(page, selector) {
      assert CardMatches(page, selector, cards[k].0);
    }
    DistinctFit(nodes, MatchedNodes(page, selector));
  }

  lemma {:induction false} DistinctFit(nodes: seq<nat>, all: set<nat>)
    requires Distinct(nodes) && forall k :: 0 <= k < |nodes| ==> nodes[k] in all
    ensures |nodes| <= |all|
  {
    if nodes == [] {
    } else {
      var before, last := nodes[..|nodes| - 1], nodes[|nodes| - 1];
      DistinctFit(before, all - {last});
    }
  }

  /** The plain selector if it is specific, else by content, else by the lowest level of ancestors that makes it so. */
  ghost predicate Chosen(
      rules: Rules, page: Page, cards: seq<Card>, selector: Sel, r: Result<(CardSelector, nat), LearningError>)
    requires TreeOk(page) && CardsIn(page, cards) && cards != []
  {
    if Specific(page, Plain(selector), cards) then r == Ok((Plain(selector), |cards|))
    else if ContentWorks(rules, page, cards, selector) then
      var refined := Plain(selector.(hasLink := LinkPrefix(rules, page, cards)));
      r == Ok((refined, |MatchedNodes(page, refined)|))
    else ChosenByAncestor(rules, page, cards, selector, r)
  }

  ghost predicate ChosenByAncestor(
      rules: Rules, page: Page, cards: seq<Card>, selector: Sel, r: Result<(CardSelector, nat), LearningError>)
    requires TreeOk(page) && CardsIn(page, cards)
  {
    match r
    case Ok(value) => exists failed: nat :: Climbed(rules, page, cards, selector, failed, Some(value))
    case Err(e) => e == AmbiguousCardSelector && Climbed(rules, page, cards, selector, MAX_LEVELS, None)
  }

  method ChooseCardSelector(rules: Rules, page: Page, ghost group: Links, cards: seq<Card>, selector: Sel)
    returns (r: Result<(CardSelector, nat), LearningError>)
    requires LinksOk(page, group) && CardsOf(page, group, cards) && cards != []
    requires DescribedBy(rules, page, cards, selector)
    ensures r.Ok? ==> Fits(page, cards, r.value)
    ensures Chosen(rules, page, cards, selector, r)
  {
    DescribedMatch(rules, page, cards, selector);
    WalkCountsMatches(page, Plain(selector));
    var total := |Matched(page, Walk(page, 0), Plain(selector))|;
    if total <= |cards| * 2 {
      return Ok((Plain(selector), |cards|));
    }
    var content := ContentDisambiguated(rules, page, cards, selector);
    if content.Some? {
      SpecificFits(page, group, cards, content.value.0);
      return Ok(content.value);
    }
    r := ChooseByAncestor(rules, page, group, cards, selector);
  }

  method ChooseByAncestor(rules: Rules, page: Page, ghost group: Links, cards: seq<Card>, selector: Sel)
    returns (r: Result<(CardSelector, nat), LearningError>)
    requires LinksOk(page, group) && CardsOf(page, group, cards) && cards != []
    requires MatchesAll(page, Plain(selector), cards)
    ensures r.Ok? ==> Fits(page, cards, r.value)
    ensures ChosenByAncestor(rules, page, cards, selector, r)
  {
    ghost var failed;
    var chained;
    chained, failed := DisambiguateCardSelector(rules, page, cards, selector);
    if chained.None? {
      return Err(AmbiguousCardSelector);
    }
    ClimbedFits(rules, page, group, cards, selector, failed, chained.value);
    return Ok(chained.value);
  }

  /** A specific selector, with a count between the cards and twice as many. */
  ghost predicate Fits(page: Page, cards: seq<Card>, value: (CardSelector, nat))
    requires TreeOk(page) && CardsIn(page, cards)
  {
    Specific(page, value.0, cards) && |cards| <= value.1 <= 2 * |cards|
  }

  lemma SpecificFits(page: Page, group: Links, cards: seq<Card>, selector: CardSelector)
    requires LinksOk(page, group) && CardsOf(page, group, cards) && Specific(page, selector, cards)
    ensures Fits(page, cards, (selector, |MatchedNodes(page, selector)|))
  {
    CardsAreMatchedNodes(page, group, cards, selector);
  }

  lemma ClimbedFits(
      rules: Rules, page: Page, group: Links, cards: seq<Card>, selector: Sel, failed: nat, value: (CardSelector, nat))
    requires LinksOk(page, group) && CardsOf(page, group, cards) && MatchesAll(page, Plain(selector), cards)
    requires LevelSelector(rules, page, cards, selector, failed + 1, value)
    ensures Fits(page, cards, value)
  {
    SharedAncestorMatchesAll(rules, page, cards, failed + 1, value.0.ancestor, selector);
    CardsAreMatchedNodes(page, group, cards, value.0);
  }

  ghost predicate DescribedBy(rules: Rules, page: Page, cards: seq<Card>, selector: Sel)
    requires CardsIn(page, cards)
  {
    forall k :: 0 <= k < |cards| ==> SelectorFor(rules, page, cards[k].0) == selector
  }

  lemma DescribedMatch(rules: Rules, page: Page, cards: seq<Card>, selector: Sel)
    requires TreeOk(page) && CardsIn(page, cards) && DescribedBy(rules, page, cards, selector)
    ensures MatchesAll(page, Plain(selector), cards)
  {
    forall k | 0 <= k < |cards| ensures CardMatches(page, Plain(selector), cards[k].0) {
      SelectorForMatchesItsNode(rules, page, cards[k].0);
    }
  }

  /** No selector describes the cards of more vacancy links. */
  ghost predicate MostCards(rules: Rules, page: Page, group: Links, cards: seq<Card>)
    requires TreeOk(page)
  {
    forall other, sel :: CardsOf(page, group, other) && DescribedBy(rules, page, other, sel) ==> |other| <= |cards|
  }

  lemma {:induction false} WithSelectorKeeps(pairs: seq<Card>, signatures: seq<Sel>, sel: Sel, j: nat)
    requires |signatures| == |pairs| && j < |pairs| && signatures[j] == sel
    ensures pairs[j] in WithSelector(pairs, signatures, sel)
  {
    if j >= |pairs| - 1 {
    } else {
      WithSelectorKeeps(pairs[..|pairs| - 1], signatures[..|pairs| - 1], sel, j);
    }
  }

  lemma {:induction false} DistinctWithin<T>(s: seq<T>, t: seq<T>)
    requires Distinct(s) && forall k :: 0 <= k < |s| ==> s[k] in t
    ensures |s| <= |t|
  {
    if s == [] {
    } else {
      var n := |s| - 1;
      var j :| 0 <= j < |t| && t[j] == s[n];
      forall k | 0 <= k < n ensures s[..n][k] in t[..j] + t[j + 1..] {
        var i :| 0 <= i < |t| && t[i] == s[k];
        assert i < j ==> (t[..j] + t[j + 1..])[i] == t[i];
        assert i > j ==> (t[..j] + t[j + 1..])[i - 1] == t[i];
      }
      DistinctWithin(s[..n], t[..j] + t[j + 1..]);
    }
  }

  /** A described set of cards is no larger than the count of its selector among all cards. */
  lemma CountBounds(rules: Rules, page: Page, group: Links, pairs: seq<Card>, other: seq<Card>, sel: Sel)
    requires TreeOk(page) && CardsOf(page, group, pairs) && CardsOf(page, group, other)
      && DescribedBy(rules, page, other, sel)
    requires forall a :: a in group ==> exists k :: 0 <= k < |pairs| && pairs[k].1 == a
    ensures |other| <= Count(Signatures(rules, page, pairs), sel)
  {
    var signatures := Signatures(rules, page, pairs);
    WithSelectorCounts(pairs, signatures, sel);
    forall k | 0 <= k < |other| ensures other[k] in WithSelector(pairs, signatures, sel) {
      assert other[k].1 in group;
      var j :| 0 <= j < |pairs| && pairs[j].1 == other[k].1;
      CardIsUnique(page, group, other[k].1, other[k].0, pairs[j].0);
      assert pairs[j] == (pairs[j].0, pairs[j].1) == other[k];
      WithSelectorKeeps(pairs, signatures, sel, j);
    }
    forall j, k | 0 <= j < k < |other| ensures other[j] != other[k] {
      assert other[j].1 != other[k].1;
    }
    DistinctWithin(other, WithSelector(pairs, signatures, sel));
  }

  /** Every anchor's card, split by selector: the cards of the most common selector. */
  method CommonCards(rules: Rules, page: Page, group: Dict<nat, string>) returns (cards: seq<Card>, selector: Sel)
    requires LinksOk(page, group.at) && group.Valid() && group.order != []
    ensures CardsOf(page, group.at, cards) && DescribedBy(rules, page, cards, selector) && cards != []
    ensures MostCards(rules, page, group.at, cards)
  {
    var pairs := FindCards(page, group);
    var signatures := Signatures(rules, page, pairs);
    selector := MostCommon(signatures);
    WithSelectorCounts(pairs, signatures, selector);
    cards := WithSelector(pairs, signatures, selector);
    CardsOfSome(rules, page, group.at, pairs, selector, cards);
    var k :| 0 <= k < |signatures| && signatures[k] == selector;
    WithSelectorKeeps(pairs, signatures, selector, k);
    forall a | a in group.at ensures exists k :: 0 <= k < |pairs| && pairs[k].1 == a {
      assert a in group.order;
      var k :| 0 <= k < |group.order| && group.order[k] == a;
      assert pairs[k].1 == a;
    }
    forall other, sel | CardsOf(page, group.at, other) && DescribedBy(rules, page, other, sel)
      ensures |other| <= |cards| {
      CountBounds(rules, page, group.at, pairs, other, sel);
    }
  }

  /** The largest set of different vacancy URLs of one shape. */
  ghost predicate LargestGroup(rules: Rules, page: Page, group: Links)
    requires TreeOk(page)
  {
    Grouped(rules, page, group) && forall shape :: |ShapeUrls(rules, page, shape)| <= |group|
  }

  /** How learning ends on a page that has a group of vacancy links. */
  ghost predicate Ends(
      rules: Rules, page: Page, group: Links, cards: seq<Card>, selector: Sel,
      r: Result<LearnedSelectors, LearningError>)
    requires TreeOk(page)
  {
    && CardsOf(page, group, cards) && cards != [] && DescribedBy(rules, page, cards, selector)
    && MostCards(rules, page, group, cards)
    && match r
       case Ok(learned) =>
         && Learned(page, group, cards, learned)
         && Chosen(rules, page, cards, selector, Ok((learned.card, learned.cardCount)))
         && (learned.link.InCard? ==>
           FirstToPick(page, cards, LinkCandidates(rules, page, cards[0].1), learned.link.sel))
       case Err(AmbiguousCardSelector) => |cards| >= MIN_CARDS
         && Chosen(rules, page, cards, selector, Err(AmbiguousCardSelector))
       case Err(AmbiguousLink) => |cards| >= MIN_CARDS && NoLinkSelector(rules, page, cards)
       case Err(e) => |cards| < MIN_CARDS && e == CardsTooDiverse
  }

  method LearnSelectors(rules: Rules, events: seq<Event>)
    returns (r: Result<LearnedSelectors, LearningError>, ghost group: Links, ghost cards: seq<Card>,
      ghost selector: Sel)
    ensures TreeOk(Parse(events).page)
    ensures (r == Err(NoAllowedLinks) || r == Err(TooFewLinks))
       <==> forall shape :: |ShapeUrls(rules, Parse(events).page, shape)| < MIN_CARDS
    ensures r != Err(NoAllowedLinks) && r != Err(TooFewLinks) ==>
      LargestGroup(rules, Parse(events).page, group) && Ends(rules, Parse(events).page, group, cards, selector, r)
  {
    group, cards, selector := map[], [], Sel("", [], None, None, None);
    var builder := new TreeBuilder();
    builder.Feed(events);
    var page := builder.page;
    var links := GroupLinks(rules, page);
    if links.Err? {
      return Err(links.error), group, cards, selector;
    }
    group := links.value.at;
    GroupHasOrder(links.value);
    var result, chosen, sel := LearnFromGroup(rules, page, links.value);
    r, cards, selector := result, chosen, sel;
  }

  method LearnFromGroup(rules: Rules, page: Page, group: Dict<nat, string>)
    returns (r: Result<LearnedSelectors, LearningError>, cards: seq<Card>, selector: Sel)
    requires LinksOk(page, group.at) && group.Valid() && group.order != []
    ensures Ends(rules, page, group.at, cards, selector, r)
  {
    cards, selector := CommonCards(rules, page, group);
    if |cards| < MIN_CARDS {
      return Err(CardsTooDiverse), cards, selector;
    }
    var card := ChooseCardSelector(rules, page, group.at, cards, selector);
    if card.Err? {
      return Err(card.error), cards, selector;
    }
    var link := LearnLinkSelector(rules, page, cards);
    if link.Err? {
      return Err(link.error), cards, selector;
    }
    r := Ok(LearnedSelectors(card.value.0, link.value, card.value.1));
  }

  lemma GroupHasOrder(group: Dict<nat, string>)
    requires group.Valid() && |group.at| >= MIN_CARDS
    ensures group.order != []
  {
    var a :| a in group.at.Keys;
    assert a in group.order;
  }
}
