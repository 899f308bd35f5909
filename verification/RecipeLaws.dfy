/** What the pieces of a learned recipe select, in terms of the page alone. */
module RecipeLaws {
  import opened HtmlTree
  import opened PageTree
  import opened RecipeLearning
  import opened RecipeSelectors
  import opened VacancyCards
  import opened Wrappers

  // ----- texts and links below a node

  /** `part in s` */
  lemma HasIff(s: string, part: string)
    ensures Has(s, part) <==> exists a, b :: s == a + part + b
  {
    if k :| 0 <= k <= |s| && StartsAt(s, k, part) {
      assert s == s[..k] + part + s[k..][|part|..];
    }
    if a, b :| s == a + part + b {
      assert StartsAt(s, |a|, part);
    }
  }

  /** `:has(a[href*="..."])` asks for a link strictly below. */
  lemma HasLinkIff(page: Page, sel: Sel, i: nat, part: string)
    requires TreeOk(page) && i < |page|
    ensures Matches(page, sel.(hasLink := Some(part)), i)
       <==> Matches(page, sel.(hasLink := None), i) && exists j: nat :: LinksBelow(page, i, j, part)
  {
    WalkIsSubtree(page, i);
    WalkVisitsOnce(page, i);
    var walk, below := Walk(page, i), Below(page, i);
    assert walk[0] == i && below == walk[1..];
    forall k | 0 <= k < |below| ensures below[k] in walk && below[k] != i {
      assert below[k] == walk[k + 1];
    }
    if k :| 0 <= k < |below| && IsLinkTo(page, below[k], part) {
      assert LinksBelow(page, i, below[k], part);
    }
    if j: nat :| LinksBelow(page, i, j, part) {
      assert j in walk;
      var k :| 0 <= k < |walk| && walk[k] == j;
      assert below[k - 1] == j;
    }
  }

  ghost predicate LinksBelow(page: Page, i: nat, j: nat, part: string)
    requires TreeOk(page)
  {
    && j < |page| && i != j && Above(page, i, j) && page[j].tag == "a"
    && Has(if "href" in page[j].attrs then page[j].attrs["href"] else "", part)
  }

  /** An ancestor selector asks for a proper ancestor. */
  lemma {:induction false} SomeAncestorIff(page: Page, sel: Sel, i: nat)
    requires TreeOk(page) && i < |page|
    ensures MatchesSomeAncestor(page, sel, i)
       <==> exists a: nat :: a < |page| && a != i && Above(page, a, i) && Matches(page, sel, a)
    decreases i
  {
    if Parent(page, i).Some? {
      var up := Parent(page, i).value;
      SomeAncestorIff(page, sel, up);
      forall a: nat | a < |page| ensures a != i && Above(page, a, i) <==> Above(page, a, up) {
        if Above(page, a, up) {
          AboveOrder(page, a, up);
        }
      }
      assert Above(page, up, up);
    }
  }

  /** A selector with a path prefix asks for it inside the node's own link target. */
  lemma HrefPartIff(page: Page, sel: Sel, i: nat, part: string)
    requires TreeOk(page) && i < |page|
    ensures Matches(page, sel.(hrefContains := Some(part)), i)
       <==> && Matches(page, sel.(hrefContains := None), i)
            && Has(if "href" in page[i].attrs then page[i].attrs["href"] else "", part)
  {
  }

  /** The card is the link exactly where the grouped anchors are their own cards. */
  lemma LinkItselfIff(page: Page, cards: seq<Card>, link: LinkSelector)
    requires TreeOk(page) && CardsIn(page, cards) && LinkLearned(page, cards, link)
    ensures link == CardItself <==> forall k :: 0 <= k < |cards| ==> cards[k].0 == cards[k].1
  {
    assert AllThemselves(cards) <==> forall k :: 0 <= k < |cards| ==> cards[k].0 == cards[k].1;
  }

  /** A chained selector narrows the plain one to what hangs below a match of its first part. */
  lemma ChainedMatchIff(page: Page, ancestor: Sel, sel: Sel, i: nat)
    requires TreeOk(page) && i < |page|
    ensures CardMatches(page, Chained(ancestor, sel), i)
       <==> && CardMatches(page, Plain(sel), i)
            && exists a: nat :: a < |page| && a != i && Above(page, a, i) && Matches(page, ancestor, a)
    ensures CardMatches(page, Plain(sel), i) <==> Matches(page, sel, i)
  {
    SomeAncestorIff(page, ancestor, i);
  }

  /** Page chrome is whatever has a navigation, header, footer or aside element above. */
  lemma {:induction false} UnderChromeIff(page: Page, i: nat)
    requires TreeOk(page) && i < |page|
    ensures UnderChrome(page, i)
       <==> exists a: nat :: a < |page| && a != i && Above(page, a, i)
                             && page[a].tag in {"nav", "header", "footer", "aside"}
    decreases i
  {
    if Parent(page, i).Some? {
      var up := Parent(page, i).value;
      UnderChromeIff(page, up);
      forall a: nat | a < |page| ensures a != i && Above(page, a, i) <==> Above(page, a, up) {
        if Above(page, a, up) {
          AboveOrder(page, a, up);
        }
      }
      assert Above(page, up, up);
    }
  }

  // ----- the text required of a card's link

  ghost predicate BeginsAll(page: Page, cards: seq<Card>, text: string)
    requires CardsIn(page, cards)
  {
    forall k :: 0 <= k < |cards| ==> text <= Attr(page, cards[k].1, "href")
  }

  lemma CommonPrefixBegins(page: Page, cards: seq<Card>, text: string)
    requires CardsIn(page, cards) && cards != []
    ensures text <= CommonPrefixOfAll(Hrefs(page, cards)) <==> BeginsAll(page, cards, text)
  {
    LongestCommonPrefix(Hrefs(page, cards), text);
    assert forall k :: 0 <= k < |cards| ==> Hrefs(page, cards)[k] == Attr(page, cards[k].1, "href");
  }

  /** A shared beginning of more than eight characters is required, the longest one, unless it has a quote. */
  lemma SharedPrefixIsRequired(rules: Rules, page: Page, cards: seq<Card>, text: string)
    requires CardsIn(page, cards) && cards != [] && BeginsAll(page, cards, text) && |text| > 8
    ensures
      var prefix := LinkPrefix(rules, page, cards);
      && (prefix.Some? ==> text <= prefix.value && BeginsAll(page, cards, prefix.value) && '"' !in prefix.value)
      && (prefix.None? ==> exists longest :: BeginsAll(page, cards, longest) && '"' in longest)
  {
    var common := CommonPrefixOfAll(Hrefs(page, cards));
    CommonPrefixBegins(page, cards, text);
    CommonPrefixBegins(page, cards, common);
    assert |text| <= |common|;
  }

  /** Otherwise the generic path prefix of the first link is, if it has one. */
  lemma GenericPrefixIsRequired(rules: Rules, page: Page, cards: seq<Card>)
    requires CardsIn(page, cards) && cards != []
    requires forall text :: BeginsAll(page, cards, text) ==> |text| <= 8
    ensures
      var generic := rules.literalPrefix(Attr(page, cards[0].1, "href"));
      LinkPrefix(rules, page, cards)
      == if generic.Some? && generic.value != "" && '"' !in generic.value then generic else None
  {
    CommonPrefixBegins(page, cards, CommonPrefixOfAll(Hrefs(page, cards)));
    assert BeginsAll(page, cards, CommonPrefixOfAll(Hrefs(page, cards)));
    assert Hrefs(page, cards)[0] == Attr(page, cards[0].1, "href");
  }

  // ----- the link inside a card

  /** The node matches inside the card, and nothing that a walk of the card visits before it does. */
  ghost predicate MatchesFirst(page: Page, card: nat, sel: Sel, anchor: nat)
    requires TreeOk(page) && card < |page|
  {
    FirstOf(Walk(page, card)[1..], Matching(page, sel), anchor)
  }

  ghost function Matching(page: Page, sel: Sel): set<nat>
    requires TreeOk(page)
  {
    set i: nat | i < |page| && Matches(page, sel, i)
  }

  ghost predicate FirstOf(nodes: seq<nat>, good: set<nat>, node: nat) {
    exists n :: 0 <= n < |nodes| && nodes[n] == node && node in good && forall m :: 0 <= m < n ==> nodes[m] !in good
  }

  lemma {:induction false} FirstInIsFirstOf(page: Page, nodes: seq<nat>, sel: Sel, good: set<nat>, node: nat)
    requires TreeOk(page) && InPage(page, nodes) && good == Matching(page, sel)
    ensures FirstIn(page, nodes, sel) == Some(node) <==> FirstOf(nodes, good, node)
  {
    if nodes == [] {
    } else if nodes[0] in good {
      assert Matches(page, sel, nodes[0]);
      assert FirstOf(nodes, good, nodes[0]);
    } else {
      assert !Matches(page, sel, nodes[0]);
      FirstInIsFirstOf(page, nodes[1..], sel, good, node);
      FirstBehind(nodes, good, node);
    }
  }

  lemma FirstBehind(nodes: seq<nat>, good: set<nat>, node: nat)
    requires nodes != [] && nodes[0] !in good
    ensures FirstOf(nodes, good, node) <==> FirstOf(nodes[1..], good, node)
  {
    if FirstOf(nodes[1..], good, node) {
      var n :| 0 <= n < |nodes[1..]| && nodes[1..][n] == node && node in good
               && forall m :: 0 <= m < n ==> nodes[1..][m] !in good;
      assert nodes[n + 1] == node;
      assert forall m :: 0 < m < n + 1 ==> nodes[m] == nodes[1..][m - 1];
    }
    if FirstOf(nodes, good, node) {
      var n :| 0 <= n < |nodes| && nodes[n] == node && node in good && forall m :: 0 <= m < n ==> nodes[m] !in good;
      assert nodes[1..][n - 1] == node;
    }
  }

  /** A link selector picks the links when each card's own anchor is the first match in the card. */
  lemma PicksEachLinkIff(page: Page, cards: seq<Card>, sel: Sel)
    requires TreeOk(page) && CardsIn(page, cards)
    ensures PicksEachLink(page, cards, sel)
       <==> forall k :: 0 <= k < |cards| ==> MatchesFirst(page, cards[k].0, sel, cards[k].1)
  {
    forall k | 0 <= k < |cards|
      ensures FirstMatch(page, cards[k].0, sel) == Some(cards[k].1) <==> MatchesFirst(page, cards[k].0, sel, cards[k].1)
    {
      FirstInIsFirstOf(page, Below(page, cards[k].0), sel, Matching(page, sel), cards[k].1);
    }
  }

  /** Learning the link selector cannot fail where the first anchor of each card is its vacancy link. */
  lemma PlainLinkSuffices(rules: Rules, page: Page, cards: seq<Card>)
    requires TreeOk(page) && CardsIn(page, cards) && cards != []
    requires PicksEachLink(page, cards, Sel("a", [], None, None, None))
    ensures !NoLinkSelector(rules, page, cards)
  {
    var candidates := LinkCandidates(rules, page, cards[0].1);
    assert candidates[|candidates| - 1] == Sel("a", [], None, None, None);
  }

  /** The stable classes of the first link come first, then its path prefix. */
  lemma ClassesComeFirst(rules: Rules, page: Page, cards: seq<Card>, sel: Sel)
    requires TreeOk(page) && CardsIn(page, cards) && cards != []
    requires FirstToPick(page, cards, LinkCandidates(rules, page, cards[0].1), sel) && PicksEachLink(page, cards, sel)
    ensures
      var anchor := cards[0].1;
      var classes := Sel("a", StableClasses(rules, page, anchor), None, None, None);
      var prefix := rules.literalPrefix(Attr(page, anchor, "href"));
      var byPrefix := Sel("a", [], None, prefix, None);
      if PicksEachLink(page, cards, classes) then sel == classes
      else if prefix.Some? && prefix.value != "" && PicksEachLink(page, cards, byPrefix) then sel == byPrefix
      else sel == Sel("a", [], None, None, None)
  {
    var candidates := LinkCandidates(rules, page, cards[0].1);
    var n :| 0 <= n < |candidates| && sel == candidates[n]
             && forall k :: 0 <= k < n ==> !PicksEachLink(page, cards, candidates[k]);
    CandidatesAt(rules, page, cards[0].1);
    assert n > 0 ==> !PicksEachLink(page, cards, candidates[0]);
    assert n > 1 ==> !PicksEachLink(page, cards, candidates[1]);
  }

  lemma CandidatesAt(rules: Rules, page: Page, anchor: nat)
    requires anchor < |page|
    ensures
      var candidates := LinkCandidates(rules, page, anchor);
      var prefix := rules.literalPrefix(Attr(page, anchor, "href"));
      && candidates[0] == Sel("a", StableClasses(rules, page, anchor), None, None, None)
      && if prefix.Some? && prefix.value != ""
         then |candidates| == 3 && candidates[1] == Sel("a", [], None, prefix, None)
              && candidates[2] == Sel("a", [], None, None, None)
         else |candidates| == 2 && candidates[1] == Sel("a", [], None, None, None)
  {
  }

  // ----- cards with a class of their own

  ghost predicate CarriesClass(rules: Rules, page: Page, i: nat, c: string)
    requires i < |page|
  {
    exists k :: EarlyStable(rules, Classes(page, i), k) && Classes(page, i)[k] == c
  }

  ghost predicate IsCardNode(cards: seq<Card>, i: nat) {
    exists k :: 0 <= k < |cards| && cards[k].0 == i
  }

  ghost function NodesOf(cards: seq<Card>): set<nat> {
    if cards == [] then {} else NodesOf(cards[..|cards| - 1]) + {cards[|cards| - 1].0}
  }

  lemma {:induction false} NodesOfCards(cards: seq<Card>)
    ensures |NodesOf(cards)| <= |cards| && forall i :: i in NodesOf(cards) <==> IsCardNode(cards, i)
  {
    if cards == [] {
    } else {
      var n := |cards| - 1;
      NodesOfCards(cards[..n]);
      forall i: nat ensures i in NodesOf(cards) <==> IsCardNode(cards, i) {
        assert IsCardNode(cards, i) <==> IsCardNode(cards[..n], i) || cards[n].0 == i by {
          if IsCardNode(cards, i) {
            var k :| 0 <= k < |cards| && cards[k].0 == i;
            assert k < n ==> cards[..n][k] == cards[k];
          }
        }
      }
    }
  }

  /** Only nodes with the class are described by the selector of a node that carries it. */
  lemma ClassIsRequired(rules: Rules, page: Page, i: nat, j: nat, c: string)
    requires TreeOk(page) && i < |page| && j < |page| && CarriesClass(rules, page, i, c)
    requires Matches(page, SelectorFor(rules, page, i), j)
    ensures c in Classes(page, j)
  {
    SelectorForMatchesIff(rules, page, i, j);
  }

  /** Such cards, and no other nodes, are described by their common selector. */
  lemma {:induction false} DescribedExactly(rules: Rules, page: Page, cards: seq<Card>, selector: Sel, c: string)
    requires TreeOk(page) && CardsIn(page, cards) && cards != [] && DescribedBy(rules, page, cards, selector)
    requires forall k :: 0 <= k < |cards| ==> CarriesClass(rules, page, cards[k].0, c)
    requires forall j: nat :: j < |page| && c in Classes(page, j) ==> IsCardNode(cards, j)
    ensures MatchedNodes(page, Plain(selector)) == NodesOf(cards) && Specific(page, Plain(selector), cards)
  {
    NodesOfCards(cards);
    DescribedMatch(rules, page, cards, selector);
    forall j: nat ensures j in MatchedNodes(page, Plain(selector)) <==> IsCardNode(cards, j) {
      if j in MatchedNodes(page, Plain(selector)) {
        ClassIsRequired(rules, page, cards[0].0, j, c);
      }
    }
    assert MatchedNodes(page, Plain(selector)) == NodesOf(cards);
  }

  /**
   * If the cards carry a stable class, early in the list, that no other node of the page has, then
   * their own selector is learned, without any refinement, and it matches exactly the cards.
   */
  lemma ClassedCardsAreLearned(
      rules: Rules, page: Page, group: Links, cards: seq<Card>, selector: Sel,
      r: Result<LearnedSelectors, LearningError>, c: string)
    requires TreeOk(page) && Ends(rules, page, group, cards, selector, r)
    requires forall k :: 0 <= k < |cards| ==> CarriesClass(rules, page, cards[k].0, c)
    requires forall j: nat :: j < |page| && c in Classes(page, j) ==> IsCardNode(cards, j)
    ensures r != Err(AmbiguousCardSelector)
    ensures r.Ok? ==>
      && r.value.card.Plain? && r.value.cardCount == |cards| && c in r.value.card.sel.classes
      && forall j: nat :: j in MatchedNodes(page, r.value.card) <==> IsCardNode(cards, j)
  {
    DescribedExactly(rules, page, cards, selector, c);
    NodesOfCards(cards);
    StableClassesAre(rules, page, cards[0].0, c);
  }
}
