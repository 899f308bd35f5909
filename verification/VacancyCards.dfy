/** Finding the card around each vacancy link by climbing ancestors. */
module VacancyCards {
  import opened HtmlTree
  import opened PageTree
  import opened Wrappers

  type Links = map<nat, string>

  predicate IsContainer(tag: string) {
    tag in {"html", "body", "ul", "ol", "table", "tbody", "main", "section"}
  }

  /** The vacancy links of a page: anchors with pairwise different URLs. */
  ghost predicate LinksOk(page: Page, group: Links) {
    && TreeOk(page)
    && (forall a :: a in group ==> a < |page|)
    && forall a, b :: a in group && b in group && group[a] == group[b] ==> a == b
  }

  function LinksUnder(page: Page, group: Links, i: nat): set<string>
    requires TreeOk(page) && i < |page|
  {
    set a | a in Walk(page, i) && a in group :: group[a]
  }

  /** Node `n` can be part of a card: not a container, and exactly one vacancy URL below it. */
  predicate Cardlike(page: Page, group: Links, n: nat)
    requires TreeOk(page) && n < |page|
  {
    !IsContainer(page[n].tag) && |LinksUnder(page, group, n)| == 1
  }

  /** The highest node that is reached from the anchor through card-like nodes only. */
  ghost predicate IsCard(page: Page, group: Links, anchor: nat, card: nat)
    requires TreeOk(page) && anchor < |page|
  {
    && card < |page| && Above(page, card, anchor)
    && (forall n: nat :: n < |page| && n != anchor && Above(page, card, n) && Above(page, n, anchor) ==>
      Cardlike(page, group, n))
    && (Parent(page, card).Some? ==> !Cardlike(page, group, Parent(page, card).value))
  }

  method CardFor(page: Page, group: Links, anchor: nat) returns (card: nat)
    requires TreeOk(page) && anchor < |page|
    ensures IsCard(page, group, anchor, card)
  {
    card := anchor;
    forall n: nat | n < |page| && Above(page, anchor, n) && Above(page, n, anchor) ensures n == anchor {
      AboveOrder(page, anchor, n);
      AboveOrder(page, n, anchor);
    }
    while Parent(page, card).Some? && !IsContainer(page[Parent(page, card).value].tag)
      invariant card < |page| && Above(page, card, anchor)
      invariant forall n: nat :: n < |page| && n != anchor && Above(page, card, n) && Above(page, n, anchor)
                                 ==> Cardlike(page, group, n)
      decreases card
    {
      var up := Parent(page, card).value;
      if |LinksUnder(page, group, up)| != 1 {
        break;
      }
      AboveTransitive(page, up, card, anchor);
      forall n: nat | n < |page| && n != anchor && Above(page, up, n) && Above(page, n, anchor)
        ensures Cardlike(page, group, n) {
        if n != up {
          StepDown(page, up, card, n, anchor);
        }
      }
      card := up;
    }
  }

  /** Between a parent and the anchor, every node but the parent lies at or below the child on the way. */
  lemma StepDown(page: Page, up: nat, card: nat, n: nat, anchor: nat)
    requires TreeOk(page) && card < |page| && n < |page| && anchor < |page| && Parent(page, card) == Some(up)
    requires Above(page, card, anchor) && Above(page, up, n) && Above(page, n, anchor) && n != up
    ensures Above(page, card, n)
  {
    AboveComparable(page, card, n, anchor);
    if Above(page, n, card) && n != card {
      assert Above(page, n, up);
      AboveOrder(page, n, up);
      AboveOrder(page, up, n);
    }
  }

  /** The characterisation leaves no choice. */
  lemma CardIsUnique(page: Page, group: Links, anchor: nat, card: nat, other: nat)
    requires TreeOk(page) && anchor < |page|
    requires IsCard(page, group, anchor, card) && IsCard(page, group, anchor, other)
    ensures card == other
  {
    AboveComparable(page, card, other, anchor);
    if card != other {
      if Above(page, card, other) {
        ParentIsCardlike(page, group, anchor, card, other);
      } else {
        ParentIsCardlike(page, group, anchor, other, card);
      }
    }
  }

  lemma ParentIsCardlike(page: Page, group: Links, anchor: nat, card: nat, below: nat)
    requires TreeOk(page) && anchor < |page| && IsCard(page, group, anchor, card)
    requires below < |page| && Above(page, card, below) && Above(page, below, anchor) && card != below
    ensures Parent(page, below).Some? && Cardlike(page, group, Parent(page, below).value)
  {
    var up := Parent(page, below).value;
    assert Above(page, up, up) && Above(page, up, below);
    AboveTransitive(page, up, below, anchor);
    AboveOrder(page, below, anchor);
  }

  // ----- cards of different anchors

  ghost predicate NoneNested(page: Page, group: Links)
    requires LinksOk(page, group)
  {
    forall a, b :: a in group && b in group && a != b ==> !Above(page, a, b)
  }

  /** A card either is its anchor, or holds no other vacancy link. */
  lemma CardHoldsOwnLink(page: Page, group: Links, anchor: nat, card: nat, other: nat)
    requires LinksOk(page, group) && anchor in group && other in group
    requires IsCard(page, group, anchor, card) && Above(page, card, other)
    ensures other == anchor || (card == anchor && Above(page, anchor, other))
  {
    if card != anchor {
      WalkIsSubtree(page, card);
      assert Cardlike(page, group, card);
      var urls := LinksUnder(page, group, card);
      assert group[anchor] in urls && group[other] in urls;
      OneElement(urls, group[anchor], group[other]);
    }
  }

  lemma OneElement<T>(s: set<T>, x: T, y: T)
    requires |s| == 1 && x in s && y in s
    ensures x == y
  {
    assert |s - {x}| == 0;
    assert y !in s - {x};
  }

  /** Two anchors never get the same card, nested or not. */
  lemma CardsAreDistinct(page: Page, group: Links, a: nat, b: nat, card: nat)
    requires LinksOk(page, group) && a in group && b in group
    requires IsCard(page, group, a, card) && IsCard(page, group, b, card)
    ensures a == b
  {
    CardHoldsOwnLink(page, group, a, card, b);
    CardHoldsOwnLink(page, group, b, card, a);
  }

  /** With no anchor inside another, each card holds exactly its own vacancy link. */
  lemma CardHoldsExactlyOneLink(page: Page, group: Links, anchor: nat, card: nat, other: nat)
    requires LinksOk(page, group) && NoneNested(page, group) && anchor in group && other in group
    requires IsCard(page, group, anchor, card)
    ensures other in Walk(page, card) <==> other == anchor
  {
    WalkIsSubtree(page, card);
    if Above(page, card, other) {
      CardHoldsOwnLink(page, group, anchor, card, other);
    }
  }

  ghost predicate CardsApart(page: Page, cards: map<nat, nat>)
    requires TreeOk(page)
  {
    forall a, b :: a in cards && b in cards && a != b ==>
      cards[a] < |page| && cards[b] < |page| && Apart(page, cards[a], cards[b])
  }

  /** The cards of all anchors are pairwise disjoint exactly when no anchor lies inside another. */
  lemma CardsDisjointIffNoneNested(page: Page, group: Links, cards: map<nat, nat>)
    requires LinksOk(page, group) && cards.Keys == group.Keys
    requires forall a :: a in group ==> IsCard(page, group, a, cards[a])
    ensures NoneNested(page, group)
       <==> CardsApart(page, cards)
  {
    if NoneNested(page, group) {
      forall a, b | a in cards && b in cards && a != b
        ensures cards[a] < |page| && cards[b] < |page| && Apart(page, cards[a], cards[b])
      {
        CardsDisjoint(page, group, a, b, cards[a], cards[b]);
      }
    }
    if CardsApart(page, cards) {
      forall a, b | a in group && b in group && a != b ensures !Above(page, a, b) {
        CardsDisjoint(page, group, a, b, cards[a], cards[b]);
      }
    }
  }

  lemma CardsDisjoint(page: Page, group: Links, a: nat, b: nat, cardA: nat, cardB: nat)
    requires LinksOk(page, group) && a in group && b in group && a != b
    requires IsCard(page, group, a, cardA) && IsCard(page, group, b, cardB)
    ensures !Above(page, a, b) && !Above(page, b, a)
       <==> Apart(page, cardA, cardB)
  {
    DisjointUnlessNested(page, cardA, cardB);
    if Above(page, cardA, cardB) {
      AboveTransitive(page, cardA, cardB, b);
      CardHoldsOwnLink(page, group, a, cardA, b);
    }
    if Above(page, cardB, cardA) {
      AboveTransitive(page, cardB, cardA, a);
      CardHoldsOwnLink(page, group, b, cardB, a);
    }
    if Above(page, a, b) {
      AboveTransitive(page, cardA, a, b);
      AboveComparable(page, cardA, cardB, b);
    }
    if Above(page, b, a) {
      AboveTransitive(page, cardB, b, a);
      AboveComparable(page, cardA, cardB, a);
    }
  }
}
