/** The tiny CSS subset that recipe learning generates, and its matcher over a parsed page. */
module RecipeSelectors {
  import opened HtmlTree
  import opened PageTree
  import opened PyText
  import opened Wrappers

  /** `tag.class[name="value"][href*="..."]:has(a[href*="..."])`, each part optional but the tag. */
  datatype Sel = Sel(
    tag: string, classes: seq<string>, attribute: Option<(string, string)>,
    hrefContains: Option<string>, hasLink: Option<string>)

  /** The regular expressions and URL rules of the learner, as inputs. */
  datatype Rules = Rules(
    stableClass: string -> bool,
    longNumber: string -> bool,
    literalPrefix: string -> Option<string>,
    resolve: string -> Option<string>,
    samePath: string -> bool,
    shape: string -> string,
    textLength: nat -> nat)

  const STABLE_ATTRIBUTES := ["data-testid", "data-qa", "data-test", "data-automation-id"]
  const MAX_CLASSES := 3

  function Attr(page: Page, i: nat, name: string): string
    requires i < |page|
  {
    if name in page[i].attrs then page[i].attrs[name] else ""
  }

  function Classes(page: Page, i: nat): seq<string>
    requires i < |page|
  {
    SplitWords(Attr(page, i, "class"))
  }

  predicate Has(s: string, part: string) {
    exists k :: 0 <= k <= |s| && StartsAt(s, k, part)
  }

  predicate StartsAt(s: string, k: nat, part: string)
    requires k <= |s|
  {
    part <= s[k..]
  }

  predicate IsLinkTo(page: Page, i: nat, part: string)
    requires i < |page|
  {
    page[i].tag == "a" && Has(Attr(page, i, "href"), part)
  }

  predicate HasLinkBelow(page: Page, below: seq<nat>, part: string)
    requires InPage(page, below)
  {
    exists k :: 0 <= k < |below| && IsLinkTo(page, below[k], part)
  }

  lemma WalkInPage(page: Page, i: nat)
    requires TreeOk(page) && i < |page|
    ensures InPage(page, Walk(page, i))
  {
    WalkIsSubtree(page, i);
    forall k | 0 <= k < |Walk(page, i)| ensures Walk(page, i)[k] < |page| {
      assert Walk(page, i)[k] in Walk(page, i);
    }
  }

  /** `Node.walk()[1:]`: everything strictly below a node, in document order. */
  function Below(page: Page, i: nat): (r: seq<nat>)
    requires TreeOk(page) && i < |page|
    ensures InPage(page, r)
  {
    WalkInPage(page, i);
    Walk(page, i)[1..]
  }

  predicate Matches(page: Page, sel: Sel, i: nat)
    requires TreeOk(page) && i < |page|
  {
    && page[i].tag == sel.tag
    && (forall k :: 0 <= k < |sel.classes| ==> sel.classes[k] in Classes(page, i))
    && (sel.attribute.Some? ==>
         sel.attribute.value.0 in page[i].attrs && page[i].attrs[sel.attribute.value.0] == sel.attribute.value.1)
    && (sel.hrefContains.Some? ==> Has(Attr(page, i, "href"), sel.hrefContains.value))
    && (sel.hasLink.Some? ==> HasLinkBelow(page, Below(page, i), sel.hasLink.value))
  }

  // ----- the selector a node is described by

  function StableOnly(rules: Rules, names: seq<string>): (r: seq<string>)
    ensures forall k :: 0 <= k < |r| ==> r[k] in names && rules.stableClass(r[k])
  {
    if names == [] then []
    else (if rules.stableClass(names[0]) then [names[0]] else []) + StableOnly(rules, names[1..])
  }

  function StableClasses(rules: Rules, page: Page, i: nat): seq<string>
    requires i < |page|
  {
    var stable := StableOnly(rules, Classes(page, i));
    if |stable| <= MAX_CLASSES then stable else stable[..MAX_CLASSES]
  }

  function StableAttribute(rules: Rules, page: Page, i: nat, names: seq<string>): (r: Option<(string, string)>)
    requires i < |page|
    ensures r.Some? ==> r.value.0 in page[i].attrs && page[i].attrs[r.value.0] == r.value.1 != ""
  {
    if names == [] then None
    else
      var value := Attr(page, i, names[0]);
      if value != "" && |value| <= 60 && !rules.longNumber(value) && '"' !in value then Some((names[0], value))
      else StableAttribute(rules, page, i, names[1..])
  }

  function SelectorFor(rules: Rules, page: Page, i: nat): Sel
    requires i < |page|
  {
    var classes := StableClasses(rules, page, i);
    if classes != [] then Sel(page[i].tag, classes, None, None, None)
    else Sel(page[i].tag, [], StableAttribute(rules, page, i, STABLE_ATTRIBUTES), None, None)
  }

  /** A node is matched by the selector made from it. */
  lemma SelectorForMatchesItsNode(rules: Rules, page: Page, i: nat)
    requires TreeOk(page) && i < |page|
    ensures Matches(page, SelectorFor(rules, page, i), i)
  {
    var stable := StableOnly(rules, Classes(page, i));
    var sel := SelectorFor(rules, page, i);
    forall k | 0 <= k < |sel.classes| ensures sel.classes[k] in Classes(page, i) {
      assert sel.classes[k] == stable[k];
    }
  }

  // ----- which nodes such a selector describes

  /** How many of the names are stable. */
  ghost function CountStable(rules: Rules, names: seq<string>): nat {
    if names == [] then 0
    else CountStable(rules, names[..|names| - 1]) + if rules.stableClass(names[|names| - 1]) then 1 else 0
  }

  /** The name at `k` is stable, behind `n` stable ones. */
  ghost predicate StableAt(rules: Rules, names: seq<string>, k: int, n: int) {
    0 <= k < |names| && rules.stableClass(names[k]) && CountStable(rules, names[..k]) == n
  }

  /** One of the first three stable names. */
  ghost predicate EarlyStable(rules: Rules, names: seq<string>, k: int) {
    0 <= k < |names| && rules.stableClass(names[k]) && CountStable(rules, names[..k]) < 3
  }

  lemma {:induction false} StableOnlyAppend(rules: Rules, names: seq<string>, last: string)
    ensures StableOnly(rules, names + [last])
         == StableOnly(rules, names) + if rules.stableClass(last) then [last] else []
  {
    if names == [] {
      assert [last][1..] == [];
    } else {
      assert (names + [last])[1..] == names[1..] + [last];
      StableOnlyAppend(rules, names[1..], last);
    }
  }

  lemma StableOnlySplits(rules: Rules, names: seq<string>)
    requires names != []
    ensures
      var before, last := names[..|names| - 1], names[|names| - 1];
      StableOnly(rules, names) == StableOnly(rules, before) + if rules.stableClass(last) then [last] else []
  {
    assert names == names[..|names| - 1] + [names[|names| - 1]];
    StableOnlyAppend(rules, names[..|names| - 1], names[|names| - 1]);
  }

  lemma {:induction false} StableLength(rules: Rules, names: seq<string>)
    ensures |StableOnly(rules, names)| == CountStable(rules, names)
  {
    if names == [] {
    } else {
      StableLength(rules, names[..|names| - 1]);
      StableOnlySplits(rules, names);
    }
  }

  /** Where the `n`-th kept name stands. */
  lemma {:induction false} NthStable(rules: Rules, names: seq<string>, n: nat) returns (k: nat)
    requires n < |StableOnly(rules, names)|
    ensures StableAt(rules, names, k, n) && StableOnly(rules, names)[n] == names[k]
    decreases |names|
  {
    var m := |names| - 1;
    var before := names[..m];
    StableOnlySplits(rules, names);
    StableLength(rules, before);
    if n < |StableOnly(rules, before)| {
      k := NthStable(rules, before, n);
      assert before[..k] == names[..k];
    } else {
      k := m;
    }
  }

  /** A stable name is kept, at its number. */
  lemma {:induction false} StableIsKept(rules: Rules, names: seq<string>, k: nat, n: nat)
    requires StableAt(rules, names, k, n)
    ensures n < |StableOnly(rules, names)| && StableOnly(rules, names)[n] == names[k]
    decreases |names|
  {
    var m := |names| - 1;
    var before := names[..m];
    StableOnlySplits(rules, names);
    StableLength(rules, before);
    if k < m {
      assert before[..k] == names[..k];
      StableIsKept(rules, before, k, n);
    }
  }

  /** The classes of a selector are the first three stable ones of its node. */
  lemma StableClassesAre(rules: Rules, page: Page, i: nat, c: string)
    requires i < |page|
    ensures c in StableClasses(rules, page, i)
       <==> exists k :: EarlyStable(rules, Classes(page, i), k) && Classes(page, i)[k] == c
  {
    var names, classes := Classes(page, i), StableClasses(rules, page, i);
    if c in classes {
      var n :| 0 <= n < |classes| && classes[n] == c;
      var k := NthStable(rules, names, n);
      assert EarlyStable(rules, names, k);
    }
    if k :| EarlyStable(rules, names, k) && names[k] == c {
      var n := CountStable(rules, names[..k]);
      StableIsKept(rules, names, k, n);
      assert classes[n] == c;
    }
  }

  /** A value short and plain enough to select by. */
  ghost predicate UsableAttribute(rules: Rules, page: Page, i: nat, name: string)
    requires i < |page|
  {
    && name in page[i].attrs && 0 < |page[i].attrs[name]| <= 60
    && '"' !in page[i].attrs[name] && !rules.longNumber(page[i].attrs[name])
  }

  /** The first usable one of the test attributes. */
  ghost predicate FirstUsable(rules: Rules, page: Page, i: nat, names: seq<string>, n: int)
    requires i < |page|
  {
    && 0 <= n < |names| && UsableAttribute(rules, page, i, names[n])
    && forall m :: 0 <= m < n ==> !UsableAttribute(rules, page, i, names[m])
  }

  lemma {:induction false} StableAttributeFrom(rules: Rules, page: Page, i: nat, names: seq<string>, m: nat)
    returns (n: nat)
    requires i < |page| && m <= |names|
    requires forall k :: 0 <= k < m ==> !UsableAttribute(rules, page, i, names[k])
    ensures n <= |names| && forall k :: 0 <= k < n ==> !UsableAttribute(rules, page, i, names[k])
    ensures n < |names| ==> FirstUsable(rules, page, i, names, n)
    ensures n < |names| ==>
      StableAttribute(rules, page, i, names[m..]) == Some((names[n], page[i].attrs[names[n]]))
    ensures n == |names| ==> StableAttribute(rules, page, i, names[m..]) == None
    decreases |names| - m
  {
    n := m;
    if m < |names| {
      assert names[m..][0] == names[m] && names[m..][1..] == names[m + 1..];
      if !UsableAttribute(rules, page, i, names[m]) {
        n := StableAttributeFrom(rules, page, i, names, m + 1);
      }
    }
  }

  /** `j` has every one of the first three stable classes of `i`. */
  ghost predicate SharesClasses(rules: Rules, page: Page, i: nat, j: nat)
    requires i < |page| && j < |page|
  {
    forall k :: EarlyStable(rules, Classes(page, i), k) ==> Classes(page, i)[k] in Classes(page, j)
  }

  ghost predicate HasStableClass(rules: Rules, page: Page, i: nat)
    requires i < |page|
  {
    exists k :: 0 <= k < |Classes(page, i)| && rules.stableClass(Classes(page, i)[k])
  }

  /** `j` has the first usable test attribute of `i`, with its value. */
  ghost predicate SharesAttribute(rules: Rules, page: Page, i: nat, j: nat)
    requires i < |page| && j < |page|
  {
    forall n :: FirstUsable(rules, page, i, STABLE_ATTRIBUTES, n) ==>
      var name := STABLE_ATTRIBUTES[n];
      (name in page[j].attrs && page[j].attrs[name] == page[i].attrs[name])
  }

  /** The selector of a node describes exactly the nodes that share its tag and what marks it. */
  lemma SelectorForMatchesIff(rules: Rules, page: Page, i: nat, j: nat)
    requires TreeOk(page) && i < |page| && j < |page|
    ensures Matches(page, SelectorFor(rules, page, i), j)
       <==> && page[j].tag == page[i].tag && SharesClasses(rules, page, i, j)
            && (!HasStableClass(rules, page, i) ==> SharesAttribute(rules, page, i, j))
  {
    var sel := SelectorFor(rules, page, i);
    SelectorClasses(rules, page, i, j);
    SelectorAttribute(rules, page, i, j);
  }

  lemma SelectorClasses(rules: Rules, page: Page, i: nat, j: nat)
    requires i < |page| && j < |page|
    ensures StableClasses(rules, page, i) != [] <==> HasStableClass(rules, page, i)
    ensures (forall n :: 0 <= n < |StableClasses(rules, page, i)| ==>
               StableClasses(rules, page, i)[n] in Classes(page, j))
       <==> SharesClasses(rules, page, i, j)
  {
    var names, classes := Classes(page, i), StableClasses(rules, page, i);
    forall c ensures c in classes <==> exists k :: EarlyStable(rules, names, k) && names[k] == c {
      StableClassesAre(rules, page, i, c);
    }
    if HasStableClass(rules, page, i) {
      var k :| 0 <= k < |names| && rules.stableClass(names[k]);
      StableIsKept(rules, names, k, CountStable(rules, names[..k]));
    }
    if classes != [] {
      var k := NthStable(rules, names, 0);
    }
    forall k | EarlyStable(rules, names, k) ensures names[k] in classes {
    }
    forall n | 0 <= n < |classes| ensures exists k :: EarlyStable(rules, names, k) && names[k] == classes[n] {
      assert classes[n] in classes;
    }
  }

  lemma SelectorAttribute(rules: Rules, page: Page, i: nat, j: nat)
    requires i < |page| && j < |page|
    ensures
      var attribute := StableAttribute(rules, page, i, STABLE_ATTRIBUTES);
      (attribute.Some? ==> attribute.value.0 in page[j].attrs && page[j].attrs[attribute.value.0] == attribute.value.1)
      <==> SharesAttribute(rules, page, i, j)
  {
    var n := StableAttributeFrom(rules, page, i, STABLE_ATTRIBUTES, 0);
    assert STABLE_ATTRIBUTES[0..] == STABLE_ATTRIBUTES;
    forall m | FirstUsable(rules, page, i, STABLE_ATTRIBUTES, m) ensures m == n {
    }
  }

  // ----- whole-page matching

  /** What `css()` renders: one selector, or one chained behind an ancestor. */
  datatype CardSelector = Plain(sel: Sel) | Chained(ancestor: Sel, sel: Sel)

  predicate MatchesSomeAncestor(page: Page, sel: Sel, i: nat)
    requires TreeOk(page) && i < |page|
    decreases i
  {
    var up := Parent(page, i);
    up.Some? && (Matches(page, sel, up.value) || MatchesSomeAncestor(page, sel, up.value))
  }

  predicate CardMatches(page: Page, selector: CardSelector, i: nat)
    requires TreeOk(page) && i < |page|
  {
    && Matches(page, selector.sel, i)
    && (selector.Chained? ==> MatchesSomeAncestor(page, selector.ancestor, i))
  }

  /** All nodes of the page that the selector matches. */
  ghost function MatchedNodes(page: Page, selector: CardSelector): set<nat>
    requires TreeOk(page)
  {
    set i: nat | i < |page| && CardMatches(page, selector, i)
  }

  function Matched(page: Page, nodes: seq<nat>, selector: CardSelector): seq<nat>
    requires TreeOk(page) && InPage(page, nodes)
  {
    if nodes == [] then [] else
      var last := nodes[|nodes| - 1];
      Matched(page, nodes[..|nodes| - 1], selector) + (if CardMatches(page, selector, last) then [last] else [])
  }

  ghost function KeepIn(nodes: seq<nat>, good: set<nat>): seq<nat> {
    if nodes == [] then [] else
      var last := nodes[|nodes| - 1];
      KeepIn(nodes[..|nodes| - 1], good) + (if last in good then [last] else [])
  }

  ghost function Members(nodes: seq<nat>): set<nat> {
    set i | i in nodes
  }

  lemma {:induction false} KeepInCounts(nodes: seq<nat>, good: set<nat>)
    requires Distinct(nodes)
    ensures Members(KeepIn(nodes, good)) == Members(nodes) * good
    ensures |KeepIn(nodes, good)| == |Members(nodes) * good|
  {
    if nodes == [] {
    } else {
      var before, last := nodes[..|nodes| - 1], nodes[|nodes| - 1];
      LastIsNew(nodes);
      KeepInCounts(before, good);
      MembersAppend(before, last);
      MembersAppend(KeepIn(before, good), last);
      GoodMembersGrow(Members(before), good, last);
    }
  }

  lemma LastIsNew(nodes: seq<nat>)
    requires Distinct(nodes) && nodes != []
    ensures Distinct(nodes[..|nodes| - 1]) && nodes[|nodes| - 1] !in Members(nodes[..|nodes| - 1])
    ensures nodes == nodes[..|nodes| - 1] + [nodes[|nodes| - 1]]
  {
    var before := nodes[..|nodes| - 1];
    assert forall k :: 0 <= k < |before| ==> before[k] == nodes[k];
  }

  lemma MembersAppend(nodes: seq<nat>, last: nat)
    ensures Members(nodes + [last]) == Members(nodes) + {last}
  {
  }

  lemma GoodMembersGrow(members: set<nat>, good: set<nat>, last: nat)
    requires last !in members
    ensures last in good ==> (members + {last}) * good == members * good + {last}
    ensures last in good ==> |(members + {last}) * good| == |members * good| + 1
    ensures last !in good ==> (members + {last}) * good == members * good
  {
    if last in good {
      assert (members + {last}) * good == members * good + {last};
    } else {
      assert (members + {last}) * good == members * good;
    }
  }

  lemma {:induction false} MatchedKeeps(page: Page, nodes: seq<nat>, selector: CardSelector)
    requires TreeOk(page) && InPage(page, nodes)
    ensures Matched(page, nodes, selector) == KeepIn(nodes, MatchedNodes(page, selector))
  {
    if nodes == [] {
    } else {
      MatchedKeeps(page, nodes[..|nodes| - 1], selector);
    }
  }

  /** Counting matches along the walk from the root counts the matched nodes of the page. */
  lemma WalkCountsMatches(page: Page, selector: CardSelector)
    requires TreeOk(page)
    ensures InPage(page, Walk(page, 0))
    ensures |Matched(page, Walk(page, 0), selector)| == |MatchedNodes(page, selector)|
    ensures forall i: nat :: i in Matched(page, Walk(page, 0), selector) <==> i in MatchedNodes(page, selector)
  {
    var walk, good := Walk(page, 0), MatchedNodes(page, selector);
    WalkInPage(page, 0);
    WalkIsSubtree(page, 0);
    WalkVisitsOnce(page, 0);
    MatchedKeeps(page, walk, selector);
    KeepInCounts(walk, good);
    forall i: nat | i < |page| ensures i in walk {
      RootIsAboveAll(page, i);
    }
    assert Members(walk) * good == good;
    forall i: nat ensures i in KeepIn(walk, good) <==> i in good {
      assert i in Members(KeepIn(walk, good)) <==> i in good;
    }
  }

  /** The first node strictly below `card`, in document order, that matches. */
  function FirstMatch(page: Page, card: nat, sel: Sel): Option<nat>
    requires TreeOk(page) && card < |page|
  {
    FirstIn(page, Below(page, card), sel)
  }

  function FirstIn(page: Page, nodes: seq<nat>, sel: Sel): (r: Option<nat>)
    requires TreeOk(page) && InPage(page, nodes)
    ensures match r
      case None => forall k :: 0 <= k < |nodes| ==> !Matches(page, sel, nodes[k])
      case Some(node) => exists k :: 0 <= k < |nodes| && nodes[k] == node && Matches(page, sel, node)
                                     && forall j :: 0 <= j < k ==> !Matches(page, sel, nodes[j])
  {
    if nodes == [] then None
    else if Matches(page, sel, nodes[0]) then Some(nodes[0])
    else
      var r := FirstIn(page, nodes[1..], sel);
      assert r.Some? ==> exists k :: 0 <= k < |nodes| && nodes[k] == r.value && Matches(page, sel, r.value)
                                     && forall j :: 0 <= j < k ==> !Matches(page, sel, nodes[j]) by {
        if r.Some? {
          var k :| 0 <= k < |nodes| - 1 && nodes[1..][k] == r.value && Matches(page, sel, r.value)
                   && forall j :: 0 <= j < k ==> !Matches(page, sel, nodes[1..][j]);
          assert nodes[k + 1] == r.value;
          forall j | 0 <= j < k + 1 ensures !Matches(page, sel, nodes[j]) {
            if j > 0 {
              assert nodes[1..][j - 1] == nodes[j];
            }
          }
        }
      }
      r
  }
}
