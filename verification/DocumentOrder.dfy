/**
 * On every page that the builder makes, a walk visits the nodes in the order of their start tags:
 * the nodes of an element are numbered without a gap.
 */
module DocumentOrder {
  import opened HtmlTree
  import opened PageTree
  import opened Wrappers

  /** The node and all its ancestors are last children: nothing was opened after them. */
  predicate Rightmost(page: Page, i: nat)
    requires TreeOk(page) && i < |page|
    decreases i
  {
    match Parent(page, i)
    case None => true
    case Some(up) =>
      var siblings := page[up].children;
      siblings != [] && siblings[|siblings| - 1] == i && Rightmost(page, up)
  }

  lemma {:induction false} RightmostAbove(page: Page, i: nat, c: nat)
    requires TreeOk(page) && c < |page| && Rightmost(page, c) && Above(page, i, c)
    ensures i < |page| && Rightmost(page, i)
    decreases c
  {
    if i == c {
    } else {
      RightmostAbove(page, i, Parent(page, c).value);
    }
  }

  /** On the way down to a rightmost node only last children are passed. */
  lemma {:induction false} OnlyLastChildren(page: Page, i: nat, k: nat, c: nat)
    requires TreeOk(page) && i < |page| && c < |page| && k < |page[i].children| && Rightmost(page, c)
    requires Above(page, page[i].children[k], c)
    ensures k == |page[i].children| - 1
    decreases c
  {
    ChildIsBelow(page, i, k);
    assert NodeOk(page, i);
    if page[i].children[k] == c {
    } else {
      OnlyLastChildren(page, i, k, Parent(page, c).value);
    }
  }

  // ----- a new node comes last

  lemma AttachKeepsLinks(s: State, tag: string, attrs: Attrs, i: nat)
    requires StateOk(s) && !IsSkipped(tag) && i < |s.page|
    ensures
      var t := Attach(s, tag, attrs);
      && TreeOk(t.page) && |t.page| == |s.page| + 1 && t.page[i].parent == s.page[i].parent
      && t.page[i].children == s.page[i].children + (if i == s.current then [|s.page|] else [])
      && t.page[|s.page|].children == [] && t.page[|s.page|].parent == Some(s.current)
  {
    AttachKeepsTree(s, tag, attrs);
  }

  lemma NoChildAbove(page: Page, i: nat, child: nat, c: nat)
    requires TreeOk(page) && i < |page| && child < |page| && c < |page|
    requires !Above(page, i, c) && Parent(page, child) == Some(i)
    ensures !Above(page, child, c)
  {
    assert Above(page, i, i) && Above(page, i, child);
    if Above(page, child, c) {
      AboveTransitive(page, i, child, c);
    }
  }

  lemma {:induction false} AttachedComesLast(s: State, tag: string, attrs: Attrs, i: nat)
    requires StateOk(s) && !IsSkipped(tag) && Rightmost(s.page, s.current) && i < |s.page|
    ensures TreeOk(Attach(s, tag, attrs).page)
    ensures Walk(Attach(s, tag, attrs).page, i)
         == Walk(s.page, i) + if Above(s.page, i, s.current) then [|s.page|] else []
    decreases |s.page| - i, 1, 0
  {
    var page, t, n := s.page, Attach(s, tag, attrs).page, |s.page[i].children|;
    AttachKeepsLinks(s, tag, attrs, i);
    AttachedBelow(s, tag, attrs, i, n);
    if i == s.current {
      assert WalkChildren(t, i, n + 1) == WalkChildren(t, i, n) + Walk(t, |page|);
      if n > 0 && Above(page, page[i].children[n - 1], i) {
        ChildIsBelow(page, i, n - 1);
        AboveOrder(page, page[i].children[n - 1], i);
      }
    } else if Above(page, i, s.current) {
      var k := ChildTowards(page, i, s.current);
      OnlyLastChildren(page, i, k, s.current);
      assert [i] + (WalkChildren(page, i, n) + [|page|]) == Walk(page, i) + [|page|];
    } else if n > 0 {
      ChildIsBelow(page, i, n - 1);
      NoChildAbove(page, i, page[i].children[n - 1], s.current);
    }
  }

  lemma {:induction false} AttachedBelow(s: State, tag: string, attrs: Attrs, i: nat, m: nat)
    requires StateOk(s) && !IsSkipped(tag) && Rightmost(s.page, s.current)
    requires i < |s.page| && m <= |s.page[i].children|
    ensures TreeOk(Attach(s, tag, attrs).page) && m <= |Attach(s, tag, attrs).page[i].children|
    ensures WalkChildren(Attach(s, tag, attrs).page, i, m)
         == WalkChildren(s.page, i, m)
            + if m > 0 && Above(s.page, s.page[i].children[m - 1], s.current) then [|s.page|] else []
    decreases |s.page| - i, 0, m
  {
    AttachKeepsLinks(s, tag, attrs, i);
    if m == 0 {
    } else {
      ChildIsBelow(s.page, i, m - 1);
      AttachedBelow(s, tag, attrs, i, m - 1);
      AttachedComesLast(s, tag, attrs, s.page[i].children[m - 1]);
      if m > 1 && Above(s.page, s.page[i].children[m - 2], s.current) {
        OnlyLastChildren(s.page, i, m - 2, s.current);
      }
    }
  }

  lemma {:induction false} AttachKeepsRightmost(s: State, tag: string, attrs: Attrs, i: nat)
    requires StateOk(s) && !IsSkipped(tag) && i < |s.page| && Rightmost(s.page, i) && i <= s.current
    ensures TreeOk(Attach(s, tag, attrs).page) && Rightmost(Attach(s, tag, attrs).page, i)
    decreases i
  {
    AttachKeepsLinks(s, tag, attrs, i);
    if i > 0 && s.page[i].parent.Some? {
      assert NodeOk(s.page, i);
      AttachKeepsLinks(s, tag, attrs, s.page[i].parent.value);
      AttachKeepsRightmost(s, tag, attrs, s.page[i].parent.value);
    }
  }

  // ----- text changes no walk

  /** The same nodes hang together in the same way. */
  ghost predicate SameLinks(page: Page, other: Page) {
    && TreeOk(page) && TreeOk(other) && |page| == |other|
    && forall i :: 0 <= i < |page| ==> page[i].parent == other[i].parent && page[i].children == other[i].children
  }

  lemma {:induction false} SameLinksSameWalk(page: Page, other: Page, i: nat)
    requires SameLinks(page, other) && i < |page|
    ensures Walk(page, i) == Walk(other, i)
    decreases |page| - i, 1, 0
  {
    SameLinksBelow(page, other, i, |page[i].children|);
  }

  lemma {:induction false} SameLinksBelow(page: Page, other: Page, i: nat, m: nat)
    requires SameLinks(page, other) && i < |page| && m <= |page[i].children|
    ensures WalkChildren(page, i, m) == WalkChildren(other, i, m)
    decreases |page| - i, 0, m
  {
    if m == 0 {
    } else {
      ChildIsBelow(page, i, m - 1);
      SameLinksBelow(page, other, i, m - 1);
      SameLinksSameWalk(page, other, page[i].children[m - 1]);
    }
  }

  lemma {:induction false} SameLinksRightmost(page: Page, other: Page, i: nat)
    requires SameLinks(page, other) && i < |page| && Rightmost(page, i)
    ensures Rightmost(other, i)
    decreases i
  {
    if Parent(page, i).Some? {
      SameLinksRightmost(page, other, Parent(page, i).value);
    }
  }

  // ----- whole parses

  function Numbers(first: nat, n: nat): seq<nat> {
    seq(n, k requires 0 <= k < n => first + k)
  }

  ghost predicate InOrder(s: State) {
    StateOk(s) && Rightmost(s.page, s.current) && Walk(s.page, 0) == Numbers(0, |s.page|)
  }

  lemma AttachKeepsOrder(s: State, tag: string, attrs: Attrs)
    requires InOrder(s) && !IsSkipped(tag)
    ensures InOrder(Attach(s, tag, attrs))
  {
    var t := Attach(s, tag, attrs);
    AttachKeepsTree(s, tag, attrs);
    AttachedComesLast(s, tag, attrs, 0);
    RootIsAboveAll(s.page, s.current);
    AttachKeepsRightmost(s, tag, attrs, s.current);
    AttachKeepsLinks(s, tag, attrs, s.current);
    assert Numbers(0, |t.page|) == Numbers(0, |s.page|) + [|s.page|];
  }

  lemma StepKeepsOrder(s: State, e: Event)
    requires InOrder(s)
    ensures InOrder(Step(s, e))
  {
    var t := Step(s, e);
    StepKeepsTree(s, e);
    match e
    case Start(tag, attrs) =>
      if s.skipDepth == 0 && !IsSkipped(tag) {
        AttachKeepsOrder(s, tag, attrs);
      }
    case End(tag) =>
      if t.current != s.current {
        var node := Closest(s.page, s.current, tag).value;
        ClosestIff(s.page, s.current, tag, node);
        RightmostAbove(s.page, node, s.current);
      }
    case Data(text) =>
      if t.page != s.page {
        assert SameLinks(s.page, t.page);
        SameLinksSameWalk(s.page, t.page, 0);
        SameLinksRightmost(s.page, t.page, s.current);
      }
  }

  lemma {:induction false} RunKeepsOrder(s: State, events: seq<Event>)
    requires InOrder(s)
    ensures InOrder(Run(s, events))
    decreases |events|
  {
    if events == [] {
    } else {
      StepKeepsOrder(s, events[0]);
      RunKeepsOrder(Step(s, events[0]), events[1..]);
    }
  }

  ghost predicate Stretch(whole: seq<nat>, from: nat, part: seq<nat>) {
    from + |part| <= |whole| && whole[from..from + |part|] == part
  }

  lemma StretchOfStretch(whole: seq<nat>, from: nat, middle: seq<nat>, inner: nat, part: seq<nat>)
    requires Stretch(whole, from, middle) && Stretch(middle, inner, part)
    ensures Stretch(whole, from + inner, part)
  {
    assert forall k :: 0 <= k < |part| ==> part[k] == middle[inner + k] == whole[from + (inner + k)];
  }

  /** The walk of an element is a stretch of the walk of the whole page. */
  lemma {:induction false} WalkWithin(page: Page, i: nat) returns (from: nat)
    requires TreeOk(page) && i < |page|
    ensures Stretch(Walk(page, 0), from, Walk(page, i))
    decreases i
  {
    assert NodeOk(page, i);
    if i == 0 {
      from := 0;
    } else {
      var up := page[i].parent.value;
      var start := WalkWithin(page, up);
      var inner := WithinParent(page, i, up);
      from := start + inner;
      StretchOfStretch(Walk(page, 0), start, Walk(page, up), inner, Walk(page, i));
    }
  }

  lemma WithinParent(page: Page, i: nat, up: nat) returns (from: nat)
    requires TreeOk(page) && i < |page| && page[i].parent == Some(up)
    ensures up < i && Stretch(Walk(page, up), from, Walk(page, i))
  {
    assert NodeOk(page, i);
    var k :| 0 <= k < |page[up].children| && page[up].children[k] == i;
    var below := WalkChildren(page, up, |page[up].children|);
    var before := ChildWithin(page, up, k, |page[up].children|);
    assert Stretch([up] + below, 1, below);
    StretchOfStretch(Walk(page, up), 1, below, before, Walk(page, i));
    from := 1 + before;
  }

  lemma {:induction false} ChildWithin(page: Page, i: nat, k: nat, m: nat) returns (from: nat)
    requires TreeOk(page) && i < |page| && k < m <= |page[i].children|
    ensures page[i].children[k] < |page|
    ensures Stretch(WalkChildren(page, i, m), from, Walk(page, page[i].children[k]))
    decreases m
  {
    ChildIsBelow(page, i, k);
    ChildIsBelow(page, i, m - 1);
    var before, last := WalkChildren(page, i, m - 1), Walk(page, page[i].children[m - 1]);
    assert WalkChildren(page, i, m) == before + last;
    if k == m - 1 {
      from := |before|;
    } else {
      from := ChildWithin(page, i, k, m - 1);
      assert Stretch(before + last, 0, before);
      StretchOfStretch(before + last, 0, before, from, Walk(page, page[i].children[k]));
    }
  }

  /** Whatever the events, a walk of an element visits it and what it holds in the order of the start tags. */
  lemma WalksFollowTheDocument(events: seq<Event>, i: nat)
    requires i < |Parse(events).page|
    ensures var walk := Walk(Parse(events).page, i); walk == Numbers(i, |walk|)
  {
    var page := Parse(events).page;
    EmptyOk();
    assert Walk(EMPTY.page, 0) == Numbers(0, 1);
    RunKeepsOrder(EMPTY, events);
    var from := WalkWithin(page, i);
    var walk := Walk(page, i);
    assert walk[0] == i;
    forall k | 0 <= k < |walk| ensures walk[k] == i + k {
      assert walk[k] == Walk(page, 0)[from..from + |walk|][k];
      assert walk[0] == Walk(page, 0)[from..from + |walk|][0];
    }
  }
}
