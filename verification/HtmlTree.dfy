/**
 * The HTML tree builder behind recipe learning. A page is an arena of nodes; a node is named by
 * its index, so that `parent`, `children` and the builder's cursor are references, as in the
 * source. The builder mutates the arena event by event.
 */
module HtmlTree {
  import opened PyText
  import opened Wrappers

  type Attrs = map<string, string>

  datatype Piece = TextPiece(text: string) | ChildPiece(id: nat)

  datatype Node = Node(tag: string, attrs: Attrs, parent: Option<nat>, children: seq<nat>, content: seq<Piece>)

  type Page = seq<Node>

  datatype Event = Start(tag: string, attrs: Attrs) | End(tag: string) | Data(text: string)

  datatype State = State(page: Page, current: nat, skipDepth: nat)

  const ROOT_TAG := "document"

  predicate IsVoid(tag: string) {
    tag in {"area", "base", "br", "col", "embed", "hr", "img", "input", "link", "meta", "param", "source", "track",
      "wbr"}
  }

  predicate IsSkipped(tag: string) {
    tag in {"script", "style", "noscript", "template"}
  }

  // ----- well-formed pages

  function ChildIds(content: seq<Piece>): seq<nat> {
    if content == [] then []
    else
      var before, last := ChildIds(content[..|content| - 1]), content[|content| - 1];
      if last.ChildPiece? then before + [last.id] else before
  }

  /** Node `i` hangs below an earlier node that lists it; its own children are later nodes, listed in order. */
  ghost predicate NodeOk(page: Page, i: nat) {
    && i < |page|
    && (i == 0 <==> page[i].parent.None?)
    && (page[i].parent.Some? ==> page[i].parent.value < i && i in page[page[i].parent.value].children)
    && (forall k :: 0 <= k < |page[i].children| ==>
         i < page[i].children[k] < |page| && page[page[i].children[k]].parent == Some(i))
    && (forall j, k :: 0 <= j < k < |page[i].children| ==> page[i].children[j] < page[i].children[k])
    && page[i].children == ChildIds(page[i].content)
  }

  /** What the builder never produces: skipped elements, filled void elements, blank text. */
  ghost predicate NodePrintable(page: Page, i: nat) {
    && i < |page|
    && !IsSkipped(page[i].tag)
    && (IsVoid(page[i].tag) ==> page[i].content == [])
    && forall k :: 0 <= k < |page[i].content| && page[i].content[k].TextPiece? ==> !Blank(page[i].content[k].text)
  }

  ghost predicate TreeOk(page: Page) {
    && page != [] && page[0].tag == ROOT_TAG
    && forall i: nat {:trigger NodeOk(page, i)} {:trigger NodePrintable(page, i)} ::
         i < |page| ==> NodeOk(page, i) && NodePrintable(page, i)
  }

  ghost predicate StateOk(s: State) {
    TreeOk(s.page) && s.current < |s.page| && !IsVoid(s.page[s.current].tag)
  }

  const EMPTY := State([Node(ROOT_TAG, map[], None, [], [])], 0, 0)

  // ----- the three handlers

  function Attach(s: State, tag: string, attrs: Attrs): State
    requires s.current < |s.page|
  {
    var id := |s.page|;
    var above := s.page[s.current];
    var grown := above.(children := above.children + [id], content := above.content + [ChildPiece(id)]);
    State(s.page[s.current := grown] + [Node(tag, attrs, Some(s.current), [], [])],
          if IsVoid(tag) then s.current else id, s.skipDepth)
  }

  /** The closest node at or above `i` with this tag. */
  ghost function Closest(page: Page, i: nat, tag: string): (r: Option<nat>)
    requires TreeOk(page) && i < |page|
    ensures r.Some? ==> r.value <= i && page[r.value].tag == tag
  {
    assert NodeOk(page, i);
    if page[i].tag == tag then Some(i)
    else if page[i].parent.None? then None
    else Closest(page, page[i].parent.value, tag)
  }

  ghost function Step(s: State, e: Event): State
    requires StateOk(s)
  {
    match e
    case Start(tag, attrs) =>
      if s.skipDepth > 0 then if IsSkipped(tag) then s.(skipDepth := s.skipDepth + 1) else s
      else if IsSkipped(tag) then s.(skipDepth := 1)
      else Attach(s, tag, attrs)
    case End(tag) =>
      if s.skipDepth > 0 then if IsSkipped(tag) then s.(skipDepth := s.skipDepth - 1) else s
      else
        (match Closest(s.page, s.current, tag)
         case None => s
         case Some(node) =>
           if s.page[node].parent.Some? then s.(current := s.page[node].parent.value) else s)
    case Data(text) =>
      if s.skipDepth == 0 && !Blank(text) then
        var above := s.page[s.current];
        s.(page := s.page[s.current := above.(content := above.content + [TextPiece(text)])])
      else s
  }

  lemma EmptyOk()
    ensures StateOk(EMPTY)
  {
    assert NodeOk(EMPTY.page, 0) && NodePrintable(EMPTY.page, 0);
  }

  lemma AttachKeepsTree(s: State, tag: string, attrs: Attrs)
    requires StateOk(s) && !IsSkipped(tag)
    ensures StateOk(Attach(s, tag, attrs))
  {
    var t := Attach(s, tag, attrs);
    forall i: nat | i < |t.page| ensures NodeOk(t.page, i) && NodePrintable(t.page, i) {
      if i < |s.page| {
        assert NodeOk(s.page, i) && NodePrintable(s.page, i);
        if i == s.current {
          assert t.page[i].content[..|t.page[i].content| - 1] == s.page[i].content;
        }
      }
    }
  }

  /** Every event keeps the root, the parent links and `children == the nodes of content`. */
  lemma StepKeepsTree(s: State, e: Event)
    requires StateOk(s)
    ensures StateOk(Step(s, e))
    ensures |Step(s, e).page| >= |s.page|
  {
    match e
    case Start(tag, attrs) =>
      if s.skipDepth == 0 && !IsSkipped(tag) {
        AttachKeepsTree(s, tag, attrs);
      }
    case End(tag) =>
      if s.skipDepth == 0 {
        var node := Closest(s.page, s.current, tag);
        if node.Some? && s.page[node.value].parent.Some? {
          assert NodeOk(s.page, node.value);
          var above := s.page[node.value].parent.value;
          assert NodePrintable(s.page, above) && NodeOk(s.page, above);
          assert ChildIds([]) == [];
        }
      }
    case Data(text) =>
      if s.skipDepth == 0 && !Blank(text) {
        var t := Step(s, e);
        forall i: nat | i < |t.page| ensures NodeOk(t.page, i) && NodePrintable(t.page, i) {
          assert NodeOk(s.page, i) && NodePrintable(s.page, i);
          if i == s.current {
            assert t.page[i].content[..|t.page[i].content| - 1] == s.page[i].content;
          }
        }
      }
  }

  ghost function Run(s: State, events: seq<Event>): (t: State)
    requires StateOk(s)
    ensures StateOk(t)
    decreases |events|
  {
    if events == [] then s else
      StepKeepsTree(s, events[0]);
      Run(Step(s, events[0]), events[1..])
  }

  ghost function Parse(events: seq<Event>): (t: State)
    ensures StateOk(t)
  {
    EmptyOk();
    Run(EMPTY, events)
  }

  lemma {:induction false} RunAppend(s: State, events: seq<Event>, more: seq<Event>)
    requires StateOk(s)
    ensures Run(s, events + more) == Run(Run(s, events), more)
    decreases |events|
  {
    if events == [] {
      assert events + more == more;
    } else {
      StepKeepsTree(s, events[0]);
      assert (events + more)[1..] == events[1..] + more;
      RunAppend(Step(s, events[0]), events[1..], more);
    }
  }

  // ----- the builder

  class TreeBuilder {
    var page: Page
    var current: nat
    var skipDepth: nat

    ghost function Now(): State
      reads this
    {
      State(page, current, skipDepth)
    }

    constructor ()
      ensures Now() == EMPTY && StateOk(Now())
    {
      page, current, skipDepth := [Node(ROOT_TAG, map[], None, [], [])], 0, 0;
      new;
      EmptyOk();
    }

    method HandleStartTag(tag: string, attrs: Attrs)
      requires StateOk(Now())
      modifies this
      ensures StateOk(Now()) && Now() == Step(old(Now()), Start(tag, attrs))
    {
      StepKeepsTree(Now(), Start(tag, attrs));
      if skipDepth > 0 {
        if IsSkipped(tag) {
          skipDepth := skipDepth + 1;
        }
        return;
      }
      if IsSkipped(tag) {
        skipDepth := 1;
        return;
      }
      var id := |page|;
      var above := page[current];
      page := page[current := above.(children := above.children + [id], content := above.content + [ChildPiece(id)])]
            + [Node(tag, attrs, Some(current), [], [])];
      if !IsVoid(tag) {
        current := id;
      }
    }

    method HandleEndTag(tag: string)
      requires StateOk(Now())
      modifies this
      ensures StateOk(Now()) && Now() == Step(old(Now()), End(tag))
    {
      StepKeepsTree(Now(), End(tag));
      if skipDepth > 0 {
        if IsSkipped(tag) {
          skipDepth := skipDepth - 1;
        }
        return;
      }
      var node: Option<nat> := Some(current);
      while node.Some? && page[node.value].tag != tag
        invariant node.Some? ==> node.value < |page|
        invariant Closest(page, current, tag) == if node.Some? then Closest(page, node.value, tag) else None
        decreases if node.Some? then node.value + 1 else 0
      {
        assert NodeOk(page, node.value);
        node := page[node.value].parent;
      }
      if node.Some? && page[node.value].parent.Some? {
        current := page[node.value].parent.value;
      }
    }

    method HandleData(data: string)
      requires StateOk(Now())
      modifies this
      ensures StateOk(Now()) && Now() == Step(old(Now()), Data(data))
    {
      StepKeepsTree(Now(), Data(data));
      if skipDepth == 0 && !Blank(data) {
        var above := page[current];
        page := page[current := above.(content := above.content + [TextPiece(data)])];
      }
    }

    /** `feed` then `close`: the handlers, in the order of the events. */
    method Feed(events: seq<Event>)
      requires StateOk(Now())
      modifies this
      ensures StateOk(Now()) && Now() == Run(old(Now()), events)
    {
      for i := 0 to |events|
        invariant StateOk(Now()) && Run(Now(), events[i..]) == Run(old(Now()), events)
      {
        StepKeepsTree(Now(), events[i]);
        assert events[i..][0] == events[i] && events[i..][1..] == events[i + 1..];
        match events[i]
        case Start(tag, attrs) => HandleStartTag(tag, attrs);
        case End(tag) => HandleEndTag(tag);
        case Data(text) => HandleData(text);
      }
    }
  }

  // ----- trees as values, and printing them

  datatype Item = Text(text: string) | Element(tag: string, attrs: Attrs, content: seq<Item>)

  ghost function ItemAt(page: Page, i: nat): Item
    requires TreeOk(page) && i < |page|
    decreases |page| - i, 1, 0
  {
    Element(page[i].tag, page[i].attrs, Contents(page, i, |page[i].content|))
  }

  /** The first `n` content pieces of node `i`, as values. */
  ghost function Contents(page: Page, i: nat, n: nat): seq<Item>
    requires TreeOk(page) && i < |page| && n <= |page[i].content|
    decreases |page| - i, 0, n
  {
    if n == 0 then [] else
      Contents(page, i, n - 1)
      + [match page[i].content[n - 1]
         case TextPiece(text) => Text(text)
         case ChildPiece(id) =>
           PieceIsChild(page, i, n - 1);
           ItemAt(page, id)]
  }

  lemma ChildIdsMember(content: seq<Piece>, k: nat)
    requires k < |content| && content[k].ChildPiece?
    ensures content[k].id in ChildIds(content)
  {
    if k >= |content| - 1 {
    } else {
      ChildIdsMember(content[..|content| - 1], k);
    }
  }

  lemma PieceIsChild(page: Page, i: nat, k: nat)
    requires TreeOk(page) && i < |page| && k < |page[i].content| && page[i].content[k].ChildPiece?
    ensures i < page[i].content[k].id < |page|
  {
    assert NodeOk(page, i);
    ChildIdsMember(page[i].content, k);
  }

  ghost predicate Printable(item: Item) {
    match item
    case Text(text) => !Blank(text)
    case Element(tag, _, content) =>
      && !IsSkipped(tag) && (IsVoid(tag) ==> content == [])
      && forall k :: 0 <= k < |content| ==> Printable(content[k])
  }

  ghost function EventsOf(item: Item): seq<Event> {
    match item
    case Text(text) => [Data(text)]
    case Element(tag, attrs, content) =>
      if IsVoid(tag) then [Start(tag, attrs)]
      else [Start(tag, attrs)] + EventsOfAll(content) + [End(tag)]
  }

  ghost function EventsOfAll(items: seq<Item>): seq<Event> {
    if items == [] then [] else EventsOf(items[0]) + EventsOfAll(items[1..])
  }

  /** `q` is `p` with nothing above `cut` changed, only more nodes at the end. */
  ghost predicate AgreeBeyond(p: Page, q: Page, cut: nat) {
    |p| <= |q| && forall k :: cut < k < |p| ==> q[k] == p[k]
  }

  lemma {:induction false} ItemUnchanged(p: Page, q: Page, cut: nat, i: nat)
    requires TreeOk(p) && TreeOk(q) && AgreeBeyond(p, q, cut) && cut < i < |p|
    ensures ItemAt(p, i) == ItemAt(q, i)
    decreases |p| - i, 1, 0
  {
    ContentsUnchanged(p, q, cut, i, |p[i].content|);
  }

  lemma {:induction false} ContentsUnchanged(p: Page, q: Page, cut: nat, i: nat, n: nat)
    requires TreeOk(p) && TreeOk(q) && AgreeBeyond(p, q, cut) && cut <= i < |p|
    requires n <= |p[i].content| && p[i].content <= q[i].content
    ensures Contents(p, i, n) == Contents(q, i, n)
    decreases |p| - i, 0, n
  {
    if n == 0 {
    } else {
      ContentsUnchanged(p, q, cut, i, n - 1);
      if p[i].content[n - 1].ChildPiece? {
        PieceIsChild(p, i, n - 1);
        ItemUnchanged(p, q, cut, p[i].content[n - 1].id);
      }
    }
  }

  /** Feeding grew the content at the cursor by `items` and touched nothing else that existed. */
  ghost predicate Grew(s: State, t: State, items: seq<Item>) {
    && StateOk(s) && StateOk(t)
    && t.current == s.current && s.skipDepth == t.skipDepth == 0
    && |s.page| <= |t.page|
    && (forall k :: 0 <= k < |s.page| && k != s.current ==> t.page[k] == s.page[k])
    && s.page[s.current].content <= t.page[s.current].content
    && s.page[s.current].tag == t.page[s.current].tag && s.page[s.current].attrs == t.page[s.current].attrs
    && s.page[s.current].parent == t.page[s.current].parent
    && Contents(t.page, s.current, |t.page[s.current].content|)
       == Contents(s.page, s.current, |s.page[s.current].content|) + items
  }

  lemma {:induction false} FeedAll(s: State, items: seq<Item>)
    requires StateOk(s) && s.skipDepth == 0
    requires forall k :: 0 <= k < |items| ==> Printable(items[k])
    ensures Grew(s, Run(s, EventsOfAll(items)), items)
    decreases items, 1
  {
    if items == [] {
    } else {
      var t, rest := Run(s, EventsOf(items[0])), EventsOfAll(items[1..]);
      FeedOne(s, items[0]);
      FeedAll(t, items[1..]);
      RunAppend(s, EventsOf(items[0]), rest);
      GrewTwice(s, t, Run(t, rest), [items[0]], items[1..]);
      assert items == [items[0]] + items[1..];
    }
  }

  lemma GrewTwice(s: State, t: State, u: State, some: seq<Item>, more: seq<Item>)
    requires Grew(s, t, some) && Grew(t, u, more)
    ensures Grew(s, u, some + more)
  {
    var c := s.current;
    var before := Contents(s.page, c, |s.page[c].content|);
    assert Contents(u.page, c, |u.page[c].content|) == before + some + more;
    assert before + some + more == before + (some + more);
  }

  lemma {:induction false} FeedOne(s: State, item: Item)
    requires StateOk(s) && s.skipDepth == 0 && Printable(item)
    ensures Grew(s, Run(s, EventsOf(item)), [item])
    decreases item, 0
  {
    match item
    case Text(text) => FeedText(s, text);
    case Element(tag, attrs, content) =>
      AttachKeepsTree(s, tag, attrs);
      var attached := Attach(s, tag, attrs);
      assert Step(s, Start(tag, attrs)) == attached;
      if IsVoid(tag) {
        assert Run(s, [Start(tag, attrs)]) == Run(attached, []);
        AttachedItem(s, tag, attrs, attached, []);
      } else {
        var filled := Run(attached, EventsOfAll(content));
        FeedAll(attached, content);
        var inner := EventsOfAll(content) + [End(tag)];
        assert EventsOf(item) == [Start(tag, attrs)] + inner;
        assert EventsOf(item)[1..] == inner;
        RunAppend(attached, EventsOfAll(content), [End(tag)]);
        StepKeepsTree(filled, End(tag));
        assert Run(filled, [End(tag)]) == Step(filled, End(tag));
        AttachedItem(s, tag, attrs, filled, content);
      }
  }

  lemma FeedText(s: State, text: string)
    requires StateOk(s) && s.skipDepth == 0 && !Blank(text)
    ensures Grew(s, Run(s, [Data(text)]), [Text(text)])
  {
    StepKeepsTree(s, Data(text));
    var t := Step(s, Data(text));
    assert Run(s, [Data(text)]) == t;
    ContentsUnchanged(s.page, t.page, s.current, s.current, |s.page[s.current].content|);
  }

  /** Closing the freshly attached and filled element leaves exactly one more item at the old cursor. */
  lemma AttachedItem(s: State, tag: string, attrs: Attrs, filled: State, content: seq<Item>)
    requires StateOk(s) && s.skipDepth == 0 && !IsSkipped(tag)
    requires StateOk(filled) && filled.skipDepth == 0
    requires StateOk(Attach(s, tag, attrs))
    requires if IsVoid(tag) then filled == Attach(s, tag, attrs) && content == []
             else Grew(Attach(s, tag, attrs), filled, content)
    ensures Grew(s, if IsVoid(tag) then filled else Step(filled, End(tag)), [Element(tag, attrs, content)])
  {
    var attached, id := Attach(s, tag, attrs), |s.page|;
    assert attached.page[id] == Node(tag, attrs, Some(s.current), [], []);
    assert Contents(attached.page, id, 0) == [];
    assert ItemAt(filled.page, id) == Element(tag, attrs, content);
    assert filled.page[s.current] == attached.page[s.current];
    ContentsUnchanged(s.page, filled.page, s.current, s.current, |s.page[s.current].content|);
    if !IsVoid(tag) {
      StepKeepsTree(filled, End(tag));
      assert Closest(filled.page, id, tag) == Some(id);
    }
  }

  /** Parsing undoes printing, for every printable forest. */
  lemma ParseUndoesPrint(items: seq<Item>)
    requires forall k :: 0 <= k < |items| ==> Printable(items[k])
    ensures ItemAt(Parse(EventsOfAll(items)).page, 0) == Element(ROOT_TAG, map[], items)
    ensures Parse(EventsOfAll(items)).current == 0
  {
    EmptyOk();
    FeedAll(EMPTY, items);
    GrewFromRoot(EMPTY, Parse(EventsOfAll(items)), items);
  }

  lemma GrewFromRoot(s: State, t: State, items: seq<Item>)
    requires s == EMPTY && Grew(s, t, items)
    ensures ItemAt(t.page, 0) == Element(ROOT_TAG, map[], items) && t.current == 0
  {
    var content := t.page[0].content;
    assert s.current == 0 && s.page[0] == Node(ROOT_TAG, map[], None, [], []);
    assert Contents(s.page, 0, 0) == [];
    assert Contents(t.page, 0, |content|) == [] + items;
  }

  lemma {:induction false} ItemsArePrintable(page: Page, i: nat)
    requires TreeOk(page) && i < |page|
    ensures Printable(ItemAt(page, i))
    decreases |page| - i, 1, 0
  {
    assert NodePrintable(page, i);
    ContentsArePrintable(page, i, |page[i].content|);
    assert |page[i].content| == 0 ==> Contents(page, i, 0) == [];
  }

  lemma {:induction false} ContentsArePrintable(page: Page, i: nat, n: nat)
    requires TreeOk(page) && i < |page| && n <= |page[i].content|
    ensures |Contents(page, i, n)| == n
    ensures forall k :: 0 <= k < n ==> Printable(Contents(page, i, n)[k])
    decreases |page| - i, 0, n
  {
    if n == 0 {
    } else {
      ContentsArePrintable(page, i, n - 1);
      assert NodePrintable(page, i);
      if page[i].content[n - 1].ChildPiece? {
        PieceIsChild(page, i, n - 1);
        ItemsArePrintable(page, page[i].content[n - 1].id);
      }
    }
  }

  /** Whatever the events, even unbalanced ones: printing the tree they gave and parsing it again gives that tree. */
  lemma ParsedTreesAreStable(events: seq<Event>)
    ensures
      var tree := ItemAt(Parse(events).page, 0);
      && tree.Element? && tree.tag == ROOT_TAG
      && ItemAt(Parse(EventsOfAll(tree.content)).page, 0).content == tree.content
  {
    var page := Parse(events).page;
    var tree := ItemAt(page, 0);
    ItemsArePrintable(page, 0);
    ParseUndoesPrint(tree.content);
  }

  // ----- skipped subtrees

  /** Seen from inside a skipped element at this depth, the events close all they open and never the element itself. */
  ghost predicate Balanced(events: seq<Event>, depth: nat) {
    if events == [] then depth == 1
    else match events[0]
      case Start(tag, _) => Balanced(events[1..], if IsSkipped(tag) then depth + 1 else depth)
      case End(tag) => if IsSkipped(tag) then depth > 1 && Balanced(events[1..], depth - 1)
        else Balanced(events[1..], depth)
      case Data(_) => Balanced(events[1..], depth)
  }

  lemma {:induction false} BalancedOnlyCounts(s: State, events: seq<Event>)
    requires StateOk(s) && s.skipDepth > 0 && Balanced(events, s.skipDepth)
    ensures Run(s, events) == s.(skipDepth := 1)
    decreases |events|
  {
    if events == [] {
    } else {
      BalancedOnlyCounts(Step(s, events[0]), events[1..]);
    }
  }

  /** A script, style, noscript or template element leaves no trace. */
  lemma SkippedSubtreeIsNoOp(s: State, tag: string, attrs: Attrs, inside: seq<Event>, closing: string)
    requires StateOk(s) && s.skipDepth == 0 && IsSkipped(tag) && IsSkipped(closing) && Balanced(inside, 1)
    ensures Run(s, [Start(tag, attrs)] + inside + [End(closing)]) == s
  {
    var within := s.(skipDepth := 1);
    StepKeepsTree(s, Start(tag, attrs));
    BalancedOnlyCounts(within, inside);
    RunAppend(within, inside, [End(closing)]);
    var events := [Start(tag, attrs)] + inside + [End(closing)];
    assert events[1..] == inside + [End(closing)];
    assert Run(within, [End(closing)]) == Run(Step(within, End(closing)), []);
  }
}
