/** Preorder walks and ancestors on a well-formed page. */
module PageTree {
  import opened HtmlTree
  import opened Wrappers

  /** `Node.walk`: the node and everything below it, in document order. */
  function Walk(page: Page, i: nat): seq<nat>
    requires TreeOk(page) && i < |page|
    decreases |page| - i, 1, 0
  {
    assert NodeOk(page, i);
    [i] + WalkChildren(page, i, |page[i].children|)
  }

  function WalkChildren(page: Page, i: nat, n: nat): seq<nat>
    requires TreeOk(page) && i < |page| && n <= |page[i].children|
    decreases |page| - i, 0, n
  {
    assert NodeOk(page, i);
    if n == 0 then [] else WalkChildren(page, i, n - 1) + Walk(page, page[i].children[n - 1])
  }

  function Parent(page: Page, i: nat): (r: Option<nat>)
    requires TreeOk(page) && i < |page|
    ensures r.Some? ==> r.value < i
  {
    assert NodeOk(page, i);
    page[i].parent
  }

  /** `i` is `j` or one of its ancestors. */
  predicate Above(page: Page, i: nat, j: nat)
    requires TreeOk(page) && j < |page|
    decreases j
  {
    i == j || (Parent(page, j).Some? && Above(page, i, Parent(page, j).value))
  }

  lemma {:induction false} AboveOrder(page: Page, i: nat, j: nat)
    requires TreeOk(page) && j < |page| && Above(page, i, j)
    ensures i <= j
    decreases j
  {
    if i == j {
    } else {
      AboveOrder(page, i, Parent(page, j).value);
    }
  }

  lemma {:induction false} AboveTransitive(page: Page, i: nat, j: nat, k: nat)
    requires TreeOk(page) && j < |page| && k < |page| && Above(page, i, j) && Above(page, j, k)
    ensures Above(page, i, k)
    decreases k
  {
    if j == k {
    } else {
      AboveTransitive(page, i, j, Parent(page, k).value);
    }
  }

  /** Two nodes above a common node are nested. */
  lemma {:induction false} AboveComparable(page: Page, i: nat, j: nat, k: nat)
    requires TreeOk(page) && i < |page| && j < |page| && k < |page| && Above(page, i, k) && Above(page, j, k)
    ensures Above(page, i, j) || Above(page, j, i)
    decreases k
  {
    if i == k || j == k {
    } else {
      AboveComparable(page, i, j, Parent(page, k).value);
    }
  }

  lemma {:induction false} RootIsAboveAll(page: Page, j: nat)
    requires TreeOk(page) && j < |page|
    ensures Above(page, 0, j)
    decreases j
  {
    assert NodeOk(page, j);
    if j == 0 {
    } else {
      RootIsAboveAll(page, Parent(page, j).value);
    }
  }

  // ----- which element an end tag closes

  /** `n` has the tag, lies at or above `i`, and no node between has the tag. */
  ghost predicate Nearest(page: Page, i: nat, tag: string, n: nat)
    requires TreeOk(page) && i < |page|
  {
    && n < |page| && Above(page, n, i) && page[n].tag == tag
    && forall m: nat :: m < |page| && m != n && Above(page, n, m) && Above(page, m, i) ==> page[m].tag != tag
  }

  lemma {:induction false} ClosestIff(page: Page, i: nat, tag: string, n: nat)
    requires TreeOk(page) && i < |page|
    ensures Closest(page, i, tag) == Some(n) <==> Nearest(page, i, tag, n)
    decreases i
  {
    assert NodeOk(page, i);
    assert Above(page, i, i);
    if page[i].tag == tag {
      NearestIsItself(page, i, tag);
    } else if page[i].parent.None? {
    } else {
      ClosestIff(page, page[i].parent.value, tag, n);
      NearestAbove(page, i, tag, n);
    }
  }

  lemma NearestIsItself(page: Page, i: nat, tag: string)
    requires TreeOk(page) && i < |page| && page[i].tag == tag
    ensures Nearest(page, i, tag, i)
  {
    forall m: nat | m < |page| && Above(page, i, m) && Above(page, m, i) ensures m == i {
      AboveOrder(page, i, m);
      AboveOrder(page, m, i);
    }
  }

  lemma NearestAbove(page: Page, i: nat, tag: string, n: nat)
    requires TreeOk(page) && i < |page| && page[i].tag != tag && Parent(page, i).Some?
    ensures Nearest(page, i, tag, n) <==> Nearest(page, Parent(page, i).value, tag, n)
  {
    var up := Parent(page, i).value;
    forall m: nat | m < |page| ensures Above(page, m, i) <==> m == i || Above(page, m, up) {
    }
  }

  /** Outside skipped elements an end tag closes the nearest open element of its kind, and what it holds. */
  lemma EndTagCloses(s: State, tag: string, n: nat)
    requires StateOk(s) && s.skipDepth == 0 && n != 0 && Nearest(s.page, s.current, tag, n)
    ensures Parent(s.page, n).Some? && Step(s, End(tag)) == s.(current := Parent(s.page, n).value)
  {
    ClosestIff(s.page, s.current, tag, n);
    assert NodeOk(s.page, n);
  }

  /** With no such element it is ignored; the root is never closed. */
  lemma StrayEndTagIsIgnored(s: State, tag: string)
    requires StateOk(s) && s.skipDepth == 0 && forall n :: n != 0 ==> !Nearest(s.page, s.current, tag, n)
    ensures Step(s, End(tag)) == s
  {
    var node := Closest(s.page, s.current, tag);
    if node.Some? {
      ClosestIff(s.page, s.current, tag, node.value);
      assert NodeOk(s.page, 0);
    }
  }

  /** The child of `i` on the way down to `j`. */
  lemma {:induction false} ChildTowards(page: Page, i: nat, j: nat) returns (n: nat)
    requires TreeOk(page) && i < |page| && j < |page| && Above(page, i, j) && i != j
    ensures n < |page[i].children| && page[i].children[n] < |page| && Above(page, page[i].children[n], j)
    decreases j
  {
    var up := Parent(page, j).value;
    if up == i {
      assert NodeOk(page, j);
      n :| 0 <= n < |page[i].children| && page[i].children[n] == j;
    } else {
      n := ChildTowards(page, i, up);
    }
  }

  lemma ChildIsBelow(page: Page, i: nat, n: nat)
    requires TreeOk(page) && i < |page| && n < |page[i].children|
    ensures i < page[i].children[n] < |page| && Parent(page, page[i].children[n]) == Some(i)
  {
    assert NodeOk(page, i);
  }

  /** Walking a node visits exactly what lies at or below it. */
  lemma {:induction false} WalkIsSubtree(page: Page, i: nat)
    requires TreeOk(page) && i < |page|
    ensures forall j: nat :: j in Walk(page, i) <==> j < |page| && Above(page, i, j)
    decreases |page| - i, 1, 0
  {
    var n := |page[i].children|;
    WalkChildrenIsBelow(page, i, n);
    forall j: nat ensures j in Walk(page, i) <==> j < |page| && Above(page, i, j) {
      if j < |page| && Above(page, i, j) && j != i {
        var k := ChildTowards(page, i, j);
        assert InChild(page, i, k, j);
      }
      if j in WalkChildren(page, i, n) {
        var k :| 0 <= k < n && InChild(page, i, k, j);
        ChildIsBelow(page, i, k);
        AboveTransitive(page, i, page[i].children[k], j);
      }
    }
  }

  predicate InChild(page: Page, i: nat, k: nat, j: nat)
    requires TreeOk(page) && i < |page| && k < |page[i].children|
  {
    ChildIsBelow(page, i, k);
    j < |page| && Above(page, page[i].children[k], j)
  }

  lemma {:induction false} WalkChildrenIsBelow(page: Page, i: nat, n: nat)
    requires TreeOk(page) && i < |page| && n <= |page[i].children|
    ensures forall j: nat :: j in WalkChildren(page, i, n) <==> exists k :: 0 <= k < n && InChild(page, i, k, j)
    decreases |page| - i, 0, n
  {
    if n == 0 {
    } else {
      ChildIsBelow(page, i, n - 1);
      WalkChildrenIsBelow(page, i, n - 1);
      WalkIsSubtree(page, page[i].children[n - 1]);
      forall j: nat ensures j in WalkChildren(page, i, n) <==> exists k :: 0 <= k < n && InChild(page, i, k, j) {
        if j in WalkChildren(page, i, n) && j !in WalkChildren(page, i, n - 1) {
          assert j in Walk(page, page[i].children[n - 1]);
          assert InChild(page, i, n - 1, j);
        }
      }
    }
  }

  predicate InPage(page: Page, nodes: seq<nat>) {
    forall k :: 0 <= k < |nodes| ==> nodes[k] < |page|
  }

  ghost predicate Distinct<T>(s: seq<T>) {
    forall i, j :: 0 <= i < j < |s| ==> s[i] != s[j]
  }

  lemma DistinctAppend<T>(s: seq<T>, t: seq<T>)
    requires Distinct(s) && Distinct(t) && forall x :: x in s ==> x !in t
    ensures Distinct(s + t)
  {
    forall i, j | 0 <= i < j < |s + t| ensures (s + t)[i] != (s + t)[j] {
      if i < |s| <= j {
        assert s[i] in s && t[j - |s|] in t;
      }
    }
  }

  lemma SiblingsAreApart(page: Page, i: nat, k: nat, n: nat, j: nat)
    requires TreeOk(page) && i < |page| && k < n < |page[i].children|
    requires InChild(page, i, k, j)
    ensures !InChild(page, i, n, j)
  {
    ChildIsBelow(page, i, k);
    ChildIsBelow(page, i, n);
    assert NodeOk(page, i);
    var c, d := page[i].children[k], page[i].children[n];
    if InChild(page, i, n, j) {
      AboveComparable(page, c, d, j);
      if Above(page, c, d) {
        AboveOrder(page, c, i);
      } else {
        AboveOrder(page, d, i);
      }
    }
  }

  lemma {:induction false} WalkVisitsOnce(page: Page, i: nat)
    requires TreeOk(page) && i < |page|
    ensures Distinct(Walk(page, i))
    decreases |page| - i, 1, 0
  {
    var n := |page[i].children|;
    WalkChildrenVisitsOnce(page, i, n);
    WalkChildrenIsBelow(page, i, n);
    if i in WalkChildren(page, i, n) {
      var k :| 0 <= k < n && InChild(page, i, k, i);
      ChildIsBelow(page, i, k);
      AboveOrder(page, page[i].children[k], i);
    }
    DistinctAppend([i], WalkChildren(page, i, n));
  }

  lemma {:induction false} WalkChildrenVisitsOnce(page: Page, i: nat, n: nat)
    requires TreeOk(page) && i < |page| && n <= |page[i].children|
    ensures Distinct(WalkChildren(page, i, n))
    decreases |page| - i, 0, n
  {
    if n == 0 {
    } else {
      ChildIsBelow(page, i, n - 1);
      var c := page[i].children[n - 1];
      WalkChildrenVisitsOnce(page, i, n - 1);
      WalkVisitsOnce(page, c);
      WalkChildrenIsBelow(page, i, n - 1);
      WalkIsSubtree(page, c);
      forall j: nat | j in WalkChildren(page, i, n - 1) ensures j !in Walk(page, c) {
        var k :| 0 <= k < n - 1 && InChild(page, i, k, j);
        SiblingsAreApart(page, i, k, n - 1, j);
      }
      DistinctAppend(WalkChildren(page, i, n - 1), Walk(page, c));
    }
  }

  /** The subtrees of two nodes share no node. */
  ghost predicate Apart(page: Page, i: nat, j: nat)
    requires TreeOk(page) && i < |page| && j < |page|
  {
    forall k: nat :: k in Walk(page, i) ==> k !in Walk(page, j)
  }

  /** Two subtrees share a node exactly when one root lies above the other. */
  lemma DisjointUnlessNested(page: Page, i: nat, j: nat)
    requires TreeOk(page) && i < |page| && j < |page|
    ensures Apart(page, i, j) <==> !Above(page, i, j) && !Above(page, j, i)
  {
    WalkIsSubtree(page, i);
    WalkIsSubtree(page, j);
    if k :| k in Walk(page, i) && k in Walk(page, j) {
      AboveComparable(page, i, j, k);
    }
    assert i in Walk(page, i) && j in Walk(page, j);
  }
}
