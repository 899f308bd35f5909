/**
 * Grouping of vacancies for leak-free dataset folds: a union-find with path halving over a
 * parent dictionary, and the proof that it computes connected components.
 */
module VacancyGroups {
  import opened TextOrder
  import opened Wrappers

  type Parents = map<string, string>
  type Links = set<(string, string)>

  // ----- the parent dictionary as a forest

  ghost predicate PointsDown(p: Parents, x: string) {
    x in p && p[x] in p && Leq(p[x], x)
  }

  /** Parents never point upwards in the id order, so following them ends. */
  ghost predicate Forest(p: Parents) {
    forall x {:trigger PointsDown(p, x)} :: x in p ==> PointsDown(p, x)
  }

  ghost function Below(p: Parents, x: string): set<string> {
    set k | k in p.Keys && Lt(k, x)
  }

  lemma BelowShrinks(p: Parents, x: string)
    requires PointsDown(p, x) && p[x] != x
    ensures Below(p, p[x]) < Below(p, x)
  {
    forall k | k in Below(p, p[x]) ensures k in Below(p, x) {
      LtTransitive(k, p[x], x);
    }
    assert p[x] in Below(p, x);
  }

  ghost function Root(p: Parents, x: string): string
    requires Forest(p) && x in p
    decreases Below(p, x)
  {
    assert PointsDown(p, x);
    if p[x] == x then x else
      BelowShrinks(p, x);
      Root(p, p[x])
  }

  ghost function Roots(p: Parents): map<string, string>
    requires Forest(p)
  {
    map x | x in p :: Root(p, x)
  }

  lemma {:induction false} RootIsLeastAncestor(p: Parents, x: string)
    requires Forest(p) && x in p
    ensures Root(p, x) in p && p[Root(p, x)] == Root(p, x) && Leq(Root(p, x), x)
    ensures Root(p, Root(p, x)) == Root(p, x)
    decreases Below(p, x)
  {
    assert PointsDown(p, x);
    if p[x] == x {
      LeqReflexive(x);
    } else {
      BelowShrinks(p, x);
      RootIsLeastAncestor(p, p[x]);
      LeqTransitive(Root(p, p[x]), p[x], x);
    }
  }

  /** One halving step `parent[x] = parent[parent[x]]` moves no root. */
  lemma HalvingKeepsRoots(p: Parents, x: string)
    requires Forest(p) && PointsDown(p, x) && PointsDown(p, p[x])
    ensures Forest(p[x := p[p[x]]])
    ensures Roots(p[x := p[p[x]]]) == Roots(p)
  {
    var q := p[x := p[p[x]]];
    forall y | y in q ensures PointsDown(q, y) {
      assert PointsDown(p, y);
      LeqTransitive(p[p[x]], p[x], x);
    }
    forall k | k in p ensures Root(q, k) == Root(p, k) {
      HalvingKeepsRoot(p, x, k);
    }
  }

  lemma {:induction false} HalvingKeepsRoot(p: Parents, x: string, k: string)
    requires Forest(p) && PointsDown(p, x) && PointsDown(p, p[x]) && k in p
    requires Forest(p[x := p[p[x]]])
    ensures Root(p[x := p[p[x]]], k) == Root(p, k)
    decreases Below(p, k)
  {
    var q := p[x := p[p[x]]];
    assert PointsDown(p, k);
    if p[k] == k {
      assert q[k] == k;
    } else {
      BelowShrinks(p, k);
      if k == x && p[p[x]] != p[x] {
        BelowShrinks(p, p[x]);
        if p[p[x]] == x {
          LeqAntisymmetric(p[x], x);
        }
        HalvingKeepsRoot(p, x, p[p[x]]);
      } else {
        HalvingKeepsRoot(p, x, p[k]);
      }
    }
  }

  /** The classes of `a` and `b` merged under the smaller root. */
  ghost function Joined(roots: map<string, string>, a: string, b: string): map<string, string>
    requires a in roots && b in roots
  {
    map k | k in roots ::
      if roots[k] == roots[a] || roots[k] == roots[b] then Min(roots[a], roots[b]) else roots[k]
  }

  lemma LinkingJoins(p: Parents, ra: string, rb: string)
    requires Forest(p) && ra in p && rb in p && ra != rb && p[ra] == ra && p[rb] == rb
    ensures Forest(p[Max(ra, rb) := Min(ra, rb)])
    ensures Roots(p[Max(ra, rb) := Min(ra, rb)]) == Joined(Roots(p), ra, rb)
  {
    var q := p[Max(ra, rb) := Min(ra, rb)];
    forall y | y in q ensures PointsDown(q, y) {
      assert PointsDown(p, y);
      LeqTotal(ra, rb);
    }
    forall k | k in p
      ensures Root(q, k) == if Root(p, k) == ra || Root(p, k) == rb then Min(ra, rb) else Root(p, k)
    {
      LinkingRoots(p, ra, rb, k);
    }
  }

  lemma {:induction false} LinkingRoots(p: Parents, ra: string, rb: string, k: string)
    requires Forest(p) && ra in p && rb in p && k in p && ra != rb && p[ra] == ra && p[rb] == rb
    requires Forest(p[Max(ra, rb) := Min(ra, rb)])
    ensures Root(p[Max(ra, rb) := Min(ra, rb)], k)
         == if Root(p, k) == ra || Root(p, k) == rb then Min(ra, rb) else Root(p, k)
    decreases Below(p, k)
  {
    assert PointsDown(p, k);
    if p[k] == k {
    } else {
      BelowShrinks(p, k);
      LinkingRoots(p, ra, rb, p[k]);
    }
  }

  class UnionFind {
    var parent: Parents

    constructor (vacancies: set<string>)
      ensures Forest(parent) && parent.Keys == vacancies
      ensures Roots(parent) == map v | v in vacancies :: v
    {
      parent := map v | v in vacancies :: v;
      new;
      forall v | v in vacancies ensures PointsDown(parent, v) {
        LeqReflexive(v);
      }
    }

    /** Path halving: rewrites parents on the way up, and no root moves. */
    method Find(start: string) returns (item: string)
      requires Forest(parent) && start in parent
      modifies this
      ensures Forest(parent) && Roots(parent) == old(Roots(parent)) && parent.Keys == old(parent.Keys)
      ensures item in parent && item == Roots(parent)[start] == parent[item]
    {
      item := start;
      while parent[item] != item
        invariant Forest(parent) && Roots(parent) == old(Roots(parent)) && parent.Keys == old(parent.Keys)
        invariant item in parent && Root(parent, item) == old(Roots(parent))[start]
        decreases Below(parent, item)
      {
        HalvingStep(parent, item);
        parent := parent[item := parent[parent[item]]];
        item := parent[item];
      }
    }

    /** Links the larger of the two roots below the smaller one. */
    method Union(a: string, b: string)
      requires Forest(parent) && a in parent && b in parent
      modifies this
      ensures Forest(parent) && parent.Keys == old(parent.Keys)
      ensures Roots(parent) == old(Joined(Roots(parent), a, b))
    {
      var rootA := Find(a);
      var rootB := Find(b);
      UnionStep(parent, a, b);
      if rootA != rootB {
        parent := parent[Max(rootA, rootB) := Min(rootA, rootB)];
      }
    }
  }

  lemma HalvingStep(p: Parents, x: string)
    requires Forest(p) && x in p && p[x] != x
    ensures p[x] in p && p[p[x]] in p
    ensures
      var q := p[x := p[p[x]]];
      && Forest(q) && Roots(q) == Roots(p)
      && Root(q, q[x]) == Root(p, x)
      && Below(q, q[x]) < Below(p, x)
  {
    assert PointsDown(p, x) && PointsDown(p, p[x]);
    HalvingKeepsRoots(p, x);
    BelowShrinks(p, x);
    if p[p[x]] != p[x] {
      BelowShrinks(p, p[x]);
    }
    var q := p[x := p[p[x]]];
    assert Below(q, q[x]) == Below(p, p[p[x]]);
    assert Root(q, q[x]) == Roots(q)[q[x]] == Roots(p)[p[p[x]]];
  }

  lemma UnionStep(p: Parents, a: string, b: string)
    requires Forest(p) && a in p && b in p
    ensures
      var ra, rb := Root(p, a), Root(p, b);
      var q := if ra == rb then p else p[Max(ra, rb) := Min(ra, rb)];
      Forest(q) && Roots(q) == Joined(Roots(p), a, b)
  {
    var ra, rb := Root(p, a), Root(p, b);
    RootIsLeastAncestor(p, a);
    RootIsLeastAncestor(p, b);
    if ra != rb {
      LinkingJoins(p, ra, rb);
      assert Roots(p)[ra] == ra && Roots(p)[rb] == rb;
    }
  }

  // ----- connectivity

  predicate Adjacent(links: Links, a: string, b: string) {
    (a, b) in links || (b, a) in links
  }

  ghost predicate Path(links: Links, path: seq<string>, a: string, b: string) {
    && path != [] && path[0] == a && path[|path| - 1] == b
    && forall i :: 0 <= i < |path| - 1 ==> Adjacent(links, path[i], path[i + 1])
  }

  ghost predicate Connected(links: Links, a: string, b: string) {
    exists path :: Path(links, path, a, b)
  }

  lemma ConnectedReflexive(links: Links, a: string)
    ensures Connected(links, a, a)
  {
    assert Path(links, [a], a, a);
  }

  lemma ConnectedByLink(links: Links, a: string, b: string)
    requires Adjacent(links, a, b)
    ensures Connected(links, a, b)
  {
    assert Path(links, [a, b], a, b);
  }

  lemma ConnectedTransitive(links: Links, a: string, b: string, c: string)
    requires Connected(links, a, b) && Connected(links, b, c)
    ensures Connected(links, a, c)
  {
    var ab :| Path(links, ab, a, b);
    var bc :| Path(links, bc, b, c);
    var ac := ab + bc[1..];
    forall i | 0 <= i < |ac| - 1 ensures Adjacent(links, ac[i], ac[i + 1]) {
      if i >= |ab| - 1 {
        assert ac[i] == bc[i - |ab| + 1] && ac[i + 1] == bc[i - |ab| + 2];
      }
    }
    assert Path(links, ac, a, c);
  }

  lemma ConnectedSymmetric(links: Links, a: string, b: string)
    requires Connected(links, a, b)
    ensures Connected(links, b, a)
  {
    var ab :| Path(links, ab, a, b);
    var ba := seq(|ab|, i requires 0 <= i < |ab| => ab[|ab| - 1 - i]);
    forall i | 0 <= i < |ba| - 1 ensures Adjacent(links, ba[i], ba[i + 1]) {
      var j := |ab| - 2 - i;
      assert Adjacent(links, ab[j], ab[j + 1]);
    }
    assert Path(links, ba, b, a);
  }

  /** Links that only join already connected ends add no connection. */
  lemma {:induction false} ConnectedWithin(links: Links, more: Links, path: seq<string>, a: string, b: string)
    requires forall l :: l in links ==> Connected(more, l.0, l.1)
    requires Path(links, path, a, b)
    ensures Connected(more, a, b)
    decreases |path|
  {
    if |path| == 1 {
      ConnectedReflexive(more, a);
    } else {
      var next := path[1];
      assert Adjacent(links, path[0], path[1]);
      if (a, next) in links {
        assert Connected(more, (a, next).0, (a, next).1);
      } else {
        assert Connected(more, (next, a).0, (next, a).1);
        ConnectedSymmetric(more, next, a);
      }
      ConnectedWithin(links, more, path[1..], next, b);
      ConnectedTransitive(more, a, next, b);
    }
  }

  lemma ConnectedMonotone(links: Links, more: Links, a: string, b: string)
    requires links <= more && Connected(links, a, b)
    ensures Connected(more, a, b)
  {
    forall l | l in links ensures Connected(more, l.0, l.1) {
      assert (l.0, l.1) in more;
      ConnectedByLink(more, l.0, l.1);
    }
    var path :| Path(links, path, a, b);
    ConnectedWithin(links, more, path, a, b);
  }

  ghost predicate Within(links: Links, vacancies: set<string>) {
    forall l :: l in links ==> l.0 in vacancies && l.1 in vacancies
  }

  // ----- roots are components

  /** Two vacancies have the same root exactly when the links connect them. */
  ghost predicate Components(roots: map<string, string>, links: Links) {
    && Within(links, roots.Keys)
    && forall a, b :: a in roots && b in roots ==> (roots[a] == roots[b] <==> Connected(links, a, b))
  }

  lemma {:induction false} ConnectedHaveOneRoot(
      roots: map<string, string>, links: Links, path: seq<string>, a: string, b: string)
    requires Within(links, roots.Keys) && a in roots
    requires forall l :: l in links ==> roots[l.0] == roots[l.1]
    requires Path(links, path, a, b)
    ensures b in roots && roots[a] == roots[b]
    decreases |path|
  {
    if |path| <= 1 {
    } else {
      assert Adjacent(links, path[0], path[1]);
      var next := path[1];
      if (a, next) in links {
        assert roots[(a, next).0] == roots[(a, next).1];
      } else {
        assert roots[(next, a).0] == roots[(next, a).1];
      }
      ConnectedHaveOneRoot(roots, links, path[1..], next, b);
    }
  }

  lemma NoLinksNoMerging(vacancies: set<string>)
    ensures Components(map v | v in vacancies :: v, {})
  {
    var roots := map v | v in vacancies :: v;
    forall a, b | a in roots && b in roots ensures roots[a] == roots[b] <==> Connected({}, a, b) {
      if Connected({}, a, b) {
        var path :| Path({}, path, a, b);
        ConnectedHaveOneRoot(roots, {}, path, a, b);
      } else if a == b {
        ConnectedReflexive({}, a);
      }
    }
  }

  lemma JoiningAddsOneLink(roots: map<string, string>, links: Links, a: string, b: string)
    requires Components(roots, links) && a in roots && b in roots
    requires roots[a] in roots && roots[roots[a]] == roots[a] && roots[b] in roots && roots[roots[b]] == roots[b]
    ensures Components(Joined(roots, a, b), links + {(a, b)})
  {
    var more, joined := links + {(a, b)}, Joined(roots, a, b);
    forall l | l in more ensures joined[l.0] == joined[l.1] {
      if l in links {
        assert (l.0, l.1) in links;
        ConnectedByLink(links, l.0, l.1);
      }
    }
    forall x, y | x in joined && y in joined ensures joined[x] == joined[y] <==> Connected(more, x, y) {
      if Connected(more, x, y) {
        var path :| Path(more, path, x, y);
        ConnectedHaveOneRoot(joined, more, path, x, y);
      }
      if joined[x] == joined[y] {
        OneRootAfterJoining(roots, links, a, b, x, y);
      }
    }
  }

  lemma OneRootAfterJoining(roots: map<string, string>, links: Links, a: string, b: string, x: string, y: string)
    requires Components(roots, links) && a in roots && b in roots && x in roots && y in roots
    requires roots[a] in roots && roots[roots[a]] == roots[a] && roots[b] in roots && roots[roots[b]] == roots[b]
    requires Joined(roots, a, b)[x] == Joined(roots, a, b)[y]
    ensures Connected(links + {(a, b)}, x, y)
  {
    var more := links + {(a, b)};
    if roots[x] == roots[y] {
      ConnectedMonotone(links, more, x, y);
    } else {
      var u, v := if roots[x] == roots[a] then a else b, if roots[y] == roots[a] then a else b;
      ConnectedMonotone(links, more, x, u);
      assert (a, b) in more;
      ConnectedByLink(more, u, v);
      ConnectedMonotone(links, more, v, y);
      ConnectedTransitive(more, x, u, v);
      ConnectedTransitive(more, x, v, y);
    }
  }

  lemma UnionKeepsComponents(p: Parents, links: Links, a: string, b: string)
    requires Forest(p) && a in p && b in p && Components(Roots(p), links)
    ensures Components(Joined(Roots(p), a, b), links + {(a, b)})
  {
    RootIsLeastAncestor(p, a);
    RootIsLeastAncestor(p, b);
    JoiningAddsOneLink(Roots(p), links, a, b);
  }

  // ----- group_vacancies

  predicate SameCompany(companies: map<string, string>, normalize: string -> string, a: string, b: string) {
    && a in companies && b in companies
    && normalize(companies[a]) == normalize(companies[b]) != ""
  }

  predicate Judged(companies: map<string, string>, pairs: seq<(string, string)>, a: string, b: string) {
    a in companies && b in companies && (a, b) in pairs
  }

  ghost function JudgedLinks(companies: map<string, string>, pairs: seq<(string, string)>): Links {
    set l | l in pairs && l.0 in companies && l.1 in companies
  }

  /** What must travel together: one known company, or a pair a person judged head to head. */
  function Relation(companies: map<string, string>, normalize: string -> string, pairs: seq<(string, string)>): Links {
    set a, b | a in companies && b in companies
               && (SameCompany(companies, normalize, a, b) || Judged(companies, pairs, a, b)) :: (a, b)
  }

  /** The group of `a` is named by one of its own members, and by the least of them. */
  ghost predicate NamedByLeast(groups: map<string, string>, a: string)
    requires a in groups
  {
    && groups[a] in groups && groups[groups[a]] == groups[a]
    && forall b :: b in groups && groups[b] == groups[a] ==> Leq(groups[a], b)
  }

  ghost predicate LeastMembers(groups: map<string, string>) {
    forall a {:trigger NamedByLeast(groups, a)} :: a in groups ==> NamedByLeast(groups, a)
  }

  /** Groups are exactly the connected components, each named by its least member. */
  ghost predicate IsGrouping(
      groups: map<string, string>, companies: map<string, string>, normalize: string -> string,
      pairs: seq<(string, string)>)
  {
    && groups.Keys == companies.Keys
    && Components(groups, Relation(companies, normalize, pairs))
    && LeastMembers(groups)
  }

  method GroupVacancies(companies: Dict<string, string>, normalize: string -> string, pairs: seq<(string, string)>)
    returns (groups: Dict<string, string>)
    requires companies.Valid()
    ensures groups.order == companies.order && groups.Valid()
    ensures IsGrouping(groups.at, companies.at, normalize, pairs)
  {
    var forest := new UnionFind(companies.at.Keys);
    NoLinksNoMerging(companies.at.Keys);
    ghost var companyLinks, byCompany, done := MergeCompanies(forest, companies, normalize);
    ghost var links := MergeJudgedPairs(forest, companyLinks, companies.at, pairs);
    LinksSpanRelation(links, companyLinks, byCompany, done, companies.at, normalize, pairs);
    RootsAreGrouping(forest.parent, links, companies.at, normalize, pairs);
    groups := ReadGroups(forest, companies);
  }

  lemma RootsAreGrouping(
      p: Parents, links: Links, companies: map<string, string>, normalize: string -> string,
      pairs: seq<(string, string)>)
    requires Forest(p) && p.Keys == companies.Keys && Components(Roots(p), links)
    requires forall a, b :: Connected(links, a, b) <==> Connected(Relation(companies, normalize, pairs), a, b)
    ensures IsGrouping(Roots(p), companies, normalize, pairs)
  {
    RootsNameLeastMembers(p);
  }

  method MergeCompanies(forest: UnionFind, companies: Dict<string, string>, normalize: string -> string)
    returns (ghost links: Links, byCompany: map<string, string>, ghost done: seq<string>)
    requires companies.Valid() && Forest(forest.parent) && forest.parent.Keys == companies.at.Keys
    requires Components(Roots(forest.parent), {})
    modifies forest
    ensures Forest(forest.parent) && forest.parent.Keys == companies.at.Keys
    ensures Components(Roots(forest.parent), links)
    ensures forall v :: v in done <==> v in companies.at
    ensures CompanyIndex(links, byCompany, done, companies.at, normalize)
    ensures FirstIsLeast(byCompany, done, companies.at, normalize)
  {
    var vacancies := Sorted(companies.order);
    SortedMembers(companies.order);
    SortedAscends(companies.order);
    done := vacancies;
    links, byCompany := MergeInOrder(forest, companies.at, normalize, vacancies);
  }

  method MergeInOrder(forest: UnionFind, companies: map<string, string>, normalize: string -> string,
      vacancies: seq<string>)
    returns (ghost links: Links, byCompany: map<string, string>)
    requires Forest(forest.parent) && forest.parent.Keys == companies.Keys
    requires Components(Roots(forest.parent), {}) && forall v :: v in vacancies ==> v in companies
    requires Ascending(vacancies)
    modifies forest
    ensures Forest(forest.parent) && forest.parent.Keys == companies.Keys
    ensures Components(Roots(forest.parent), links)
    ensures CompanyIndex(links, byCompany, vacancies, companies, normalize)
    ensures FirstIsLeast(byCompany, vacancies, companies, normalize)
  {
    links, byCompany := {}, map[];
    for i := 0 to |vacancies|
      invariant Forest(forest.parent) && forest.parent.Keys == companies.Keys
      invariant Components(Roots(forest.parent), links)
      invariant CompanyIndex(links, byCompany, vacancies[..i], companies, normalize)
      invariant FirstIsLeast(byCompany, vacancies[..i], companies, normalize)
    {
      assert vacancies[..i + 1] == vacancies[..i] + [vacancies[i]];
      FirstStaysLeast(byCompany, vacancies, i, companies, normalize);
      links, byCompany := MergeCompany(forest, links, byCompany, vacancies[..i], companies, normalize, vacancies[i]);
    }
    assert vacancies[..|vacancies|] == vacancies;
  }

  method MergeCompany(
      forest: UnionFind, ghost links: Links, byCompany: map<string, string>, ghost done: seq<string>,
      companies: map<string, string>, normalize: string -> string, vacancy: string)
    returns (ghost more: Links, index: map<string, string>)
    requires Forest(forest.parent) && forest.parent.Keys == companies.Keys
    requires Components(Roots(forest.parent), links)
    requires CompanyIndex(links, byCompany, done, companies, normalize) && vacancy in companies
    modifies forest
    ensures Forest(forest.parent) && forest.parent.Keys == companies.Keys
    ensures Components(Roots(forest.parent), more)
    ensures CompanyIndex(more, index, done + [vacancy], companies, normalize)
    ensures index == Indexed(byCompany, companies, normalize, vacancy)
  {
    more, index := links, byCompany;
    var key := normalize(companies[vacancy]);
    if key == "" {
      // an unknown company glues nothing
      IndexSkipsUnknown(links, byCompany, done, companies, normalize, vacancy);
    } else if key in byCompany {
      UnionKeepsComponents(forest.parent, links, vacancy, byCompany[key]);
      IndexGainsMember(links, byCompany, done, companies, normalize, vacancy);
      forest.Union(vacancy, byCompany[key]);
      more := links + {(vacancy, byCompany[key])};
    } else {
      IndexGainsCompany(links, byCompany, done, companies, normalize, vacancy);
      index := byCompany[key := vacancy];
    }
  }

  method MergeJudgedPairs(
      forest: UnionFind, ghost companyLinks: Links, ghost companies: map<string, string>, pairs: seq<(string, string)>)
    returns (ghost links: Links)
    requires Forest(forest.parent) && forest.parent.Keys == companies.Keys
    requires Components(Roots(forest.parent), companyLinks)
    modifies forest
    ensures Forest(forest.parent) && forest.parent.Keys == companies.Keys
    ensures Components(Roots(forest.parent), links)
    ensures links == companyLinks + JudgedLinks(companies, pairs)
  {
    links := companyLinks;
    for i := 0 to |pairs|
      invariant Forest(forest.parent) && forest.parent.Keys == companies.Keys
      invariant Components(Roots(forest.parent), links)
      invariant links == companyLinks + JudgedLinks(companies, pairs[..i])
    {
      var (a, b) := pairs[i];
      assert pairs[..i + 1] == pairs[..i] + [(a, b)];
      if a in forest.parent && b in forest.parent {
        UnionKeepsComponents(forest.parent, links, a, b);
        forest.Union(a, b);
        links := links + {(a, b)};
      }
    }
    assert pairs[..|pairs|] == pairs;
  }

  method ReadGroups(forest: UnionFind, companies: Dict<string, string>) returns (groups: Dict<string, string>)
    requires companies.Valid() && Forest(forest.parent) && forest.parent.Keys == companies.at.Keys
    modifies forest
    ensures groups.order == companies.order && groups.at == old(Roots(forest.parent))
  {
    ghost var roots := Roots(forest.parent);
    var found: map<string, string> := map[];
    for i := 0 to |companies.order|
      invariant Forest(forest.parent) && Roots(forest.parent) == roots && forest.parent.Keys == companies.at.Keys
      invariant found == Restricted(roots, companies.order[..i])
    {
      RestrictedGrows(roots, companies.order, i);
      var root := forest.Find(companies.order[i]);
      found := found[companies.order[i] := root];
    }
    RestrictedToAll(roots, companies.order);
    groups := Dict(companies.order, found);
  }

  ghost function Restricted(roots: map<string, string>, names: seq<string>): map<string, string> {
    map v | v in names && v in roots :: roots[v]
  }

  lemma RestrictedGrows(roots: map<string, string>, names: seq<string>, i: nat)
    requires i < |names| && names[i] in roots
    ensures Restricted(roots, names[..i + 1]) == Restricted(roots, names[..i])[names[i] := roots[names[i]]]
  {
    assert names[..i + 1] == names[..i] + [names[i]];
  }

  lemma RestrictedToAll(roots: map<string, string>, names: seq<string>)
    requires forall v :: v in names <==> v in roots
    ensures Restricted(roots, names[..|names|]) == roots && Restricted(roots, names[..0]) == map[]
  {
    assert names[..|names|] == names;
  }

  lemma RootsNameLeastMembers(p: Parents)
    requires Forest(p)
    ensures LeastMembers(Roots(p))
  {
    forall x | x in p ensures NamedByLeast(Roots(p), x) {
      RootIsLeastAncestor(p, x);
      forall y | y in p && Root(p, y) == Root(p, x) ensures Leq(Root(p, x), y) {
        RootIsLeastAncestor(p, y);
      }
    }
  }

  /** The company index after the vacancies in `done`: its links stay inside companies and join each to its first. */
  ghost predicate CompanyIndex(
      links: Links, byCompany: map<string, string>, done: seq<string>,
      companies: map<string, string>, normalize: string -> string)
  {
    && (forall l :: l in links ==> SameCompany(companies, normalize, l.0, l.1))
    && (forall key :: key in byCompany ==>
          byCompany[key] in companies && normalize(companies[byCompany[key]]) == key != "")
    && (forall v :: v in done && v in companies && normalize(companies[v]) != "" ==>
          normalize(companies[v]) in byCompany && Connected(links, v, byCompany[normalize(companies[v])]))
  }

  /** `by_company` after one more vacancy. */
  function Indexed(byCompany: map<string, string>, companies: map<string, string>, normalize: string -> string,
      vacancy: string)
    : map<string, string>
    requires vacancy in companies
  {
    var key := normalize(companies[vacancy]);
    if key == "" || key in byCompany then byCompany else byCompany[key := vacancy]
  }

  /** A company's entry is the least of its vacancies so far. */
  ghost predicate FirstIsLeast(
      byCompany: map<string, string>, done: seq<string>, companies: map<string, string>, normalize: string -> string)
  {
    && (forall key :: key in byCompany ==> byCompany[key] in done)
    && (forall v :: v in done && v in companies && normalize(companies[v]) in byCompany ==>
          Leq(byCompany[normalize(companies[v])], v))
  }

  lemma FirstStaysLeast(
      byCompany: map<string, string>, vacancies: seq<string>, i: nat, companies: map<string, string>,
      normalize: string -> string)
    requires i < |vacancies| && Ascending(vacancies) && vacancies[i] in companies
    requires FirstIsLeast(byCompany, vacancies[..i], companies, normalize)
    requires forall v :: v in vacancies[..i] && v in companies && normalize(companies[v]) != "" ==>
      normalize(companies[v]) in byCompany
    ensures FirstIsLeast(Indexed(byCompany, companies, normalize, vacancies[i]), vacancies[..i + 1], companies,
      normalize)
  {
    var vacancy := vacancies[i];
    var more := Indexed(byCompany, companies, normalize, vacancy);
    assert vacancies[..i + 1] == vacancies[..i] + [vacancy];
    LeqReflexive(vacancy);
    forall v | v in vacancies[..i + 1] && v in companies && normalize(companies[v]) in more
      ensures Leq(more[normalize(companies[v])], v)
    {
      if v == vacancy && normalize(companies[v]) in byCompany {
        var first := byCompany[normalize(companies[v])];
        var k :| 0 <= k < i && vacancies[..i][k] == first;
        assert Leq(vacancies[k], vacancies[i]);
      }
    }
  }

  lemma IndexSkipsUnknown(
      links: Links, byCompany: map<string, string>, done: seq<string>,
      companies: map<string, string>, normalize: string -> string, vacancy: string)
    requires CompanyIndex(links, byCompany, done, companies, normalize)
    requires vacancy in companies && normalize(companies[vacancy]) == ""
    ensures CompanyIndex(links, byCompany, done + [vacancy], companies, normalize)
  {
  }

  lemma IndexGainsCompany(
      links: Links, byCompany: map<string, string>, done: seq<string>,
      companies: map<string, string>, normalize: string -> string, vacancy: string)
    requires CompanyIndex(links, byCompany, done, companies, normalize)
    requires vacancy in companies && normalize(companies[vacancy]) != ""
    requires normalize(companies[vacancy]) !in byCompany
    ensures CompanyIndex(links, byCompany[normalize(companies[vacancy]) := vacancy], done + [vacancy], companies,
      normalize)
  {
    ConnectedReflexive(links, vacancy);
  }

  lemma IndexGainsMember(
      links: Links, byCompany: map<string, string>, done: seq<string>,
      companies: map<string, string>, normalize: string -> string, vacancy: string)
    requires CompanyIndex(links, byCompany, done, companies, normalize)
    requires vacancy in companies && normalize(companies[vacancy]) in byCompany
    ensures
      var more := links + {(vacancy, byCompany[normalize(companies[vacancy])])};
      CompanyIndex(more, byCompany, done + [vacancy], companies, normalize)
  {
    var link := (vacancy, byCompany[normalize(companies[vacancy])]);
    var more := links + {link};
    assert link in more;
    ConnectedByLink(more, link.0, link.1);
    forall v | v in done && v in companies && normalize(companies[v]) != ""
      ensures Connected(more, v, byCompany[normalize(companies[v])])
    {
      ConnectedMonotone(links, more, v, byCompany[normalize(companies[v])]);
    }
  }

  /** The star links per company plus the judged pairs connect the same vacancies as the full relation. */
  lemma LinksSpanRelation(
      links: Links, companyLinks: Links, byCompany: map<string, string>, vacancies: seq<string>,
      companies: map<string, string>, normalize: string -> string, pairs: seq<(string, string)>)
    requires CompanyIndex(companyLinks, byCompany, vacancies, companies, normalize)
    requires forall v :: v in vacancies <==> v in companies
    requires links == companyLinks + JudgedLinks(companies, pairs)
    ensures forall a, b :: Connected(links, a, b) <==> Connected(Relation(companies, normalize, pairs), a, b)
  {
    var relation := Relation(companies, normalize, pairs);
    forall l | l in links ensures Connected(relation, l.0, l.1) {
      assert (l.0, l.1) in relation;
      ConnectedByLink(relation, l.0, l.1);
    }
    forall l | l in relation ensures Connected(links, l.0, l.1) {
      var (a, b) := l;
      if Judged(companies, pairs, a, b) {
        assert (a, b) in links;
        ConnectedByLink(links, a, b);
      } else {
        var first := byCompany[normalize(companies[a])];
        ConnectedMonotone(companyLinks, links, a, first);
        ConnectedMonotone(companyLinks, links, b, first);
        ConnectedSymmetric(links, b, first);
        ConnectedTransitive(links, a, first, b);
      }
    }
    forall a, b ensures Connected(links, a, b) <==> Connected(relation, a, b) {
      if Connected(links, a, b) {
        var path :| Path(links, path, a, b);
        ConnectedWithin(links, relation, path, a, b);
      }
      if Connected(relation, a, b) {
        var path :| Path(relation, path, a, b);
        ConnectedWithin(relation, links, path, a, b);
      }
    }
  }

  /**
   * The grouping depends on the mapping and the set of judged pairs only, not on any order or on
   * who was shown first.
   */
  lemma GroupingIgnoresOrder(
      groups: map<string, string>, again: map<string, string>, companies: map<string, string>,
      normalize: string -> string, pairs: seq<(string, string)>, shuffled: seq<(string, string)>)
    requires IsGrouping(groups, companies, normalize, pairs)
    requires IsGrouping(again, companies, normalize, shuffled)
    requires SamePairs(pairs, shuffled)
    ensures groups == again
  {
    var r, s := Relation(companies, normalize, pairs), Relation(companies, normalize, shuffled);
    forall x, y ensures Adjacent(r, x, y) <==> Adjacent(s, x, y) {
      assert (x, y) in pairs || (y, x) in pairs <==> (x, y) in shuffled || (y, x) in shuffled;
    }
    forall v | v in companies ensures groups[v] == again[v] {
      SameLeastMember(groups, again, r, s, v);
    }
  }

  ghost predicate SamePairs(pairs: seq<(string, string)>, shuffled: seq<(string, string)>) {
    forall a, b :: (a, b) in pairs || (b, a) in pairs <==> (a, b) in shuffled || (b, a) in shuffled
  }

  lemma SameLeastMember(groups: map<string, string>, again: map<string, string>, r: Links, s: Links, v: string)
    requires Components(groups, r) && LeastMembers(groups)
    requires Components(again, s) && LeastMembers(again)
    requires groups.Keys == again.Keys && v in groups
    requires SameAdjacencies(r, s)
    ensures groups[v] == again[v]
  {
    var least, other := groups[v], again[v];
    SameAdjacency(r, s, v, least);
    SameAdjacency(r, s, v, other);
    assert NamedByLeast(groups, v) && NamedByLeast(again, v);
    assert again[least] == other && groups[other] == least;
    LeqAntisymmetric(least, other);
  }

  ghost predicate SameAdjacencies(links: Links, more: Links) {
    forall x, y :: Adjacent(links, x, y) <==> Adjacent(more, x, y)
  }

  lemma SameAdjacency(links: Links, more: Links, a: string, b: string)
    requires SameAdjacencies(links, more)
    ensures Connected(links, a, b) <==> Connected(more, a, b)
  {
    if Connected(links, a, b) {
      var path :| Path(links, path, a, b);
      assert Path(more, path, a, b);
    }
    if Connected(more, a, b) {
      var path :| Path(more, path, a, b);
      assert Path(links, path, a, b);
    }
  }
}
