/**
 * The URL template with a location. The location is searched for in a text that already holds the
 * query's placeholder, and may hit inside it. The template is a text with holes, where the holes
 * of the query show the placeholder, whole or broken; building fills them.
 */
module UrlLocation {
  import opened PercentEncoding
  import opened PyText
  import opened UrlTemplate
  import opened Wrappers

  /** A character, or a placeholder together with the text it replaced. */
  datatype Token = Lit(c: char) | Hole(p: string, was: string)

  function Tokens(value: string): seq<Token> {
    if value == "" then [] else [Lit(value[0])] + Tokens(value[1..])
  }

  function Was(token: Token): string {
    match token case Lit(c) => [c] case Hole(_, was) => was
  }

  function Original(tokens: seq<Token>): string {
    if tokens == [] then "" else Was(tokens[0]) + Original(tokens[1..])
  }

  /** The text with every hole filled as `fill` says; a placeholder that `fill` does not know stays. */
  function Shown(tokens: seq<Token>, fill: map<string, string>): string {
    if tokens == [] then "" else Fill(tokens[0], fill) + Shown(tokens[1..], fill)
  }

  function Fill(token: Token, fill: map<string, string>): string {
    match token
    case Lit(c) => [c]
    case Hole(p, _) => if p in fill then fill[p] else p
  }

  predicate Starts(same: (char, char) -> bool, tokens: seq<Token>, part: string) {
    |part| <= |tokens| && forall k :: 0 <= k < |part| ==> tokens[k].Lit? && same(tokens[k].c, part[k])
  }

  /** Substitution in the literal text between the holes. */
  function SubTokens(same: (char, char) -> bool, tokens: seq<Token>, part: string, p: string): seq<Token>
    requires part != ""
    decreases |tokens|
  {
    if tokens == [] then []
    else if Starts(same, tokens, part) then
      [Hole(p, Original(tokens[..|part|]))] + SubTokens(same, tokens[|part|..], part, p)
    else [tokens[0]] + SubTokens(same, tokens[1..], part, p)
  }

  /** Literals are no braces, and holes are of one kind or the other. */
  ghost predicate TokensOk(tokens: seq<Token>, kinds: set<string>) {
    forall k :: 0 <= k < |tokens| ==> TokenOk(tokens[k], kinds)
  }

  /** A brace at each end and none between. */
  predicate Braced(q: string) {
    && |q| >= 2 && q[0] == '{' && q[|q| - 1] == '}'
    && (forall k :: 0 <= k < |q| - 1 ==> q[k] != '}') && (forall k :: 1 <= k < |q| ==> q[k] != '{')
  }

  predicate TokenOk(token: Token, kinds: set<string>) {
    match token case Lit(c) => c != '{' case Hole(p, _) => p in kinds && Braced(p)
  }

  /** No character of the text could hit a brace. */
  ghost predicate HitsNoBrace(same: (char, char) -> bool, part: string) {
    forall c :: c in part ==> !same('{', c) && !same('}', c)
  }

  predicate EndsInBrace(s: string) {
    s != "" && s[|s| - 1] == '}'
  }

  // ----- sequences of tokens

  lemma {:induction false} ShownConcat(tokens: seq<Token>, more: seq<Token>, fill: map<string, string>)
    ensures Shown(tokens + more, fill) == Shown(tokens, fill) + Shown(more, fill)
  {
    if tokens == [] {
      assert tokens + more == more;
    } else {
      assert (tokens + more)[1..] == tokens[1..] + more;
      ShownConcat(tokens[1..], more, fill);
    }
  }

  lemma {:induction false} OriginalConcat(tokens: seq<Token>, more: seq<Token>)
    ensures Original(tokens + more) == Original(tokens) + Original(more)
  {
    if tokens == [] {
      assert tokens + more == more;
    } else {
      assert (tokens + more)[1..] == tokens[1..] + more;
      OriginalConcat(tokens[1..], more);
    }
  }

  lemma ConsTokens(token: Token, rest: seq<Token>, fill: map<string, string>, kinds: set<string>)
    ensures Shown([token] + rest, fill) == Fill(token, fill) + Shown(rest, fill)
    ensures Original([token] + rest) == Was(token) + Original(rest)
    ensures TokensOk([token] + rest, kinds) <==> TokenOk(token, kinds) && TokensOk(rest, kinds)
  {
    assert ([token] + rest)[1..] == rest;
    assert forall k :: 0 <= k < |rest| ==> ([token] + rest)[k + 1] == rest[k];
  }

  // ----- substituting in a text with holes

  lemma {:induction false} LiteralsShown(tokens: seq<Token>)
    requires forall k :: 0 <= k < |tokens| ==> tokens[k].Lit?
    ensures |Shown(tokens, map[])| == |tokens| && forall k :: 0 <= k < |tokens| ==>
      Shown(tokens, map[])[k] == tokens[k].c
  {
    if tokens == [] {
    } else {
      LiteralsShown(tokens[1..]);
    }
  }

  /** Leading literals are shown as they are; a hole behind them shows a brace. */
  lemma LeadingLiterals(tokens: seq<Token>, kinds: set<string>, n: nat)
    requires n <= |tokens| && TokensOk(tokens, kinds) && forall k :: 0 <= k < n ==> tokens[k].Lit?
    ensures |Shown(tokens[..n], map[])| == n && forall k :: 0 <= k < n ==> Shown(tokens[..n], map[])[k] == tokens[k].c
    ensures Shown(tokens, map[]) == Shown(tokens[..n], map[]) + Shown(tokens[n..], map[])
    ensures n < |tokens| && tokens[n].Hole? ==> Shown(tokens[n..], map[]) != "" && Shown(tokens[n..], map[])[0] == '{'
  {
    ShownConcat(tokens[..n], tokens[n..], map[]);
    assert tokens == tokens[..n] + tokens[n..];
    LiteralsShown(tokens[..n]);
    if n < |tokens| && tokens[n].Hole? {
      assert TokenOk(tokens[n], kinds);
      assert tokens[n..][0] == tokens[n];
    }
  }

  /** How many literals the tokens start with. */
  function Literals(tokens: seq<Token>): (n: nat)
    ensures n <= |tokens| && forall k :: 0 <= k < n ==> tokens[k].Lit?
    ensures n < |tokens| ==> tokens[n].Hole?
  {
    if tokens == [] || tokens[0].Hole? then 0 else 1 + Literals(tokens[1..])
  }

  /** Text and tokens agree on whether a hit starts at a literal. */
  lemma HitIffStarts(same: (char, char) -> bool, tokens: seq<Token>, kinds: set<string>, part: string)
    requires part != "" && TokensOk(tokens, kinds) && (HitsNoBrace(same, part) || kinds == {})
    requires tokens != [] && tokens[0].Lit?
    ensures HitHere(same, Shown(tokens, map[]), part) <==> Starts(same, tokens, part)
  {
    var n := Literals(tokens);
    LeadingLiterals(tokens, kinds, n);
    var shown := Shown(tokens, map[]);
    assert forall k :: 0 <= k < n ==> shown[k] == tokens[k].c;
    if n < |tokens| {
      assert shown[n] == '{';
      assert n < |part| ==> part[n] in part;
      assert TokenOk(tokens[n], kinds);
    } else {
      assert Shown(tokens[n..], map[]) == "";
    }
  }

  /** A hit never crosses the end of a text that ends in a brace. */
  lemma {:induction false} SubSplits(same: (char, char) -> bool, s: string, rest: string, part: string, subst: string)
    requires part != "" && HitsNoBrace(same, part) && (s == "" || EndsInBrace(s))
    ensures Sub(same, s + rest, part, subst) == Sub(same, s, part, subst) + Sub(same, rest, part, subst)
    decreases |s|
  {
    if s == "" {
      assert s + rest == rest;
    } else {
      var whole := s + rest;
      HitStaysInside(same, s, rest, part);
      if HitHere(same, s, part) {
        assert whole[|part|..] == s[|part|..] + rest;
        SubSplits(same, s[|part|..], rest, part, subst);
      } else {
        assert whole[1..] == s[1..] + rest;
        SubSplits(same, s[1..], rest, part, subst);
      }
    }
  }

  lemma HitStaysInside(same: (char, char) -> bool, s: string, rest: string, part: string)
    requires part != "" && HitsNoBrace(same, part) && EndsInBrace(s)
    ensures HitHere(same, s + rest, part) <==> HitHere(same, s, part)
    ensures HitHere(same, s, part) ==> |part| < |s|
  {
    var whole := s + rest;
    assert whole[|s| - 1] == '}';
    assert |part| >= |s| ==> part[|s| - 1] in part;
    assert |part| < |s| ==> forall k :: 0 <= k < |part| ==> whole[k] == s[k];
  }

  /** What the holes of the query show once the location was replaced, and what those of the location show. */
  function Holes(same: (char, char) -> bool, p: string, part: string, l: string): map<string, string>
    requires part != ""
  {
    map[p := Sub(same, p, part, l)][l := l]
  }

  lemma SubAtHit(same: (char, char) -> bool, tokens: seq<Token>, kinds: set<string>, part: string, l: string)
    requires part != "" && TokensOk(tokens, kinds) && (HitsNoBrace(same, part) || kinds == {})
      && Starts(same, tokens, part)
    ensures Sub(same, Shown(tokens, map[]), part, l) == l + Sub(same, Shown(tokens[|part|..], map[]), part, l)
    ensures Original(tokens) == Original(tokens[..|part|]) + Original(tokens[|part|..])
  {
    HitIffStarts(same, tokens, kinds, part);
    LeadingLiterals(tokens, kinds, |part|);
    OriginalConcat(tokens[..|part|], tokens[|part|..]);
    assert tokens == tokens[..|part|] + tokens[|part|..];
    assert Shown(tokens, map[])[|part|..] == Shown(tokens[|part|..], map[]);
  }

  /** What a token that is not hit shows afterwards. */
  function SubIn(same: (char, char) -> bool, token: Token, part: string, l: string): string
    requires part != ""
  {
    if token.Lit? then [token.c] else Sub(same, token.p, part, l)
  }

  lemma SubAtMiss(same: (char, char) -> bool, tokens: seq<Token>, kinds: set<string>, part: string, l: string)
    requires part != "" && TokensOk(tokens, kinds) && (HitsNoBrace(same, part) || kinds == {})
    requires tokens != [] && !Starts(same, tokens, part)
    ensures Sub(same, Shown(tokens, map[]), part, l)
         == SubIn(same, tokens[0], part, l) + Sub(same, Shown(tokens[1..], map[]), part, l)
  {
    assert TokenOk(tokens[0], kinds);
    match tokens[0]
    case Lit(c) =>
      HitIffStarts(same, tokens, kinds, part);
      assert Shown(tokens, map[])[1..] == Shown(tokens[1..], map[]);
    case Hole(p, _) =>
      SubSplits(same, p, Shown(tokens[1..], map[]), part, l);
  }

  /** Substituting in the text is substituting in the tokens, and inside the placeholders. */
  lemma {:induction false} SubIsSubTokens(same: (char, char) -> bool, tokens: seq<Token>, p: string, part: string,
      l: string)
    requires part != "" && Braced(l) && l != p && HitsNoBrace(same, part) && TokensOk(tokens, {p})
    ensures Sub(same, Shown(tokens, map[]), part, l) == Shown(SubTokens(same, tokens, part, l), Holes(same, p, part, l))
    ensures Original(SubTokens(same, tokens, part, l)) == Original(tokens)
    ensures TokensOk(SubTokens(same, tokens, part, l), {p, l})
    decreases |tokens|
  {
    if tokens == [] {
    } else if Starts(same, tokens, part) {
      SubAtHit(same, tokens, {p}, part, l);
      SubIsSubTokens(same, tokens[|part|..], p, part, l);
      ConsTokens(Hole(l, Original(tokens[..|part|])), SubTokens(same, tokens[|part|..], part, l),
        Holes(same, p, part, l), {p, l});
    } else {
      SubAtMiss(same, tokens, {p}, part, l);
      SubIsSubTokens(same, tokens[1..], p, part, l);
      assert TokenOk(tokens[0], {p});
      ConsTokens(tokens[0], SubTokens(same, tokens[1..], part, l), Holes(same, p, part, l), {p, l});
    }
  }

  /** The first substitution, in a text without holes. */
  lemma {:induction false} SubInLiterals(same: (char, char) -> bool, tokens: seq<Token>, part: string, p: string)
    requires part != "" && Braced(p) && TokensOk(tokens, {})
    ensures Sub(same, Shown(tokens, map[]), part, p) == Shown(SubTokens(same, tokens, part, p), map[])
    ensures Original(SubTokens(same, tokens, part, p)) == Original(tokens)
    ensures TokensOk(SubTokens(same, tokens, part, p), {p})
    decreases |tokens|
  {
    if tokens == [] {
    } else if Starts(same, tokens, part) {
      SubAtHit(same, tokens, {}, part, p);
      SubInLiterals(same, tokens[|part|..], part, p);
      ConsTokens(Hole(p, Original(tokens[..|part|])), SubTokens(same, tokens[|part|..], part, p), map[], {p});
    } else {
      SubAtMiss(same, tokens, {}, part, p);
      SubInLiterals(same, tokens[1..], part, p);
      assert TokenOk(tokens[0], {});
      ConsTokens(tokens[0], SubTokens(same, tokens[1..], part, p), map[], {p});
    }
  }

  lemma {:induction false} LiteralTokens(value: string)
    requires BraceFree(value)
    ensures Shown(Tokens(value), map[]) == value == Original(Tokens(value))
    ensures TokensOk(Tokens(value), {})
  {
    if value == "" {
    } else {
      LiteralTokens(value[1..]);
      assert value == [value[0]] + value[1..];
    }
  }

  // ----- building fills the holes

  /** A replacement never crosses the end of such a text. */
  predicate Closed(s: string) {
    BraceFree(s) || EndsInBrace(s)
  }

  lemma {:induction false} ReplaceSplits(s: string, rest: string, q: string, subst: string)
    requires Braced(q) && Closed(s)
    ensures Replace(s + rest, q, subst) == Replace(s, q, subst) + Replace(rest, q, subst)
    decreases |s|
  {
    if s == "" {
      assert s + rest == rest;
    } else {
      var whole := s + rest;
      ReplaceStaysInside(s, rest, q);
      if HitHere(EXACTLY, s, q) {
        assert whole[|q|..] == s[|q|..] + rest;
        ReplaceSplits(s[|q|..], rest, q, subst);
        var r := Replace(rest, q, subst);
        assert subst + (Replace(s[|q|..], q, subst) + r) == (subst + Replace(s[|q|..], q, subst)) + r;
      } else {
        assert whole[1..] == s[1..] + rest;
        ReplaceSplits(s[1..], rest, q, subst);
        var r := Replace(rest, q, subst);
        assert [s[0]] + (Replace(s[1..], q, subst) + r) == ([s[0]] + Replace(s[1..], q, subst)) + r;
      }
    }
  }

  lemma ReplaceStaysInside(s: string, rest: string, q: string)
    requires Braced(q) && Closed(s) && s != ""
    ensures HitHere(EXACTLY, s + rest, q) <==> HitHere(EXACTLY, s, q)
    ensures HitHere(EXACTLY, s, q) ==> Closed(s[|q|..])
  {
    var whole := s + rest;
    assert whole[0] == s[0] && s[0] in s;
    if EndsInBrace(s) {
      assert whole[|s| - 1] == '}';
    }
    assert |q| <= |s| ==> forall k :: 0 <= k < |q| ==> whole[k] == s[k];
  }

  lemma OneClosingBrace(q: string)
    requires IsPlaceholder(q)
    ensures Braced(q)
  {
  }

  /** One replacement works on each hole's text by itself. */
  lemma {:induction false} ReplaceInHoles(tokens: seq<Token>, kinds: set<string>, fill: map<string, string>, q: string,
      subst: string)
    requires TokensOk(tokens, kinds) && IsPlaceholder(q) && kinds <= fill.Keys
    requires forall p :: p in fill ==> Closed(fill[p])
    ensures Replace(Shown(tokens, fill), q, subst) == Shown(tokens, Replaced(fill, q, subst))
  {
    if tokens == [] {
    } else {
      assert TokenOk(tokens[0], kinds);
      OneClosingBrace(q);
      ReplaceInHoles(tokens[1..], kinds, fill, q, subst);
      var head := Fill(tokens[0], fill);
      ReplaceSplits(head, Shown(tokens[1..], fill), q, subst);
      if tokens[0].Lit? {
        ReplaceSkipsBraceFree(head, "", q, subst);
        assert head + "" == head;
      }
    }
  }

  function Replaced(fill: map<string, string>, q: string, subst: string): map<string, string>
    requires q != ""
  {
    map p | p in fill :: Replace(fill[p], q, subst)
  }

  lemma FillOne(base: string, tokens: seq<Token>, kinds: set<string>, fill: map<string, string>, q: string,
      subst: string)
    requires BraceFree(base) && TokensOk(tokens, kinds) && IsPlaceholder(q) && kinds <= fill.Keys
    requires forall p :: p in fill ==> Closed(fill[p])
    ensures Replace(base + Shown(tokens, fill), q, subst) == base + Shown(tokens, Replaced(fill, q, subst))
  {
    ReplaceSkipsBraceFree(base, Shown(tokens, fill), q, subst);
    ReplaceInHoles(tokens, kinds, fill, q, subst);
  }

  /** The text stays closed while the four placeholders are replaced. */
  ghost predicate StaysClosed(enc: Encoding, s: string, query: string, location: string) {
    && Closed(s) && Closed(AfterQuery(enc, s, query)) && Closed(AfterLocation(enc, s, query, location))
    && Closed(AfterSlug(enc, s, query, location))
  }

  function AfterQuery(enc: Encoding, s: string, query: string): string {
    Replace(s, QUERY, enc.quotePlus(Strip(query)))
  }

  function AfterLocation(enc: Encoding, s: string, query: string, location: string): string {
    Replace(AfterQuery(enc, s, query), LOCATION, enc.quotePlus(Strip(location)))
  }

  function AfterSlug(enc: Encoding, s: string, query: string, location: string): string {
    Replace(AfterLocation(enc, s, query, location), QUERY_SLUG, enc.quoteSlug(Slugify(query)))
  }

  /** Building works on each hole by itself. */
  function Built(enc: Encoding, fill: map<string, string>, query: string, location: string): map<string, string> {
    map p | p in fill :: BuildSearchUrl(enc, fill[p], query, location)
  }

  lemma BuildInHoles(
      enc: Encoding, base: string, tokens: seq<Token>, kinds: set<string>, fill: map<string, string>, query: string,
      location: string)
    requires BraceFree(base) && TokensOk(tokens, kinds) && kinds <= fill.Keys
    requires forall p :: p in fill ==> StaysClosed(enc, fill[p], query, location)
    ensures BuildSearchUrl(enc, base + Shown(tokens, fill), query, location)
         == base + Shown(tokens, Built(enc, fill, query, location))
  {
    var a, b := enc.quotePlus(Strip(query)), enc.quotePlus(Strip(location));
    var c, d := enc.quoteSlug(Slugify(query)), enc.quoteSlug(Slugify(location));
    var fill1 := Replaced(fill, QUERY, a);
    var fill2 := Replaced(fill1, LOCATION, b);
    var fill3 := Replaced(fill2, QUERY_SLUG, c);
    FillOne(base, tokens, kinds, fill, QUERY, a);
    FillOne(base, tokens, kinds, fill1, LOCATION, b);
    FillOne(base, tokens, kinds, fill2, QUERY_SLUG, c);
    FillOne(base, tokens, kinds, fill3, LOCATION_SLUG, d);
    assert Replaced(fill3, LOCATION_SLUG, d) == Built(enc, fill, query, location);
  }

  // ----- a placeholder that the location hits

  /** Where the first hit was, the substitute stands. */
  lemma {:induction false} FirstHit(same: (char, char) -> bool, value: string, part: string, subst: string)
    returns (i: nat, more: string)
    requires part != "" && Occurs(same, value, part)
    ensures i <= |value| && HitHere(same, value[i..], part)
    ensures Sub(same, value, part, subst) == value[..i] + subst + more
    decreases |value|
  {
    if HitHere(same, value, part) {
      i, more := 0, Sub(same, value[|part|..], part, subst);
      assert value[0..] == value && value[..0] == "";
    } else {
      var j;
      j, more := FirstHit(same, value[1..], part, subst);
      i := j + 1;
      assert value[..i] == [value[0]] + value[1..][..j];
      assert value[i..] == value[1..][j..];
      assert [value[0]] + (value[1..][..j] + subst + more) == value[..i] + subst + more;
    }
  }

  lemma OccursAt(same: (char, char) -> bool, value: string, part: string, c: char) returns (a: char)
    requires part != "" && Occurs(same, value, part) && c in part
    ensures a in value && same(a, c)
  {
    var i, more := FirstHit(same, value, part, "");
    var k :| 0 <= k < |part| && part[k] == c;
    a := value[i..][k];
  }

  /** A placeholder is a brace and a tail that no replacement of a placeholder starts in. */
  lemma SubInPlaceholder(same: (char, char) -> bool, p: string, part: string, subst: string)
    requires part != "" && Braced(p) && HitsNoBrace(same, part)
    ensures BraceFree(p[1..]) && Sub(same, p, part, subst) == "{" + Sub(same, p[1..], part, subst)
    ensures Occurs(same, p, part) <==> Occurs(same, p[1..], part)
    ensures HitsAre(same, p, part, subst) <==> HitsAre(same, p[1..], part, subst)
    ensures EndsInBrace(Sub(same, p, part, subst))
  {
    assert part[0] in part;
    assert !HitHere(same, p, part);
    KeepsLastBrace(same, p, part, subst);
  }

  lemma {:induction false} KeepsLastBrace(same: (char, char) -> bool, s: string, part: string, subst: string)
    requires part != "" && HitsNoBrace(same, part) && EndsInBrace(s)
    ensures EndsInBrace(Sub(same, s, part, subst))
    decreases |s|
  {
    HitStaysInside(same, s, "", part);
    if HitHere(same, s, part) {
      KeepsLastBrace(same, s[|part|..], part, subst);
    } else if |s| == 1 {
    } else {
      KeepsLastBrace(same, s[1..], part, subst);
    }
  }

  /** A hit puts a brace inside, so no placeholder is spelled at the start any more. */
  lemma BrokenStartsNothing(same: (char, char) -> bool, p: string, part: string, l: string, q: string)
    requires part != "" && Braced(p) && Braced(l) && Braced(q)
    requires HitsNoBrace(same, part) && Occurs(same, p, part)
    ensures !HitHere(EXACTLY, Sub(same, p, part, l), q)
  {
    var i, more := FirstHit(same, p, part, l);
    var broken := p[..i] + l + more;
    assert part[0] in part && part[|part| - 1] in part;
    assert p[i..][0] == p[i] && p[i..][|part| - 1] == p[i + |part| - 1];
    assert broken[i] == l[0] == '{';
    assert i > 0 && i < |p| - 1;
    if i >= |q| {
      assert broken[|q| - 1] == p[|q| - 1];
    }
  }

  /** Other placeholders find nothing in a broken one. */
  lemma ReplaceSkipsBroken(same: (char, char) -> bool, p: string, part: string, l: string, q: string, subst: string)
    requires part != "" && IsPlaceholder(p) && IsPlaceholder(l) && IsPlaceholder(q) && q != l
    requires HitsNoBrace(same, part) && Occurs(same, p, part)
    ensures Replace(Sub(same, p, part, l), q, subst) == Sub(same, p, part, l)
  {
    OneClosingBrace(p);
    OneClosingBrace(q);
    OneClosingBrace(l);
    BrokenStartsNothing(same, p, part, l, q);
    SubInPlaceholder(same, p, part, l);
    ReplaceSkipsOne(Sub(same, p, part, l), q, subst);
    ReplaceOtherAfterSub(same, p[1..], part, q, l, subst);
  }

  /** Its own placeholder is filled inside the broken one. */
  lemma ReplaceInBroken(same: (char, char) -> bool, p: string, part: string, l: string, subst: string)
    requires part != "" && IsPlaceholder(p) && IsPlaceholder(l)
    requires HitsNoBrace(same, part) && Occurs(same, p, part)
    ensures Replace(Sub(same, p, part, l), l, subst) == Sub(same, p, part, subst)
  {
    OneClosingBrace(p);
    OneClosingBrace(l);
    BrokenStartsNothing(same, p, part, l, l);
    SubInPlaceholder(same, p, part, l);
    SubInPlaceholder(same, p, part, subst);
    ReplaceSkipsOne(Sub(same, p, part, l), l, subst);
    ReplaceAfterSub(same, p[1..], part, l, subst);
  }

  lemma {:induction false} SubKeepsNoBraces(same: (char, char) -> bool, value: string, part: string, subst: string)
    requires part != "" && NoBraces(value) && NoBraces(subst)
    ensures NoBraces(Sub(same, value, part, subst))
    decreases |value|
  {
    if value == "" {
    } else if HitHere(same, value, part) {
      SubKeepsNoBraces(same, value[|part|..], part, subst);
    } else {
      SubKeepsNoBraces(same, value[1..], part, subst);
    }
  }

  /** The word between the braces of a placeholder, substituted in. */
  lemma BracesAround(same: (char, char) -> bool, p: string, part: string, subst: string) returns (word: string)
    requires part != "" && Braced(p) && HitsNoBrace(same, part) && NoBraces(subst)
    ensures NoBraces(word) && Sub(same, p, part, subst) == "{" + word + "}"
  {
    SubInPlaceholder(same, p, part, subst);
    var inner := p[1..|p| - 1];
    InnerNoBraces(p);
    word := Sub(same, inner, part, subst);
    SubKeepsNoBraces(same, inner, part, subst);
    SubBeforeBrace(same, inner, part, subst);
    assert "{" + (word + "}") == "{" + word + "}";
  }

  lemma InnerNoBraces(p: string)
    requires Braced(p)
    ensures NoBraces(p[1..|p| - 1]) && p[1..] == p[1..|p| - 1] + "}"
  {
  }

  lemma {:induction false} SubBeforeBrace(same: (char, char) -> bool, s: string, part: string, subst: string)
    requires part != "" && HitsNoBrace(same, part) && NoBraces(s)
    ensures Sub(same, s + "}", part, subst) == Sub(same, s, part, subst) + "}"
    decreases |s|
  {
    assert part[0] in part;
    if s == "" {
      assert "}"[1..] == "";
    } else {
      var whole := s + "}";
      HitStaysInside(same, whole, "", part);
      assert HitHere(same, whole, part) <==> HitHere(same, s, part) by {
        assert |part| <= |s| ==> forall k :: 0 <= k < |part| ==> whole[k] == s[k];
      }
      if HitHere(same, s, part) {
        assert whole[|part|..] == s[|part|..] + "}";
        SubBeforeBrace(same, s[|part|..], part, subst);
      } else {
        assert whole[1..] == s[1..] + "}";
        SubBeforeBrace(same, s[1..], part, subst);
      }
    }
  }

  lemma HitInBraces(word: string, q: string)
    requires Braced(q) && NoBraces(word)
    ensures HitHere(EXACTLY, "{" + word + "}", q) <==> "{" + word + "}" == q
  {
    var s := "{" + word + "}";
    assert forall k :: 1 <= k < |s| - 1 ==> s[k] == word[k - 1];
    assert forall k :: 0 <= k < |word| ==> word[k] in word;
  }

  /** A word in braces that is not the placeholder survives its replacement. */
  lemma ReplaceInBraces(word: string, q: string, subst: string)
    requires IsPlaceholder(q) && NoBraces(word)
    ensures Replace("{" + word + "}", q, subst) == if "{" + word + "}" == q then subst else "{" + word + "}"
  {
    var s := "{" + word + "}";
    OneClosingBrace(q);
    assert s[1..] == word + "}";
    HitInBraces(word, q);
    if HitHere(EXACTLY, s, q) {
      assert s[|q|..] == "";
    } else {
      ReplaceSkipsOne(s, q, subst);
      ReplaceSkipsBraceFree(word + "}", "", q, subst);
      assert word + "}" + "" == word + "}";
    }
  }

  // ----- what was found

  lemma StripTwice(s: string)
    ensures Strip(Strip(s)) == Strip(s)
  {
    StripLeftStops(s);
    StripRightStops(StripLeft(s));
  }

  lemma {:induction false} StripLeftStops(s: string)
    ensures StripLeft(s) == "" || !IsSpace(StripLeft(s)[0])
  {
    if s == "" {
    } else if IsSpace(s[0]) {
      StripLeftStops(s[1..]);
    }
  }

  lemma {:induction false} StripRightStops(s: string)
    requires s == "" || !IsSpace(s[0])
    ensures StripRight(s) == "" <==> s == ""
    ensures StripRight(s) != "" ==> StripRight(s)[0] == s[0] && !IsSpace(StripRight(s)[|StripRight(s)| - 1])
  {
    if s == "" {
    } else if IsSpace(s[|s| - 1]) {
      StripRightStops(s[..|s| - 1]);
    }
  }

  lemma {:induction false} CollapseNoBraces(s: string)
    requires NoBraces(s)
    ensures NoBraces(Collapse(s))
  {
    if s == "" {
    } else {
      CollapseNoBraces(s[1..]);
    }
  }

  lemma StripNoBraces(s: string)
    requires NoBraces(s)
    ensures NoBraces(Strip(s))
  {
    StripLeftPart(s);
    StripRightPart(StripLeft(s));
  }

  lemma {:induction false} StripLeftPart(s: string)
    ensures forall c :: c in StripLeft(s) ==> c in s
  {
    if s == "" {
    } else if IsSpace(s[0]) {
      StripLeftPart(s[1..]);
    }
  }

  lemma {:induction false} StripRightPart(s: string)
    ensures forall c :: c in StripRight(s) ==> c in s
  {
    if s == "" {
    } else if IsSpace(s[|s| - 1]) {
      StripRightPart(s[..|s| - 1]);
    }
  }

  /** No spelling of a text without braces has one. */
  lemma VariantHasNoBraces(enc: Encoding, utf8: char -> seq<Byte>, value: string, text: string, p: string, q: string)
    requires IsPercent(enc, utf8) && NoBraces(text) && Variant(enc, value, text, p, q).Some?
    ensures NoBraces(Variant(enc, value, text, p, q).value.0)
  {
    QuotedHasNoBraces(utf8, text);
    StripNoBraces(text);
    CollapseNoBraces(Strip(text));
  }

  lemma NoBracesHitNone(same: (char, char) -> bool, part: string)
    requires FoldsCase(same) && NoBraces(part)
    ensures HitsNoBrace(same, part)
  {
  }

  /** What the build step puts for a found spelling. */
  function Rendering(enc: Encoding, text: string, isSlug: bool): string {
    if isSlug then enc.quoteSlug(Slugify(text)) else enc.quotePlus(text)
  }

  /** A found spelling never ends like its rendering, unless it is its rendering. */
  lemma VariantComparable(
      enc: Encoding, utf8: char -> seq<Byte>, value: string, text: string, p: string, q: string, was: string)
    requires IsPercent(enc, utf8) && p != q && Variant(enc, value, text, p, q).Some?
    requires SpelledLike(enc.same, was, Variant(enc, value, text, p, q).value.0)
    ensures Comparable(was, Rendering(enc, text, Variant(enc, value, text, p, q).value.1 == q))
  {
    var (part, hole) := Variant(enc, value, text, p, q).value;
    if hole == q {
      PlainAgainstQuoted(enc.same, utf8, Slugify(text), was);
    } else if part == enc.quotePlus(text) {
      SameLengthComparable(was, part);
    } else if part == enc.quoteAll(text) {
      QuotedAgainstPlus(enc.same, utf8, text, was);
    } else {
      PlainAgainstQuoted(enc.same, utf8, text, was);
    }
  }

  /** A location found inside a placeholder is its own rendering, or its rendering has a percent sign. */
  lemma TouchingVariant(
      enc: Encoding, utf8: char -> seq<Byte>, value: string, text: string, p: string, q: string, word: string)
    requires IsPercent(enc, utf8) && p != q && Variant(enc, value, text, p, q).Some?
    requires Variant(enc, value, text, p, q).value.1 == p
      && Occurs(enc.same, word, Variant(enc, value, text, p, q).value.0)
    requires '%' !in word && ' ' !in word
    ensures Variant(enc, value, text, p, q).value.0 == enc.quotePlus(text) || '%' in enc.quotePlus(text)
  {
    var part := Variant(enc, value, text, p, q).value.0;
    QuotedOrSame(utf8, text);
    PlusOrSame(utf8, text);
    if '%' in part {
      var a := OccursAt(enc.same, word, part, '%');
    } else if ' ' in part {
      var a := OccursAt(enc.same, word, part, ' ');
    }
  }

  // ----- the template that is learned

  function QueryHit(enc: Encoding, rest: string, query: string): (r: (string, string))
    requires Variant(enc, rest, Strip(query), QUERY, QUERY_SLUG).Some?
    ensures r.0 != "" && (r.1 == QUERY || r.1 == QUERY_SLUG) && IsPlaceholder(r.1)
  {
    Variant(enc, rest, Strip(query), QUERY, QUERY_SLUG).value
  }

  function QueryTokens(enc: Encoding, rest: string, query: string): seq<Token>
    requires Variant(enc, rest, Strip(query), QUERY, QUERY_SLUG).Some?
  {
    SubTokens(enc.same, Tokens(rest), QueryHit(enc, rest, query).0, QueryHit(enc, rest, query).1)
  }

  /** The spelling of the location that occurs once the query was replaced, and its placeholder. */
  function LocationHit(enc: Encoding, rest: string, query: string, location: string): (r: Option<(string, string)>)
    requires Variant(enc, rest, Strip(query), QUERY, QUERY_SLUG).Some?
    ensures r.Some? ==>
      r.value.0 != "" && (r.value.1 == LOCATION || r.value.1 == LOCATION_SLUG) && IsPlaceholder(r.value.1)
  {
    if Strip(location) == "" then None
    else Variant(enc, Shown(QueryTokens(enc, rest, query), map[]), Strip(location), LOCATION, LOCATION_SLUG)
  }

  /** The location was found by a spelling without braces; always so when it has none itself. */
  ghost predicate PlainLocation(enc: Encoding, rest: string, query: string, location: string)
    requires Variant(enc, rest, Strip(query), QUERY, QUERY_SLUG).Some?
  {
    LocationHit(enc, rest, query, location).Some? ==> NoBraces(LocationHit(enc, rest, query, location).value.0)
  }

  lemma LocationWithoutBracesIsPlain(enc: Encoding, utf8: char -> seq<Byte>, rest: string, query: string,
      location: string)
    requires IsPercent(enc, utf8) && NoBraces(location) && Variant(enc, rest, Strip(query), QUERY, QUERY_SLUG).Some?
    ensures PlainLocation(enc, rest, query, location)
  {
    if LocationHit(enc, rest, query, location).Some? {
      StripNoBraces(location);
      VariantHasNoBraces(enc, utf8, Shown(QueryTokens(enc, rest, query), map[]), Strip(location), LOCATION,
        LOCATION_SLUG);
    }
  }

  function LearnedTokens(enc: Encoding, rest: string, query: string, location: string): seq<Token>
    requires Variant(enc, rest, Strip(query), QUERY, QUERY_SLUG).Some?
  {
    match LocationHit(enc, rest, query, location)
    case None => QueryTokens(enc, rest, query)
    case Some(hit) => SubTokens(enc.same, QueryTokens(enc, rest, query), hit.0, hit.1)
  }

  /** What the holes of the template show: the query's placeholder as the location left it. */
  function TemplateHoles(enc: Encoding, rest: string, query: string, location: string): map<string, string>
    requires Variant(enc, rest, Strip(query), QUERY, QUERY_SLUG).Some?
  {
    HolesAfter(enc, QueryHit(enc, rest, query).1, LocationHit(enc, rest, query, location))
  }

  function HolesAfter(enc: Encoding, p: string, found: Option<(string, string)>): map<string, string>
    requires found.Some? ==> found.value.0 != ""
  {
    match found
    case None => map[p := p]
    case Some(hit) => Holes(enc.same, p, hit.0, hit.1)
  }

  /**
   * The location leaves the query's placeholder alone; or it was found as it is rendered and in the
   * placeholder's own case, inside "{query-slug}", which is therefore whole again by the time it is filled.
   */
  ghost predicate Intact(enc: Encoding, rest: string, query: string, location: string)
    requires Variant(enc, rest, Strip(query), QUERY, QUERY_SLUG).Some?
  {
    IntactAfter(enc, QueryHit(enc, rest, query).1, LocationHit(enc, rest, query, location), location)
  }

  ghost predicate IntactAfter(enc: Encoding, p: string, found: Option<(string, string)>, location: string)
    requires found.Some? ==> found.value.0 != ""
  {
    match found
    case None => true
    case Some(hit) =>
      || !Occurs(enc.same, p, hit.0)
      || (p == QUERY_SLUG && hit.1 == LOCATION && HitsAre(enc.same, p, hit.0, enc.quotePlus(Strip(location))))
  }

  lemma QueryTokensShown(enc: Encoding, rest: string, query: string)
    requires BraceFree(rest) && Variant(enc, rest, Strip(query), QUERY, QUERY_SLUG).Some?
    ensures
      var (part, p) := QueryHit(enc, rest, query);
      var tokens := QueryTokens(enc, rest, query);
      Shown(tokens, map[]) == Sub(enc.same, rest, part, p) && Original(tokens) == rest && TokensOk(tokens, {p})
  {
    var (part, p) := QueryHit(enc, rest, query);
    LiteralTokens(rest);
    OneClosingBrace(p);
    SubInLiterals(enc.same, Tokens(rest), part, p);
  }

  lemma {:induction false} ShownSame(tokens: seq<Token>, kinds: set<string>, fill: map<string, string>,
      more: map<string, string>)
    requires TokensOk(tokens, kinds)
    requires forall p :: p in kinds ==> Fill(Hole(p, ""), fill) == Fill(Hole(p, ""), more)
    ensures Shown(tokens, fill) == Shown(tokens, more)
  {
    if tokens == [] {
    } else {
      assert TokenOk(tokens[0], kinds);
      assert tokens[0].Hole? ==> Fill(tokens[0], fill) == Fill(Hole(tokens[0].p, ""), fill);
      ShownSame(tokens[1..], kinds, fill, more);
    }
  }

  /** The inferred template is the results URL with holes for query and location. */
  lemma LearnedTokensShown(enc: Encoding, utf8: char -> seq<Byte>, url: string, base: string, query: string,
      location: string)
    requires |base| <= |url| && BraceFree(url) && IsPercent(enc, utf8)
    requires InferUrlTemplate(enc, url, base, query, location).Some?
      && PlainLocation(enc, url[|base|..], query, location)
    ensures
      var rest := url[|base|..];
      var tokens, fill := LearnedTokens(enc, rest, query, location), TemplateHoles(enc, rest, query, location);
      && InferUrlTemplate(enc, url, base, query, location) == Some(base + Shown(tokens, fill))
      && Original(tokens) == rest && TokensOk(tokens, fill.Keys)
  {
    var rest := url[|base|..];
    QueryTokensShown(enc, rest, query);
    if LocationHit(enc, rest, query, location).None? {
      TokensWithoutLocation(enc, rest, query, location);
    } else {
      TokensWithLocation(enc, rest, query, location);
    }
  }

  lemma TokensWithoutLocation(enc: Encoding, rest: string, query: string, location: string)
    requires BraceFree(rest) && Variant(enc, rest, Strip(query), QUERY, QUERY_SLUG).Some?
    requires LocationHit(enc, rest, query, location).None?
    ensures
      var tokens, fill := LearnedTokens(enc, rest, query, location), TemplateHoles(enc, rest, query, location);
      && Shown(QueryTokens(enc, rest, query), map[]) == Shown(tokens, fill)
      && Original(tokens) == rest && TokensOk(tokens, fill.Keys)
  {
    var p := QueryHit(enc, rest, query).1;
    QueryTokensShown(enc, rest, query);
    ShownSame(QueryTokens(enc, rest, query), {p}, map[], map[p := p]);
    assert map[p := p].Keys == {p};
  }

  lemma TokensWithLocation(enc: Encoding, rest: string, query: string, location: string)
    requires FoldsCase(enc.same) && BraceFree(rest) && Variant(enc, rest, Strip(query), QUERY, QUERY_SLUG).Some?
    requires LocationHit(enc, rest, query, location).Some? && PlainLocation(enc, rest, query, location)
    ensures
      var tokens, fill := LearnedTokens(enc, rest, query, location), TemplateHoles(enc, rest, query, location);
      var (part, l) := LocationHit(enc, rest, query, location).value;
      && Sub(enc.same, Shown(QueryTokens(enc, rest, query), map[]), part, l) == Shown(tokens, fill) != ""
      && Original(tokens) == rest && TokensOk(tokens, fill.Keys)
  {
    var tokens := QueryTokens(enc, rest, query);
    var p := QueryHit(enc, rest, query).1;
    var (part, l) := LocationHit(enc, rest, query, location).value;
    QueryTokensShown(enc, rest, query);
    FoundInText(enc, Shown(tokens, map[]), Strip(location), LOCATION, LOCATION_SLUG);
    NoBracesHitNone(enc.same, part);
    QueryIsNoLocation(p, l);
    OneClosingBrace(l);
    LocationReplaced(enc.same, tokens, p, part, l);
  }

  lemma LocationReplaced(same: (char, char) -> bool, tokens: seq<Token>, p: string, part: string, l: string)
    requires TokensOk(tokens, {p}) && HitsNoBrace(same, part) && part != "" && Shown(tokens, map[]) != ""
    requires p != l && Braced(l)
    ensures Sub(same, Shown(tokens, map[]), part, l)
      == Shown(SubTokens(same, tokens, part, l), Holes(same, p, part, l)) != ""
    ensures Original(SubTokens(same, tokens, part, l)) == Original(tokens)
    ensures TokensOk(SubTokens(same, tokens, part, l), Holes(same, p, part, l).Keys)
  {
    SubIsSubTokens(same, tokens, p, part, l);
    SubNotEmpty(same, Shown(tokens, map[]), part, l);
    assert Holes(same, p, part, l).Keys == {p, l};
  }

  /** A spelling that was found occurs, so the text is not empty. */
  lemma FoundInText(enc: Encoding, value: string, text: string, p: string, q: string)
    requires Variant(enc, value, text, p, q).Some?
    ensures value != "" && Variant(enc, value, text, p, q).value.0 != ""
  {
  }

  lemma QueryIsNoLocation(p: string, l: string)
    requires (p == QUERY || p == QUERY_SLUG) && (l == LOCATION || l == LOCATION_SLUG)
    ensures p != l && IsPlaceholder(p) && IsPlaceholder(l) && l != ""
  {
    assert p[1] == 'q' && l[1] == 'l';
  }

  lemma SubNotEmpty(same: (char, char) -> bool, value: string, part: string, subst: string)
    requires part != "" && subst != "" && value != ""
    ensures Sub(same, value, part, subst) != ""
  {
  }

  // ----- holes keep the spelling they replaced

  ghost predicate HoleSpelled(same: (char, char) -> bool, token: Token, p: string, part: string) {
    token.Hole? && token.p == p && SpelledLike(same, token.was, part)
  }

  lemma {:induction false} OriginalOfLiterals(tokens: seq<Token>)
    requires forall k :: 0 <= k < |tokens| ==> tokens[k].Lit?
    ensures |Original(tokens)| == |tokens| && forall k :: 0 <= k < |tokens| ==> Original(tokens)[k] == tokens[k].c
  {
    if tokens == [] {
    } else {
      OriginalOfLiterals(tokens[1..]);
    }
  }

  /** Holes of the old tokens survive, and new ones are spelled like what was looked for. */
  lemma {:induction false} HolesOfSub(same: (char, char) -> bool, tokens: seq<Token>, part: string, p: string,
      token: Token)
    requires part != "" && token.Hole?
    ensures token in SubTokens(same, tokens, part, p) ==> token in tokens || HoleSpelled(same, token, p, part)
    ensures token in tokens ==> token in SubTokens(same, tokens, part, p)
    decreases |tokens|
  {
    if tokens == [] {
    } else if Starts(same, tokens, part) {
      OriginalOfLiterals(tokens[..|part|]);
      HolesOfSub(same, tokens[|part|..], part, p, token);
      assert tokens == tokens[..|part|] + tokens[|part|..];
    } else {
      HolesOfSub(same, tokens[1..], part, p, token);
      assert tokens == [tokens[0]] + tokens[1..];
    }
  }

  /** A text that occurs leaves a hole. */
  lemma {:induction false} OccursLeavesHole(same: (char, char) -> bool, tokens: seq<Token>, part: string, p: string)
    returns (token: Token)
    requires part != "" && TokensOk(tokens, {}) && Occurs(same, Shown(tokens, map[]), part)
    ensures token in SubTokens(same, tokens, part, p) && token.Hole? && token.p == p
    decreases |tokens|
  {
    assert TokenOk(tokens[0], {});
    HitIffStarts(same, tokens, {}, part);
    if Starts(same, tokens, part) {
      token := Hole(p, Original(tokens[..|part|]));
    } else {
      assert Shown(tokens, map[])[1..] == Shown(tokens[1..], map[]);
      token := OccursLeavesHole(same, tokens[1..], part, p);
    }
  }

  lemma {:induction false} ShownHolds(tokens: seq<Token>, fill: map<string, string>, token: Token, c: char)
    requires token in tokens && c in Fill(token, fill)
    ensures c in Shown(tokens, fill)
  {
    if token == tokens[0] {
    } else {
      assert token in tokens[1..];
      ShownHolds(tokens[1..], fill, token, c);
    }
  }

  // ----- what building makes of a placeholder

  /** What the build step puts for the four placeholders. */
  function Filling(enc: Encoding, query: string, location: string): map<string, string> {
    map[QUERY := enc.quotePlus(Strip(query))][LOCATION := enc.quotePlus(Strip(location))]
       [QUERY_SLUG := enc.quoteSlug(Slugify(query))][LOCATION_SLUG := enc.quoteSlug(Slugify(location))]
  }

  lemma DistinctPlaceholders()
    ensures QUERY != LOCATION && QUERY != QUERY_SLUG && QUERY != LOCATION_SLUG
    ensures LOCATION != QUERY_SLUG && LOCATION != LOCATION_SLUG && QUERY_SLUG != LOCATION_SLUG
    ensures |QUERY| == 7 && |QUERY_SLUG| == 12 && |LOCATION_SLUG| == 15
  {
  }

  /** Replacing in a placeholder by itself. */
  lemma ReplaceWhole(p: string, q: string, subst: string)
    requires IsPlaceholder(p) && IsPlaceholder(q)
    ensures Replace(p, q, subst) == if p == q then subst else p
  {
    assert p + "" == p && subst + "" == subst;
    if p == q {
      ReplaceHits("", p, subst);
    } else {
      ReplaceSkipsPlaceholder("", q, p, subst);
    }
  }

  lemma ReplaceBraceFree(s: string, q: string, subst: string)
    requires IsPlaceholder(q) && BraceFree(s)
    ensures Replace(s, q, subst) == s
  {
    ReplaceSkipsBraceFree(s, "", q, subst);
    assert s + "" == s;
  }

  lemma FillingValues(enc: Encoding, query: string, location: string)
    ensures Filling(enc, query, location)[QUERY] == enc.quotePlus(Strip(query))
    ensures Filling(enc, query, location)[LOCATION] == enc.quotePlus(Strip(location))
    ensures Filling(enc, query, location)[QUERY_SLUG] == enc.quoteSlug(Slugify(query))
    ensures Filling(enc, query, location)[LOCATION_SLUG] == enc.quoteSlug(Slugify(location))
  {
    DistinctPlaceholders();
  }

  /** One stage leaves a placeholder alone or makes it final. */
  ghost predicate Stage(s: string, p: string, final: string) {
    s == p || (s == final && BraceFree(final))
  }

  lemma NextStage(s: string, p: string, final: string, q: string, subst: string)
    requires IsPlaceholder(p) && IsPlaceholder(q) && Stage(s, p, final) && (p == q ==> subst == final)
      && BraceFree(final)
    ensures Stage(Replace(s, q, subst), p, final) && Closed(s)
    ensures p == q || s == final ==> Replace(s, q, subst) == final
  {
    OneClosingBrace(p);
    if s == final && BraceFree(s) {
      ReplaceBraceFree(s, q, subst);
    } else {
      ReplaceWhole(p, q, subst);
    }
  }

  lemma WholeBuilt(enc: Encoding, utf8: char -> seq<Byte>, p: string, query: string, location: string)
    requires IsPercent(enc, utf8) && IsPlaceholder(p)
    ensures BuildSearchUrl(enc, p, query, location) == Filling(enc, query, location)[p]
    ensures StaysClosed(enc, p, query, location)
  {
    FillingValues(enc, query, location);
    QuotedHasNoBraces(utf8, Strip(query));
    QuotedHasNoBraces(utf8, Strip(location));
    QuotedHasNoBraces(utf8, Slugify(query));
    QuotedHasNoBraces(utf8, Slugify(location));
    var final := Filling(enc, query, location)[p];
    NextStage(p, p, final, QUERY, enc.quotePlus(Strip(query)));
    NextStage(AfterQuery(enc, p, query), p, final, LOCATION, enc.quotePlus(Strip(location)));
    NextStage(AfterLocation(enc, p, query, location), p, final, QUERY_SLUG, enc.quoteSlug(Slugify(query)));
    NextStage(AfterSlug(enc, p, query, location), p, final, LOCATION_SLUG, enc.quoteSlug(Slugify(location)));
  }

  /** A placeholder broken by a location that is rendered as its slug keeps its brace. */
  lemma SlugBreaks(enc: Encoding, utf8: char -> seq<Byte>, p: string, part: string, query: string, location: string)
    requires IsPercent(enc, utf8) && IsPlaceholder(p) && part != "" && HitsNoBrace(enc.same, part)
      && Occurs(enc.same, p, part)
    ensures StaysClosed(enc, Sub(enc.same, p, part, LOCATION_SLUG), query, location)
    ensures '{' in BuildSearchUrl(enc, Sub(enc.same, p, part, LOCATION_SLUG), query, location)
  {
    var a, b := enc.quotePlus(Strip(query)), enc.quotePlus(Strip(location));
    var c, d := enc.quoteSlug(Slugify(query)), enc.quoteSlug(Slugify(location));
    DistinctPlaceholders();
    OneClosingBrace(p);
    SubInPlaceholder(enc.same, p, part, LOCATION_SLUG);
    ReplaceSkipsBroken(enc.same, p, part, LOCATION_SLUG, QUERY, a);
    ReplaceSkipsBroken(enc.same, p, part, LOCATION_SLUG, LOCATION, b);
    ReplaceSkipsBroken(enc.same, p, part, LOCATION_SLUG, QUERY_SLUG, c);
    ReplaceInBroken(enc.same, p, part, LOCATION_SLUG, d);
    SubInPlaceholder(enc.same, p, part, d);
  }

  /** One broken by a location that is rendered as itself shows the rendering, until that spells a placeholder. */
  lemma RenderingInside(enc: Encoding, utf8: char -> seq<Byte>, p: string, part: string, query: string,
      location: string)
    requires IsPercent(enc, utf8) && IsPlaceholder(p) && part != "" && HitsNoBrace(enc.same, part)
      && Occurs(enc.same, p, part)
    ensures
      var inside := Sub(enc.same, p, part, enc.quotePlus(Strip(location)));
      && StaysClosed(enc, Sub(enc.same, p, part, LOCATION), query, location)
      && (inside == QUERY_SLUG ==>
           BuildSearchUrl(enc, Sub(enc.same, p, part, LOCATION), query, location) == enc.quoteSlug(Slugify(query)))
      && (inside != QUERY_SLUG && inside != LOCATION_SLUG ==>
           '{' in BuildSearchUrl(enc, Sub(enc.same, p, part, LOCATION), query, location))
  {
    var a, b := enc.quotePlus(Strip(query)), enc.quotePlus(Strip(location));
    QuotedHasNoBraces(utf8, Strip(location));
    QuotedHasNoBraces(utf8, Slugify(query));
    DistinctPlaceholders();
    OneClosingBrace(p);
    SubInPlaceholder(enc.same, p, part, LOCATION);
    ReplaceSkipsBroken(enc.same, p, part, LOCATION, QUERY, a);
    ReplaceInBroken(enc.same, p, part, LOCATION, b);
    var word := BracesAround(enc.same, p, part, b);
    SlugStages(word, enc.quoteSlug(Slugify(query)), enc.quoteSlug(Slugify(location)));
  }

  /** The last two stages, on a word in braces. */
  lemma SlugStages(word: string, c: string, d: string)
    requires NoBraces(word) && BraceFree(c)
    ensures
      var s := "{" + word + "}";
      && Closed(s) && Closed(Replace(s, QUERY_SLUG, c))
      && (s == QUERY_SLUG ==> Replace(Replace(s, QUERY_SLUG, c), LOCATION_SLUG, d) == c)
      && (s != QUERY_SLUG && s != LOCATION_SLUG ==> '{' in Replace(Replace(s, QUERY_SLUG, c), LOCATION_SLUG, d))
  {
    var s := "{" + word + "}";
    ReplaceInBraces(word, QUERY_SLUG, c);
    ReplaceInBraces(word, LOCATION_SLUG, d);
    ReplaceBraceFree(c, LOCATION_SLUG, d);
    assert s[0] == '{' && EndsInBrace(s);
  }

  /** The rendering mends exactly the slug placeholder, and only if it is spelled as it stood there. */
  lemma MendedIff(enc: Encoding, p: string, part: string, b: string)
    requires (p == QUERY || p == QUERY_SLUG) && part != "" && Occurs(enc.same, p, part) && (part == b || '%' in b)
    ensures Sub(enc.same, p, part, b) == QUERY_SLUG <==> p == QUERY_SLUG && HitsAre(enc.same, p, part, b)
    ensures Sub(enc.same, p, part, b) != LOCATION_SLUG
  {
    DistinctPlaceholders();
    if part == b {
      SubSameLength(enc.same, p, part, b);
      SubIsIdentityIff(enc.same, p, part, b);
    } else {
      var i, more := FirstHit(enc.same, p, part, b);
      assert '%' in p[..i] + b + more;
      NoPercent(p);
      NoPercent(QUERY_SLUG);
      NoPercent(LOCATION_SLUG);
      if HitsAre(enc.same, p, part, b) {
        ExactHitIsPart(enc.same, p, part, b, '%');
      }
    }
  }

  lemma {:induction false} SubSameLength(same: (char, char) -> bool, value: string, part: string, subst: string)
    requires part != "" && |subst| == |part|
    ensures |Sub(same, value, part, subst)| == |value|
    decreases |value|
  {
    if value == "" {
    } else if HitHere(same, value, part) {
      SubSameLength(same, value[|part|..], part, subst);
    } else {
      SubSameLength(same, value[1..], part, subst);
    }
  }

  lemma {:induction false} ExactHitIsPart(same: (char, char) -> bool, value: string, part: string, exact: string,
      c: char)
    requires part != "" && Occurs(same, value, part) && HitsAre(same, value, part, exact) && c in exact
    ensures c in value
    decreases |value|
  {
    if HitHere(same, value, part) {
      assert value[..|part|] == exact;
    } else {
      ExactHitIsPart(same, value[1..], part, exact, c);
    }
  }

  lemma NoPercent(p: string)
    requires IsPlaceholder(p)
    ensures '%' !in p && ' ' !in p
  {
  }

  /** What building makes of the query's holes: the rendered query if the placeholder is intact, else a brace stays. */
  lemma QueryHoleBuilt(enc: Encoding, utf8: char -> seq<Byte>, rest: string, query: string, location: string)
    requires IsPercent(enc, utf8) && Variant(enc, rest, Strip(query), QUERY, QUERY_SLUG).Some?
    requires PlainLocation(enc, rest, query, location)
    ensures
      var p := QueryHit(enc, rest, query).1;
      && p in TemplateHoles(enc, rest, query, location)
      && HoleBuilt(enc, p, TemplateHoles(enc, rest, query, location)[p], query, location,
        Intact(enc, rest, query, location))
  {
    HoleBuiltAfter(enc, utf8, Shown(QueryTokens(enc, rest, query), map[]), QueryHit(enc, rest, query).1,
                   LocationHit(enc, rest, query, location), query, location);
  }

  lemma HoleBuiltAfter(
      enc: Encoding, utf8: char -> seq<Byte>, value: string, p: string, found: Option<(string, string)>,
      query: string, location: string)
    requires IsPercent(enc, utf8) && (p == QUERY || p == QUERY_SLUG)
    requires found.Some? ==> found.value.0 != "" && NoBraces(found.value.0)
    requires found.Some? ==> found == Variant(enc, value, Strip(location), LOCATION, LOCATION_SLUG)
    ensures p in HolesAfter(enc, p, found)
    ensures HoleBuilt(enc, p, HolesAfter(enc, p, found)[p], query, location, IntactAfter(enc, p, found, location))
  {
    if found.None? {
      FilledWhole(enc, utf8, p, query, location);
    } else {
      var (part, l) := found.value;
      QueryIsNoLocation(p, l);
      HolesAt(enc.same, p, part, l);
      HoleAfterHit(enc, utf8, value, p, part, l, query, location);
    }
  }

  lemma HolesAt(same: (char, char) -> bool, p: string, part: string, l: string)
    requires part != "" && p != l
    ensures p in Holes(same, p, part, l) && Holes(same, p, part, l)[p] == Sub(same, p, part, l)
    ensures l in Holes(same, p, part, l) && Holes(same, p, part, l)[l] == l
  {
  }

  lemma HoleAfterHit(
      enc: Encoding, utf8: char -> seq<Byte>, value: string, p: string, part: string, l: string, query: string,
      location: string)
    requires IsPercent(enc, utf8) && (p == QUERY || p == QUERY_SLUG) && part != "" && NoBraces(part)
    requires Variant(enc, value, Strip(location), LOCATION, LOCATION_SLUG) == Some((part, l))
    ensures HoleBuilt(enc, p, Sub(enc.same, p, part, l), query, location,
                      !Occurs(enc.same, p, part)
                      || (p == QUERY_SLUG && l == LOCATION
                        && HitsAre(enc.same, p, part, enc.quotePlus(Strip(location)))))
  {
    NoBracesHitNone(enc.same, part);
    if Occurs(enc.same, p, part) {
      TouchedHoleBuilt(enc, utf8, value, p, part, l, query, location);
    } else {
      SubSkipsAll(enc.same, p, part, l);
      FilledWhole(enc, utf8, p, query, location);
    }
  }

  lemma FilledWhole(enc: Encoding, utf8: char -> seq<Byte>, p: string, query: string, location: string)
    requires IsPercent(enc, utf8) && IsPlaceholder(p)
    ensures HoleBuilt(enc, p, p, query, location, true)
  {
    WholeBuilt(enc, utf8, p, query, location);
  }

  ghost predicate HoleBuilt(enc: Encoding, p: string, shown: string, query: string, location: string, intact: bool) {
    && StaysClosed(enc, shown, query, location)
    && if intact
       then p in Filling(enc, query, location)
            && BuildSearchUrl(enc, shown, query, location) == Filling(enc, query, location)[p]
       else '{' in BuildSearchUrl(enc, shown, query, location)
  }

  lemma {:induction false} SubSkipsAll(same: (char, char) -> bool, value: string, part: string, subst: string)
    requires part != "" && !Occurs(same, value, part)
    ensures Sub(same, value, part, subst) == value
    decreases |value|
  {
    if value == "" {
    } else {
      SubSkipsAll(same, value[1..], part, subst);
      assert value == [value[0]] + value[1..];
    }
  }

  lemma TouchedHoleBuilt(
      enc: Encoding, utf8: char -> seq<Byte>, value: string, p: string, part: string, l: string, query: string,
      location: string)
    requires IsPercent(enc, utf8) && (p == QUERY || p == QUERY_SLUG) && part != ""
    requires Variant(enc, value, Strip(location), LOCATION, LOCATION_SLUG) == Some((part, l))
    requires HitsNoBrace(enc.same, part) && Occurs(enc.same, p, part)
    ensures HoleBuilt(enc, p, Sub(enc.same, p, part, l), query, location,
                      p == QUERY_SLUG && l == LOCATION && HitsAre(enc.same, p, part, enc.quotePlus(Strip(location))))
  {
    FillingValues(enc, query, location);
    DistinctPlaceholders();
    if l == LOCATION {
      NoPercent(p);
      TouchingVariant(enc, utf8, value, Strip(location), LOCATION, LOCATION_SLUG, p);
      MendedIff(enc, p, part, enc.quotePlus(Strip(location)));
      RenderingInside(enc, utf8, p, part, query, location);
    } else {
      SlugBreaks(enc, utf8, p, part, query, location);
    }
  }

  // ----- the round trip

  /** Every replaced text is spelled as the build step renders it. */
  ghost predicate SpelledAs(tokens: seq<Token>, fill: map<string, string>) {
    forall k :: 0 <= k < |tokens| ==> Fill(tokens[k], fill) == Was(tokens[k])
  }

  lemma {:induction false} FilledIsOriginal(tokens: seq<Token>, fill: map<string, string>)
    requires forall k :: 0 <= k < |tokens| ==> Comparable(Was(tokens[k]), Fill(tokens[k], fill))
    ensures Shown(tokens, fill) == Original(tokens) <==> SpelledAs(tokens, fill)
    decreases |tokens|
  {
    if tokens == [] {
    } else {
      var n := |tokens| - 1;
      var before, last := tokens[..n], tokens[n];
      FilledIsOriginal(before, fill);
      assert tokens == before + [last];
      ShownConcat(before, [last], fill);
      OriginalConcat(before, [last]);
      assert Shown([last], fill) == Fill(last, fill) && Original([last]) == Was(last);
      SameEndings(Shown(before, fill), Fill(last, fill), Original(before), Was(last));
      assert SpelledAs(tokens, fill) <==> SpelledAs(before, fill) && Fill(last, fill) == Was(last);
    }
  }

  /** Texts whose last parts are comparable are equal exactly when both parts are. */
  lemma SameEndings(a: string, x: string, b: string, y: string)
    requires Comparable(y, x)
    ensures a + x == b + y <==> a == b && x == y
  {
    if x == y {
      if |a| == |b| {
        ConcatSame(a, x, b, y);
      } else {
        assert |a + x| != |b + y|;
      }
    } else {
      var r :| EndsDifferAt(y, x, r);
      assert (a + x)[|a + x| - 1 - r] == x[|x| - 1 - r] && (b + y)[|b + y| - 1 - r] == y[|y| - 1 - r];
    }
  }

  /** The holes of the location are always filled with the rendered location. */
  lemma HolesAfterBuilding(enc: Encoding, utf8: char -> seq<Byte>, rest: string, query: string, location: string)
    requires IsPercent(enc, utf8) && Variant(enc, rest, Strip(query), QUERY, QUERY_SLUG).Some?
    requires PlainLocation(enc, rest, query, location)
    ensures
      var holes, p := TemplateHoles(enc, rest, query, location), QueryHit(enc, rest, query).1;
      && p in holes && HoleBuilt(enc, p, holes[p], query, location, Intact(enc, rest, query, location))
      && forall h :: h in holes && h != p ==> HoleBuilt(enc, h, holes[h], query, location, true)
  {
    QueryHoleBuilt(enc, utf8, rest, query, location);
    var found := LocationHit(enc, rest, query, location);
    if found.Some? {
      QueryIsNoLocation(QueryHit(enc, rest, query).1, found.value.1);
      FilledWhole(enc, utf8, found.value.1, query, location);
    }
  }

  /** Building from the inferred template builds each hole, and changes nothing else. */
  lemma BuildAfterInferWithLocation(
      enc: Encoding, utf8: char -> seq<Byte>, url: string, base: string, query: string, location: string)
    requires |base| <= |url| && BraceFree(base) && BraceFree(url) && IsPercent(enc, utf8)
    requires InferUrlTemplate(enc, url, base, query, location).Some?
      && PlainLocation(enc, url[|base|..], query, location)
    ensures
      var rest := url[|base|..];
      var tokens, holes := LearnedTokens(enc, rest, query, location), TemplateHoles(enc, rest, query, location);
      && BuildSearchUrl(enc, InferUrlTemplate(enc, url, base, query, location).value, query, location)
         == base + Shown(tokens, Built(enc, holes, query, location))
      && Original(tokens) == rest && TokensOk(tokens, holes.Keys)
  {
    var rest := url[|base|..];
    var holes := TemplateHoles(enc, rest, query, location);
    LearnedTokensShown(enc, utf8, url, base, query, location);
    HolesAfterBuilding(enc, utf8, rest, query, location);
    assert forall h :: h in holes ==> StaysClosed(enc, holes[h], query, location);
    BuildInHoles(enc, base, LearnedTokens(enc, rest, query, location), holes.Keys, holes, query, location);
  }

  lemma HoleFilled(enc: Encoding, holes: map<string, string>, h: string, query: string, location: string)
    requires h in holes && HoleBuilt(enc, h, holes[h], query, location, true)
    ensures Fill(Hole(h, ""), Built(enc, holes, query, location)) == Fill(Hole(h, ""), Filling(enc, query, location))
  {
  }

  /** An intact template is filled with the rendered query and location. */
  lemma IntactIsFilled(
      enc: Encoding, utf8: char -> seq<Byte>, rest: string, query: string, location: string, tokens: seq<Token>)
    requires IsPercent(enc, utf8) && Variant(enc, rest, Strip(query), QUERY, QUERY_SLUG).Some?
    requires PlainLocation(enc, rest, query, location)
    requires Intact(enc, rest, query, location) && TokensOk(tokens, TemplateHoles(enc, rest, query, location).Keys)
    ensures Shown(tokens, Built(enc, TemplateHoles(enc, rest, query, location), query, location))
         == Shown(tokens, Filling(enc, query, location))
  {
    var holes := TemplateHoles(enc, rest, query, location);
    HolesAfterBuilding(enc, utf8, rest, query, location);
    forall h | h in holes.Keys
      ensures Fill(Hole(h, ""), Built(enc, holes, query, location)) == Fill(Hole(h, ""), Filling(enc, query, location))
    {
      HoleFilled(enc, holes, h, query, location);
    }
    ShownSame(tokens, holes.Keys, Built(enc, holes, query, location), Filling(enc, query, location));
  }

  /** A template that is not intact leaves a brace in what is built from it. */
  lemma BrokenLeavesBrace(
      enc: Encoding, utf8: char -> seq<Byte>, rest: string, query: string, location: string)
    requires IsPercent(enc, utf8) && BraceFree(rest)
    requires Variant(enc, rest, Strip(query), QUERY, QUERY_SLUG).Some? && !Intact(enc, rest, query, location)
    requires PlainLocation(enc, rest, query, location)
    ensures '{' in Shown(LearnedTokens(enc, rest, query, location),
                         Built(enc, TemplateHoles(enc, rest, query, location), query, location))
  {
    var (part, p) := QueryHit(enc, rest, query);
    var built := Built(enc, TemplateHoles(enc, rest, query, location), query, location);
    HolesAfterBuilding(enc, utf8, rest, query, location);
    LiteralTokens(rest);
    FoundInText(enc, rest, Strip(query), QUERY, QUERY_SLUG);
    var hole := OccursLeavesHole(enc.same, Tokens(rest), part, p);
    var found := LocationHit(enc, rest, query, location);
    HolesOfSub(enc.same, QueryTokens(enc, rest, query), found.value.0, found.value.1, hole);
    ShownHolds(LearnedTokens(enc, rest, query, location), built, hole, '{');
  }

  /** No replaced text ends like its rendering, unless it is its rendering. */
  lemma HolesComparable(
      enc: Encoding, utf8: char -> seq<Byte>, rest: string, query: string, location: string, token: Token)
    requires IsPercent(enc, utf8) && Variant(enc, rest, Strip(query), QUERY, QUERY_SLUG).Some? && BraceFree(rest)
    requires token in LearnedTokens(enc, rest, query, location)
    ensures Comparable(Was(token), Fill(token, Filling(enc, query, location)))
  {
    if token.Hole? {
      var (part, p) := QueryHit(enc, rest, query);
      var found := LocationHit(enc, rest, query, location);
      LiteralTokens(rest);
      FillingValues(enc, query, location);
      DistinctPlaceholders();
      StripTwice(query);
      StripTwice(location);
      if found.Some? {
        HolesOfSub(enc.same, QueryTokens(enc, rest, query), found.value.0, found.value.1, token);
      }
      if found.Some? && HoleSpelled(enc.same, token, found.value.1, found.value.0) {
        VariantComparable(enc, utf8, Shown(QueryTokens(enc, rest, query), map[]), Strip(location),
                          LOCATION, LOCATION_SLUG, token.was);
      } else {
        HolesOfSub(enc.same, Tokens(rest), part, p, token);
        NoHoleInLiterals(Tokens(rest), token);
        VariantComparable(enc, utf8, rest, Strip(query), QUERY, QUERY_SLUG, token.was);
      }
    }
  }

  lemma NoHoleInLiterals(tokens: seq<Token>, token: Token)
    requires TokensOk(tokens, {}) && token.Hole?
    ensures token !in tokens
  {
    forall k | 0 <= k < |tokens| ensures tokens[k] != token {
      assert TokenOk(tokens[k], {});
    }
  }

  /** What was learned from the part after the host is rendered back exactly under these conditions. */
  lemma TokensComeBackIff(
      enc: Encoding, utf8: char -> seq<Byte>, rest: string, query: string, location: string, tokens: seq<Token>)
    requires IsPercent(enc, utf8) && BraceFree(rest)
    requires Variant(enc, rest, Strip(query), QUERY, QUERY_SLUG).Some? && PlainLocation(enc, rest, query, location)
    requires tokens == LearnedTokens(enc, rest, query, location) && Original(tokens) == rest
    requires TokensOk(tokens, TemplateHoles(enc, rest, query, location).Keys)
    ensures
      Shown(tokens, Built(enc, TemplateHoles(enc, rest, query, location), query, location)) == rest
      <==> Intact(enc, rest, query, location) && SpelledAs(tokens, Filling(enc, query, location))
  {
    if Intact(enc, rest, query, location) {
      IntactIsFilled(enc, utf8, rest, query, location, tokens);
      forall k | 0 <= k < |tokens| ensures Comparable(Was(tokens[k]), Fill(tokens[k], Filling(enc, query, location))) {
        HolesComparable(enc, utf8, rest, query, location, tokens[k]);
      }
      FilledIsOriginal(tokens, Filling(enc, query, location));
    } else {
      BrokenLeavesBrace(enc, utf8, rest, query, location);
      assert '{' !in rest;
    }
  }

  lemma RestComesBackIff(
      enc: Encoding, utf8: char -> seq<Byte>, url: string, base: string, query: string, location: string)
    requires |base| <= |url| && BraceFree(base) && BraceFree(url) && IsPercent(enc, utf8)
    requires InferUrlTemplate(enc, url, base, query, location).Some?
      && PlainLocation(enc, url[|base|..], query, location)
    ensures
      var rest := url[|base|..];
      var tokens, holes := LearnedTokens(enc, rest, query, location), TemplateHoles(enc, rest, query, location);
      Shown(tokens, Built(enc, holes, query, location)) == rest
      <==> Intact(enc, rest, query, location) && SpelledAs(tokens, Filling(enc, query, location))
  {
    var rest := url[|base|..];
    BuildAfterInferWithLocation(enc, utf8, url, base, query, location);
    TokensComeBackIff(enc, utf8, rest, query, location, LearnedTokens(enc, rest, query, location));
  }

  lemma PrefixAndRest(base: string, built: string, url: string)
    requires |base| <= |url|
    ensures base + built == url <==> url[..|base|] == base && built == url[|base|..]
  {
    assert url == url[..|base|] + url[|base|..];
    ConcatSame(base, built, url[..|base|], url[|base|..]);
  }

  /**
   * The round trip, exactly: for any query, and any location found without braces, the rebuilt URL is the
   * original one if and only if the URL starts with the scheme and host as the parser spells them,
   * the location left the query's placeholder intact, and query and location are spelled
   * everywhere, regardless of case when they were found, as they are rendered.
   */
  lemma RoundTripWithLocation(
      enc: Encoding, utf8: char -> seq<Byte>, url: string, base: string, query: string, location: string)
    requires |base| <= |url| && BraceFree(base) && BraceFree(url) && IsPercent(enc, utf8)
    requires InferUrlTemplate(enc, url, base, query, location).Some?
      && PlainLocation(enc, url[|base|..], query, location)
    ensures
      var rest := url[|base|..];
      BuildSearchUrl(enc, InferUrlTemplate(enc, url, base, query, location).value, query, location) == url
      <==> url[..|base|] == base && Intact(enc, rest, query, location)
           && SpelledAs(LearnedTokens(enc, rest, query, location), Filling(enc, query, location))
  {
    var rest := url[|base|..];
    var tokens := LearnedTokens(enc, rest, query, location);
    var built := Shown(tokens, Built(enc, TemplateHoles(enc, rest, query, location), query, location));
    BuildAfterInferWithLocation(enc, utf8, url, base, query, location);
    RestComesBackIff(enc, utf8, url, base, query, location);
    PrefixAndRest(base, built, url);
  }

  // ----- examples

  lemma {:induction false} OccursInside(same: (char, char) -> bool, a: string, b: string, c: string, part: string)
    requires part != "" && Occurs(same, b, part)
    ensures Occurs(same, a + b + c, part)
    decreases |a| + |b|
  {
    var whole := a + b + c;
    if a == "" {
      if HitHere(same, b, part) {
        assert forall k :: 0 <= k < |part| ==> whole[k] == b[k];
      } else {
        assert whole[1..] == "" + b[1..] + c;
        OccursInside(same, "", b[1..], c, part);
      }
    } else {
      assert whole[1..] == a[1..] + b + c;
      OccursInside(same, a[1..], b, c, part);
    }
  }

  lemma {:induction false} HoleIsShown(tokens: seq<Token>, hole: Token) returns (a: string, c: string)
    requires hole in tokens && hole.Hole?
    ensures Shown(tokens, map[]) == a + hole.p + c
  {
    if hole == tokens[0] {
      a, c := "", Shown(tokens[1..], map[]);
      assert "" + hole.p + c == hole.p + c;
    } else {
      assert hole in tokens[1..];
      var before;
      before, c := HoleIsShown(tokens[1..], hole);
      a := Fill(tokens[0], map[]) + before;
      assert Fill(tokens[0], map[]) + (before + hole.p + c) == a + hole.p + c;
    }
  }

  /** A location that is part of a placeholder is always found once that placeholder stands for the query. */
  lemma LocationFoundInPlaceholder(enc: Encoding, utf8: char -> seq<Byte>, rest: string, query: string,
      location: string)
    requires IsPercent(enc, utf8) && BraceFree(rest) && Variant(enc, rest, Strip(query), QUERY, QUERY_SLUG).Some?
    requires enc.quotePlus(Strip(location)) != "" && Strip(location) != ""
    requires Occurs(enc.same, QueryHit(enc, rest, query).1, enc.quotePlus(Strip(location)))
    ensures LocationHit(enc, rest, query, location) == Some((enc.quotePlus(Strip(location)), LOCATION))
  {
    var (part, p) := QueryHit(enc, rest, query);
    LiteralTokens(rest);
    FoundInText(enc, rest, Strip(query), QUERY, QUERY_SLUG);
    var hole := OccursLeavesHole(enc.same, Tokens(rest), part, p);
    var a, c := HoleIsShown(QueryTokens(enc, rest, query), hole);
    OccursInside(enc.same, a, p, c, enc.quotePlus(Strip(location)));
  }

  /** So a location that is part of "{query}" never comes back, whatever the URL and the case of its letters. */
  lemma LocationInQueryPlaceholder(
      enc: Encoding, utf8: char -> seq<Byte>, url: string, base: string, query: string, location: string)
    requires |base| <= |url| && BraceFree(base) && BraceFree(url) && IsPercent(enc, utf8)
    requires InferUrlTemplate(enc, url, base, query, location).Some? && QueryHit(enc, url[|base|..], query).1 == QUERY
    requires enc.quotePlus(Strip(location)) != "" && Strip(location) != ""
    requires Occurs(enc.same, QUERY, enc.quotePlus(Strip(location)))
    ensures BuildSearchUrl(enc, InferUrlTemplate(enc, url, base, query, location).value, query, location) != url
  {
    LocationFoundInPlaceholder(enc, utf8, url[|base|..], query, location);
    QuotedHasNoBraces(utf8, Strip(location));
    DistinctPlaceholders();
    RoundTripWithLocation(enc, utf8, url, base, query, location);
  }

  /** One that is part of "{query-slug}" comes back if, besides, it is spelled in the placeholder's own case. */
  lemma LocationInSlugPlaceholder(
      enc: Encoding, utf8: char -> seq<Byte>, url: string, base: string, query: string, location: string)
    requires |base| <= |url| && BraceFree(base) && BraceFree(url) && IsPercent(enc, utf8)
    requires InferUrlTemplate(enc, url, base, query, location).Some?
      && QueryHit(enc, url[|base|..], query).1 == QUERY_SLUG
    requires enc.quotePlus(Strip(location)) != "" && Strip(location) != ""
    requires Occurs(enc.same, QUERY_SLUG, enc.quotePlus(Strip(location)))
    ensures
      BuildSearchUrl(enc, InferUrlTemplate(enc, url, base, query, location).value, query, location) == url
      <==> url[..|base|] == base
           && HitsAre(enc.same, QUERY_SLUG, enc.quotePlus(Strip(location)), enc.quotePlus(Strip(location)))
           && SpelledAs(LearnedTokens(enc, url[|base|..], query, location), Filling(enc, query, location))
  {
    LocationFoundInPlaceholder(enc, utf8, url[|base|..], query, location);
    QuotedHasNoBraces(utf8, Strip(location));
    RoundTripWithLocation(enc, utf8, url, base, query, location);
  }

  predicate Plain(text: string) {
    text != "" && forall k :: 0 <= k < |text| ==> Unreserved(text[k])
  }

  lemma StripPlain(text: string)
    requires text != "" && !IsSpace(text[0]) && !IsSpace(text[|text| - 1])
    ensures Strip(text) == text
  {
  }

  lemma PlainIsNoSpace(c: char)
    requires Unreserved(c)
    ensures !IsSpace(c)
  {
  }

  lemma PlainText(enc: Encoding, utf8: char -> seq<Byte>, text: string)
    requires IsPercent(enc, utf8) && Plain(text)
    ensures Strip(text) == text == enc.quotePlus(text)
  {
    QuotePlain(utf8, text);
    PlainIsNoSpace(text[0]);
    PlainIsNoSpace(text[|text| - 1]);
    StripPlain(text);
  }

  lemma FirstVariant(enc: Encoding, value: string, text: string, p: string, q: string)
    requires enc.quotePlus(text) != "" && Occurs(enc.same, value, enc.quotePlus(text))
    ensures Variant(enc, value, text, p, q) == Some((enc.quotePlus(text), p))
  {
  }

  /** A plain text is found as it is. */
  lemma PlainFound(enc: Encoding, utf8: char -> seq<Byte>, a: string, text: string, c: string, p: string, q: string)
    requires IsPercent(enc, utf8) && Plain(text)
    ensures Strip(text) == text == enc.quotePlus(text) && Variant(enc, a + text + c, text, p, q) == Some((text, p))
  {
    PlainText(enc, utf8, text);
    assert HitHere(enc.same, text, text);
    OccursInside(enc.same, a, text, c, text);
    FirstVariant(enc, a + text + c, text, p, q);
  }

  /**
   * For instance: search for any plain text in "q". The location takes the q of the placeholder, and the
   * URL that is built is not the one the template was learned from.
   */
  lemma LocationQBreaksQuery(enc: Encoding, utf8: char -> seq<Byte>, base: string, a: string, query: string, c: string)
    requires IsPercent(enc, utf8) && Plain(query) && BraceFree(base) && BraceFree(a + query + c)
    ensures
      var url := base + (a + query + c);
      && InferUrlTemplate(enc, url, base, query, "q").Some?
      && BuildSearchUrl(enc, InferUrlTemplate(enc, url, base, query, "q").value, query, "q") != url
  {
    var rest, location := a + query + c, "q";
    var url := base + rest;
    assert url[|base|..] == rest;
    PlainFound(enc, utf8, a, query, c, QUERY, QUERY_SLUG);
    PlainText(enc, utf8, location);
    QueryHoldsQ(enc.same);
    FoundInfers(enc, url, base, query, location);
    LocationInQueryPlaceholder(enc, utf8, url, base, query, location);
  }

  lemma FoundInfers(enc: Encoding, url: string, base: string, query: string, location: string)
    requires |base| <= |url| && Strip(query) != "" && Variant(enc, url[|base|..], Strip(query), QUERY, QUERY_SLUG).Some?
    ensures InferUrlTemplate(enc, url, base, query, location).Some?
  {
  }

  lemma QueryHoldsQ(same: (char, char) -> bool)
    requires forall c :: same(c, c)
    ensures Occurs(same, QUERY, "q")
  {
    assert HitHere(same, "query}", "q");
    assert QUERY[1..] == "query}";
  }

  lemma {:induction false} QuotePlain(utf8: char -> seq<Byte>, text: string)
    requires forall k :: 0 <= k < |text| ==> Unreserved(text[k])
    ensures QuotePlus(utf8, text) == text == Quote(utf8, text)
  {
    if text == "" {
    } else {
      var before, c := text[..|text| - 1], text[|text| - 1];
      QuotePlain(utf8, before);
      assert text == before + [c] && QuoteChar(utf8, c) == [c] == QuotePlusChar(utf8, c);
    }
  }
}
