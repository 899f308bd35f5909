/**
 * The URL template of a search recipe: inferring it from the URL a person ended on, and building
 * a search URL from it again.
 */
module UrlTemplate {
  import opened PyText
  import opened Wrappers

  const QUERY := "{query}"
  const LOCATION := "{location}"
  const QUERY_SLUG := "{query-slug}"
  const LOCATION_SLUG := "{location-slug}"

  /** Percent encoding and case folding, as inputs. `same` is how IGNORECASE compares two characters. */
  datatype Encoding = Encoding(
    quotePlus: string -> string,
    quoteAll: string -> string,
    quoteSlug: string -> string,
    same: (char, char) -> bool)

  // ----- replace-all

  predicate HitHere(same: (char, char) -> bool, value: string, part: string) {
    |part| <= |value| && forall k :: 0 <= k < |part| ==> same(value[k], part[k])
  }

  /** `re.sub(re.escape(part), by, value)`: leftmost hits, without overlap. */
  function Sub(same: (char, char) -> bool, value: string, part: string, subst: string): string
    requires part != ""
    decreases |value|
  {
    if value == "" then ""
    else if HitHere(same, value, part) then subst + Sub(same, value[|part|..], part, subst)
    else [value[0]] + Sub(same, value[1..], part, subst)
  }

  predicate Occurs(same: (char, char) -> bool, value: string, part: string)
    requires part != ""
    decreases |value|
  {
    value != "" && (HitHere(same, value, part) || Occurs(same, value[1..], part))
  }

  /** Every replaced hit is spelled exactly like `part`. */
  predicate HitsAre(same: (char, char) -> bool, value: string, part: string, exact: string)
    requires part != ""
    decreases |value|
  {
    value == ""
    || if HitHere(same, value, part)
       then value[..|part|] == exact && HitsAre(same, value[|part|..], part, exact)
       else HitsAre(same, value[1..], part, exact)
  }

  const EXACTLY := (a: char, b: char) => a == b

  /** `str.replace`. */
  function Replace(value: string, part: string, subst: string): string
    requires part != ""
  {
    Sub(EXACTLY, value, part, subst)
  }

  // ----- the two operations

  function Slugify(text: string): string {
    Collapse(Strip(text))
  }

  /** Runs of white space become single hyphens. */
  function Collapse(text: string): string {
    if text == "" then ""
    else if IsSpace(text[0]) then
      (if |text| > 1 && IsSpace(text[1]) then "" else "-") + Collapse(text[1..])
    else [text[0]] + Collapse(text[1..])
  }

  /** The spelling of `text` that occurs in `value`, and the placeholder that replaces it. */
  function Variant(enc: Encoding, value: string, text: string, placeholder: string, slugPlaceholder: string)
    : (r: Option<(string, string)>)
    ensures r.Some? ==> r.value.0 != "" && (r.value.1 == placeholder || r.value.1 == slugPlaceholder)
    ensures r.Some? ==> Occurs(enc.same, value, r.value.0)
  {
    var plus, all, slug := enc.quotePlus(text), enc.quoteAll(text), Slugify(text);
    if plus != "" && Occurs(enc.same, value, plus) then Some((plus, placeholder))
    else if all != "" && Occurs(enc.same, value, all) then Some((all, placeholder))
    else if text != "" && Occurs(enc.same, value, text) then Some((text, placeholder))
    else if slug != "" && slug != text && Occurs(enc.same, value, slug) then Some((slug, slugPlaceholder))
    else None
  }

  function Substitute(
      enc: Encoding, value: string, text: string, placeholder: string, slugPlaceholder: string): Option<string> {
    match Variant(enc, value, text, placeholder, slugPlaceholder)
    case None => None
    case Some(hit) => Some(Sub(enc.same, value, hit.0, hit.1))
  }

  /** `base` is the scheme and host of the results URL, as long as the prefix it is cut off by. */
  function InferUrlTemplate(enc: Encoding, url: string, base: string, query: string, location: string): Option<string>
    requires |base| <= |url|
  {
    var text := Strip(query);
    if text == "" then None
    else
      match Substitute(enc, url[|base|..], text, QUERY, QUERY_SLUG)
      case None => None
      case Some(replaced) =>
        if Strip(location) == "" then Some(base + replaced)
        else
          match Substitute(enc, replaced, Strip(location), LOCATION, LOCATION_SLUG)
          case Some(both) => Some(base + if both != "" then both else replaced)
          case None => Some(base + replaced)
  }

  function BuildSearchUrl(enc: Encoding, template: string, query: string, location: string): string {
    Replace(Replace(Replace(Replace(template,
      QUERY, enc.quotePlus(Strip(query))),
      LOCATION, enc.quotePlus(Strip(location))),
      QUERY_SLUG, enc.quoteSlug(Slugify(query))),
      LOCATION_SLUG, enc.quoteSlug(Slugify(location)))
  }

  // ----- replacing back

  predicate BraceFree(s: string) {
    '{' !in s
  }

  predicate IsPlaceholder(p: string) {
    p == QUERY || p == LOCATION || p == QUERY_SLUG || p == LOCATION_SLUG
  }

  lemma {:induction false} ReplaceSkips(prefix: string, rest: string, p: string, subst: string)
    requires p != "" && p[0] !in prefix
    ensures Replace(prefix + rest, p, subst) == prefix + Replace(rest, p, subst)
    decreases |prefix|
  {
    if prefix == "" {
      assert prefix + rest == rest;
    } else {
      var whole := prefix + rest;
      assert whole[0] != p[0];
      assert whole[1..] == prefix[1..] + rest;
      ReplaceSkips(prefix[1..], rest, p, subst);
      assert prefix == [prefix[0]] + prefix[1..];
    }
  }

  lemma ReplaceSkipsBraceFree(prefix: string, rest: string, p: string, subst: string)
    requires IsPlaceholder(p) && BraceFree(prefix)
    ensures Replace(prefix + rest, p, subst) == prefix + Replace(rest, p, subst)
  {
    ReplaceSkips(prefix, rest, p, subst);
  }

  lemma ReplaceHits(rest: string, p: string, subst: string)
    requires p != ""
    ensures Replace(p + rest, p, subst) == subst + Replace(rest, p, subst)
  {
    assert (p + rest)[|p|..] == rest;
    assert HitHere(EXACTLY, p + rest, p);
  }

  lemma PlaceholderTail(q: string)
    requires IsPlaceholder(q)
    ensures q != "" && BraceFree(q[1..])
  {
  }

  lemma ReplaceSkipsOne(whole: string, p: string, subst: string)
    requires p != "" && whole != "" && !HitHere(EXACTLY, whole, p)
    ensures Replace(whole, p, subst) == [whole[0]] + Replace(whole[1..], p, subst)
  {
  }

  lemma ReplaceSkipsHead(q: string, rest: string, p: string, subst: string)
    requires q != "" && IsPlaceholder(p) && BraceFree(q[1..]) && !HitHere(EXACTLY, q + rest, p)
    ensures Replace(q + rest, p, subst) == q + Replace(rest, p, subst)
  {
    var whole := q + rest;
    ReplaceSkipsOne(whole, p, subst);
    assert whole[1..] == q[1..] + rest && whole[0] == q[0];
    ReplaceSkipsBraceFree(q[1..], rest, p, subst);
    var r := Replace(rest, p, subst);
    assert [q[0]] + (q[1..] + r) == ([q[0]] + q[1..]) + r;
    assert q == [q[0]] + q[1..];
  }

  /** A placeholder is not a hit of any other placeholder, whatever follows. */
  lemma ReplaceSkipsPlaceholder(rest: string, p: string, q: string, subst: string)
    requires IsPlaceholder(p) && IsPlaceholder(q) && p != q
    ensures Replace(q + rest, p, subst) == q + Replace(rest, p, subst)
  {
    DifferentPlaceholders(rest, p, q);
    PlaceholderTail(q);
    ReplaceSkipsHead(q, rest, p, subst);
  }

  lemma DifferentPlaceholders(rest: string, p: string, q: string)
    requires IsPlaceholder(p) && IsPlaceholder(q) && p != q
    ensures !HitHere(EXACTLY, q + rest, p)
  {
    var whole := q + rest;
    var k := if (p == QUERY || p == QUERY_SLUG) && (q == QUERY || q == QUERY_SLUG) then 6
             else if (p == LOCATION || p == LOCATION_SLUG) && (q == LOCATION || q == LOCATION_SLUG) then 9
             else 1;
    assert whole[k] == q[k] && q[k] != p[k];
  }

  /** Putting `by` for the placeholders is the same as having put `by` for the hits at once. */
  lemma {:induction false} ReplaceAfterSub(same: (char, char) -> bool, value: string, part: string, p: string,
      subst: string)
    requires part != "" && IsPlaceholder(p) && BraceFree(value)
    ensures Replace(Sub(same, value, part, p), p, subst) == Sub(same, value, part, subst)
    decreases |value|
  {
    if value == "" {
    } else if HitHere(same, value, part) {
      ReplaceHits(Sub(same, value[|part|..], part, p), p, subst);
      ReplaceAfterSub(same, value[|part|..], part, p, subst);
    } else {
      ReplaceSkipsBraceFree([value[0]], Sub(same, value[1..], part, p), p, subst);
      ReplaceAfterSub(same, value[1..], part, p, subst);
    }
  }

  /** Other placeholders are untouched. */
  lemma {:induction false} ReplaceOtherAfterSub(
      same: (char, char) -> bool, value: string, part: string, p: string, q: string, subst: string)
    requires part != "" && IsPlaceholder(p) && ((IsPlaceholder(q) && p != q) || BraceFree(q)) && BraceFree(value)
    ensures Replace(Sub(same, value, part, q), p, subst) == Sub(same, value, part, q)
    decreases |value|
  {
    if value == "" {
    } else if HitHere(same, value, part) {
      var rest := Sub(same, value[|part|..], part, q);
      if BraceFree(q) {
        ReplaceSkipsBraceFree(q, rest, p, subst);
      } else {
        ReplaceSkipsPlaceholder(rest, p, q, subst);
      }
      ReplaceOtherAfterSub(same, value[|part|..], part, p, q, subst);
    } else {
      ReplaceSkipsBraceFree([value[0]], Sub(same, value[1..], part, q), p, subst);
      ReplaceOtherAfterSub(same, value[1..], part, p, q, subst);
    }
  }

  /** Substituting the hits gives the value back exactly when every hit is spelled like the substitute. */
  lemma {:induction false} SubIsIdentityIff(same: (char, char) -> bool, value: string, part: string, subst: string)
    requires part != "" && |subst| == |part|
    ensures Sub(same, value, part, subst) == value <==> HitsAre(same, value, part, subst)
    decreases |value|
  {
    if value == "" {
    } else if HitHere(same, value, part) {
      var rest := value[|part|..];
      SubIsIdentityIff(same, rest, part, subst);
      ConcatSame(value[..|part|], rest, subst, Sub(same, rest, part, subst));
      assert value == value[..|part|] + rest;
    } else {
      SubIsIdentityIff(same, value[1..], part, subst);
      ConcatSame([value[0]], value[1..], [value[0]], Sub(same, value[1..], part, subst));
      assert value == [value[0]] + value[1..];
    }
  }

  lemma ConcatSame(a: string, b: string, c: string, d: string)
    requires |a| == |c|
    ensures a + b == c + d <==> a == c && b == d
  {
    assert (a + b)[..|a|] == a && (a + b)[|a|..] == b;
    assert (c + d)[..|c|] == c && (c + d)[|c|..] == d;
  }

  lemma {:induction false} SubLength(same: (char, char) -> bool, value: string, part: string, subst: string)
    requires part != ""
    ensures |Sub(same, value, part, subst)| == |value| + Growth(Hits(same, value, part), |subst| - |part|)
    decreases |value|
  {
    if value == "" {
    } else if HitHere(same, value, part) {
      SubLength(same, value[|part|..], part, subst);
    } else {
      SubLength(same, value[1..], part, subst);
    }
  }

  function Hits(same: (char, char) -> bool, value: string, part: string): nat
    requires part != ""
    decreases |value|
  {
    if value == "" then 0
    else if HitHere(same, value, part) then 1 + Hits(same, value[|part|..], part)
    else Hits(same, value[1..], part)
  }

  lemma {:induction false} OccursIffHits(same: (char, char) -> bool, value: string, part: string)
    requires part != ""
    ensures Occurs(same, value, part) <==> Hits(same, value, part) > 0
    decreases |value|
  {
    if value == "" || HitHere(same, value, part) {
    } else {
      OccursIffHits(same, value[1..], part);
    }
  }

  lemma {:induction false} HitsHaveLength(same: (char, char) -> bool, value: string, part: string, exact: string)
    requires part != "" && Occurs(same, value, part) && HitsAre(same, value, part, exact)
    ensures |exact| == |part|
    decreases |value|
  {
    if HitHere(same, value, part) {
    } else {
      HitsHaveLength(same, value[1..], part, exact);
    }
  }

  // ----- the round trip

  /** Percent encoding leaves no brace in its output. */
  ghost predicate EscapesBraces(enc: Encoding) {
    forall s :: BraceFree(enc.quotePlus(s)) && BraceFree(enc.quoteSlug(s))
  }

  /** What the build step puts where the template has `placeholder`. */
  function Rendered(enc: Encoding, placeholder: string, query: string): string {
    if placeholder == QUERY then enc.quotePlus(Strip(query)) else enc.quoteSlug(Slugify(query))
  }

  lemma ReplaceInUrl(same: (char, char) -> bool, base: string, rest: string, part: string, p: string, q: string,
      subst: string)
    requires part != "" && BraceFree(base) && BraceFree(rest) && IsPlaceholder(p) && (IsPlaceholder(q) || BraceFree(q))
    ensures Replace(base + Sub(same, rest, part, q), p, subst)
         == base + Sub(same, rest, part, if p == q then subst else q)
  {
    ReplaceSkipsBraceFree(base, Sub(same, rest, part, q), p, subst);
    if p == q {
      ReplaceAfterSub(same, rest, part, p, subst);
    } else {
      ReplaceOtherAfterSub(same, rest, part, p, q, subst);
    }
  }

  /**
   * Without a location, building from the inferred template puts the rendered query for each hit
   * of the found spelling, and changes nothing else.
   */
  lemma BuildAfterInfer(enc: Encoding, url: string, base: string, query: string)
    requires |base| <= |url| && BraceFree(base) && BraceFree(url) && EscapesBraces(enc)
    requires InferUrlTemplate(enc, url, base, query, "").Some?
    ensures
      var rest := url[|base|..];
      var hit := Variant(enc, rest, Strip(query), QUERY, QUERY_SLUG).value;
      BuildSearchUrl(enc, InferUrlTemplate(enc, url, base, query, "").value, query, "")
      == base + Sub(enc.same, rest, hit.0, Rendered(enc, hit.1, query))
  {
    var rest := url[|base|..];
    var (part, p0) := Variant(enc, rest, Strip(query), QUERY, QUERY_SLUG).value;
    var plus, slug := enc.quotePlus(Strip(query)), enc.quoteSlug(Slugify(query));
    var locationPlus, locationSlug := enc.quotePlus(Strip("")), enc.quoteSlug(Slugify(""));
    ReplaceInUrl(enc.same, base, rest, part, QUERY, p0, plus);
    var p1 := if p0 == QUERY then plus else p0;
    ReplaceInUrl(enc.same, base, rest, part, LOCATION, p1, locationPlus);
    assert BraceFree(plus) && QUERY[0] == QUERY_SLUG[0] == LOCATION[0] == LOCATION_SLUG[0] == '{';
    assert p1 != LOCATION;
    ReplaceInUrl(enc.same, base, rest, part, QUERY_SLUG, p1, slug);
    var p2 := if p1 == QUERY_SLUG then slug else p1;
    ReplaceInUrl(enc.same, base, rest, part, LOCATION_SLUG, p2, locationSlug);
    assert p2 != LOCATION_SLUG;
  }

  /**
   * The round trip, exactly: the rebuilt URL is the original one if and only if the URL starts
   * with the scheme and host as the parser spells them (a lower-case scheme), and every hit,
   * found regardless of case, is spelled like the rendered query.
   */
  lemma RoundTripIff(enc: Encoding, url: string, base: string, query: string)
    requires |base| <= |url| && BraceFree(base) && BraceFree(url) && EscapesBraces(enc)
    requires InferUrlTemplate(enc, url, base, query, "").Some?
    ensures
      var rest := url[|base|..];
      var hit := Variant(enc, rest, Strip(query), QUERY, QUERY_SLUG).value;
      BuildSearchUrl(enc, InferUrlTemplate(enc, url, base, query, "").value, query, "") == url
      <==> url[..|base|] == base && HitsAre(enc.same, rest, hit.0, Rendered(enc, hit.1, query))
  {
    var rest := url[|base|..];
    var (part, p) := Variant(enc, rest, Strip(query), QUERY, QUERY_SLUG).value;
    var subst := Rendered(enc, p, query);
    var again := Sub(enc.same, rest, part, subst);
    BuildAfterInfer(enc, url, base, query);
    assert url == url[..|base|] + rest;
    assert (base + again)[..|base|] == base && (base + again)[|base|..] == again;
    if |subst| == |part| {
      SubIsIdentityIff(enc.same, rest, part, subst);
    } else {
      OccursIffHits(enc.same, rest, part);
      SubLength(enc.same, rest, part, subst);
      GrowthSign(Hits(enc.same, rest, part), |subst| - |part|);
      if HitsAre(enc.same, rest, part, subst) {
        HitsHaveLength(enc.same, rest, part, subst);
      }
    }
  }

  /** The case the learner is made for: the encoded query occurs in the path or query, always in its own case. */
  lemma EncodedQueryRoundTrips(enc: Encoding, url: string, base: string, query: string)
    requires |base| <= |url| && BraceFree(url) && EscapesBraces(enc) && url[..|base|] == base
    requires Strip(query) != "" && enc.quotePlus(Strip(query)) != ""
    requires Occurs(enc.same, url[|base|..], enc.quotePlus(Strip(query)))
    requires HitsAre(enc.same, url[|base|..], enc.quotePlus(Strip(query)), enc.quotePlus(Strip(query)))
    ensures InferUrlTemplate(enc, url, base, query, "").Some?
    ensures BuildSearchUrl(enc, InferUrlTemplate(enc, url, base, query, "").value, query, "") == url
  {
    forall k | 0 <= k < |base| ensures base[k] == url[k] {
      assert url[..|base|][k] == base[k];
    }
    RoundTripIff(enc, url, base, query);
  }

  /** `h` hits, each of which changes the length by `d`. */
  ghost function Growth(h: nat, d: int): int {
    if h == 0 then 0 else Growth(h - 1, d) + d
  }

  lemma {:induction false} GrowthSign(h: nat, d: int)
    requires h > 0 && d != 0
    ensures if d > 0 then Growth(h, d) > 0 else Growth(h, d) < 0
  {
    if h <= 1 {
    } else {
      GrowthSign(h - 1, d);
    }
  }
}
