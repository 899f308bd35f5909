/** When a URL template is learned, from which spelling, and what is built from it. */
module UrlInference {
  import opened PyText
  import opened UrlTemplate
  import opened Wrappers

  /** The spellings that are looked for, in this order. */
  function Spellings(enc: Encoding, text: string): seq<string> {
    [enc.quotePlus(text), enc.quoteAll(text), text, Slugify(text)]
  }

  predicate FoundAt(enc: Encoding, value: string, text: string, n: int) {
    0 <= n < 4 && Spellings(enc, text)[n] != "" && Occurs(enc.same, value, Spellings(enc, text)[n])
  }

  /** The `n`-th spelling occurs, and none before it. */
  ghost predicate FirstFound(enc: Encoding, value: string, text: string, n: int) {
    FoundAt(enc, value, text, n) && forall m :: 0 <= m < n ==> !FoundAt(enc, value, text, m)
  }

  /** Only a slug leads to the slug placeholder. */
  lemma VariantIff(enc: Encoding, value: string, text: string, p: string, q: string, n: int)
    requires FirstFound(enc, value, text, n)
    ensures Variant(enc, value, text, p, q) == Some((Spellings(enc, text)[n], if n < 3 then p else q))
  {
    assert n > 0 ==> !FoundAt(enc, value, text, 0);
    assert n > 1 ==> !FoundAt(enc, value, text, 1);
    assert n > 2 ==> !FoundAt(enc, value, text, 2);
  }

  lemma SomeFirstFound(enc: Encoding, value: string, text: string) returns (n: int)
    requires exists m :: FoundAt(enc, value, text, m)
    ensures FirstFound(enc, value, text, n)
  {
    n := if FoundAt(enc, value, text, 0) then 0
         else if FoundAt(enc, value, text, 1) then 1
         else if FoundAt(enc, value, text, 2) then 2 else 3;
  }

  lemma NothingFound(enc: Encoding, value: string, text: string, p: string, q: string)
    requires !exists m :: FoundAt(enc, value, text, m)
    ensures Variant(enc, value, text, p, q) == None
  {
    assert !FoundAt(enc, value, text, 0) && !FoundAt(enc, value, text, 1);
    assert !FoundAt(enc, value, text, 2) && !FoundAt(enc, value, text, 3);
  }

  /** A template is learned unless the query is blank or none of its spellings stands behind the host. */
  lemma NoTemplateIff(enc: Encoding, url: string, base: string, query: string, location: string)
    requires |base| <= |url|
    ensures InferUrlTemplate(enc, url, base, query, location).None?
       <==> Strip(query) == "" || !exists n :: FoundAt(enc, url[|base|..], Strip(query), n)
  {
    var rest, text := url[|base|..], Strip(query);
    if exists n :: FoundAt(enc, rest, text, n) {
      var n := SomeFirstFound(enc, rest, text);
      VariantIff(enc, rest, text, QUERY, QUERY_SLUG, n);
    } else {
      NothingFound(enc, rest, text, QUERY, QUERY_SLUG);
    }
  }

  /** Without a location: each hit of the first spelling found is rendered, as a slug if it was one. */
  lemma SpellingIsRendered(enc: Encoding, url: string, base: string, query: string, n: int)
    requires |base| <= |url| && BraceFree(base) && BraceFree(url) && EscapesBraces(enc)
    requires Strip(query) != "" && FirstFound(enc, url[|base|..], Strip(query), n)
    ensures InferUrlTemplate(enc, url, base, query, "").Some?
    ensures
      BuildSearchUrl(enc, InferUrlTemplate(enc, url, base, query, "").value, query, "")
      == base + Sub(enc.same, url[|base|..], Spellings(enc, Strip(query))[n],
                    if n < 3 then enc.quotePlus(Strip(query)) else enc.quoteSlug(Slugify(query)))
  {
    VariantIff(enc, url[|base|..], Strip(query), QUERY, QUERY_SLUG, n);
    BuildAfterInfer(enc, url, base, query);
    assert QUERY != QUERY_SLUG by {
      assert |QUERY| < |QUERY_SLUG|;
    }
  }

  /** A location is looked for in what the query left, in the same way, and replaced where it is found. */
  lemma LocationIsReplaced(enc: Encoding, url: string, base: string, query: string, location: string, v: string, n: int)
    requires |base| <= |url| && Strip(location) != ""
    requires InferUrlTemplate(enc, url, base, query, "") == Some(base + v)
    requires FirstFound(enc, v, Strip(location), n)
    ensures InferUrlTemplate(enc, url, base, query, location)
         == Some(base + Sub(enc.same, v, Spellings(enc, Strip(location))[n], if n < 3 then LOCATION else LOCATION_SLUG))
  {
    var p := if n < 3 then LOCATION else LOCATION_SLUG;
    var part := Spellings(enc, Strip(location))[n];
    WithoutLocation(enc, url, base, query, v);
    VariantIff(enc, v, Strip(location), LOCATION, LOCATION_SLUG, n);
    SubShows(enc.same, v, part, p);
  }

  /** And the query alone is, where it is not found or blank. */
  lemma LocationIsIgnored(enc: Encoding, url: string, base: string, query: string, location: string, v: string)
    requires |base| <= |url| && InferUrlTemplate(enc, url, base, query, "") == Some(base + v)
    requires Strip(location) == "" || !exists n :: FoundAt(enc, v, Strip(location), n)
    ensures InferUrlTemplate(enc, url, base, query, location) == Some(base + v)
  {
    WithoutLocation(enc, url, base, query, v);
    if Strip(location) != "" {
      NothingFound(enc, v, Strip(location), LOCATION, LOCATION_SLUG);
    }
  }

  lemma WithoutLocation(enc: Encoding, url: string, base: string, query: string, v: string)
    requires |base| <= |url| && InferUrlTemplate(enc, url, base, query, "") == Some(base + v)
    ensures Strip(query) != "" && Substitute(enc, url[|base|..], Strip(query), QUERY, QUERY_SLUG) == Some(v)
  {
    var replaced := Substitute(enc, url[|base|..], Strip(query), QUERY, QUERY_SLUG).value;
    assert Strip("") == "";
    assert (base + replaced)[|base|..] == replaced && (base + v)[|base|..] == v;
  }

  lemma {:induction false} SubShows(same: (char, char) -> bool, value: string, part: string, p: string)
    requires part != "" && p != "" && Occurs(same, value, part)
    ensures Sub(same, value, part, p) != ""
    decreases |value|
  {
    if HitHere(same, value, part) {
    } else {
      SubShows(same, value[1..], part, p);
    }
  }

  // ----- slugs

  lemma {:induction false} CollapseBehind(x: string, rest: string)
    requires forall k :: 0 <= k < |x| ==> !IsSpace(x[k])
    ensures Collapse(x + rest) == x + Collapse(rest)
  {
    if x == "" {
      assert x + rest == rest;
    } else {
      var whole := x + rest;
      assert whole[1..] == x[1..] + rest && whole[0] == x[0];
      CollapseBehind(x[1..], rest);
      assert [x[0]] + (x[1..] + Collapse(rest)) == x + Collapse(rest);
    }
  }

  lemma {:induction false} SpaceCollapses(space: string, rest: string)
    requires space != "" && Blank(space) && (rest != "" ==> !IsSpace(rest[0]))
    ensures Collapse(space + rest) == "-" + Collapse(rest)
    decreases |space|
  {
    var whole := space + rest;
    assert whole[0] == space[0] && whole[1..] == space[1..] + rest;
    if |space| == 1 {
      assert whole[1..] == rest;
      assert rest != "" ==> whole[1] == rest[0];
    } else {
      assert whole[1] == space[1];
      SpaceCollapses(space[1..], rest);
    }
  }

  /** A slug has a single hyphen for every run of white space between words. */
  lemma SlugStep(word: string, space: string, rest: string)
    requires forall k :: 0 <= k < |word| ==> !IsSpace(word[k])
    requires space != "" && Blank(space) && (rest != "" ==> !IsSpace(rest[0]))
    ensures Collapse(word + (space + rest)) == word + ("-" + Collapse(rest))
  {
    CollapseBehind(word, space + rest);
    SpaceCollapses(space, rest);
  }

  /** Where a text is one word, it is its own slug. */
  lemma OneWordIsItsSlug(word: string)
    requires forall k :: 0 <= k < |word| ==> !IsSpace(word[k])
    ensures Collapse(word) == word
  {
    CollapseBehind(word, "");
    assert word + "" == word;
  }
}
