/**
 * A location that hits inside the slug placeholder, from the results URL to the rebuilt one, with
 * ASCII case folding: it comes back in the placeholder's own case, and not in another.
 */
module UrlExamples {
  import opened PercentEncoding
  import opened PyText
  import opened UrlBraces
  import opened UrlInference
  import opened UrlLocation
  import opened UrlTemplate
  import opened Wrappers

  // ----- case folding

  function Lower(c: char): char {
    if 'A' <= c <= 'Z' then 'a' + (c - 'A') else c
  }

  const ASCII_CASE := (a: char, c: char) => Lower(a) == Lower(c)

  lemma {:induction false} HitsAreBehind(same: (char, char) -> bool, value: string, n: nat, part: string, exact: string)
    requires part != "" && n <= |value| && forall i :: 0 <= i < n ==> !HitHere(same, value[i..], part)
    ensures HitsAre(same, value, part, exact) <==> HitsAre(same, value[n..], part, exact)
    ensures Occurs(same, value, part) <==> Occurs(same, value[n..], part)
    decreases n
  {
    if n == 0 {
      assert value[0..] == value;
    } else {
      assert value[0..] == value && value[1..][n - 1..] == value[n..];
      assert forall i :: 0 <= i < n - 1 ==> value[1..][i..] == value[i + 1..];
      HitsAreBehind(same, value[1..], n - 1, part, exact);
    }
  }

  lemma AsciiFoldsCase()
    ensures FoldsCase(ASCII_CASE)
  {
  }

  /** A two-letter text whose only hit is at `n`: mended if it stands there in its own case. */
  lemma OneHitAt(value: string, n: nat, part: string)
    requires |part| == 2 && n + 3 == |value| && value[n + 2] == '}' && Lower(part[0]) != '}'
    requires forall i :: 0 <= i < n ==> Lower(value[i]) != Lower(part[0]) || Lower(value[i + 1]) != Lower(part[1])
    requires Lower(value[n]) == Lower(part[0]) && Lower(value[n + 1]) == Lower(part[1])
    ensures Occurs(ASCII_CASE, value, part)
    ensures HitsAre(ASCII_CASE, value, part, part) <==> value[n] == part[0] && value[n + 1] == part[1]
  {
    forall i | 0 <= i < n ensures !HitHere(ASCII_CASE, value[i..], part) {
      assert value[i..][0] == value[i] && value[i..][1] == value[i + 1];
    }
    HitsAreBehind(ASCII_CASE, value, n, part, part);
    var last := value[n..];
    assert last[0] == value[n] && last[1] == value[n + 1] && HitHere(ASCII_CASE, last, part);
    assert last[2..] == "}" && !HitHere(ASCII_CASE, "}", part) && "}"[1..] == "";
    assert last[..2] == [value[n], value[n + 1]];
  }

  lemma SlugLetters(value: string)
    requires value == QUERY_SLUG
    ensures |value| == 12 && value[9] == 'u' && value[10] == 'g' && value[11] == '}'
    ensures forall i :: 0 <= i < 9 ==> Lower(value[i]) != 'u' || Lower(value[i + 1]) != 'g'
  {
    assert value[0] == '{' && value[1] == 'q' && value[2] == 'u' && value[3] == 'e' && value[4] == 'r';
    assert value[5] == 'y' && value[6] == '-' && value[7] == 's' && value[8] == 'l';
  }

  /** "ug" stands in the slug placeholder in its own case; "UG" is found there, too, but not spelled so. */
  lemma UgInSlug()
    ensures Occurs(ASCII_CASE, QUERY_SLUG, "ug") && HitsAre(ASCII_CASE, QUERY_SLUG, "ug", "ug")
    ensures Occurs(ASCII_CASE, QUERY_SLUG, "UG") && !HitsAre(ASCII_CASE, QUERY_SLUG, "UG", "UG")
  {
    SlugLetters(QUERY_SLUG);
    OneHitAt(QUERY_SLUG, 9, "ug");
    OneHitAt(QUERY_SLUG, 9, "UG");
  }

  /** The percent encoding of any UTF-8, with ASCII case folding. */
  function Ascii(utf8: char -> seq<Byte>): Encoding {
    Encoding(s => QuotePlus(utf8, s), s => Quote(utf8, s), s => Quote(utf8, s), ASCII_CASE)
  }

  lemma AsciiIsPercent(utf8: char -> seq<Byte>)
    requires IsUtf8(utf8)
    ensures IsPercent(Ascii(utf8), utf8)
  {
    AsciiFoldsCase();
  }

  // ----- a query of two words

  function Words(x: string, y: string): string {
    x + " " + y
  }

  function Hyphened(x: string, y: string): string {
    x + "-" + y
  }

  lemma SlugOfWords(x: string, y: string)
    requires Plain(x) && Plain(y)
    ensures Strip(Words(x, y)) == Words(x, y) && Slugify(Words(x, y)) == Hyphened(x, y) && Plain(Hyphened(x, y))
  {
    StripPlain(Words(x, y));
    CollapseSpace(y);
    CollapseBehind(x, " " + y);
    assert Words(x, y) == x + (" " + y);
    assert x + ("-" + y) == Hyphened(x, y);
  }

  lemma CollapseSpace(y: string)
    requires Plain(y)
    ensures Collapse(" " + y) == "-" + y
  {
    SpaceCollapses(" ", y);
    OneWordIsItsSlug(y);
  }

  lemma {:induction false} SpaceIsEncoded(utf8: char -> seq<Byte>, text: string)
    requires IsUtf8(utf8) && ' ' in text
    ensures '+' in QuotePlus(utf8, text) && '%' in Quote(utf8, text)
  {
    var n := |text| - 1;
    if text[n] == ' ' {
      EscapeShape(utf8(' '));
    } else {
      SpaceIsEncoded(utf8, text[..n]);
    }
  }

  /** A character that folds with no other, and is not there. */
  lemma {:induction false} NotFound(same: (char, char) -> bool, value: string, part: string, c: char)
    requires FoldsCase(same) && Solid(c) && c in part && c !in value
    ensures !Occurs(same, value, part)
  {
    if value == "" {
    } else {
      var k :| 0 <= k < |part| && part[k] == c;
      assert k < |value| ==> !same(value[k], part[k]);
      NotFound(same, value[1..], part, c);
    }
  }

  /** In a plain URL the query of two words is found as its slug. */
  lemma FoundAsSlug(enc: Encoding, utf8: char -> seq<Byte>, a: string, x: string, y: string, c: string)
    requires IsPercent(enc, utf8) && Plain(x) && Plain(y)
    requires forall k :: 0 <= k < |a + c| ==> (a + c)[k] !in {'+', '%', ' '}
    ensures Variant(enc, a + Hyphened(x, y) + c, Words(x, y), QUERY, QUERY_SLUG) == Some((Hyphened(x, y), QUERY_SLUG))
  {
    var text, slug := Words(x, y), Hyphened(x, y);
    var rest := a + slug + c;
    SlugOfWords(x, y);
    SpaceIsEncoded(utf8, text);
    assert forall k :: 0 <= k < |a| ==> a[k] == (a + c)[k];
    assert forall k :: 0 <= k < |c| ==> c[k] == (a + c)[|a| + k];
    assert '+' !in rest && '%' !in rest && ' ' !in rest;
    NotFound(enc.same, rest, enc.quotePlus(text), '+');
    NotFound(enc.same, rest, enc.quoteAll(text), '%');
    NotFound(enc.same, rest, text, ' ');
    assert text[|x|] == ' ' && slug[|x|] == '-';
    assert HitHere(enc.same, slug, slug);
    OccursInside(enc.same, a, slug, c, slug);
  }

  // ----- the location "ug"

  lemma {:induction false} TokensAt(value: string)
    ensures |Tokens(value)| == |value| && forall k :: 0 <= k < |value| ==> Tokens(value)[k] == Lit(value[k])
  {
    if value == "" {
    } else {
      TokensAt(value[1..]);
    }
  }

  lemma SubMisses(same: (char, char) -> bool, tokens: seq<Token>, part: string, p: string)
    requires part != "" && tokens != [] && !Starts(same, tokens, part)
    ensures SubTokens(same, tokens, part, p) == [tokens[0]] + SubTokens(same, tokens[1..], part, p)
  {
  }

  predicate WithoutU(s: string) {
    'u' !in s && 'U' !in s
  }

  /** No hit starts in these few characters. */
  lemma NoSlugInTail(tokens: seq<Token>, slug: string, p: string)
    requires |slug| >= 3 && WithoutU(slug) && |tokens| == 3 && tokens[1] == Lit('u')
    ensures SubTokens(ASCII_CASE, tokens, slug, p) == tokens
  {
    assert slug[1] in slug && Lower(slug[1]) != 'u';
    SubMisses(ASCII_CASE, tokens, slug, p);
    SubMisses(ASCII_CASE, tokens[1..], slug, p);
    SubMisses(ASCII_CASE, tokens[2..], slug, p);
    assert tokens[1..][1..] == tokens[2..] && tokens[2..][1..] == [];
    assert tokens == [tokens[0]] + ([tokens[1]] + [tokens[2]]);
  }

  lemma TokensOfPath(slug: string, tail: string)
    ensures
      var tokens := Tokens("/" + slug + tail);
      && |tokens| == 1 + |slug| + |tail| && tokens[0] == Lit('/')
      && (forall k :: 0 <= k < |slug| ==> tokens[1..][k] == Lit(slug[k]))
      && (forall k :: 0 <= k < |tail| ==> tokens[1..][|slug|..][k] == Lit(tail[k]))
  {
    TokensAt("/" + slug + tail);
  }

  /** The tokens when the slug stands at the start, and behind a character that cannot start it. */
  lemma SlugHit(same: (char, char) -> bool, tokens: seq<Token>, slug: string, p: string)
    requires slug != "" && |tokens| >= |slug| && forall k :: 0 <= k < |slug| ==> tokens[k] == Lit(slug[k])
    requires forall c :: same(c, c)
    ensures SubTokens(same, tokens, slug, p) == [Hole(p, slug)] + SubTokens(same, tokens[|slug|..], slug, p)
  {
    assert Starts(same, tokens, slug);
    OriginalOf(tokens[..|slug|], slug);
  }

  lemma QueryTokensOfSlug(tokens: seq<Token>, slug: string, p: string)
    requires Plain(slug) && |slug| >= 3 && WithoutU(slug) && |tokens| == 4 + |slug| && tokens[0] == Lit('/')
    requires forall k :: 0 <= k < |slug| ==> tokens[1..][k] == Lit(slug[k])
    requires tokens[1..][|slug|..] == [Lit('-'), Lit('u'), Lit('g')]
    ensures SubTokens(ASCII_CASE, tokens, slug, p) == [Lit('/'), Hole(p, slug), Lit('-'), Lit('u'), Lit('g')]
  {
    NoSlugInTail(tokens[1..][|slug|..], slug, p);
    SlugHit(ASCII_CASE, tokens[1..], slug, p);
    assert Unreserved(slug[0]) && Lower('/') != Lower(slug[0]);
    SubMisses(ASCII_CASE, tokens, slug, p);
  }

  lemma {:induction false} OriginalOf(tokens: seq<Token>, value: string)
    requires |tokens| == |value| && forall k :: 0 <= k < |value| ==> tokens[k] == Lit(value[k])
    ensures Original(tokens) == value
  {
    if value == "" {
    } else {
      OriginalOf(tokens[1..], value[1..]);
      assert value == [value[0]] + value[1..];
    }
  }

  lemma LocationTokensOfSlug(p: string, slug: string, part: string)
    requires part == "ug"
    ensures SubTokens(ASCII_CASE, [Lit('/'), Hole(p, slug), Lit('-'), Lit('u'), Lit('g')], part, LOCATION)
         == [Lit('/'), Hole(p, slug), Lit('-'), Hole(LOCATION, part)]
  {
    var tokens := [Lit('/'), Hole(p, slug), Lit('-'), Lit('u'), Lit('g')];
    var second, third, last := tokens[1..], tokens[2..], tokens[3..];
    assert part[0] == 'u' && part[1] == 'g' && Lower('/') != 'u' && Lower('-') != 'u';
    assert second[1..] == third && third[1..] == last && last == [Lit('u'), Lit('g')];
    assert tokens[0] == Lit('/') && second[0].Hole? && third[0] == Lit('-');
    SlugHit(ASCII_CASE, last, part, LOCATION);
    assert last[2..] == [];
    SubMisses(ASCII_CASE, third, part, LOCATION);
    SubMisses(ASCII_CASE, second, part, LOCATION);
    SubMisses(ASCII_CASE, tokens, part, LOCATION);
  }

  lemma TokensWithUg(rest: string, slug: string, p: string, location: string)
    requires rest == "/" + slug + "-ug" && location == "ug" && Plain(slug) && |slug| >= 3 && WithoutU(slug)
    ensures SubTokens(ASCII_CASE, SubTokens(ASCII_CASE, Tokens(rest), slug, p), location, LOCATION)
         == [Lit('/'), Hole(p, slug), Lit('-'), Hole(LOCATION, location)]
  {
    TokensOfPath(slug, "-ug");
    var tail := Tokens(rest)[1..][|slug|..];
    assert tail[0] == Lit('-') && tail[1] == Lit('u') && tail[2] == Lit('g');
    QueryTokensOfSlug(Tokens(rest), slug, p);
    LocationTokensOfSlug(p, slug, location);
  }

  lemma HolesSpelled(p: string, slug: string, l: string, location: string, fill: map<string, string>)
    requires p in fill && fill[p] == slug && l in fill && fill[l] == location
    ensures SpelledAs([Lit('/'), Hole(p, slug), Lit('-'), Hole(l, location)], fill)
  {
  }

  /** What was learned from the path is spelled as it is rendered. */
  lemma UgIsSpelled(enc: Encoding, utf8: char -> seq<Byte>, rest: string, query: string, slug: string, location: string)
    requires IsPercent(enc, utf8) && enc.same == ASCII_CASE && rest == "/" + slug + "-ug" && location == "ug"
    requires Plain(slug) && |slug| >= 3 && WithoutU(slug) && Slugify(query) == slug
    requires Strip(location) == location == enc.quotePlus(location)
    requires Variant(enc, rest, Strip(query), QUERY, QUERY_SLUG) == Some((slug, QUERY_SLUG))
    requires LocationHit(enc, rest, query, location) == Some((location, LOCATION))
    ensures SpelledAs(LearnedTokens(enc, rest, query, location), Filling(enc, query, location))
  {
    QuotePlain(utf8, slug);
    FillingValues(enc, query, location);
    UgTokens(enc, rest, query, slug, location);
    HolesSpelled(QUERY_SLUG, slug, LOCATION, location, Filling(enc, query, location));
  }

  lemma UgTokens(enc: Encoding, rest: string, query: string, slug: string, location: string)
    requires enc.same == ASCII_CASE && rest == "/" + slug + "-ug" && location == "ug"
    requires Plain(slug) && |slug| >= 3 && WithoutU(slug)
    requires Variant(enc, rest, Strip(query), QUERY, QUERY_SLUG) == Some((slug, QUERY_SLUG))
    requires LocationHit(enc, rest, query, location) == Some((location, LOCATION))
    ensures LearnedTokens(enc, rest, query, location)
         == [Lit('/'), Hole(QUERY_SLUG, slug), Lit('-'), Hole(LOCATION, location)]
  {
    TokensWithUg(rest, slug, QUERY_SLUG, location);
  }

  /**
   * Search for two words without a "u" (say, "ML Engineer") in "ug", and end on a page that shows
   * both in its path: the location hits the placeholder and mends it again, and the URL comes back.
   */
  lemma UgComesBack(utf8: char -> seq<Byte>, base: string, x: string, y: string)
    requires IsUtf8(utf8) && BraceFree(base) && Plain(x) && Plain(y) && WithoutU(Hyphened(x, y))
    ensures
      var enc, url, query := Ascii(utf8), base + ("/" + Hyphened(x, y) + "-ug"), Words(x, y);
      && InferUrlTemplate(enc, url, base, query, "ug").Some?
      && BuildSearchUrl(enc, InferUrlTemplate(enc, url, base, query, "ug").value, query, "ug") == url
  {
    var enc, query, location := Ascii(utf8), Words(x, y), "ug";
    var rest := "/" + Hyphened(x, y) + "-ug";
    InferredFromSlug(utf8, base, x, y, "-ug", location);
    AsciiIsPercent(utf8);
    PlainText(enc, utf8, location);
    UgInSlug();
    SlugOfWords(x, y);
    LocationFoundInPlaceholder(enc, utf8, rest, query, location);
    UgIsSpelled(enc, utf8, rest, query, Hyphened(x, y), location);
    LocationInSlugPlaceholder(enc, utf8, base + rest, base, query, location);
  }

  lemma PlainPath(slug: string, c: string)
    requires Plain(slug) && Plain(c)
    ensures BraceFree("/" + slug + c) && forall k :: 0 <= k < |"/" + c| ==> ("/" + c)[k] !in {'+', '%', ' '}
  {
  }

  /** The query's slug is found, behind any host and before any plain text. */
  lemma InferredFromSlug(utf8: char -> seq<Byte>, base: string, x: string, y: string, c: string, location: string)
    requires IsUtf8(utf8) && Plain(x) && Plain(y) && Plain(c)
    ensures
      var enc, rest, query := Ascii(utf8), "/" + Hyphened(x, y) + c, Words(x, y);
      && (base + rest)[|base|..] == rest && BraceFree(rest)
      && Variant(enc, rest, Strip(query), QUERY, QUERY_SLUG) == Some((Hyphened(x, y), QUERY_SLUG))
      && InferUrlTemplate(enc, base + rest, base, query, location).Some?
  {
    var enc, rest, query := Ascii(utf8), "/" + Hyphened(x, y) + c, Words(x, y);
    AsciiIsPercent(utf8);
    SlugOfWords(x, y);
    PlainPath(Hyphened(x, y), c);
    FoundAsSlug(enc, utf8, "/", x, y, c);
    FoundInfers(enc, base + rest, base, query, location);
  }

  /** The same search in "UG" hits the placeholder, too, and the URL does not come back. */
  lemma UpperUgIsLost(utf8: char -> seq<Byte>, base: string, x: string, y: string, c: string)
    requires IsUtf8(utf8) && BraceFree(base) && Plain(x) && Plain(y) && Plain(c)
    ensures
      var enc, url, query := Ascii(utf8), base + ("/" + Hyphened(x, y) + c), Words(x, y);
      && InferUrlTemplate(enc, url, base, query, "UG").Some?
      && BuildSearchUrl(enc, InferUrlTemplate(enc, url, base, query, "UG").value, query, "UG") != url
  {
    var enc, rest, query := Ascii(utf8), "/" + Hyphened(x, y) + c, Words(x, y);
    AsciiIsPercent(utf8);
    InferredFromSlug(utf8, base, x, y, c, "UG");
    PlainText(enc, utf8, "UG");
    UgInSlug();
    LocationInSlugPlaceholder(enc, utf8, base + rest, base, query, "UG");
  }

  // ----- a location with braces that comes back

  lemma TwoTokens(same: (char, char) -> bool, value: string, p: string)
    requires FoldsCase(same) && value != "" && value[0] == '%'
    ensures SubTokens(same, Tokens("/" + value), value, p) == [Lit('/'), Hole(p, value)]
  {
    var tokens := Tokens("/" + value);
    TokensAt("/" + value);
    assert forall k :: 0 <= k < |value| ==> tokens[1..][k] == Lit(value[k]);
    SlugHit(same, tokens[1..], value, p);
    assert tokens[1..][|value|..] == [];
    assert tokens[0] == Lit('/') && !same('/', '%');
    SubMisses(same, tokens, value, p);
  }

  lemma QueryFound(enc: Encoding, rest: string, query: string, value: string)
    requires FoldsCase(enc.same) && rest == "/" + value && value == enc.quotePlus(Strip(query))
    requires value != "" && value[0] == '%'
    ensures Variant(enc, rest, Strip(query), QUERY, QUERY_SLUG) == Some((value, QUERY))
    ensures QueryTokens(enc, rest, query) == [Lit('/'), Hole(QUERY, value)]
  {
    assert rest[1..] == value && HitHere(enc.same, value, value);
    FirstVariant(enc, rest, Strip(query), QUERY, QUERY_SLUG);
    TwoTokens(enc.same, value, QUERY);
  }

  /** A location that is spelled like the placeholder is found as the placeholder. */
  lemma PlaceholderFound(enc: Encoding, utf8: char -> seq<Byte>, v: string, p: string, l: string, m: string)
    requires IsPercent(enc, utf8) && Braced(p) && v == "/" + p && '%' !in v
    ensures Variant(enc, v, p, l, m) == Some((p, l))
  {
    assert p[0] in p;
    BraceIsEncoded(utf8, p);
    NotFound(enc.same, v, enc.quotePlus(p), '%');
    NotFound(enc.same, v, enc.quoteAll(p), '%');
    assert v[1..] == p && HitHere(enc.same, p, p);
    assert Occurs(enc.same, v[1..], p);
    ThirdVariant(enc, v, p, l, m);
  }

  lemma ThirdVariant(enc: Encoding, v: string, text: string, l: string, m: string)
    requires text != "" && Occurs(enc.same, v, text)
    requires enc.quotePlus(text) != "" ==> !Occurs(enc.same, v, enc.quotePlus(text))
    requires enc.quoteAll(text) != "" ==> !Occurs(enc.same, v, enc.quoteAll(text))
    ensures Variant(enc, v, text, l, m) == Some((text, l))
  {
  }

  lemma PlaceholderSpans(same: (char, char) -> bool, p: string, was: string, l: string)
    requires FoldsCase(same) && Braced(p)
    ensures SubSpans(same, [Lit('/'), Hole(p, was)], p, l) == [Lit('/'), Hole(l, was)]
  {
    var tokens := [Lit('/'), Hole(p, was)];
    var hole := [Hole(p, was)];
    assert p[..|p|] == p && p[|p|..] == "" && HitHere(same, p, p);
    assert tokens[1..] == hole && hole[1..] == [] && hole[..1] == hole;
    assert HitTokens(same, hole[1..], p[|p|..]) == Some(0);
    assert HitTokens(same, hole, p) == Some(1);
    assert was + "" == was && Original(hole) == was;
    assert SubSpans(same, hole, p, l) == [Hole(l, was)];
    assert p[..1][0] == p[0] && !same('/', p[0]);
    assert HitTokens(same, tokens, p) == None;
  }

  lemma PlaceholderCovers(p: string)
    requires Braced(p)
    ensures CoversWhole(p) && !NoBraces(p)
  {
    assert p[0] in p;
  }

  /** Searching for the text "{query}" in the place "{query}" works, although the location takes the placeholder. */
  lemma PlaceholderComesBack(enc: Encoding, utf8: char -> seq<Byte>, base: string)
    requires IsPercent(enc, utf8) && NoBraces(base)
    ensures
      var url := base + ("/" + enc.quotePlus(QUERY));
      && InferUrlTemplate(enc, url, base, QUERY, QUERY).Some? && ComesBack(enc, url, base, QUERY, QUERY)
      && !PlainLocation(enc, url[|base|..], QUERY, QUERY)
  {
    var value := enc.quotePlus(QUERY);
    var rest := "/" + value;
    var url := base + rest;
    assert url[|base|..] == rest && url[..|base|] == base;
    LearnedFromPlaceholder(enc, utf8, QUERY);
    QuotedHasNoBraces(utf8, QUERY);
    FoundInfers(enc, url, base, QUERY, QUERY);
    RoundTripWithBraces(enc, utf8, url, base, QUERY, QUERY);
  }

  lemma LearnedFromPlaceholder(enc: Encoding, utf8: char -> seq<Byte>, text: string)
    requires IsPercent(enc, utf8) && text == QUERY
    ensures
      var value := enc.quotePlus(text);
      var rest := "/" + value;
      && Strip(text) != "" && Variant(enc, rest, Strip(text), QUERY, QUERY_SLUG) == Some((value, QUERY))
      && LocationHit(enc, rest, text, text) == Some((text, LOCATION)) && CoversWhole(text) && !NoBraces(text)
      && SpelledAs(SpannedTokens(enc, rest, text, text), Filling(enc, text, text))
  {
    var value := enc.quotePlus(text);
    var rest := "/" + value;
    TextOfQuery(text);
    EncodedQuery(utf8, text);
    QueryFound(enc, rest, text, value);
    TokensShown(enc, rest, text, value);
    PlaceholderFound(enc, utf8, "/" + text, text, LOCATION, LOCATION_SLUG);
    PlaceholderCovers(text);
    PlaceholderSpans(enc.same, text, value, LOCATION);
    FillingValues(enc, text, text);
    HolesSpelledTwo(LOCATION, value, Filling(enc, text, text));
  }

  lemma TextOfQuery(text: string)
    requires text == QUERY
    ensures Strip(text) == text && Braced(text) && '%' !in "/" + text && text != ""
  {
    StripPlain(text);
  }

  lemma EncodedQuery(utf8: char -> seq<Byte>, text: string)
    requires IsUtf8(utf8) && Braced(text)
    ensures QuotePlus(utf8, text) != "" && QuotePlus(utf8, text)[0] == '%'
  {
    EncodedStart(utf8, text, |text|);
    assert text[..|text|] == text;
  }

  lemma {:induction false} EncodedStart(utf8: char -> seq<Byte>, text: string, n: nat)
    requires IsUtf8(utf8) && 0 < n <= |text| && text[0] == '{'
    ensures QuotePlus(utf8, text[..n]) != "" && QuotePlus(utf8, text[..n])[0] == '%'
  {
    assert text[..n][..n - 1] == text[..n - 1];
    if n == 1 {
      EscapeStart(utf8('{'));
      assert text[..0] == "";
    } else {
      EncodedStart(utf8, text, n - 1);
    }
  }

  lemma {:induction false} EscapeStart(bytes: seq<Byte>)
    requires bytes != []
    ensures Escape(bytes) != "" && Escape(bytes)[0] == '%'
  {
    if |bytes| == 1 {
      assert Escape(bytes[..0]) == "";
    } else {
      EscapeStart(bytes[..|bytes| - 1]);
    }
  }

  lemma TokensShown(enc: Encoding, rest: string, query: string, value: string)
    requires Variant(enc, rest, Strip(query), QUERY, QUERY_SLUG).Some?
    requires QueryTokens(enc, rest, query) == [Lit('/'), Hole(QUERY, value)]
    ensures Shown(QueryTokens(enc, rest, query), map[]) == "/" + QUERY
  {
    TwoShown(QUERY, value);
  }

  lemma TwoShown(p: string, value: string)
    ensures Shown([Lit('/'), Hole(p, value)], map[]) == "/" + p
  {
    var tokens := [Lit('/'), Hole(p, value)];
    assert tokens[1..] == [Hole(p, value)] && tokens[1..][1..] == [];
    assert Shown(tokens[1..], map[]) == p + "";
    assert p + "" == p;
  }

  lemma HolesSpelledTwo(l: string, value: string, fill: map<string, string>)
    requires l in fill && fill[l] == value
    ensures SpelledAs([Lit('/'), Hole(l, value)], fill)
  {
  }
}
