/**
 * A location that is found by a spelling with a brace in it. Such a spelling can only match
 * together with a placeholder of the query, as a whole or cut in two.
 */
module UrlBraces {
  import opened PercentEncoding
  import opened PyText
  import opened UrlLocation
  import opened UrlTemplate
  import opened Wrappers

  // ----- the first and the last brace of a text

  predicate IsBrace(c: char) {
    c == '{' || c == '}'
  }

  predicate OpensFirst(s: string) {
    s != "" && (s[0] == '{' || (s[0] != '}' && OpensFirst(s[1..])))
  }

  predicate ClosesLast(s: string) {
    s != "" && (s[|s| - 1] == '}' || (s[|s| - 1] != '{' && ClosesLast(s[..|s| - 1])))
  }

  /** Opens before it closes, and closes in the end: it can cover whole placeholders only. */
  predicate CoversWhole(s: string) {
    OpensFirst(s) && ClosesLast(s)
  }

  lemma {:induction false} FirstBrace(s: string) returns (k: nat)
    requires !NoBraces(s)
    ensures k < |s| && IsBrace(s[k]) && NoBraces(s[..k]) && (s[k] == '{' <==> OpensFirst(s))
  {
    if IsBrace(s[0]) {
      k := 0;
    } else {
      assert s == [s[0]] + s[1..];
      k := FirstBrace(s[1..]);
      assert s[..k + 1] == [s[0]] + s[1..][..k];
      k := k + 1;
    }
  }

  lemma {:induction false} LastBrace(s: string) returns (k: nat)
    requires !NoBraces(s)
    ensures k < |s| && IsBrace(s[k]) && NoBraces(s[k + 1..]) && (s[k] == '}' <==> ClosesLast(s))
  {
    var n := |s| - 1;
    if IsBrace(s[n]) {
      k := n;
    } else {
      assert s == s[..n] + [s[n]];
      k := LastBrace(s[..n]);
      assert s[k + 1..] == s[..n][k + 1..] + [s[n]];
    }
  }

  lemma BraceHitsItself(same: (char, char) -> bool, a: char, c: char)
    requires FoldsCase(same) && same(a, c) && (IsBrace(a) || IsBrace(c))
    ensures a == c
  {
  }

  // ----- texts whose braces come in pairs

  /** `t` has an opening brace at `j` and the closing one at `k`, and none between. */
  predicate PairAt(t: string, j: int, k: int) {
    0 <= j < k < |t| && t[j] == '{' && t[k] == '}' && NoBraces(t[j + 1..k])
  }

  ghost predicate HasPair(t: string, k: int) {
    exists j :: PairAt(t, j, k) || PairAt(t, k, j)
  }

  /** Every brace belongs to a pair. */
  ghost predicate Paired(t: string) {
    forall k {:trigger HasPair(t, k)} :: 0 <= k < |t| && IsBrace(t[k]) ==> HasPair(t, k)
  }

  lemma PairMoves(a: string, b: string, c: string, j: int, k: int)
    requires PairAt(b, j, k)
    ensures PairAt(a + b + c, |a| + j, |a| + k)
  {
    assert (a + b + c)[|a| + j + 1..|a| + k] == b[j + 1..k];
  }

  lemma HasPairMoves(a: string, b: string, c: string, k: int)
    requires HasPair(b, k)
    ensures HasPair(a + b + c, |a| + k)
  {
    var j :| PairAt(b, j, k) || PairAt(b, k, j);
    if PairAt(b, j, k) {
      PairMoves(a, b, c, j, k);
    } else {
      PairMoves(a, b, c, k, j);
    }
  }

  lemma PairedConcat(a: string, b: string)
    requires Paired(a) && Paired(b)
    ensures Paired(a + b)
  {
    var t := a + b;
    forall k | 0 <= k < |t| && IsBrace(t[k]) ensures HasPair(t, k) {
      if k < |a| {
        assert HasPair(a, k);
        HasPairMoves("", a, b, k);
        assert "" + a + b == t;
      } else {
        assert HasPair(b, k - |a|);
        HasPairMoves(a, b, "", k - |a|);
        assert a + b + "" == t;
      }
    }
  }

  lemma BracedIsPaired(p: string)
    requires Braced(p)
    ensures Paired(p)
  {
    assert NoBraces(p[1..|p| - 1]);
    assert PairAt(p, 0, |p| - 1);
    forall k | 0 <= k < |p| && IsBrace(p[k]) ensures HasPair(p, k) {
      assert k == 0 || k == |p| - 1;
    }
  }

  predicate LiteralsNoBrace(tokens: seq<Token>) {
    forall k :: 0 <= k < |tokens| && tokens[k].Lit? ==> !IsBrace(tokens[k].c)
  }

  lemma {:induction false} TokensPaired(tokens: seq<Token>, kinds: set<string>)
    requires TokensOk(tokens, kinds) && LiteralsNoBrace(tokens)
    ensures Paired(Shown(tokens, map[]))
  {
    if tokens == [] {
    } else {
      TokensPaired(tokens[1..], kinds);
      assert TokenOk(tokens[0], kinds);
      if tokens[0].Hole? {
        BracedIsPaired(tokens[0].p);
      }
      PairedConcat(Fill(tokens[0], map[]), Shown(tokens[1..], map[]));
    }
  }

  lemma {:induction false} OriginalLiterals(tokens: seq<Token>)
    requires NoBraces(Original(tokens))
    ensures LiteralsNoBrace(tokens)
  {
    if tokens == [] {
    } else {
      var first, rest := Was(tokens[0]), Original(tokens[1..]);
      assert forall c :: c in first ==> c in first + rest;
      assert forall c :: c in rest ==> c in first + rest;
      OriginalLiterals(tokens[1..]);
    }
  }

  // ----- a brace that is left alone stays, whatever is filled in

  /** An opening brace, and a percent sign or `l` before it is closed. */
  ghost predicate StuckOpen(t: string, l: string) {
    exists a, g, z :: OpenBefore(t, l, a, g, z)
  }

  predicate OpenBefore(t: string, l: string, a: string, g: string, z: string) {
    t == a + ("{" + g + (l + z)) && NoBraces(g)
  }

  /** A closing brace, and a percent sign or `l` since the last opening one. */
  ghost predicate StuckClosed(t: string, l: string) {
    exists a, g, z :: CloseAfter(t, l, a, g, z)
  }

  predicate CloseAfter(t: string, l: string, a: string, g: string, z: string) {
    t == a + (l + (g + ("}" + z))) && NoBraces(g)
  }

  lemma {:induction false} SplitsBefore(a: string, w: string, q: string, s: string)
    requires w != "" && (w[0] == '{' || w[0] == '%') && IsPlaceholder(q)
    ensures Replace(a + w, q, s) == Replace(a, q, s) + Replace(w, q, s)
    decreases |a|
  {
    if a == "" {
      assert a + w == w;
    } else {
      var t := a + w;
      StaysBefore(a, w, q);
      if HitHere(EXACTLY, a, q) {
        assert t[|q|..] == a[|q|..] + w;
        SplitsBefore(a[|q|..], w, q, s);
      } else {
        assert t[1..] == a[1..] + w;
        SplitsBefore(a[1..], w, q, s);
      }
    }
  }

  lemma StaysBefore(a: string, w: string, q: string)
    requires a != "" && w != "" && (w[0] == '{' || w[0] == '%') && IsPlaceholder(q)
    ensures HitHere(EXACTLY, a + w, q) <==> HitHere(EXACTLY, a, q)
  {
    OneClosingBrace(q);
    NoPercent(q);
    var t := a + w;
    assert t[|a|] == w[0];
    if |q| <= |a| {
      assert forall k :: 0 <= k < |q| ==> t[k] == a[k];
    } else {
      assert q[|a|] != w[0] by {
        assert q[|a|] in q;
      }
    }
  }

  lemma NoPercent(q: string)
    requires IsPlaceholder(q)
    ensures '%' !in q
  {
  }

  lemma NoHitAtOpen(g: string, z: string, q: string)
    requires NoBraces(g) && z != "" && (z[0] == '{' || z[0] == '%') && IsPlaceholder(q)
    ensures !HitHere(EXACTLY, "{" + g + z, q)
  {
    OneClosingBrace(q);
    NoPercent(q);
    var t := "{" + g + z;
    var k := if |q| - 1 > |g| then |g| + 1 else |q| - 1;
    assert k <= |g| ==> t[k] == g[k - 1] && g[k - 1] in g;
    assert k == |g| + 1 ==> t[k] == z[0];
    assert q[k] in q && t[k] != q[k];
  }

  /** An opening brace, `g`, and then `z`, which starts with a brace that hits nothing, or a percent sign. */
  lemma OpenHitsNothing(g: string, z: string, q: string, s: string)
    requires NoBraces(g) && z != "" && (z[0] == '{' || z[0] == '%') && IsPlaceholder(q)
    ensures Replace("{" + g + z, q, s) == "{" + g + Replace(z, q, s)
  {
    NoHitAtOpen(g, z, q);
    var t := "{" + g + z;
    ReplaceSkipsOne(t, q, s);
    assert t[1..] == g + z;
    ReplaceSkipsBraceFree(g, z, q, s);
  }

  /** What is left of a cut placeholder stays while the others are filled. */
  lemma StuckOpenStays(t: string, l: string, q: string, s: string)
    requires StuckOpen(t, l) && IsPlaceholder(q) && (l == "%" || (IsPlaceholder(l) && l != q))
    ensures StuckOpen(Replace(t, q, s), l)
  {
    var a, g, z :| OpenBefore(t, l, a, g, z);
    SplitsBefore(a, "{" + g + (l + z), q, s);
    OpenHitsNothing(g, l + z, q, s);
    SkipsOther(l, z, q, s);
    assert OpenBefore(Replace(t, q, s), l, Replace(a, q, s), g, Replace(z, q, s));
  }

  lemma SkipsOther(l: string, z: string, q: string, s: string)
    requires IsPlaceholder(q) && (l == "%" || (IsPlaceholder(l) && l != q))
    ensures Replace(l + z, q, s) == l + Replace(z, q, s) && l != "" && (l[0] == '{' || l[0] == '%')
  {
    if l == "%" {
      ReplaceSkipsBraceFree(l, z, q, s);
    } else {
      ReplaceSkipsPlaceholder(z, q, l, s);
    }
  }

  /** Filling `l` with an encoded brace leaves a percent sign there. */
  lemma StuckOpenFilled(t: string, l: string, s: string)
    requires StuckOpen(t, l) && IsPlaceholder(l) && NoBraces(s) && '%' in s
    ensures StuckOpen(Replace(t, l, s), "%")
  {
    var a, g, z :| OpenBefore(t, l, a, g, z);
    SplitsBefore(a, "{" + g + (l + z), l, s);
    OpenHitsNothing(g, l + z, l, s);
    ReplaceHits(z, l, s);
    OpenAtPercent(Replace(a, l, s), g, s, Replace(z, l, s));
  }

  lemma OpenAtPercent(a: string, g: string, s: string, z: string)
    requires NoBraces(g) && NoBraces(s) && '%' in s
    ensures StuckOpen(a + ("{" + g + (s + z)), "%")
  {
    var k :| 0 <= k < |s| && s[k] == '%';
    var head, more := g + s[..k], s[k + 1..] + z;
    assert s == s[..k] + "%" + s[k + 1..];
    assert "{" + g + (s + z) == "{" + head + ("%" + more);
    assert OpenBefore(a + ("{" + g + (s + z)), "%", a, head, more);
  }

  lemma StuckClosedStays(t: string, l: string, q: string, s: string)
    requires StuckClosed(t, l) && IsPlaceholder(q) && (l == "%" || (IsPlaceholder(l) && l != q))
    ensures StuckClosed(Replace(t, q, s), l)
  {
    var a, g, z :| CloseAfter(t, l, a, g, z);
    var w := g + ("}" + z);
    SkipsOther(l, w, q, s);
    SplitsBefore(a, l + w, q, s);
    SkipsTail(g, z, q, s);
    assert CloseAfter(Replace(t, q, s), l, Replace(a, q, s), g, Replace(z, q, s));
  }

  lemma SkipsTail(g: string, z: string, q: string, s: string)
    requires NoBraces(g) && IsPlaceholder(q)
    ensures Replace(g + ("}" + z), q, s) == g + ("}" + Replace(z, q, s))
  {
    ReplaceSkipsBraceFree(g, "}" + z, q, s);
    ReplaceSkipsBraceFree("}", z, q, s);
  }

  lemma StuckClosedFilled(t: string, l: string, s: string)
    requires StuckClosed(t, l) && IsPlaceholder(l) && NoBraces(s) && '%' in s
    ensures StuckClosed(Replace(t, l, s), "%")
  {
    var a, g, z :| CloseAfter(t, l, a, g, z);
    var k :| 0 <= k < |s| && s[k] == '%';
    var w := g + ("}" + z);
    SplitsBefore(a, l + w, l, s);
    ReplaceHits(w, l, s);
    SkipsTail(g, z, l, s);
    var rest := "}" + Replace(z, l, s);
    assert s == s[..k] + "%" + s[k + 1..];
    assert Replace(a, l, s) + (s + (g + rest)) == (Replace(a, l, s) + s[..k]) + ("%" + ((s[k + 1..] + g) + rest));
    assert CloseAfter(Replace(t, l, s), "%", Replace(a, l, s) + s[..k], s[k + 1..] + g, Replace(z, l, s));
  }

  // ----- building from a text with a cut placeholder

  /** An encoded text with a brace has a percent sign. */
  lemma {:induction false} BraceIsEncoded(utf8: char -> seq<Byte>, text: string)
    requires IsUtf8(utf8) && !NoBraces(text)
    ensures '%' in Quote(utf8, text) && '%' in QuotePlus(utf8, text)
  {
    var n := |text| - 1;
    if IsBrace(text[n]) {
      EscapeShape(utf8(text[n]));
    } else {
      assert text == text[..n] + [text[n]];
      BraceIsEncoded(utf8, text[..n]);
    }
  }

  /** The four texts that are filled in. */
  lemma FilledTexts(enc: Encoding, utf8: char -> seq<Byte>, query: string, location: string, l: string)
    requires IsPercent(enc, utf8) && (l == LOCATION || l == LOCATION_SLUG)
    requires !NoBraces(if l == LOCATION then Strip(location) else Slugify(location))
    ensures '%' in (if l == LOCATION then enc.quotePlus(Strip(location)) else enc.quoteSlug(Slugify(location)))
    ensures NoBraces(if l == LOCATION then enc.quotePlus(Strip(location)) else enc.quoteSlug(Slugify(location)))
  {
    var text := if l == LOCATION then Strip(location) else Slugify(location);
    BraceIsEncoded(utf8, text);
    QuotedHasNoBraces(utf8, text);
  }

  lemma OpenIsBuilt(enc: Encoding, utf8: char -> seq<Byte>, t: string, query: string, location: string, l: string)
    requires IsPercent(enc, utf8) && (l == LOCATION || l == LOCATION_SLUG) && StuckOpen(t, l)
    requires !NoBraces(if l == LOCATION then Strip(location) else Slugify(location))
    ensures '{' in BuildSearchUrl(enc, t, query, location)
  {
    var a, b := enc.quotePlus(Strip(query)), enc.quotePlus(Strip(location));
    var c, d := enc.quoteSlug(Slugify(query)), enc.quoteSlug(Slugify(location));
    DistinctPlaceholders();
    FilledTexts(enc, utf8, query, location, l);
    var t1 := Replace(t, QUERY, a);
    var t2 := Replace(t1, LOCATION, b);
    var t3 := Replace(t2, QUERY_SLUG, c);
    var t4 := Replace(t3, LOCATION_SLUG, d);
    StuckOpenStays(t, l, QUERY, a);
    var l2 := if l == LOCATION then "%" else l;
    if l == LOCATION {
      StuckOpenFilled(t1, l, b);
    } else {
      StuckOpenStays(t1, l, LOCATION, b);
    }
    StuckOpenStays(t2, l2, QUERY_SLUG, c);
    if l == LOCATION {
      StuckOpenStays(t3, "%", LOCATION_SLUG, d);
    } else {
      StuckOpenFilled(t3, l, d);
    }
    OpenHasBrace(t4, "%");
  }

  lemma OpenHasBrace(t: string, l: string)
    requires StuckOpen(t, l)
    ensures '{' in t
  {
    var a, g, z :| OpenBefore(t, l, a, g, z);
    assert t[|a|] == '{';
  }

  lemma ClosedIsBuilt(enc: Encoding, utf8: char -> seq<Byte>, t: string, query: string, location: string, l: string)
    requires IsPercent(enc, utf8) && (l == LOCATION || l == LOCATION_SLUG) && StuckClosed(t, l)
    requires !NoBraces(if l == LOCATION then Strip(location) else Slugify(location))
    ensures '}' in BuildSearchUrl(enc, t, query, location)
  {
    var a, b := enc.quotePlus(Strip(query)), enc.quotePlus(Strip(location));
    var c, d := enc.quoteSlug(Slugify(query)), enc.quoteSlug(Slugify(location));
    DistinctPlaceholders();
    FilledTexts(enc, utf8, query, location, l);
    var t1 := Replace(t, QUERY, a);
    var t2 := Replace(t1, LOCATION, b);
    var t3 := Replace(t2, QUERY_SLUG, c);
    var t4 := Replace(t3, LOCATION_SLUG, d);
    StuckClosedStays(t, l, QUERY, a);
    var l2 := if l == LOCATION then "%" else l;
    if l == LOCATION {
      StuckClosedFilled(t1, l, b);
    } else {
      StuckClosedStays(t1, l, LOCATION, b);
    }
    StuckClosedStays(t2, l2, QUERY_SLUG, c);
    if l == LOCATION {
      StuckClosedStays(t3, "%", LOCATION_SLUG, d);
    } else {
      StuckClosedFilled(t3, l, d);
    }
    ClosedHasBrace(t4, "%");
  }

  lemma ClosedHasBrace(t: string, l: string)
    requires StuckClosed(t, l)
    ensures '}' in t
  {
    var a, g, z :| CloseAfter(t, l, a, g, z);
    assert t[|a| + |l| + |g|] == '}';
  }

  // ----- a spelling that cuts a placeholder

  lemma SubOne(same: (char, char) -> bool, v: string, part: string, l: string)
    requires part != "" && v != "" && !HitHere(same, v, part)
    ensures Sub(same, v, part, l) == [v[0]] + Sub(same, v[1..], part, l)
  {
  }

  lemma {:induction false} HitExists(same: (char, char) -> bool, v: string, part: string) returns (i: nat)
    requires part != "" && Occurs(same, v, part)
    ensures i + |part| <= |v| && HitHere(same, v[i..], part)
    ensures forall n :: 0 <= n < i ==> !HitHere(same, v[n..], part)
    decreases |v|
  {
    if HitHere(same, v, part) {
      i := 0;
      assert v[0..] == v;
    } else {
      var j := HitExists(same, v[1..], part);
      i := j + 1;
      assert v[i..] == v[1..][j..] && v[0..] == v;
      forall n | 0 < n < i ensures !HitHere(same, v[n..], part) {
        assert v[n..] == v[1..][n - 1..];
      }
    }
  }

  ghost predicate NoHitBefore(same: (char, char) -> bool, v: string, n: nat, part: string)
    requires n <= |v|
  {
    forall k :: 0 <= k < n ==> !HitHere(same, v[k..], part)
  }

  lemma NoHitNext(same: (char, char) -> bool, v: string, n: nat, part: string)
    requires 0 < n <= |v| && NoHitBefore(same, v, n, part)
    ensures !HitHere(same, v, part) && NoHitBefore(same, v[1..], n - 1, part)
  {
    assert v[0..] == v;
    forall k | 0 <= k < n - 1 ensures !HitHere(same, v[1..][k..], part) {
      assert v[1..][k..] == v[k + 1..];
    }
  }

  lemma {:induction false} SubSkips(same: (char, char) -> bool, a: string, w: string, part: string, l: string)
    requires part != "" && NoHitBefore(same, a + w, |a|, part)
    ensures Sub(same, a + w, part, l) == a + Sub(same, w, part, l)
  {
    var v := a + w;
    if a == "" {
      assert v == w;
    } else {
      NoHitNext(same, v, |a|, part);
      SubOne(same, v, part, l);
      assert v[1..] == a[1..] + w && v[0] == a[0];
      SubSkips(same, a[1..], w, part, l);
      assert [a[0]] + (a[1..] + Sub(same, w, part, l)) == a + Sub(same, w, part, l);
    }
  }

  /** The first hit is replaced, and the substitution goes on behind it. */
  lemma FirstOf(same: (char, char) -> bool, v: string, part: string, l: string) returns (i: nat)
    requires part != "" && Occurs(same, v, part)
    ensures i + |part| <= |v| && HitHere(same, v[i..], part)
    ensures Sub(same, v, part, l) == v[..i] + (l + Sub(same, v[i + |part|..], part, l))
  {
    i := HitExists(same, v, part);
    assert v == v[..i] + v[i..];
    SubSkips(same, v[..i], v[i..], part, l);
    assert v[i..][|part|..] == v[i + |part|..];
  }

  lemma HitAt(same: (char, char) -> bool, v: string, i: nat, part: string)
    requires FoldsCase(same) && i + |part| <= |v| && HitHere(same, v[i..], part)
    ensures forall m :: 0 <= m < |part| && (IsBrace(part[m]) || IsBrace(v[i + m])) ==> v[i + m] == part[m]
  {
    forall m | 0 <= m < |part| && (IsBrace(part[m]) || IsBrace(v[i + m])) ensures v[i + m] == part[m] {
      assert v[i..][m] == v[i + m];
      BraceHitsItself(same, v[i + m], part[m]);
    }
  }

  /** A hit whose first brace closes starts behind the brace that it closes. */
  lemma PairBefore(same: (char, char) -> bool, v: string, i: nat, part: string, m: nat) returns (j: nat)
    requires FoldsCase(same) && Paired(v) && i + |part| <= |v| && HitHere(same, v[i..], part)
    requires m < |part| && part[m] == '}' && NoBraces(part[..m])
    ensures j < i && v[j] == '{' && NoBraces(v[j + 1..i])
  {
    HitAt(same, v, i, part);
    var k := i + m;
    assert v[k] == '}' && HasPair(v, k);
    j :| PairAt(v, j, k) || PairAt(v, k, j);
    forall n | i <= n < k ensures v[n] != '{' {
      assert part[n - i] in part[..m];
    }
    assert v[j + 1..i] == v[j + 1..k][..i - j - 1];
  }

  /** A spelling that closes first leaves the opening brace of the first placeholder it cuts. */
  lemma CutsEnd(same: (char, char) -> bool, v: string, part: string, l: string)
    requires FoldsCase(same) && Paired(v) && !NoBraces(part) && !OpensFirst(part) && Occurs(same, v, part)
    ensures StuckOpen(Sub(same, v, part, l), l)
  {
    var i := FirstOf(same, v, part, l);
    var m := FirstBrace(part);
    var j := PairBefore(same, v, i, part, m);
    LeftOpen(v, j, i, l, Sub(same, v[i + |part|..], part, l));
  }

  lemma LeftOpen(v: string, j: nat, i: nat, l: string, z: string)
    requires j < i <= |v| && v[j] == '{' && NoBraces(v[j + 1..i])
    ensures StuckOpen(v[..i] + (l + z), l)
  {
    var a, g := v[..j], v[j + 1..i];
    assert v[..i] == a + ("{" + g);
    assert v[..i] + (l + z) == a + ("{" + g + (l + z));
    assert OpenBefore(v[..i] + (l + z), l, a, g, z);
  }

  /** No hit of a spelling that opens first starts before a closing brace. */
  lemma {:induction false} SkipsEnd(same: (char, char) -> bool, g: string, w: string, part: string, l: string)
    requires FoldsCase(same) && OpensFirst(part) && NoBraces(g)
    ensures Sub(same, g + ("}" + w), part, l) == g + ("}" + Sub(same, w, part, l))
    decreases |g|
  {
    var v := g + ("}" + w);
    NoHitBeforeEnd(same, g, w, part);
    if g == "" {
      assert v[1..] == w && v[0] == '}';
    } else {
      assert v[1..] == g[1..] + ("}" + w) && v[0] == g[0];
      SkipsEnd(same, g[1..], w, part, l);
      assert [g[0]] + (g[1..] + ("}" + Sub(same, w, part, l))) == g + ("}" + Sub(same, w, part, l));
    }
  }

  lemma NoHitBeforeEnd(same: (char, char) -> bool, g: string, w: string, part: string)
    requires FoldsCase(same) && OpensFirst(part) && NoBraces(g)
    ensures !HitHere(same, g + ("}" + w), part)
  {
    var v := g + ("}" + w);
    OpensHasBrace(part);
    var m := FirstBrace(part);
    assert v[|g|] == '}';
    var k := if m < |g| then m else |g|;
    assert k < m ==> part[k] in part[..m];
    assert k < |g| ==> v[k] == g[k] && g[k] in g;
    assert !same(v[k], part[k]);
  }

  lemma {:induction false} OpensHasBrace(s: string)
    requires OpensFirst(s)
    ensures !NoBraces(s)
  {
    if s[0] == '{' {
    } else {
      OpensHasBrace(s[1..]);
    }
  }

  /** A hit whose last brace opens ends before the brace that closes it. */
  lemma PairAfter(same: (char, char) -> bool, v: string, i: nat, part: string, m: nat) returns (j: nat)
    requires FoldsCase(same) && Paired(v) && i + |part| <= |v| && HitHere(same, v[i..], part)
    requires m < |part| && part[m] == '{' && NoBraces(part[m + 1..])
    ensures i + |part| <= j < |v| && v[j] == '}' && NoBraces(v[i + |part|..j])
  {
    HitAt(same, v, i, part);
    var k, e := i + m, i + |part|;
    assert v[k] == '{' && HasPair(v, k);
    j :| PairAt(v, j, k) || PairAt(v, k, j);
    forall n | k < n < e ensures v[n] != '}' {
      assert part[n - i] in part[m + 1..];
    }
    assert v[e..j] == v[k + 1..j][e - k - 1..];
  }

  lemma SubCut(same: (char, char) -> bool, v: string, part: string, l: string, m: nat)
    returns (a: string, g: string, z: string)
    requires FoldsCase(same) && Paired(v) && OpensFirst(part) && Occurs(same, v, part)
    requires m < |part| && part[m] == '{' && NoBraces(part[m + 1..])
    ensures Sub(same, v, part, l) == a + (l + (g + ("}" + z))) && NoBraces(g)
  {
    var i := FirstOf(same, v, part, l);
    var j := PairAfter(same, v, i, part, m);
    SubToClose(same, v, i + |part|, j, part, l);
    a, g, z := v[..i], v[i + |part|..j], Sub(same, v[j + 1..], part, l);
  }

  /** One that opens last leaves the closing brace of the first placeholder it cuts. */
  lemma CutsStart(same: (char, char) -> bool, v: string, part: string, l: string)
    requires FoldsCase(same) && Paired(v) && OpensFirst(part) && !ClosesLast(part) && Occurs(same, v, part)
    ensures StuckClosed(Sub(same, v, part, l), l)
  {
    OpensHasBrace(part);
    var m := LastBrace(part);
    var a, g, z := SubCut(same, v, part, l, m);
    assert CloseAfter(Sub(same, v, part, l), l, a, g, z);
  }

  lemma SubToClose(same: (char, char) -> bool, v: string, e: nat, j: nat, part: string, l: string)
    requires FoldsCase(same) && OpensFirst(part) && e <= j < |v| && v[j] == '}' && NoBraces(v[e..j])
    ensures Sub(same, v[e..], part, l) == v[e..j] + ("}" + Sub(same, v[j + 1..], part, l))
  {
    assert v[e..] == v[e..j] + ("}" + v[j + 1..]);
    SkipsEnd(same, v[e..j], v[j + 1..], part, l);
  }

  // ----- a spelling that covers whole placeholders

  /** How many tokens the spelling covers from the first on, placeholders as a whole. */
  function HitTokens(same: (char, char) -> bool, tokens: seq<Token>, part: string): (r: Option<nat>)
    ensures r.Some? ==> r.value <= |tokens| && (part != "" ==> r.value > 0)
    decreases |tokens|
  {
    if part == "" then Some(0)
    else if tokens == [] then None
    else
      var text := Fill(tokens[0], map[]);
      if text == "" || |text| > |part| || !HitHere(same, text, part[..|text|]) then None
      else
        match HitTokens(same, tokens[1..], part[|text|..])
        case None => None
        case Some(n) => Some(n + 1)
  }

  /** Substitution where a hit may cover placeholders. */
  function SubSpans(same: (char, char) -> bool, tokens: seq<Token>, part: string, l: string): seq<Token>
    requires part != ""
    decreases |tokens|
  {
    if tokens == [] then []
    else
      match HitTokens(same, tokens, part)
      case Some(n) => [Hole(l, Original(tokens[..n]))] + SubSpans(same, tokens[n..], part, l)
      case None => [tokens[0]] + SubSpans(same, tokens[1..], part, l)
  }

  predicate NotOpenLast(part: string) {
    NoBraces(part) || ClosesLast(part)
  }

  lemma TailNotOpen(part: string, n: nat)
    requires NotOpenLast(part) && n <= |part|
    ensures NotOpenLast(part[n..])
  {
    if !NoBraces(part[n..]) {
      var k := LastBrace(part[n..]);
      ClosesIff(part, n + k);
    }
  }

  lemma {:induction false} ClosesIff(s: string, k: nat)
    requires k < |s| && IsBrace(s[k]) && NoBraces(s[k + 1..])
    ensures ClosesLast(s) <==> s[k] == '}'
    decreases |s|
  {
    var n := |s| - 1;
    if k == n {
    } else {
      assert s[n] in s[k + 1..];
      assert s[..n][k + 1..] == s[k + 1..][..n - k - 1];
      ClosesIff(s[..n], k);
    }
  }

  /** A spelling that does not open last does not end inside a placeholder. */
  lemma CoversPlaceholder(same: (char, char) -> bool, p: string, w: string, part: string)
    requires FoldsCase(same) && Braced(p) && NotOpenLast(part) && part != "" && HitHere(same, p + w, part)
    ensures |p| <= |part|
  {
    var v := p + w;
    BraceHitsItself(same, v[0], part[0]);
    assert part[0] == '{' && part[0] in part;
    var k := LastBrace(part);
    assert part[k] == '}';
    BraceHitsItself(same, v[k], part[k]);
    assert v[k] == '}' && (k < |p| - 1 ==> p[k] != '}');
  }

  lemma HitSplits(same: (char, char) -> bool, text: string, w: string, part: string)
    requires |text| <= |part|
    ensures HitHere(same, text + w, part) <==> HitHere(same, text, part[..|text|]) && HitHere(same, w, part[|text|..])
  {
    var v, n := text + w, |text|;
    assert forall k :: 0 <= k < n ==> v[k] == text[k];
    assert forall k :: 0 <= k < |w| ==> v[n + k] == w[k];
    if HitHere(same, v, part) {
      forall k | 0 <= k < |part[n..]| ensures same(w[k], part[n..][k]) {
        assert same(v[n + k], part[n + k]);
      }
    }
    if HitHere(same, text, part[..n]) && HitHere(same, w, part[n..]) {
      forall k | 0 <= k < |part| ensures same(v[k], part[k]) {
        assert if k < n then part[..n][k] == part[k] else part[n..][k - n] == part[k];
      }
    }
  }

  /** Text and tokens agree on the hits. */
  lemma {:induction false} HitIffCovers(same: (char, char) -> bool, tokens: seq<Token>, kinds: set<string>,
      part: string)
    requires FoldsCase(same) && TokensOk(tokens, kinds) && NotOpenLast(part)
    ensures HitHere(same, Shown(tokens, map[]), part) <==> HitTokens(same, tokens, part).Some?
    ensures HitTokens(same, tokens, part).Some? ==>
      |Shown(tokens[..HitTokens(same, tokens, part).value], map[])| == |part|
    decreases |tokens|
  {
    if part == "" {
      assert tokens[..0] == [];
    } else if tokens == [] {
    } else {
      var text, w := Fill(tokens[0], map[]), Shown(tokens[1..], map[]);
      assert TokenOk(tokens[0], kinds);
      if |text| > |part| {
        if HitHere(same, text + w, part) {
          CoversPlaceholder(same, text, w, part);
        }
      } else {
        HitSplits(same, text, w, part);
        TailNotOpen(part, |text|);
        HitIffCovers(same, tokens[1..], kinds, part[|text|..]);
        CoveredTokens(same, tokens, part);
      }
    }
  }

  lemma CoveredTokens(same: (char, char) -> bool, tokens: seq<Token>, part: string)
    requires part != "" && tokens != [] && 0 < |Fill(tokens[0], map[])| <= |part|
    requires var text := Fill(tokens[0], map[]);
      var rest := HitTokens(same, tokens[1..], part[|text|..]);
      rest.Some? ==> |Shown(tokens[1..][..rest.value], map[])| == |part| - |text|
    ensures HitTokens(same, tokens, part).Some? ==>
      |Shown(tokens[..HitTokens(same, tokens, part).value], map[])| == |part|
  {
    if HitTokens(same, tokens, part).Some? {
      var n := HitTokens(same, tokens, part).value;
      assert tokens[..n][1..] == tokens[1..][..n - 1] && tokens[..n][0] == tokens[0];
    }
  }

  /** Substituting in the text is substituting in the tokens, placeholders covered as a whole. */
  lemma {:induction false} SubIsSubSpans(same: (char, char) -> bool, tokens: seq<Token>, p: string, part: string,
      l: string)
    requires FoldsCase(same) && TokensOk(tokens, {p}) && LiteralsNoBrace(tokens) && CoversWhole(part) && Braced(l)
    ensures Sub(same, Shown(tokens, map[]), part, l) == Shown(SubSpans(same, tokens, part, l), map[])
    ensures Original(SubSpans(same, tokens, part, l)) == Original(tokens)
    ensures TokensOk(SubSpans(same, tokens, part, l), {p, l})
    decreases |tokens|
  {
    if tokens == [] {
    } else {
      HitIffCovers(same, tokens, {p}, part);
      match HitTokens(same, tokens, part)
      case Some(n) =>
        SpanHit(same, tokens, p, part, l, n);
        SubIsSubSpans(same, tokens[n..], p, part, l);
        ConsTokens(Hole(l, Original(tokens[..n])), SubSpans(same, tokens[n..], part, l), map[], {p, l});
      case None =>
        SpanMiss(same, tokens, p, part, l);
        SubIsSubSpans(same, tokens[1..], p, part, l);
        assert TokenOk(tokens[0], {p});
        ConsTokens(tokens[0], SubSpans(same, tokens[1..], part, l), map[], {p, l});
    }
  }

  lemma SpanHit(same: (char, char) -> bool, tokens: seq<Token>, p: string, part: string, l: string, n: nat)
    requires part != "" && n <= |tokens| && HitHere(same, Shown(tokens, map[]), part)
    requires |Shown(tokens[..n], map[])| == |part|
    ensures Sub(same, Shown(tokens, map[]), part, l) == l + Sub(same, Shown(tokens[n..], map[]), part, l)
    ensures Original(tokens) == Original(tokens[..n]) + Original(tokens[n..])
  {
    assert tokens == tokens[..n] + tokens[n..];
    ShownConcat(tokens[..n], tokens[n..], map[]);
    OriginalConcat(tokens[..n], tokens[n..]);
    assert Shown(tokens, map[])[|part|..] == Shown(tokens[n..], map[]);
  }

  lemma SpanMiss(same: (char, char) -> bool, tokens: seq<Token>, p: string, part: string, l: string)
    requires FoldsCase(same) && TokensOk(tokens, {p}) && OpensFirst(part) && tokens != []
    requires !HitHere(same, Shown(tokens, map[]), part)
    ensures Sub(same, Shown(tokens, map[]), part, l)
         == Fill(tokens[0], map[]) + Sub(same, Shown(tokens[1..], map[]), part, l)
  {
    var v, w := Shown(tokens, map[]), Shown(tokens[1..], map[]);
    assert TokenOk(tokens[0], {p});
    match tokens[0]
    case Lit(c) =>
      assert v[0] == c && v[1..] == w;
      SubOne(same, v, part, l);
    case Hole(q, _) =>
      HoleSkipped(same, q, w, part, l);
  }

  lemma HoleSkipped(same: (char, char) -> bool, q: string, w: string, part: string, l: string)
    requires FoldsCase(same) && Braced(q) && OpensFirst(part) && !HitHere(same, q + w, part)
    ensures Sub(same, q + w, part, l) == q + Sub(same, w, part, l)
  {
    var g, r := q[1..|q| - 1], Sub(same, w, part, l);
    assert q == "{" + g + "}" && NoBraces(g);
    var v := q + w;
    assert v[0] == '{' && v[1..] == g + ("}" + w);
    SubOne(same, v, part, l);
    SkipsEnd(same, g, w, part, l);
    assert "{" + (g + ("}" + r)) == ("{" + g + "}") + r;
  }

  // ----- the round trip

  /** What was learned, where the location's spelling may cover placeholders of the query. */
  function SpannedTokens(enc: Encoding, rest: string, query: string, location: string): seq<Token>
    requires Variant(enc, rest, Strip(query), QUERY, QUERY_SLUG).Some?
  {
    match LocationHit(enc, rest, query, location)
    case None => QueryTokens(enc, rest, query)
    case Some(hit) => SubSpans(enc.same, QueryTokens(enc, rest, query), hit.0, hit.1)
  }

  /** A spelling with a brace is the location itself, or its slug. */
  lemma BracedSpelling(enc: Encoding, utf8: char -> seq<Byte>, rest: string, query: string, location: string)
    requires IsPercent(enc, utf8) && Variant(enc, rest, Strip(query), QUERY, QUERY_SLUG).Some?
    requires !PlainLocation(enc, rest, query, location)
    ensures
      var (part, l) := LocationHit(enc, rest, query, location).value;
      part == if l == LOCATION then Strip(location) else Slugify(location)
  {
    QuotedHasNoBraces(utf8, Strip(location));
    StripTwice(location);
    DistinctPlaceholders();
  }

  /** The text with the query's placeholders, in which the location is looked for. */
  lemma QueryTokensPaired(enc: Encoding, rest: string, query: string)
    requires NoBraces(rest) && Variant(enc, rest, Strip(query), QUERY, QUERY_SLUG).Some?
    ensures
      var tokens := QueryTokens(enc, rest, query);
      && Original(tokens) == rest && TokensOk(tokens, {QueryHit(enc, rest, query).1})
      && LiteralsNoBrace(tokens) && Paired(Shown(tokens, map[]))
  {
    var tokens := QueryTokens(enc, rest, query);
    QueryTokensShown(enc, rest, query);
    OriginalLiterals(tokens);
    TokensPaired(tokens, {QueryHit(enc, rest, query).1});
  }

  lemma TemplateWithLocation(enc: Encoding, url: string, base: string, query: string, location: string)
    requires |base| <= |url| && NoBraces(url) && InferUrlTemplate(enc, url, base, query, location).Some?
    requires LocationHit(enc, url[|base|..], query, location).Some?
    ensures
      var (part, l) := LocationHit(enc, url[|base|..], query, location).value;
      var v := Shown(QueryTokens(enc, url[|base|..], query), map[]);
      Sub(enc.same, v, part, l) != "" ==>
        InferUrlTemplate(enc, url, base, query, location) == Some(base + Sub(enc.same, v, part, l))
  {
    QueryTokensShown(enc, url[|base|..], query);
  }

  /** A location that cuts a placeholder never gives the URL back. */
  lemma CutIsLost(enc: Encoding, utf8: char -> seq<Byte>, url: string, base: string, query: string, location: string)
    requires |base| <= |url| && NoBraces(url) && IsPercent(enc, utf8)
    requires InferUrlTemplate(enc, url, base, query, location).Some?
      && !PlainLocation(enc, url[|base|..], query, location)
    requires !CoversWhole(LocationHit(enc, url[|base|..], query, location).value.0)
    ensures BuildSearchUrl(enc, InferUrlTemplate(enc, url, base, query, location).value, query, location) != url
  {
    var rest := url[|base|..];
    var (part, l) := LocationHit(enc, rest, query, location).value;
    var v := Shown(QueryTokens(enc, rest, query), map[]);
    QueryTokensPaired(enc, rest, query);
    BracedSpelling(enc, utf8, rest, query, location);
    TemplateWithLocation(enc, url, base, query, location);
    var cut := Sub(enc.same, v, part, l);
    if OpensFirst(part) {
      CutsStart(enc.same, v, part, l);
      ClosedBehind(base, cut, l);
      ClosedIsBuilt(enc, utf8, base + cut, query, location, l);
    } else {
      CutsEnd(enc.same, v, part, l);
      OpenBehind(base, cut, l);
      OpenIsBuilt(enc, utf8, base + cut, query, location, l);
    }
  }

  lemma OpenBehind(base: string, t: string, l: string)
    requires StuckOpen(t, l)
    ensures StuckOpen(base + t, l) && t != ""
  {
    var a, g, z :| OpenBefore(t, l, a, g, z);
    assert base + t == (base + a) + ("{" + g + (l + z));
    assert OpenBefore(base + t, l, base + a, g, z);
  }

  lemma ClosedBehind(base: string, t: string, l: string)
    requires StuckClosed(t, l)
    ensures StuckClosed(base + t, l) && t != ""
  {
    var a, g, z :| CloseAfter(t, l, a, g, z);
    assert base + t == (base + a) + (l + (g + ("}" + z)));
    assert CloseAfter(base + t, l, base + a, g, z);
  }

  lemma SameTexts(tokens: seq<Token>, p: string, l: string, fill: map<string, string>, more: map<string, string>)
    requires TokensOk(tokens, {p, l}) && Fill(Hole(p, ""), fill) == Fill(Hole(p, ""), more)
    requires Fill(Hole(l, ""), fill) == Fill(Hole(l, ""), more)
    ensures Shown(tokens, fill) == Shown(tokens, more)
  {
    ShownSame(tokens, {p, l}, fill, more);
  }

  lemma WholesFilled(
      enc: Encoding, base: string, tokens: seq<Token>, p: string, l: string, query: string, location: string,
      final: map<string, string>)
    requires BraceFree(base) && TokensOk(tokens, {p, l}) && p in final && l in final
    requires StaysClosed(enc, p, query, location) && StaysClosed(enc, l, query, location)
    requires BuildSearchUrl(enc, p, query, location) == final[p] && BuildSearchUrl(enc, l, query, location) == final[l]
    ensures BuildSearchUrl(enc, base + Shown(tokens, map[]), query, location) == base + Shown(tokens, final)
  {
    var fill := map[p := p][l := l];
    SameTexts(tokens, p, l, map[], fill);
    BuildInHoles(enc, base, tokens, {p, l}, fill, query, location);
    SameTexts(tokens, p, l, Built(enc, fill, query, location), final);
  }

  /** Building from whole placeholders fills each. */
  lemma WholesBuilt(
      enc: Encoding, utf8: char -> seq<Byte>, base: string, tokens: seq<Token>, p: string, l: string, query: string,
      location: string)
    requires IsPercent(enc, utf8) && BraceFree(base) && TokensOk(tokens, {p, l}) && IsPlaceholder(p) && IsPlaceholder(l)
    ensures BuildSearchUrl(enc, base + Shown(tokens, map[]), query, location)
         == base + Shown(tokens, Filling(enc, query, location))
  {
    WholeBuilt(enc, utf8, p, query, location);
    WholeBuilt(enc, utf8, l, query, location);
    WholesFilled(enc, base, tokens, p, l, query, location, Filling(enc, query, location));
  }

  lemma CoveredIsBuilt(enc: Encoding, utf8: char -> seq<Byte>, url: string, base: string, query: string,
      location: string)
    requires |base| <= |url| && BraceFree(base) && NoBraces(url) && IsPercent(enc, utf8)
    requires InferUrlTemplate(enc, url, base, query, location).Some?
      && !PlainLocation(enc, url[|base|..], query, location)
    requires CoversWhole(LocationHit(enc, url[|base|..], query, location).value.0)
    ensures
      var tokens := SpannedTokens(enc, url[|base|..], query, location);
      && BuildSearchUrl(enc, InferUrlTemplate(enc, url, base, query, location).value, query, location)
         == base + Shown(tokens, Filling(enc, query, location))
      && Original(tokens) == url[|base|..]
  {
    var rest := url[|base|..];
    var tokens := QueryTokens(enc, rest, query);
    var (part, l) := LocationHit(enc, rest, query, location).value;
    var p := QueryHit(enc, rest, query).1;
    QueryTokensPaired(enc, rest, query);
    OneClosingBrace(l);
    SubIsSubSpans(enc.same, tokens, p, part, l);
    TemplateWithLocation(enc, url, base, query, location);
    SubNotEmpty(enc.same, Shown(tokens, map[]), part, l);
    WholesBuilt(enc, utf8, base, SubSpans(enc.same, tokens, part, l), p, l, query, location);
  }

  lemma {:induction false} SpelledIsOriginal(tokens: seq<Token>, fill: map<string, string>)
    requires SpelledAs(tokens, fill)
    ensures Shown(tokens, fill) == Original(tokens)
  {
    if tokens == [] {
    } else {
      SpelledIsOriginal(tokens[1..], fill);
    }
  }

  /** No text gets longer by its rendering, or none gets shorter. */
  ghost predicate OneSign(tokens: seq<Token>, fill: map<string, string>) {
    || (forall k :: 0 <= k < |tokens| ==> |Fill(tokens[k], fill)| <= |Was(tokens[k])|)
    || (forall k :: 0 <= k < |tokens| ==> |Fill(tokens[k], fill)| >= |Was(tokens[k])|)
  }

  lemma {:induction false} LengthsAgree(tokens: seq<Token>, fill: map<string, string>)
    requires OneSign(tokens, fill)
    ensures
      || |Shown(tokens, fill)| != |Original(tokens)|
      || forall k :: 0 <= k < |tokens| ==> |Fill(tokens[k], fill)| == |Was(tokens[k])|
    ensures (forall k :: 0 <= k < |tokens| ==> |Fill(tokens[k], fill)| <= |Was(tokens[k])|) ==>
      |Shown(tokens, fill)| <= |Original(tokens)|
    ensures (forall k :: 0 <= k < |tokens| ==> |Fill(tokens[k], fill)| >= |Was(tokens[k])|) ==>
      |Shown(tokens, fill)| >= |Original(tokens)|
  {
    if tokens == [] {
    } else {
      assert forall k :: 0 <= k < |tokens[1..]| ==> tokens[1..][k] == tokens[k + 1];
      LengthsAgree(tokens[1..], fill);
    }
  }

  lemma {:induction false} AlignedIsSpelled(tokens: seq<Token>, fill: map<string, string>)
    requires forall k :: 0 <= k < |tokens| ==> |Fill(tokens[k], fill)| == |Was(tokens[k])|
    requires Shown(tokens, fill) == Original(tokens)
    ensures SpelledAs(tokens, fill)
  {
    if tokens == [] {
    } else {
      ConcatSame(Fill(tokens[0], fill), Shown(tokens[1..], fill), Was(tokens[0]), Original(tokens[1..]));
      AlignedIsSpelled(tokens[1..], fill);
    }
  }

  lemma OneSignIff(tokens: seq<Token>, fill: map<string, string>)
    ensures SpelledAs(tokens, fill) ==> Shown(tokens, fill) == Original(tokens)
    ensures OneSign(tokens, fill) ==> (Shown(tokens, fill) == Original(tokens) <==> SpelledAs(tokens, fill))
  {
    if SpelledAs(tokens, fill) {
      SpelledIsOriginal(tokens, fill);
    } else if OneSign(tokens, fill) && Shown(tokens, fill) == Original(tokens) {
      LengthsAgree(tokens, fill);
      AlignedIsSpelled(tokens, fill);
    }
  }

  ghost predicate ComesBack(enc: Encoding, url: string, base: string, query: string, location: string)
    requires |base| <= |url| && InferUrlTemplate(enc, url, base, query, location).Some?
  {
    BuildSearchUrl(enc, InferUrlTemplate(enc, url, base, query, location).value, query, location) == url
  }

  /**
   * A location found by a spelling with a brace: the URL is lost if that spelling cuts a placeholder.
   * If it covers whole ones, the URL comes back whenever everything is spelled as it is rendered,
   * and only then unless rendering makes one text longer and another one shorter.
   */
  lemma RoundTripWithBraces(
      enc: Encoding, utf8: char -> seq<Byte>, url: string, base: string, query: string, location: string)
    requires |base| <= |url| && BraceFree(base) && NoBraces(url) && IsPercent(enc, utf8)
    requires InferUrlTemplate(enc, url, base, query, location).Some?
      && !PlainLocation(enc, url[|base|..], query, location)
    ensures
      var tokens, fill := SpannedTokens(enc, url[|base|..], query, location), Filling(enc, query, location);
      if CoversWhole(LocationHit(enc, url[|base|..], query, location).value.0) then
        && (url[..|base|] == base && SpelledAs(tokens, fill) ==> ComesBack(enc, url, base, query, location))
        && (OneSign(tokens, fill) ==>
             (ComesBack(enc, url, base, query, location) <==> url[..|base|] == base && SpelledAs(tokens, fill)))
      else !ComesBack(enc, url, base, query, location)
  {
    var tokens, fill := SpannedTokens(enc, url[|base|..], query, location), Filling(enc, query, location);
    if CoversWhole(LocationHit(enc, url[|base|..], query, location).value.0) {
      CoveredIsBuilt(enc, utf8, url, base, query, location);
      PrefixAndRest(base, Shown(tokens, fill), url);
      OneSignIff(tokens, fill);
    } else {
      CutIsLost(enc, utf8, url, base, query, location);
    }
  }

  /** With any location: the exact condition for a plain spelling, and the rest for one with braces. */
  lemma RoundTripForAnyLocation(
      enc: Encoding, utf8: char -> seq<Byte>, url: string, base: string, query: string, location: string)
    requires |base| <= |url| && BraceFree(base) && BraceFree(url) && IsPercent(enc, utf8)
    requires InferUrlTemplate(enc, url, base, query, location).Some?
    ensures
      var rest, fill := url[|base|..], Filling(enc, query, location);
      if PlainLocation(enc, rest, query, location) then
        ComesBack(enc, url, base, query, location)
        <==> url[..|base|] == base && Intact(enc, rest, query, location)
             && SpelledAs(LearnedTokens(enc, rest, query, location), fill)
      else NoBraces(url) ==>
        if CoversWhole(LocationHit(enc, rest, query, location).value.0) then
          var tokens := SpannedTokens(enc, rest, query, location);
          && (url[..|base|] == base && SpelledAs(tokens, fill) ==> ComesBack(enc, url, base, query, location))
          && (OneSign(tokens, fill) ==>
               (ComesBack(enc, url, base, query, location) <==> url[..|base|] == base && SpelledAs(tokens, fill)))
        else !ComesBack(enc, url, base, query, location)
  {
    if PlainLocation(enc, url[|base|..], query, location) {
      RoundTripWithLocation(enc, utf8, url, base, query, location);
    } else if NoBraces(url) {
      RoundTripWithBraces(enc, utf8, url, base, query, location);
    }
  }

  /** Above all, a location without braces is found by a plain spelling. */
  lemma RoundTripWithoutBraces(
      enc: Encoding, utf8: char -> seq<Byte>, url: string, base: string, query: string, location: string)
    requires |base| <= |url| && BraceFree(base) && BraceFree(url) && NoBraces(location) && IsPercent(enc, utf8)
    requires InferUrlTemplate(enc, url, base, query, location).Some?
    ensures
      ComesBack(enc, url, base, query, location)
      <==> url[..|base|] == base && Intact(enc, url[|base|..], query, location)
           && SpelledAs(LearnedTokens(enc, url[|base|..], query, location), Filling(enc, query, location))
  {
    LocationWithoutBracesIsPlain(enc, utf8, url[|base|..], query, location);
    RoundTripWithLocation(enc, utf8, url, base, query, location);
  }
}
