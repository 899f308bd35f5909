/**
 * Percent-encoding as in section 2.1 of RFC 3986, and its form variant with `+` for a space. The
 * UTF-8 bytes of a character and the case-insensitive comparison of two characters are inputs.
 */
module PercentEncoding {
  import opened UrlTemplate

  type Byte = b: int | 0 <= b < 256

  predicate IsDigit(c: char) {
    '0' <= c <= '9'
  }

  predicate Unreserved(c: char) {
    'a' <= c <= 'z' || 'A' <= c <= 'Z' || IsDigit(c) || c == '_' || c == '.' || c == '-' || c == '~'
  }

  predicate IsHex(c: char) {
    IsDigit(c) || 'A' <= c <= 'F'
  }

  function Hex(n: int): (c: char)
    requires 0 <= n < 16
    ensures IsHex(c)
  {
    if n < 10 then '0' + n as char else 'A' + (n - 10) as char
  }

  function EscapeByte(b: Byte): string {
    ['%', Hex(b / 16), Hex(b % 16)]
  }

  function Escape(bytes: seq<Byte>): string {
    if bytes == [] then "" else Escape(bytes[..|bytes| - 1]) + EscapeByte(bytes[|bytes| - 1])
  }

  function QuoteChar(utf8: char -> seq<Byte>, c: char): string {
    if Unreserved(c) then [c] else Escape(utf8(c))
  }

  /** `quote(text, safe="")`; "-" is safe anyway. */
  function Quote(utf8: char -> seq<Byte>, text: string): string {
    if text == "" then "" else Quote(utf8, text[..|text| - 1]) + QuoteChar(utf8, text[|text| - 1])
  }

  function QuotePlusChar(utf8: char -> seq<Byte>, c: char): string {
    if c == ' ' then "+" else QuoteChar(utf8, c)
  }

  /** `quote_plus(text)` */
  function QuotePlus(utf8: char -> seq<Byte>, text: string): string {
    if text == "" then "" else QuotePlus(utf8, text[..|text| - 1]) + QuotePlusChar(utf8, text[|text| - 1])
  }

  /** Every character has bytes, and a space is the byte 0x20. */
  ghost predicate IsUtf8(utf8: char -> seq<Byte>) {
    (forall c :: utf8(c) != []) && utf8(' ') == [0x20]
  }

  /** What IGNORECASE never does: fold braces, spaces, percent signs or digits, or a hexadecimal digit with a symbol. */
  ghost predicate FoldsCase(same: (char, char) -> bool) {
    && (forall c :: same(c, c))
    && (forall a, c :: same(a, c) && (Solid(a) || Solid(c)) ==> a == c)
    && (forall a, c :: same(a, c) && IsHex(a) ==> Unreserved(c))
  }

  predicate Solid(c: char) {
    c == '{' || c == '}' || c == ' ' || c == '%' || c == '+' || IsDigit(c)
  }

  ghost predicate IsPercent(enc: Encoding, utf8: char -> seq<Byte>) {
    && IsUtf8(utf8) && FoldsCase(enc.same)
    && forall s ::
         && enc.quotePlus(s) == QuotePlus(utf8, s)
         && enc.quoteAll(s) == Quote(utf8, s)
         && enc.quoteSlug(s) == Quote(utf8, s)
  }

  // ----- what an encoded text is made of

  predicate NoBraces(s: string) {
    '{' !in s && '}' !in s
  }

  lemma {:induction false} EscapeShape(bytes: seq<Byte>)
    ensures bytes != [] ==> |Escape(bytes)| >= 3 && '%' in Escape(bytes) && IsHex(Escape(bytes)[|Escape(bytes)| - 1])
    ensures NoBraces(Escape(bytes)) && forall k :: 0 <= k < |Escape(bytes)| ==>
      Escape(bytes)[k] == '%' || IsHex(Escape(bytes)[k])
  {
    if bytes == [] {
    } else {
      EscapeShape(bytes[..|bytes| - 1]);
      var last := EscapeByte(bytes[|bytes| - 1]);
      assert last[0] == '%' && Escape(bytes)[|Escape(bytes)| - 3] == last[0];
    }
  }

  lemma {:induction false} QuotedHasNoBraces(utf8: char -> seq<Byte>, text: string)
    ensures NoBraces(Quote(utf8, text)) && NoBraces(QuotePlus(utf8, text))
  {
    if text == "" {
    } else {
      QuotedHasNoBraces(utf8, text[..|text| - 1]);
      EscapeShape(utf8(text[|text| - 1]));
    }
  }

  /** So the round trip without a location assumes nothing of percent encoding that it does not do. */
  lemma PercentEscapesBraces(enc: Encoding, utf8: char -> seq<Byte>)
    requires IsPercent(enc, utf8)
    ensures EscapesBraces(enc)
  {
    forall s ensures BraceFree(enc.quotePlus(s)) && BraceFree(enc.quoteSlug(s)) {
      QuotedHasNoBraces(utf8, s);
    }
  }

  lemma EscapeIsMarked(utf8: char -> seq<Byte>, c: char)
    requires IsUtf8(utf8)
    ensures QuoteChar(utf8, c) == [c] || '%' in QuoteChar(utf8, c)
    ensures QuotePlusChar(utf8, c) == QuoteChar(utf8, c) || (c == ' ' && '%' in QuoteChar(utf8, c))
  {
    EscapeShape(utf8(c));
  }

  /** Encoding leaves a text alone, or puts a `%`, or the text has a space. */
  predicate SameOrMarked(text: string, encoded: string) {
    encoded == text || '%' in encoded || ' ' in text
  }

  lemma {:induction false} QuotedOrSame(utf8: char -> seq<Byte>, text: string)
    requires IsUtf8(utf8)
    ensures SameOrMarked(text, QuotePlus(utf8, text))
  {
    if text == "" {
    } else {
      var before, c := text[..|text| - 1], text[|text| - 1];
      QuotedOrSame(utf8, before);
      EscapeIsMarked(utf8, c);
      MarkedAppend(before, QuotePlus(utf8, before), c, QuotePlusChar(utf8, c));
      assert text == before + [c];
    }
  }

  lemma MarkedAppend(before: string, encoded: string, c: char, block: string)
    requires SameOrMarked(before, encoded) && SameOrMarked([c], block)
    ensures SameOrMarked(before + [c], encoded + block)
  {
    assert '%' in encoded || '%' in block ==> '%' in encoded + block;
    assert ' ' in before || c == ' ' ==> ' ' in before + [c];
  }

  /** The two encodings differ only where a `%20` stands for a space. */
  lemma {:induction false} PlusOrSame(utf8: char -> seq<Byte>, text: string)
    requires IsUtf8(utf8)
    ensures QuotePlus(utf8, text) == Quote(utf8, text) || '%' in Quote(utf8, text)
  {
    if text == "" {
    } else {
      PlusOrSame(utf8, text[..|text| - 1]);
      EscapeIsMarked(utf8, text[|text| - 1]);
    }
  }

  // ----- a found spelling and its rendering, compared from the right

  ghost predicate SpelledLike(same: (char, char) -> bool, was: string, part: string) {
    |was| == |part| && forall k :: 0 <= k < |part| ==> same(was[k], part[k])
  }

  /** Some characters as far from the end of both texts differ, so the texts never end alike. */
  ghost predicate EndsDiffer(a: string, b: string) {
    exists r :: EndsDifferAt(a, b, r)
  }

  ghost predicate EndsDifferAt(a: string, b: string, r: int) {
    0 <= r < |a| && r < |b| && a[|a| - 1 - r] != b[|b| - 1 - r]
  }

  ghost predicate Comparable(a: string, b: string) {
    a == b || EndsDiffer(a, b)
  }

  lemma ComparableAppend(a: string, b: string, x: string, y: string)
    requires Comparable(a, b) && |x| == |y|
    ensures Comparable(a + x, b + y)
  {
    if x != y {
      var k :| 0 <= k < |x| && x[k] != y[k];
      assert EndsDifferAt(a + x, b + y, |x| - 1 - k);
    } else if a != b {
      var r :| EndsDifferAt(a, b, r);
      assert EndsDifferAt(a + x, b + y, r + |x|);
    }
  }

  lemma DifferentLast(a: string, b: string, x: string, y: string)
    requires x != "" && y != "" && x[|x| - 1] != y[|y| - 1]
    ensures Comparable(a + x, b + y)
  {
    assert EndsDifferAt(a + x, b + y, 0);
  }

  lemma PlainCharAgainstQuoted(same: (char, char) -> bool, utf8: char -> seq<Byte>, a: string, b: string,
      w: char, c: char, block: string)
    requires IsUtf8(utf8) && FoldsCase(same) && same(w, c) && Comparable(a, b)
    requires block == QuoteChar(utf8, c) || block == QuotePlusChar(utf8, c)
    ensures Comparable(a + [w], b + block)
  {
    EscapeShape(utf8(c));
    if Unreserved(c) {
      ComparableAppend(a, b, [w], block);
    } else {
      DifferentLast(a, b, [w], block);
    }
  }

  /** A text found as it is never ends like its encoding, unless it is its encoding. */
  lemma {:induction false} PlainAgainstQuoted(same: (char, char) -> bool, utf8: char -> seq<Byte>, text: string,
      was: string)
    requires IsUtf8(utf8) && FoldsCase(same) && SpelledLike(same, was, text)
    ensures Comparable(was, QuotePlus(utf8, text)) && Comparable(was, Quote(utf8, text))
  {
    if text == "" {
    } else {
      var n := |text| - 1;
      var before, head := text[..n], was[..n];
      assert was == head + [was[n]];
      PlainAgainstQuoted(same, utf8, before, head);
      PlainOneMore(same, utf8, before, head, was[n], text[n]);
      assert text == before + [text[n]];
    }
  }

  lemma PlainOneMore(same: (char, char) -> bool, utf8: char -> seq<Byte>, before: string, head: string,
      w: char, c: char)
    requires IsUtf8(utf8) && FoldsCase(same) && same(w, c)
    requires Comparable(head, QuotePlus(utf8, before)) && Comparable(head, Quote(utf8, before))
    ensures Comparable(head + [w], QuotePlus(utf8, before + [c])) && Comparable(head + [w], Quote(utf8, before + [c]))
  {
    assert (before + [c])[..|before|] == before;
    PlainCharAgainstQuoted(same, utf8, head, Quote(utf8, before), w, c, QuoteChar(utf8, c));
    PlainCharAgainstQuoted(same, utf8, head, QuotePlus(utf8, before), w, c, QuotePlusChar(utf8, c));
  }

  /** Nor does a spelling with `%20` end like the one with `+`. */
  lemma {:induction false} QuotedAgainstPlus(same: (char, char) -> bool, utf8: char -> seq<Byte>, text: string,
      was: string)
    requires IsUtf8(utf8) && FoldsCase(same) && SpelledLike(same, was, Quote(utf8, text))
    ensures Comparable(was, QuotePlus(utf8, text))
  {
    if text == "" {
    } else {
      var n := |text| - 1;
      var before, block := Quote(utf8, text[..n]), QuoteChar(utf8, text[n]);
      var head, tail := was[..|before|], was[|before|..];
      assert was == head + tail && |tail| == |block|;
      assert SpelledLike(same, head, before);
      QuotedAgainstPlus(same, utf8, text[..n], head);
      if text[n] == ' ' {
        SpaceEndsInZero(utf8);
        assert same(was[|was| - 1], Quote(utf8, text)[|was| - 1]);
        DifferentLast(head, QuotePlus(utf8, text[..n]), tail, "+");
      } else {
        ComparableAppend(head, QuotePlus(utf8, text[..n]), tail, block);
      }
    }
  }

  lemma SpaceEndsInZero(utf8: char -> seq<Byte>)
    requires IsUtf8(utf8)
    ensures QuoteChar(utf8, ' ') == "%20"
  {
    assert [0x20][..0] == [] && Escape([]) == "";
    assert Hex(2) == '2' && Hex(0) == '0';
    assert Escape([0x20]) == "" + EscapeByte(0x20);
  }

  /** A text spelled like the encoding itself can differ from it in case only. */
  lemma SameLengthComparable(was: string, part: string)
    requires |was| == |part|
    ensures Comparable(was, part)
  {
    assert Comparable("", "");
    ComparableAppend("", "", was, part);
    assert "" + was == was && "" + part == part;
  }
}
