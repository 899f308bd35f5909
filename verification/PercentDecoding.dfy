/** Decoding percent-encoded text, and that it undoes both encodings. */
module PercentDecoding {
  import opened PercentEncoding

  function HexValue(c: char): int {
    if '0' <= c <= '9' then c as int - '0' as int
    else if 'A' <= c <= 'F' then c as int - 'A' as int + 10
    else 0
  }

  /** The bytes an encoded text stands for; `plus` decodes the form variant. */
  function Unquote(s: string, plus: bool): seq<int> {
    if s == "" then []
    else if s[0] == '%' && |s| >= 3 then [16 * HexValue(s[1]) + HexValue(s[2])] + Unquote(s[3..], plus)
    else [if plus && s[0] == '+' then 0x20 else s[0] as int] + Unquote(s[1..], plus)
  }

  function Bytes(utf8: char -> seq<Byte>, text: string): seq<int> {
    if text == "" then [] else Bytes(utf8, text[..|text| - 1]) + utf8(text[|text| - 1])
  }

  /** The unreserved characters are ASCII. */
  ghost predicate KeepsAscii(utf8: char -> seq<Byte>) {
    forall c :: Unreserved(c) ==> utf8(c) == [c as int]
  }

  lemma ByteDecodes(b: Byte, rest: string, plus: bool)
    ensures Unquote(EscapeByte(b) + rest, plus) == [b as int] + Unquote(rest, plus)
  {
    var whole := EscapeByte(b) + rest;
    assert whole[0] == '%' && whole[1] == Hex(b / 16) && whole[2] == Hex(b % 16) && whole[3..] == rest;
    HexDecodes(b / 16);
    HexDecodes(b % 16);
  }

  lemma HexDecodes(n: int)
    requires 0 <= n < 16
    ensures HexValue(Hex(n)) == n
  {
  }

  lemma {:induction false} EscapeDecodes(bytes: seq<Byte>, rest: string, plus: bool)
    ensures Unquote(Escape(bytes) + rest, plus) == bytes + Unquote(rest, plus)
  {
    if bytes == [] {
      assert Escape(bytes) + rest == rest;
    } else {
      var before, last := bytes[..|bytes| - 1], bytes[|bytes| - 1];
      assert Escape(bytes) + rest == Escape(before) + (EscapeByte(last) + rest);
      EscapeDecodes(before, EscapeByte(last) + rest, plus);
      ByteDecodes(last, rest, plus);
      assert bytes == before + [last];
    }
  }

  lemma PlainDecodes(c: char, rest: string, plus: bool)
    requires Unreserved(c)
    ensures Unquote([c] + rest, plus) == [c as int] + Unquote(rest, plus)
  {
    assert ([c] + rest)[1..] == rest;
  }

  lemma CharDecodes(utf8: char -> seq<Byte>, c: char, rest: string, plus: bool)
    requires IsUtf8(utf8) && KeepsAscii(utf8)
    ensures Unquote((if plus then QuotePlusChar(utf8, c) else QuoteChar(utf8, c)) + rest, plus)
         == utf8(c) + Unquote(rest, plus)
  {
    if plus && c == ' ' {
      assert ("+" + rest)[1..] == rest;
    } else if Unreserved(c) {
      PlainDecodes(c, rest, plus);
    } else {
      EscapeDecodes(utf8(c), rest, plus);
    }
  }

  lemma {:induction false} TextDecodes(utf8: char -> seq<Byte>, text: string, rest: string, plus: bool)
    requires IsUtf8(utf8) && KeepsAscii(utf8)
    ensures Unquote((if plus then QuotePlus(utf8, text) else Quote(utf8, text)) + rest, plus)
         == Bytes(utf8, text) + Unquote(rest, plus)
  {
    if text == "" {
      assert "" + rest == rest;
    } else {
      var before, last := text[..|text| - 1], text[|text| - 1];
      var head := if plus then QuotePlus(utf8, before) else Quote(utf8, before);
      var tail := if plus then QuotePlusChar(utf8, last) else QuoteChar(utf8, last);
      assert (head + tail) + rest == head + (tail + rest);
      TextDecodes(utf8, before, tail + rest, plus);
      CharDecodes(utf8, last, rest, plus);
    }
  }

  /** Decoding gives back the bytes of the text, from either encoding. */
  lemma DecodingUndoesEncoding(utf8: char -> seq<Byte>, text: string)
    requires IsUtf8(utf8) && KeepsAscii(utf8)
    ensures Unquote(Quote(utf8, text), false) == Bytes(utf8, text)
    ensures Unquote(QuotePlus(utf8, text), true) == Bytes(utf8, text)
  {
    TextDecodes(utf8, text, "", false);
    TextDecodes(utf8, text, "", true);
    assert Quote(utf8, text) + "" == Quote(utf8, text) && QuotePlus(utf8, text) + "" == QuotePlus(utf8, text);
  }
}
