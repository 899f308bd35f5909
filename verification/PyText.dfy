/** The few text primitives of Python that the model needs: white space, `strip` and `split`. */
module PyText {

  /** `str.isspace` for one character. */
  predicate IsSpace(c: char) {
    || '\t' <= c <= '\r' || '\U{1c}' <= c <= ' ' || c == '\U{85}' || c == '\U{a0}' || c == '\U{1680}'
    || '\U{2000}' <= c <= '\U{200a}' || c == '\U{2028}' || c == '\U{2029}' || c == '\U{202f}'
    || c == '\U{205f}' || c == '\U{3000}'
  }

  predicate Blank(s: string) {
    forall i :: 0 <= i < |s| ==> IsSpace(s[i])
  }

  function StripLeft(s: string): string {
    if s != "" && IsSpace(s[0]) then StripLeft(s[1..]) else s
  }

  function StripRight(s: string): string {
    if s != "" && IsSpace(s[|s| - 1]) then StripRight(s[..|s| - 1]) else s
  }

  function Strip(s: string): string {
    StripRight(StripLeft(s))
  }

  /** `str.split()`: the maximal runs of characters that are not white space. */
  function SplitWords(s: string): seq<string> {
    SplitFrom(s, "")
  }

  function SplitFrom(s: string, word: string): seq<string>
    decreases |s|
  {
    if s == "" then if word == "" then [] else [word]
    else if IsSpace(s[0]) then (if word == "" then [] else [word]) + SplitFrom(s[1..], "")
    else SplitFrom(s[1..], word + [s[0]])
  }

  lemma {:induction false} StripRightIs(s: string) returns (right: string)
    ensures s == StripRight(s) + right && Blank(right)
    ensures StripRight(s) != "" ==> !IsSpace(StripRight(s)[|StripRight(s)| - 1])
  {
    if s != "" && IsSpace(s[|s| - 1]) {
      var rest := StripRightIs(s[..|s| - 1]);
      right := rest + [s[|s| - 1]];
      assert s == s[..|s| - 1] + [s[|s| - 1]];
    } else {
      right := "";
    }
  }

  lemma {:induction false} StripLeftIs(s: string) returns (left: string)
    ensures s == left + StripLeft(s) && Blank(left)
    ensures StripLeft(s) != "" ==> !IsSpace(StripLeft(s)[0])
  {
    if s != "" && IsSpace(s[0]) {
      var rest := StripLeftIs(s[1..]);
      left := [s[0]] + rest;
    } else {
      left := "";
    }
  }

  /** Stripping takes off white space only, and all of it. */
  lemma StripIs(s: string) returns (left: string, right: string)
    ensures s == left + Strip(s) + right && Blank(left) && Blank(right)
    ensures Strip(s) != "" ==> !IsSpace(Strip(s)[0]) && !IsSpace(Strip(s)[|Strip(s)| - 1])
  {
    left := StripLeftIs(s);
    right := StripRightIs(StripLeft(s));
    var core := StripLeft(s);
    if Strip(s) != "" {
      assert core[0] == Strip(s)[0];
    }
  }

  lemma {:induction false} SplitBehind(word: string, more: string, rest: string)
    requires forall k :: 0 <= k < |more| ==> !IsSpace(more[k])
    ensures SplitFrom(more + rest, word) == SplitFrom(rest, word + more)
    decreases |more|
  {
    if more == "" {
      assert more + rest == rest && word + more == word;
    } else {
      assert (more + rest)[1..] == more[1..] + rest && (word + [more[0]]) + more[1..] == word + more;
      SplitBehind(word + [more[0]], more[1..], rest);
    }
  }

  /** White space before the first word is ignored. */
  lemma {:induction false} SplitSkips(space: string, rest: string)
    requires Blank(space)
    ensures SplitWords(space + rest) == SplitWords(rest)
    decreases |space|
  {
    if space == "" {
      assert space + rest == rest;
    } else {
      assert (space + rest)[1..] == space[1..] + rest;
      SplitSkips(space[1..], rest);
    }
  }

  /** A word reaches up to the next white space. */
  lemma SplitTakes(word: string, rest: string)
    requires word != "" && forall k :: 0 <= k < |word| ==> !IsSpace(word[k])
    requires rest != "" ==> IsSpace(rest[0])
    ensures SplitWords(word + rest) == [word] + SplitWords(rest)
  {
    SplitBehind("", word, rest);
    assert "" + word == word;
    if rest != "" {
      SplitSkips([rest[0]], rest[1..]);
      assert [rest[0]] + rest[1..] == rest;
    }
  }
}
