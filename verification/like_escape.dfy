/** LIKE patterns built from operator queries: the escape undoes the matcher's metacharacters. */
module LikeEscape {
  import opened Common

  // ---- The escape -------------------------------------------------------------------------

  /** Replace every occurrence of one character by a string. */
  function ReplaceAll(s: string, c: char, by_: string): string {
    if s == "" then "" else (if s[0] == c then by_ else [s[0]]) + ReplaceAll(s[1..], c, by_)
  }

  /** Backslashes first, then the two wildcards. */
  function EscapeLikePattern(s: string): string {
    ReplaceAll(ReplaceAll(ReplaceAll(s, '\\', "\\\\"), '%', "\\%"), '_', "\\_")
  }

  predicate Meta(c: char) {
    c == '\\' || c == '%' || c == '_'
  }

  /** One pass, character by character. */
  function Escaped(s: string): string {
    if s == "" then "" else (if Meta(s[0]) then ['\\', s[0]] else [s[0]]) + Escaped(s[1..])
  }

  lemma {:induction false} ReplaceAllAppend(s: string, t: string, c: char, by_: string)
    ensures ReplaceAll(s + t, c, by_) == ReplaceAll(s, c, by_) + ReplaceAll(t, c, by_)
  {
    if s == "" {
      assert s + t == t;
    } else {
      assert (s + t)[1..] == s[1..] + t;
      ReplaceAllAppend(s[1..], t, c, by_);
    }
  }

  lemma ReplaceOne(x: char, c: char, by_: string)
    ensures ReplaceAll([x], c, by_) == if x == c then by_ else [x]
  {
  }

  lemma ReplacePair(x: char, y: char, c: char, by_: string)
    ensures ReplaceAll([x, y], c, by_) == (if x == c then by_ else [x]) + (if y == c then by_ else [y])
  {
    assert [x, y] == [x] + [y];
    ReplaceAllAppend([x], [y], c, by_);
    ReplaceOne(x, c, by_);
    ReplaceOne(y, c, by_);
  }

  /** The three successive replacements are one pass over the characters. */
  lemma {:induction false} EscapeIsOnePass(s: string)
    ensures EscapeLikePattern(s) == Escaped(s)
  {
    if s != "" {
      var x, rest := s[0], s[1..];
      assert s == [x] + rest;
      var one := ReplaceAll([x], '\\', "\\\\");
      ReplaceOne(x, '\\', "\\\\");
      ReplaceAllAppend([x], rest, '\\', "\\\\");
      var two := ReplaceAll(one, '%', "\\%");
      ReplaceAllAppend(one, ReplaceAll(rest, '\\', "\\\\"), '%', "\\%");
      ReplaceOne(x, '%', "\\%");
      ReplacePair('\\', '\\', '%', "\\%");
      assert two == if x == '\\' then "\\\\" else if x == '%' then "\\%" else [x];
      ReplaceAllAppend(two, ReplaceAll(ReplaceAll(rest, '\\', "\\\\"), '%', "\\%"), '_', "\\_");
      ReplaceOne(x, '_', "\\_");
      ReplacePair('\\', '\\', '_', "\\_");
      ReplacePair('\\', '%', '_', "\\_");
      EscapeIsOnePass(rest);
    }
  }

  // ---- The matcher ------------------------------------------------------------------------

  /** LIKE with backslash as escape; a pattern ending in a lone backslash matches nothing. */
  predicate Like(text: string, pattern: string)
    decreases |pattern|, |text|
  {
    if pattern == "" then text == ""
    else if pattern[0] == '%' then Like(text, pattern[1..]) || (text != "" && Like(text[1..], pattern))
    else if pattern[0] == '_' then text != "" && Like(text[1..], pattern[1..])
    else if pattern[0] == '\\' then
      |pattern| > 1 && text != "" && text[0] == pattern[1] && Like(text[1..], pattern[2..])
    else text != "" && text[0] == pattern[0] && Like(text[1..], pattern[1..])
  }

  lemma {:induction false} PercentMatchesAll(text: string)
    ensures Like(text, "%")
  {
    assert "%"[1..] == "";
    if text != "" {
      PercentMatchesAll(text[1..]);
    }
  }

  /** Matching the escaped query followed by any pattern peels the query literally off the text. */
  lemma {:induction false} EscapedIsLiteral(query: string, tail: string, text: string)
    ensures Like(text, Escaped(query) + tail) <==> query <= text && Like(text[|query|..], tail)
  {
    var pattern := Escaped(query) + tail;
    if query == "" {
      assert pattern == tail && text[0..] == text;
    } else {
      var c := query[0];
      if Meta(c) {
        assert pattern == ['\\', c] + (Escaped(query[1..]) + tail);
        assert pattern[2..] == Escaped(query[1..]) + tail;
      } else {
        assert pattern == [c] + (Escaped(query[1..]) + tail);
        assert pattern[1..] == Escaped(query[1..]) + tail;
      }
      if text != "" && text[0] == c {
        EscapedIsLiteral(query[1..], tail, text[1..]);
        assert query <= text <==> query[1..] <= text[1..] by {
          assert query == [c] + query[1..] && text == [c] + text[1..];
        }
        if query <= text {
          assert text[1..][|query| - 1..] == text[|query|..];
        }
      }
    }
  }

  /** A text matches the escaped query followed by % exactly if it starts with the query. */
  lemma PrefixSearchExact(query: string, text: string)
    ensures Like(text, EscapeLikePattern(query) + "%") <==> query <= text
  {
    EscapeIsOnePass(query);
    EscapedIsLiteral(query, "%", text);
    if query <= text {
      PercentMatchesAll(text[|query|..]);
    }
  }

  /** Without the escape a search for a name with an underscore finds other names. */
  lemma UnescapedFindsMore()
    ensures Like("oX", "o_" + "%") && !("o_" <= "oX")
    ensures !Like("oX", EscapeLikePattern("o_") + "%")
  {
    PrefixSearchExact("o_", "oX");
    PercentMatchesAll("");
    var pattern := "o_" + "%";
    assert pattern[1..] == "_%" && "_%"[1..] == "%";
    assert "oX"[1..] == "X" && "X"[1..] == "";
    assert "oX"[1] != "o_"[1];
    assert Like("X", "_%");
  }

  // ---- Lowering ---------------------------------------------------------------------------

  function Map(s: string, lower: char -> char): string {
    seq(|s|, i requires 0 <= i < |s| => lower(s[i]))
  }

  /** What every case mapping does: it fixes the metacharacters and maps no other character to one. */
  ghost predicate FixesMeta(lower: char -> char) {
    forall c :: if Meta(c) then lower(c) == c else !Meta(lower(c))
  }

  lemma MapAppend(s: string, t: string, lower: char -> char)
    ensures Map(s + t, lower) == Map(s, lower) + Map(t, lower)
  {
  }

  /** Lowering before or after the escape gives the same pattern. */
  lemma {:induction false} LoweringCommutes(s: string, lower: char -> char)
    requires FixesMeta(lower)
    ensures Map(EscapeLikePattern(s), lower) == EscapeLikePattern(Map(s, lower))
  {
    EscapeIsOnePass(s);
    EscapeIsOnePass(Map(s, lower));
    EscapedLowers(s, lower);
  }

  lemma {:induction false} EscapedLowers(s: string, lower: char -> char)
    requires FixesMeta(lower)
    ensures Map(Escaped(s), lower) == Escaped(Map(s, lower))
  {
    if s != "" {
      EscapedLowers(s[1..], lower);
      var head := if Meta(s[0]) then ['\\', s[0]] else [s[0]];
      MapAppend(head, Escaped(s[1..]), lower);
      assert Map(s, lower)[1..] == Map(s[1..], lower);
      assert Meta('\\');
      assert Map(head, lower) == if Meta(s[0]) then ['\\', s[0]] else [lower(s[0])];
    }
  }

  // ---- The searches -----------------------------------------------------------------------

  function TrimAt(s: string): string {
    if s != "" && s[0] == '@' then s[1..] else s
  }

  /** One leading @ sign is taken off, and nothing else. */
  lemma TrimAtExact(s: string)
    ensures TrimAt("@" + s) == s
    ensures s == "" || s[0] != '@' ==> TrimAt(s) == s
  {
    assert ("@" + s)[1..] == s;
  }

  /** ASCII lower-casing, which is what usernames need. */
  function Lower(c: char): char {
    if 'A' <= c <= 'Z' then (c as int + 32) as char else c
  }

  /** Collectible usernames: lowered, then escaped. */
  function CollectiblePattern(q: string, lower: char -> char): string {
    EscapeLikePattern(Map(TrimAt(TrimSpace(q)), lower)) + "%"
  }

  /** Ratings and bot verification: escaped, then lowered. */
  function RatingPattern(q: string, lower: char -> char): string {
    Map(EscapeLikePattern(TrimSpace(TrimAt(TrimSpace(q)))), lower) + "%"
  }

  /** Each list finds exactly the names that start with the lowered query; the lists differ only in a
      query with space after its @ sign, which the collectible list keeps. */
  lemma SearchesExact(q: string, lower: char -> char, text: string)
    requires FixesMeta(lower)
    ensures Like(text, CollectiblePattern(q, lower)) <==> Map(TrimAt(TrimSpace(q)), lower) <= text
    ensures Like(text, RatingPattern(q, lower)) <==> Map(TrimSpace(TrimAt(TrimSpace(q))), lower) <= text
  {
    PrefixSearchExact(Map(TrimAt(TrimSpace(q)), lower), text);
    var query := TrimSpace(TrimAt(TrimSpace(q)));
    LoweringCommutes(query, lower);
    PrefixSearchExact(Map(query, lower), text);
  }

  /** A name typed with or without its @ sign, and with space around it or not, is searched as itself. */
  lemma TypedNameSearch(name: string, typed: string, lower: char -> char, text: string)
    requires FixesMeta(lower) && Trimmed(name) && name != "" && name[0] != '@'
    requires TrimSpace(typed) == name || TrimSpace(typed) == "@" + name
    ensures Like(text, CollectiblePattern(typed, lower)) <==> Map(name, lower) <= text
    ensures Like(text, RatingPattern(typed, lower)) <==> Map(name, lower) <= text
  {
    TrimAtExact(name);
    TrimmedIsFixed(name);
    SearchesExact(typed, lower, text);
  }

  lemma AsciiFixesMeta()
    ensures FixesMeta(Lower)
    ensures Lower('A') == 'a' && Lower('M') == 'm' && Lower('Z') == 'z'
    ensures forall c :: 'A' <= c <= 'Z' ==> 'a' <= Lower(c) <= 'z'
    ensures forall c, d :: 'A' <= c <= 'Z' && 'A' <= d <= 'Z' ==>
              Lower(d) as int - Lower(c) as int == d as int - c as int
    ensures forall c :: !('A' <= c <= 'Z') ==> Lower(c) == c
  {
  }
}
