/**
 * Hashtag recognition. The bot (extractHashtags in server.js) and the web
 * client's edit form (saveDatum in public/js/app.js) both run the global
 * regular expression  #[а-яА-ЯёЁa-zA-Z0-9_]+  over a text, drop the leading
 * '#' of each match and lower-case the rest. The regular expression is
 * modelled as a left-to-right scanner over the text (Matches), which is
 * proved equal to an independent reading of the pattern (EveryHashStart).
 */
module Tags {
  import opened Wrappers

  /** A character of the class [а-яА-ЯёЁa-zA-Z0-9_]. */
  predicate IsTagChar(c: char) {
    || ('a' <= c <= 'z') || ('A' <= c <= 'Z') || ('0' <= c <= '9') || c == '_'
    || ('\U{0430}' <= c <= '\U{044F}')  // а-я
    || ('\U{0410}' <= c <= '\U{042F}')  // А-Я
    || c == '\U{0451}' || c == '\U{0401}'  // ё, Ё
  }

  /** The lower-case part of the class: [а-яёa-z0-9_]. */
  predicate IsLowerTagChar(c: char) {
    || ('a' <= c <= 'z') || ('0' <= c <= '9') || c == '_'
    || ('\U{0430}' <= c <= '\U{044F}') || c == '\U{0451}'
  }

  /**
   * String.prototype.toLowerCase on one character of the class:
   * A-Z to a-z, А-Я to а-я, Ё to ё. Other characters are kept.
   */
  function Lower(c: char): (l: char)
    ensures IsTagChar(c) ==> IsLowerTagChar(l)
    ensures !IsTagChar(c) ==> l == c
    ensures IsLowerTagChar(c) ==> l == c
  {
    if 'A' <= c <= 'Z' || '\U{0410}' <= c <= '\U{042F}' then (c as int + 32) as char
    else if c == '\U{0401}' then '\U{0451}'
    else c
  }

  function LowerStr(s: string): (r: string)
    ensures |r| == |s| && forall i :: 0 <= i < |s| ==> r[i] == Lower(s[i])
  {
    seq(|s|, i requires 0 <= i < |s| => Lower(s[i]))
  }

  /** A stored theme name: non-empty, lower case, every character from the class. */
  predicate IsTagName(t: string) {
    |t| > 0 && forall i :: 0 <= i < |t| ==> IsLowerTagChar(t[i])
  }

  lemma LowerKeepsTagName(t: string)
    requires IsTagName(t)
    ensures LowerStr(t) == t
  {
  }

  /** Length of the longest prefix of s made of class characters (the greedy '+'). */
  function RunLen(s: string): (n: nat)
    ensures n <= |s|
    ensures forall i :: 0 <= i < n ==> IsTagChar(s[i])
    ensures n == |s| || !IsTagChar(s[n])
  {
    if s != [] && IsTagChar(s[0]) then 1 + RunLen(s[1..]) else 0
  }

  /** A match of the pattern: '#' and then one or more class characters. */
  predicate IsMatchText(m: string) {
    |m| >= 2 && m[0] == '#' && forall i :: 1 <= i < |m| ==> IsTagChar(m[i])
  }

  /** A match starts at the head of s: a '#' followed by a class character. */
  predicate StartsMatch(s: string) {
    |s| >= 2 && s[0] == '#' && IsTagChar(s[1])
  }

  /**
   * String.prototype.match with the global flag: the matches of the pattern,
   * left to right; after a match the scan resumes just past it.
   */
  function Matches(s: string): (ms: seq<string>)
    ensures forall i :: 0 <= i < |ms| ==> IsMatchText(ms[i])
    decreases |s|
  {
    if |s| < 2 then []
    else if StartsMatch(s) then
      var n := 1 + RunLen(s[1..]);
      [s[..n]] + Matches(s[n..])
    else Matches(s[1..])
  }

  /**
   * Reference reading of the pattern, independent of where the scan resumes:
   * every '#' followed by a class character contributes '#' plus the whole
   * run of class characters after it, in text order.
   */
  function EveryHashStart(s: string): (ms: seq<string>)
    ensures forall i :: 0 <= i < |ms| ==> IsMatchText(ms[i])
    decreases |s|
  {
    if |s| < 2 then []
    else (if StartsMatch(s) then [s[..1 + RunLen(s[1..])]] else []) + EveryHashStart(s[1..])
  }

  /** Inside a run of class characters no match can start, since '#' is not in the class. */
  lemma {:induction false} NoStartInsideRun(s: string, j: nat, n: nat)
    requires 1 <= j <= n <= |s|
    requires forall i :: j <= i < n ==> IsTagChar(s[i])
    ensures EveryHashStart(s[j..]) == EveryHashStart(s[n..])
    decreases n - j
  {
    if j < n {
      var t := s[j..];
      assert t[0] == s[j] && IsTagChar(t[0]);
      if |t| >= 2 {
        assert !StartsMatch(t);
        assert t[1..] == s[j + 1..];
      }
      NoStartInsideRun(s, j + 1, n);
    }
  }

  /** The scanner finds exactly the matches of the reference reading. */
  lemma {:induction false} MatchesAreEveryHashStart(s: string)
    ensures Matches(s) == EveryHashStart(s)
    decreases |s|
  {
    if |s| >= 2 {
      if StartsMatch(s) {
        var n := 1 + RunLen(s[1..]);
        assert n >= 2;
        forall i | 1 <= i < n ensures IsTagChar(s[i]) {
          assert s[1..][i - 1] == s[i];
        }
        NoStartInsideRun(s, 1, n);
        MatchesAreEveryHashStart(s[n..]);
      } else {
        MatchesAreEveryHashStart(s[1..]);
      }
    }
  }

  /** A tag is a match with its '#' dropped and the rest lower-cased. */
  function TagOf(m: string): (t: string)
    requires IsMatchText(m)
    ensures IsTagName(t)
  {
    LowerStr(m[1..])
  }

  function TagsOfMatches(ms: seq<string>): (tags: seq<string>)
    requires forall i :: 0 <= i < |ms| ==> IsMatchText(ms[i])
    ensures |tags| == |ms|
    ensures forall i :: 0 <= i < |ms| ==> tags[i] == TagOf(ms[i]) && IsTagName(tags[i])
  {
    seq(|ms|, i requires 0 <= i < |ms| => TagOf(ms[i]))
  }

  /**
   * extractHashtags (server.js): no text, or the empty text, gives no tags;
   * otherwise one tag per match, duplicates kept, in text order.
   */
  function ExtractHashtags(text: Option<string>): (tags: seq<string>)
    ensures text == None || text == Some("") ==> tags == []
    ensures text.Some? ==> |tags| == |Matches(text.value)|
    ensures forall i :: 0 <= i < |tags| ==> IsTagName(tags[i])
  {
    if text == None || text == Some("") then [] else TagsOfMatches(Matches(text.value))
  }

  /**
   * The tag list saveDatum (public/js/app.js) sends: match(...)?.map(...) || [],
   * where a text without any match gives null and then [].
   */
  function ClientParseTags(text: string): (tags: seq<string>)
    ensures forall i :: 0 <= i < |tags| ==> IsTagName(tags[i])
  {
    var ms := Matches(text);
    if ms == [] then [] else TagsOfMatches(ms)
  }

  /** The client's parse and the server's extractor agree on every text. */
  lemma ClientParseIsExtract(text: string)
    ensures ClientParseTags(text) == ExtractHashtags(Some(text))
    ensures (ClientParseTags(text) == []) <==> (Matches(text) == [])
  {
  }

  /** Each extracted tag is the lower-cased maximal run after one '#' of the text, in text order. */
  lemma ExtractReadsEveryHash(text: string)
    ensures ExtractHashtags(Some(text)) == (if text == "" then [] else TagsOfMatches(EveryHashStart(text)))
  {
    MatchesAreEveryHashStart(text);
  }

  /** The edit form's rendering of a tag list: '#' before each, joined by one space. */
  function RenderTags(tags: seq<string>): string
  {
    if tags == [] then "" else if |tags| == 1 then "#" + tags[0] else "#" + tags[0] + " " + RenderTags(tags[1..])
  }

  lemma {:induction false} RunLenOfWord(t: string, rest: string)
    requires forall i :: 0 <= i < |t| ==> IsTagChar(t[i])
    requires rest == [] || !IsTagChar(rest[0])
    ensures RunLen(t + rest) == |t|
  {
    if t != [] {
      assert (t + rest)[1..] == t[1..] + rest;
      RunLenOfWord(t[1..], rest);
    }
  }

  /**
   * A rendered tag, or any '#' followed by a word of class characters, is
   * matched whole, and scanning resumes right after it.
   */
  lemma MatchesOfRenderedTag(t: string, rest: string)
    requires |t| > 0 && forall i :: 0 <= i < |t| ==> IsTagChar(t[i])
    requires rest == [] || rest[0] == ' '
    ensures Matches("#" + t + rest) == ["#" + t] + Matches(rest)
  {
    var s := "#" + t + rest;
    assert s[1..] == t + rest;
    RunLenOfWord(t, rest);
    assert StartsMatch(s);
    assert s[..1 + |t|] == "#" + t;
    assert s[1 + |t|..] == rest;
  }

  lemma MatchesSkipSpace(rest: string)
    ensures Matches(" " + rest) == Matches(rest)
  {
    var s := " " + rest;
    assert s[1..] == rest;
    if |s| < 2 {
      assert rest == [];
    }
  }

  lemma {:induction false} MatchesOfRendered(tags: seq<string>)
    requires forall i :: 0 <= i < |tags| ==> IsTagName(tags[i])
    ensures Matches(RenderTags(tags)) == seq(|tags|, i requires 0 <= i < |tags| => "#" + tags[i])
  {
    if |tags| == 1 {
      MatchesOfRenderedTag(tags[0], "");
      assert "#" + tags[0] + "" == "#" + tags[0];
    } else if |tags| > 1 {
      var rest := RenderTags(tags[1..]);
      assert RenderTags(tags) == "#" + tags[0] + (" " + rest);
      MatchesOfRenderedTag(tags[0], " " + rest);
      MatchesSkipSpace(rest);
      MatchesOfRendered(tags[1..]);
    }
  }

  /**
   * Edit form round trip (public/js/app.js editDatum and saveDatum): rendering
   * stored tag names and parsing the text back gives the same list.
   */
  lemma RenderThenParse(tags: seq<string>)
    requires forall i :: 0 <= i < |tags| ==> IsTagName(tags[i])
    ensures ClientParseTags(RenderTags(tags)) == tags
  {
    MatchesOfRendered(tags);
    var ms := Matches(RenderTags(tags));
    if tags != [] {
      assert ms[0] == "#" + tags[0];
      forall i | 0 <= i < |tags| ensures TagOf(ms[i]) == tags[i] {
        assert ms[i][1..] == tags[i];
        LowerKeepsTagName(tags[i]);
      }
    }
  }

  /** The text "#" + t, for one tag name t, is a single match. */
  lemma MatchesOfOneTag(t: string)
    requires IsTagName(t)
    ensures Matches("#" + t) == ["#" + t]
  {
    MatchesOfRenderedTag(t, "");
    assert "#" + t + "" == "#" + t;
  }

  /**
   * No word boundary is needed before '#', and a doubled '#' is not part of
   * the tag: whatever one character precedes "#" + t, the text gives the one
   * tag t, lower-cased ("a#b" gives ["b"], "##a" gives ["a"]).
   */
  lemma ExtractAfterAnyChar(c: char, t: string)
    requires IsTagName(t)
    ensures ExtractHashtags(Some([c] + "#" + t)) == [LowerStr(t)]
  {
    var s := [c] + "#" + t;
    assert !StartsMatch(s) && s[1..] == "#" + t;
    MatchesOfOneTag(t);
    assert Matches(s) == ["#" + t];
    assert ("#" + t)[1..] == t;
  }

  /** Two words of class characters, each after a '#', separated by a space, give both tags in order. */
  lemma ExtractTwoWords(u: string, v: string)
    requires |u| > 0 && forall i :: 0 <= i < |u| ==> IsTagChar(u[i])
    requires |v| > 0 && forall i :: 0 <= i < |v| ==> IsTagChar(v[i])
    ensures ExtractHashtags(Some("#" + u + " #" + v)) == [LowerStr(u), LowerStr(v)]
  {
    var s := "#" + u + " #" + v;
    MatchesOfRenderedTag(v, "");
    assert "#" + v + "" == "#" + v;
    MatchesSkipSpace("#" + v);
    assert " " + ("#" + v) == " #" + v;
    MatchesOfRenderedTag(u, " #" + v);
    assert "#" + u + (" #" + v) == s;
    assert Matches(s) == ["#" + u, "#" + v];
    assert ("#" + u)[1..] == u && ("#" + v)[1..] == v;
  }

  /** Case is folded and duplicates are kept: "#A #a" gives ["a", "a"]. */
  lemma ExtractKeepsDuplicates()
    ensures ExtractHashtags(Some("#A #a")) == ["a", "a"]
  {
    ExtractTwoWords("A", "a");
    assert "#" + "A" + " #" + "a" == "#A #a";
    assert LowerStr("A") == "a" && LowerStr("a") == "a";
  }

  /** Cyrillic capitals fold too, Ё included: "#ЁЖ" gives ["ёж"]. */
  lemma ExtractCyrillic()
    ensures ExtractHashtags(Some("#\U{0401}\U{0416}")) == ["\U{0451}\U{0436}"]
  {
    var w := "\U{0401}\U{0416}";
    var s := "#" + w;
    assert RunLen(w) == 2 by { RunLenOfWord(w, ""); assert w + "" == w; }
    assert StartsMatch(s) && s[1..] == w && s[..3] == s && s[3..] == "";
    assert Matches(s) == [s];
    assert LowerStr(w) == "\U{0451}\U{0436}";
    assert s == "#\U{0401}\U{0416}";
    assert TagsOfMatches([s]) == [TagOf(s)] && TagOf(s) == LowerStr(w);
  }
}
