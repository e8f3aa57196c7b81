/**
  The JavaScript string operations the search layer uses on free text:
  the whitespace class `\s`, `String.prototype.trim`, and
  `replace(/\s+/g, ' ')`. The collapse-and-trim pair is related to an
  independent definition, the words of a string joined by single spaces.
*/
module JsText {

  /** The characters of `\s` and of `trim`: WhiteSpace and LineTerminator in ECMAScript. */
  const Spaces: set<char> := {
    '\t', '\n', '\U{B}', '\U{C}', '\r', ' ', '\U{A0}', '\U{1680}',
    '\U{2000}', '\U{2001}', '\U{2002}', '\U{2003}', '\U{2004}', '\U{2005}',
    '\U{2006}', '\U{2007}', '\U{2008}', '\U{2009}', '\U{200A}',
    '\U{2028}', '\U{2029}', '\U{202F}', '\U{205F}', '\U{3000}', '\U{FEFF}'
  }

  predicate IsSpace(c: char) {
    c in Spaces
  }

  /** The characters that `.` in a regular expression does not match. */
  predicate IsLineTerminator(c: char) {
    c == '\n' || c == '\r' || c == '\U{2028}' || c == '\U{2029}'
  }

  predicate AllSpace(s: string) {
    forall i | 0 <= i < |s| :: IsSpace(s[i])
  }

  predicate NoSpace(s: string) {
    forall i | 0 <= i < |s| :: !IsSpace(s[i])
  }

  /** The number of whitespace characters `s` starts with. */
  function LeadingSpaces(s: string): (k: nat)
    ensures k <= |s| && AllSpace(s[..k])
    ensures k == |s| || !IsSpace(s[k])
  {
    if |s| > 0 && IsSpace(s[0]) then 1 + LeadingSpaces(s[1..]) else 0
  }

  /** Where the whitespace that `s` ends with begins. */
  function TrailingSpaces(s: string): (k: nat)
    ensures k <= |s| && AllSpace(s[k..])
    ensures k == 0 || !IsSpace(s[k - 1])
  {
    if |s| > 0 && IsSpace(s[|s| - 1]) then TrailingSpaces(s[..|s| - 1]) else |s|
  }

  /** `String.prototype.trimStart`. */
  function TrimStart(s: string): (r: string)
    ensures r == "" || !IsSpace(r[0])
  {
    s[LeadingSpaces(s)..]
  }

  /** `String.prototype.trimEnd`. */
  function TrimEnd(s: string): (r: string)
    ensures r == "" || !IsSpace(r[|r| - 1])
  {
    s[..TrailingSpaces(s)]
  }

  /** `String.prototype.trim`. */
  function Trim(s: string): string {
    TrimEnd(TrimStart(s))
  }

  /** A query that `!query.trim()` rejects is exactly one made of whitespace only. */
  lemma {:induction false} TrimEmpty(s: string)
    ensures Trim(s) == "" <==> AllSpace(s)
  {
    var t := TrimStart(s);
    if !AllSpace(s) {
      var k :| 0 <= k < |s| && !IsSpace(s[k]);
      assert k >= |s| - |t|;
      assert t != "" && !IsSpace(t[0]);
    }
  }

  /** `replace(/\s+/g, ' ')`: every maximal run of whitespace becomes one space. */
  function CollapseSpace(s: string): (r: string)
    ensures forall c | c in r :: c in s || c == ' '
    ensures |r| <= |s|
    decreases |s|
  {
    if |s| == 0 then ""
    else if IsSpace(s[0]) then " " + CollapseSpace(TrimStart(s))
    else [s[0]] + CollapseSpace(s[1..])
  }

  /** The length of the longest prefix of `s` without whitespace. */
  function WordLength(s: string): (k: nat)
    ensures k <= |s| && NoSpace(s[..k])
    ensures k == |s| || IsSpace(s[k])
  {
    if |s| == 0 || IsSpace(s[0]) then 0 else 1 + WordLength(s[1..])
  }

  /** The longest prefix of `s` without whitespace. */
  function LeadingWord(s: string): (w: string)
    ensures NoSpace(w)
    ensures s != "" && !IsSpace(s[0]) ==> w != ""
  {
    s[..WordLength(s)]
  }

  /** The maximal runs of non-whitespace characters of `s`, in order. */
  function Words(s: string): seq<string>
    decreases |s|
  {
    var t := TrimStart(s);
    if t == "" then []
    else
      var w := LeadingWord(t);
      [w] + Words(t[WordLength(t)..])
  }

  /** Words joined by single spaces. */
  function Unwords(ws: seq<string>): string {
    if |ws| == 0 then ""
    else if |ws| == 1 then ws[0]
    else ws[0] + " " + Unwords(ws[1..])
  }

  /** Non-empty words without whitespace, as `Words` produces. */
  predicate ProperWords(ws: seq<string>) {
    forall i | 0 <= i < |ws| :: ws[i] != "" && NoSpace(ws[i])
  }

  /** No leading or trailing whitespace and never two whitespace characters in a row. */
  predicate WellSpaced(s: string) {
    && (|s| > 0 ==> !IsSpace(s[0]) && !IsSpace(s[|s| - 1]))
    && forall i | 0 <= i < |s| - 1 :: !IsSpace(s[i]) || !IsSpace(s[i + 1])
  }

  lemma {:induction false} WordsProper(s: string)
    ensures ProperWords(Words(s))
    decreases |s|
  {
    var t := TrimStart(s);
    if t != "" {
      var k := WordLength(t);
      WordsProper(t[k..]);
      assert Words(s) == [LeadingWord(t)] + Words(t[k..]);
      ProperCons(LeadingWord(t), Words(t[k..]));
    }
  }

  lemma {:induction false} ProperCons(w: string, ws: seq<string>)
    requires w != "" && NoSpace(w) && ProperWords(ws)
    ensures ProperWords([w] + ws)
  {
  }

  lemma {:induction false} UnwordsWellSpaced(ws: seq<string>)
    requires ProperWords(ws)
    ensures WellSpaced(Unwords(ws))
    ensures Unwords(ws) == "" <==> ws == []
  {
    if |ws| > 1 {
      var rest := Unwords(ws[1..]);
      UnwordsWellSpaced(ws[1..]);
      var r := ws[0] + " " + rest;
      assert r[|ws[0]| + 1..] == rest;
      forall i | 0 <= i < |r| - 1 ensures !IsSpace(r[i]) || !IsSpace(r[i + 1]) {
        if i < |ws[0]| {
          assert r[i] == ws[0][i];
        } else if i > |ws[0]| {
          assert r[i] == rest[i - |ws[0]| - 1] && r[i + 1] == rest[i - |ws[0]|];
        }
      }
      assert r[|r| - 1] == rest[|rest| - 1];
    }
  }

  lemma {:induction false} TrimStartOfClean(s: string)
    requires s == "" || !IsSpace(s[0])
    ensures TrimStart(s) == s
  {
  }

  lemma {:induction false} TrimStartSpace(x: string)
    ensures TrimStart(" " + x) == TrimStart(x)
  {
    assert (" " + x)[1..] == x;
  }

  /** `Words` does not look at leading whitespace. */
  lemma {:induction false} WordsSkipSpace(s: string)
    ensures Words(s) == Words(TrimStart(s))
  {
    TrimStartOfClean(TrimStart(s));
  }

  lemma {:induction false} TrailingSpacesOf(u: string, tail: string)
    requires u == "" || !IsSpace(u[|u| - 1])
    requires AllSpace(tail)
    ensures TrailingSpaces(u + tail) == |u|
    decreases |tail|
  {
    if |tail| > 0 {
      assert (u + tail)[..|u + tail| - 1] == u + tail[..|tail| - 1];
      TrailingSpacesOf(u, tail[..|tail| - 1]);
    } else {
      assert u + tail == u;
    }
  }

  lemma {:induction false} TrimEndOfSpaces(u: string, tail: string)
    requires u == "" || !IsSpace(u[|u| - 1])
    requires AllSpace(tail)
    ensures TrimEnd(u + tail) == u
  {
    TrailingSpacesOf(u, tail);
    assert (u + tail)[..|u|] == u;
  }

  lemma {:induction false} WordLengthOf(w: string, rest: string)
    requires NoSpace(w)
    requires rest == "" || IsSpace(rest[0])
    ensures WordLength(w + rest) == |w|
  {
    if |w| > 0 {
      assert (w + rest)[1..] == w[1..] + rest;
      WordLengthOf(w[1..], rest);
    } else {
      assert w + rest == rest;
    }
  }

  /** The collapse passes a word through unchanged. */
  lemma {:induction false} CollapseWord(w: string, rest: string)
    requires NoSpace(w)
    ensures CollapseSpace(w + rest) == w + CollapseSpace(rest)
  {
    if |w| > 0 {
      assert (w + rest)[1..] == w[1..] + rest;
      CollapseWord(w[1..], rest);
    } else {
      assert w + rest == rest;
    }
  }

  /** One space if `s` ends in whitespace, as the collapse leaves it. */
  function Tail(s: string): string {
    if |s| > 0 && IsSpace(s[|s| - 1]) then " " else ""
  }

  /** The collapse of a string that does not start with whitespace: its words, then one space if it ended in whitespace. */
  lemma {:induction false} CollapseUnwords(s: string)
    requires s == "" || !IsSpace(s[0])
    ensures CollapseSpace(s) == Unwords(Words(s)) + Tail(s)
    decreases |s|
  {
    if s != "" {
      var rest := s[WordLength(s)..];
      if rest == "" {
        CollapseLastWord(s);
      } else {
        CollapseUnwords(TrimStart(rest));
        CollapseNextWord(s);
      }
    }
  }

  /** The word and the remainder of a string that starts with a non-whitespace character. */
  lemma {:induction false} SplitWord(s: string)
    requires s != "" && !IsSpace(s[0])
    ensures var k := WordLength(s);
      && k > 0
      && s == s[..k] + s[k..]
      && Words(s) == [s[..k]] + Words(s[k..])
      && CollapseSpace(s) == s[..k] + CollapseSpace(s[k..])
  {
    TrimStartOfClean(s);
    var k := WordLength(s);
    assert s == s[..k] + s[k..];
    CollapseWord(s[..k], s[k..]);
  }

  lemma {:induction false} CollapseLastWord(s: string)
    requires s != "" && !IsSpace(s[0])
    requires s[WordLength(s)..] == ""
    ensures CollapseSpace(s) == Unwords(Words(s)) + Tail(s)
  {
    SplitWord(s);
    var k := WordLength(s);
    assert s[|s| - 1] == s[..k][k - 1];
    assert Words(s) == [s[..k]];
  }

  lemma {:induction false} CollapseNextWord(s: string)
    requires s != "" && !IsSpace(s[0])
    requires s[WordLength(s)..] != ""
    requires var u := TrimStart(s[WordLength(s)..]);
      CollapseSpace(u) == Unwords(Words(u)) + Tail(u)
    ensures CollapseSpace(s) == Unwords(Words(s)) + Tail(s)
  {
    SplitWord(s);
    var k := WordLength(s);
    var w, rest := s[..k], s[k..];
    var u := TrimStart(rest);
    CollapseLeadingSpace(rest);
    WordsSkipSpace(rest);
    if u == "" {
      CollapseBeforeSpaces(w, rest);
    } else {
      TailOfSuffix(s, k, rest);
      TailOfTrimmed(rest);
      WordsNonEmpty(u);
      AssembleNext(w, Words(u), CollapseSpace(u), Tail(u));
    }
  }

  /** A string that starts with whitespace collapses to one space before the collapse of the rest. */
  lemma {:induction false} CollapseLeadingSpace(rest: string)
    requires rest != "" && IsSpace(rest[0])
    ensures CollapseSpace(rest) == " " + CollapseSpace(TrimStart(rest))
  {
  }

  lemma {:induction false} TailOfSuffix(s: string, k: nat, rest: string)
    requires k <= |s| && rest == s[k..] && rest != ""
    ensures Tail(s) == Tail(rest)
  {
    assert s[|s| - 1] == rest[|rest| - 1];
  }

  lemma {:induction false} TailOfTrimmed(rest: string)
    requires TrimStart(rest) != ""
    ensures Tail(rest) == Tail(TrimStart(rest))
  {
    var u := TrimStart(rest);
    assert rest[|rest| - 1] == u[|u| - 1];
  }

  lemma {:induction false} WordsNonEmpty(u: string)
    requires u != "" && !IsSpace(u[0])
    ensures Words(u) != []
  {
    TrimStartOfClean(u);
  }

  lemma {:induction false} AssembleNext(w: string, ws: seq<string>, cu: string, tail: string)
    requires ws != []
    requires cu == Unwords(ws) + tail
    ensures w + (" " + cu) == Unwords([w] + ws) + tail
  {
    assert ([w] + ws)[1..] == ws;
  }

  lemma {:induction false} CollapseBeforeSpaces(w: string, rest: string)
    requires w != "" && NoSpace(w)
    requires rest != "" && TrimStart(rest) == ""
    ensures CollapseSpace(w + rest) == Unwords(Words(w + rest)) + Tail(w + rest)
  {
    var s := w + rest;
    OnlySpaces(rest);
    TailOfSuffix(s, |w|, rest);
    WordLengthOf(w, rest);
    SplitWord(s);
    assert s[..|w|] == w && s[|w|..] == rest;
    assert Words(s) == [w];
  }

  /** A non-empty run of whitespace collapses to one space, has no words and ends in whitespace. */
  lemma {:induction false} OnlySpaces(rest: string)
    requires rest != "" && TrimStart(rest) == ""
    ensures CollapseSpace(rest) == " " && Words(rest) == [] && Tail(rest) == " "
  {
    assert AllSpace(rest[..LeadingSpaces(rest)]);
    assert rest[..LeadingSpaces(rest)] == rest;
  }


  /**
    Collapsing runs of whitespace and then trimming, as `cleanDescription`
    finishes, gives the words of the input joined by single spaces.
  */
  lemma {:induction false} CollapseTrimIsUnwords(s: string)
    ensures Trim(CollapseSpace(s)) == Unwords(Words(s))
  {
    var u := TrimStart(s);
    WordsSkipSpace(s);
    CollapseUnwords(u);
    WordsProper(u);
    UnwordsWellSpaced(Words(u));
    var words := Unwords(Words(u));
    var collapsed := words + Tail(u);
    if s != "" && IsSpace(s[0]) {
      assert CollapseSpace(s) == " " + collapsed;
      TrimStartSpace(collapsed);
    } else {
      assert CollapseSpace(s) == collapsed;
    }
    if words == "" {
      assert collapsed == "";
    } else {
      TrimStartOfClean(collapsed);
      TrimEndOfSpaces(words, Tail(u));
    }
  }

  /** Splitting words that were joined by single spaces gives them back. */
  lemma {:induction false} WordsOfUnwords(ws: seq<string>)
    requires ProperWords(ws)
    ensures Words(Unwords(ws)) == ws
  {
    if |ws| == 1 {
      WordsOfWord(ws[0]);
    } else if |ws| > 1 {
      UnwordsWellSpaced(ws[1..]);
      WordsOfUnwords(ws[1..]);
      WordsOfJoin(ws[0], Unwords(ws[1..]));
    }
  }

  lemma {:induction false} WordsOfWord(w: string)
    requires w != "" && NoSpace(w)
    ensures Words(w) == [w]
  {
    SplitWord(w);
    WordLengthOf(w, "");
    assert w + "" == w;
  }

  lemma {:induction false} WordsOfJoin(w: string, rest: string)
    requires w != "" && NoSpace(w)
    requires rest != "" && !IsSpace(rest[0])
    ensures Words(w + " " + rest) == [w] + Words(rest)
  {
    var s := w + " " + rest;
    assert s == w + (" " + rest);
    WordLengthOf(w, " " + rest);
    SplitWord(s);
    assert s[..|w|] == w && s[|w|..] == " " + rest;
    WordsSkipSpace(" " + rest);
    TrimStartSpace(rest);
    TrimStartOfClean(rest);
  }
}
