/**
  `cleanDescription` from src/lib/wikipedia.ts: the text pipeline that turns
  a search snippet or a page extract into a plain one-line description.
  Every step is one global `String.prototype.replace`, written out here as a
  left-to-right scan that tries the pattern at each position, replaces a
  match and carries on after it, or keeps one character and moves on.
*/
module Description {
  import opened JsValue
  import opened JsText

  // ---------------------------------------------------------------------
  // Character classes and literal matching
  // ---------------------------------------------------------------------

  /**
    The canonical form the `i` flag compares characters by. JavaScript maps
    a character to its upper case unless that would turn a non-ASCII
    character into an ASCII one; the mapping below agrees with it on every
    character that occurs in the patterns (ASCII and U+A792/U+A793), which is
    all that a comparison against a pattern character needs.
  */
  function Canon(c: char): char {
    if 'a' <= c <= 'z' then (c as int - 32) as char
    else if c == '\U{A793}' then '\U{A792}'
    else c
  }

  /** Whether text character `c` matches pattern character `p`, with or without the `i` flag. */
  predicate CharMatch(c: char, p: char, ignoreCase: bool) {
    if ignoreCase then Canon(c) == Canon(p) else c == p
  }

  /** The literal `lit` occurs in `s` at position `i`. */
  predicate LitAt(s: string, i: nat, lit: string, ignoreCase: bool) {
    i + |lit| <= |s| && forall j | 0 <= j < |lit| :: CharMatch(s[i + j], lit[j], ignoreCase)
  }

  /** The first line terminator at or after `from`, or the end of `s`: how far `.*?` can reach. */
  function LineEnd(s: string, from: nat): (e: nat)
    requires from <= |s|
    ensures from <= e <= |s|
    ensures forall j | from <= j < e :: !IsLineTerminator(s[j])
    ensures e == |s| || IsLineTerminator(s[e])
    decreases |s| - from
  {
    if from == |s| || IsLineTerminator(s[from]) then from else LineEnd(s, from + 1)
  }

  /**
    The lazy `.*?lit` starting at `from`: the first position from which
    `lit` occurs, provided no line terminator lies in between.
  */
  function FindInLine(s: string, lit: string, from: nat, ignoreCase: bool): (r: Option<nat>)
    requires from <= |s|
    ensures r.Some? ==> from <= r.value <= LineEnd(s, from) && LitAt(s, r.value, lit, ignoreCase)
    ensures r.Some? ==> forall j | from <= j < r.value :: !LitAt(s, j, lit, ignoreCase)
    ensures r.None? ==> forall j | from <= j <= LineEnd(s, from) :: !LitAt(s, j, lit, ignoreCase)
    decreases |s| - from
  {
    if LitAt(s, from, lit, ignoreCase) then Some(from)
    else if from == |s| || IsLineTerminator(s[from]) then None
    else FindInLine(s, lit, from + 1, ignoreCase)
  }

  /** The lazy `.*?lit` stops at `k` when `lit` occurs there and neither `lit` nor a line end comes before. */
  lemma {:induction false} FindInLineAt(s: string, lit: string, from: nat, k: nat, ignoreCase: bool)
    requires from <= k && LitAt(s, k, lit, ignoreCase)
    requires forall j | from <= j < k :: !IsLineTerminator(s[j])
    requires forall j | from <= j < k :: !LitAt(s, j, lit, ignoreCase)
    ensures FindInLine(s, lit, from, ignoreCase) == Some(k)
    decreases k - from
  {
    assert k + |lit| <= |s|;
    if from < k {
      assert !LitAt(s, from, lit, ignoreCase) && !IsLineTerminator(s[from]);
      FindInLineAt(s, lit, from + 1, k, ignoreCase);
      assert FindInLine(s, lit, from, ignoreCase) == FindInLine(s, lit, from + 1, ignoreCase);
    } else {
      assert from == k;
      assert FindInLine(s, lit, from, ignoreCase) == Some(from);
    }
  }

  /** The first occurrence of `c` at or after `from`. */
  function FindChar(s: string, c: char, from: nat): (r: Option<nat>)
    requires from <= |s|
    ensures r.Some? ==> from <= r.value < |s| && s[r.value] == c
    ensures r.Some? ==> forall j | from <= j < r.value :: s[j] != c
    ensures r.None? ==> forall j | from <= j < |s| :: s[j] != c
    decreases |s| - from
  {
    if from == |s| then None
    else if s[from] == c then Some(from)
    else FindChar(s, c, from + 1)
  }

  // ---------------------------------------------------------------------
  // Only deleting characters: subsequences, and strings without tags
  // ---------------------------------------------------------------------

  /** `t` is obtained from `s` by deleting characters. */
  predicate Subseq(t: string, s: string)
    decreases |s|
  {
    if |t| == 0 then true
    else if |s| == 0 then false
    else if t[0] == s[0] then Subseq(t[1..], s[1..])
    else Subseq(t, s[1..])
  }

  /** No `<` is followed, anywhere later, by a `>`: nothing that `<[^>]*>` could match. */
  predicate NoTag(s: string) {
    forall i, j | 0 <= i < j < |s| :: s[i] != '<' || s[j] != '>'
  }

  lemma {:induction false} SubseqRefl(s: string)
    ensures Subseq(s, s)
  {
    if |s| > 0 {
      SubseqRefl(s[1..]);
    }
  }

  lemma {:induction false} SubseqCons(t: string, c: char, s: string)
    requires Subseq(t, s)
    ensures Subseq(t, [c] + s)
    decreases |s|, 1
  {
    assert ([c] + s)[1..] == s;
    if |t| > 0 && t[0] == c {
      SubseqTail(t, s);
    }
  }

  lemma {:induction false} SubseqTail(t: string, s: string)
    requires |t| > 0 && Subseq(t, s)
    ensures Subseq(t[1..], s)
    decreases |s|, 0
  {
    assert |s| > 0;
    if t[0] == s[0] {
      SubseqCons(t[1..], s[0], s[1..]);
    } else {
      SubseqTail(t, s[1..]);
      SubseqCons(t[1..], s[0], s[1..]);
    }
    assert [s[0]] + s[1..] == s;
  }

  lemma {:induction false} SubseqEmpty(s: string)
    ensures Subseq("", s)
  {
  }

  /** Deletions in two pieces make a deletion in the whole. */
  lemma {:induction false} SubseqConcat(a: string, b: string, c: string, d: string)
    requires Subseq(a, b) && Subseq(c, d)
    ensures Subseq(a + c, b + d)
    decreases |b|
  {
    if |b| == 0 {
      assert a == "";
      assert a + c == c && b + d == d;
    } else if |a| > 0 && a[0] == b[0] {
      SubseqConcat(a[1..], b[1..], c, d);
      assert (a + c)[1..] == a[1..] + c && (b + d)[1..] == b[1..] + d;
    } else {
      SubseqConcat(a, b[1..], c, d);
      SubseqCons(a + c, b[0], b[1..] + d);
      assert [b[0]] + (b[1..] + d) == b + d;
    }
  }

  /** Deleting characters twice is deleting characters. */
  lemma {:induction false} SubseqTrans(a: string, b: string, c: string)
    requires Subseq(a, b) && Subseq(b, c)
    ensures Subseq(a, c)
    decreases |c|
  {
    if |a| > 0 {
      assert [c[0]] + c[1..] == c;
      if b[0] != c[0] {
        SubseqTrans(a, b, c[1..]);
        SubseqCons(a, c[0], c[1..]);
      } else if a[0] == b[0] {
        SubseqTrans(a[1..], b[1..], c[1..]);
      } else {
        SubseqTrans(a, b[1..], c[1..]);
        SubseqCons(a, c[0], c[1..]);
      }
    }
  }

  /** A prefix is obtained by deleting what follows it. */
  lemma {:induction false} SubseqPrefix(s: string, k: nat)
    requires k <= |s|
    ensures Subseq(s[..k], s)
    decreases k
  {
    if k > 0 {
      SubseqPrefix(s[1..], k - 1);
      assert s[..k][1..] == s[1..][..k - 1];
    }
  }

  /** A suffix is obtained by deleting what precedes it. */
  lemma {:induction false} SubseqSuffix(s: string, i: nat)
    requires i <= |s|
    ensures Subseq(s[i..], s)
    decreases i
  {
    if i == 0 {
      assert s[0..] == s;
      SubseqRefl(s);
    } else {
      SubseqSuffix(s[1..], i - 1);
      assert s[1..][i - 1..] == s[i..];
      SubseqCons(s[i..], s[0], s[1..]);
      assert [s[0]] + s[1..] == s;
    }
  }

  /** A slice is obtained by deleting what lies around it. */
  lemma {:induction false} SubseqSlice(s: string, i: nat, j: nat)
    requires i <= j <= |s|
    ensures Subseq(s[i..j], s)
  {
    SubseqPrefix(s[i..], j - i);
    assert s[i..][..j - i] == s[i..j];
    SubseqSuffix(s, i);
    SubseqTrans(s[i..j], s[i..], s);
  }

  /** Keeping the first character and deleting from the rest. */
  lemma {:induction false} SubseqKeepHead(t: string, s: string)
    requires |s| > 0 && Subseq(t, s[1..])
    ensures Subseq([s[0]] + t, s)
  {
    assert ([s[0]] + t)[1..] == t;
  }

  /** Keeping a slice of a prefix, then deleting from what follows the prefix. */
  lemma {:induction false} SubseqSliceThen(s: string, i: nat, k: nat, e: nat, t: string)
    requires i <= k <= e <= |s|
    requires Subseq(t, s[e..])
    ensures Subseq(s[i..k] + t, s)
  {
    SubseqSlice(s[..e], i, k);
    assert s[..e][i..k] == s[i..k];
    SubseqConcat(s[i..k], s[..e], t, s[e..]);
    assert s[..e] + s[e..] == s;
  }

  lemma {:induction false} SubseqChars(t: string, s: string, c: char)
    requires Subseq(t, s)
    ensures c in t ==> c in s
    decreases |s|
  {
    if c !in t {
    } else if t[0] == s[0] {
      if c != t[0] {
        assert c in t[1..];
        SubseqChars(t[1..], s[1..], c);
      }
    } else {
      SubseqChars(t, s[1..], c);
    }
  }

  lemma {:induction false} AbsentAfter(s: string, c: char, from: nat)
    requires from <= |s|
    requires forall j | from <= j < |s| :: s[j] != c
    ensures c !in s[from..]
  {
    forall j | 0 <= j < |s| - from ensures s[from..][j] != c {
      assert s[from..][j] == s[from + j];
    }
  }

  /** In a string without tags, no `>` follows a leading `<`. */
  lemma {:induction false} NoTagHead(s: string)
    requires NoTag(s) && |s| > 0 && s[0] == '<'
    ensures forall j | 1 <= j < |s| :: s[j] != '>'
    ensures '>' !in s[1..]
  {
    AbsentAfter(s, '>', 1);
  }

  lemma {:induction false} NoTagCons(c: char, s: string)
    requires NoTag(s)
    requires c == '<' ==> '>' !in s
    ensures NoTag([c] + s)
  {
    var t := [c] + s;
    forall i, j | 0 <= i < j < |t| ensures t[i] != '<' || t[j] != '>' {
      if i == 0 {
        assert t[j] == s[j - 1];
      } else {
        assert t[i] == s[i - 1] && t[j] == s[j - 1];
      }
    }
  }

  lemma {:induction false} NoTagSuffix(s: string, k: nat)
    requires NoTag(s) && k <= |s|
    ensures NoTag(s[k..])
  {
    var t := s[k..];
    forall i, j | 0 <= i < j < |t| ensures t[i] != '<' || t[j] != '>' {
      assert t[i] == s[k + i] && t[j] == s[k + j];
    }
  }

  /** Deleting characters cannot create a tag. */
  lemma {:induction false} NoTagSubseq(t: string, s: string)
    requires Subseq(t, s) && NoTag(s)
    ensures NoTag(t)
    decreases |s|
  {
    if |t| > 0 {
      NoTagSuffix(s, 1);
      if t[0] == s[0] {
        NoTagSubseq(t[1..], s[1..]);
        if t[0] == '<' {
          NoTagHead(s);
          SubseqChars(t[1..], s[1..], '>');
        }
        NoTagCons(t[0], t[1..]);
        assert [t[0]] + t[1..] == t;
      } else {
        NoTagSubseq(t, s[1..]);
      }
    }
  }

  // ---------------------------------------------------------------------
  // Step 1: unwrap <span class="searchmatch">…</span>
  // ---------------------------------------------------------------------

  const SpanOpen: string := "<span class=\"searchmatch\">"
  const SpanClose: string := "</span>"

  /**
    `replace(/<span class="searchmatch">(.*?)<\/span>/g, '$1')`: a
    searchmatch span whose closing tag is on the same line is replaced by
    the text inside it.
  */
  function UnwrapSearchMatches(s: string): (r: string)
    ensures |r| <= |s|
    decreases |s|
  {
    if |s| == 0 then ""
    else if SpanOpen <= s then
      match FindInLine(s, SpanClose, |SpanOpen|, false)
      case Some(k) => s[|SpanOpen|..k] + UnwrapSearchMatches(s[k + |SpanClose|..])
      case None => [s[0]] + UnwrapSearchMatches(s[1..])
    else [s[0]] + UnwrapSearchMatches(s[1..])
  }

  /** Unwrapping only deletes the opening and closing tags. */
  lemma {:induction false} UnwrapDeletes(s: string)
    ensures Subseq(UnwrapSearchMatches(s), s)
    decreases |s|, 1
  {
    if |s| > 0 {
      var m := if SpanOpen <= s then FindInLine(s, SpanClose, |SpanOpen|, false) else None;
      if m.Some? {
        UnwrapDeletesSpan(s, m.value);
      } else {
        assert UnwrapSearchMatches(s) == [s[0]] + UnwrapSearchMatches(s[1..]);
        UnwrapDeletes(s[1..]);
        SubseqKeepHead(UnwrapSearchMatches(s[1..]), s);
      }
    }
  }

  /** The step of `UnwrapDeletes` where a span opens at the start of `s` and closes at `k`. */
  lemma {:induction false} UnwrapDeletesSpan(s: string, k: nat)
    requires SpanOpen <= s && FindInLine(s, SpanClose, |SpanOpen|, false) == Some(k)
    ensures Subseq(UnwrapSearchMatches(s), s)
    decreases |s|, 0
  {
    assert LitAt(s, k, SpanClose, false);
    var e := k + |SpanClose|;
    assert |SpanOpen| <= k && e <= |s|;
    assert UnwrapSearchMatches(s) == s[|SpanOpen|..k] + UnwrapSearchMatches(s[e..]);
    UnwrapDeletes(s[e..]);
    SubseqSliceThen(s, |SpanOpen|, k, e, UnwrapSearchMatches(s[e..]));
  }

  /** No searchmatch span opens anywhere in `s`. */
  predicate NoSpanOpen(s: string) {
    forall i | 0 <= i <= |s| :: !(SpanOpen <= s[i..])
  }

  /** Text in which no searchmatch span opens is left as it is. */
  lemma {:induction false} UnwrapPlain(s: string)
    requires NoSpanOpen(s)
    ensures UnwrapSearchMatches(s) == s
    decreases |s|
  {
    if |s| > 0 {
      assert s[0..] == s;
      forall i | 0 <= i <= |s| - 1 ensures !(SpanOpen <= s[1..][i..]) {
        assert s[1..][i..] == s[i + 1..];
      }
      UnwrapPlain(s[1..]);
      assert [s[0]] + s[1..] == s;
    }
  }

  /** A span opening is itself a tag, so text without tags has none. */
  lemma {:induction false} NoTagNoSpanOpen(s: string)
    requires NoTag(s)
    ensures NoSpanOpen(s)
  {
    forall i | 0 <= i <= |s| ensures !(SpanOpen <= s[i..]) {
      if i + |SpanOpen| <= |s| {
        assert s[i] != '<' || s[i + |SpanOpen| - 1] != '>';
        assert s[i..][0] == s[i] && s[i..][|SpanOpen| - 1] == s[i + |SpanOpen| - 1];
      }
    }
  }

  /**
    A searchmatch span closed on its own line is replaced by the text inside
    it, and the scan carries on after the closing tag.
  */
  lemma {:induction false} UnwrapSpan(inner: string, rest: string)
    requires '<' !in inner
    requires forall c | c in inner :: !IsLineTerminator(c)
    ensures UnwrapSearchMatches(SpanOpen + inner + SpanClose + rest) == inner + UnwrapSearchMatches(rest)
  {
    var s := SpanOpen + inner + SpanClose + rest;
    var k := |SpanOpen| + |inner|;
    assert s[..|SpanOpen|] == SpanOpen;
    assert s[|SpanOpen|..k] == inner;
    NoLitInMid(s, |SpanOpen|, inner, SpanClose, false);
    assert s[k..k + |SpanClose|] == SpanClose;
    LitAtCopy(s, k, SpanClose, false);
    FindInLineAt(s, SpanClose, |SpanOpen|, k, false);
    assert s[k + |SpanClose|..] == rest;
  }

  // ---------------------------------------------------------------------
  // Step 2: strip every <…> tag
  // ---------------------------------------------------------------------

  /** `replace(/<[^>]*>/g, '')`: a `<` and everything up to the next `>` is removed. */
  function StripTags(s: string): (r: string)
    ensures |r| <= |s|
    decreases |s|
  {
    if |s| == 0 then ""
    else if s[0] == '<' then
      match FindChar(s, '>', 1)
      case Some(k) => StripTags(s[k + 1..])
      case None => [s[0]] + StripTags(s[1..])
    else [s[0]] + StripTags(s[1..])
  }

  lemma {:induction false} StripTagsDeletes(s: string)
    ensures Subseq(StripTags(s), s)
    decreases |s|
  {
    if |s| > 0 {
      var m := if s[0] == '<' then FindChar(s, '>', 1) else None;
      if m.Some? {
        var e := m.value + 1;
        StripTagsDeletes(s[e..]);
        SubseqEmpty(s[..e]);
        SubseqConcat("", s[..e], StripTags(s[e..]), s[e..]);
        assert s[..e] + s[e..] == s;
        assert "" + StripTags(s[e..]) == StripTags(s[e..]);
      } else {
        StripTagsDeletes(s[1..]);
        SubseqConcat([s[0]], [s[0]], StripTags(s[1..]), s[1..]);
        assert [s[0]] + s[1..] == s;
      }
    }
  }

  /** After the tag strip no `<` is followed later by a `>`. */
  lemma {:induction false} StripTagsLeavesNoTag(s: string)
    ensures NoTag(StripTags(s))
    decreases |s|
  {
    if |s| > 0 {
      var m := if s[0] == '<' then FindChar(s, '>', 1) else None;
      if m.Some? {
        StripTagsLeavesNoTag(s[m.value + 1..]);
      } else {
        var rest := StripTags(s[1..]);
        StripTagsLeavesNoTag(s[1..]);
        if s[0] == '<' {
          AbsentAfter(s, '>', 1);
          StripTagsDeletes(s[1..]);
          SubseqChars(rest, s[1..], '>');
        }
        NoTagCons(s[0], rest);
      }
    }
  }

  /** The tag strip changes a string exactly when the string has a tag in it. */
  lemma {:induction false} StripTagsFixpoint(s: string)
    ensures StripTags(s) == s <==> NoTag(s)
  {
    StripTagsLeavesNoTag(s);
    if NoTag(s) {
      StripTagsKeepsTagless(s);
    }
  }

  lemma {:induction false} StripTagsKeepsTagless(s: string)
    requires NoTag(s)
    ensures StripTags(s) == s
    decreases |s|
  {
    if |s| > 0 {
      NoTagSuffix(s, 1);
      StripTagsKeepsTagless(s[1..]);
      if s[0] == '<' {
        NoTagHead(s);
        assert FindChar(s, '>', 1).None?;
      }
      assert [s[0]] + s[1..] == s;
    }
  }

  // ---------------------------------------------------------------------
  // Step 3: By <a …>NAME</a>  ->  By NAME
  // ---------------------------------------------------------------------

  const ByLinkOpen: string := "By <a"
  const LinkClose: string := "</a>"

  /**
    A match of `By <a[^>]*>([^<]*)<\/a>` at the start of `s`: the bounds of
    the link text. `[^>]*` can only stop at the first `>`, and `[^<]*` at the
    first `<` after it, so there is at most one way to match.
  */
  function ByLinkAt(s: string): (r: Option<(nat, nat)>)
    ensures r.Some? ==> |ByLinkOpen| < r.value.0 <= r.value.1 && r.value.1 + |LinkClose| <= |s|
    ensures r.Some? ==> s[3] == '<' && s[r.value.0 - 1] == '>'
  {
    if ByLinkOpen <= s then
      match FindChar(s, '>', |ByLinkOpen|)
      case None => None
      case Some(j) =>
        match FindChar(s, '<', j + 1)
        case None => None
        case Some(k) => if LinkClose <= s[k..] then Some((j + 1, k)) else None
    else None
  }

  /** `replace(/By <a[^>]*>([^<]*)<\/a>/g, 'By $1')`. */
  function RewriteByLinks(s: string): (r: string)
    ensures |r| <= |s|
    decreases |s|
  {
    if |s| == 0 then ""
    else match ByLinkAt(s)
      case Some((a, b)) => "By " + s[a..b] + RewriteByLinks(s[b + |LinkClose|..])
      case None => [s[0]] + RewriteByLinks(s[1..])
  }

  /**
    The rewrite runs after every tag has been stripped, when it cannot
    match any more: on a string without tags it changes nothing.
  */
  lemma {:induction false} RewriteByLinksTagless(s: string)
    requires NoTag(s)
    ensures RewriteByLinks(s) == s
    decreases |s|
  {
    if |s| > 0 {
      if ByLinkOpen <= s {
        NoTagSuffix(s, 3);
        assert s[3..][0] == '<';
        NoTagHead(s[3..]);
        assert forall j | |ByLinkOpen| <= j < |s| :: s[j] == s[3..][j - 3];
        assert FindChar(s, '>', |ByLinkOpen|).None?;
      }
      assert ByLinkAt(s).None?;
      NoTagSuffix(s, 1);
      RewriteByLinksTagless(s[1..]);
      assert [s[0]] + s[1..] == s;
    }
  }

  // ---------------------------------------------------------------------
  // Step 4: the catalogue of boilerplate patterns
  // ---------------------------------------------------------------------

  /**
    A pattern `L0.*?L1.*?…` of literals joined by lazy wildcards, matched
    with the `i` flag. The first literal is not empty, so a match is never
    empty.
  */
  type Pattern = parts: seq<string> | |parts| > 0 && |parts[0]| > 0 witness ["<"]

  /**
    The infobox and taxonomy boilerplate that `cleanDescription` removes, in
    the order it removes it.
  */
  const TemporalRange: Pattern := ["Temporal range:", "Ma"]
  const GeologicTimeline: Pattern := ["Pre\U{A792}\U{A792}OSDCPTJKPgN", "\U{2193}"]
  const HoloceneRange: Pattern := ["Holocene to present", "ago)"]
  const ConservationStatus: Pattern := ["Conservation status", "Domesticated"]
  const ScientificClassification: Pattern := ["Scientific classification", "Binomial name"]
  const TaxonomyRanks: Pattern := ["Kingdom:", "Species:", "[1]"]
  const BinomialAuthority: Pattern := ["Binomial name", "Linnaeus", "[2]"]
  const SynonymsList: Pattern := ["Synonyms", "[3]"]
  const SynonymAuthors: Pattern := ["F. angorensis", "F. vulgaris", "1829"]

  const TechnicalPatterns: seq<Pattern> := [
    TemporalRange, GeologicTimeline, HoloceneRange, ConservationStatus, ScientificClassification,
    TaxonomyRanks, BinomialAuthority, SynonymsList, SynonymAuthors
  ]

  /**
    The remaining literals of a pattern, each found lazily after the
    previous one on the same line; the end of the match. When the earliest
    occurrence of a literal leaves no room for the ones after it, no later
    occurrence does either, so backtracking finds nothing this misses.
  */
  function MatchRest(s: string, parts: seq<string>, pos: nat): (r: Option<nat>)
    requires pos <= |s|
    ensures r.Some? ==> pos <= r.value <= |s|
    decreases |parts|
  {
    if |parts| == 0 then Some(pos)
    else match FindInLine(s, parts[0], pos, true)
      case None => None
      case Some(k) => MatchRest(s, parts[1..], k + |parts[0]|)
  }

  /** A match of the pattern at the start of `s`, as the end of the match. */
  function MatchAt(s: string, parts: Pattern): (r: Option<nat>)
    ensures r.Some? ==> 0 < r.value <= |s| && LitAt(s, 0, parts[0], true)
  {
    if LitAt(s, 0, parts[0], true) then MatchRest(s, parts[1..], |parts[0]|) else None
  }

  /** `replace(pattern, '')` for one pattern of the catalogue: every match is deleted. */
  function RemoveMatches(s: string, parts: Pattern): (r: string)
    ensures |r| <= |s|
    decreases |s|
  {
    if |s| == 0 then ""
    else match MatchAt(s, parts)
      case Some(e) => RemoveMatches(s[e..], parts)
      case None => [s[0]] + RemoveMatches(s[1..], parts)
  }

  lemma {:induction false} RemoveMatchesDeletes(s: string, parts: Pattern)
    ensures Subseq(RemoveMatches(s, parts), s)
    decreases |s|
  {
    if |s| > 0 {
      var m := MatchAt(s, parts);
      if m.Some? {
        var e := m.value;
        RemoveMatchesDeletes(s[e..], parts);
        SubseqEmpty(s[..e]);
        SubseqConcat("", s[..e], RemoveMatches(s[e..], parts), s[e..]);
        assert s[..e] + s[e..] == s;
        assert "" + RemoveMatches(s[e..], parts) == RemoveMatches(s[e..], parts);
      } else {
        RemoveMatchesDeletes(s[1..], parts);
        SubseqConcat([s[0]], [s[0]], RemoveMatches(s[1..], parts), s[1..]);
        assert [s[0]] + s[1..] == s;
      }
    }
  }

  /** A pattern whose first literal does not occur anywhere leaves the text unchanged. */
  lemma {:induction false} RemoveMatchesAbsent(s: string, parts: Pattern)
    requires forall i | 0 <= i <= |s| :: !LitAt(s, i, parts[0], true)
    ensures RemoveMatches(s, parts) == s
    decreases |s|
  {
    if |s| > 0 {
      assert !LitAt(s, 0, parts[0], true);
      forall i | 0 <= i <= |s| - 1 ensures !LitAt(s[1..], i, parts[0], true) {
        assert !LitAt(s, i + 1, parts[0], true);
        if LitAt(s[1..], i, parts[0], true) {
          forall j | 0 <= j < |parts[0]| ensures CharMatch(s[i + 1 + j], parts[0][j], true) {
            assert s[1..][i + j] == s[i + 1 + j];
          }
          assert false;
        }
      }
      RemoveMatchesAbsent(s[1..], parts);
      assert [s[0]] + s[1..] == s;
    }
  }

  /** The patterns of `ps` applied one after the other, as the `forEach` does. */
  function RemovePatterns(s: string, ps: seq<Pattern>): (r: string)
    ensures |r| <= |s|
  {
    if |ps| == 0 then s
    else RemoveMatches(RemovePatterns(s, ps[..|ps| - 1]), ps[|ps| - 1])
  }

  lemma {:induction false} RemovePatternsSubseq(s: string, ps: seq<Pattern>)
    ensures Subseq(RemovePatterns(s, ps), s)
  {
    if |ps| > 0 {
      var before := RemovePatterns(s, ps[..|ps| - 1]);
      RemovePatternsSubseq(s, ps[..|ps| - 1]);
      RemoveMatchesDeletes(before, ps[|ps| - 1]);
      SubseqTrans(RemovePatterns(s, ps), before, s);
    } else {
      SubseqRefl(s);
    }
  }

  lemma {:induction false} RemovePatternsKeepNoTag(s: string, ps: seq<Pattern>)
    ensures NoTag(s) ==> NoTag(RemovePatterns(s, ps))
  {
    if |ps| > 0 {
      var before := RemovePatterns(s, ps[..|ps| - 1]);
      RemovePatternsKeepNoTag(s, ps[..|ps| - 1]);
      RemoveMatchesDeletes(before, ps[|ps| - 1]);
      if NoTag(before) {
        NoTagSubseq(RemoveMatches(before, ps[|ps| - 1]), before);
      }
    }
  }

  /** The first literal of `p` occurs in `s`: without it the pattern cannot match anywhere. */
  predicate FirstLiteralOccurs(s: string, p: Pattern) {
    exists i | 0 <= i <= |s| :: LitAt(s, i, p[0], true)
  }

  /** A literal with a character that `s` lacks (ignoring case) does not occur in `s`. */
  lemma {:induction false} AbsentByChar(s: string, p: Pattern, k: nat)
    requires k < |p[0]|
    requires forall c | c in s :: Canon(c) != Canon(p[0][k])
    ensures !FirstLiteralOccurs(s, p)
  {
    forall i | 0 <= i <= |s| ensures !LitAt(s, i, p[0], true) {
      if i + |p[0]| <= |s| {
        assert s[i + k] in s;
      }
    }
  }

  /** A first literal longer than `s` does not occur in it. */
  lemma {:induction false} AbsentByLength(s: string, p: Pattern)
    requires |s| < |p[0]|
    ensures !FirstLiteralOccurs(s, p)
  {
  }

  /** Patterns none of whose first literals occurs leave the text unchanged. */
  lemma {:induction false} RemovePatternsAbsent(s: string, ps: seq<Pattern>)
    requires forall p | p in ps :: !FirstLiteralOccurs(s, p)
    ensures RemovePatterns(s, ps) == s
  {
    if |ps| > 0 {
      assert ps[|ps| - 1] in ps;
      RemovePatternsAbsent(s, ps[..|ps| - 1]);
      RemoveMatchesAbsent(s, ps[|ps| - 1]);
    }
  }

  /** When the patterns after the first cannot match what the first one leaves, the result is what it leaves. */
  lemma {:induction false} RemovePatternsFirst(s: string, ps: seq<Pattern>)
    requires |ps| > 0
    requires forall p | p in ps[1..] :: !FirstLiteralOccurs(RemoveMatches(s, ps[0]), p)
    ensures RemovePatterns(s, ps) == RemoveMatches(s, ps[0])
    decreases |ps|
  {
    if |ps| == 1 {
      assert ps[..0] == [];
    } else {
      var init := ps[..|ps| - 1];
      assert init[1..] == ps[1..|ps| - 1];
      assert ps[|ps| - 1] in ps[1..];
      RemovePatternsFirst(s, init);
      RemoveMatchesAbsent(RemoveMatches(s, ps[0]), ps[|ps| - 1]);
    }
  }

  // ---------------------------------------------------------------------
  // Step 5 and the whole pipeline
  // ---------------------------------------------------------------------

  /** The text before whitespace is collapsed: steps 1 to 4. */
  function Pruned(text: string): string {
    RemovePatterns(RewriteByLinks(StripTags(UnwrapSearchMatches(text))), TechnicalPatterns)
  }

  /** What `cleanDescription(text)` returns. */
  function Clean(text: string): (r: string)
    ensures |r| <= |text|
  {
    Trim(CollapseSpace(Pruned(text)))
  }

  /**
    `cleanDescription`: the successive `replace` calls, with the loop over
    the catalogue of boilerplate patterns.
  */
  method CleanDescription(text: string) returns (cleaned: string)
    ensures cleaned == Clean(text)
    ensures WellSpaced(cleaned)
    ensures NoTag(cleaned)
  {
    cleaned := text;
    cleaned := UnwrapSearchMatches(cleaned);
    cleaned := StripTags(cleaned);
    cleaned := RewriteByLinks(cleaned);
    cleaned := RemoveTechnicalPatterns(cleaned);
    cleaned := CollapseSpace(cleaned);
    cleaned := Trim(cleaned);
    CleanWellSpaced(text);
    CleanNoTag(text);
  }

  /** The `forEach` over the catalogue: each pattern's matches are deleted in turn. */
  method RemoveTechnicalPatterns(text: string) returns (cleaned: string)
    ensures cleaned == RemovePatterns(text, TechnicalPatterns)
    ensures Subseq(cleaned, text)
  {
    cleaned := text;
    for i := 0 to |TechnicalPatterns|
      invariant cleaned == RemovePatterns(text, TechnicalPatterns[..i])
    {
      assert TechnicalPatterns[..i + 1][..i] == TechnicalPatterns[..i];
      cleaned := RemoveMatches(cleaned, TechnicalPatterns[i]);
    }
    assert TechnicalPatterns[..|TechnicalPatterns|] == TechnicalPatterns;
    RemovePatternsSubseq(text, TechnicalPatterns);
  }

  /** The description has no leading or trailing whitespace and no two whitespace characters in a row. */
  lemma {:induction false} CleanWellSpaced(text: string)
    ensures WellSpaced(Clean(text))
  {
    var p := Pruned(text);
    CollapseTrimIsUnwords(p);
    WordsProper(p);
    UnwordsWellSpaced(Words(p));
  }

  /**
    The description is the words left after steps 1 to 4 joined by single
    spaces, so it splits into exactly those words.
  */
  lemma {:induction false} CleanIsWords(text: string)
    ensures Clean(text) == Unwords(Words(Pruned(text)))
    ensures Words(Clean(text)) == Words(Pruned(text))
  {
    var p := Pruned(text);
    CollapseTrimIsUnwords(p);
    WordsProper(p);
    WordsOfUnwords(Words(p));
  }

  /**
    Cleaning a description a second time changes nothing, as long as none
    of the boilerplate patterns' first literals occurs in it: it has no
    tags, so steps 1 to 3 leave it alone, and it is already its words
    joined by single spaces.
  */
  lemma {:induction false} CleanIdempotent(text: string)
    requires forall p | p in TechnicalPatterns :: !FirstLiteralOccurs(Clean(text), p)
    ensures Clean(Clean(text)) == Clean(text)
  {
    var c := Clean(text);
    CleanNoTag(text);
    NoTagNoSpanOpen(c);
    UnwrapPlain(c);
    StripTagsKeepsTagless(c);
    RewriteByLinksTagless(c);
    RemovePatternsAbsent(c, TechnicalPatterns);
    assert Pruned(c) == c;
    CleanIsWords(text);
    CollapseTrimIsUnwords(c);
  }

  /** Text without a `<` has no tags. */
  lemma {:induction false} NoTagWithoutOpen(s: string)
    requires '<' !in s
    ensures NoTag(s)
  {
    forall i, j | 0 <= i < j < |s| ensures s[i] != '<' || s[j] != '>' {
      assert s[i] in s;
    }
  }

  /**
    A highlighted word followed by a plain one: the span's markup goes and
    its text stays, so the description is the two words.
  */
  lemma {:induction false} CleanHighlightedWord(a: string, b: string)
    requires a != "" && NoSpace(a) && '<' !in a
    requires b != "" && NoSpace(b) && '<' !in b
    requires forall p | p in TechnicalPatterns :: !FirstLiteralOccurs(a + " " + b, p)
    ensures Clean(SpanOpen + a + SpanClose + (" " + b)) == a + " " + b
  {
    var u := a + " " + b;
    UnwrapHighlighted(a, b);
    NoTagWithoutOpen(u);
    StripTagsKeepsTagless(u);
    RewriteByLinksTagless(u);
    RemovePatternsAbsent(u, TechnicalPatterns);
    TwoWords(a, b);
  }

  lemma {:induction false} UnwrapHighlighted(a: string, b: string)
    requires NoSpace(a) && '<' !in a && '<' !in b
    ensures UnwrapSearchMatches(SpanOpen + a + SpanClose + (" " + b)) == a + " " + b
  {
    var rest := " " + b;
    forall c | c in a ensures !IsLineTerminator(c) {
      var i :| 0 <= i < |a| && a[i] == c;
    }
    NoTagWithoutOpen(rest);
    NoTagNoSpanOpen(rest);
    UnwrapPlain(rest);
    UnwrapSpan(a, rest);
    assert a + rest == a + " " + b;
  }

  /** `<span class="searchmatch">fox</span> jumps` is described as `fox jumps`. */
  lemma {:induction false} CleanSearchMatchExample()
    ensures Clean(SpanOpen + "fox" + SpanClose + " jumps") == "fox jumps"
  {
    LettersNoSpace("fox");
    LettersNoSpace("jumps");
    FoxJumpsHasNoBoilerplate();
    assert "fox" + " " + "jumps" == "fox jumps" && " " + "jumps" == " jumps";
    CleanHighlightedWord("fox", "jumps");
  }

  /** A word of ASCII letters has no whitespace. */
  lemma {:induction false} LettersNoSpace(w: string)
    requires forall c | c in w :: 'a' <= c <= 'z' || 'A' <= c <= 'Z'
    ensures NoSpace(w)
  {
    forall i | 0 <= i < |w| ensures !IsSpace(w[i]) {
      assert w[i] in w;
    }
  }

  lemma {:induction false} FoxJumpsHasNoBoilerplate()
    ensures forall p | p in TechnicalPatterns :: !FirstLiteralOccurs("fox jumps", p)
  {
    var u := "fox jumps";
    AbsentByChar(u, TaxonomyRanks, 0);
    AbsentByChar(u, SynonymsList, 1);
    forall p | p in TechnicalPatterns && p != TaxonomyRanks && p != SynonymsList
      ensures !FirstLiteralOccurs(u, p)
    {
      AbsentByLength(u, p);
    }
  }

  /**
    The `Temporal range:.*?Ma` pattern at the start of the text removes
    everything up to the first `Ma` on the line, and the scan carries on
    with what follows.
  */
  lemma {:induction false} RemoveTemporalRange(mid: string, rest: string)
    requires forall c | c in mid :: Canon(c) != 'M' && !IsLineTerminator(c)
    requires !FirstLiteralOccurs(rest, TemporalRange)
    ensures RemoveMatches(TemporalRange[0] + mid + TemporalRange[1] + rest, TemporalRange) == rest
  {
    var s := TemporalRange[0] + mid + TemporalRange[1] + rest;
    var e := |TemporalRange[0]| + |mid| + |TemporalRange[1]|;
    MatchTemporalRange(mid, rest);
    assert s[e..] == rest;
    RemoveMatchesAbsent(rest, TemporalRange);
  }

  lemma {:induction false} MatchTemporalRange(mid: string, rest: string)
    requires forall c | c in mid :: Canon(c) != 'M' && !IsLineTerminator(c)
    ensures var s := TemporalRange[0] + mid + TemporalRange[1] + rest;
      MatchAt(s, TemporalRange) == Some(|TemporalRange[0]| + |mid| + |TemporalRange[1]|)
  {
    var lit := TemporalRange[0];
    var ma := TemporalRange[1];
    var s := lit + mid + ma + rest;
    var k := |lit| + |mid|;
    assert s[0..|lit|] == lit;
    LitAtCopy(s, 0, lit, true);
    assert s[|lit|..k] == mid;
    assert Canon(ma[0]) == 'M';
    NoLitInMid(s, |lit|, mid, ma, true);
    assert s[k..k + |ma|] == ma;
    LitAtCopy(s, k, ma, true);
    FindInLineAt(s, ma, |lit|, k, true);
    assert TemporalRange[1..] == [ma] && [ma][1..] == [];
    assert MatchRest(s, [ma], |lit|) == MatchRest(s, [], k + |ma|);
  }

  /** A literal copied into the text occurs there. */
  lemma {:induction false} LitAtCopy(s: string, i: nat, lit: string, ignoreCase: bool)
    requires i + |lit| <= |s| && s[i..i + |lit|] == lit
    ensures LitAt(s, i, lit, ignoreCase)
  {
    forall j | 0 <= j < |lit| ensures CharMatch(s[i + j], lit[j], ignoreCase) {
      assert s[i + j] == s[i..i + |lit|][j];
    }
  }

  /** A literal whose first character a stretch of the line lacks starts nowhere in that stretch. */
  lemma {:induction false} NoLitInMid(s: string, from: nat, mid: string, lit: string, ignoreCase: bool)
    requires from + |mid| <= |s| && s[from..from + |mid|] == mid && |lit| > 0
    requires forall c | c in mid :: !CharMatch(c, lit[0], ignoreCase) && !IsLineTerminator(c)
    ensures forall j | from <= j < from + |mid| :: !IsLineTerminator(s[j])
    ensures forall j | from <= j < from + |mid| :: !LitAt(s, j, lit, ignoreCase)
  {
    forall j | from <= j < from + |mid| ensures !IsLineTerminator(s[j]) {
      assert s[j] == mid[j - from] && s[j] in mid;
    }
    forall j | from <= j < from + |mid| ensures !LitAt(s, j, lit, ignoreCase) {
      assert s[j] == mid[j - from] && s[j] in mid;
    }
  }

  /**
    A description that opens with a temporal range: the range and its
    `… Ma` tail are dropped, and the words after it remain.
  */
  lemma {:induction false} CleanTemporalRange(mid: string, a: string, b: string)
    requires forall c | c in mid :: Canon(c) != 'M' && !IsLineTerminator(c) && c != '<'
    requires a != "" && NoSpace(a) && '<' !in a
    requires b != "" && NoSpace(b) && '<' !in b
    requires forall p | p in TechnicalPatterns :: !FirstLiteralOccurs(" " + a + " " + b, p)
    ensures Clean(TemporalRange[0] + mid + TemporalRange[1] + (" " + a + " " + b)) == a + " " + b
  {
    var rest := " " + a + " " + b;
    var s := TemporalRange[0] + mid + TemporalRange[1] + rest;
    NoTagWithoutOpen(s);
    NoTagNoSpanOpen(s);
    UnwrapPlain(s);
    StripTagsKeepsTagless(s);
    RewriteByLinksTagless(s);
    RemoveTemporalRange(mid, rest);
    assert TechnicalPatterns[0] == TemporalRange;
    RemovePatternsFirst(s, TechnicalPatterns);
    assert Pruned(s) == rest;
    LeadingSpaceWords(a, b);
  }

  /** A leading space goes when whitespace is collapsed and trimmed. */
  lemma {:induction false} LeadingSpaceWords(a: string, b: string)
    requires a != "" && NoSpace(a) && b != "" && NoSpace(b)
    ensures Trim(CollapseSpace(" " + a + " " + b)) == a + " " + b
  {
    var u := a + " " + b;
    assert " " + a + " " + b == " " + u;
    assert u[0] == a[0];
    TrimStartSpace(u);
    TrimStartOfClean(u);
    SameTrimStartSameWords(" " + u, u);
    TwoWords(a, b);
  }

  /** Collapsing and trimming ignore whatever leading whitespace there is. */
  lemma {:induction false} SameTrimStartSameWords(s: string, t: string)
    requires TrimStart(s) == TrimStart(t)
    ensures Trim(CollapseSpace(s)) == Trim(CollapseSpace(t))
  {
    WordsSkipSpace(s);
    WordsSkipSpace(t);
    CollapseTrimIsUnwords(s);
    CollapseTrimIsUnwords(t);
  }

  /**
    `Temporal range: Triassic to present Ma Something else` is described
    as `Something else` (the text is written in four pieces, the pattern's
    two literals with what lies before, between and after them).
  */
  lemma {:induction false} CleanTemporalRangeExample()
    ensures Clean("Temporal range:" + " Triassic to present " + "Ma" + " Something else") == "Something else"
  {
    var mid := " Triassic to present ";
    TriassicHasNoMa();
    LettersNoSpace("Something");
    LettersNoSpace("else");
    SomethingElseHasNoBoilerplate();
    assert TemporalRange[0] == "Temporal range:" && TemporalRange[1] == "Ma";
    assert " " + "Something" + " " + "else" == " Something else";
    assert "Something" + " " + "else" == "Something else";
    CleanTemporalRange(mid, "Something", "else");
  }

  lemma {:induction false} TriassicHasNoMa()
    ensures forall c | c in " Triassic to present " :: Canon(c) != 'M' && !IsLineTerminator(c) && c != '<'
  {
  }

  lemma {:induction false} SomethingElseHasNoBoilerplate()
    ensures forall p | p in TechnicalPatterns :: !FirstLiteralOccurs(" Something else", p)
  {
    var u := " Something else";
    SomethingElseLacks();
    forall p | p in TechnicalPatterns && p != TemporalRange && p != TaxonomyRanks && p != BinomialAuthority
      && p != SynonymsList && p != SynonymAuthors
      ensures !FirstLiteralOccurs(u, p)
    {
      AbsentByLength(u, p);
    }
  }

  lemma {:induction false} SomethingElseLacks()
    ensures var u := " Something else";
      && !FirstLiteralOccurs(u, TemporalRange) && !FirstLiteralOccurs(u, TaxonomyRanks)
      && !FirstLiteralOccurs(u, BinomialAuthority) && !FirstLiteralOccurs(u, SynonymsList)
      && !FirstLiteralOccurs(u, SynonymAuthors)
  {
    SomethingElseLacksFirst();
    SomethingElseLacksRest();
  }

  lemma {:induction false} SomethingElseLacksFirst()
    ensures var u := " Something else";
      !FirstLiteralOccurs(u, TemporalRange) && !FirstLiteralOccurs(u, TaxonomyRanks)
  {
    AbsentByChar(" Something else", TemporalRange, 14);
    AbsentByChar(" Something else", TaxonomyRanks, 0);
  }

  lemma {:induction false} SomethingElseLacksRest()
    ensures var u := " Something else";
      !FirstLiteralOccurs(u, BinomialAuthority) && !FirstLiteralOccurs(u, SynonymsList) &&
      !FirstLiteralOccurs(u, SynonymAuthors)
  {
    SomethingElseLacksBinomial();
    SomethingElseLacksSynonyms();
  }

  lemma {:induction false} SomethingElseLacksBinomial()
    ensures !FirstLiteralOccurs(" Something else", BinomialAuthority)
  {
    AbsentByChar(" Something else", BinomialAuthority, 0);
  }

  lemma {:induction false} SomethingElseLacksSynonyms()
    ensures !FirstLiteralOccurs(" Something else", SynonymsList)
    ensures !FirstLiteralOccurs(" Something else", SynonymAuthors)
  {
    AbsentByChar(" Something else", SynonymsList, 1);
    AbsentByChar(" Something else", SynonymAuthors, 0);
  }

  /** Two words joined by one space are what collapsing and trimming leave of them. */
  lemma {:induction false} TwoWords(a: string, b: string)
    requires a != "" && NoSpace(a) && b != "" && NoSpace(b)
    ensures Trim(CollapseSpace(a + " " + b)) == a + " " + b
  {
    var ws := [a, b];
    assert Unwords(ws) == a + " " + b;
    WordsOfUnwords(ws);
    CollapseTrimIsUnwords(a + " " + b);
  }

  lemma {:induction false} CollapseNoTag(s: string)
    requires NoTag(s)
    ensures NoTag(CollapseSpace(s))
    decreases |s|
  {
    if |s| > 0 {
      if IsSpace(s[0]) {
        var u := TrimStart(s);
        NoTagSuffix(s, LeadingSpaces(s));
        CollapseNoTag(u);
        NoTagCons(' ', CollapseSpace(u));
      } else {
        NoTagSuffix(s, 1);
        var rest := CollapseSpace(s[1..]);
        CollapseNoTag(s[1..]);
        if s[0] == '<' {
          NoTagHead(s);
          assert '>' !in rest;
        }
        NoTagCons(s[0], rest);
      }
    }
  }

  /** No `<` in the description is followed later by a `>`. */
  lemma {:induction false} CleanNoTag(text: string)
    ensures NoTag(Clean(text))
  {
    var stripped := StripTags(UnwrapSearchMatches(text));
    StripTagsLeavesNoTag(UnwrapSearchMatches(text));
    RewriteByLinksTagless(stripped);
    RemovePatternsKeepNoTag(stripped, TechnicalPatterns);
    CollapseNoTag(Pruned(text));
    TrimNoTag(CollapseSpace(Pruned(text)));
  }

  lemma {:induction false} TrimNoTag(c: string)
    requires NoTag(c)
    ensures NoTag(Trim(c))
  {
    var t := TrimStart(c);
    SubseqSlice(c, LeadingSpaces(c), |c|);
    assert c[LeadingSpaces(c)..|c|] == t;
    NoTagSubseq(t, c);
    SubseqSlice(t, 0, TrailingSpaces(t));
    assert t[0..TrailingSpaces(t)] == TrimEnd(t);
    NoTagSubseq(TrimEnd(t), t);
  }
}
