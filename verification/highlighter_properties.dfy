/**
 * What the highlighter promises about one block: the comment short-circuit, the
 * protection of strings, the vocabulary exclusion of the variable rules, and the
 * precedence of the rules ("the last rule that paints a character wins"), stated
 * against an independent definition of the winning rule.
 */
module HighlighterProperties {
  import opened Wrappers
  import opened Scanners
  import opened Highlighter

  /** Some match that rule `pat` paints holds position `i`. */
  ghost predicate Covered(pat: Pattern, s: string, v: Vocabulary, ranges: seq<(nat, nat)>, i: nat) {
    Covers(Painted(pat, s, v, ranges), i)
  }

  /** Which rules paint position `i`. */
  ghost function CoverageAt(s: string, v: Vocabulary, ranges: seq<(nat, nat)>, i: nat): Pattern -> bool {
    pat => Covered(pat, s, v, ranges, i)
  }

  /** The format of the last rule of `rules` for which `covered` holds, if any. */
  function LastFormat(rules: seq<Pattern>, covered: Pattern -> bool): Option<Style> {
    if rules == [] then None
    else
      var pat := rules[|rules| - 1];
      if covered(pat) then Some(FormatOf(pat)) else LastFormat(rules[..|rules| - 1], covered)
  }

  /** The format of the last rule of `rules` that paints `i`, if any. */
  ghost function LastCovering(rules: seq<Pattern>, s: string, v: Vocabulary, ranges: seq<(nat, nat)>, i: nat): Option<Style> {
    LastFormat(rules, CoverageAt(s, v, ranges, i))
  }

  /** `LastFormat` names the format of a rule for which `covered` holds, and is `None` when there is none. */
  lemma {:induction false} LastFormatIs(rules: seq<Pattern>, covered: Pattern -> bool)
    ensures LastFormat(rules, covered).None? <==> forall j | 0 <= j < |rules| :: !covered(rules[j])
    ensures LastFormat(rules, covered).Some? ==>
      exists j | 0 <= j < |rules| :: covered(rules[j]) && LastFormat(rules, covered) == Some(FormatOf(rules[j]))
    decreases |rules|
  {
    if rules != [] {
      var init := rules[..|rules| - 1];
      LastFormatIs(init, covered);
      assert forall j | 0 <= j < |init| :: init[j] == rules[j];
      if !covered(rules[|rules| - 1]) && LastFormat(init, covered).Some? {
        var j :| 0 <= j < |init| && covered(init[j]) && LastFormat(init, covered) == Some(FormatOf(init[j]));
        assert rules[j] == init[j];
      }
    }
  }

  /** When `covered` holds for rule `k` and for no rule after it, rule `k`'s format is the one named. */
  lemma {:induction false} LastFormatFrom(rules: seq<Pattern>, covered: Pattern -> bool, k: nat)
    requires k < |rules| && covered(rules[k])
    requires forall j | k < j < |rules| :: !covered(rules[j])
    ensures LastFormat(rules, covered) == Some(FormatOf(rules[k]))
    decreases |rules|
  {
    if k < |rules| - 1 {
      var init := rules[..|rules| - 1];
      assert forall j | 0 <= j < |init| :: init[j] == rules[j];
      LastFormatFrom(init, covered, k);
    }
  }

  /** `LastCovering` names the format of a rule of `rules` that paints `i`, and is `None` when none does. */
  lemma LastCoveringIs(rules: seq<Pattern>, s: string, v: Vocabulary, ranges: seq<(nat, nat)>, i: nat)
    ensures LastCovering(rules, s, v, ranges, i).None? <==>
      forall j | 0 <= j < |rules| :: !Covered(rules[j], s, v, ranges, i)
    ensures LastCovering(rules, s, v, ranges, i).Some? ==>
      exists j | 0 <= j < |rules| ::
        Covered(rules[j], s, v, ranges, i) && LastCovering(rules, s, v, ranges, i) == Some(FormatOf(rules[j]))
  {
    LastFormatIs(rules, CoverageAt(s, v, ranges, i));
  }

  /**
   * The format character `i` is left with, read off the rules in reverse order of
   * application: the last rule that paints `i` wins, the string format comes next,
   * and `None` means that no rule paints `i`.
   */
  ghost function Winner(s: string, v: Vocabulary, i: nat): Option<Style> {
    match FirstMatch(CommentPattern, s, v, 0)
    case Some(c) => if c.start <= i then Some(CommentFormat) else None
    case None =>
      var ranges := RangesOf(GlobalMatch(StringPattern, s, v, 0));
      var w := LastCovering(Rules, s, v, ranges, i);
      if w.Some? then w
      else if InsideString(ranges, i) then Some(StringFormat)
      else None
  }

  /** Painting a sequence of spans: the last writer wins, and unpainted positions keep their format. */
  lemma {:induction false} PaintAllAt(f: Formats, ms: seq<Span>, st: Style, i: nat)
    requires i < |f|
    ensures PaintAll(f, ms, st)[i] == if Covers(ms, i) then Some(st) else f[i]
    decreases |ms|
  {
    if ms != [] {
      var init := ms[..|ms| - 1];
      var last := ms[|ms| - 1];
      PaintAllAt(f, init, st, i);
      if Covers(init, i) {
        var k :| 0 <= k < |init| && init[k].start <= i < init[k].End();
        assert ms[k] == init[k];
      }
      if Covers(ms, i) && !(last.start <= i < last.End()) {
        var k :| 0 <= k < |ms| && ms[k].start <= i < ms[k].End();
        assert init[k] == ms[k];
      }
    }
  }

  /** The string ranges recorded by the highlighter are exactly the string matches. */
  lemma InsideStringIffCovered(strings: seq<Span>, i: nat)
    ensures InsideString(RangesOf(strings), i) <==> Covers(strings, i)
  {
    var ranges := RangesOf(strings);
    if InsideString(ranges, i) {
      var k :| 0 <= k < |ranges| && ranges[k].0 <= i < ranges[k].1;
      assert strings[k].start <= i < strings[k].End();
    }
    if Covers(strings, i) {
      var k :| 0 <= k < |strings| && strings[k].start <= i < strings[k].End();
      assert ranges[k].0 <= i < ranges[k].1;
    }
  }

  /** Several rule passes in a row: the last rule that paints a position decides its format. */
  lemma {:induction false} PassesAt(rules: seq<Pattern>, s: string, v: Vocabulary, ranges: seq<(nat, nat)>, f: Formats, i: nat)
    requires i < |f|
    ensures Passes(rules, s, v, ranges, f)[i] ==
      if LastCovering(rules, s, v, ranges, i).Some? then LastCovering(rules, s, v, ranges, i) else f[i]
    decreases |rules|
  {
    if rules != [] {
      var pat := rules[|rules| - 1];
      PassesAt(rules[..|rules| - 1], s, v, ranges, f, i);
      PaintAllAt(Passes(rules[..|rules| - 1], s, v, ranges, f), Painted(pat, s, v, ranges), FormatOf(pat), i);
    }
  }

  lemma HighlightAtNoComment(s: string, v: Vocabulary, f: Formats, i: nat)
    requires |f| == |s| && i < |s|
    requires FirstMatch(CommentPattern, s, v, 0).None?
    ensures Highlight(s, v, f)[i] == if Winner(s, v, i).Some? then Winner(s, v, i) else f[i]
  {
    var strings := GlobalMatch(StringPattern, s, v, 0);
    var ranges := RangesOf(strings);
    var f1 := PaintAll(f, strings, StringFormat);
    PaintAllAt(f, strings, StringFormat, i);
    InsideStringIffCovered(strings, i);
    PassesAt(Rules, s, v, ranges, f1, i);
  }

  /** Precedence: every character ends with the format of the rule `Winner` names, or keeps its old one. */
  lemma HighlightAt(s: string, v: Vocabulary, f: Formats, i: nat)
    requires |f| == |s| && i < |s|
    ensures Highlight(s, v, f)[i] == if Winner(s, v, i).Some? then Winner(s, v, i) else f[i]
  {
    if FirstMatch(CommentPattern, s, v, 0).None? {
      HighlightAtNoComment(s, v, f, i);
    }
  }

  /**
   * The comment short-circuit: when the first `#` of the line is at `c`, exactly
   * [c, |s|) takes the comment format and nothing else changes, whatever quotes or
   * words the line holds.
   */
  lemma CommentShortCircuit(s: string, v: Vocabulary, f: Formats, c: nat)
    requires |f| == |s| && c < |s| && s[c] == '#'
    requires forall j | 0 <= j < c :: s[j] != '#'
    ensures forall i | 0 <= i < |s| :: Highlight(s, v, f)[i] == if c <= i then Some(CommentFormat) else f[i]
  {
    var first := FirstMatch(CommentPattern, s, v, 0);
    assert MatchAt(CommentPattern, s, v, c).Some?;
    assert first.Some? && first.value.start == c;
  }

  /** `x = "#"`: the `#` between the quotes still turns [5, 7) into a comment and nothing else is painted. */
  lemma CommentInsideQuotes(v: Vocabulary)
    ensures Highlight("x = \"#\"", v, [None, None, None, None, None, None, None]) ==
      [None, None, None, None, None, Some(CommentFormat), Some(CommentFormat)]
  {
    var s := "x = \"#\"";
    var f: Formats := [None, None, None, None, None, None, None];
    CommentShortCircuit(s, v, f, 5);
  }

  /** A painted match is a match of the rule that the rule keeps. */
  lemma PaintedSpan(pat: Pattern, s: string, v: Vocabulary, ranges: seq<(nat, nat)>, m: Span)
    requires m in Painted(pat, s, v, ranges)
    ensures m.start < m.End() <= |s|
    ensures MatchAt(pat, s, v, m.start) == Some(m.End())
    ensures Keeps(pat, s, v, ranges, m)
  {
    var ms := GlobalMatch(pat, s, v, 0);
    assert m in ms;
    var j :| 0 <= j < |ms| && ms[j] == m;
  }

  /** A painted span of a whole-word rule is a maximal word that the rule accepts and keeps. */
  lemma PaintedWord(pat: Pattern, s: string, v: Vocabulary, ranges: seq<(nat, nat)>, m: Span)
    requires pat.MatchesWord() && m in Painted(pat, s, v, ranges)
    ensures m.start < m.End() <= |s| && WordStart(s, m.start) && m.End() == RunEnd(s, m.start, Word)
    ensures WordAccepted(pat, s, v, m.start, m.End()) && Keeps(pat, s, v, ranges, m)
  {
    PaintedSpan(pat, s, v, ranges, m);
  }

  /** Every string match starts on a quote. */
  lemma StringStartsWithQuote(s: string, v: Vocabulary, t: nat)
    requires t < |GlobalMatch(StringPattern, s, v, 0)|
    ensures GlobalMatch(StringPattern, s, v, 0)[t].start < |s|
    ensures IsQuote(s[GlobalMatch(StringPattern, s, v, 0)[t].start])
  {
  }

  /** A run of token characters that starts outside a string starting on a quote stays outside it. */
  lemma TokensAvoidString(s: string, m: Span, str: Span, i: nat)
    requires m.End() <= |s| && AllTokenChars(s, m.start, m.End())
    requires str.start < |s| && IsQuote(s[str.start])
    requires !(str.start <= m.start < str.End())
    ensures m.start <= i < m.End() && str.start <= i ==> str.End() <= i
  {
    assert m.start < str.start < m.End() ==> IsTokenChar(s[str.start]);
  }

  /** One painted match of a rule other than the comment and string rules stays out of string `t`. */
  lemma PaintedAvoidsString(pat: Pattern, s: string, v: Vocabulary, m: Span, t: nat, i: nat)
    requires !pat.CommentPattern? && !pat.StringPattern?
    requires t < |GlobalMatch(StringPattern, s, v, 0)|
    requires m in Painted(pat, s, v, RangesOf(GlobalMatch(StringPattern, s, v, 0)))
    ensures var str := GlobalMatch(StringPattern, s, v, 0)[t];
      !(m.start <= i < m.End() && str.start <= i < str.End())
  {
    var strings := GlobalMatch(StringPattern, s, v, 0);
    var ranges := RangesOf(strings);
    PaintedSpan(pat, s, v, ranges, m);
    StringStartsWithQuote(s, v, t);
    InsideStringIffCovered(strings, m.start);
    TokensAvoidString(s, m, strings[t], i);
  }

  /** A match that starts outside every string cannot reach into one, since it holds no quote. */
  lemma NotCoveredInString(pat: Pattern, s: string, v: Vocabulary, i: nat)
    requires !pat.CommentPattern? && !pat.StringPattern?
    requires Covers(GlobalMatch(StringPattern, s, v, 0), i)
    ensures !Covered(pat, s, v, RangesOf(GlobalMatch(StringPattern, s, v, 0)), i)
  {
    var strings := GlobalMatch(StringPattern, s, v, 0);
    var painted := Painted(pat, s, v, RangesOf(strings));
    var t :| 0 <= t < |strings| && strings[t].start <= i < strings[t].End();
    forall k | 0 <= k < |painted|
      ensures !(painted[k].start <= i < painted[k].End())
    {
      PaintedAvoidsString(pat, s, v, painted[k], t, i);
    }
  }

  /** String protection: on a line without `#`, every character of a string keeps the string format. */
  lemma StringsKeepStringFormat(s: string, v: Vocabulary, f: Formats, i: nat)
    requires |f| == |s| && i < |s|
    requires forall j | 0 <= j < |s| :: s[j] != '#'
    requires Covers(GlobalMatch(StringPattern, s, v, 0), i)
    ensures Highlight(s, v, f)[i] == Some(StringFormat)
  {
    assert FirstMatch(CommentPattern, s, v, 0).None?;
    var strings := GlobalMatch(StringPattern, s, v, 0);
    var ranges := RangesOf(strings);
    assert LastCovering(Rules, s, v, ranges, i).None? by {
      forall j | 0 <= j < |Rules|
        ensures !Covered(Rules[j], s, v, ranges, i)
      {
        NotCoveredInString(Rules[j], s, v, i);
      }
      LastCoveringIs(Rules, s, v, ranges, i);
    }
    InsideStringIffCovered(strings, i);
    HighlightAt(s, v, f, i);
  }

  /** `s[a..b]` is a whole word that does not start with a digit and is neither a keyword nor a built-in. */
  ghost predicate FreeWord(s: string, v: Vocabulary, a: nat, b: nat) {
    WordStart(s, a) && b == RunEnd(s, a, Word) && !IsDigit(s[a]) &&
    s[a..b] !in v.keywords && s[a..b] !in v.builtins
  }

  /** A variable-rule match that is painted is a free word. */
  lemma PaintedVariableIsFree(pat: Pattern, s: string, v: Vocabulary, ranges: seq<(nat, nat)>, i: nat)
    requires pat.IsVariable()
    requires Covered(pat, s, v, ranges, i)
    ensures exists a: nat, b: nat | a <= i < b <= |s| :: FreeWord(s, v, a, b)
  {
    var painted := Painted(pat, s, v, ranges);
    var k :| 0 <= k < |painted| && painted[k].start <= i < painted[k].End();
    var m := painted[k];
    var ms := GlobalMatch(pat, s, v, 0);
    assert m in ms;
    var j :| 0 <= j < |ms| && ms[j] == m;
    assert FreeWord(s, v, m.start, m.End());
  }

  /**
   * Vocabulary exclusion: a character that ends with the variable format, and did
   * not have it before, lies in a whole word that is neither a keyword nor a built-in.
   */
  lemma VariableFormatOnlyOnFreeWords(s: string, v: Vocabulary, f: Formats, i: nat)
    requires |f| == |s| && i < |s|
    requires f[i] != Some(VariableFormat)
    requires Highlight(s, v, f)[i] == Some(VariableFormat)
    ensures exists a: nat, b: nat | a <= i < b <= |s| :: FreeWord(s, v, a, b)
  {
    HighlightAt(s, v, f, i);
    VariableWinnerIsFree(s, v, i);
  }

  /** The variable format belongs to the two variable rules and to no other. */
  lemma VariableFormatRules(pat: Pattern)
    ensures FormatOf(pat) == VariableFormat <==> pat.IsVariable()
  {
    match pat
    case _ =>
  }

  /** Only the two variable rules paint in the variable format. */
  lemma VariableWinnerIsFree(s: string, v: Vocabulary, i: nat)
    requires Winner(s, v, i) == Some(VariableFormat)
    ensures exists a: nat, b: nat | a <= i < b <= |s| :: FreeWord(s, v, a, b)
  {
    var ranges := RangesOf(GlobalMatch(StringPattern, s, v, 0));
    assert FirstMatch(CommentPattern, s, v, 0).None?;
    assert LastCovering(Rules, s, v, ranges, i) == Some(VariableFormat);
    LastCoveringIs(Rules, s, v, ranges, i);
    var j :| 0 <= j < |Rules| &&
      Covered(Rules[j], s, v, ranges, i) && VariableFormat == FormatOf(Rules[j]);
    var pat := Rules[j];
    VariableFormatRules(pat);
    PaintedVariableIsFree(pat, s, v, ranges, i);
  }

  /** A match of any rule but the comment and string rules starts on a word character. */
  lemma NotCoveredWithoutWords(pat: Pattern, s: string, v: Vocabulary, ranges: seq<(nat, nat)>, i: nat)
    requires !pat.CommentPattern? && !pat.StringPattern?
    requires forall j | 0 <= j < |s| :: !IsWordChar(s[j])
    ensures !Covered(pat, s, v, ranges, i)
  {
  }

  /** A line with no `#`, no quote and no word character gets no formatting at all. */
  lemma PlainLineUntouched(s: string, v: Vocabulary, f: Formats)
    requires |f| == |s|
    requires forall j | 0 <= j < |s| :: s[j] != '#' && !IsQuote(s[j]) && !IsWordChar(s[j])
    ensures Highlight(s, v, f) == f
  {
    var first := FirstMatch(CommentPattern, s, v, 0);
    assert first.None?;
    var strings := GlobalMatch(StringPattern, s, v, 0);
    var ranges := RangesOf(strings);
    forall i | 0 <= i < |s|
      ensures Highlight(s, v, f)[i] == f[i]
    {
      InsideStringIffCovered(strings, i);
      forall j | 0 <= j < |Rules|
        ensures !Covered(Rules[j], s, v, ranges, i)
      {
        NotCoveredWithoutWords(Rules[j], s, v, ranges, i);
      }
      LastCoveringIs(Rules, s, v, ranges, i);
      HighlightAt(s, v, f, i);
    }
  }

  /** No state is carried between calls: highlighting a block a second time changes nothing. */
  lemma HighlightTwice(s: string, v: Vocabulary, f: Formats)
    requires |f| == |s|
    ensures Highlight(s, v, Highlight(s, v, f)) == Highlight(s, v, f)
  {
    var g := Highlight(s, v, f);
    forall i | 0 <= i < |s|
      ensures Highlight(s, v, g)[i] == g[i]
    {
      HighlightAt(s, v, f, i);
      HighlightAt(s, v, g, i);
    }
  }

  /** In `x == y` the assignment rule finds nothing: `==` is a comparison, not an assignment. */
  lemma ComparisonIsNotAssignment(v: Vocabulary)
    ensures GlobalMatch(AssignPattern, "x == y", v, 0) == []
  {
    var s := "x == y";
    assert RunEnd(s, 1, Space) == 2;
    assert MatchAt(AssignPattern, s, v, 0).None?;
    assert MatchAt(AssignPattern, s, v, 5).None?;
    assert FirstMatch(AssignPattern, s, v, 0).None?;
  }

  /** `x = 1` makes `x` the assignment target, and only `x`. */
  lemma AssignmentTarget(v: Vocabulary)
    ensures GlobalMatch(AssignPattern, "x = 1", v, 0) == [Span(0, 1)]
  {
    var s := "x = 1";
    assert RunEnd(s, 1, Space) == 2;
    assert MatchAt(AssignPattern, s, v, 0) == Some(1);
    assert FirstMatch(AssignPattern, s, v, 0) == Some(Span(0, 1));
    assert MatchAt(AssignPattern, s, v, 4).None?;
    assert FirstMatch(AssignPattern, s, v, 1).None?;
  }

  // ---------------------------------------------------------------------------
  // Whole-word rules

  /** Two words that both hold position `i` start at the same place. */
  lemma SameWord(s: string, a: nat, b: nat, i: nat)
    requires WordStart(s, a) && a <= i < RunEnd(s, a, Word)
    requires WordStart(s, b) && b <= i < RunEnd(s, b, Word)
    ensures a == b
  {
  }

  /** A painted match of a whole-word rule that holds `i` is the word around `i`. */
  lemma CoveringWordMatch(pat: Pattern, s: string, v: Vocabulary, ranges: seq<(nat, nat)>, a: nat, i: nat)
    requires pat.MatchesWord()
    requires WordStart(s, a) && a <= i < RunEnd(s, a, Word)
    requires Covered(pat, s, v, ranges, i)
    ensures Span(a, RunEnd(s, a, Word) - a) in Painted(pat, s, v, ranges)
  {
    var painted := Painted(pat, s, v, ranges);
    var k :| 0 <= k < |painted| && painted[k].start <= i < painted[k].End();
    var m := painted[k];
    PaintedWord(pat, s, v, ranges, m);
    SameWord(s, m.start, a, i);
    assert m == Span(a, RunEnd(s, a, Word) - a);
  }

  /** A match of a whole-word rule at the start of a word is reported by `globalMatch`. */
  lemma MatchedWordReported(pat: Pattern, s: string, v: Vocabulary, a: nat)
    requires pat.MatchesWord()
    requires WordStart(s, a) && WordAccepted(pat, s, v, a, RunEnd(s, a, Word))
    ensures Span(a, RunEnd(s, a, Word) - a) in GlobalMatch(pat, s, v, 0)
  {
    WordMatchAt(pat, s, v, a);
    var ms := GlobalMatch(pat, s, v, 0);
    GlobalMatchComplete(pat, s, v, 0, a);
    var k :| 0 <= k < |ms| && ms[k].start <= a < ms[k].End();
    WordMatchShape(pat, s, v, ms[k].start);
    WordSpanAt(s, a, ms[k]);
  }

  /** A span that runs over a whole word and holds the start of a word is that word. */
  lemma WordSpanAt(s: string, a: nat, m: Span)
    requires WordStart(s, m.start) && m.End() == RunEnd(s, m.start, Word)
    requires WordStart(s, a) && m.start <= a < m.End()
    ensures m == Span(a, RunEnd(s, a, Word) - a)
  {
    SameWord(s, m.start, a, a);
  }

  /** A kept match of a whole-word rule at the start of a word is painted. */
  lemma MatchedWordPainted(pat: Pattern, s: string, v: Vocabulary, ranges: seq<(nat, nat)>, a: nat)
    requires pat.MatchesWord()
    requires WordStart(s, a) && WordAccepted(pat, s, v, a, RunEnd(s, a, Word))
    requires Keeps(pat, s, v, ranges, Span(a, RunEnd(s, a, Word) - a))
    ensures Span(a, RunEnd(s, a, Word) - a) in Painted(pat, s, v, ranges)
  {
    MatchedWordReported(pat, s, v, a);
    ReportedKeptIsPainted(pat, s, v, ranges, Span(a, RunEnd(s, a, Word) - a));
  }

  /** A reported match that the rule keeps is painted. */
  lemma ReportedKeptIsPainted(pat: Pattern, s: string, v: Vocabulary, ranges: seq<(nat, nat)>, m: Span)
    requires m in GlobalMatch(pat, s, v, 0) && m.End() <= |s| && Keeps(pat, s, v, ranges, m)
    ensures m in Painted(pat, s, v, ranges)
  {
    SurvivorKept(pat, s, v, ranges, GlobalMatch(pat, s, v, 0), m);
  }

  /** A character a whole-word rule paints lies in a word the rule matches and keeps. */
  lemma CoveredWordKept(pat: Pattern, s: string, v: Vocabulary, ranges: seq<(nat, nat)>, a: nat, i: nat)
    requires pat.MatchesWord()
    requires WordStart(s, a) && a <= i < RunEnd(s, a, Word)
    requires Covered(pat, s, v, ranges, i)
    ensures WordAccepted(pat, s, v, a, RunEnd(s, a, Word)) && Keeps(pat, s, v, ranges, Span(a, RunEnd(s, a, Word) - a))
  {
    CoveringWordMatch(pat, s, v, ranges, a, i);
    PaintedWord(pat, s, v, ranges, Span(a, RunEnd(s, a, Word) - a));
  }

  /** Every character of a word a whole-word rule matches and keeps is painted by the rule. */
  lemma KeptWordCovered(pat: Pattern, s: string, v: Vocabulary, ranges: seq<(nat, nat)>, a: nat, i: nat)
    requires pat.MatchesWord()
    requires WordStart(s, a) && a <= i < RunEnd(s, a, Word)
    requires WordAccepted(pat, s, v, a, RunEnd(s, a, Word)) && Keeps(pat, s, v, ranges, Span(a, RunEnd(s, a, Word) - a))
    ensures Covered(pat, s, v, ranges, i)
  {
    var word := Span(a, RunEnd(s, a, Word) - a);
    MatchedWordPainted(pat, s, v, ranges, a);
    var painted := Painted(pat, s, v, ranges);
    var j :| 0 <= j < |painted| && painted[j] == word;
  }

  /**
   * A whole-word rule paints a character exactly when it matches the word that
   * holds the character and keeps that match.
   */
  lemma WordRuleCovers(pat: Pattern, s: string, v: Vocabulary, ranges: seq<(nat, nat)>, a: nat, i: nat)
    requires pat.MatchesWord()
    requires WordStart(s, a) && a <= i < RunEnd(s, a, Word)
    ensures Covered(pat, s, v, ranges, i) <==>
      WordAccepted(pat, s, v, a, RunEnd(s, a, Word)) && Keeps(pat, s, v, ranges, Span(a, RunEnd(s, a, Word) - a))
  {
    if Covered(pat, s, v, ranges, i) {
      CoveredWordKept(pat, s, v, ranges, a, i);
    }
    if WordAccepted(pat, s, v, a, RunEnd(s, a, Word)) && Keeps(pat, s, v, ranges, Span(a, RunEnd(s, a, Word) - a)) {
      KeptWordCovered(pat, s, v, ranges, a, i);
    }
  }

  // ---------------------------------------------------------------------------
  // Precedence on single words, and a worked line: `def add(a, b):`

  /** When rule `k` paints `i` and no rule after it does, rule `k`'s format is the one left. */
  lemma LastCoveringFrom(rules: seq<Pattern>, s: string, v: Vocabulary, ranges: seq<(nat, nat)>, i: nat, k: nat)
    requires k < |rules| && Covered(rules[k], s, v, ranges, i)
    requires forall j | k < j < |rules| :: !Covered(rules[j], s, v, ranges, i)
    ensures LastCovering(rules, s, v, ranges, i) == Some(FormatOf(rules[k]))
  {
    LastFormatFrom(rules, CoverageAt(s, v, ranges, i), k);
  }

  /** The first `def` match of a line, when kept, is painted over its whole length. */
  lemma FirstDefPainted(s: string, v: Vocabulary, ranges: seq<(nat, nat)>, a: nat, i: nat)
    requires a < |s| && DefAt(s, a).Some? && a <= i < DefAt(s, a).value
    requires forall q | 0 <= q < a :: MatchAt(DefPattern, s, v, q).None?
    requires !InsideString(ranges, a)
    ensures Covered(DefPattern, s, v, ranges, i)
  {
    var m := Span(a, DefAt(s, a).value - a);
    var first := FirstMatch(DefPattern, s, v, 0);
    assert MatchAt(DefPattern, s, v, a) == Some(m.End());
    assert first.Some?;
    assert first.value.start == a;
    assert first == Some(m);
    var ms := GlobalMatch(DefPattern, s, v, 0);
    assert ms[0] == m;
    assert Keeps(DefPattern, s, v, ranges, m);
    var painted := Painted(DefPattern, s, v, ranges);
    assert m in painted;
    var j :| 0 <= j < |painted| && painted[j] == m;
  }

  /** The word `def` before blanks and a name is neither `self`, a call, a built-in nor an assignment target. */
  lemma DefKeywordNotOverridden(s: string, v: Vocabulary, ranges: seq<(nat, nat)>, a: nat, i: nat)
    requires a < |s| && DefAt(s, a).Some? && a <= i < a + 3
    requires "def" !in v.builtins
    ensures !Covered(SelfPattern, s, v, ranges, i) && !Covered(CallPattern, s, v, ranges, i)
    ensures !Covered(BuiltinPattern, s, v, ranges, i) && !Covered(AssignPattern, s, v, ranges, i)
  {
    DefKeywordWord(s, a);
    DefKeywordNoWordRule(SelfPattern, s, v, ranges, a, i);
    DefKeywordNoWordRule(CallPattern, s, v, ranges, a, i);
    DefKeywordNoWordRule(BuiltinPattern, s, v, ranges, a, i);
    DefKeywordNoWordRule(AssignPattern, s, v, ranges, a, i);
  }

  /** The keyword of a definition match is a whole word followed by blanks and a name. */
  lemma DefKeywordWord(s: string, a: nat)
    requires a < |s| && DefAt(s, a).Some?
    ensures WordStart(s, a) && a + 3 < |s| && RunEnd(s, a, Word) == a + 3 && s[a..a + 3] == "def"
    ensures !CallFollows(s, a + 3) && !AssignFollows(s, a + 3)
  {
    DefFollowedByName(s, a);
    assert s[a] == 'd' && s[a + 1] == 'e' && s[a + 2] == 'f';
  }

  /** One of the four whole-word rules after the definition rule leaves the word `def` alone. */
  lemma DefKeywordNoWordRule(pat: Pattern, s: string, v: Vocabulary, ranges: seq<(nat, nat)>, a: nat, i: nat)
    requires pat in {SelfPattern, CallPattern, BuiltinPattern, AssignPattern}
    requires WordStart(s, a) && a + 3 < |s| && RunEnd(s, a, Word) == a + 3 && s[a..a + 3] == "def"
    requires !CallFollows(s, a + 3) && !AssignFollows(s, a + 3) && "def" !in v.builtins
    requires a <= i < a + 3
    ensures !Covered(pat, s, v, ranges, i)
  {
    assert s[a..a + 3] != "self";
    WordRuleCovers(pat, s, v, ranges, a, i);
  }

  /**
   * On the keyword of the first `def` of a line, when `def` is not a built-in
   * name, the definition format is the one left.
   */
  lemma DefWinsOnItsKeyword(s: string, v: Vocabulary, ranges: seq<(nat, nat)>, a: nat, i: nat)
    requires a < |s| && DefAt(s, a).Some? && a <= i < a + 3
    requires forall q | 0 <= q < a :: MatchAt(DefPattern, s, v, q).None?
    requires "def" !in v.builtins
    requires !InsideString(ranges, a)
    ensures LastCovering(Rules, s, v, ranges, i) == Some(FunctionFormat)
  {
    DefKeywordNotOverridden(s, v, ranges, a, i);
    FirstDefPainted(s, v, ranges, a, i);
    DefIsLastCovering(s, v, ranges, i);
  }

  /** A position the definition rule paints and no later rule paints takes the definition format. */
  lemma DefIsLastCovering(s: string, v: Vocabulary, ranges: seq<(nat, nat)>, i: nat)
    requires Covered(DefPattern, s, v, ranges, i)
    requires !Covered(SelfPattern, s, v, ranges, i) && !Covered(CallPattern, s, v, ranges, i)
    requires !Covered(BuiltinPattern, s, v, ranges, i) && !Covered(AssignPattern, s, v, ranges, i)
    ensures LastCovering(Rules, s, v, ranges, i) == Some(FunctionFormat)
  {
    DefIsLast(CoverageAt(s, v, ranges, i));
  }

  lemma DefIsLast(covered: Pattern -> bool)
    requires covered(DefPattern)
    requires !covered(AssignPattern) && !covered(BuiltinPattern) && !covered(CallPattern) && !covered(SelfPattern)
    ensures LastFormat(Rules, covered) == Some(FunctionFormat)
  {
    forall j | 2 < j < |Rules|
      ensures !covered(Rules[j])
    {
      assert Rules[j] in {AssignPattern, BuiltinPattern, CallPattern, SelfPattern};
    }
    LastFormatFrom(Rules, covered, 2);
  }

  /**
   * On a called word that is not `self`, not a keyword and not a built-in, and
   * that starts outside every string, the call rule's variable format is the one left.
   */
  lemma CallWinsOnItsWord(s: string, v: Vocabulary, ranges: seq<(nat, nat)>, a: nat, i: nat)
    requires WordStart(s, a) && a <= i < RunEnd(s, a, Word)
    requires !IsDigit(s[a]) && CallFollows(s, RunEnd(s, a, Word))
    requires s[a..RunEnd(s, a, Word)] != "self"
    requires s[a..RunEnd(s, a, Word)] !in v.keywords && s[a..RunEnd(s, a, Word)] !in v.builtins
    requires !InsideString(ranges, a)
    ensures LastCovering(Rules, s, v, ranges, i) == Some(VariableFormat)
  {
    CalledWordPainted(s, v, ranges, a, i);
    WordNotSelf(s, v, ranges, a, i);
    CallIsLastCovering(s, v, ranges, i);
  }

  /** The call rule paints every character of a called free word. */
  lemma CalledWordPainted(s: string, v: Vocabulary, ranges: seq<(nat, nat)>, a: nat, i: nat)
    requires WordStart(s, a) && a <= i < RunEnd(s, a, Word)
    requires !IsDigit(s[a]) && CallFollows(s, RunEnd(s, a, Word))
    requires s[a..RunEnd(s, a, Word)] !in v.keywords && s[a..RunEnd(s, a, Word)] !in v.builtins
    requires !InsideString(ranges, a)
    ensures Covered(CallPattern, s, v, ranges, i)
  {
    KeptWordCovered(CallPattern, s, v, ranges, a, i);
  }

  /** The `self` rule paints no character of a word other than `self`. */
  lemma WordNotSelf(s: string, v: Vocabulary, ranges: seq<(nat, nat)>, a: nat, i: nat)
    requires WordStart(s, a) && a <= i < RunEnd(s, a, Word)
    requires s[a..RunEnd(s, a, Word)] != "self"
    ensures !Covered(SelfPattern, s, v, ranges, i)
  {
    WordRuleCovers(SelfPattern, s, v, ranges, a, i);
  }

  /** A position the call rule paints and the `self` rule does not takes the variable format. */
  lemma CallIsLastCovering(s: string, v: Vocabulary, ranges: seq<(nat, nat)>, i: nat)
    requires Covered(CallPattern, s, v, ranges, i) && !Covered(SelfPattern, s, v, ranges, i)
    ensures LastCovering(Rules, s, v, ranges, i) == Some(VariableFormat)
  {
    CallIsLast(CoverageAt(s, v, ranges, i));
  }

  lemma CallIsLast(covered: Pattern -> bool)
    requires covered(CallPattern) && !covered(SelfPattern)
    ensures LastFormat(Rules, covered) == Some(VariableFormat)
  {
    assert Rules[5] == CallPattern && Rules[6] == SelfPattern;
    LastFormatFrom(Rules, covered, 5);
  }

  /** A line without quotes has no strings. */
  lemma NoQuoteNoStrings(s: string, v: Vocabulary)
    requires forall j | 0 <= j < |s| :: !IsQuote(s[j])
    ensures GlobalMatch(StringPattern, s, v, 0) == []
  {
    assert FirstMatch(StringPattern, s, v, 0).None?;
  }

  /** The scanner's view of the line `def add(a, b):`. */
  lemma DefAddScan(s: string, v: Vocabulary)
    requires s == "def add(a, b):"
    ensures DefAt(s, 0) == Some(7) && !CallFollows(s, 3) && !AssignFollows(s, 3)
    ensures WordStart(s, 4) && RunEnd(s, 4, Word) == 7 && !IsDigit(s[4]) && CallFollows(s, 7)
    ensures s[4..7] == "add"
    ensures FirstMatch(CommentPattern, s, v, 0).None? && GlobalMatch(StringPattern, s, v, 0) == []
  {
    assert FirstMatch(CommentPattern, s, v, 0).None?;
    NoQuoteNoStrings(s, v);
    assert s[3] == ' ' && s[4] == 'a' && s[7] == '(';
    assert RunEnd(s, 4, Space) == 4;
    assert RunEnd(s, 3, Space) == 4;
    assert RunEnd(s, 4, Word) == 7;
    assert RunEnd(s, 7, Space) == 7;
  }

  /** The keyword `def` of `def add(a, b):` is shown in the definition format. */
  lemma DefAddKeyword(v: Vocabulary, f: Formats, i: nat)
    requires |f| == 14 && 0 <= i < 3
    requires "def" in v.keywords && "def" !in v.builtins
    ensures Highlight("def add(a, b):", v, f)[i] == Some(FunctionFormat)
  {
    var s := "def add(a, b):";
    DefAddScan(s, v);
    var ranges := RangesOf([]);
    DefWinsOnItsKeyword(s, v, ranges, 0, i);
    HighlightAt(s, v, f, i);
  }

  /** The name `add` of `def add(a, b):` is shown in the variable format, because it is called. */
  lemma DefAddName(v: Vocabulary, f: Formats, i: nat)
    requires |f| == 14 && 4 <= i < 7
    requires "add" !in v.keywords && "add" !in v.builtins
    ensures Highlight("def add(a, b):", v, f)[i] == Some(VariableFormat)
  {
    var s := "def add(a, b):";
    DefAddScan(s, v);
    var ranges := RangesOf([]);
    CallWinsOnItsWord(s, v, ranges, 4, i);
    HighlightAt(s, v, f, i);
  }

  // ---------------------------------------------------------------------------
  // Worked lines: `result = compute(42)` and `x = "def y(): pass"`

  lemma NumberIsLast(covered: Pattern -> bool)
    requires covered(NumberPattern)
    requires !covered(DefPattern) && !covered(AssignPattern) && !covered(BuiltinPattern)
    requires !covered(CallPattern) && !covered(SelfPattern)
    ensures LastFormat(Rules, covered) == Some(NumberFormat)
  {
    forall j | 1 < j < |Rules|
      ensures !covered(Rules[j])
    {
      assert Rules[j] in {DefPattern, AssignPattern, BuiltinPattern, CallPattern, SelfPattern};
    }
    LastFormatFrom(Rules, covered, 1);
  }

  lemma AssignIsLast(covered: Pattern -> bool)
    requires covered(AssignPattern)
    requires !covered(BuiltinPattern) && !covered(CallPattern) && !covered(SelfPattern)
    ensures LastFormat(Rules, covered) == Some(VariableFormat)
  {
    forall j | 3 < j < |Rules|
      ensures !covered(Rules[j])
    {
      assert Rules[j] in {BuiltinPattern, CallPattern, SelfPattern};
    }
    LastFormatFrom(Rules, covered, 3);
  }

  /** The scanner's view of `result = compute(42)`. */
  lemma CallArgumentScan(s: string, v: Vocabulary)
    requires s == "result = compute(42)"
    ensures FirstMatch(CommentPattern, s, v, 0).None? && GlobalMatch(StringPattern, s, v, 0) == []
    ensures WordStart(s, 17) && RunEnd(s, 17, Word) == 19 && IsDigit(s[17]) && s[17..19] == "42"
    ensures MatchAt(NumberPattern, s, v, 17) == Some(19)
    ensures !IsTokenChar(s[16]) && s[17] != 'd' && s[18] != 'd' && !WordStart(s, 18)
  {
    assert FirstMatch(CommentPattern, s, v, 0).None?;
    NoQuoteNoStrings(s, v);
    assert RunEnd(s, 19, Word) == 19 && RunEnd(s, 19, Digit) == 19;
    IntegerMatch(s, 17);
  }

  /** Every match that holds a digit of `42` in `result = compute(42)` starts at the `4`. */
  lemma CallArgumentMatchStart(pat: Pattern, s: string, v: Vocabulary, m: Span, i: nat)
    requires s == "result = compute(42)" && 17 <= i < 19
    requires !pat.CommentPattern? && !pat.StringPattern?
    requires m.start < |s| && MatchAt(pat, s, v, m.start) == Some(m.End()) && m.start <= i < m.End()
    ensures m.start == 17
  {
    CallArgumentScan(s, v);
  }

  /** The number rule's scan of the line reports `42` as one match. */
  lemma CallArgumentNumberReported(s: string, v: Vocabulary)
    requires s == "result = compute(42)"
    ensures Span(17, 2) in GlobalMatch(NumberPattern, s, v, 0)
  {
    CallArgumentScan(s, v);
    var ms := GlobalMatch(NumberPattern, s, v, 0);
    GlobalMatchComplete(NumberPattern, s, v, 0, 17);
    var k :| 0 <= k < |ms| && ms[k].start <= 17 < ms[k].End();
    CallArgumentMatchStart(NumberPattern, s, v, ms[k], 17);
    assert ms[k] == Span(17, 2);
  }

  /** The number rule paints both digits of `42`. */
  lemma CallArgumentNumberCovered(s: string, v: Vocabulary, i: nat)
    requires s == "result = compute(42)" && 17 <= i < 19
    ensures Covered(NumberPattern, s, v, [], i)
  {
    CallArgumentNumberReported(s, v);
    ReportedKeptIsPainted(NumberPattern, s, v, [], Span(17, 2));
    var painted := Painted(NumberPattern, s, v, []);
    var j :| 0 <= j < |painted| && painted[j] == Span(17, 2);
  }

  /** The definition rule paints no digit of `42`. */
  lemma CallArgumentNoDef(s: string, v: Vocabulary, i: nat)
    requires s == "result = compute(42)" && 17 <= i < 19
    ensures !Covered(DefPattern, s, v, [], i)
  {
    var painted := Painted(DefPattern, s, v, []);
    forall k | 0 <= k < |painted|
      ensures !(painted[k].start <= i < painted[k].End())
    {
      PaintedSpan(DefPattern, s, v, [], painted[k]);
      if painted[k].start <= i < painted[k].End() {
        CallArgumentMatchStart(DefPattern, s, v, painted[k], i);
        CallArgumentScan(s, v);
      }
    }
  }

  /** The assignment, built-in, call and `self` rules paint no digit of `42`. */
  lemma CallArgumentNoWordRule(pat: Pattern, s: string, v: Vocabulary, i: nat)
    requires s == "result = compute(42)" && 17 <= i < 19
    requires pat in {AssignPattern, BuiltinPattern, CallPattern, SelfPattern}
    requires "42" !in v.builtins
    ensures !Covered(pat, s, v, [], i)
  {
    CallArgumentScan(s, v);
    WordRuleCovers(pat, s, v, [], 17, i);
  }

  /** In `result = compute(42)` the argument `42` is shown in the number format. */
  lemma CallArgumentNumber(v: Vocabulary, f: Formats, i: nat)
    requires |f| == 20 && 17 <= i < 19
    requires "42" !in v.builtins
    ensures Highlight("result = compute(42)", v, f)[i] == Some(NumberFormat)
  {
    var s := "result = compute(42)";
    CallArgumentScan(s, v);
    assert RangesOf([]) == [];
    CallArgumentNumberCovered(s, v, i);
    CallArgumentNoDef(s, v, i);
    CallArgumentNoWordRule(AssignPattern, s, v, i);
    CallArgumentNoWordRule(BuiltinPattern, s, v, i);
    CallArgumentNoWordRule(CallPattern, s, v, i);
    CallArgumentNoWordRule(SelfPattern, s, v, i);
    NumberIsLast(CoverageAt(s, v, [], i));
    HighlightAt(s, v, f, i);
  }

  /** The scanner's view of `x = "def y(): pass"`. */
  lemma QuotedDefScan(s: string, v: Vocabulary)
    requires s == "x = \"def y(): pass\""
    ensures forall j | 0 <= j < |s| :: s[j] != '#'
    ensures forall j | 0 <= j < 4 :: !IsQuote(s[j])
    ensures MatchAt(StringPattern, s, v, 4) == Some(19)
    ensures WordStart(s, 0) && RunEnd(s, 0, Word) == 1 && s[0..1] == "x" && !IsDigit(s[0])
    ensures AssignFollows(s, 1) && !CallFollows(s, 1)
  {
    assert |s| == 19 && s[4] == '"' && s[18] == '"';
    assert forall j | 5 <= j < 18 :: s[j] != '"';
    assert !TripleAt(s, 4, '"');
    assert FindChar(s, 5, '"') == Some(18);
    assert RunEnd(s, 1, Space) == 2;
  }

  /** The only string of `x = "def y(): pass"` runs from the opening quote to the end of the line. */
  lemma QuotedDefString(s: string, v: Vocabulary, i: nat)
    requires s == "x = \"def y(): pass\"" && 4 <= i < 19
    ensures Covers(GlobalMatch(StringPattern, s, v, 0), i)
  {
    QuotedDefScan(s, v);
    var ms := GlobalMatch(StringPattern, s, v, 0);
    GlobalMatchComplete(StringPattern, s, v, 0, 4);
    var k :| 0 <= k < |ms| && ms[k].start <= 4 < ms[k].End();
    assert IsQuote(s[ms[k].start]);
    assert ms[k] == Span(4, 15);
  }

  /** `x = "def y(): pass"`: the whole quoted text, `def` included, is shown in the string format. */
  lemma QuotedDefIsString(v: Vocabulary, f: Formats, i: nat)
    requires |f| == 19 && 4 <= i < 19
    ensures Highlight("x = \"def y(): pass\"", v, f)[i] == Some(StringFormat)
  {
    var s := "x = \"def y(): pass\"";
    QuotedDefScan(s, v);
    QuotedDefString(s, v, i);
    StringsKeepStringFormat(s, v, f, i);
  }

  /** No string of `x = "def y(): pass"` holds the `x`. */
  lemma QuotedDefTargetOutside(s: string, v: Vocabulary)
    requires s == "x = \"def y(): pass\""
    ensures !InsideString(RangesOf(GlobalMatch(StringPattern, s, v, 0)), 0)
  {
    QuotedDefScan(s, v);
    var strings := GlobalMatch(StringPattern, s, v, 0);
    forall k | 0 <= k < |strings|
      ensures !(strings[k].start <= 0 < strings[k].End())
    {
      StringStartsWithQuote(s, v, k);
    }
    InsideStringIffCovered(strings, 0);
  }

  /** The assignment rule paints the target `x` of `x = "def y(): pass"`. */
  lemma QuotedDefAssigned(s: string, v: Vocabulary, ranges: seq<(nat, nat)>)
    requires s == "x = \"def y(): pass\"" && !InsideString(ranges, 0)
    requires "x" !in v.keywords && "x" !in v.builtins
    ensures Covered(AssignPattern, s, v, ranges, 0)
  {
    QuotedDefScan(s, v);
    KeptWordCovered(AssignPattern, s, v, ranges, 0, 0);
  }

  /** The built-in, call and `self` rules leave the target `x` of `x = "def y(): pass"` alone. */
  lemma QuotedDefNoLaterRule(pat: Pattern, s: string, v: Vocabulary, ranges: seq<(nat, nat)>)
    requires s == "x = \"def y(): pass\""
    requires pat in {BuiltinPattern, CallPattern, SelfPattern}
    requires "x" !in v.builtins
    ensures !Covered(pat, s, v, ranges, 0)
  {
    QuotedDefScan(s, v);
    WordRuleCovers(pat, s, v, ranges, 0, 0);
  }

  /** `x = "def y(): pass"`: the target `x` is shown in the variable format. */
  lemma QuotedDefTarget(v: Vocabulary, f: Formats)
    requires |f| == 19
    requires "x" !in v.keywords && "x" !in v.builtins
    ensures Highlight("x = \"def y(): pass\"", v, f)[0] == Some(VariableFormat)
  {
    var s := "x = \"def y(): pass\"";
    QuotedDefScan(s, v);
    QuotedDefTargetOutside(s, v);
    var ranges := RangesOf(GlobalMatch(StringPattern, s, v, 0));
    assert FirstMatch(CommentPattern, s, v, 0).None?;
    QuotedDefAssigned(s, v, ranges);
    QuotedDefNoLaterRule(BuiltinPattern, s, v, ranges);
    QuotedDefNoLaterRule(CallPattern, s, v, ranges);
    QuotedDefNoLaterRule(SelfPattern, s, v, ranges);
    AssignIsLast(CoverageAt(s, v, ranges, 0));
    HighlightAt(s, v, f, 0);
  }
}
