/**
 * The per-block Python highlighter. `HighlightBlock` runs the comment
 * short-circuit, collects the string ranges and then applies seven match rules in
 * a fixed order, each `setFormat` overwriting the block's per-character format
 * buffer. `Highlight` is the same computation as a function of the text and the
 * buffer it starts from; `Winner` states independently which rule's format each
 * character ends with, and the lemmas connect the two.
 */
module Highlighter {
  import opened Wrappers
  import opened Scanners

  /** The character formats of the highlighter; colours and weights are left abstract. */
  datatype Style =
    | CommentFormat | StringFormat | KeywordFormat | NumberFormat
    | FunctionFormat | VariableFormat | BuiltinFormat | SelfFormat

  /** The format each rule paints with. */
  function FormatOf(pat: Pattern): Style {
    match pat
    case CommentPattern => CommentFormat
    case StringPattern => StringFormat
    case KeywordPattern => KeywordFormat
    case NumberPattern => NumberFormat
    case DefPattern => FunctionFormat
    case AssignPattern => VariableFormat
    case BuiltinPattern => BuiltinFormat
    case CallPattern => VariableFormat
    case SelfPattern => SelfFormat
  }

  /** A block's format buffer: one entry per character, `None` for the default format. */
  type Formats = seq<Option<Style>>

  /** `setFormat(start, len, st)`: positions [start, start + len) inside the block take `st`. */
  function Paint(f: Formats, start: nat, len: nat, st: Style): (g: Formats)
    ensures |g| == |f|
    ensures forall i | 0 <= i < |f| && start <= i < start + len :: g[i] == Some(st)
    ensures forall i | 0 <= i < |f| && !(start <= i < start + len) :: g[i] == f[i]
  {
    seq(|f|, i requires 0 <= i < |f| => if start <= i < start + len then Some(st) else f[i])
  }

  /** The spans of `ms` painted one after the other. */
  function PaintAll(f: Formats, ms: seq<Span>, st: Style): (g: Formats)
    ensures |g| == |f|
  {
    if ms == [] then f
    else
      var last := ms[|ms| - 1];
      Paint(PaintAll(f, ms[..|ms| - 1], st), last.start, last.len, st)
  }

  /** The `(capturedStart, capturedEnd)` pairs recorded for the string matches. */
  function RangesOf(ms: seq<Span>): seq<(nat, nat)> {
    seq(|ms|, k requires 0 <= k < |ms| => (ms[k].start, ms[k].End()))
  }

  /** `is_inside_string`: some recorded range holds `p`. */
  function InsideString(ranges: seq<(nat, nat)>, p: nat): (b: bool)
    ensures b <==> exists k | 0 <= k < |ranges| :: ranges[k].0 <= p < ranges[k].1
  {
    if ranges == [] then false
    else
      var rest := InsideString(ranges[1..], p);
      assert rest <==> exists k | 1 <= k < |ranges| :: ranges[k].0 <= p < ranges[k].1 by {
        if rest {
          var k :| 0 <= k < |ranges[1..]| && ranges[1..][k].0 <= p < ranges[1..][k].1;
          assert ranges[k + 1] == ranges[1..][k];
        }
        if exists k | 1 <= k < |ranges| :: ranges[k].0 <= p < ranges[k].1 {
          var k :| 1 <= k < |ranges| && ranges[k].0 <= p < ranges[k].1;
          assert ranges[1..][k - 1] == ranges[k];
        }
      }
      (ranges[0].0 <= p < ranges[0].1) || rest
  }

  /**
   * Whether a rule paints its match `m`: its start must lie outside every string
   * range, and the two variable rules also skip keywords and built-in names.
   */
  predicate Keeps(pat: Pattern, s: string, v: Vocabulary, ranges: seq<(nat, nat)>, m: Span)
    requires m.End() <= |s|
  {
    !InsideString(ranges, m.start) &&
    (pat.IsVariable() ==> s[m.start..m.End()] !in v.keywords && s[m.start..m.End()] !in v.builtins)
  }

  /**
   * A rule keeps its match exactly when no recorded string range holds the
   * match's start and, for the two variable rules, the matched word is neither a
   * keyword nor a built-in name.
   */
  lemma KeepsIff(pat: Pattern, s: string, v: Vocabulary, ranges: seq<(nat, nat)>, m: Span)
    requires m.End() <= |s|
    ensures Keeps(pat, s, v, ranges, m) <==>
      (forall k | 0 <= k < |ranges| :: !(ranges[k].0 <= m.start < ranges[k].1)) &&
      (pat.IsVariable() ==> s[m.start..m.End()] !in v.keywords && s[m.start..m.End()] !in v.builtins)
  {
  }

  /** The matches of `ms` that the rule paints, in order. */
  function Survivors(pat: Pattern, s: string, v: Vocabulary, ranges: seq<(nat, nat)>, ms: seq<Span>): (r: seq<Span>)
    requires forall k | 0 <= k < |ms| :: ms[k].End() <= |s|
    ensures forall m | m in r :: m in ms && Keeps(pat, s, v, ranges, m)
    ensures forall m | m in ms && Keeps(pat, s, v, ranges, m) :: m in r
  {
    if ms == [] then []
    else
      var init := Survivors(pat, s, v, ranges, ms[..|ms| - 1]);
      var last := ms[|ms| - 1];
      assert forall k | 0 <= k < |ms| - 1 :: ms[..|ms| - 1][k] == ms[k];
      if Keeps(pat, s, v, ranges, last) then init + [last] else init
  }

  /** The matches a rule paints on the whole line. */
  function Painted(pat: Pattern, s: string, v: Vocabulary, ranges: seq<(nat, nat)>): seq<Span> {
    Survivors(pat, s, v, ranges, GlobalMatch(pat, s, v, 0))
  }

  /** One rule's loop: paint every surviving match in the rule's format. */
  function Pass(pat: Pattern, s: string, v: Vocabulary, ranges: seq<(nat, nat)>, f: Formats): (g: Formats)
    ensures |g| == |f|
  {
    PaintAll(f, Painted(pat, s, v, ranges), FormatOf(pat))
  }

  /** The seven match rules after the string rule, in the order `highlightBlock` applies them. */
  const Rules: seq<Pattern> :=
    [KeywordPattern, NumberPattern, DefPattern, AssignPattern, BuiltinPattern, CallPattern, SelfPattern]

  /** The passes of `rules` applied one after the other, starting from `f`. */
  function Passes(rules: seq<Pattern>, s: string, v: Vocabulary, ranges: seq<(nat, nat)>, f: Formats): (g: Formats)
    ensures |g| == |f|
  {
    if rules == [] then f
    else Pass(rules[|rules| - 1], s, v, ranges, Passes(rules[..|rules| - 1], s, v, ranges, f))
  }

  /** `highlightBlock` as a function of the block's text and the format buffer it starts from. */
  function Highlight(s: string, v: Vocabulary, f: Formats): (g: Formats)
    requires |f| == |s|
    ensures |g| == |s|
    ensures FirstMatch(CommentPattern, s, v, 0).Some? ==>
      var c := FirstMatch(CommentPattern, s, v, 0).value.start;
      s[c] == '#' && (forall i | 0 <= i < c :: s[i] != '#' && g[i] == f[i]) &&
      forall i | c <= i < |s| :: g[i] == Some(CommentFormat)
  {
    match FirstMatch(CommentPattern, s, v, 0)
    case Some(c) =>
      assert forall i | 0 <= i < c.start :: MatchAt(CommentPattern, s, v, i).None? && s[i] != '#';
      Paint(f, c.start, c.len, CommentFormat)
    case None =>
      var strings := GlobalMatch(StringPattern, s, v, 0);
      Passes(Rules, s, v, RangesOf(strings), PaintAll(f, strings, StringFormat))
  }

  /** A match the rule keeps is among the rule's survivors. */
  lemma SurvivorKept(pat: Pattern, s: string, v: Vocabulary, ranges: seq<(nat, nat)>, ms: seq<Span>, m: Span)
    requires forall k | 0 <= k < |ms| :: ms[k].End() <= |s|
    requires m in ms && m.End() <= |s| && Keeps(pat, s, v, ranges, m)
    ensures m in Survivors(pat, s, v, ranges, ms)
  {
  }

  lemma SurvivorsStep(pat: Pattern, s: string, v: Vocabulary, ranges: seq<(nat, nat)>, ms: seq<Span>, i: nat)
    requires i < |ms|
    requires forall k | 0 <= k < |ms| :: ms[k].End() <= |s|
    ensures Survivors(pat, s, v, ranges, ms[..i + 1]) ==
      if Keeps(pat, s, v, ranges, ms[i]) then Survivors(pat, s, v, ranges, ms[..i]) + [ms[i]]
      else Survivors(pat, s, v, ranges, ms[..i])
  {
    assert ms[..i + 1][..i] == ms[..i];
  }

  /** The passes of the first `k` rules are the passes of the first `k - 1` followed by rule `k`. */
  lemma PassesPrefix(rules: seq<Pattern>, k: nat, s: string, v: Vocabulary, ranges: seq<(nat, nat)>, f: Formats)
    requires 0 < k <= |rules|
    ensures Passes(rules[..k], s, v, ranges, f) == Pass(rules[k - 1], s, v, ranges, Passes(rules[..k - 1], s, v, ranges, f))
  {
    assert rules[..k][..k - 1] == rules[..k - 1];
  }

  /** `Passes(Rules, ...)` written out as the seven passes in their order. */
  lemma RulesInOrder(s: string, v: Vocabulary, ranges: seq<(nat, nat)>, f: Formats)
    ensures Passes(Rules, s, v, ranges, f) ==
      Pass(SelfPattern, s, v, ranges,
      Pass(CallPattern, s, v, ranges,
      Pass(BuiltinPattern, s, v, ranges,
      Pass(AssignPattern, s, v, ranges,
      Pass(DefPattern, s, v, ranges,
      Pass(NumberPattern, s, v, ranges,
      Pass(KeywordPattern, s, v, ranges, f)))))))
  {
    var g0 := Passes(Rules[..0], s, v, ranges, f);
    assert g0 == f;
    PassesPrefix(Rules, 1, s, v, ranges, f);
    PassesPrefix(Rules, 2, s, v, ranges, f);
    PassesPrefix(Rules, 3, s, v, ranges, f);
    PassesPrefix(Rules, 4, s, v, ranges, f);
    PassesPrefix(Rules, 5, s, v, ranges, f);
    PassesPrefix(Rules, 6, s, v, ranges, f);
    PassesPrefix(Rules, 7, s, v, ranges, f);
    assert Rules[..7] == Rules;
  }

  /** One more match of a rule loop: painted in the rule's format when the rule keeps it. */
  lemma PaintSurvivorsStep(pat: Pattern, s: string, v: Vocabulary, ranges: seq<(nat, nat)>, ms: seq<Span>, i: nat,
                           f: Formats)
    requires i < |ms|
    requires forall k | 0 <= k < |ms| :: ms[k].End() <= |s|
    ensures PaintAll(f, Survivors(pat, s, v, ranges, ms[..i + 1]), FormatOf(pat)) ==
      var g := PaintAll(f, Survivors(pat, s, v, ranges, ms[..i]), FormatOf(pat));
      if Keeps(pat, s, v, ranges, ms[i]) then Paint(g, ms[i].start, ms[i].len, FormatOf(pat)) else g
  {
    SurvivorsStep(pat, s, v, ranges, ms, i);
    if Keeps(pat, s, v, ranges, ms[i]) {
      PaintAllStep(f, Survivors(pat, s, v, ranges, ms[..i]), ms[i], FormatOf(pat));
    }
  }

  lemma PaintAllStep(f: Formats, ms: seq<Span>, m: Span, st: Style)
    ensures PaintAll(f, ms + [m], st) == Paint(PaintAll(f, ms, st), m.start, m.len, st)
  {
    assert (ms + [m])[..|ms|] == ms;
  }

  // ---------------------------------------------------------------------------
  // The imperative highlighter

  /** Qt's `setFormat`: overwrite the formats of [start, start + len), clipped to the block. */
  method SetFormat(fmt: array<Option<Style>>, start: nat, len: nat, st: Style)
    modifies fmt
    ensures fmt[..] == Paint(old(fmt[..]), start, len, st)
  {
    forall i | 0 <= i < fmt.Length && start <= i < start + len {
      fmt[i] := Some(st);
    }
  }

  /** One of the seven rule loops: walk the rule's matches and paint those that survive. */
  method ApplyRule(pat: Pattern, s: string, v: Vocabulary, ranges: seq<(nat, nat)>, fmt: array<Option<Style>>)
    modifies fmt
    ensures fmt[..] == Pass(pat, s, v, ranges, old(fmt[..]))
  {
    var matches := GlobalMatch(pat, s, v, 0);
    PaintSurvivors(pat, s, v, ranges, matches, fmt);
  }

  /** The body of a rule loop over the matches `matches`: paint each match the rule keeps. */
  method PaintSurvivors(pat: Pattern, s: string, v: Vocabulary, ranges: seq<(nat, nat)>, matches: seq<Span>,
                        fmt: array<Option<Style>>)
    requires forall k | 0 <= k < |matches| :: matches[k].End() <= |s|
    modifies fmt
    ensures fmt[..] == PaintAll(old(fmt[..]), Survivors(pat, s, v, ranges, matches), FormatOf(pat))
  {
    ghost var f0 := fmt[..];
    var i := 0;
    while i < |matches|
      invariant 0 <= i <= |matches|
      invariant fmt[..] == PaintAll(f0, Survivors(pat, s, v, ranges, matches[..i]), FormatOf(pat))
    {
      var m := matches[i];
      PaintSurvivorsStep(pat, s, v, ranges, matches, i, f0);
      if Keeps(pat, s, v, ranges, m) {
        SetFormat(fmt, m.start, m.len, FormatOf(pat));
      }
      i := i + 1;
    }
    assert matches[..|matches|] == matches;
  }

  /** The string loop of `highlightBlock`: paint every string match and record its range. */
  method PaintStrings(strings: seq<Span>, fmt: array<Option<Style>>) returns (ranges: seq<(nat, nat)>)
    modifies fmt
    ensures fmt[..] == PaintAll(old(fmt[..]), strings, StringFormat)
    ensures ranges == RangesOf(strings)
  {
    ghost var f0 := fmt[..];
    ranges := [];
    var i := 0;
    while i < |strings|
      invariant 0 <= i <= |strings|
      invariant fmt[..] == PaintAll(f0, strings[..i], StringFormat)
      invariant ranges == RangesOf(strings[..i])
    {
      assert strings[..i + 1] == strings[..i] + [strings[i]];
      PaintAllStep(f0, strings[..i], strings[i], StringFormat);
      SetFormat(fmt, strings[i].start, strings[i].len, StringFormat);
      ranges := ranges + [(strings[i].start, strings[i].End())];
      i := i + 1;
    }
    assert strings[..|strings|] == strings;
  }

  /** The seven rule loops of `highlightBlock`, in their order. */
  method ApplyRules(s: string, v: Vocabulary, ranges: seq<(nat, nat)>, fmt: array<Option<Style>>)
    modifies fmt
    ensures fmt[..] == Passes(Rules, s, v, ranges, old(fmt[..]))
  {
    RulesInOrder(s, v, ranges, fmt[..]);
    ApplyRule(KeywordPattern, s, v, ranges, fmt);
    ApplyRule(NumberPattern, s, v, ranges, fmt);
    ApplyRule(DefPattern, s, v, ranges, fmt);
    ApplyRule(AssignPattern, s, v, ranges, fmt);
    ApplyRule(BuiltinPattern, s, v, ranges, fmt);
    ApplyRule(CallPattern, s, v, ranges, fmt);
    ApplyRule(SelfPattern, s, v, ranges, fmt);
  }

  /** `highlightBlock(text)` on the block's format buffer `fmt`. */
  method HighlightBlock(s: string, v: Vocabulary, fmt: array<Option<Style>>)
    requires fmt.Length == |s|
    modifies fmt
    ensures fmt[..] == Highlight(s, v, old(fmt[..]))
  {
    var comment := FirstMatch(CommentPattern, s, v, 0);
    if comment.Some? {
      SetFormat(fmt, comment.value.start, comment.value.len, CommentFormat);
      return;
    }
    var strings := GlobalMatch(StringPattern, s, v, 0);
    var ranges := PaintStrings(strings, fmt);
    ApplyRules(s, v, ranges, fmt);
  }
}
