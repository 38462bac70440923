/**
 * The nine regular expressions of the Python highlighter, each re-expressed as a
 * hand-written scanner with the matching semantics of QRegularExpression (PCRE2
 * without Unicode properties, so `\w`, `\d` and `\s` are ASCII classes), and the
 * two ways the highlighter runs them: `match` (first match) and `globalMatch`
 * (all matches, left to right, each search resuming where the last match ended).
 */
module Scanners {
  import opened Wrappers

  /** One match: the half-open character range [start, start + len). */
  datatype Span = Span(start: nat, len: nat) {
    function End(): nat { start + len }
  }

  /** The reserved-word and built-in-name vocabularies the keyword and built-in patterns are made from. */
  datatype Vocabulary = Vocabulary(keywords: set<string>, builtins: set<string>)

  /** The patterns built in the highlighter's constructor. */
  datatype Pattern =
    | CommentPattern   // #.*
    | StringPattern    // """.*?"""|'''(.*?)'''|"[^"]*"|'[^']*'
    | KeywordPattern   // \b(kw1|kw2|...)\b
    | NumberPattern    // \b\d+(\.\d+)?([eE][-+]?\d+)?\b|\b0x[0-9A-Fa-f]+\b|\b0b[01]+\b
    | DefPattern       // \bdef\s+(\w+)\b
    | AssignPattern    // \b(?!\d)(\w+)\b(?=\s*=\s*[^=])
    | BuiltinPattern   // \b(b1|b2|...)\b
    | CallPattern      // \b(?!\d)(\w+)\b(?=\s*\()
    | SelfPattern      // \bself\b
  {
    /** The patterns whose match is exactly one whole word. */
    predicate MatchesWord() {
      KeywordPattern? || AssignPattern? || BuiltinPattern? || CallPattern? || SelfPattern?
    }

    /** The two "variable" patterns whose word is checked against both vocabularies. */
    predicate IsVariable() {
      AssignPattern? || CallPattern?
    }
  }

  // ---------------------------------------------------------------------------
  // Character classes

  /** `\w`: an ASCII letter, digit or underscore. */
  predicate IsWordChar(c: char) {
    'a' <= c <= 'z' || 'A' <= c <= 'Z' || '0' <= c <= '9' || c == '_'
  }

  /** `\d` */
  predicate IsDigit(c: char) {
    '0' <= c <= '9'
  }

  /** `[0-9A-Fa-f]` */
  predicate IsHexDigit(c: char) {
    IsDigit(c) || 'a' <= c <= 'f' || 'A' <= c <= 'F'
  }

  /** `[01]` */
  predicate IsBinDigit(c: char) {
    c == '0' || c == '1'
  }

  /** `\s`: space, tab, line feed, vertical tab, form feed, carriage return. */
  predicate IsSpace(c: char) {
    c == ' ' || '\t' <= c <= '\r'
  }

  predicate IsQuote(c: char) {
    c == '"' || c == '\''
  }

  /** Every character a non-string, non-comment match can consist of. */
  predicate IsTokenChar(c: char) {
    IsWordChar(c) || IsSpace(c) || c == '.' || c == '+' || c == '-'
  }

  predicate AllTokenChars(s: string, a: nat, b: nat)
    requires a <= b <= |s|
  {
    forall j | a <= j < b :: IsTokenChar(s[j])
  }

  datatype CharClass = Word | Digit | Hex | Bin | Space

  predicate InClass(k: CharClass, c: char) {
    match k
    case Word => IsWordChar(c)
    case Digit => IsDigit(c)
    case Hex => IsHexDigit(c)
    case Bin => IsBinDigit(c)
    case Space => IsSpace(c)
  }

  /** The end of the longest run of class-`k` characters starting at `p` (a greedy `k*`). */
  function RunEnd(s: string, p: nat, k: CharClass): (e: nat)
    requires p <= |s|
    ensures p <= e <= |s|
    ensures forall j | p <= j < e :: InClass(k, s[j])
    ensures e == |s| || !InClass(k, s[e])
    decreases |s| - p
  {
    if p < |s| && InClass(k, s[p]) then RunEnd(s, p + 1, k) else p
  }

  /** `\b` at `p` followed by a word character: `p` starts a word. */
  predicate WordStart(s: string, p: nat) {
    p < |s| && IsWordChar(s[p]) && (p == 0 || !IsWordChar(s[p - 1]))
  }

  /** `\b` at `e` when the character before `e` is a word character. */
  predicate WordEndsAt(s: string, e: nat) {
    e == |s| || (e < |s| && !IsWordChar(s[e]))
  }

  // ---------------------------------------------------------------------------
  // Strings

  predicate TripleAt(s: string, k: nat, q: char) {
    k + 3 <= |s| && s[k] == q && s[k + 1] == q && s[k + 2] == q
  }

  /** The first `q` at or after `from`. */
  function FindChar(s: string, from: nat, q: char): (r: Option<nat>)
    requires from <= |s|
    ensures r.Some? ==> from <= r.value < |s| && s[r.value] == q
    ensures r.Some? ==> forall j | from <= j < r.value :: s[j] != q
    ensures r.None? ==> forall j | from <= j < |s| :: s[j] != q
    decreases |s| - from
  {
    if from == |s| then None
    else if s[from] == q then Some(from)
    else FindChar(s, from + 1, q)
  }

  /** The first tripled `q` at or after `from`: what the lazy `.*?` before a closing `"""` settles on. */
  function FindTriple(s: string, from: nat, q: char): (r: Option<nat>)
    requires from <= |s|
    ensures r.Some? ==> from <= r.value && TripleAt(s, r.value, q)
    ensures r.Some? ==> forall j | from <= j < r.value :: !TripleAt(s, j, q)
    ensures r.None? ==> forall j | from <= j :: !TripleAt(s, j, q)
    decreases |s| - from
  {
    if from + 3 > |s| then None
    else if TripleAt(s, from, q) then Some(from)
    else FindTriple(s, from + 1, q)
  }

  /** A tripled quote at `p` with a closing triple of the same quote somewhere after it. */
  predicate ClosedTriple(s: string, p: nat) {
    p < |s| && TripleAt(s, p, s[p]) && exists k | p + 3 <= k < |s| :: TripleAt(s, k, s[p])
  }

  /**
   * The string pattern at `p`. For the quote `q` at `p`, the tripled alternative is
   * tried first; when it has no closing triple the single alternative ends at the
   * next `q`, so that `"""abc` yields the empty string `""`.
   */
  function StringAt(s: string, p: nat): (r: Option<nat>)
    requires p < |s|
    ensures r.Some? ==> p + 2 <= r.value <= |s| && IsQuote(s[p]) && s[r.value - 1] == s[p]
    ensures IsQuote(s[p]) && (exists j | p < j < |s| :: s[j] == s[p]) ==> r.Some?
    ensures !IsQuote(s[p]) ==> r.None?
  {
    if !IsQuote(s[p]) then None
    else
      var q := s[p];
      var triple := if TripleAt(s, p, q) then FindTriple(s, p + 3, q) else None;
      if triple.Some? then Some(triple.value + 3)
      else
        match FindChar(s, p + 1, q)
        case Some(k) => Some(k + 1)
        case None => None
  }

  /**
   * Where a string ends: after the first closing triple when the opening quote is
   * tripled and a closing triple follows, otherwise at the first later quote of
   * the same kind.
   */
  lemma StringEnd(s: string, p: nat)
    requires p < |s| && IsQuote(s[p])
    ensures ClosedTriple(s, p) ==>
      StringAt(s, p).Some? && p + 6 <= StringAt(s, p).value && TripleAt(s, StringAt(s, p).value - 3, s[p]) &&
      forall k | p + 3 <= k < StringAt(s, p).value - 3 :: !TripleAt(s, k, s[p])
    ensures !ClosedTriple(s, p) && StringAt(s, p).Some? ==>
      forall j | p < j < StringAt(s, p).value - 1 :: s[j] != s[p]
  {
  }

  /** `"""abc`: without a closing triple, the first two quotes make an empty string. */
  lemma UnclosedTriple()
    ensures StringAt("\"\"\"abc", 0) == Some(2)
  {
    var s := "\"\"\"abc";
    assert !TripleAt(s, 3, '"');
    assert FindTriple(s, 3, '"').None?;
    assert FindChar(s, 1, '"') == Some(1);
  }

  /** `'''a'''`: a tripled quote with a closing triple takes the whole line. */
  lemma ClosedTripleLine()
    ensures StringAt("\'\'\'a\'\'\'", 0) == Some(7)
  {
    var s := "\'\'\'a\'\'\'";
    assert !TripleAt(s, 3, '\'') && TripleAt(s, 4, '\'');
    assert FindTriple(s, 3, '\'') == Some(4);
  }

  // ---------------------------------------------------------------------------
  // Numbers

  /** `(\.\d+)` after the digits ending at `d`, greedy. */
  function FractionEnd(s: string, d: nat): (r: Option<nat>)
    requires d <= |s|
    ensures r.Some? ==> d + 2 <= r.value <= |s| && AllTokenChars(s, d, r.value)
  {
    if d + 1 < |s| && s[d] == '.' && IsDigit(s[d + 1]) then Some(RunEnd(s, d + 1, Digit)) else None
  }

  /** `([eE][-+]?\d+)` at `b`, greedy. */
  function ExponentEnd(s: string, b: nat): (r: Option<nat>)
    requires b <= |s|
    ensures r.Some? ==> b + 2 <= r.value <= |s| && AllTokenChars(s, b, r.value)
  {
    if b < |s| && (s[b] == 'e' || s[b] == 'E') then
      var q := if b + 1 < |s| && (s[b + 1] == '+' || s[b + 1] == '-') then b + 2 else b + 1;
      if q < |s| && IsDigit(s[q]) then Some(RunEnd(s, q, Digit)) else None
    else None
  }

  /** The optional exponent after a mantissa ending at `b`, then the closing `\b`, with backtracking. */
  function MantissaEnd(s: string, b: nat): (r: Option<nat>)
    requires b <= |s|
    ensures r.Some? ==> b <= r.value <= |s| && AllTokenChars(s, b, r.value) && WordEndsAt(s, r.value)
  {
    match ExponentEnd(s, b)
    case Some(e) =>
      if WordEndsAt(s, e) then Some(e) else if WordEndsAt(s, b) then Some(b) else None
    case None =>
      if WordEndsAt(s, b) then Some(b) else None
  }

  /** `\b0x[0-9A-Fa-f]+\b` (with `marker` 'x') or `\b0b[01]+\b` (with `marker` 'b') at `p`. */
  function PrefixedEnd(s: string, p: nat, marker: char, k: CharClass): (r: Option<nat>)
    requires p < |s|
    requires (marker == 'x' && k == Hex) || (marker == 'b' && k == Bin)
    ensures r.Some? ==> p + 3 <= r.value <= |s| && AllTokenChars(s, p, r.value) && WordEndsAt(s, r.value)
  {
    if p + 2 < |s| && s[p] == '0' && s[p + 1] == marker && InClass(k, s[p + 2]) then
      var e := RunEnd(s, p + 2, k);
      if WordEndsAt(s, e) then Some(e) else None
    else None
  }

  /**
   * The number pattern at `p`. Only a maximal digit run can be followed by `\b`,
   * so the backtracking candidates are: with the fraction (then with or without
   * an exponent), without the fraction (likewise), the hexadecimal and the binary
   * alternative, in that order.
   */
  function NumberAt(s: string, p: nat): (r: Option<nat>)
    requires p < |s|
    ensures r.Some? ==> p < r.value <= |s| && IsDigit(s[p]) && AllTokenChars(s, p, r.value)
  {
    if !WordStart(s, p) || !IsDigit(s[p]) then None
    else
      var d := RunEnd(s, p, Digit);
      var withFraction := match FractionEnd(s, d)
        case Some(f) => MantissaEnd(s, f)
        case None => None;
      var decimal := if withFraction.Some? then withFraction else MantissaEnd(s, d);
      if decimal.Some? then decimal
      else
        var hex := PrefixedEnd(s, p, 'x', Hex);
        if hex.Some? then hex else PrefixedEnd(s, p, 'b', Bin)
  }

  /**
   * A number match starts a word and ends one, and a maximal digit run at the
   * start of a word that ends the word always yields a match.
   */
  lemma NumberBounds(s: string, p: nat)
    requires p < |s|
    ensures NumberAt(s, p).Some? ==> WordStart(s, p) && WordEndsAt(s, NumberAt(s, p).value)
    ensures WordStart(s, p) && IsDigit(s[p]) && WordEndsAt(s, RunEnd(s, p, Digit)) ==> NumberAt(s, p).Some?
  {
  }

  /** Digits at a word start that end a word, with no fraction after them, are matched as an integer. */
  lemma IntegerMatch(s: string, p: nat)
    requires p < |s| && WordStart(s, p) && IsDigit(s[p])
    requires var d := RunEnd(s, p, Digit); WordEndsAt(s, d) && !(d + 1 < |s| && s[d] == '.' && IsDigit(s[d + 1]))
    ensures NumberAt(s, p) == Some(RunEnd(s, p, Digit))
  {
  }

  /** Digits, a point and digits that end a word are matched with their fraction. */
  lemma FractionMatch(s: string, p: nat)
    requires p < |s| && WordStart(s, p) && IsDigit(s[p])
    requires var d := RunEnd(s, p, Digit);
      d + 1 < |s| && s[d] == '.' && IsDigit(s[d + 1]) && WordEndsAt(s, RunEnd(s, d + 1, Digit))
    ensures NumberAt(s, p) == Some(RunEnd(s, RunEnd(s, p, Digit) + 1, Digit))
  {
  }

  /**
   * A mantissa ending at `f` (the digits, with their fraction when one follows),
   * then `e` or `E`, an optional sign and digits that end a word, is matched with
   * the exponent.
   */
  lemma ExponentMatch(s: string, p: nat, f: nat, q: nat)
    requires p < |s| && WordStart(s, p) && IsDigit(s[p])
    requires var d := RunEnd(s, p, Digit);
      if d + 1 < |s| && s[d] == '.' && IsDigit(s[d + 1]) then f == RunEnd(s, d + 1, Digit) else f == d
    requires f < |s| && (s[f] == 'e' || s[f] == 'E')
    requires q == f + 1 || (q == f + 2 && f + 1 < |s| && (s[f + 1] == '+' || s[f + 1] == '-'))
    requires q < |s| && IsDigit(s[q]) && WordEndsAt(s, RunEnd(s, q, Digit))
    ensures NumberAt(s, p) == Some(RunEnd(s, q, Digit))
  {
    var d := RunEnd(s, p, Digit);
    assert ExponentEnd(s, f) == Some(RunEnd(s, q, Digit));
    assert MantissaEnd(s, f) == Some(RunEnd(s, q, Digit));
    if d + 1 < |s| && s[d] == '.' && IsDigit(s[d + 1]) {
      assert FractionEnd(s, d) == Some(f);
    } else {
      assert FractionEnd(s, d).None?;
    }
  }

  /** `1e5` is one number, exponent included. */
  lemma ExponentExample()
    ensures NumberAt("1e5", 0) == Some(3)
  {
    var s := "1e5";
    assert RunEnd(s, 0, Digit) == 1;
    ExponentMatch(s, 0, 1, 2);
  }

  /** `2.5e-3` is one number: fraction, signed exponent and all. */
  lemma SignedExponentExample()
    ensures NumberAt("2.5e-3", 0) == Some(6)
  {
    var s := "2.5e-3";
    assert RunEnd(s, 0, Digit) == 1;
    assert RunEnd(s, 2, Digit) == 3;
    assert RunEnd(s, 5, Digit) == 6;
    ExponentMatch(s, 0, 3, 5);
  }

  /** `0x` and hexadecimal digits that end a word are matched whole. */
  lemma HexMatch(s: string, p: nat)
    requires p + 2 < |s| && WordStart(s, p) && s[p] == '0' && s[p + 1] == 'x' && IsHexDigit(s[p + 2])
    requires WordEndsAt(s, RunEnd(s, p + 2, Hex))
    ensures NumberAt(s, p) == Some(RunEnd(s, p + 2, Hex))
  {
    assert RunEnd(s, p, Digit) == p + 1;
  }

  /** `0b` and binary digits that end a word are matched whole. */
  lemma BinMatch(s: string, p: nat)
    requires p + 2 < |s| && WordStart(s, p) && s[p] == '0' && s[p + 1] == 'b' && IsBinDigit(s[p + 2])
    requires WordEndsAt(s, RunEnd(s, p + 2, Bin))
    ensures NumberAt(s, p) == Some(RunEnd(s, p + 2, Bin))
  {
    assert RunEnd(s, p, Digit) == p + 1;
  }

  /** `\.\d+` from `d` to `f`. */
  predicate FractionPart(s: string, d: nat, f: nat) {
    d + 1 < f && RunOf(s, d + 1, f, Digit) && s[d] == '.'
  }

  /** `[eE][-+]?\d+` from `f` to `e`. */
  predicate ExponentPart(s: string, f: nat, e: nat) {
    f < |s| && (s[f] == 'e' || s[f] == 'E') &&
    ((f + 1 < e && RunOf(s, f + 1, e, Digit)) ||
     (f + 2 < e && RunOf(s, f + 2, e, Digit) && (s[f + 1] == '+' || s[f + 1] == '-')))
  }

  /** `\d+(\.\d+)?([eE][-+]?\d+)?` from `p` to `e`. */
  predicate DecimalLiteral(s: string, p: nat, e: nat) {
    exists d, f | p < d <= f <= e ::
      RunOf(s, p, d, Digit) && (f == d || FractionPart(s, d, f)) && (e == f || ExponentPart(s, f, e))
  }

  /** `0x[0-9A-Fa-f]+` (with `marker` 'x') or `0b[01]+` (with `marker` 'b') from `p` to `e`. */
  predicate PrefixedLiteral(s: string, p: nat, e: nat, marker: char, k: CharClass) {
    p + 2 < e && RunOf(s, p + 2, e, k) && s[p] == '0' && s[p + 1] == marker
  }

  /** One of the three literal forms of the number pattern, from `p` to `e`. */
  predicate NumberLiteral(s: string, p: nat, e: nat) {
    DecimalLiteral(s, p, e) || PrefixedLiteral(s, p, e, 'x', Hex) || PrefixedLiteral(s, p, e, 'b', Bin)
  }

  /** A literal between two word boundaries: what the `\b…\b` of the number pattern can match. */
  predicate NumberShape(s: string, p: nat, e: nat) {
    WordStart(s, p) && NumberLiteral(s, p, e) && WordEndsAt(s, e)
  }

  /** A run of class `k` from `a` is never longer than the greedy run, and stops inside it only before a class character. */
  lemma {:induction false} RunWithin(s: string, a: nat, b: nat, k: CharClass)
    requires RunOf(s, a, b, k)
    ensures b <= RunEnd(s, a, k)
    ensures b < RunEnd(s, a, k) ==> InClass(k, s[b])
    decreases b - a
  {
    if a < b {
      RunWithin(s, a + 1, b, k);
    }
  }

  /** What a successful `ExponentEnd` reads is an exponent. */
  lemma ExponentEndPart(s: string, b: nat)
    requires b <= |s| && ExponentEnd(s, b).Some?
    ensures ExponentPart(s, b, ExponentEnd(s, b).value)
  {
  }

  /** What a successful `MantissaEnd` reads is nothing or an exponent. */
  lemma MantissaEndPart(s: string, b: nat)
    requires b <= |s| && MantissaEnd(s, b).Some?
    ensures MantissaEnd(s, b).value == b || ExponentPart(s, b, MantissaEnd(s, b).value)
  {
    if ExponentEnd(s, b).Some? {
      ExponentEndPart(s, b);
    }
  }

  /** Every number match is a literal of the pattern between two word boundaries. */
  lemma NumberSound(s: string, p: nat)
    requires p < |s| && NumberAt(s, p).Some?
    ensures NumberShape(s, p, NumberAt(s, p).value)
  {
    NumberBounds(s, p);
    var e := NumberAt(s, p).value;
    var d := RunEnd(s, p, Digit);
    var fr := FractionEnd(s, d);
    if fr.Some? && MantissaEnd(s, fr.value).Some? {
      MantissaEndPart(s, fr.value);
      assert RunOf(s, p, d, Digit) && FractionPart(s, d, fr.value) && (e == fr.value || ExponentPart(s, fr.value, e));
    } else if MantissaEnd(s, d).Some? {
      MantissaEndPart(s, d);
      assert e == MantissaEnd(s, d).value;
      assert !FractionPart(s, d, d);
      assert p < d <= d <= e && RunOf(s, p, d, Digit) && (e == d || ExponentPart(s, d, e));
    } else if PrefixedEnd(s, p, 'x', Hex).Some? {
      assert PrefixedLiteral(s, p, e, 'x', Hex);
    } else {
      assert PrefixedLiteral(s, p, e, 'b', Bin);
    }
  }

  /** An exponent that ends a word is the one `ExponentEnd` reads. */
  lemma ExponentPartEnd(s: string, f: nat, e: nat)
    requires ExponentPart(s, f, e) && WordEndsAt(s, e)
    ensures ExponentEnd(s, f) == Some(e)
  {
    var q := if RunOf(s, f + 1, e, Digit) && f + 1 < e then f + 1 else f + 2;
    RunWithin(s, q, e, Digit);
  }

  /** After a mantissa ending at `b`, an optional exponent that ends a word is read by `MantissaEnd`, which reads at least as far. */
  lemma MantissaEndReaches(s: string, b: nat, e: nat)
    requires b <= e && (e == b || ExponentPart(s, b, e)) && WordEndsAt(s, e)
    ensures MantissaEnd(s, b).Some? && e <= MantissaEnd(s, b).value
  {
    if e != b {
      ExponentPartEnd(s, f := b, e := e);
    }
  }

  /** A decimal literal between word boundaries is matched, and the match reaches at least its end. */
  lemma DecimalReached(s: string, p: nat, e: nat)
    requires WordStart(s, p) && DecimalLiteral(s, p, e) && WordEndsAt(s, e)
    ensures NumberAt(s, p).Some? && e <= NumberAt(s, p).value
  {
    var d, f :| p < d <= f <= e && RunOf(s, p, d, Digit) && (f == d || FractionPart(s, d, f)) &&
      (e == f || ExponentPart(s, f, e));
    DecimalPartsReached(s, p, d, f, e);
  }

  /** `DecimalReached` for given ends `d` of the digits and `f` of the mantissa. */
  lemma DecimalPartsReached(s: string, p: nat, d: nat, f: nat, e: nat)
    requires WordStart(s, p) && p < d <= f <= e && WordEndsAt(s, e)
    requires RunOf(s, p, d, Digit) && (f == d || FractionPart(s, d, f)) && (e == f || ExponentPart(s, f, e))
    ensures NumberAt(s, p).Some? && e <= NumberAt(s, p).value
  {
    RunWithin(s, p, d, Digit);
    assert d == RunEnd(s, p, Digit);
    var fr := FractionEnd(s, d);
    if f != d {
      RunWithin(s, d + 1, f, Digit);
      assert fr == Some(f);
      MantissaEndReaches(s, f, e);
      assert NumberAt(s, p) == MantissaEnd(s, f);
    } else {
      MantissaEndReaches(s, d, e);
      if fr.Some? && MantissaEnd(s, fr.value).Some? {
        // a point follows the digits, so no exponent starts there
        assert e == d < fr.value <= MantissaEnd(s, fr.value).value;
        assert NumberAt(s, p) == MantissaEnd(s, fr.value);
      } else {
        assert NumberAt(s, p) == MantissaEnd(s, d);
      }
    }
  }

  /** A prefixed literal between word boundaries is matched whole. */
  lemma PrefixedReached(s: string, p: nat, e: nat, marker: char, k: CharClass)
    requires (marker == 'x' && k == Hex) || (marker == 'b' && k == Bin)
    requires WordStart(s, p) && PrefixedLiteral(s, p, e, marker, k) && WordEndsAt(s, e)
    ensures NumberAt(s, p) == Some(e)
  {
    assert RunEnd(s, p, Digit) == p + 1;
    assert FractionEnd(s, p + 1).None?;
    assert ExponentEnd(s, p + 1).None?;
    assert MantissaEnd(s, p + 1).None?;
    RunWithin(s, p + 2, e, k);
    assert PrefixedEnd(s, p, marker, k) == Some(e);
    if marker == 'b' {
      assert PrefixedEnd(s, p, 'x', Hex).None?;
    }
  }

  /** Every literal between two word boundaries is matched, and the match reaches at least its end. */
  lemma NumberLongest(s: string, p: nat, e: nat)
    requires p < |s| && NumberShape(s, p, e)
    ensures NumberAt(s, p).Some? && e <= NumberAt(s, p).value
  {
    if DecimalLiteral(s, p, e) {
      DecimalReached(s, p, e);
    } else if PrefixedLiteral(s, p, e, 'x', Hex) {
      PrefixedReached(s, p, e, 'x', Hex);
    } else {
      PrefixedReached(s, p, e, 'b', Bin);
    }
  }

  /**
   * The number scanner finds exactly what the pattern's backtracking finds: the
   * longest literal that starts and ends at a word boundary.
   */
  lemma NumberMatchesExactly(s: string, p: nat, e: nat)
    requires p < |s|
    ensures NumberAt(s, p) == Some(e) <==>
      NumberShape(s, p, e) && forall e' | e < e' <= |s| :: !NumberShape(s, p, e')
  {
    if NumberAt(s, p) == Some(e) {
      NumberSound(s, p);
      forall e' | e < e' <= |s|
        ensures !NumberShape(s, p, e')
      {
        if NumberShape(s, p, e') {
          NumberLongest(s, p, e');
        }
      }
    }
    if NumberShape(s, p, e) && forall e' | e < e' <= |s| :: !NumberShape(s, p, e') {
      NumberLongest(s, p, e);
      NumberSound(s, p);
    }
  }

  /** Digits running into letters, a bad hexadecimal digit, and an exponent running into a letter are no numbers. */
  lemma NotNumbers()
    ensures NumberAt("123abc", 0).None?
    ensures NumberAt("0xZZ", 0).None?
    ensures NumberAt("1e5x", 0).None?
  {
    var a, b, c := "123abc", "0xZZ", "1e5x";
    assert RunEnd(a, 0, Digit) == 3;
    assert RunEnd(b, 0, Digit) == 1;
    assert RunEnd(c, 0, Digit) == 1 && RunEnd(c, 2, Digit) == 3;
  }

  // ---------------------------------------------------------------------------
  // Definitions and words

  /** `\bdef\s+(\w+)\b` at `p`: the match covers `def`, the blanks and the name. */
  function DefAt(s: string, p: nat): (r: Option<nat>)
    requires p < |s|
    ensures r.Some? ==> p + 5 <= r.value <= |s| && s[p] == 'd' && AllTokenChars(s, p, r.value)
  {
    if WordStart(s, p) && p + 3 <= |s| && s[p..p + 3] == "def" then
      var n := RunEnd(s, p + 3, Space);
      if p + 3 < n < |s| && IsWordChar(s[n]) then Some(RunEnd(s, n, Word)) else None
    else None
  }

  /** Every character of `s[a..b]` is in class `k`. */
  predicate RunOf(s: string, a: nat, b: nat, k: CharClass) {
    a <= b <= |s| && forall j | a <= j < b :: InClass(k, s[j])
  }

  /** A run of class `k` that stops before a character outside the class is the greedy run. */
  lemma RunOfEnd(s: string, a: nat, b: nat, k: CharClass)
    requires RunOf(s, a, b, k) && (b == |s| || !InClass(k, s[b]))
    ensures RunEnd(s, a, k) == b
  {
  }

  /**
   * What `\bdef\s+(\w+)\b` demands of a match `s[p..e]`: `def` at the start of a
   * word, one or more blanks, then a word that ends at `e`.
   */
  predicate DefShape(s: string, p: nat, e: nat) {
    WordStart(s, p) && p + 3 <= |s| && s[p..p + 3] == "def" && WordEndsAt(s, e) &&
    exists n | p + 3 < n < e :: RunOf(s, p + 3, n, Space) && RunOf(s, n, e, Word)
  }

  /** The definition scanner finds exactly the matches the regular expression describes. */
  lemma DefMatchesExactly(s: string, p: nat, e: nat)
    requires p < |s|
    ensures DefAt(s, p) == Some(e) <==> DefShape(s, p, e)
  {
    if DefAt(s, p) == Some(e) {
      var n := RunEnd(s, p + 3, Space);
      assert RunOf(s, p + 3, n, Space) && RunOf(s, n, e, Word);
    }
    if DefShape(s, p, e) {
      var n :| p + 3 < n < e && RunOf(s, p + 3, n, Space) && RunOf(s, n, e, Word);
      assert IsWordChar(s[n]) && !IsSpace(s[n]);
      RunOfEnd(s, p + 3, n, Space);
      RunOfEnd(s, n, e, Word);
    }
  }

  /** A definition match is `def` at a word start, blanks, and a name that ends a word. */
  lemma DefFollowedByName(s: string, p: nat)
    requires p < |s| && DefAt(s, p).Some?
    ensures WordStart(s, p) && p + 3 < |s| && s[p..p + 3] == "def" && WordEndsAt(s, DefAt(s, p).value)
    ensures RunEnd(s, p + 3, Space) < DefAt(s, p).value && IsWordChar(s[RunEnd(s, p + 3, Space)])
  {
  }

  /** The lookahead `(?=\s*=\s*[^=])`: blanks, one `=`, then any character but `=` (a blank will do). */
  predicate AssignFollows(s: string, e: nat)
    requires e <= |s|
  {
    var x := RunEnd(s, e, Space);
    x + 1 < |s| && s[x] == '=' && s[x + 1] != '='
  }

  /** The lookahead `(?=\s*\()`. */
  predicate CallFollows(s: string, e: nat)
    requires e <= |s|
  {
    var x := RunEnd(s, e, Space);
    x < |s| && s[x] == '('
  }

  /** What a whole-word pattern demands of the word `s[p..e]`. */
  predicate WordAccepted(pat: Pattern, s: string, v: Vocabulary, p: nat, e: nat)
    requires p < e <= |s|
  {
    match pat
    case KeywordPattern => s[p..e] in v.keywords
    case BuiltinPattern => s[p..e] in v.builtins
    case SelfPattern => s[p..e] == "self"
    case AssignPattern => !IsDigit(s[p]) && AssignFollows(s, e)
    case CallPattern => !IsDigit(s[p]) && CallFollows(s, e)
    case _ => false
  }

  /** A whole-word pattern at `p`: the word starting at `p`, if the pattern accepts it. */
  function WordAt(pat: Pattern, s: string, v: Vocabulary, p: nat): (r: Option<nat>)
    requires p < |s|
    ensures r.Some? ==> WordStart(s, p) && r.value == RunEnd(s, p, Word)
    ensures r.Some? ==> p < r.value && WordAccepted(pat, s, v, p, r.value)
  {
    if WordStart(s, p) && WordAccepted(pat, s, v, p, RunEnd(s, p, Word)) then Some(RunEnd(s, p, Word))
    else None
  }

  // ---------------------------------------------------------------------------
  // The engine

  /** Where a match of `pat` that starts at `p` ends, if there is one. */
  function MatchAt(pat: Pattern, s: string, v: Vocabulary, p: nat): (r: Option<nat>)
    requires p < |s|
    ensures r.Some? ==> p < r.value <= |s|
    ensures pat.CommentPattern? ==> (r.Some? <==> s[p] == '#') && (r.Some? ==> r.value == |s|)
    ensures pat.StringPattern? ==> r == StringAt(s, p)
    ensures !pat.CommentPattern? && !pat.StringPattern? && r.Some? ==>
      IsWordChar(s[p]) && AllTokenChars(s, p, r.value)
    ensures pat.MatchesWord() && r.Some? ==>
      WordStart(s, p) && r.value == RunEnd(s, p, Word) && WordAccepted(pat, s, v, p, r.value)
  {
    match pat
    case CommentPattern => if s[p] == '#' then Some(|s|) else None
    case StringPattern => StringAt(s, p)
    case NumberPattern => NumberAt(s, p)
    case DefPattern => DefAt(s, p)
    case _ => WordAt(pat, s, v, p)
  }

  /** A whole-word pattern matches at the start of a word exactly when it accepts that word. */
  lemma WordMatchAt(pat: Pattern, s: string, v: Vocabulary, p: nat)
    requires pat.MatchesWord() && WordStart(s, p)
    ensures MatchAt(pat, s, v, p).Some? <==> WordAccepted(pat, s, v, p, RunEnd(s, p, Word))
  {
  }

  /** A match of a whole-word pattern starts a word and runs to its end. */
  lemma WordMatchShape(pat: Pattern, s: string, v: Vocabulary, p: nat)
    requires pat.MatchesWord() && p < |s| && MatchAt(pat, s, v, p).Some?
    ensures WordStart(s, p) && MatchAt(pat, s, v, p).value == RunEnd(s, p, Word)
  {
  }

  /** `QRegularExpression.match(s, from)`: the leftmost match at or after `from`. */
  function FirstMatch(pat: Pattern, s: string, v: Vocabulary, from: nat): (r: Option<Span>)
    requires from <= |s|
    ensures r.Some? ==> from <= r.value.start && 0 < r.value.len && r.value.End() <= |s|
    ensures r.Some? ==> MatchAt(pat, s, v, r.value.start) == Some(r.value.End())
    ensures r.Some? ==> forall q | from <= q < r.value.start :: MatchAt(pat, s, v, q).None?
    ensures r.None? ==> forall q | from <= q < |s| :: MatchAt(pat, s, v, q).None?
    decreases |s| - from
  {
    if from == |s| then None
    else
      match MatchAt(pat, s, v, from)
      case Some(e) => Some(Span(from, e - from))
      case None =>
        var rest := FirstMatch(pat, s, v, from + 1);
        assert forall q | from <= q < |s| && (rest.None? || q < rest.value.start) :: MatchAt(pat, s, v, q).None?;
        rest
  }

  /**
   * `QRegularExpression.globalMatch(s)` read to the end with `hasNext`/`next`:
   * each search resumes where the previous match ended.
   */
  function GlobalMatch(pat: Pattern, s: string, v: Vocabulary, from: nat): (ms: seq<Span>)
    requires from <= |s|
    ensures forall k | 0 <= k < |ms| ::
      from <= ms[k].start && 0 < ms[k].len && ms[k].End() <= |s| &&
      MatchAt(pat, s, v, ms[k].start) == Some(ms[k].End())
    ensures forall j, k | 0 <= j < k < |ms| :: ms[j].End() <= ms[k].start
    decreases |s| - from
  {
    match FirstMatch(pat, s, v, from)
    case None => []
    case Some(m) => [m] + GlobalMatch(pat, s, v, m.End())
  }

  /** Some span of `ms` contains position `p`. */
  ghost predicate Covers(ms: seq<Span>, p: nat) {
    exists k | 0 <= k < |ms| :: ms[k].start <= p < ms[k].End()
  }

  /**
   * Nothing is skipped: every position where a match could start is the start of
   * a reported match or lies inside one.
   */
  lemma {:induction false} GlobalMatchComplete(pat: Pattern, s: string, v: Vocabulary, from: nat, p: nat)
    requires from <= p < |s|
    requires MatchAt(pat, s, v, p).Some?
    ensures Covers(GlobalMatch(pat, s, v, from), p)
    decreases |s| - from
  {
    var first := FirstMatch(pat, s, v, from);
    assert first.Some?;
    var m := first.value;
    var rest := GlobalMatch(pat, s, v, m.End());
    assert GlobalMatch(pat, s, v, from) == [m] + rest;
    if p < m.End() {
      assert ([m] + rest)[0] == m;
    } else {
      GlobalMatchComplete(pat, s, v, m.End(), p);
      var k :| 0 <= k < |rest| && rest[k].start <= p < rest[k].End();
      assert ([m] + rest)[k + 1] == rest[k];
    }
  }
}
