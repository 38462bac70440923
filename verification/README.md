# Qwerty editor core, modelled in Dafny

Qwerty is a small PyQt5 code editor. This project models the three pieces of its
logic that are more than widget glue, and proves what they promise.

- **The per-line Python highlighter** (`PythonHighlighter.highlightBlock`).
  - A line is a `string`; the block's formats are an `array<Option<Style>>` of the same length.
  - The nine regular expressions become hand-written scanners over ASCII character classes. Each scanner says where a match that starts at a position ends (`Scanners.MatchAt`).
  - `QRegularExpression.match` and `globalMatch` become `FirstMatch` and `GlobalMatch`: the leftmost match, and left-to-right non-overlapping matches.
  - Keyword and built-in names are parameters (`Vocabulary`).
  - `HighlightBlock` is the imperative method: the comment short-circuit, the string loop that records ranges, then seven rule loops, each painting with Qt's `setFormat`.
  - The method is proved equal to the function `Highlight`. All properties are stated about `Highlight`. The central one is `HighlightAt`: each character ends with the format of the last rule that paints it (`Winner`), or keeps its old format.
- **The line-number gutter** (`CodeEditor`).
  - The gutter width: ten pixels plus one `9` advance per digit of the block count.
  - The paint loop that walks the blocks from the first visible one and draws the 1-based numbers of the blocks that reach the repaint rectangle. It is a method, proved equal to the function `Walk`.
  - The reaction to an update request: scroll by `dy`, or repaint.
- **The editor window's decision rules** (`TextEditorApp`).
  - The Ctrl+Plus/Equal/Minus font shortcuts, with a floor of 8 points.
  - The `.py` gates for installing the highlighter and for running a file.
  - The choice of a parent directory for new entries, with POSIX `dirname`.
  - How opening and saving move the window's current file. The window is the class `EditorApp`, whose methods update its fields.

Modules: `Wrappers` (Option), `Scanners` (patterns and the match engine),
`Highlighter` (formats, the function model and the imperative highlighter),
`HighlighterProperties` (precedence, comments, strings, vocabulary, examples),
`EditorArea` (gutter) and `Qwerty` (window).

A highlighter, once installed, stays: opening a non-`.py` file installs no new one and never removes an earlier one (qwerty.py:146-147). `EditorApp.OpenFile` keeps `highlighterInstalled` once it is set.

## Model

| member | source | states |
|---|---|---|
| Scanners.RunEnd | highlighter.py:41-50 | a greedy `k*` run: every character up to the end is in the class, and the next one is not |
| Scanners.StringAt | highlighter.py:43 | a string match starts on a quote and ends on the same quote, at least two characters long; it exists whenever that quote recurs later on the line; no match starts elsewhere |
| Scanners.StringEnd | highlighter.py:43 | where a string ends: after an opening triple quote that is closed later, at the first closing triple; otherwise at the first later occurrence of the same quote |
| Scanners.UnclosedTriple | highlighter.py:43 | on `"""abc` the match is only the empty string `""` |
| Scanners.ClosedTripleLine | highlighter.py:43 | on `'''a'''` the match is the whole line |
| Scanners.NumberAt | highlighter.py:44 | a number match starts on a digit and spans only characters that are word characters, blanks, `.`, `+` or `-` |
| Scanners.NumberBounds | highlighter.py:44 | a number match begins at a word start and ends at a word end; a digit run at a word start that ends a word always matches |
| Scanners.IntegerMatch | highlighter.py:44 | digits at a word start that end a word, with no `.digit` after them, match exactly those digits |
| Scanners.FractionMatch | highlighter.py:44 | `digits.digits` at a word start, ending a word, matches through the fraction's digits |
| Scanners.ExponentMatch | highlighter.py:44 | digits at a word start, with their fraction when one follows, then `e` or `E`, an optional sign and digits that end a word, match through the exponent's digits |
| Scanners.ExponentExample | highlighter.py:44 | `1e5` is one number match of length 3 |
| Scanners.SignedExponentExample | highlighter.py:44 | `2.5e-3` is one number match of length 6: fraction and signed exponent included |
| Scanners.HexMatch | highlighter.py:44 | `0x` followed by hex digits that end a word matches the whole literal |
| Scanners.BinMatch | highlighter.py:44 | `0b` followed by binary digits that end a word matches the whole literal |
| Scanners.NumberSound | highlighter.py:44 | every number match is a literal of the pattern (digits with an optional `.digits` and an optional `[eE][-+]?digits`, or `0x` and hex digits, or `0b` and binary digits) that starts a word and ends one |
| Scanners.DecimalReached | highlighter.py:44 | a decimal literal between word boundaries always yields a match that reaches at least its end |
| Scanners.PrefixedReached | highlighter.py:44 | a hexadecimal or binary literal between word boundaries is matched whole |
| Scanners.NumberLongest | highlighter.py:44 | every literal of the pattern between word boundaries yields a match at least as long |
| Scanners.NumberMatchesExactly | highlighter.py:44 | the number scanner returns `e` exactly when `s[p..e]` is a literal of the pattern between word boundaries and no longer one exists: the pattern's backtracking always ends on the longest |
| Scanners.NotNumbers | highlighter.py:44 | `123abc`, `0xZZ` and `1e5x` hold no number match at their start |
| Scanners.DefAt | highlighter.py:47 | a `def` match starts on `d`, is at least `def x` long, and holds no quote |
| Scanners.DefMatchesExactly | highlighter.py:47 | `def` matches from `p` to `e` exactly when `p` starts a word with `def`, one or more blanks follow, and then a word runs to `e`, where a word ends |
| Scanners.DefFollowedByName | highlighter.py:47 | a `def` match starts a word with `def` and ends at a word end, and a word character follows the blanks after `def` |
| Scanners.WordAt | highlighter.py:41-50 | a whole-word match is exactly the maximal word at a word start, and the pattern accepts it (vocabulary membership, `self`, or the `=`/`(` lookahead without a leading digit) |
| Scanners.MatchAt | highlighter.py:41-50 | the comment matches from a `#` to the end of the line; a string is `StringAt`; every other match starts on a word character and holds no quote; word patterns match maximal words they accept |
| Scanners.FirstMatch | highlighter.py:56-57 | the leftmost match at or after `from`: no position in between matches, and `None` only when no position matches |
| Scanners.GlobalMatch | highlighter.py:63-65 | every reported span is a match of the pattern at its start; the spans are in order and do not overlap |
| Scanners.GlobalMatchComplete | highlighter.py:63-65 | nothing is skipped: every position where a match could start lies inside a reported span |
| Highlighter.InsideString | highlighter.py:69-71 | `is_inside_string(p)` holds exactly when some recorded range has `start <= p < end` |
| Highlighter.Survivors | highlighter.py:73-122 | a rule paints exactly those of its matches that start outside every string, and, for the two variable rules, whose word is neither a keyword nor a built-in |
| Highlighter.RulesInOrder | highlighter.py:73-122 | the folded list of passes is the seven rule loops in source order: keyword, number, def, assignment, built-in, call, self |
| Highlighter.Paint | highlighter.py:66 | `setFormat` as a value: `[start, start+len)` takes the style, clipped to the block, and every other position keeps its format |
| Highlighter.KeepsIff | highlighter.py:77 | a rule keeps a match exactly when no recorded string range holds its start and, for the two variable rules, the word is neither a keyword nor a built-in (highlighter.py:99, 114) |
| Highlighter.Highlight | highlighter.py:52-122 | the formats keep the line's length; when the line holds a `#`, every character before the first `#` keeps its format and every character from it on takes the comment format |
| Highlighter.SetFormat | highlighter.py:66 | `setFormat` overwrites `[start, start+len)`, clipped to the block, and nothing else |
| Highlighter.ApplyRule | highlighter.py:74-78 | one rule loop paints every surviving match, in order, in the rule's format |
| Highlighter.PaintSurvivors | highlighter.py:75-78 | the body of a rule loop over a given match list leaves the buffer painted by exactly the kept matches, in order |
| Highlighter.PaintSurvivorsStep | highlighter.py:76-78 | one more match changes the painted buffer only when the rule keeps it, and then by painting that match in the rule's format |
| Highlighter.PassesPrefix | highlighter.py:73-122 | the passes of the first `k` rules are the first `k - 1` passes followed by rule `k` |
| Highlighter.PaintStrings | highlighter.py:62-67 | the string loop paints every string match in string format and records exactly their `(start, end)` ranges |
| Highlighter.ApplyRules | highlighter.py:73-122 | the seven rule loops together compute the passes of `Rules` on the buffer |
| Highlighter.HighlightBlock | highlighter.py:52-122 | the buffer after `highlightBlock` is `Highlight` of the text and the buffer before it |
| HighlighterProperties.LastFormatIs | highlighter.py:73-122 | the last-writer format is `None` exactly when no rule applies, and otherwise the format of a rule that applies |
| HighlighterProperties.LastCoveringIs | highlighter.py:73-122 | the last covering rule names the format of a rule that paints the position; `None` exactly when no rule does |
| HighlighterProperties.PaintAllAt | highlighter.py:64-66 | painting spans one after another: a covered position has the painted style, any other keeps its format |
| HighlighterProperties.InsideStringIffCovered | highlighter.py:62-71 | a position is inside a recorded range exactly when a string match covers it |
| HighlighterProperties.PassesAt | highlighter.py:73-122 | after several rule loops, a position has the format of the last rule that paints it, or keeps its old format |
| HighlighterProperties.HighlightAt | highlighter.py:52-122 | precedence: every character ends with the comment format from the first `#` on; otherwise with the last painting rule's format, else the string format inside a string, else its old format |
| HighlighterProperties.CommentShortCircuit | highlighter.py:56-59 | with the first `#` at `c`, exactly `[c, end)` takes the comment format and every other character keeps its format |
| HighlighterProperties.CommentInsideQuotes | highlighter.py:42 | `x = "#"` gets the comment format on `[5, 7)` only, although the `#` is between quotes |
| HighlighterProperties.PaintedSpan | highlighter.py:77 | a painted span is a match of its rule that the rule keeps |
| HighlighterProperties.PaintedWord | highlighter.py:77 | a span painted by a whole-word rule is a maximal word that the rule accepts and keeps |
| HighlighterProperties.StringStartsWithQuote | highlighter.py:43 | every string match starts on a quote |
| HighlighterProperties.TokensAvoidString | highlighter.py:77 | a quote-free match that starts outside a string cannot reach into it |
| HighlighterProperties.PaintedAvoidsString | highlighter.py:77 | no painted match of a non-string rule shares a character with a string |
| HighlighterProperties.NotCoveredInString | highlighter.py:73-122 | no rule after the strings paints a character inside a string, although the guard looks only at where a match starts |
| HighlighterProperties.StringsKeepStringFormat | highlighter.py:61-67 | on a line without `#`, every character of a string ends in the string format |
| HighlighterProperties.PaintedVariableIsFree | highlighter.py:99 | a character painted by a variable rule lies in a whole word with no leading digit that is neither a keyword nor a built-in |
| HighlighterProperties.VariableFormatOnlyOnFreeWords | highlighter.py:95-115 | the variable format is only ever given to such free words |
| HighlighterProperties.VariableFormatRules | highlighter.py:95-115 | exactly the assignment and call rules paint in the variable format |
| HighlighterProperties.VariableWinnerIsFree | highlighter.py:95-115 | when the variable format wins a character, that character lies in a free word |
| HighlighterProperties.NotCoveredWithoutWords | highlighter.py:73-122 | without word characters on the line, no rule after the strings paints anything |
| HighlighterProperties.PlainLineUntouched | highlighter.py:52-122 | a line with no `#`, no quote and no word character leaves every format unchanged |
| HighlighterProperties.HighlightTwice | highlighter.py:62-71 | no state is kept between calls: highlighting the highlighted block again changes nothing |
| HighlighterProperties.ComparisonIsNotAssignment | highlighter.py:46 | in `x == y` the assignment rule finds no match |
| HighlighterProperties.AssignmentTarget | highlighter.py:46 | in `x = 1` the assignment rule matches exactly the word `x` |
| HighlighterProperties.SameWord | highlighter.py:41-50 | two word starts whose maximal words share a character are the same |
| HighlighterProperties.CoveringWordMatch | highlighter.py:41-50 | a painted match of a whole-word rule that holds a character is the word around it |
| HighlighterProperties.MatchedWordReported | highlighter.py:63-65 | a whole-word match at a word start is among the matches `globalMatch` reports |
| HighlighterProperties.MatchedWordPainted | highlighter.py:77 | a kept whole-word match at a word start is painted |
| HighlighterProperties.CoveredWordKept | highlighter.py:77 | a character a whole-word rule paints lies in a word the rule matches and keeps |
| HighlighterProperties.KeptWordCovered | highlighter.py:77 | every character of a matched and kept word is painted by the rule |
| HighlighterProperties.WordRuleCovers | highlighter.py:73-122 | a whole-word rule paints a character exactly when it matches and keeps the word around it |
| HighlighterProperties.LastFormatFrom | highlighter.py:73-122 | when rule `k` applies and no later rule does, rule `k`'s format is the last writer |
| HighlighterProperties.LastCoveringFrom | highlighter.py:73-122 | when rule `k` paints a position and no later rule does, the position gets rule `k`'s format |
| HighlighterProperties.FirstDefPainted | highlighter.py:88-92 | the first `def` match of a line, starting outside strings, is painted over its whole length |
| HighlighterProperties.DefKeywordWord | highlighter.py:47 | the `def` of a def match is a three-letter word followed by neither `=` nor `(` |
| HighlighterProperties.DefKeywordNoWordRule | highlighter.py:95-122 | each of the assignment, built-in, call and `self` rules leaves the `def` of a def match unpainted |
| HighlighterProperties.DefKeywordNotOverridden | highlighter.py:95-122 | on `def` before a name, the assignment, built-in, call and `self` rules paint nothing |
| HighlighterProperties.DefIsLast | highlighter.py:87-122 | with the def rule applying and none of the four later rules, the function format is the last writer |
| HighlighterProperties.DefIsLastCovering | highlighter.py:87-122 | the same fact for the rules that paint a position |
| HighlighterProperties.DefWinsOnItsKeyword | highlighter.py:87-92 | on the keyword of a line's first `def`, the function format wins over the keyword format |
| HighlighterProperties.CalledWordPainted | highlighter.py:109-115 | the call rule paints every character of a called free word outside strings |
| HighlighterProperties.WordNotSelf | highlighter.py:118-122 | the `self` rule paints no character of a word other than `self` |
| HighlighterProperties.CallIsLast | highlighter.py:109-122 | with the call rule applying and the `self` rule not, the variable format is the last writer |
| HighlighterProperties.CallIsLastCovering | highlighter.py:109-122 | the same fact for the rules that paint a position |
| HighlighterProperties.CallWinsOnItsWord | highlighter.py:109-115 | on a called free word, the variable format wins, also over the function format of a `def` name |
| HighlighterProperties.NoQuoteNoStrings | highlighter.py:43 | a line without quotes has no string matches |
| HighlighterProperties.DefAddScan | highlighter.py:44-49 | the scanners' view of `def add(a, b):`: `def add` is a def match, `add` is a called word, `def` is neither called nor assigned |
| HighlighterProperties.DefAddKeyword | highlighter.py:87-92 | in `def add(a, b):`, `def` ends in the function format, not the keyword format |
| HighlighterProperties.DefAddName | highlighter.py:109-115 | in `def add(a, b):`, `add` ends in the variable format, overriding the function format |
| HighlighterProperties.NumberIsLast | highlighter.py:80-122 | with the number rule applying and no later rule, the number format is the last writer |
| HighlighterProperties.AssignIsLast | highlighter.py:95-122 | with the assignment rule applying and none of the built-in, call or `self` rules, the variable format is the last writer |
| HighlighterProperties.CallArgumentScan | highlighter.py:42-49 | the scanners' view of `result = compute(42)`: no comment, no string, and `42` is a number match that is a whole word |
| HighlighterProperties.CallArgumentMatchStart | highlighter.py:44-49 | in `result = compute(42)`, any non-comment, non-string match that holds a digit of `42` starts at the `4` |
| HighlighterProperties.CallArgumentNumberReported | highlighter.py:80-82 | `globalMatch` of the number rule reports `42` as one match |
| HighlighterProperties.CallArgumentNumberCovered | highlighter.py:80-85 | the number rule paints both digits of `42` |
| HighlighterProperties.CallArgumentNoDef | highlighter.py:87-92 | the def rule paints no digit of `42` |
| HighlighterProperties.CallArgumentNoWordRule | highlighter.py:95-122 | the assignment, built-in, call and `self` rules paint no digit of `42` |
| HighlighterProperties.CallArgumentNumber | highlighter.py:52-122 | in `result = compute(42)`, both digits of `42` end in the number format |
| HighlighterProperties.QuotedDefScan | highlighter.py:42-49 | the scanners' view of `x = "def y(): pass"`: no `#`, one string from the quote to the end of the line, and `x` is a word followed by `=` and not by `(` |
| HighlighterProperties.QuotedDefString | highlighter.py:63-66 | the string rule covers every character from the opening quote on |
| HighlighterProperties.QuotedDefIsString | highlighter.py:61-122 | in `x = "def y(): pass"`, the quoted text, `def` included, ends in the string format |
| HighlighterProperties.QuotedDefTargetOutside | highlighter.py:69-71 | no recorded string range holds the `x` |
| HighlighterProperties.QuotedDefAssigned | highlighter.py:95-99 | the assignment rule paints the target `x` |
| HighlighterProperties.QuotedDefNoLaterRule | highlighter.py:102-122 | the built-in, call and `self` rules leave the `x` alone |
| HighlighterProperties.QuotedDefTarget | highlighter.py:52-122 | in `x = "def y(): pass"`, the target `x` ends in the variable format |
| EditorArea.LineNumberWidth | editorarea.py:33-35 | the width is `10 + w9 * len(str(n))`: the `max(1, ...)` never applies because `str(n)` has a digit; with `w9 >= 0` it is at least `10 + w9` |
| EditorArea.Pow10Order | editorarea.py:34 | powers of ten are ordered as their exponents |
| EditorArea.Decimal | editorarea.py:34 | `str(n)` is at least one digit long, all decimal digits, with no leading zero |
| EditorArea.DecimalRoundTrip | editorarea.py:34 | reading the digits of `str(n)` back gives `n` |
| EditorArea.DecimalLength | editorarea.py:34 | `str(n)` has as many characters as `n` has decimal digits: `10^(len-1) <= n < 10^len` |
| EditorArea.DecimalLengthIn | editorarea.py:34 | a block count in `[10^(d-1), 10^d)` has `d` digits |
| EditorArea.DecimalLengthMonotone | editorarea.py:34 | more blocks never means fewer digits |
| EditorArea.WidthInDecade | editorarea.py:33-35 | for a block count with `d` digits, the width is `10 + w9 * d` |
| EditorArea.WidthOf1234 | editorarea.py:33-35 | 1234 blocks give a width of `10 + 4 * w9` |
| EditorArea.WidthMonotone | editorarea.py:33-35 | the width is at least `10 + w9` and never decreases as the block count grows |
| EditorArea.Walk | editorarea.py:71-80 | the drawn numbers are above the first block number and strictly increasing |
| EditorArea.PaintLineNumbers | editorarea.py:66-80 | the paint loop draws exactly the labels of `Walk` from the first visible block |
| EditorArea.WalkLabels | editorarea.py:71-80 | label `(n, y)` is drawn exactly when block `k = n - first - 1` is reached before the walk stops, is visible, and its bottom reaches the rectangle's top; and `y` is that block's top, the sum of the earlier heights |
| EditorArea.WalkShift | editorarea.py:54-80 | moving the blocks and the rectangle by `dy` draws the same numbers, each `dy` further down |
| EditorArea.OnUpdateRequest | editorarea.py:54-59 | a nonzero `dy` scrolls the gutter by `(0, dy)`; `dy = 0` repaints it |
| Qwerty.FontDelta | qwerty.py:101-108 | exactly Control with `+` or `=` on a key press asks for +2 and exactly Control with `-` asks for -2; nothing else asks for a change |
| Qwerty.ShiftedPlusPassesThrough | qwerty.py:101 | the modifier test is exact: Ctrl+Shift with `+` is not handled |
| Qwerty.NewPointSize | qwerty.py:113 | the new size is `max(8, current + change)`: never below 8, and `current + change` whenever that is at least 8 |
| Qwerty.GrowThenShrink | qwerty.py:113 | growing then shrinking gives back any size of at least 8 |
| Qwerty.ShrinkAtFloor | qwerty.py:113 | from 10 or less, shrinking gives 8 and stays at 8 |
| Qwerty.IsPythonPath | qwerty.py:118 | `endswith(".py")` holds exactly when the path is some stem followed by `.py` (the same test gates the highlighter at qwerty.py:146) |
| Qwerty.PythonSuffix | qwerty.py:146 | a path ending in `.py` passes the gate and one ending in `.txt` does not |
| Qwerty.RunDecision | qwerty.py:118-121 | the file is launched exactly when its path ends in `.py`, as `python "<path>"`; otherwise the warning is shown |
| Qwerty.HeadLength | qwerty.py:268 | the head of a path ends in its last `/`, and no `/` follows it |
| Qwerty.StripTrailingSlashes | qwerty.py:268 | the result is a prefix that does not end in `/`; only slashes were removed |
| Qwerty.Dirname | qwerty.py:268 | `dirname` is a prefix of the head (the path up to its last `/`); it is empty exactly when the path has no `/`; only slashes lie between it and the end of the head; if it ends in `/` it is all slashes; when the head is all slashes it is the whole head (`//x` gives `//`) |
| Qwerty.DirnameDetermined | qwerty.py:268 | those clauses determine `dirname`: any string meeting them all is `Dirname(p)` |
| Qwerty.DirnameSlashHead | qwerty.py:268 | `dirname` of `//x` is `//` |
| Qwerty.DirnameAtRoot | qwerty.py:268 | `dirname` of `/name` is `/` |
| Qwerty.DirnameDoubleSlash | qwerty.py:268 | `dirname` of `a//b` is `a` |
| Qwerty.DirnameOfJoin | qwerty.py:268 | `dirname` of `dir/name` is `dir` for a slash-free name and a non-empty directory not ending in `/` |
| Qwerty.JoinIndex | qwerty.py:268 | the characters after `dir/` in `dir/name` are those of `name` |
| Qwerty.HeadOfJoin | qwerty.py:268 | the head of `dir/name` is `dir/` when `name` holds no `/` |
| Qwerty.ParentDirectory | qwerty.py:259-273 | the root path when nothing is selected; the parent of a selected file; a selected directory itself; `None` exactly when the first selected entry is neither |
| Qwerty.SelectedFileParent | qwerty.py:265-268 | a new entry beside a selected file `dir/name` goes into `dir` |
| Qwerty.SaveTarget | qwerty.py:154-163 | a set current file is written; otherwise the dialog's path, and nothing when the dialog is cancelled; never the empty path |
| Qwerty.CurrentAfterSave | qwerty.py:154-163 | a set non-empty current file stays; otherwise a non-empty dialog path becomes the current file; a cancelled dialog leaves the current file as it was |
| Qwerty.SaveIsSticky | qwerty.py:154-163 | once a save has written somewhere, every later save writes to the same file whatever the dialog says |
| Qwerty.EditorApp.constructor | qwerty.py:64 | a new window has no current file, no highlighter and empty text |
| Qwerty.EditorApp.AdjustFontSize | qwerty.py:110-115 | the font size becomes `NewPointSize(old, change)`; nothing else changes |
| Qwerty.EditorApp.EventFilter | qwerty.py:99-108 | the font shortcuts change the size by their delta and are consumed; every other event is passed on and changes nothing |
| Qwerty.EditorApp.RunFile | qwerty.py:117-121 | the current file is launched exactly when it ends in `.py`, else the warning is shown |
| Qwerty.EditorApp.OpenFile | qwerty.py:131-150 | opening a regular file sets the text (empty after a decode failure, with a warning) and the current file; a highlighter is added only for `.py` and an earlier one is kept; other paths change nothing |
| Qwerty.EditorApp.SaveFile | qwerty.py:152-163 | the editor's text is written to `SaveTarget`; the current file becomes the target written to, or stays as it was when nothing was written |

## Left out

- The regular-expression engine in general: only the nine patterns of the highlighter are modelled, as scanners over ASCII classes (`\w`, `\d`, `\s` without Unicode properties). Block text holds no line feed, so `.` matches any character.
- The keyword and built-in vocabularies come from runtime reflection over Python's `keyword` and `builtins` modules; here they are parameters. Scanners.WordAt assumes that every entry is an identifier (a word of word characters), as every entry of `keyword.kwlist` and `dir(builtins)` is; only then does `\b(k1|k2|…)\b` match exactly where the maximal word at that position is in the set.
- Colours, fonts, `QTextCharFormat` details, `QPainter` and the background fill: styles are an enumeration and drawing is a list of labels.
- Floating-point geometry: block tops and heights are integers, so the `int(top)` truncation (editorarea.py:75) and the label's width and height are not modelled; the digit advance `w9` is a parameter.
- `update_tab_size`, `update_line_number_width` and `resizeEvent` (editorarea.py:37-52): they only pass a width to Qt (the gutter margin, the gutter geometry, the tab stop distance).
- Which blocks Qt re-highlights after an edit: `QSyntaxHighlighter` schedules this itself.
- File-system and dialog results are inputs: whether a path is a regular file, its decoded content, the save dialog's answer and the file kind of a selected entry. Exceptions from `open` or `write` are not modelled.
- `os.path.dirname` is modelled for POSIX paths only.
- The background thread and `os.system` call of `run_file`: the model returns the command line to launch.
- Qwerty.EditorApp.RunFile: requires a current file, because `run_file` raises `AttributeError` (qwerty.py:118) when no file was ever opened or saved.
- Folder, file creation and deletion, the context menu, shortcuts, `QSettings` persistence and the window's construction: Qt and OS glue with no decision beyond `get_parent_directory`.
- Highlighter.Highlight, HighlighterProperties.HighlightAt and HighlighterProperties.PlainLineUntouched accept any formats before the call. `QSyntaxHighlighter` clears a block's formats before `highlightBlock`, so in the editor the old format is always the default; the model is deliberately more general.
- Positions count Unicode scalar values (Dafny `char`), while Qt counts UTF-16 code units, so offsets differ on lines with characters outside the Basic Multilingual Plane.
- rpc.py is not part of this model: it is a Discord presence client.
