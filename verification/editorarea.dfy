/**
 * The line-number gutter of the code editor: the gutter's width, the walk over
 * the visible blocks that decides which line numbers are drawn and where, and
 * the reaction to the editor's update requests. Geometry is in whole pixels;
 * colours, fonts and the painter itself are left out.
 */
module EditorArea {

  // ---------------------------------------------------------------------------
  // Decimal text of a line count

  function Pow10(d: nat): (p: nat)
    ensures p >= 1
  {
    if d == 0 then 1 else 10 * Pow10(d - 1)
  }

  lemma {:induction false} Pow10Strict(a: nat, b: nat)
    requires a < b
    ensures Pow10(a) < Pow10(b)
    decreases b
  {
    if a < b - 1 {
      Pow10Strict(a, b - 1);
    }
  }

  /** Powers of ten are ordered as their exponents. */
  lemma Pow10Order(a: nat, b: nat)
    ensures a <= b <==> Pow10(a) <= Pow10(b)
  {
    if a < b {
      Pow10Strict(a, b);
    } else if b < a {
      Pow10Strict(b, a);
    }
  }

  predicate IsDecimalDigit(c: char) {
    '0' <= c <= '9'
  }

  function DigitChar(d: nat): (c: char)
    requires d < 10
    ensures IsDecimalDigit(c) && DigitValue(c) == d
  {
    ('0' as int + d) as char
  }

  /** Python's `str(n)` for a non-negative integer: its digits, most significant first, without leading zeros. */
  function Decimal(n: nat): (r: string)
    ensures |r| >= 1
    ensures forall k | 0 <= k < |r| :: IsDecimalDigit(r[k])
    ensures |r| > 1 ==> r[0] != '0'
  {
    if n < 10 then [DigitChar(n)] else Decimal(n / 10) + [DigitChar(n % 10)]
  }

  function DigitValue(c: char): nat
    requires IsDecimalDigit(c)
  {
    c as int - '0' as int
  }

  /** The number a string of decimal digits stands for. */
  function DecimalValue(s: string): nat
    requires forall k | 0 <= k < |s| :: IsDecimalDigit(s[k])
  {
    if s == [] then 0
    else DecimalValue(s[..|s| - 1]) * 10 + DigitValue(s[|s| - 1])
  }

  /** `str(n)` is faithful: reading its digits back gives `n`. */
  lemma {:induction false} DecimalRoundTrip(n: nat)
    ensures DecimalValue(Decimal(n)) == n
    decreases n
  {
    if n >= 10 {
      var r := Decimal(n);
      assert r[..|r| - 1] == Decimal(n / 10);
      DecimalRoundTrip(n / 10);
    }
  }

  /** `str(n)` has exactly as many characters as `n` has decimal digits. */
  lemma {:induction false} DecimalLength(n: nat)
    ensures n < Pow10(|Decimal(n)|)
    ensures n >= 1 ==> Pow10(|Decimal(n)| - 1) <= n
    decreases n
  {
    if n >= 10 {
      DecimalLength(n / 10);
    }
  }

  /** The length of `str(n)` is fixed by the decade `n` lies in. */
  lemma DecimalLengthIn(n: nat, d: nat)
    requires 1 <= d && Pow10(d - 1) <= n < Pow10(d)
    ensures |Decimal(n)| == d
  {
    DecimalLength(n);
    var len := |Decimal(n)|;
    Pow10Order(len, d - 1);
    Pow10Order(d, len - 1);
  }

  /** A longer count never has a shorter decimal text. */
  lemma DecimalLengthMonotone(n: nat, m: nat)
    requires n <= m
    ensures |Decimal(n)| <= |Decimal(m)|
  {
    DecimalLength(n);
    DecimalLength(m);
    Pow10Order(|Decimal(m)|, |Decimal(n)| - 1);
  }

  // ---------------------------------------------------------------------------
  // Gutter width

  /**
   * `line_number_width`: ten pixels of padding plus the advance of the digit `9`
   * (`nineWidth`) for every digit of the block count, with at least one digit.
   */
  function LineNumberWidth(blockCount: nat, nineWidth: int): (w: int)
    ensures w == 10 + nineWidth * |Decimal(blockCount)|
    ensures nineWidth >= 0 ==> w >= 10 + nineWidth
  {
    var digits := if |Decimal(blockCount)| < 1 then 1 else |Decimal(blockCount)|;
    10 + nineWidth * digits
  }

  /** Within one decade of block counts the gutter keeps the same width: one `9` per digit. */
  lemma WidthInDecade(blockCount: nat, d: nat, nineWidth: int)
    requires 1 <= d && Pow10(d - 1) <= blockCount < Pow10(d)
    ensures LineNumberWidth(blockCount, nineWidth) == 10 + nineWidth * d
  {
    DecimalLengthIn(blockCount, d);
  }

  /** A document of 1234 blocks needs four digits. */
  lemma WidthOf1234(nineWidth: int)
    ensures LineNumberWidth(1234, nineWidth) == 10 + 4 * nineWidth
  {
    assert Pow10(3) == 1000 && Pow10(4) == 10000 by {
      assert Pow10(1) == 10 && Pow10(2) == 100;
    }
    WidthInDecade(1234, 4, nineWidth);
  }

  /** With a non-negative digit advance the gutter never narrows as lines are added. */
  lemma WidthMonotone(n: nat, m: nat, nineWidth: int)
    requires n <= m && nineWidth >= 0
    ensures 10 + nineWidth <= LineNumberWidth(n, nineWidth) <= LineNumberWidth(m, nineWidth)
  {
    DecimalLengthMonotone(n, m);
    var dn := |Decimal(n)|;
    var dm := |Decimal(m)|;
    assert nineWidth * 1 <= nineWidth * dn <= nineWidth * dm by {
      MultiplyMonotone(nineWidth, 1, dn);
      MultiplyMonotone(nineWidth, dn, dm);
    }
  }

  lemma MultiplyMonotone(k: int, a: int, b: int)
    requires k >= 0 && a <= b
    ensures k * a <= k * b
  {
    assert k * b - k * a == k * (b - a);
  }

  // ---------------------------------------------------------------------------
  // Painting the line numbers

  /** A text block as the gutter sees it: the height of its bounding rectangle and its visibility. */
  datatype Block = Block(height: int, visible: bool)

  /** A line number drawn at vertical position `y`. */
  datatype Label = Label(number: nat, y: int)

  /** The vertical extent of the paint event's rectangle. */
  datatype Rect = Rect(top: int, bottom: int)

  /**
   * The height of block `k` of the walk; past the last block the walk holds an
   * invalid block, whose bounding rectangle is empty.
   */
  function HeightAt(blocks: seq<Block>, k: nat): int {
    if k < |blocks| then blocks[k].height else 0
  }

  /** The top of block `k`: the first visible block's top plus the heights of the blocks before `k`. */
  function TopOf(blocks: seq<Block>, firstTop: int, k: nat): int {
    if k == 0 then firstTop else TopOf(blocks, firstTop, k - 1) + HeightAt(blocks, k - 1)
  }

  /**
   * The labels the walk draws from block `k` on, where `number` is block `k`'s
   * zero-based block number and `top` its top edge: the walk stops at the end of
   * the document or at the first block whose top lies below the rectangle, and
   * draws the one-based number of every visible block that reaches the rectangle.
   */
  function Walk(blocks: seq<Block>, k: nat, number: nat, top: int, rect: Rect): (labels: seq<Label>)
    ensures forall j | 0 <= j < |labels| :: number < labels[j].number
    ensures forall i, j | 0 <= i < j < |labels| :: labels[i].number < labels[j].number
    decreases |blocks| - k
  {
    if k >= |blocks| || top > rect.bottom then []
    else
      var bottom := top + blocks[k].height;
      var rest := Walk(blocks, k + 1, number + 1, bottom, rect);
      if blocks[k].visible && bottom >= rect.top then [Label(number + 1, top)] + rest else rest
  }

  /** `line_number_paint_event`: walk the blocks from the first visible one and collect the labels drawn. */
  method PaintLineNumbers(blocks: seq<Block>, firstNumber: nat, firstTop: int, rect: Rect) returns (labels: seq<Label>)
    ensures labels == Walk(blocks, 0, firstNumber, firstTop, rect)
  {
    labels := [];
    var block := 0;
    var blockNumber := firstNumber;
    var top := firstTop;
    var bottom := top + HeightAt(blocks, block);
    while block < |blocks| && top <= rect.bottom
      invariant 0 <= block <= |blocks|
      invariant blockNumber == firstNumber + block
      invariant bottom == top + HeightAt(blocks, block)
      invariant labels + Walk(blocks, block, blockNumber, top, rect) == Walk(blocks, 0, firstNumber, firstTop, rect)
      decreases |blocks| - block
    {
      if blocks[block].visible && bottom >= rect.top {
        labels := labels + [Label(blockNumber + 1, top)];
      }
      block := block + 1;
      top := bottom;
      bottom := top + HeightAt(blocks, block);
      blockNumber := blockNumber + 1;
    }
  }

  /** Whether the walk reaches block `k` and draws its number. */
  ghost predicate Drawn(blocks: seq<Block>, firstTop: int, rect: Rect, k: nat) {
    k < |blocks| &&
    (forall j | 0 <= j <= k :: TopOf(blocks, firstTop, j) <= rect.bottom) &&
    blocks[k].visible && TopOf(blocks, firstTop, k) + blocks[k].height >= rect.top
  }

  /**
   * The labels drawn are exactly the drawn blocks: block `k` shows the number
   * `firstNumber + k + 1` at its own top edge.
   */
  lemma {:induction false} WalkLabels(blocks: seq<Block>, firstNumber: nat, firstTop: int, rect: Rect, k: nat, n: nat, y: int)
    ensures Label(n, y) in Walk(blocks, 0, firstNumber, firstTop, rect) <==>
      n >= firstNumber + 1 && Drawn(blocks, firstTop, rect, n - firstNumber - 1) &&
      y == TopOf(blocks, firstTop, n - firstNumber - 1)
  {
    WalkFrom(blocks, firstNumber, firstTop, rect, 0, n, y);
  }

  lemma {:induction false} WalkFrom(blocks: seq<Block>, firstNumber: nat, firstTop: int, rect: Rect, k: nat, n: nat, y: int)
    requires forall j | 0 <= j < k :: TopOf(blocks, firstTop, j) <= rect.bottom
    ensures Label(n, y) in Walk(blocks, k, firstNumber + k, TopOf(blocks, firstTop, k), rect) <==>
      n >= firstNumber + k + 1 && Drawn(blocks, firstTop, rect, n - firstNumber - 1) &&
      y == TopOf(blocks, firstTop, n - firstNumber - 1)
    decreases |blocks| - k
  {
    var top := TopOf(blocks, firstTop, k);
    if k < |blocks| && top <= rect.bottom {
      assert TopOf(blocks, firstTop, k + 1) == top + blocks[k].height;
      WalkFrom(blocks, firstNumber, firstTop, rect, k + 1, n, y);
    }
  }

  /** The labels moved down by `dy` pixels. */
  function Shifted(labels: seq<Label>, dy: int): (r: seq<Label>)
    ensures |r| == |labels|
  {
    seq(|labels|, j requires 0 <= j < |labels| => Label(labels[j].number, labels[j].y + dy))
  }

  /**
   * Scrolling moves the blocks and the paint rectangle together: the same
   * numbers are drawn, each `dy` pixels further down.
   */
  lemma {:induction false} WalkShift(blocks: seq<Block>, k: nat, number: nat, top: int, rect: Rect, dy: int)
    ensures Walk(blocks, k, number, top + dy, Rect(rect.top + dy, rect.bottom + dy)) ==
      Shifted(Walk(blocks, k, number, top, rect), dy)
    decreases |blocks| - k
  {
    if k < |blocks| && top <= rect.bottom {
      WalkShift(blocks, k + 1, number + 1, top + blocks[k].height, rect, dy);
    }
  }

  // ---------------------------------------------------------------------------
  // Update requests

  /** What the gutter does on an update request of the editor. */
  datatype GutterUpdate = ScrollBy(dx: int, dy: int) | Repaint

  /**
   * `update_line_number_area_on_scroll`: a vertical scroll moves the gutter's
   * pixels by the same amount; any other request repaints it.
   */
  function OnUpdateRequest(dy: int): (u: GutterUpdate)
    ensures u.ScrollBy? <==> dy != 0
    ensures u.ScrollBy? ==> u.dx == 0 && u.dy == dy
  {
    if dy != 0 then ScrollBy(0, dy) else Repaint
  }
}
