// Adam7 interlacing (section 2.6 of RFC 2083): the arithmetic of the pass macros of png.h and of
// the tables in the row scheduler.
module Adam7 {
  import opened Powers

  const PASSES := 7

  // the first column and row of each pass, and the distance to the following one
  function PassStart(pass: nat): nat
  {
    match pass
    case 0 => 0
    case 1 => 4
    case 2 => 0
    case 3 => 2
    case 4 => 0
    case 5 => 1
    case _ => 0
  }

  function PassInc(pass: nat): nat
  {
    match pass
    case 0 => 8
    case 1 => 8
    case 2 => 4
    case 3 => 4
    case 4 => 2
    case 5 => 2
    case _ => 1
  }

  function PassYStart(pass: nat): nat
  {
    match pass
    case 0 => 0
    case 1 => 0
    case 2 => 4
    case 3 => 0
    case 4 => 2
    case 5 => 0
    case _ => 1
  }

  function PassYInc(pass: nat): nat
  {
    match pass
    case 0 => 8
    case 1 => 8
    case 2 => 8
    case 3 => 4
    case 4 => 4
    case 5 => 2
    case _ => 2
  }

  // the number of columns and rows of a pass
  function PassCols(width: nat, pass: nat): (n: nat)
    requires pass < PASSES
  {
    TablesOk(pass);
    DivNonNegative(width + PassInc(pass) - 1 - PassStart(pass), PassInc(pass));
    (width + PassInc(pass) - 1 - PassStart(pass)) / PassInc(pass)
  }

  function PassRows(height: nat, pass: nat): (n: nat)
    requires pass < PASSES
  {
    TablesOk(pass);
    DivNonNegative(height + PassYInc(pass) - 1 - PassYStart(pass), PassYInc(pass));
    (height + PassYInc(pass) - 1 - PassYStart(pass)) / PassYInc(pass)
  }

  // the place in the image of a pixel of a pass
  function RowFromPassRow(y: nat, pass: nat): nat
    requires pass < PASSES
  {
    TablesOk(pass);
    y * PassYInc(pass) + PassYStart(pass)
  }

  function ColFromPassCol(x: nat, pass: nat): nat
    requires pass < PASSES
  {
    TablesOk(pass);
    x * PassInc(pass) + PassStart(pass)
  }

  lemma TablesOk(pass: nat)
    requires pass < PASSES
    ensures 0 < PassInc(pass) && PassStart(pass) < PassInc(pass) <= 8
    ensures 0 < PassYInc(pass) && PassYStart(pass) < PassYInc(pass) <= 8
  {
  }

  // ---------- the macros ----------

  // a bit << n
  function ShlBit(bit: bool, n: nat): nat
  {
    if bit then Pow2(n) else 0
  }

  // PNG_PASS_START_ROW, PNG_PASS_START_COL
  function StartRow(pass: nat): nat
    requires pass < PASSES
  {
    ShlBit(pass % 2 == 0, 3 - pass / 2) % 8
  }

  function StartCol(pass: nat): nat
    requires pass < PASSES
  {
    ShlBit(pass % 2 == 1, 3 - (pass + 1) / 2) % 8
  }

  // PNG_PASS_ROW_SHIFT, PNG_PASS_COL_SHIFT
  function RowShift(pass: nat): nat
    requires pass < PASSES
  {
    if pass > 2 then (8 - pass) / 2 else 3
  }

  function ColShift(pass: nat): nat
    requires pass < PASSES
  {
    if pass > 1 then (7 - pass) / 2 else 3
  }

  // PNG_PASS_ROW_OFFSET, PNG_PASS_COL_OFFSET
  function RowOffset(pass: nat): nat
    requires pass < PASSES
  {
    if pass > 2 then 8 / Pow2((pass - 1) / 2) else 8
  }

  function ColOffset(pass: nat): nat
    requires pass < PASSES
  {
    Pow2((7 - pass) / 2)
  }

  // The macros and the tables of the row scheduler describe the same passes.
  lemma MacrosAreTables(pass: nat)
    requires pass < PASSES
    ensures StartRow(pass) == PassYStart(pass) && StartCol(pass) == PassStart(pass)
    ensures Pow2(RowShift(pass)) == PassYInc(pass) && Pow2(ColShift(pass)) == PassInc(pass)
    ensures RowOffset(pass) == PassYInc(pass) && ColOffset(pass) == PassInc(pass)
  {
    hide StartRow, StartCol, RowOffset, ColOffset, RowShift, ColShift, Pow2;
    if pass == 0 {
      Macros0();
    } else if pass == 1 {
      Macros1();
    } else if pass == 2 {
      Macros2();
    } else if pass == 3 {
      Macros3();
    } else if pass == 4 {
      Macros4();
    } else if pass == 5 {
      Macros5();
    } else {
      Macros6();
    }
  }

  lemma Macros0()
    ensures StartRow(0) == 0 && StartCol(0) == 0
    ensures Pow2(RowShift(0)) == RowOffset(0) == 8 && Pow2(ColShift(0)) == ColOffset(0) == 8
  {
    Eights();
  }

  lemma Macros1()
    ensures StartRow(1) == 0 && StartCol(1) == 4
    ensures Pow2(RowShift(1)) == RowOffset(1) == 8 && Pow2(ColShift(1)) == ColOffset(1) == 8
  {
    Eights();
  }

  lemma Macros2()
    ensures StartRow(2) == 4 && StartCol(2) == 0
    ensures Pow2(RowShift(2)) == RowOffset(2) == 8 && Pow2(ColShift(2)) == ColOffset(2) == 4
  {
    Eights();
  }

  lemma Macros3()
    ensures StartRow(3) == 0 && StartCol(3) == 2
    ensures Pow2(RowShift(3)) == RowOffset(3) == 4 && Pow2(ColShift(3)) == ColOffset(3) == 4
  {
    Eights();
  }

  lemma Macros4()
    ensures StartRow(4) == 2 && StartCol(4) == 0
    ensures Pow2(RowShift(4)) == RowOffset(4) == 4 && Pow2(ColShift(4)) == ColOffset(4) == 2
  {
    Eights();
  }

  lemma Macros5()
    ensures StartRow(5) == 0 && StartCol(5) == 1
    ensures Pow2(RowShift(5)) == RowOffset(5) == 2 && Pow2(ColShift(5)) == ColOffset(5) == 2
  {
    Eights();
  }

  lemma Macros6()
    ensures StartRow(6) == 1 && StartCol(6) == 0
    ensures Pow2(RowShift(6)) == RowOffset(6) == 2 && Pow2(ColShift(6)) == ColOffset(6) == 1
  {
    Eights();
  }

  // (0x110145AF >> 4 * n) & 0xF
  function RowDigit(n: nat): nat
  {
    match n
    case 0 => 0xF
    case 1 => 0xA
    case 2 => 5
    case 3 => 4
    case 4 => 1
    case 5 => 0
    case 6 => 1
    case _ => 1
  }

  // ((0x01145AF0 >> 4 * n) & 0xF0) >> 4
  function ColDigit(n: nat): nat
  {
    match n
    case 0 => 0xF
    case 1 => 0xA
    case 2 => 5
    case 3 => 4
    case 4 => 1
    case 5 => 1
    case 6 => 0
    case _ => 0
  }

  // PNG_PASS_MASK: one bit for each of the 8 rows (off 0) or columns (off 1) of a tile
  function PassMask(pass: nat, off: nat): nat
    requires pass < PASSES && off < 2
  {
    RowDigit(7 - off - pass) + 16 * ColDigit(7 - off - pass)
  }

  // PNG_ROW_IN_INTERLACE_PASS, PNG_COL_IN_INTERLACE_PASS
  predicate RowInPass(y: nat, pass: nat)
    requires pass < PASSES
  {
    PassMask(pass, 0) / Pow2(y % 8) % 2 == 1
  }

  predicate ColInPass(x: nat, pass: nat)
    requires pass < PASSES
  {
    PassMask(pass, 1) / Pow2(x % 8) % 2 == 1
  }

  function RowMask(pass: nat): nat
  {
    match pass
    case 0 => 0x01
    case 1 => 0x01
    case 2 => 0x10
    case 3 => 0x11
    case 4 => 0x44
    case 5 => 0x55
    case _ => 0xAA
  }

  function ColMask(pass: nat): nat
  {
    match pass
    case 0 => 0x01
    case 1 => 0x10
    case 2 => 0x11
    case 3 => 0x44
    case 4 => 0x55
    case 5 => 0xAA
    case _ => 0xFF
  }

  lemma Masks(pass: nat)
    requires pass < PASSES
    ensures PassMask(pass, 0) == RowMask(pass) && PassMask(pass, 1) == ColMask(pass)
  {
  }

  lemma Eights()
    ensures Pow2(0) == 1 && Pow2(1) == 2 && Pow2(2) == 4 && Pow2(3) == 8
    ensures Pow2(4) == 16 && Pow2(5) == 32 && Pow2(6) == 64 && Pow2(7) == 128
  {
  }

  // the masks select the rows and columns that the passes consist of
  lemma MasksArePasses(v: nat, pass: nat)
    requires pass < PASSES
    ensures RowInPass(v, pass) <==> v % PassYInc(pass) == PassYStart(pass)
    ensures ColInPass(v, pass) <==> v % PassInc(pass) == PassStart(pass)
  {
    Masks(pass);
    Eights();
    RowMaskBit(v % 8, pass);
    ColMaskBit(v % 8, pass);
    ModMod(v, pass);
    hide Pow2, PassMask;
  }

  lemma ModMod(v: nat, pass: nat)
    requires pass < PASSES
    ensures v % 8 % PassYInc(pass) == v % PassYInc(pass) && v % 8 % PassInc(pass) == v % PassInc(pass)
  {
    ModTwice(v, 4, 2);
    ModTwice(v, 2, 4);
    ModTwice(v, 8, 1);
    ModTwice(v, 1, 8);
  }

  lemma ModTwice(v: nat, m: nat, k: nat)
    requires m > 0 && k > 0
    ensures m * k > 0 && v % (m * k) % m == v % m
  {
    var q, r := v / (m * k), v % (m * k);
    DivMod(v, m * k);
    DivMod(r, m);
    MulAssoc(q, k, m);
    MulDist(q * k, r / m, m);
    DivUnique(v, m, q * k + r / m, r % m);
  }

  lemma RowMaskBit(k: nat, pass: nat)
    requires pass < PASSES && k < 8
    ensures RowMask(pass) / Pow2(k) % 2 == 1 <==> k % PassYInc(pass) == PassYStart(pass)
  {
    hide Pow2;
    Eights();
    if k == 0 {
    } else if k == 1 {
    } else if k == 2 {
    } else if k == 3 {
    } else if k == 4 {
    } else if k == 5 {
    } else if k == 6 {
    } else {
    }
  }

  lemma ColMaskBit(k: nat, pass: nat)
    requires pass < PASSES && k < 8
    ensures ColMask(pass) / Pow2(k) % 2 == 1 <==> k % PassInc(pass) == PassStart(pass)
  {
    hide Pow2;
    Eights();
    if k == 0 {
    } else if k == 1 {
    } else if k == 2 {
    } else if k == 3 {
    } else if k == 4 {
    } else if k == 5 {
    } else if k == 6 {
    } else {
    }
  }

  // ---------- every pixel once ----------

  lemma RowIndex(y: nat, height: nat, pass: nat)
    requires pass < PASSES
    ensures y < PassRows(height, pass) <==> RowFromPassRow(y, pass) < height
  {
    TablesOk(pass);
    CountBelow(y, height, PassYInc(pass), PassYStart(pass));
  }

  lemma ColIndex(x: nat, width: nat, pass: nat)
    requires pass < PASSES
    ensures x < PassCols(width, pass) <==> ColFromPassCol(x, pass) < width
  {
    TablesOk(pass);
    CountBelow(x, width, PassInc(pass), PassStart(pass));
  }

  // how many of the numbers start, start + inc, ... are below n
  lemma CountBelow(k: nat, n: nat, inc: nat, start: nat)
    requires start < inc
    ensures k < (n + inc - 1 - start) / inc <==> k * inc + start < n
  {
    var c := (n + inc - 1 - start) / inc;
    DivMod(n + inc - 1 - start, inc);
    DivNonNegative(n + inc - 1 - start, inc);
    if k < c {
      MulMono(k + 1, c, inc);
      MulDist(k, 1, inc);
    } else {
      MulMono(c, k, inc);
    }
  }

  // the pass that a pixel belongs to
  function PassOf(x: nat, y: nat): (pass: nat)
    ensures pass < PASSES
  {
    if y % 2 == 1 then 6
    else if x % 2 == 1 then 5
    else if y % 4 == 2 then 4
    else if x % 4 == 2 then 3
    else if y % 8 == 4 then 2
    else if x % 8 == 4 then 1
    else 0
  }

  // the pass is determined by the place in a tile of 8 by 8 pixels
  lemma PassOfIs(x: nat, y: nat, pass: nat)
    requires pass < PASSES
    ensures x % PassInc(pass) == PassStart(pass) && y % PassYInc(pass) == PassYStart(pass) <==> pass == PassOf(x, y)
  {
    Residues(x);
    Residues(y);
    Tile(x % 8, y % 8, pass);
    ModMod(x, pass);
    ModMod(y, pass);
    hide PassInc, PassStart, PassYInc, PassYStart;
    assert PassOf(x % 8, y % 8) == PassOf(x, y);
  }

  lemma Residues(v: nat)
    ensures v % 8 % 8 == v % 8 && v % 8 % 4 == v % 4 && v % 8 % 2 == v % 2
  {
  }

  lemma Tile(a: nat, b: nat, pass: nat)
    requires pass < PASSES && a < 8 && b < 8
    ensures a % PassInc(pass) == PassStart(pass) && b % PassYInc(pass) == PassYStart(pass) <==> pass == PassOf(a, b)
  {
    if pass <= 1 {
    } else if pass <= 3 {
    } else if pass <= 5 {
    } else {
    }
  }

  // Mapping the pixels of all passes back hits every pixel of the image exactly once.
  lemma EveryPixelOnce(width: nat, height: nat, x: nat, y: nat) returns (pass: nat, px: nat, py: nat)
    requires x < width && y < height
    ensures pass < PASSES && px < PassCols(width, pass) && py < PassRows(height, pass)
    ensures ColFromPassCol(px, pass) == x && RowFromPassRow(py, pass) == y
    ensures forall p: nat, a: nat, b: nat ::
      p < PASSES && ColFromPassCol(a, p) == x && RowFromPassRow(b, p) == y ==> p == pass && a == px && b == py
  {
    pass := PassOf(x, y);
    TablesOk(pass);
    PassOfIs(x, y, pass);
    px, py := Quotient(x, PassInc(pass), PassStart(pass)), Quotient(y, PassYInc(pass), PassYStart(pass));
    ColIndex(px, width, pass);
    RowIndex(py, height, pass);
    forall p: nat, a: nat, b: nat | p < PASSES && ColFromPassCol(a, p) == x && RowFromPassRow(b, p) == y
      ensures p == pass && a == px && b == py
    {
      hide PassOf;
      TablesOk(p);
      DivUnique(x, PassInc(p), a, PassStart(p));
      DivUnique(y, PassYInc(p), b, PassYStart(p));
      PassOfIs(x, y, p);
    }
  }

  function Quotient(x: nat, inc: nat, start: nat): (q: nat)
    requires inc > 0 && x % inc == start
    ensures q * inc + start == x && q == x / inc
  {
    DivMod(x, inc);
    DivNonNegative(x, inc);
    x / inc
  }

  // ---------- counting ----------

  function Size(width: nat, height: nat, pass: nat): nat
    requires pass < PASSES
  {
    PassCols(width, pass) * PassRows(height, pass)
  }

  // the pixels of passes 0 to n - 1
  function Sizes(width: nat, height: nat, n: nat): nat
    requires n <= PASSES
  {
    if n == 0 then 0 else Sizes(width, height, n - 1) + Size(width, height, n - 1)
  }

  // The passes hold as many pixels as the image: each pass doubles the columns, or the rows, that
  // are complete.
  lemma SizesAddUp(width: nat, height: nat)
    ensures Sizes(width, height, PASSES) == width * height
  {
    Halves(width, height);
    hide Size, PassCols, PassRows;
    assert Sizes(width, height, 0) == 0;
    assert Sizes(width, height, 1) == Size(width, height, 0);
    assert Sizes(width, height, 2) == Sizes(width, height, 1) + Size(width, height, 1);
    assert Sizes(width, height, 3) == Sizes(width, height, 2) + Size(width, height, 2);
    assert Sizes(width, height, 4) == Sizes(width, height, 3) + Size(width, height, 3);
    assert Sizes(width, height, 5) == Sizes(width, height, 4) + Size(width, height, 4);
    assert Sizes(width, height, 6) == Sizes(width, height, 5) + Size(width, height, 5);
    assert Sizes(width, height, 7) == Sizes(width, height, 6) + Size(width, height, 6);
  }

  // rounded up
  function Up(n: nat, k: nat): nat
    requires k > 0
  {
    DivNonNegative(n + k - 1, k);
    (n + k - 1) / k
  }

  lemma Halves(width: nat, height: nat)
    ensures Size(width, height, 0) == Up(width, 8) * Up(height, 8)
    ensures Size(width, height, 0) + Size(width, height, 1) == Up(width, 4) * Up(height, 8)
    ensures Up(width, 4) * Up(height, 8) + Size(width, height, 2) == Up(width, 4) * Up(height, 4)
    ensures Up(width, 4) * Up(height, 4) + Size(width, height, 3) == Up(width, 2) * Up(height, 4)
    ensures Up(width, 2) * Up(height, 4) + Size(width, height, 4) == Up(width, 2) * Up(height, 2)
    ensures Up(width, 2) * Up(height, 2) + Size(width, height, 5) == width * Up(height, 2)
    ensures width * Up(height, 2) + Size(width, height, 6) == width * height
  {
    hide PassCols, PassRows, Up;
    UpSplit(width, height);
    AddUp(Up(width, 8), PassCols(width, 1), Up(width, 4), Up(height, 8));
    AddUp(Up(height, 8), PassRows(height, 2), Up(height, 4), Up(width, 4));
    AddUp(Up(width, 4), PassCols(width, 3), Up(width, 2), Up(height, 4));
    AddUp(Up(height, 4), PassRows(height, 4), Up(height, 2), Up(width, 2));
    AddUp(Up(width, 2), PassCols(width, 5), width, Up(height, 2));
    AddUp(Up(height, 2), PassRows(height, 6), height, width);
  }

  lemma AddUp(a: nat, b: nat, sum: nat, c: nat)
    requires a + b == sum
    ensures a * c + b * c == sum * c && c * a + c * b == c * sum
  {
    MulDist(a, b, c);
  }

  lemma UpSplit(width: nat, height: nat)
    ensures PassCols(width, 0) == Up(width, 8) && PassRows(height, 0) == Up(height, 8)
    ensures Up(width, 8) + PassCols(width, 1) == Up(width, 4) && PassRows(height, 1) == Up(height, 8)
    ensures PassCols(width, 2) == Up(width, 4) && Up(height, 8) + PassRows(height, 2) == Up(height, 4)
    ensures Up(width, 4) + PassCols(width, 3) == Up(width, 2) && PassRows(height, 3) == Up(height, 4)
    ensures PassCols(width, 4) == Up(width, 2) && Up(height, 4) + PassRows(height, 4) == Up(height, 2)
    ensures Up(width, 2) + PassCols(width, 5) == width && PassRows(height, 5) == Up(height, 2)
    ensures PassCols(width, 6) == width && Up(height, 2) + PassRows(height, 6) == height
  {
    SplitEights(width);
    SplitEights(height);
    SplitFours(width);
    SplitFours(height);
  }

  lemma SplitEights(n: nat)
    ensures (n + 7) / 8 + (n + 3) / 8 == (n + 3) / 4
  {
  }

  lemma SplitFours(n: nat)
    ensures (n + 3) / 4 + (n + 1) / 4 == (n + 1) / 2 && (n + 1) / 2 + n / 2 == n
  {
  }
}
