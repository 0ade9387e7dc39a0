// The row scheduler of the progressive PNG reader for interlaced images: png_push_process_row and
// png_read_push_finish_row, which tell the application about the rows of the image.
module PngRows {
  import opened Wrappers
  import opened Powers
  import opened Adam7

  // A call of the row callback: the pass, the row number, and which data row of the pass comes with
  // it, if any
  datatype Row = Row(pass: nat, row: nat, data: Option<nat>)

  // With PNG_INTERLACE each pass is expanded to the full height of the image
  datatype Image = Image(width: nat, height: nat, expanded: bool)

  predicate ImageOk(im: Image)
  {
    im.width > 0 && im.height > 0
  }

  // ---------- what the application is to see ----------

  // the rows that the application gets in a pass
  function RowsOf(im: Image, pass: nat): nat
    requires pass < PASSES
  {
    if PassCols(im.width, pass) == 0 then 0
    else if im.expanded then im.height
    else PassRows(im.height, pass)
  }

  // the rows of data of a pass, if it has any pixels
  function DataRows(im: Image, pass: nat): nat
    requires pass < PASSES
  {
    if PassCols(im.width, pass) == 0 then 0 else PassRows(im.height, pass)
  }

  // What comes with row r: in an expanded pass, the data row that stands for this tile of rows,
  // unless its own place in the image is below r.
  function Shown(im: Image, pass: nat, r: nat): Option<nat>
    requires pass < PASSES
  {
    if !im.expanded then Some(r)
    else
      TablesOk(pass);
      DivNonNegative(r, PassYInc(pass));
      var y := r / PassYInc(pass);
      if RowFromPassRow(y, pass) <= r then Some(y) else None
  }

  // the first n rows of a pass
  function PassLog(im: Image, pass: nat, n: nat): (s: seq<Row>)
    requires pass < PASSES
    ensures |s| == n
    ensures forall r :: 0 <= r < n ==> s[r] == Row(pass, r, Shown(im, pass, r))
  {
    if n == 0 then [] else PassLog(im, pass, n - 1) + [Row(pass, n - 1, Shown(im, pass, n - 1))]
  }

  // The passes that have rows, in order, and in each of them every row once, from the top down.
  function Before(im: Image, pass: nat): seq<Row>
    requires pass <= PASSES
  {
    if pass == 0 then [] else Before(im, pass - 1) + PassLog(im, pass - 1, RowsOf(im, pass - 1))
  }

  // The rows with data, pass by pass, in the words of the documentation
  lemma ShownIs(im: Image, pass: nat, r: nat)
    requires pass < PASSES && im.expanded
    ensures Shown(im, pass, r).Some? <==>
      (pass == 2 ==> r % 8 >= 4) && (pass == 4 ==> r % 4 >= 2) && (pass == 6 ==> r % 2 == 1)
  {
    DivMod(r, PassYInc(pass));
    if pass == 2 {
    } else if pass == 4 {
    } else if pass == 6 {
    }
  }

  // the next pass that has rows
  function NextPass(im: Image, pass: nat): (q: nat)
    requires pass < PASSES
    ensures pass < q <= PASSES && (q < PASSES ==> RowsOf(im, q) > 0)
    ensures forall p :: pass < p < q ==> RowsOf(im, p) == 0
    decreases PASSES - pass
  {
    if pass + 1 == PASSES || RowsOf(im, pass + 1) > 0 then pass + 1 else NextPass(im, pass + 1)
  }

  // passes that are too narrow
  lemma Narrow(im: Image, pass: nat)
    requires ImageOk(im) && pass < PASSES
    ensures PassCols(im.width, pass) == 0 <==>
      (pass == 1 && im.width < 5) || (pass == 3 && im.width < 3) || (pass == 5 && im.width < 2)
  {
    if pass == 0 {
    } else if pass == 1 {
    } else if pass == 2 {
    } else if pass == 3 {
    } else if pass == 4 {
    } else if pass == 5 {
    } else {
    }
  }

  class PngRows {
    const im: Image
    var pass: nat
    var rowNumber: nat
    var numRows: nat
    var iwidth: nat
    var log: seq<Row>
    var taken: seq<nat>      // the data rows taken so far, by pass

    // the rows up to the current place, and no others, have been reported
    ghost predicate Reported(n: nat)
      reads this
    {
      ImageOk(im) && pass <= PASSES && |taken| == PASSES &&
      if pass == PASSES then n == 0 && log == Before(im, PASSES)
      else
        numRows == RowsOf(im, pass) > 0 && iwidth == PassCols(im.width, pass) && n <= numRows &&
        log == Before(im, pass) + PassLog(im, pass, n)
    }

    ghost predicate Valid()
      reads this
    {
      Reported(rowNumber) && (pass < PASSES ==> rowNumber < numRows)
    }

    // png_read_start_row
    constructor (im: Image)
      requires ImageOk(im)
      ensures Valid() && this.im == im && pass == 0 && rowNumber == 0 && log == []
      ensures taken == [0, 0, 0, 0, 0, 0, 0]
    {
      this.im := im;
      pass, rowNumber, log, taken := 0, 0, [], [0, 0, 0, 0, 0, 0, 0];
      numRows := if im.expanded then im.height else PassRows(im.height, 0);
      iwidth := PassCols(im.width, 0);
    }

    // png_push_have_row
    method HaveRow(data: Option<nat>)
      requires Valid() && pass < PASSES && data == Shown(im, pass, rowNumber)
      modifies `log
      ensures Reported(rowNumber + 1)
    {
      log := log + [Row(pass, rowNumber, data)];
    }

    // pass++, and one more if that pass is too narrow
    method StepPass()
      requires ImageOk(im) && pass < PASSES && log == Before(im, pass + 1)
      modifies `pass
      ensures old(pass) < pass <= PASSES && log == Before(im, pass) && (pass < PASSES ==> PassCols(im.width, pass) > 0)
      ensures forall p :: old(pass) < p < pass ==> RowsOf(im, p) == 0
    {
      hide PassCols;
      pass := pass + 1;
      if pass < PASSES {
        Narrow(im, pass);
      }
      if (pass == 1 && im.width < 5) || (pass == 3 && im.width < 3) || (pass == 5 && im.width < 2) {
        EmptyPass(im, pass);
        pass := pass + 1;
        Narrow(im, pass);
      }
      // the code also undoes a step beyond 7, which does not happen
    }

    // the loop that looks for the next pass with rows
    method FindPass()
      requires ImageOk(im) && pass < PASSES && log == Before(im, pass + 1) && (im.expanded ==> numRows == im.height)
      modifies `pass, `numRows, `iwidth
      ensures pass == NextPass(im, old(pass)) && log == Before(im, pass)
      ensures pass < PASSES ==> numRows == RowsOf(im, pass) && iwidth == PassCols(im.width, pass)
    {
      hide PassCols, PassRows, Before, NextPass;
      while true
        invariant old(pass) <= pass < PASSES && log == Before(im, pass + 1)
        invariant pass == old(pass) || NextPass(im, pass) == NextPass(im, old(pass))
        invariant im.expanded ==> numRows == im.height
        decreases PASSES - pass
      {
        ghost var p := pass;
        StepPass();
        NextIs(im, p, pass);
        if pass >= 7 {
          break;
        }
        iwidth := PassCols(im.width, pass);
        if im.expanded {
          break;
        }
        numRows := PassRows(im.height, pass);
        if !(iwidth == 0 || numRows == 0) {
          break;
        }
        EmptyPass(im, pass);
      }
    }

    // png_read_push_finish_row
    method FinishRow()
      requires pass < PASSES && rowNumber < numRows && Reported(rowNumber + 1)
      modifies `pass, `rowNumber, `numRows, `iwidth
      ensures Valid()
      ensures if old(rowNumber + 1 < numRows) then pass == old(pass) && rowNumber == old(rowNumber) + 1
              else pass == NextPass(im, old(pass)) && rowNumber == 0
    {
      hide PassCols, PassRows, PassLog;
      rowNumber := rowNumber + 1;
      if rowNumber < numRows {
        return;
      }
      rowNumber := 0;
      FindPass();
      if pass < PASSES {
        NoRows(im, pass);
      }
    }

    // the callback for a row, and on to the next one
    method EmitRow(data: Option<nat>)
      requires Valid() && pass < PASSES && data == Shown(im, pass, rowNumber)
      modifies `log, `pass, `rowNumber, `numRows, `iwidth
      ensures Valid()
      ensures if old(rowNumber + 1 < numRows) then pass == old(pass) && rowNumber == old(rowNumber) + 1
              else pass == NextPass(im, old(pass)) && rowNumber == 0
    {
      HaveRow(data);
      FinishRow();
    }

    // for (i = 0; i < n && pass == p; i++)
    method EmitRows(n: nat, p: nat, data: Option<nat>)
      requires Valid() && p < PASSES && pass <= PASSES && n > 0 && pass == p
      requires forall r :: rowNumber <= r < rowNumber + n && r < numRows ==> Shown(im, p, r) == data
      modifies `log, `pass, `rowNumber, `numRows, `iwidth
      ensures Valid()
      ensures if old(rowNumber + n < numRows) then pass == p && rowNumber == old(rowNumber) + n
              else pass == NextPass(im, p) && rowNumber == 0
    {
      hide Shown, NextPass;
      var i := 0;
      ghost var rows, r0 := numRows, rowNumber;
      while i < n && pass == p
        invariant Valid() && 0 <= i <= n
        invariant if r0 + i < rows then pass == p && rowNumber == r0 + i
                  else pass == NextPass(im, p) && rowNumber == 0 && r0 + n >= rows
        decreases n - i
      {
        EmitRow(data);
        i := i + 1;
      }
    }

    // ---------- png_push_process_row ----------

    // the next data row has its place here
    ghost predicate AtData()
      reads this
    {
      pass < PASSES && (im.expanded ==> rowNumber % PassYInc(pass) == PassYStart(pass))
    }

    // A data row of pass p was shown from row r on: the next one of the pass is due, or the pass is
    // over, and no data row belongs to the passes that have been left out since.
    ghost predicate Landed(p: nat, r: nat)
      reads this
      requires p < PASSES
    {
      Valid() && (pass < PASSES ==> AtData()) &&
      ((pass == p && rowNumber == r + PassYInc(p)) ||
       (pass > p && r + PassYInc(p) >= im.height && (forall q :: p < q < pass ==> DataRows(im, q) == 0) &&
        (pass < PASSES ==> PassRows(rowNumber, pass) == 0)))
    }

    // the rows above the first data row of a pass
    method SkipTop(n: nat, p: nat)
      requires Valid() && im.expanded && pass == p < PASSES && rowNumber == 0 && n == PassYStart(p) && n > 0
      modifies `log, `pass, `rowNumber, `numRows, `iwidth
      ensures Valid()
      ensures if n < im.height then pass == p && rowNumber == n && AtData() && PassRows(rowNumber, pass) == 0
              else pass == NextPass(im, p) && rowNumber == 0 && DataRows(im, p) == 0
    {
      hide Shown, NextPass, PassLog, Before;
      GapShown(im, p, 0);
      TopRows(im, p);
      EmitRows(n, p, None);
    }

    // the rows of a tile from its data row on
    method ShowBlock(p: nat, k: nat)
      requires Valid() && im.expanded && pass == p < PASSES && AtData() && k == PassRows(rowNumber, p)
      modifies `log, `pass, `rowNumber, `numRows, `iwidth
      ensures Valid()
      ensures if old(rowNumber) + PassYInc(p) - PassYStart(p) < im.height
              then pass == p && rowNumber == old(rowNumber) + PassYInc(p) - PassYStart(p)
              else pass == NextPass(im, p) && rowNumber == 0
    {
      hide Shown, NextPass, PassLog, Before;
      TablesOk(p);
      BlockShown(im, p, rowNumber);
      EmitRows(PassYInc(p) - PassYStart(p), p, Some(k));
    }

    // the rows of the next tile that are above its data row
    method SkipGap(p: nat)
      requires Valid() && im.expanded && pass == p < PASSES && rowNumber % PassYInc(p) == 0 && PassYStart(p) > 0
      modifies `log, `pass, `rowNumber, `numRows, `iwidth
      ensures Valid()
      ensures if old(rowNumber) + PassYStart(p) < im.height
              then pass == p && rowNumber == old(rowNumber) + PassYStart(p)
              else pass == NextPass(im, p) && rowNumber == 0
    {
      hide Shown, NextPass, PassLog, Before;
      GapShown(im, p, rowNumber);
      EmitRows(PassYStart(p), p, None);
    }

    method Case0(k: nat)
      requires Valid() && im.expanded && pass == 0 && AtData() && k == PassRows(rowNumber, 0)
      modifies `log, `pass, `rowNumber, `numRows, `iwidth
      ensures Landed(0, old(rowNumber))
    {
      hide NextPass, PassLog, Before, PassCols, PassRows;
      NextExpanded(im);
      Tops();
      ShowBlock(0, k);
      // an image of up to four columns has no pass 1
      if pass == 2 {
        SkipTop(4, 2);
      }
      if pass == 4 && im.height <= 4 {
        SkipTop(2, 4);
      }
      if pass == 6 && im.height <= 4 {
        SkipTop(1, 6);
      }
    }

    method Case1(k: nat)
      requires Valid() && im.expanded && pass == 1 && AtData() && k == PassRows(rowNumber, 1)
      modifies `log, `pass, `rowNumber, `numRows, `iwidth
      ensures Landed(1, old(rowNumber))
    {
      hide NextPass, PassLog, Before, PassCols, PassRows;
      NextExpanded(im);
      Tops();
      ShowBlock(1, k);
      // the first data row of pass 2 stands below four rows
      if pass == 2 {
        SkipTop(4, 2);
      }
    }

    method Case2(k: nat)
      requires Valid() && im.expanded && pass == 2 && AtData() && k == PassRows(rowNumber, 2)
      modifies `log, `pass, `rowNumber, `numRows, `iwidth
      ensures Landed(2, old(rowNumber))
    {
      hide NextPass, PassLog, Before, PassCols, PassRows;
      NextExpanded(im);
      Tops();
      ShowBlock(2, k);
      if pass == 2 {
        SkipGap(2);
      }
      // an image of up to two columns has no pass 3
      if pass == 4 {
        SkipTop(2, 4);
      }
    }

    method Case3(k: nat)
      requires Valid() && im.expanded && pass == 3 && AtData() && k == PassRows(rowNumber, 3)
      modifies `log, `pass, `rowNumber, `numRows, `iwidth
      ensures Landed(3, old(rowNumber))
    {
      hide NextPass, PassLog, Before, PassCols, PassRows;
      NextExpanded(im);
      Tops();
      ShowBlock(3, k);
      // the first data row of pass 4 stands below two rows
      if pass == 4 {
        SkipTop(2, 4);
      }
    }

    method Case4(k: nat)
      requires Valid() && im.expanded && pass == 4 && AtData() && k == PassRows(rowNumber, 4)
      modifies `log, `pass, `rowNumber, `numRows, `iwidth
      ensures Landed(4, old(rowNumber))
    {
      hide NextPass, PassLog, Before, PassCols, PassRows;
      NextExpanded(im);
      Tops();
      ShowBlock(4, k);
      if pass == 4 {
        SkipGap(4);
      }
      // an image of one column has no pass 5
      if pass == 6 {
        SkipTop(1, 6);
      }
    }

    method Case5(k: nat)
      requires Valid() && im.expanded && pass == 5 && AtData() && k == PassRows(rowNumber, 5)
      modifies `log, `pass, `rowNumber, `numRows, `iwidth
      ensures Landed(5, old(rowNumber))
    {
      hide NextPass, PassLog, Before, PassCols, PassRows;
      NextExpanded(im);
      Tops();
      ShowBlock(5, k);
      // the first data row of pass 6 stands below one row
      if pass == 6 {
        SkipTop(1, 6);
      }
    }

    method Case6(k: nat)
      requires Valid() && im.expanded && pass == 6 && AtData() && k == PassRows(rowNumber, 6)
      modifies `log, `pass, `rowNumber, `numRows, `iwidth
      ensures Landed(6, old(rowNumber))
    {
      hide NextPass, PassLog, Before, PassCols, PassRows;
      NextExpanded(im);
      Tops();
      ShowBlock(6, k);
      if pass == 6 {
        SkipGap(6);
      }
    }

    // how many data rows of each pass have been taken
    ghost predicate Counted()
      reads this
    {
      |taken| == PASSES && forall p :: 0 <= p < PASSES ==> taken[p] == TakenAt(im, pass, rowNumber, p)
    }

    // switch (png_ptr->pass)
    method ExpandRow(k: nat)
      requires Valid() && im.expanded && pass < PASSES && AtData() && k == PassRows(rowNumber, pass)
      modifies `log, `pass, `rowNumber, `numRows, `iwidth
      ensures Landed(old(pass), old(rowNumber))
    {
      hide PassLog, Before, PassRows, PassCols, NextPass, Landed, Valid, AtData, DataRows;
      match pass {
        case 0 => Case0(k);
        case 1 => Case1(k);
        case 2 => Case2(k);
        case 3 => Case3(k);
        case 4 => Case4(k);
        case 5 => Case5(k);
        case _ => Case6(k);
      }
    }

    // png_push_process_row: the next data row is there
    method ProcessRow()
      requires Valid() && AtData() && Counted()
      modifies this
      ensures Valid() && (pass < PASSES ==> AtData()) && Counted()
      ensures old(pass) < pass || (old(pass) == pass && old(rowNumber) < rowNumber)
    {
      hide PassLog, Before, PassRows, PassCols, NextPass, TakenAt;
      ghost var p, r := pass, rowNumber;
      var k := taken[pass];
      RowsTaken();
      Take();
      if im.expanded {
        ExpandRow(k);
        CountExpanded(im, p, r, pass, rowNumber);
      } else {
        EmitRow(Some(k));
        CountPasses(im, p, r, pass, rowNumber);
      }
      OneMore(old(taken), p, r);
    }

    lemma RowsTaken()
      requires Counted() && pass < PASSES
      ensures taken[pass] == if im.expanded then PassRows(rowNumber, pass) else rowNumber
    {
      hide PassRows;
    }

    lemma OneMore(before: seq<nat>, p: nat, r: nat)
      requires |before| == PASSES && p < PASSES && taken == before[p := before[p] + 1]
      requires forall m :: 0 <= m < PASSES ==> before[m] == TakenAt(im, p, r, m)
      requires forall m :: 0 <= m < PASSES ==>
        TakenAt(im, pass, rowNumber, m) == TakenAt(im, p, r, m) + if m == p then 1 else 0
      ensures Counted()
    {
      hide TakenAt;
    }

    method Take()
      requires pass < PASSES && Valid() && AtData()
      modifies `taken
      ensures Valid() && AtData() && taken == old(taken)[pass := old(taken)[pass] + 1]
    {
      hide PassLog, Before, PassRows, PassCols;
      taken := taken[pass := taken[pass] + 1];
    }

    // all the data rows of the image; after pass 6 no more are taken
    method ReadImage()
      requires Valid() && pass == 0 && rowNumber == 0 && taken == [0, 0, 0, 0, 0, 0, 0]
      modifies this
      ensures pass == PASSES && |taken| == PASSES && log == Before(im, PASSES)
      ensures forall p :: 0 <= p < PASSES ==> taken[p] == DataRows(im, p)
    {
      hide PassLog, Before, PassRows, PassCols;
      Tops();
      while pass <= 6
        invariant Valid() && (pass < PASSES ==> AtData()) && Counted()
        decreases PASSES - pass, if pass < PASSES then numRows - rowNumber else 0
      {
        ProcessRow();
      }
    }
  }

  lemma NoRows(im: Image, pass: nat)
    requires pass < PASSES
    ensures Before(im, pass) + PassLog(im, pass, 0) == Before(im, pass)
  {
  }

  lemma EmptyPass(im: Image, pass: nat)
    requires pass < PASSES && RowsOf(im, pass) == 0
    ensures Before(im, pass + 1) == Before(im, pass)
  {
  }

  lemma {:induction false} NextIs(im: Image, p: nat, q: nat)
    requires p < q <= PASSES && forall k :: p < k < q ==> RowsOf(im, k) == 0
    ensures q == PASSES || RowsOf(im, q) > 0 ==> NextPass(im, p) == q
    ensures q < PASSES && RowsOf(im, q) == 0 ==> NextPass(im, p) == NextPass(im, q)
    decreases q - p
  {
    hide RowsOf;
    if p + 1 < q {
      NextIs(im, p + 1, q);
    }
  }

  // ---------- rows of a tile ----------

  lemma BlockShown(im: Image, pass: nat, row: nat)
    requires pass < PASSES && im.expanded && row % PassYInc(pass) == PassYStart(pass)
    ensures forall r :: row <= r < row + PassYInc(pass) - PassYStart(pass) ==>
      Shown(im, pass, r) == Some(PassRows(row, pass))
  {
    TablesOk(pass);
    var inc, start := PassYInc(pass), PassYStart(pass);
    var q := Quotient(row, inc, start);
    hide PassYInc, PassYStart;
    CountRows(pass, q);
    forall r | row <= r < row + inc - start
      ensures Shown(im, pass, r) == Some(PassRows(row, pass))
    {
      DivUnique(r, inc, q, r - q * inc);
    }
  }

  lemma GapShown(im: Image, pass: nat, row: nat)
    requires pass < PASSES && im.expanded && row % PassYInc(pass) == 0
    ensures forall r :: row <= r < row + PassYStart(pass) ==> Shown(im, pass, r) == None
  {
    TablesOk(pass);
    var inc, start := PassYInc(pass), PassYStart(pass);
    var q := Quotient(row, inc, 0);
    hide PassYInc, PassYStart;
    forall r | row <= r < row + start
      ensures Shown(im, pass, r) == None
    {
      DivUnique(r, inc, q, r - q * inc);
    }
  }

  // the data row q of a pass has q others above it
  lemma CountRows(pass: nat, q: nat)
    requires pass < PASSES
    ensures PassRows(q * PassYInc(pass) + PassYStart(pass), pass) == q
    ensures forall h :: q * PassYInc(pass) + PassYStart(pass) < h <= (q + 1) * PassYInc(pass) + PassYStart(pass) ==>
      PassRows(h, pass) == q + 1
  {
    TablesOk(pass);
    var inc, start := PassYInc(pass), PassYStart(pass);
    hide PassYInc, PassYStart;
    DivUnique(q * inc + inc - 1, inc, q, inc - 1);
    MulDist(q, 1, inc);
    forall h | q * inc + start < h <= (q + 1) * inc + start
      ensures PassRows(h, pass) == q + 1
    {
      DivUnique(h + inc - 1 - start, inc, q + 1, h - 1 - start - q * inc);
    }
  }

  lemma NextRow(pass: nat, row: nat, h: nat)
    requires pass < PASSES && row % PassYInc(pass) == PassYStart(pass) && row < h <= row + PassYInc(pass)
    ensures PassRows(h, pass) == PassRows(row, pass) + 1
  {
    TablesOk(pass);
    var q := Quotient(row, PassYInc(pass), PassYStart(pass));
    CountRows(pass, q);
    MulDist(q, 1, PassYInc(pass));
    hide PassYInc, PassYStart;
  }

  lemma TopRows(im: Image, pass: nat)
    requires pass < PASSES
    ensures PassRows(PassYStart(pass), pass) == 0
    ensures im.height <= PassYStart(pass) ==> PassRows(im.height, pass) == 0
    ensures PassYStart(pass) % PassYInc(pass) == PassYStart(pass)
  {
    TablesOk(pass);
    var inc, start := PassYInc(pass), PassYStart(pass);
    hide PassYInc, PassYStart;
    DivUnique(inc - 1, inc, 0, inc - 1);
    DivUnique(start, inc, 0, start);
    if im.height <= start {
      DivUnique(im.height + inc - 1 - start, inc, 0, im.height + inc - 1 - start);
    }
  }

  // no data row is above row 0
  lemma Tops()
    ensures forall p :: 0 <= p < PASSES ==> PassRows(0, p) == 0
  {
    forall p: nat | p < PASSES
      ensures PassRows(0, p) == 0
    {
      TablesOk(p);
      DivUnique(PassYInc(p) - 1 - PassYStart(p), PassYInc(p), 0, PassYInc(p) - 1 - PassYStart(p));
    }
  }

  // with all passes expanded, only narrow ones are left out
  lemma NextExpanded(im: Image)
    requires ImageOk(im) && im.expanded
    ensures NextPass(im, 0) == (if im.width < 5 then 2 else 1) && NextPass(im, 1) == 2
    ensures NextPass(im, 2) == (if im.width < 3 then 4 else 3) && NextPass(im, 3) == 4
    ensures NextPass(im, 4) == (if im.width < 2 then 6 else 5) && NextPass(im, 5) == 6 && NextPass(im, 6) == 7
    ensures im.width < 5 ==> DataRows(im, 1) == 0
    ensures im.width < 3 ==> DataRows(im, 3) == 0
    ensures im.width < 2 ==> DataRows(im, 5) == 0
  {
    hide PassCols;
    Narrow(im, 1);
    Narrow(im, 2);
    Narrow(im, 3);
    Narrow(im, 4);
    Narrow(im, 5);
    Narrow(im, 6);
  }

  // ---------- counting ----------

  // the data rows of pass p that lie before row of pass
  function TakenAt(im: Image, pass: nat, row: nat, p: nat): nat
    requires p < PASSES
  {
    if p < pass then DataRows(im, p)
    else if p > pass then 0
    else if im.expanded then PassRows(row, p)
    else row
  }

  lemma CountExpanded(im: Image, p: nat, r: nat, q: nat, row: nat)
    requires im.expanded && p < PASSES && RowsOf(im, p) > 0 && r % PassYInc(p) == PassYStart(p) && r < im.height
    requires (q == p && row == r + PassYInc(p)) ||
      (p < q <= PASSES && r + PassYInc(p) >= im.height && (forall m :: p < m < q ==> DataRows(im, m) == 0) &&
       (q < PASSES ==> PassRows(row, q) == 0))
    ensures forall m :: 0 <= m < PASSES ==> TakenAt(im, q, row, m) == TakenAt(im, p, r, m) + if m == p then 1 else 0
  {
    hide PassRows, PassCols;
    TablesOk(p);
    NextRow(p, r, if q == p then row else im.height);
  }

  lemma CountPasses(im: Image, p: nat, r: nat, q: nat, row: nat)
    requires !im.expanded && p < PASSES && RowsOf(im, p) > 0 && r < RowsOf(im, p)
    requires if r + 1 < RowsOf(im, p) then q == p && row == r + 1 else q == NextPass(im, p) && row == 0
    ensures forall m :: 0 <= m < PASSES ==> TakenAt(im, q, row, m) == TakenAt(im, p, r, m) + if m == p then 1 else 0
  {
    hide PassRows, PassCols, NextPass;
    forall m | 0 <= m < PASSES
      ensures DataRows(im, m) == RowsOf(im, m)
    {
    }
  }

  // ---------- pixels ----------

  // the pixels of the rows in a log
  function Pixels(im: Image, log: seq<Row>): nat
    requires forall i :: 0 <= i < |log| ==> log[i].pass < PASSES
  {
    if log == [] then 0 else Pixels(im, log[..|log| - 1]) + PassCols(im.width, log[|log| - 1].pass)
  }

  lemma {:induction false} PixelsAdd(im: Image, a: seq<Row>, b: seq<Row>)
    requires forall i :: 0 <= i < |a| ==> a[i].pass < PASSES
    requires forall i :: 0 <= i < |b| ==> b[i].pass < PASSES
    ensures Pixels(im, a + b) == Pixels(im, a) + Pixels(im, b)
  {
    hide PassCols;
    if b == [] {
      assert a + b == a;
    } else {
      assert (a + b)[..|a + b| - 1] == a + b[..|b| - 1];
      PixelsAdd(im, a, b[..|b| - 1]);
    }
  }

  lemma {:induction false} PassPixels(im: Image, pass: nat, n: nat)
    requires pass < PASSES
    ensures Pixels(im, PassLog(im, pass, n)) == PassCols(im.width, pass) * n
  {
    hide PassCols, Shown;
    OneMore(PassCols(im.width, pass), n);
    if n > 0 {
      PassPixels(im, pass, n - 1);
      assert PassLog(im, pass, n)[..n - 1] == PassLog(im, pass, n - 1);
    }
  }

  lemma OneMore(a: nat, n: nat)
    ensures n > 0 ==> a * n == a * (n - 1) + a
    ensures a * 0 == 0
  {
  }

  lemma PassSize(im: Image, pass: nat)
    requires pass < PASSES && !im.expanded
    ensures PassCols(im.width, pass) * RowsOf(im, pass) == Size(im.width, im.height, pass)
  {
    hide PassCols, PassRows;
  }

  lemma {:induction false} BeforeInPasses(im: Image, n: nat)
    requires n <= PASSES
    ensures forall i :: 0 <= i < |Before(im, n)| ==> Before(im, n)[i].pass < PASSES
  {
    hide RowsOf, Shown;
    if n > 0 {
      BeforeInPasses(im, n - 1);
    }
  }

  lemma {:induction false} BeforePixels(im: Image, n: nat)
    requires n <= PASSES && !im.expanded
    ensures forall i :: 0 <= i < |Before(im, n)| ==> Before(im, n)[i].pass < PASSES
    ensures Pixels(im, Before(im, n)) == Sizes(im.width, im.height, n)
  {
    hide PassCols, PassRows, Shown, RowsOf, Size, PassLog;
    BeforeInPasses(im, n);
    if n > 0 {
      BeforePixels(im, n - 1);
      PassSize(im, n - 1);
      PixelsAdd(im, Before(im, n - 1), PassLog(im, n - 1, RowsOf(im, n - 1)));
      PassPixels(im, n - 1, RowsOf(im, n - 1));
    }
  }

  // Pass by pass, the rows that are delivered have as many pixels as the image.
  lemma AllPixels(im: Image)
    requires !im.expanded
    ensures forall i :: 0 <= i < |Before(im, PASSES)| ==> Before(im, PASSES)[i].pass < PASSES
    ensures Pixels(im, Before(im, PASSES)) == im.width * im.height
  {
    BeforePixels(im, PASSES);
    SizesAddUp(im.width, im.height);
  }
}
