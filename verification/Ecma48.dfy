/** What ECMA-48 asks of the control functions that edit the screen, move the cursor, select renditions and repeat a
    character, and exactly when src/tty/tmt.c does it. */
module Ecma48 {
  import opened Common
  import opened Screen
  import opened RowMachine

  // ---------------------------------------------------------------- what the standard asks

  /** ECH: the n cells from the cursor on are erased. */
  function EraseCharacters(row: Row, c: nat, n: nat): (q: Row) { Blanked(row, c, c + n) }

  /** EL 1: the row is erased up to and including the cursor. */
  function EraseToCursor(row: Row, c: nat): (q: Row) { Blanked(row, 0, c + 1) }

  /** ED 1: the screen is erased up to and including the cursor. */
  function ErasePageToCursor(rows: seq<Row>, r: nat, c: nat): (q: seq<Row>)
    requires r < |rows|
  {
    BlankedRows(rows[r := EraseToCursor(rows[r], c)], 0, r)
  }

  /** ICH: n blanks come in at the cursor, the cells from there on move right and those past the end are lost. */
  function InsertCharacters(row: Row, c: nat, n: nat): (q: Row)
    requires c < |row|
    ensures |q| == |row|
  {
    (row[..c] + BlankRow(n) + row[c..])[..|row|]
  }

  /** DCH: n cells from the cursor on go, those behind them move left, and blanks come in at the end. */
  function DeleteCharacters(row: Row, c: nat, n: nat): (q: Row)
    requires c < |row|
    ensures |q| == |row|
  {
    if c + n <= |row| then row[..c] + row[c + n..] + BlankRow(n) else row[..c] + BlankRow(|row| - c)
  }

  /** DL and SU: n rows from r on go, those below move up, and blank rows come in at the end. */
  function DeleteRows(rows: seq<Row>, ncol: nat, r: nat, n: nat): (q: seq<Row>)
    requires r < |rows|
    ensures |q| == |rows|
  {
    var k := Min(n, |rows| - r);
    rows[..r] + rows[r + k..] + BlankRows(k, ncol)
  }

  /** IL and SD: n blank rows come in at r, and the rows from r on move down. */
  function InsertRows(rows: seq<Row>, ncol: nat, r: nat, n: nat): (q: seq<Row>)
    requires r < |rows|
    ensures |q| == |rows|
  {
    var k := Min(n, |rows| - r);
    rows[..r] + BlankRows(k, ncol) + rows[r..|rows| - k]
  }

  function BlankRows(k: nat, ncol: nat): (q: seq<Row>)
    ensures |q| == k
  {
    seq(k, _ => BlankRow(ncol))
  }

  /** The cursor movements stop at the margins. */
  function Backward(x: nat, n: nat): nat { if n <= x then x - n else 0 }
  function Forward(x: nat, n: nat, size: nat): nat
    requires size > 0
  {
    if x + n < size then x + n else size - 1
  }

  /** CHT and CBT go n tab stops on, or back. */
  function TabsOn(tabs: seq<bool>, c: nat, n: nat): (q: nat)
    requires |tabs| > 0
  {
    if n == 0 then c else NextStop(tabs, TabsOn(tabs, c, n - 1))
  }

  function TabsBack(tabs: seq<bool>, c: nat, n: nat): (q: nat)
    requires c < |tabs|
    ensures q <= c
  {
    if n == 0 then c else PreviousStop(tabs, TabsBack(tabs, c, n - 1))
  }

  /** What a final byte for editing asks for: ED, EL, IL, DL, DCH, SU, SD, ECH and ICH. */
  function Asked(v: Vt, i: char): (q: seq<Row>)
    requires WellFormed(v) && IsEdit(i)
  {
    var (r, c, n, p) := (v.cur.r, v.cur.c, P1(v, 0), v.parser.pars[0]);
    var row := v.rows[r];
    match i
    case 'J' =>
      if p == 0 then BlankedRows(v.rows[r := Blanked(row, c, v.ncol)], r + 1, |v.rows|)
      else if p == 1 then ErasePageToCursor(v.rows, r, c)
      else if p == 2 then BlankedRows(v.rows, 0, |v.rows|) else v.rows
    case 'K' =>
      v.rows[r := if p == 0 then Blanked(row, c, v.ncol) else if p == 1 then EraseToCursor(row, c)
                  else if p == 2 then Blanked(row, 0, v.ncol) else row]
    case 'L' => InsertRows(v.rows, v.ncol, r, n)
    case 'M' => DeleteRows(v.rows, v.ncol, r, n)
    case 'P' => v.rows[r := DeleteCharacters(row, c, n)]
    case 'S' => DeleteRows(v.rows, v.ncol, 0, n)
    case 'T' => InsertRows(v.rows, v.ncol, 0, n)
    case 'X' => v.rows[r := EraseCharacters(row, c, n)]
    case _ => v.rows[r := InsertCharacters(row, c, n)]
  }

  /** The machine does what is asked for, whatever the screen shows. */
  ghost predicate Conforms(v: Vt, i: char)
    requires WellFormed(v) && IsEdit(i)
  {
    forall rows: seq<Row> :: |rows| == |v.rows| && AllRows(rows, v.ncol) ==> Edited(v.(rows := rows), i) == Asked(v.(rows := rows), i)
  }

  /** Where a final byte for moving asks the cursor to go: CUU, CUD, CUF, CUB, CNL, CPL, CHA, VPA, CUP, HVP, CHT, CBT. */
  function Bidden(v: Vt, i: char): (p: Point)
    requires WellFormed(v) && IsMove(i)
  {
    var (r, c, n, nline) := (v.cur.r, v.cur.c, P1(v, 0), |v.rows|);
    match i
    case 'A' => Point(Backward(r, n), c)
    case 'B' => Point(Forward(r, n, nline), c)
    case 'C' => Point(r, Forward(c, n, v.ncol))
    case 'D' => Point(r, Backward(c, n))
    case 'E' => Point(Forward(r, n, nline), 0)
    case 'F' => Point(Backward(r, n), 0)
    case 'G' => Point(r, Forward(0, n - 1, v.ncol))
    case 'd' => Point(Forward(0, n - 1, nline), c)
    case 'I' => Point(r, TabsOn(v.tabs, c, n))
    case 'Z' => Point(r, TabsBack(v.tabs, c, n))
    case _ => Point(Forward(0, n - 1, nline), Forward(0, P1(v, 1) - 1, v.ncol))
  }

  // ---------------------------------------------------------------- the whole table

  /** The editing functions that work, and where. */
  predicate EditRight(v: Vt, i: char)
    requires WellFormed(v) && IsEdit(i)
  {
    var (r, c, n, p) := (v.cur.r, v.cur.c, P1(v, 0), v.parser.pars[0]);
    match i
    case 'J' => p != 1
    case 'K' => p != 1 || c < v.ncol - 1
    case 'L' => n < |v.rows| - r
    case 'M' => n < |v.rows| - r
    case 'P' => true
    case 'S' => n < |v.rows|
    case 'T' => n < |v.rows|
    case 'X' => c == 0 || n >= v.ncol
    case _ => false
  }

  /** Every editing function does what the standard asks on every screen if and only if the table says so. */
  lemma EditsConform(v: Vt, i: char)
    requires WellFormed(v) && IsEdit(i)
    ensures Conforms(v, i) <==> EditRight(v, i)
  {
    hide Conforms, WellFormed;
    match i
    case 'J' => EdAgrees(v);
    case 'K' => ElAgrees(v);
    case 'L' => IlAgrees(v);
    case 'M' => DlAgrees(v);
    case 'P' => DchAgrees(v);
    case 'S' => SuAgrees(v);
    case 'T' => SdAgrees(v);
    case 'X' => EchAgrees(v);
    case '@' => IchFails(v);
  }

  /** The cursor movements that work, and where. */
  predicate MoveRight(v: Vt, i: char)
    requires WellFormed(v) && IsMove(i)
  {
    var (r, c, n) := (v.cur.r, v.cur.c, P1(v, 0));
    match i
    case 'A' => n <= r
    case 'B' => r + n < WRAP
    case 'C' => c + n < WRAP
    case 'D' => n <= c || c == 0
    case 'E' => r + n < WRAP
    case 'F' => n <= r
    case 'I' => n == 1 || NextStop(v.tabs, c) == v.ncol - 1
    case 'Z' => n == 1 || PreviousStop(v.tabs, c) == 0
    case _ => true
  }

  /** Every movement leads where the standard asks if and only if the table says so. */
  lemma MovesConform(v: Vt, i: char)
    requires WellFormed(v) && IsMove(i)
    ensures Target(v, i) == Bidden(v, i) <==> MoveRight(v, i)
  {
    var (r, c, n) := (v.cur.r, v.cur.c, P1(v, 0));
    Small(v);
    hide IsMove, WellFormed, P1, Up, Onward, Last, Forward, Backward, NextStop, PreviousStop, TabsOn, TabsBack;
    match i
    case 'A' => UpAgrees(r, n, |v.rows|);
    case 'B' => OnwardAgrees(r, n, |v.rows|);
    case 'C' => OnwardAgrees(c, n, v.ncol);
    case 'D' => LeftAgrees(c, n);
    case 'E' => OnwardAgrees(r, n, |v.rows|);
    case 'F' => UpAgrees(r, n, |v.rows|);
    case 'I' => TabAgrees(v.tabs, c, n);
    case 'Z' => BackTabAgrees(v.tabs, c, n);
    case _ =>
      LastIsForward(n - 1, |v.rows|);
      LastIsForward(n - 1, v.ncol);
      LastIsForward(P1(v, 1) - 1, v.ncol);
  }

  lemma Small(v: Vt)
    requires WellFormed(v)
    ensures P1(v, 0) < WRAP && v.cur.r < |v.rows| && v.cur.c < v.ncol == |v.tabs| && 2 <= |v.rows| < WRAP && v.ncol < WRAP
    ensures |v.parser.pars| == PAR_MAX
  {
  }

  lemma LastIsForward(n: nat, size: nat)
    requires size > 0
    ensures Last(n, size) == Forward(0, n, size)
  {
  }

  /** Two new contents of the cursor's row make the same screen if and only if they are the same. */
  lemma SamePut(rows: seq<Row>, r: nat, a: Row, b: Row)
    requires r < |rows|
    ensures rows[r := a] == rows[r := b] <==> a == b
  {
    assert rows[r := a][r] == a && rows[r := b][r] == b;
  }

  // ---------------------------------------------------------------- erasing in a row

  /** A cell that is not blank, and a row of them. */
  const INK := Cell(SPACE + 1, DEFATTRS)

  function InkRow(n: nat): (r: Row)
    ensures |r| == n && forall i :: 0 <= i < n ==> r[i] == INK
  {
    seq(n, _ => INK)
  }

  /** Two erasures agree on a row if they agree on every cell that is not blank already. */
  lemma SameErasure(row: Row, s: nat, e: int, e': int)
    ensures Blanked(row, s, e) == Blanked(row, s, e') <==>
      forall i :: Max(s, Min(e, e')) <= i < Max(e, e') && i < |row| ==> row[i] == BLANK
  {
    var a, b := Blanked(row, s, e), Blanked(row, s, e');
    if a == b {
      forall i | Max(s, Min(e, e')) <= i < Max(e, e') && i < |row| ensures row[i] == BLANK {
        assert a[i] == b[i];
      }
    }
    if forall i :: Max(s, Min(e, e')) <= i < Max(e, e') && i < |row| ==> row[i] == BLANK {
      forall i | 0 <= i < |row| ensures a[i] == b[i] {
      }
    }
  }

  function InkRows(nline: nat, ncol: nat): (q: seq<Row>)
    ensures |q| == nline && forall i :: 0 <= i < nline ==> q[i] == InkRow(ncol)
  {
    seq(nline, _ => InkRow(ncol))
  }

  /** The same terminal with other contents, and with no blank on the screen. */
  lemma Recontented(v: Vt, rows: seq<Row>)
    requires WellFormed(v) && |rows| == |v.rows| && AllRows(rows, v.ncol)
    ensures WellFormed(v.(rows := rows)) && P1(v.(rows := rows), 0) == P1(v, 0)
  {
  }

  lemma Inked(v: Vt)
    requires WellFormed(v)
    ensures AllRows(InkRows(|v.rows|, v.ncol), v.ncol) && WellFormed(v.(rows := InkRows(|v.rows|, v.ncol)))
  {
  }

  /** The source takes the count of ECH for a column: it does what the standard asks on every screen if and only if the
      cursor is in column 0 or the count reaches the end of the row. */
  lemma EchAgrees(v: Vt)
    requires WellFormed(v)
    ensures Conforms(v, 'X') <==> EditRight(v, 'X')
  {
    hide Blanked, InkRows;
    var (r, c, n) := (v.cur.r, v.cur.c, P1(v, 0));
    if c == 0 || n >= v.ncol {
      forall rows: seq<Row> | |rows| == |v.rows| && AllRows(rows, v.ncol)
        ensures Edited(v.(rows := rows), 'X') == Asked(v.(rows := rows), 'X')
      {
        SameErasure(rows[r], c, n, c + n);
      }
    } else {
      var rows := InkRows(|v.rows|, v.ncol);
      Inked(v);
      SameErasure(rows[r], c, n, c + n);
      assert rows[r][Max(c, n)] != BLANK;
      SamePut(rows, r, Blanked(rows[r], c, n), Blanked(rows[r], c, c + n));
      assert Edited(v.(rows := rows), 'X') != Asked(v.(rows := rows), 'X');
    }
  }

  /** EL 1 never erases the last column: EL agrees with the standard on every screen if and only if it is not EL 1 or
      the cursor is not there. */
  lemma ElAgrees(v: Vt)
    requires WellFormed(v)
    ensures Conforms(v, 'K') <==> EditRight(v, 'K')
  {
    hide Blanked, InkRows;
    var (r, c) := (v.cur.r, v.cur.c);
    if v.parser.pars[0] != 1 || c < v.ncol - 1 {
    } else {
      var rows := InkRows(|v.rows|, v.ncol);
      Inked(v);
      SameErasure(rows[r], 0, v.ncol - 1, v.ncol);
      assert rows[r][v.ncol - 1] != BLANK;
      SamePut(rows, r, Blanked(rows[r], 0, v.ncol - 1), Blanked(rows[r], 0, v.ncol));
      assert Edited(v.(rows := rows), 'K') != Asked(v.(rows := rows), 'K');
    }
  }

  // ---------------------------------------------------------------- erasing the page

  /** Every cell of the row is blank already. */
  predicate IsBlank(row: Row) { forall i :: 0 <= i < |row| ==> row[i] == BLANK }

  lemma BlankedIs(row: Row)
    ensures Blanked(row, 0, |row|) == row <==> IsBlank(row)
  {
    if Blanked(row, 0, |row|) == row {
      forall i | 0 <= i < |row| ensures row[i] == BLANK {
        assert Blanked(row, 0, |row|)[i] == row[i];
      }
    }
  }

  /** ED 1 from another row than the first spares the row above the cursor's and the cursor's own cell: it does what
      the standard asks if and only if those are blank already. */
  lemma Ed1Agrees(v: Vt)
    requires WellFormed(v) && v.parser.pars[0] == 1 && v.cur.r > 0
    ensures Edited(v, 'J') == Asked(v, 'J') <==>
      IsBlank(v.rows[v.cur.r - 1]) && v.rows[v.cur.r][v.cur.c] == BLANK
  {
    var r, c := v.cur.r, v.cur.c;
    FormedRows(v);
    hide WellFormed, Blanked, IsBlank;
    var a, b := Erased(v), ErasePageToCursor(v.rows, r, c);
    SameErasure(v.rows[r], 0, c, c + 1);
    BlankedIs(v.rows[r - 1]);
    assert a[r] == Blanked(v.rows[r], 0, c) && b[r] == Blanked(v.rows[r], 0, c + 1);
    assert a[r - 1] == v.rows[r - 1] && b[r - 1] == Blanked(v.rows[r - 1], 0, |v.rows[r - 1]|);
    assert forall i :: 0 <= i < |a| && i != r && i != r - 1 ==> a[i] == b[i];
  }

  /** From the first row it clears the whole screen: what the standard asks if and only if everything behind the cursor
      is blank already. */
  lemma Ed1FromTop(v: Vt)
    requires WellFormed(v) && v.parser.pars[0] == 1 && v.cur.r == 0
    ensures Edited(v, 'J') == Asked(v, 'J') <==>
      && (forall i :: 1 <= i < |v.rows| ==> IsBlank(v.rows[i]))
      && (forall j :: v.cur.c < j < v.ncol ==> v.rows[0][j] == BLANK)
  {
    var c := v.cur.c;
    FormedRows(v);
    hide WellFormed, IsBlank;
    var a, b := Erased(v), ErasePageToCursor(v.rows, 0, c);
    var row := v.rows[0];
    assert |row| == v.ncol;
    TwiceBlanked(row, c);
    hide Blanked;
    SameErasure(row, 0, v.ncol, c + 1);
    assert a[0] == Blanked(row, 0, v.ncol) && b[0] == Blanked(row, 0, c + 1);
    forall i | 1 <= i < |a| ensures a[i] == b[i] <==> IsBlank(v.rows[i]) {
      assert a[i] == Blanked(v.rows[i], 0, |v.rows[i]|) && b[i] == v.rows[i];
      BlankedIs(v.rows[i]);
    }
  }

  lemma TwiceBlanked(row: Row, c: nat)
    ensures Blanked(Blanked(row, 0, c), 0, |row|) == Blanked(row, 0, |row|)
  {
  }

  /** ED does what the standard asks on every screen if and only if it is not ED 1, which fails on a full one wherever
      the cursor is. */
  lemma EdAgrees(v: Vt)
    requires WellFormed(v)
    ensures Conforms(v, 'J') <==> EditRight(v, 'J')
  {
    if v.parser.pars[0] == 1 {
      Inked(v);
      Ed1Fails(v.(rows := InkRows(|v.rows|, v.ncol)));
    }
  }

  lemma Ed1Fails(v: Vt)
    requires WellFormed(v) && v.parser.pars[0] == 1 && v.rows == InkRows(|v.rows|, v.ncol)
    ensures Edited(v, 'J') != Asked(v, 'J')
  {
    hide Edited, Asked, InkRows;
    if v.cur.r > 0 {
      Ed1Agrees(v);
      assert v.rows[v.cur.r][v.cur.c] == INK;
    } else {
      Ed1FromTop(v);
      assert v.rows[1][0] == INK && !IsBlank(v.rows[1]);
    }
  }

  // ---------------------------------------------------------------- inserting and deleting in a row

  lemma InsertedAt(row: Row, c: nat, n: nat, i: nat)
    requires c < |row| && i < |row|
    ensures InsertCharacters(row, c, n)[i] == if i < c then row[i] else if i < c + n then BLANK else row[i - n]
  {
  }

  lemma OpenedAt(row: Row, c: nat, n: nat, i: nat)
    requires c < |row| && i < |row|
    ensures var k := Min(n, |row| - 1 - c);
      Opened(row, c, n)[i] == if c <= i < k then BLANK else if c + k <= i < |row| - 1 then row[i - k] else row[i]
  {
  }

  /** The last cell is what the insertion would move there, and the cells that are to be blank and lie from the column
      of the (capped) count on are blank. */
  predicate IchRight(row: Row, c: nat, n: nat)
    requires c < |row|
  {
    && row[|row| - 1] == (if c + n < |row| then row[|row| - 1 - n] else BLANK)
    && forall i :: c <= i < c + n && Min(n, |row| - 1 - c) <= i < |row| - 1 ==> row[i] == BLANK
  }

  /** Cell by cell. */
  lemma IchCell(row: Row, c: nat, n: nat, i: nat)
    requires c < |row| && n > 0 && i < |row|
    ensures Opened(row, c, n)[i] == InsertCharacters(row, c, n)[i] <==>
      && (i == |row| - 1 ==> row[i] == if c + n < |row| then row[|row| - 1 - n] else BLANK)
      && (c <= i < c + n && Min(n, |row| - 1 - c) <= i < |row| - 1 ==> row[i] == BLANK)
  {
    OpenedAt(row, c, n, i);
    InsertedAt(row, c, n, i);
    hide Opened, InsertCharacters;
  }

  lemma IchRow(row: Row, c: nat, n: nat)
    requires c < |row| && n > 0
    ensures Opened(row, c, n) == InsertCharacters(row, c, n) <==> IchRight(row, c, n)
  {
    hide Opened, InsertCharacters;
    var a, b := Opened(row, c, n), InsertCharacters(row, c, n);
    if a == b {
      IchCell(row, c, n, |row| - 1);
      forall i | c <= i < c + n && Min(n, |row| - 1 - c) <= i < |row| - 1 ensures row[i] == BLANK {
        IchCell(row, c, n, i);
      }
    }
    if IchRight(row, c, n) {
      forall i | 0 <= i < |row| ensures a[i] == b[i] {
        IchCell(row, c, n, i);
      }
    }
  }

  /** ICH never overwrites the last column, and blanks only up to the column of its count: it does what the standard
      asks if and only if the last cell is already right and the cells it fails to blank are blank. */
  lemma IchAgrees(v: Vt)
    requires WellFormed(v)
    ensures Edited(v, '@') == Asked(v, '@') <==> IchRight(v.rows[v.cur.r], v.cur.c, P1(v, 0))
  {
    hide Opened, InsertCharacters, IchRight;
    var (r, c, n) := (v.cur.r, v.cur.c, P1(v, 0));
    IchRow(v.rows[r], c, n);
    SamePut(v.rows, r, Opened(v.rows[r], c, n), InsertCharacters(v.rows[r], c, n));
  }

  /** So on every size of screen, wherever the cursor is and whatever the count, there are contents on which it fails. */
  lemma IchFails(v: Vt)
    requires WellFormed(v)
    ensures !Conforms(v, '@')
  {
    var row := BlankRow(v.ncol)[v.ncol - 1 := INK];
    var rows := seq(|v.rows|, _ => row);
    Recontented(v, rows);
    hide Edited, Asked;
    IchAgrees(v.(rows := rows));
  }

  /** DCH does what the standard asks. */
  lemma DchAgrees(v: Vt)
    requires WellFormed(v)
    ensures Conforms(v, 'P')
  {
    hide Closed, DeleteCharacters;
    forall rows: seq<Row> | |rows| == |v.rows| && AllRows(rows, v.ncol)
      ensures Edited(v.(rows := rows), 'P') == Asked(v.(rows := rows), 'P')
    {
      DchRow(rows[v.cur.r], v.cur.c, P1(v, 0));
    }
  }

  lemma DchRow(row: Row, c: nat, n: nat)
    requires c < |row|
    ensures Closed(row, c, n) == DeleteCharacters(row, c, n)
  {
  }

  // ---------------------------------------------------------------- inserting and deleting rows

  lemma DeletedAt(rows: seq<Row>, ncol: nat, r: nat, n: nat, i: nat)
    requires r < |rows| && i < |rows|
    ensures var k := Min(n, |rows| - r);
      DeleteRows(rows, ncol, r, n)[i] == if i < r then rows[i] else if i < |rows| - k then rows[i + k] else BlankRow(ncol)
  {
  }

  lemma NewRowAt(rows: seq<Row>, ncol: nat, r: nat, n: nat, i: nat)
    requires r < |rows| && i < |rows|
    ensures var k := Min(n, |rows| - r);
      InsertRows(rows, ncol, r, n)[i] == if i < r then rows[i] else if i < r + k then BlankRow(ncol) else rows[i - k]
  {
  }

  lemma InkIsNotBlank(ncol: nat)
    requires ncol > 0
    ensures InkRow(ncol) != BlankRow(ncol)
  {
    assert InkRow(ncol)[0] != BlankRow(ncol)[0];
  }

  lemma RaisedIsDeleted(rows: seq<Row>, ncol: nat, r: nat, n: nat)
    requires r < |rows| && n < |rows| - r
    ensures RaisedRows(rows, ncol, r, n) == DeleteRows(rows, ncol, r, n)
  {
    hide DeleteRows;
    forall i: nat | i < |rows| ensures RaisedRows(rows, ncol, r, n)[i] == DeleteRows(rows, ncol, r, n)[i] {
      DeletedAt(rows, ncol, r, n, i);
    }
  }

  lemma LoweredIsInserted(rows: seq<Row>, ncol: nat, r: nat, n: nat)
    requires r < |rows| && n < |rows| - r
    ensures LoweredRows(rows, ncol, r, n) == InsertRows(rows, ncol, r, n)
  {
    hide InsertRows;
    forall i: nat | i < |rows| ensures LoweredRows(rows, ncol, r, n)[i] == InsertRows(rows, ncol, r, n)[i] {
      NewRowAt(rows, ncol, r, n, i);
    }
  }

  /** With a count that would take all rows the code keeps one of them. */
  lemma ScrollsFail(nline: nat, ncol: nat, r: nat, n: nat)
    requires r < nline && ncol > 0 && n >= nline - r
    ensures var rows := InkRows(nline, ncol);
      RaisedRows(rows, ncol, r, n) != DeleteRows(rows, ncol, r, n) && LoweredRows(rows, ncol, r, n) != InsertRows(rows, ncol, r, n)
  {
    var rows := InkRows(nline, ncol);
    DeletedAt(rows, ncol, r, n, r);
    NewRowAt(rows, ncol, r, n, nline - 1);
    InkIsNotBlank(ncol);
    hide DeleteRows, InsertRows, InkRows;
    assert RaisedRows(rows, ncol, r, n)[r] == InkRow(ncol);
    assert LoweredRows(rows, ncol, r, n)[nline - 1] == InkRow(ncol);
  }

  /** Scrolling and the deletion of rows always leave one of the rows in place: DL and SU do what the standard asks on
      every screen if and only if the count is smaller than the number of rows from there on. */
  lemma DlAgrees(v: Vt)
    requires WellFormed(v)
    ensures Conforms(v, 'M') <==> EditRight(v, 'M')
  {
    hide RaisedRows, DeleteRows, InkRows;
    Inked(v);
    if P1(v, 0) < |v.rows| - v.cur.r {
      forall rows: seq<Row> | |rows| == |v.rows| && AllRows(rows, v.ncol)
        ensures Edited(v.(rows := rows), 'M') == Asked(v.(rows := rows), 'M')
      {
        RaisedIsDeleted(rows, v.ncol, v.cur.r, P1(v, 0));
      }
    } else {
      ScrollsFail(|v.rows|, v.ncol, v.cur.r, P1(v, 0));
      assert Edited(v.(rows := InkRows(|v.rows|, v.ncol)), 'M') != Asked(v.(rows := InkRows(|v.rows|, v.ncol)), 'M');
    }
  }

  lemma SuAgrees(v: Vt)
    requires WellFormed(v)
    ensures Conforms(v, 'S') <==> EditRight(v, 'S')
  {
    hide RaisedRows, DeleteRows, InkRows;
    Inked(v);
    if P1(v, 0) < |v.rows| {
      forall rows: seq<Row> | |rows| == |v.rows| && AllRows(rows, v.ncol)
        ensures Edited(v.(rows := rows), 'S') == Asked(v.(rows := rows), 'S')
      {
        RaisedIsDeleted(rows, v.ncol, 0, P1(v, 0));
      }
    } else {
      ScrollsFail(|v.rows|, v.ncol, 0, P1(v, 0));
      assert Edited(v.(rows := InkRows(|v.rows|, v.ncol)), 'S') != Asked(v.(rows := InkRows(|v.rows|, v.ncol)), 'S');
    }
  }

  /** The same for IL and SD. */
  lemma IlAgrees(v: Vt)
    requires WellFormed(v)
    ensures Conforms(v, 'L') <==> EditRight(v, 'L')
  {
    hide LoweredRows, InsertRows, InkRows;
    Inked(v);
    if P1(v, 0) < |v.rows| - v.cur.r {
      forall rows: seq<Row> | |rows| == |v.rows| && AllRows(rows, v.ncol)
        ensures Edited(v.(rows := rows), 'L') == Asked(v.(rows := rows), 'L')
      {
        LoweredIsInserted(rows, v.ncol, v.cur.r, P1(v, 0));
      }
    } else {
      ScrollsFail(|v.rows|, v.ncol, v.cur.r, P1(v, 0));
      assert Edited(v.(rows := InkRows(|v.rows|, v.ncol)), 'L') != Asked(v.(rows := InkRows(|v.rows|, v.ncol)), 'L');
    }
  }

  lemma SdAgrees(v: Vt)
    requires WellFormed(v)
    ensures Conforms(v, 'T') <==> EditRight(v, 'T')
  {
    hide LoweredRows, InsertRows, InkRows;
    Inked(v);
    if P1(v, 0) < |v.rows| {
      forall rows: seq<Row> | |rows| == |v.rows| && AllRows(rows, v.ncol)
        ensures Edited(v.(rows := rows), 'T') == Asked(v.(rows := rows), 'T')
      {
        LoweredIsInserted(rows, v.ncol, 0, P1(v, 0));
      }
    } else {
      ScrollsFail(|v.rows|, v.ncol, 0, P1(v, 0));
      assert Edited(v.(rows := InkRows(|v.rows|, v.ncol)), 'T') != Asked(v.(rows := InkRows(|v.rows|, v.ncol)), 'T');
    }
  }

  // ---------------------------------------------------------------- moving the cursor

  /** CUU and CPL: if and only if the count does not lead past the top. */
  lemma UpAgrees(r: nat, n: nat, nline: nat)
    requires r < nline < WRAP && nline >= 2 && n < WRAP
    ensures Up(r, n, nline) == Backward(r, n) <==> n <= r
  {
  }

  /** CUB: if and only if the count does not lead past column 0, or the cursor is there. */
  lemma LeftAgrees(c: nat, n: nat)
    requires n > 0
    ensures (if n <= c then c - n else c) == Backward(c, n) <==> n <= c || c == 0
  {
  }

  /** CUD, CNL and CUF: if and only if the sum does not wrap. */
  lemma OnwardAgrees(x: nat, n: nat, size: nat)
    requires x < size < WRAP && n < WRAP
    ensures Onward(x, n, size) == Forward(x, n, size) <==> x + n < WRAP
  {
  }

  /** CHT goes one tab stop on, whatever its count: if and only if one is asked for, or the first one is the end. */
  lemma TabAgrees(tabs: seq<bool>, c: nat, n: nat)
    requires c < |tabs| && n > 0
    ensures NextStop(tabs, c) == TabsOn(tabs, c, n) <==> n == 1 || NextStop(tabs, c) == |tabs| - 1
  {
    TabsGrow(tabs, c, n);
  }

  lemma {:induction false} TabsGrow(tabs: seq<bool>, c: nat, n: nat)
    requires c < |tabs| && n > 0
    ensures NextStop(tabs, c) <= TabsOn(tabs, c, n) < |tabs|
    ensures n > 1 && NextStop(tabs, c) < |tabs| - 1 ==> TabsOn(tabs, c, n) > NextStop(tabs, c)
    ensures NextStop(tabs, c) == |tabs| - 1 ==> TabsOn(tabs, c, n) == |tabs| - 1
  {
    if n > 1 {
      TabsGrow(tabs, c, n - 1);
    } else {
      assert TabsOn(tabs, c, 0) == c;
    }
  }

  /** CBT likewise. */
  lemma BackTabAgrees(tabs: seq<bool>, c: nat, n: nat)
    requires c < |tabs| && n > 0
    ensures PreviousStop(tabs, c) == TabsBack(tabs, c, n) <==> n == 1 || PreviousStop(tabs, c) == 0
  {
    TabsShrink(tabs, c, n);
  }

  lemma {:induction false} TabsShrink(tabs: seq<bool>, c: nat, n: nat)
    requires c < |tabs| && n > 0
    ensures TabsBack(tabs, c, n) <= PreviousStop(tabs, c)
    ensures n > 1 && PreviousStop(tabs, c) > 0 ==> TabsBack(tabs, c, n) < PreviousStop(tabs, c)
  {
    if n > 1 {
      TabsShrink(tabs, c, n - 1);
    } else {
      assert TabsBack(tabs, c, 0) == c;
    }
  }

  // ---------------------------------------------------------------- renditions

  /** What one parameter of SGR asks for, among the renditions that the terminal has; 0 cancels everything that SGR did,
      22 is neither bold nor faint, and 23 is about italics, which the terminal has not. */
  function WantedAttrs(a: Attrs, p: nat): (b: Attrs) {
    if p == 0 then DEFATTRS
    else
      Attrs(if p == 1 then true else if p == 22 then false else a.bold,
            if p == 2 then true else if p == 22 then false else a.dim,
            if p == 4 then true else if p == 24 then false else a.underline,
            if p == 5 then true else if p == 25 then false else a.blink,
            if p == 7 then true else if p == 27 then false else a.reverse,
            if p == 8 then true else if p == 28 then false else a.invisible,
            if 30 <= p <= 37 then p - 29 else if p == 39 then DEFAULT else a.fg,
            if 40 <= p <= 47 then p - 39 else if p == 49 then DEFAULT else a.bg)
  }

  function Wanted(v: Vt, p: nat): (v': Vt)
    ensures v' == v.(attrs := v'.attrs, acs := v'.acs)
  {
    v.(attrs := WantedAttrs(v.attrs, p), acs := if p in {0, 10, 11} then p == 11 else v.acs)
  }

  /** The source reads whether an attribute goes on or off from the first parameter of the sequence: one parameter does
      what the standard asks if and only if it goes the same way as the first, faint is off where bold or italics go off,
      and the font is the first one where everything is cancelled. */
  lemma SgrParameter(v: Vt, p: nat)
    requires |v.parser.pars| == PAR_MAX
    ensures Rendered(v, p) == Wanted(v, p) <==>
      var f := v.parser.pars[0];
      && (p == 0 ==> !v.acs)
      && (p in {1, 2, 4, 5, 7, 8} ==> f < 20)
      && (p in {24, 25, 27, 28} ==> f >= 20)
      && (p == 22 ==> f >= 20 && !v.attrs.dim)
      && (p == 23 ==> v.attrs.dim == (f < 20))
      && (p == 10 ==> f <= 10) && (p == 11 ==> f > 10)
  {
  }

  /** The first n parameters. */
  function Wishes(v: Vt, n: nat): (v': Vt)
    requires |v.parser.pars| == PAR_MAX && n <= PAR_MAX
    ensures v' == v.(attrs := v'.attrs, acs := v'.acs)
  {
    if n == 0 then v else Wanted(Wishes(v, n - 1), v.parser.pars[n - 1])
  }

  /** What SGR switches on and off: the attributes and the alternate character set. */
  datatype Mark = Bold | Dim | Underline | Blink | Reverse | Invisible | AltChars

  function Get(v: Vt, m: Mark): bool { if m == AltChars then v.acs else Attribute(v.attrs, m) }

  function Attribute(a: Attrs, m: Mark): bool {
    match m
    case Bold => a.bold
    case Dim => a.dim
    case Underline => a.underline
    case Blink => a.blink
    case Reverse => a.reverse
    case _ => a.invisible
  }

  /** Parameter p switches it in the source, and by the standard. */
  predicate Writes(m: Mark, p: nat) {
    match m
    case Bold => p == 0 || p == 1 || p == 22
    case Dim => p == 0 || p == 2 || p == 23
    case Underline => p == 0 || p == 4 || p == 24
    case Blink => p == 0 || p == 5 || p == 25
    case Reverse => p == 0 || p == 7 || p == 27
    case Invisible => p == 0 || p == 8 || p == 28
    case AltChars => p == 10 || p == 11
  }

  predicate Wants(m: Mark, p: nat) {
    match m
    case Dim => p == 0 || p == 2 || p == 22
    case AltChars => p == 0 || p == 10 || p == 11
    case _ => Writes(m, p)
  }

  /** The parameters that switch something on. */
  predicate Sets(p: nat) { p == 1 || p == 2 || p == 4 || p == 5 || p == 7 || p == 8 || p == 11 }

  /** The last of the first n parameters that switches it in the source, and by the standard. */
  function LastWrite(pars: seq<nat>, n: nat, m: Mark): (p: Option<nat>)
    requires n <= |pars|
    ensures p.Some? ==> Writes(m, p.value)
  {
    if n == 0 then None else if Writes(m, pars[n - 1]) then Some(pars[n - 1]) else LastWrite(pars, n - 1, m)
  }

  function LastWant(pars: seq<nat>, n: nat, m: Mark): (p: Option<nat>)
    requires n <= |pars|
    ensures p.Some? ==> Wants(m, p.value)
  {
    if n == 0 then None else if Wants(m, pars[n - 1]) then Some(pars[n - 1]) else LastWant(pars, n - 1, m)
  }

  /** How the source switches it with parameter p. */
  predicate Switched(pars: seq<nat>, m: Mark, p: nat)
    requires |pars| == PAR_MAX
  {
    if m == AltChars then pars[0] > 10 else p != 0 && pars[0] < 20
  }

  /** After a sequence it is as it was if no parameter switches it, else as the last one of them says. */
  predicate Ends(v: Vt, n: nat, m: Mark)
    requires |v.parser.pars| == PAR_MAX && n <= PAR_MAX
  {
    var last := LastWrite(v.parser.pars, n, m);
    if last.None? then Get(v, m) else Switched(v.parser.pars, m, last.value)
  }

  predicate ShouldEnd(v: Vt, n: nat, m: Mark)
    requires |v.parser.pars| == PAR_MAX && n <= PAR_MAX
  {
    var last := LastWant(v.parser.pars, n, m);
    if last.None? then Get(v, m) else Sets(last.value)
  }

  lemma OneDone(v: Vt, p: nat, m: Mark)
    requires |v.parser.pars| == PAR_MAX
    ensures Get(Rendered(v, p), m) == if Writes(m, p) then Switched(v.parser.pars, m, p) else Get(v, m)
  {
    if m != AltChars {
      OneShaded(v.attrs, p, v.parser.pars[0] < 20, m);
      hide Shaded, Attribute;
    } else {
      hide Shaded, Attribute;
    }
  }

  lemma OneShaded(a: Attrs, p: nat, on: bool, m: Mark)
    requires m != AltChars
    ensures Attribute(Shaded(a, p, on), m) == if Writes(m, p) then p != 0 && on else Attribute(a, m)
  {
  }

  lemma OneWanted(v: Vt, p: nat, m: Mark)
    ensures Get(Wanted(v, p), m) == if Wants(m, p) then Sets(p) else Get(v, m)
  {
    if m != AltChars {
      OneWantedAttr(v.attrs, p, m);
      hide WantedAttrs, Attribute;
    } else {
      hide WantedAttrs, Attribute;
    }
  }

  lemma OneWantedAttr(a: Attrs, p: nat, m: Mark)
    requires m != AltChars
    ensures Attribute(WantedAttrs(a, p), m) == if Wants(m, p) then Sets(p) else Attribute(a, m)
  {
  }

  /** What the source makes of a sequence, and what it should. */
  lemma {:induction false} AllDone(v: Vt, n: nat, m: Mark)
    requires |v.parser.pars| == PAR_MAX && n <= PAR_MAX
    ensures Get(Renditions(v, n), m) == Ends(v, n, m)
  {
    hide Get, Rendered, Writes, Switched;
    if n > 0 {
      AllDone(v, n - 1, m);
      OneDone(Renditions(v, n - 1), v.parser.pars[n - 1], m);
    }
  }

  lemma {:induction false} AllWanted(v: Vt, n: nat, m: Mark)
    requires |v.parser.pars| == PAR_MAX && n <= PAR_MAX
    ensures Get(Wishes(v, n), m) == ShouldEnd(v, n, m)
  {
    hide Get, Wanted, Wants;
    if n > 0 {
      AllWanted(v, n - 1, m);
      OneWanted(Wishes(v, n - 1), v.parser.pars[n - 1], m);
    }
  }

  /** The colours are always right. */
  lemma {:induction false} ColoursAgree(v: Vt, n: nat)
    requires |v.parser.pars| == PAR_MAX && n <= PAR_MAX
    ensures Renditions(v, n).attrs.fg == Wishes(v, n).attrs.fg && Renditions(v, n).attrs.bg == Wishes(v, n).attrs.bg
  {
    hide Rendered, Wanted;
    if n > 0 {
      ColoursAgree(v, n - 1);
      OneColour(Renditions(v, n - 1), Wishes(v, n - 1), v.parser.pars[n - 1]);
    }
  }

  lemma OneColour(v: Vt, w: Vt, p: nat)
    requires |v.parser.pars| == PAR_MAX && v.attrs.fg == w.attrs.fg && v.attrs.bg == w.attrs.bg
    ensures Rendered(v, p).attrs.fg == Wanted(w, p).attrs.fg && Rendered(v, p).attrs.bg == Wanted(w, p).attrs.bg
  {
    ShadedColour(v.attrs, p, v.parser.pars[0] < 20);
    WantedColour(w.attrs, p);
    hide Shaded, WantedAttrs;
  }

  /** The colour after parameter p, the first of them selecting black. */
  function Colour(was: int, p: nat, black: nat): int {
    if p == 0 || p == black + 9 then DEFAULT else if black <= p <= black + 7 then p - black + 1 else was
  }

  lemma ShadedColour(a: Attrs, p: nat, on: bool)
    ensures Shaded(a, p, on).fg == Colour(a.fg, p, 30) && Shaded(a, p, on).bg == Colour(a.bg, p, 40)
  {
  }

  lemma WantedColour(a: Attrs, p: nat)
    ensures WantedAttrs(a, p).fg == Colour(a.fg, p, 30) && WantedAttrs(a, p).bg == Colour(a.bg, p, 40)
  {
  }

  /** The last parameter about it goes the way of the first one, or cancels everything. Faint and the character set are
      switched by other parameters than the standard has for them. */
  predicate MarkRight(v: Vt, n: nat, m: Mark)
    requires |v.parser.pars| == PAR_MAX && n <= PAR_MAX
  {
    if m == Dim || m == AltChars then Ends(v, n, m) == ShouldEnd(v, n, m)
    else
      var last := LastWrite(v.parser.pars, n, m);
      last.None? || last.value == 0 || (Sets(last.value) <==> v.parser.pars[0] < 20)
  }

  /** A sequence does what the standard asks if and only if for everything it switches the last parameter about it goes
      the way of the first parameter. */
  lemma SgrAgrees(v: Vt)
    requires WellFormed(v)
    ensures Other(v, 'm') == Wishes(v, v.parser.npar) <==> forall m: Mark :: MarkRight(v, v.parser.npar, m)
  {
    var n := v.parser.npar;
    var a, b := Renditions(v, n), Wishes(v, n);
    ColoursAgree(v, n);
    forall m: Mark ensures Get(a, m) == Get(b, m) <==> MarkRight(v, n, m) {
      AllDone(v, n, m);
      AllWanted(v, n, m);
      EndsRight(v, n, m);
    }
    SameMarks(a, b);
  }

  lemma EndsRight(v: Vt, n: nat, m: Mark)
    requires |v.parser.pars| == PAR_MAX && n <= PAR_MAX
    ensures Ends(v, n, m) == ShouldEnd(v, n, m) <==> MarkRight(v, n, m)
  {
    if m != Dim && m != AltChars {
      SameLast(v.parser.pars, n, m);
    }
    hide LastWrite, LastWant, Get;
  }

  lemma {:induction false} SameLast(pars: seq<nat>, n: nat, m: Mark)
    requires n <= |pars| && m != Dim && m != AltChars
    ensures LastWrite(pars, n, m) == LastWant(pars, n, m)
  {
    if n > 0 {
      SameLast(pars, n - 1, m);
    }
  }

  lemma SameMarks(a: Vt, b: Vt)
    requires b == a.(attrs := b.attrs, acs := b.acs) && a.attrs.fg == b.attrs.fg && a.attrs.bg == b.attrs.bg
    ensures a == b <==> forall m: Mark :: Get(a, m) == Get(b, m)
  {
    if forall m: Mark :: Get(a, m) == Get(b, m) {
      assert Get(a, Bold) == Get(b, Bold) && Get(a, Dim) == Get(b, Dim) && Get(a, Underline) == Get(b, Underline);
      assert Get(a, Blink) == Get(b, Blink) && Get(a, Reverse) == Get(b, Reverse) && Get(a, Invisible) == Get(b, Invisible);
      assert Get(a, AltChars) == Get(b, AltChars);
      assert a.attrs == b.attrs;
    }
  }

  /** A sequence of one parameter goes wrong only where it leaves faint on, takes it off instead of italics, or leaves the
      alternate character set. */
  lemma SgrSingle(v: Vt)
    requires WellFormed(v) && v.parser.npar == 1
    ensures var p := v.parser.pars[0];
      Other(v, 'm') == Wishes(v, 1) <==> (p == 0 ==> !v.acs) && (p == 22 || p == 23 ==> !v.attrs.dim)
  {
    var p := v.parser.pars[0];
    assert Renditions(v, 0) == v && Wishes(v, 0) == v;
    assert Renditions(v, 1) == Rendered(v, p) && Wishes(v, 1) == Wanted(v, p);
    SgrParameter(v, p);
  }

  /** "Red and bold" (31;1) makes the text red, and not bold even if it was. */
  lemma RedAndBold(v: Vt)
    requires WellFormed(v) && v.parser.npar == 2 && v.parser.pars[0] == 31 && v.parser.pars[1] == 1
    ensures !Other(v, 'm').attrs.bold && Wishes(v, 2).attrs.bold && Other(v, 'm').attrs.fg == Wishes(v, 2).attrs.fg == 2
  {
    FormedRows(v);
    hide WellFormed;
    assert Renditions(v, 0) == v && Wishes(v, 0) == v;
    var a, b := Renditions(v, 1), Wishes(v, 1);
    assert Renditions(v, 2) == Rendered(a, 1) && Wishes(v, 2) == Wanted(b, 1);
    ColoursAgree(v, 2);
    assert a == Rendered(v, 31) && b == Wanted(v, 31);
    hide Renditions, Wishes;
    OneDone(a, 1, Bold);
    OneWanted(b, 1, Bold);
    ShadedColour(v.attrs, 31, false);
    ShadedColour(a.attrs, 1, false);
    hide Shaded, WantedAttrs;
  }

  // ---------------------------------------------------------------- repetition

  /** REP right after the character w: it is repeated. The parser is in the state that the sequence brings about. */
  predicate RepRight(v: Vt, w: int, q: Parser)
    requires WellFormed(v) && InBounds(q)
  {
    WrittenFormed(v, w);
    var u := Written(v, w).(parser := q);
    Other(u, 'b') == Repeated(u, w, P1(u, 0))
  }

  /** The source takes the character from the cell before the cursor: it repeats the last one on every screen if and only
      if that one did not go into the last column, where the cursor leaves the row. */
  lemma RepAgrees(v: Vt, w: int, q: Parser)
    requires WellFormed(v) && InBounds(q)
    ensures (forall rows: seq<Row> :: |rows| == |v.rows| && AllRows(rows, v.ncol) ==> RepRight(v.(rows := rows), w, q)) <==>
      v.cur.c < v.ncol - 1
  {
    if v.cur.c < v.ncol - 1 {
      forall rows: seq<Row> | |rows| == |v.rows| && AllRows(rows, v.ncol) ensures RepRight(v.(rows := rows), w, q) {
        Recontented(v, rows);
        WrittenFormed(v.(rows := rows), w);
      }
    } else {
      var fill := if Cell(w, v.attrs) == BLANK then INK else BLANK;
      var rows := seq(|v.rows|, _ => seq(v.ncol, _ => fill));
      Recontented(v, rows);
      RepFails(v.(rows := rows), w, q, fill);
    }
  }

  lemma RepFails(v: Vt, w: int, q: Parser, fill: Cell)
    requires WellFormed(v) && InBounds(q) && v.cur.c == v.ncol - 1 && fill != Cell(w, v.attrs)
    requires forall i :: 0 <= i < |v.rows| ==> v.rows[i][0] == fill
    ensures !RepRight(v, w, q)
  {
    WrittenFormed(v, w);
    var u := Written(v, w).(parser := q);
    var last := |v.rows| - 1;
    WrittenSize(v, w);
    assert u.cur.c == 0 && u.rows[last - 1][0] == fill;
    hide Written, RaisedRows;
    if u.cur.r < last {
      Leaves(u, w, P1(u, 0));
    } else {
      Fills(u, w, P1(u, 0));
    }
  }

  /** Written from the start of a row that is not the last, the characters take the cursor along. */
  lemma {:induction false} Leaves(u: Vt, w: int, n: nat)
    requires WellFormed(u) && u.cur.c == 0 && u.cur.r < |u.rows| - 1
    ensures var x := Repeated(u, w, n); x.cur.r > u.cur.r || (x.cur.r == u.cur.r && x.cur.c == n)
    ensures |Repeated(u, w, n).rows| == |u.rows|
  {
    hide RaisedRows, AllRows;
    if n > 0 {
      Leaves(u, w, n - 1);
      WrittenSize(Repeated(u, w, n - 1), w);
    }
  }

  predicate AllOf(row: Row, n: nat, cell: Cell) { n <= |row| && forall j :: 0 <= j < n ==> row[j] == cell }

  /** The last row holds the character up to the cursor; where the cursor is at its start, so does the row above. */
  predicate Filling(x: Vt, cell: Cell, n: nat) {
    && WellFormed(x) && x.cur.r == |x.rows| - 1 && AllOf(x.rows[x.cur.r], x.cur.c, cell)
    && (n > 0 && x.cur.c == 0 ==> AllOf(x.rows[x.cur.r - 1], x.ncol, cell))
  }

  lemma {:induction false} Fills(u: Vt, w: int, n: nat)
    requires WellFormed(u) && u.cur.c == 0 && u.cur.r == |u.rows| - 1
    ensures Filling(Repeated(u, w, n), Cell(w, u.attrs), n) && Repeated(u, w, n).attrs == u.attrs
    ensures |Repeated(u, w, n).rows| == |u.rows| && Repeated(u, w, n).ncol == u.ncol
  {
    if n > 0 {
      Fills(u, w, n - 1);
      FillsMore(Repeated(u, w, n - 1), w, n - 1);
      hide Written, Filling;
    }
  }

  lemma FillsMore(x: Vt, w: int, n: nat)
    requires Filling(x, Cell(w, x.attrs), n)
    ensures Filling(Written(x, w), Cell(w, x.attrs), n + 1) && Written(x, w).attrs == x.attrs
    ensures |Written(x, w).rows| == |x.rows| && Written(x, w).ncol == x.ncol
  {
    WrittenFormed(x, w);
    WrittenSize(x, w);
  }
}
