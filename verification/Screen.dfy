/** The screen of the terminal emulator src/tty/tmt.c: rows of cells, and the lines in memory that hold them. */
module Screen {
  import opened Common

  const DEFAULT := -1

  datatype Attrs = Attrs(bold: bool, dim: bool, underline: bool, blink: bool, reverse: bool, invisible: bool, fg: int, bg: int)

  const DEFATTRS := Attrs(false, false, false, false, false, false, DEFAULT, DEFAULT)

  const SPACE := 32

  datatype Cell = Cell(c: int, a: Attrs)

  const BLANK := Cell(SPACE, DEFATTRS)

  type Row = seq<Cell>

  // ---------------------------------------------------------------- what happens to rows

  /** The row with the cells from s up to e blank. */
  function Blanked(row: Row, s: nat, e: int): (r: Row)
    ensures |r| == |row|
  {
    seq(|row|, i requires 0 <= i < |row| => if s <= i < e then BLANK else row[i])
  }

  /** The rows from lo up to hi blank. */
  function BlankedRows(rows: seq<Row>, lo: nat, hi: int): (r: seq<Row>)
    ensures |r| == |rows|
  {
    seq(|rows|, i requires 0 <= i < |rows| => if lo <= i < hi then Blanked(rows[i], 0, |rows[i]|) else rows[i])
  }

  function BlankRow(n: nat): (r: Row)
    ensures |r| == n
  {
    seq(n, _ => BLANK)
  }

  /** The rows from r on move up by n, at most to leave one in place; blank rows come in below. */
  function RaisedRows(rows: seq<Row>, ncol: nat, r: nat, n: nat): (q: seq<Row>)
    requires r < |rows|
    ensures |q| == |rows|
  {
    var k := Min(n, |rows| - 1 - r);
    seq(|rows|, i requires 0 <= i < |rows| =>
      if i < r then rows[i] else if i < |rows| - k then rows[i + k] else BlankRow(ncol))
  }

  /** The rows from r on move down by n, at most to leave one; blank rows come in at r. */
  function LoweredRows(rows: seq<Row>, ncol: nat, r: nat, n: nat): (q: seq<Row>)
    requires r < |rows|
    ensures |q| == |rows|
  {
    var k := Min(n, |rows| - 1 - r);
    seq(|rows|, i requires 0 <= i < |rows| =>
      if i < r then rows[i] else if i < r + k then BlankRow(ncol) else rows[i - k])
  }

  /** What ICH does to a row: the cells from c on move right by n, except into the last column, and the cells from c
      up to column n (not c + n) are blank. */
  function Opened(row: Row, c: nat, n: nat): (q: Row)
    requires c < |row|
    ensures |q| == |row|
  {
    var k := Min(n, |row| - 1 - c);
    seq(|row|, i requires 0 <= i < |row| =>
      if c <= i < k then BLANK else if c + k <= i < |row| - 1 then row[i - k] else row[i])
  }

  /** What DCH does to a row: the cells from c + n on move left, blanks come in at the end. */
  function Closed(row: Row, c: nat, n: nat): (q: Row)
    requires c < |row|
    ensures |q| == |row|
  {
    var k := Min(n, |row| - c);
    seq(|row|, i requires 0 <= i < |row| => if i < c then row[i] else if i < |row| - k then row[i + k] else BLANK)
  }

  // ---------------------------------------------------------------- lines in memory

  /** TMTLINE. */
  datatype Line = Line(dirty: bool, chars: Row)

  /** The line pointers, top to bottom, and the lines they point to. */
  datatype Lines = Lines(order: seq<nat>, mem: map<nat, Line>)

  /** The pointers are nline different lines of ncol cells each, and there are no other lines. */
  predicate Good(s: Lines, nline: nat, ncol: nat) {
    && |s.order| == nline && AllDifferent(s.order)
    && (set p | p in s.order) == s.mem.Keys
    && forall p :: p in s.mem ==> |s.mem[p].chars| == ncol
  }

  predicate Live(s: Lines) { forall i :: 0 <= i < |s.order| ==> s.order[i] in s.mem }

  /** What the screen shows. */
  function Rows(s: Lines): (q: seq<Row>)
    ensures |q| == |s.order|
  {
    seq(|s.order|, i requires 0 <= i < |s.order| => if s.order[i] in s.mem then s.mem[s.order[i]].chars else [])
  }

  /** Every row that differs from what was shown last is dirty. */
  predicate Tracked(s: Lines, shown: seq<Row>)
    requires Live(s)
  {
    && |shown| == |s.order|
    && forall i :: 0 <= i < |s.order| ==> s.mem[s.order[i]].dirty || s.mem[s.order[i]].chars == shown[i]
  }

  /** A good screen whose changes are tracked. */
  predicate Sound(s: Lines, nline: nat, ncol: nat, shown: seq<Row>) {
    Good(s, nline, ncol) && Live(s) && Tracked(s, shown)
  }

  /** The same lines in memory. */
  predicate SameLines(s: Lines, s': Lines) { s.mem.Keys == s'.mem.Keys }

  lemma GoodLive(s: Lines, nline: nat, ncol: nat)
    requires Good(s, nline, ncol)
    ensures Live(s) && forall i :: 0 <= i < nline ==> |Rows(s)[i]| == ncol
  {
    forall i | 0 <= i < |s.order| ensures s.order[i] in s.mem {
      assert s.order[i] in (set p | p in s.order);
    }
  }

  /** The line at row i gets new cells and is marked dirty. */
  function WithRow(s: Lines, i: nat, row: Row): (s': Lines)
    requires i < |s.order|
  {
    s.(mem := s.mem[s.order[i] := Line(true, row)])
  }

  lemma WithRowSound(s: Lines, nline: nat, ncol: nat, shown: seq<Row>, i: nat, row: Row)
    requires Sound(s, nline, ncol, shown) && i < nline && |row| == ncol
    ensures Sound(WithRow(s, i, row), nline, ncol, shown) && SameLines(s, WithRow(s, i, row))
    ensures Rows(WithRow(s, i, row)) == Rows(s)[i := row]
  {
    var s' := WithRow(s, i, row);
    assert s'.mem.Keys == s.mem.Keys;
    forall j | 0 <= j < nline ensures j != i ==> s'.mem[s'.order[j]] == s.mem[s.order[j]] {
      if j != i { assert s.order[j] != s.order[i]; }
    }
    assert Rows(s') == Rows(s)[i := row];
  }

  /** clearline. */
  method ClearLine(s0: Lines, i: nat, from: nat, to: int, ghost nline: nat, ncol: nat, ghost shown: seq<Row>) returns (s: Lines)
    requires Sound(s0, nline, ncol, shown) && i < nline
    ensures Sound(s, nline, ncol, shown) && SameLines(s0, s)
    ensures Rows(s) == Rows(s0)[i := Blanked(Rows(s0)[i], from, to)]
  {
    hide Sound, Rows, Blanked;
    LineAt(s0, nline, ncol, shown, i);
    var chars := s0.mem[s0.order[i]].chars;
    var k := from;
    StartBlank(chars, from);
    while k < to && k < ncol
      invariant from <= k && |chars| == ncol && (k <= to || k == from)
      invariant chars == Blanked(Rows(s0)[i], from, Min(k, to))
      decreases ncol - k
    {
      BlankMore(Rows(s0)[i], from, k);
      chars := chars[k := BLANK];
      k := k + 1;
    }
    BlankRest(Rows(s0)[i], from, Min(k, to), to);
    WithRowSound(s0, nline, ncol, shown, i, chars);
    s := WithRow(s0, i, chars);
  }

  lemma LineAt(s: Lines, nline: nat, ncol: nat, shown: seq<Row>, i: nat)
    requires Sound(s, nline, ncol, shown) && i < nline
    ensures |s.order| == nline && s.order[i] in s.mem && Live(s)
    ensures |Rows(s)| == nline && Rows(s)[i] == s.mem[s.order[i]].chars && |Rows(s)[i]| == ncol
  {
    GoodLive(s, nline, ncol);
  }

  lemma StartBlank(row: Row, from: nat)
    ensures forall to :: to <= from ==> Blanked(row, from, to) == row
  {
  }

  lemma BlankMore(row: Row, from: nat, k: nat)
    requires from <= k < |row|
    ensures Blanked(row, from, k)[k := BLANK] == Blanked(row, from, k + 1)
  {
  }

  lemma BlankRest(row: Row, from: nat, k: int, to: int)
    requires k == to || (k <= to && |row| <= k) || (k <= from && (to <= from || |row| <= from) && k <= to)
    ensures Blanked(row, from, k) == Blanked(row, from, to)
  {
  }

  /** clearlines; num may be large, as it is where the source subtracts past zero. */
  method ClearLines(s0: Lines, r: nat, num: nat, nline: nat, ncol: nat, ghost shown: seq<Row>) returns (s: Lines)
    requires Sound(s0, nline, ncol, shown)
    ensures Sound(s, nline, ncol, shown) && SameLines(s0, s)
    ensures Rows(s) == BlankedRows(Rows(s0), r, r + num)
  {
    hide Sound, Rows, Blanked, BlankedRows, SameLines;
    SoundLive(s0, nline, ncol, shown);
    SameSelf(s0);
    s := s0;
    var i := r;
    StartRows(Rows(s0), r);
    while i < r + num && i < nline
      invariant r <= i <= r + num
      invariant Sound(s, nline, ncol, shown) && SameLines(s0, s) && Live(s) && Rows(s) == BlankedRows(Rows(s0), r, i)
      decreases nline - i
    {
      LineAt(s, nline, ncol, shown, i);
      RowsMore(Rows(s0), r, i);
      ghost var was := s;
      s := ClearLine(s, i, 0, ncol, nline, ncol, shown);
      SameTwice(s0, was, s);
      SoundLive(s, nline, ncol, shown);
      i := i + 1;
    }
    RowsRest(Rows(s0), r, i, r + num);
  }

  lemma SoundLive(s: Lines, nline: nat, ncol: nat, shown: seq<Row>)
    requires Sound(s, nline, ncol, shown)
    ensures Live(s) && |Rows(s)| == nline && |s.order| == nline && |shown| == nline
  {
  }

  lemma SameSelf(s: Lines)
    ensures SameLines(s, s)
  {
  }

  lemma SameTwice(a: Lines, b: Lines, c: Lines)
    requires SameLines(a, b) && SameLines(b, c)
    ensures SameLines(a, c)
  {
  }

  lemma StartRows(rows: seq<Row>, r: nat)
    ensures BlankedRows(rows, r, r) == rows
  {
  }

  lemma RowsMore(rows: seq<Row>, r: nat, i: nat)
    requires r <= i < |rows|
    ensures BlankedRows(rows, r, i)[i] == rows[i]
    ensures BlankedRows(rows, r, i)[i := Blanked(rows[i], 0, |rows[i]|)] == BlankedRows(rows, r, i + 1)
  {
  }

  lemma RowsRest(rows: seq<Row>, r: nat, i: nat, e: nat)
    requires r <= i <= e && (i == e || |rows| <= i)
    ensures BlankedRows(rows, r, i) == BlankedRows(rows, r, e)
  {
  }

  // ---------------------------------------------------------------- scrolling

  /** dirtylines from row r to the last: whatever those rows showed before, their changes are now tracked. */
  method DirtyLines(s0: Lines, r: nat, nline: nat, ghost ncol: nat, ghost before: seq<Row>, ghost shown: seq<Row>) returns (s: Lines)
    requires Sound(s0, nline, ncol, before) && |shown| == nline && r <= nline
    requires forall i :: 0 <= i < r ==> before[i] == shown[i]
    ensures Sound(s, nline, ncol, shown) && SameLines(s0, s) && Rows(s) == Rows(s0)
  {
    hide Sound, Rows, SameLines, WithRow;
    SoundLive(s0, nline, ncol, before);
    SameSelf(s0);
    s := s0;
    var i := r;
    MixStart(before, shown, r);
    while i < nline
      invariant r <= i <= nline && SameLines(s0, s) && |s.order| == nline
      invariant Sound(s, nline, ncol, Mixed(before, shown, i)) && Live(s) && Rows(s) == Rows(s0)
    {
      LineAt(s, nline, ncol, Mixed(before, shown, i), i);
      ghost var was := s;
      MarkRow(s, nline, ncol, Mixed(before, shown, i), i, if i < |shown| then shown[i] else []);
      MixMore(before, shown, i);
      s := WithRow(s, i, s.mem[s.order[i]].chars);
      SameTwice(s0, was, s);
      SoundLive(s, nline, ncol, Mixed(before, shown, i + 1));
      i := i + 1;
    }
    MixEnd(before, shown);
  }

  /** shown up to row i and before from there. */
  function Mixed(before: seq<Row>, shown: seq<Row>, i: nat): (q: seq<Row>)
    ensures |q| == |before|
  {
    seq(|before|, k requires 0 <= k < |before| => if k < i && k < |shown| then shown[k] else before[k])
  }

  lemma MixStart(before: seq<Row>, shown: seq<Row>, r: nat)
    requires forall i :: 0 <= i < r && i < |before| && i < |shown| ==> before[i] == shown[i]
    ensures Mixed(before, shown, r) == before
  {
  }

  lemma MixMore(before: seq<Row>, shown: seq<Row>, i: nat)
    requires i < |shown| && i < |before|
    ensures Mixed(before, shown, i + 1) == Mixed(before, shown, i)[i := shown[i]]
  {
  }

  lemma MixEnd(before: seq<Row>, shown: seq<Row>)
    ensures |before| == |shown| ==> Mixed(before, shown, |before|) == shown
  {
  }

  /** A row marked dirty may have been shown as anything. */
  lemma MarkRow(s: Lines, nline: nat, ncol: nat, shown: seq<Row>, i: nat, row: Row)
    requires Sound(s, nline, ncol, shown) && i < nline && s.order[i] in s.mem
    ensures |shown| == nline
    ensures var s' := WithRow(s, i, s.mem[s.order[i]].chars);
      Sound(s', nline, ncol, shown[i := row]) && SameLines(s, s') && Live(s) && Rows(s') == Rows(s)
  {
    var s' := WithRow(s, i, s.mem[s.order[i]].chars);
    LineAt(s, nline, ncol, shown, i);
    WithRowSound(s, nline, ncol, shown, i, s.mem[s.order[i]].chars);
    assert Rows(s') == Rows(s);
    var shown' := shown[i := row];
    forall j | 0 <= j < nline ensures s'.mem[s'.order[j]].dirty || s'.mem[s'.order[j]].chars == shown'[j] {
      assert s'.mem[s'.order[j]].dirty || s'.mem[s'.order[j]].chars == shown[j];
    }
  }

  /** The pointers from r on, n places further up, the first n of them at the end. */
  function Rotated(order: seq<nat>, r: nat, n: nat): (q: seq<nat>)
    requires r + n <= |order|
    ensures |q| == |order|
    ensures forall i :: 0 <= i < r ==> q[i] == order[i]
    ensures forall i :: r <= i < |order| - n ==> q[i] == order[i + n]
    ensures forall i :: |order| - n <= i < |order| && i >= r ==> q[i] == order[i - (|order| - n) + r]
  {
    order[..r] + order[r + n..] + order[r..r + n]
  }

  lemma RotatedMembers(order: seq<nat>, r: nat, n: nat)
    requires r + n <= |order| && AllDifferent(order)
    ensures AllDifferent(Rotated(order, r, n)) && (set p | p in Rotated(order, r, n)) == (set p | p in order)
  {
    var q := Rotated(order, r, n);
    forall p | p in order ensures p in q {
      var i :| 0 <= i < |order| && order[i] == p;
      if i < r { assert q[i] == p; }
      else if i < r + n { assert q[i - r + |order| - n] == p; }
      else { assert q[i - n] == p; }
    }
    forall p | p in q ensures p in order {
    }
  }

  /** shown for the rows above r, and what the rows from r on contain now. */
  function Half(shown: seq<Row>, rows: seq<Row>, r: nat): (q: seq<Row>)
    ensures |q| == |rows|
  {
    seq(|rows|, i requires 0 <= i < |rows| => if i < r && i < |shown| then shown[i] else rows[i])
  }

  /** Where the row that is now at i was before the rotation. */
  function Origin(i: int, r: nat, n: nat, nline: nat): int {
    if i < r then i else if i < nline - n then i + n else i - (nline - n) + r
  }

  lemma RotatedAt(order: seq<nat>, r: nat, n: nat, i: nat)
    requires r + n <= |order| && i < |order|
    ensures 0 <= Origin(i, r, n, |order|) < |order| && Rotated(order, r, n)[i] == order[Origin(i, r, n, |order|)]
  {
  }

  lemma RotateGood(s: Lines, nline: nat, ncol: nat, r: nat, n: nat)
    requires Good(s, nline, ncol) && r + n <= |s.order|
    ensures Good(s.(order := Rotated(s.order, r, n)), nline, ncol)
  {
    RotatedMembers(s.order, r, n);
    hide AllDifferent, Rotated;
  }

  lemma RotateSound(s: Lines, nline: nat, ncol: nat, shown: seq<Row>, r: nat, n: nat)
    requires Sound(s, nline, ncol, shown) && r + n <= |s.order|
    ensures var s' := s.(order := Rotated(s.order, r, n));
      && Live(s') && Sound(s', nline, ncol, Half(shown, Rows(s'), r)) && SameLines(s, s')
      && |Rows(s)| == |Rows(s')| == nline
      && forall i :: 0 <= i < nline ==> 0 <= Origin(i, r, n, nline) < nline && Rows(s')[i] == Rows(s)[Origin(i, r, n, nline)]
  {
    hide Good, AllDifferent, Rotated, Origin, Tracked, Half;
    var s' := s.(order := Rotated(s.order, r, n));
    SoundLive(s, nline, ncol, shown);
    RotateGood(s, nline, ncol, r, n);
    GoodLive(s', nline, ncol);
    GoodSize(s', nline, ncol);
    forall i | 0 <= i < nline
      ensures 0 <= Origin(i, r, n, nline) < nline && Rows(s')[i] == Rows(s)[Origin(i, r, n, nline)]
    {
      RotatedAt(s.order, r, n, i);
    }
    forall i | 0 <= i < nline && i < r ensures s'.order[i] == s.order[i] {
      RotatedAt(s.order, r, n, i);
      OriginAbove(i, r, n, nline);
    }
    HalfTracked(s, s', nline, ncol, shown, r);
  }

  lemma OriginAbove(i: int, r: nat, n: nat, nline: nat)
    requires i < r
    ensures Origin(i, r, n, nline) == i
  {
  }

  lemma HalfTracked(s: Lines, s': Lines, nline: nat, ncol: nat, shown: seq<Row>, r: nat)
    requires Sound(s, nline, ncol, shown) && Good(s', nline, ncol) && Live(s') && s'.mem == s.mem
    requires forall i :: 0 <= i < nline && i < r ==> s'.order[i] == s.order[i]
    ensures Tracked(s', Half(shown, Rows(s'), r))
  {
    hide Good;
    SoundLive(s, nline, ncol, shown);
    GoodSize(s', nline, ncol);
    forall i | 0 <= i < |s'.order|
      ensures s'.mem[s'.order[i]].dirty || s'.mem[s'.order[i]].chars == Half(shown, Rows(s'), r)[i]
    {
      assert i < r ==> s.mem[s.order[i]].dirty || s.mem[s.order[i]].chars == shown[i];
    }
  }

  lemma GoodSize(s: Lines, nline: nat, ncol: nat)
    requires Good(s, nline, ncol)
    ensures |s.order| == nline
  {
  }

  lemma UpRows(rows: seq<Row>, turned: seq<Row>, ncol: nat, r: nat, n: nat)
    requires |turned| == |rows| && r < |rows| && 0 < n <= |rows| - 1 - r
    requires forall i :: 0 <= i < |rows| ==> |turned[i]| == ncol
    requires forall i :: 0 <= i < |rows| ==>
      0 <= Origin(i, r, n, |rows|) < |rows| && turned[i] == rows[Origin(i, r, n, |rows|)]
    ensures BlankedRows(turned, |rows| - n, |rows|) == RaisedRows(rows, ncol, r, n)
  {
    forall i | 0 <= i < |rows| ensures BlankedRows(turned, |rows| - n, |rows|)[i] == RaisedRows(rows, ncol, r, n)[i] {
      BlankIsBlank(turned[i], ncol);
    }
  }

  lemma DownRows(rows: seq<Row>, turned: seq<Row>, ncol: nat, r: nat, n: nat)
    requires |turned| == |rows| && r < |rows| && 0 < n <= |rows| - 1 - r
    requires forall i :: 0 <= i < |rows| ==> |turned[i]| == ncol
    requires forall i :: 0 <= i < |rows| ==>
      var o := Origin(i, r, |rows| - n - r, |rows|); 0 <= o < |rows| && turned[i] == rows[o]
    ensures BlankedRows(turned, r, r + n) == LoweredRows(rows, ncol, r, n)
  {
    forall i | 0 <= i < |rows| ensures BlankedRows(turned, r, r + n)[i] == LoweredRows(rows, ncol, r, n)[i] {
      BlankIsBlank(turned[i], ncol);
    }
  }

  lemma BlankIsBlank(row: Row, ncol: nat)
    requires |row| == ncol
    ensures Blanked(row, 0, |row|) == BlankRow(ncol)
  {
  }

  /** scrup: the line pointers from r on rotate, those that wrap round are cleared, and all are dirty. */
  method ScrollUp(s0: Lines, r: nat, num: nat, nline: nat, ncol: nat, ghost shown: seq<Row>) returns (s: Lines)
    requires Sound(s0, nline, ncol, shown) && r < nline
    ensures Sound(s, nline, ncol, shown) && SameLines(s0, s)
    ensures Rows(s) == RaisedRows(Rows(s0), ncol, r, num)
  {
    hide Sound, SameLines, Rows, BlankedRows, Half, Rotated, Blanked, RaisedRows, LoweredRows, Origin;
    SoundLive(s0, nline, ncol, shown);
    SameSelf(s0);
    s := s0;
    var n := Min(num, nline - 1 - r);
    if n > 0 {
      var buf := s.order[r..r + n];
      var moved := s.order[..r] + s.order[r + n..] + buf;
      TurnIs(s.order, r, n);
      RotateSound(s0, nline, ncol, shown, r, n);
      s := s.(order := moved);
      ghost var turned := Rows(s);
      RowLengths(s, nline, ncol, Half(shown, turned, r));
      ghost var was := s;
      s := ClearLines(s, nline - n, n, nline, ncol, Half(shown, turned, r));
      SameTwice(s0, was, s);
      was := s;
      HalfShown(shown, turned, r, s0, nline, ncol);
      SoundLive(s, nline, ncol, Half(shown, turned, r));
      s := DirtyLines(s, r, nline, ncol, Half(shown, turned, r), shown);
      SameTwice(s0, was, s);
      UpRows(Rows(s0), turned, ncol, r, n);
    }
    SoundLive(s, nline, ncol, shown);
    NotRaised(Rows(s0), ncol, r, num);
  }

  lemma TurnIs(order: seq<nat>, r: nat, n: nat)
    requires r + n <= |order|
    ensures order[..r] + order[r + n..] + order[r..r + n] == Rotated(order, r, n)
  {
  }

  /** Rotating the tail by all but n places is the other direction. */
  lemma TurnBack(order: seq<nat>, r: nat, n: nat)
    requires r + n <= |order|
    ensures order[..r] + order[|order| - n..] + order[r..|order| - n] == Rotated(order, r, |order| - n - r)
  {
  }

  lemma RowLengths(s: Lines, nline: nat, ncol: nat, shown: seq<Row>)
    requires Sound(s, nline, ncol, shown)
    ensures Live(s) && |Rows(s)| == nline && forall i :: 0 <= i < nline ==> |Rows(s)[i]| == ncol
  {
    GoodLive(s, nline, ncol);
  }

  lemma HalfShown(shown: seq<Row>, rows: seq<Row>, r: nat, s: Lines, nline: nat, ncol: nat)
    requires Sound(s, nline, ncol, shown) && |rows| == nline && r < nline
    ensures |shown| == nline && forall i :: 0 <= i < r ==> Half(shown, rows, r)[i] == shown[i]
  {
  }

  lemma NotRaised(rows: seq<Row>, ncol: nat, r: nat, num: nat)
    requires r < |rows|
    ensures Min(num, |rows| - 1 - r) <= 0 ==>
      RaisedRows(rows, ncol, r, num) == rows && LoweredRows(rows, ncol, r, num) == rows
    ensures var n := Min(num, |rows| - 1 - r);
      RaisedRows(rows, ncol, r, num) == RaisedRows(rows, ncol, r, n) && LoweredRows(rows, ncol, r, num) == LoweredRows(rows, ncol, r, n)
  {
    var n := Min(num, |rows| - 1 - r);
    Capped(rows, ncol, r, num, n);
    if n == 0 {
      Unmoved(rows, ncol, r);
    }
  }

  lemma Capped(rows: seq<Row>, ncol: nat, r: nat, num: nat, n: nat)
    requires r < |rows| && n == Min(num, |rows| - 1 - r)
    ensures RaisedRows(rows, ncol, r, num) == RaisedRows(rows, ncol, r, n) && LoweredRows(rows, ncol, r, num) == LoweredRows(rows, ncol, r, n)
  {
    assert Min(n, |rows| - 1 - r) == n;
    forall i | 0 <= i < |rows|
      ensures RaisedRows(rows, ncol, r, num)[i] == RaisedRows(rows, ncol, r, n)[i]
      ensures LoweredRows(rows, ncol, r, num)[i] == LoweredRows(rows, ncol, r, n)[i]
    {
    }
  }

  lemma Unmoved(rows: seq<Row>, ncol: nat, r: nat)
    requires r < |rows|
    ensures RaisedRows(rows, ncol, r, 0) == rows && LoweredRows(rows, ncol, r, 0) == rows
  {
    assert Min(0, |rows| - 1 - r) == 0;
    forall i | 0 <= i < |rows| ensures RaisedRows(rows, ncol, r, 0)[i] == rows[i] && LoweredRows(rows, ncol, r, 0)[i] == rows[i] {
    }
  }

  /** scrdn. */
  method ScrollDown(s0: Lines, r: nat, num: nat, nline: nat, ncol: nat, ghost shown: seq<Row>) returns (s: Lines)
    requires Sound(s0, nline, ncol, shown) && r < nline
    ensures Sound(s, nline, ncol, shown) && SameLines(s0, s)
    ensures Rows(s) == LoweredRows(Rows(s0), ncol, r, num)
  {
    hide Sound, SameLines, Rows, BlankedRows, Half, Rotated, Blanked, RaisedRows, LoweredRows, Origin;
    SoundLive(s0, nline, ncol, shown);
    SameSelf(s0);
    s := s0;
    var n := Min(num, nline - 1 - r);
    if n > 0 {
      var buf := s.order[nline - n..];
      var moved := s.order[..r] + buf + s.order[r..nline - n];
      TurnBack(s.order, r, n);
      RotateSound(s0, nline, ncol, shown, r, nline - n - r);
      s := s.(order := moved);
      ghost var turned := Rows(s);
      RowLengths(s, nline, ncol, Half(shown, turned, r));
      ghost var was := s;
      s := ClearLines(s, r, n, nline, ncol, Half(shown, turned, r));
      SameTwice(s0, was, s);
      was := s;
      HalfShown(shown, turned, r, s0, nline, ncol);
      SoundLive(s, nline, ncol, Half(shown, turned, r));
      s := DirtyLines(s, r, nline, ncol, Half(shown, turned, r), shown);
      SameTwice(s0, was, s);
      DownRows(Rows(s0), turned, ncol, r, n);
    }
    SoundLive(s, nline, ncol, shown);
    NotRaised(Rows(s0), ncol, r, num);
  }

  // ---------------------------------------------------------------- editing one row

  /** memmove of n cells within a row. */
  function Moved(row: Row, to: nat, from: nat, n: nat): (q: Row)
    requires to + n <= |row| && from + n <= |row|
    ensures |q| == |row|
    ensures forall i :: 0 <= i < |row| ==> q[i] == if to <= i < to + n then row[i - to + from] else row[i]
  {
    row[..to] + row[from..from + n] + row[to + n..]
  }

  /** ich. */
  method InsertCells(s0: Lines, r: nat, c: nat, num: nat, ghost nline: nat, ncol: nat, ghost shown: seq<Row>) returns (s: Lines)
    requires Sound(s0, nline, ncol, shown) && r < nline && c < ncol
    ensures Sound(s, nline, ncol, shown) && SameLines(s0, s)
    ensures |Rows(s0)| == nline && |Rows(s0)[r]| == ncol && Rows(s) == Rows(s0)[r := Opened(Rows(s0)[r], c, num)]
  {
    hide Sound, SameLines, Rows, Opened, Blanked, Moved, WithRow;
    var n := num;
    if n > ncol - c - 1 {
      n := ncol - c - 1;
    }
    LineAt(s0, nline, ncol, shown, r);
    var line := s0.order[r];
    var chars := Moved(s0.mem[line].chars, c + n, c, Min(ncol - 1 - c, ncol - c - n - 1));
    WithRowSound(s0, nline, ncol, shown, r, chars);
    // the flag is set here because clearline sets it next whatever it clears
    s := WithRow(s0, r, chars);
    ghost var was := s;
    LineAt(s, nline, ncol, shown, r);
    s := ClearLine(s, r, c, n, nline, ncol, shown);
    SameTwice(s0, was, s);
    OpenedIs(Rows(s0)[r], c, num);
  }

  lemma OpenedIs(row: Row, c: nat, num: nat)
    requires c < |row|
    ensures var n := Min(num, |row| - 1 - c);
      Blanked(Moved(row, c + n, c, Min(|row| - 1 - c, |row| - c - n - 1)), c, n) == Opened(row, c, num)
  {
  }

  /** dch. */
  method DeleteCells(s0: Lines, r: nat, c: nat, num: nat, ghost nline: nat, ncol: nat, ghost shown: seq<Row>) returns (s: Lines)
    requires Sound(s0, nline, ncol, shown) && r < nline && c < ncol && num > 0
    ensures Sound(s, nline, ncol, shown) && SameLines(s0, s)
    ensures |Rows(s0)| == nline && |Rows(s0)[r]| == ncol && Rows(s) == Rows(s0)[r := Closed(Rows(s0)[r], c, num)]
  {
    hide Sound, SameLines, Rows, Closed, Blanked, Moved, WithRow;
    var n := num;
    if n > ncol - c {
      n := ncol - c;
    }
    LineAt(s0, nline, ncol, shown, r);
    var chars := Moved(s0.mem[s0.order[r]].chars, c, c + n, ncol - c - n);
    WithRowSound(s0, nline, ncol, shown, r, chars);
    s := WithRow(s0, r, chars);
    ghost var was := s;
    LineAt(s, nline, ncol, shown, r);
    s := ClearLine(s, r, ncol - n, ncol, nline, ncol, shown);
    SameTwice(s0, was, s);
    ClosedIs(Rows(s0)[r], c, num);
  }

  lemma ClosedIs(row: Row, c: nat, num: nat)
    requires c < |row|
    ensures var n := Min(num, |row| - c); Blanked(Moved(row, c, c + n, |row| - c - n), |row| - n, |row|) == Closed(row, c, num)
  {
  }
}
