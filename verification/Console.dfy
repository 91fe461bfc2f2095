/** The console src/tty/console.c, which draws the terminal's screen into the frame buffer. */
module Console {
  import opened Screen

  /** A character cell of the frame buffer, or of the console's cache of it. */
  datatype Glyph = Glyph(chr: int, fg: nat, bg: nat)

  const CLEARED := Glyph(SPACE, 0, 0)
  const UNDRAWN := Glyph(0, 0, 0)

  const COLORS: seq<nat> := [0x00000000, 0xfffd6883, 0xffadda78, 0xfff9cc6c, 0xffa8a9eb, 0xfff38d70, 0x85dacc, 0xfffff1f3, 0xffffffff]

  /** normalize_color. */
  function Normal(fg: bool, color: int): (n: nat) {
    if color < 1 || color > 8 then (if fg then 0xfffff1f3 else 0x00000000) else COLORS[color - 1]
  }

  /** How a cell of the screen is drawn. */
  function Drawn(cell: Cell): (g: Glyph) { Glyph(cell.c, Normal(true, cell.a.fg), Normal(false, cell.a.bg)) }

  /** Black, red, green, yellow, blue, magenta, cyan and white. */
  function Shade(k: nat): (n: nat)
    requires k < 8
  {
    match k
    case 0 => 0x00000000
    case 1 => 0xfffd6883
    case 2 => 0xffadda78
    case 3 => 0xfff9cc6c
    case 4 => 0xffa8a9eb
    case 5 => 0xfff38d70
    case 6 => 0x0085dacc
    case _ => 0xfffff1f3
  }

  /** The glyph has the cell's character, its foreground comes from the foreground attribute alone and its background from
      the background attribute alone: the eight colours in their order, white on black where there is none of them. */
  lemma DrawnAs(cell: Cell)
    ensures Drawn(cell).chr == cell.c
    ensures 1 <= cell.a.fg <= 8 ==> Drawn(cell).fg == Shade(cell.a.fg - 1)
    ensures 1 <= cell.a.bg <= 8 ==> Drawn(cell).bg == Shade(cell.a.bg - 1)
    ensures !(1 <= cell.a.fg <= 8) ==> Drawn(cell).fg == Shade(7)
    ensures !(1 <= cell.a.bg <= 8) ==> Drawn(cell).bg == Shade(0)
  {
  }

  /** The two look the same: a blank has no foreground. */
  predicate Alike(g: Glyph, h: Glyph) { g.chr == h.chr && g.bg == h.bg && (g.chr == SPACE || g.fg == h.fg) }

  /** set_cache: whether the cell must be drawn, and the new cache entry. */
  function SetCache(ent: Glyph, g: Glyph): (r: (bool, Glyph))
    ensures r.0 <==> !Alike(ent, g)
    ensures Alike(r.1, g)
  {
    if ent.chr == g.chr && ent.bg == g.bg && (ent.chr == SPACE || ent.fg == g.fg) then (false, ent) else (true, g)
  }

  /** gfx_fbtext_clear of n cells of a row. */
  function ClearRun(fb: seq<Glyph>, start: nat, n: nat): (r: seq<Glyph>)
    requires start + n <= |fb|
    ensures |r| == |fb| && forall j :: 0 <= j < |fb| ==> r[j] == if start <= j < start + n then CLEARED else fb[j]
  {
    fb[..start] + seq(n, _ => CLEARED) + fb[start + n..]
  }

  /** The cache shows the cell; and so does the frame buffer if it showed the cache before or had to be redrawn. */
  predicate Refreshed(cell: Cell, fb0: Glyph, cache0: Glyph, fb: Glyph, cache: Glyph) {
    && Alike(cache, Drawn(cell))
    && (Alike(fb0, cache0) || !Alike(cache0, Drawn(cell)) ==> Alike(fb, cache))
  }

  /** Everything before col is refreshed, except that the run of blanks from start on still has to be cleared. */
  predicate Pending(cells: Row, fb0: seq<Glyph>, cache0: seq<Glyph>, fb: seq<Glyph>, cache: seq<Glyph>, col: nat, start: nat, n: nat) {
    && |cells| == |fb0| == |cache0| == |fb| == |cache| && start + n <= |cells|
    && (forall j :: 0 <= j < col && j < |cells| && !(start <= j < start + n) ==> Refreshed(cells[j], fb0[j], cache0[j], fb[j], cache[j]))
    && (forall j :: start <= j < start + n ==> Alike(cache[j], Drawn(cells[j])) && Alike(cache[j], CLEARED))
    && (forall j :: col <= j < |cells| ==> fb[j] == fb0[j] && cache[j] == cache0[j])
  }

  /** write_row: only cells that the cache does not show already are drawn, and blanks are cleared in runs. */
  method WriteRow(cells: Row, fb0: seq<Glyph>, cache0: seq<Glyph>) returns (fb: seq<Glyph>, cache: seq<Glyph>)
    requires |cells| == |fb0| == |cache0|
    ensures |fb| == |cache| == |cells|
    ensures forall j :: 0 <= j < |cells| ==> Refreshed(cells[j], fb0[j], cache0[j], fb[j], cache[j])
  {
    fb, cache := fb0, cache0;
    var emptyStart, emptyLength := 0, 0;
    var col := 0;
    while col < |cells|
      invariant 0 <= col <= |cells| && emptyStart + emptyLength <= col && (emptyLength > 0 ==> emptyStart + emptyLength == col)
      invariant 0 <= emptyStart && 0 <= emptyLength
      invariant Pending(cells, fb0, cache0, fb, cache, col, emptyStart, emptyLength)
    {
      hide Drawn;
      var g := Drawn(cells[col]);
      var (changed, ent) := SetCache(cache[col], g);
      cache := cache[col := ent];
      if !changed {
        if emptyLength > 0 {
          fb := ClearRun(fb, emptyStart, emptyLength);
          emptyLength := 0;
        }
      } else if g.chr == SPACE && g.bg == 0 {
        if emptyLength == 0 {
          emptyStart := col;
        }
        emptyLength := emptyLength + 1;
      } else {
        if emptyLength > 0 {
          fb := ClearRun(fb, emptyStart, emptyLength);
          emptyLength := 0;
        }
        fb := fb[col := g];
      }
      col := col + 1;
    }
    if emptyLength > 0 {
      fb := ClearRun(fb, emptyStart, emptyLength);
    }
  }

  // ---------------------------------------------------------------- the whole screen

  /** The frame buffer, the cache and where the cursor was drawn last. */
  datatype Display = Display(fb: seq<seq<Glyph>>, cache: seq<seq<Glyph>>, x: nat, y: nat)

  predicate Sized(grid: seq<seq<Glyph>>, nline: nat, ncol: nat) {
    |grid| == nline && forall i :: 0 <= i < nline ==> |grid[i]| == ncol
  }

  predicate Fits(d: Display, nline: nat, ncol: nat) {
    Sized(d.fb, nline, ncol) && Sized(d.cache, nline, ncol) && d.y < nline && d.x < ncol
  }

  predicate AtCursor(d: Display, i: int, j: int) { i == d.y && j == d.x }

  /** The cache shows the cell at row i and column j, and so does the frame buffer unless the cursor is there. */
  predicate Shows(d: Display, i: nat, j: nat, cell: Cell)
    requires i < |d.fb| == |d.cache| && j < |d.fb[i]| == |d.cache[i]|
  {
    Alike(d.cache[i][j], Drawn(cell)) && (AtCursor(d, i, j) || Alike(d.fb[i][j], d.cache[i][j]))
  }

  predicate ShowsRow(d: Display, i: nat, row: Row) {
    && i < |d.fb| == |d.cache| && |row| == |d.fb[i]| == |d.cache[i]|
    && forall j :: 0 <= j < |row| ==> Shows(d, i, j, row[j])
  }

  /** The frame buffer is a full drawing of the rows, apart from the cursor. */
  predicate Showing(d: Display, rows: seq<Row>) {
    && |d.fb| == |d.cache| == |rows|
    && forall i :: 0 <= i < |rows| ==> ShowsRow(d, i, rows[i])
  }

  /** The drawing of every cell of the screen, whatever was there before. */
  function FullDrawing(rows: seq<Row>): (q: seq<seq<Glyph>>)
    ensures |q| == |rows|
  {
    seq(|rows|, i requires 0 <= i < |rows| => seq(|rows[i]|, j requires 0 <= j < |rows[i]| => Drawn(rows[i][j])))
  }

  /** Incremental drawing looks like full drawing. */
  lemma ShowingIsFull(d: Display, rows: seq<Row>, i: nat, j: nat)
    requires Showing(d, rows) && i < |rows| && j < |rows[i]| && !AtCursor(d, i, j)
    ensures |d.fb| == |rows| && |d.fb[i]| == |rows[i]| && Alike(d.fb[i][j], FullDrawing(rows)[i][j])
  {
    hide Drawn;
    assert ShowsRow(d, i, rows[i]);
    assert Shows(d, i, j, rows[i][j]);
  }

  /** A dirty row can be brought up to date: no cell that the cache takes for shown is missing in the frame buffer. */
  predicate Ready(d: Display, i: nat, line: Line) {
    && i < |d.fb| == |d.cache| && |line.chars| == |d.fb[i]| == |d.cache[i]|
    && if line.dirty then forall j :: 0 <= j < |line.chars| ==> ReadyCell(d, i, j, line.chars[j]) else ShowsRow(d, i, line.chars)
  }

  predicate ReadyCell(d: Display, i: nat, j: nat, cell: Cell)
    requires i < |d.fb| == |d.cache| && j < |d.fb[i]| == |d.cache[i]|
  {
    AtCursor(d, i, j) || Alike(d.fb[i][j], d.cache[i][j]) || !Alike(d.cache[i][j], Drawn(cell))
  }

  lemma RefreshRow(d: Display, i: nat, line: Line, fb: seq<Glyph>, cache: seq<Glyph>)
    requires Ready(d, i, line) && line.dirty && |fb| == |cache| == |line.chars|
    requires forall j :: 0 <= j < |line.chars| ==> Refreshed(line.chars[j], d.fb[i][j], d.cache[i][j], fb[j], cache[j])
    ensures ShowsRow(d.(fb := d.fb[i := fb], cache := d.cache[i := cache]), i, line.chars)
  {
    hide Drawn, Alike;
    var d' := d.(fb := d.fb[i := fb], cache := d.cache[i := cache]);
    forall j | 0 <= j < |line.chars| ensures Shows(d', i, j, line.chars[j]) {
      assert ReadyCell(d, i, j, line.chars[j]);
    }
  }

  lemma OtherRow(d: Display, d': Display, i: nat, line: Line)
    requires i < |d.fb| == |d.cache| == |d'.fb| == |d'.cache|
    requires d'.fb[i] == d.fb[i] && d'.cache[i] == d.cache[i] && d'.x == d.x && d'.y == d.y
    ensures Ready(d, i, line) ==> Ready(d', i, line)
    ensures ShowsRow(d, i, line.chars) ==> ShowsRow(d', i, line.chars)
  {
    hide Drawn, Alike;
    if Ready(d, i, line) && line.dirty {
      forall j | 0 <= j < |line.chars| ensures ReadyCell(d', i, j, line.chars[j]) {
        assert ReadyCell(d, i, j, line.chars[j]);
      }
    }
    if ShowsRow(d, i, line.chars) {
      forall j | 0 <= j < |line.chars| ensures Shows(d', i, j, line.chars[j]) {
        assert Shows(d, i, j, line.chars[j]);
      }
    }
  }

  /** Rows from i on are ready, those before are shown. */
  predicate Sweeping(d: Display, s: Lines, i: nat)
    requires Live(s)
  {
    && |d.fb| == |d.cache| == |s.order|
    && forall k :: 0 <= k < |s.order| ==>
         if k < i then ShowsRow(d, k, s.mem[s.order[k]].chars) else Ready(d, k, s.mem[s.order[k]])
  }

  lemma SweepOn(d: Display, d': Display, s: Lines, i: nat)
    requires Live(s) && Sweeping(d, s, i) && i < |s.order|
    requires |d'.fb| == |d'.cache| == |s.order| && d'.x == d.x && d'.y == d.y
    requires forall k :: 0 <= k < |s.order| && k != i ==> d'.fb[k] == d.fb[k] && d'.cache[k] == d.cache[k]
    requires ShowsRow(d', i, s.mem[s.order[i]].chars)
    ensures Sweeping(d', s, i + 1)
  {
    hide ShowsRow, Ready;
    forall k | 0 <= k < |s.order|
      ensures if k < i + 1 then ShowsRow(d', k, s.mem[s.order[k]].chars) else Ready(d', k, s.mem[s.order[k]])
    {
      if k != i {
        OtherRow(d, d', k, s.mem[s.order[k]]);
      }
    }
  }

  lemma SweepRow(d: Display, s: Lines, i: nat)
    requires Live(s) && Sweeping(d, s, i) && i < |s.order|
    ensures Ready(d, i, s.mem[s.order[i]]) && |d.fb| == |d.cache| == |s.order|
    ensures |d.fb[i]| == |d.cache[i]| == |s.mem[s.order[i]].chars|
    ensures !s.mem[s.order[i]].dirty ==> ShowsRow(d, i, s.mem[s.order[i]].chars)
  {
  }

  lemma SweepEnd(d: Display, s: Lines)
    requires Live(s) && Sweeping(d, s, |s.order|)
    ensures Showing(d, Rows(s))
  {
    hide ShowsRow, Ready;
  }

  /** TMT_MSG_UPDATE: draws the dirty rows and makes them clean; now everything is shown. */
  method Update(d0: Display, s: Lines, nline: nat) returns (d: Display)
    requires Live(s) && |s.order| == nline && Sweeping(d0, s, 0)
    ensures Showing(d, Rows(s)) && d.x == d0.x && d.y == d0.y
  {
    hide Sweeping, Showing, ShowsRow, Ready, Refreshed, Rows;
    d := d0;
    var row := 0;
    while row < nline
      invariant 0 <= row <= nline && Sweeping(d, s, row) && d.x == d0.x && d.y == d0.y
    {
      SweepRow(d, s, row);
      ghost var was := d;
      if s.mem[s.order[row]].dirty {
        var fb, cache := WriteRow(s.mem[s.order[row]].chars, d.fb[row], d.cache[row]);
        RefreshRow(d, row, s.mem[s.order[row]], fb, cache);
        d := d.(fb := d.fb[row := fb], cache := d.cache[row := cache]);
      }
      SweepOn(was, d, s, row);
      row := row + 1;
    }
    SweepEnd(d, s);
  }

  /** Between updates the display shows what was shown last, and every row that changed since is dirty. */
  lemma ReadyToSweep(d: Display, s: Lines, nline: nat, ncol: nat, shown: seq<Row>)
    requires Sound(s, nline, ncol, shown) && Showing(d, shown)
    requires forall i :: 0 <= i < nline ==> |shown[i]| == ncol
    ensures Sweeping(d, s, 0)
  {
    GoodLive(s, nline, ncol);
    forall k | 0 <= k < nline ensures Ready(d, k, s.mem[s.order[k]]) {
      hide Drawn, Alike, Good;
      assert |Rows(s)[k]| == ncol;
      assert ShowsRow(d, k, shown[k]);
      var line := s.mem[s.order[k]];
      if line.dirty {
        forall j | 0 <= j < |line.chars| ensures ReadyCell(d, k, j, line.chars[j]) {
          assert Shows(d, k, j, shown[k][j]);
        }
      }
    }
  }

  /** tmt_clean. */
  function Cleaned(s: Lines): (s': Lines)
    requires Live(s)
  {
    s.(mem := map p | p in s.mem :: s.mem[p].(dirty := false))
  }

  lemma CleanSound(s: Lines, nline: nat, ncol: nat, shown: seq<Row>)
    requires Sound(s, nline, ncol, shown)
    ensures Sound(Cleaned(s), nline, ncol, Rows(s)) && Rows(Cleaned(s)) == Rows(s) && SameLines(s, Cleaned(s))
  {
    var s' := Cleaned(s);
    assert s'.mem.Keys == s.mem.Keys;
  }

  /** TMT_MSG_MOVED: the cell under the old cursor is redrawn from the cache and the cursor drawn elsewhere; mark is
      what the frame buffer cell looks like with the cursor in it. */
  method MoveCursor(d0: Display, r: nat, c: nat, mark: Glyph, ghost rows: seq<Row>, ghost nline: nat, ghost ncol: nat) returns (d: Display)
    requires Fits(d0, nline, ncol) && Showing(d0, rows) && r < nline && c < ncol
    ensures Fits(d, nline, ncol) && Showing(d, rows) && d.y == r && d.x == c
  {
    var ent := d0.cache[d0.y][d0.x];
    d := d0.(fb := d0.fb[d0.y := d0.fb[d0.y][d0.x := ent]]);
    d := d.(x := c, y := r);
    d := d.(fb := d.fb[r := d.fb[r][c := mark]]);
    MovedShowing(d0, d, rows, mark);
  }

  lemma MovedShowing(d0: Display, d: Display, rows: seq<Row>, mark: Glyph)
    requires Showing(d0, rows) && d.cache == d0.cache && d0.y < |d0.fb| && d0.x < |d0.fb[d0.y]| && d0.y < |d0.cache| && d0.x < |d0.cache[d0.y]|
    requires d.y < |d0.fb| && d.x < |d0.fb[d.y]|
    requires var fb := d0.fb[d0.y := d0.fb[d0.y][d0.x := d0.cache[d0.y][d0.x]]]; d.fb == fb[d.y := fb[d.y][d.x := mark]]
    ensures Showing(d, rows)
  {
    hide Drawn;
    forall i | 0 <= i < |rows| ensures ShowsRow(d, i, rows[i]) {
      assert ShowsRow(d0, i, rows[i]);
      forall j | 0 <= j < |rows[i]| ensures Shows(d, i, j, rows[i][j]) {
        assert Shows(d0, i, j, rows[i][j]);
      }
    }
  }
}
