/** The terminal emulator src/tty/tmt.c with the console src/tty/console.c as its callback. */
module Terminal {
  import opened Common
  import opened Decimal
  import opened Screen
  import opened RowMachine
  import Console

  const BUF_MAX := 100
  // what a frame buffer cell looks like with the cursor in it
  const CURSOR := Console.Glyph(0x110000, 0, 0)

  /** The cursor brought back onto the screen. */
  function Fixed(v: Vt): (v': Vt)
    requires |v.rows| > 0 && v.ncol > 0
  {
    v.(cur := Point(Last(v.cur.r, |v.rows|), Last(v.cur.c, v.ncol)))
  }

  /** The lines are sound, the display shows what it showed last, and if nothing is dirty that is the screen. */
  ghost predicate Coupled(screen: Lines, nline: nat, ncol: nat, dirty: bool, display: Console.Display, shown: seq<Row>) {
    && Sound(screen, nline, ncol, shown) && AllRows(shown, ncol)
    && Console.Fits(display, nline, ncol) && Console.Showing(display, shown)
    && (!dirty ==> Rows(screen) == shown)
  }

  lemma CoupledLive(screen: Lines, nline: nat, ncol: nat, dirty: bool, display: Console.Display, shown: seq<Row>)
    requires Coupled(screen, nline, ncol, dirty, display, shown)
    ensures Live(screen) && |Rows(screen)| == nline && Sound(screen, nline, ncol, shown)
  {
  }

  lemma CoupledDirty(screen: Lines, nline: nat, ncol: nat, dirty: bool, display: Console.Display, shown: seq<Row>)
    requires Coupled(screen, nline, ncol, dirty, display, shown)
    ensures Coupled(screen, nline, ncol, true, display, shown)
  {
  }

  /** When nothing is dirty the display shows the screen. */
  lemma CoupledShows(screen: Lines, nline: nat, ncol: nat, dirty: bool, display: Console.Display, shown: seq<Row>)
    requires Coupled(screen, nline, ncol, dirty, display, shown)
    ensures Console.Showing(display, shown) && (!dirty ==> shown == Rows(screen))
  {
  }

  /** The switch of sgr, and its colours. */
  method Switch(a: Attrs, acs: bool, first: nat, p: nat) returns (a': Attrs, acs': bool)
    ensures a' == Shaded(a, p, first < 20) && acs' == if p == 10 || p == 11 then first > 10 else acs
  {
    acs' := if p == 10 || p == 11 then first > 10 else acs;
    if p < 29 {
      a' := SwitchFlag(a, first < 20, p);
    } else {
      a' := SwitchColour(a, first < 20, p);
    }
  }

  method SwitchFlag(a: Attrs, on: bool, p: nat) returns (a': Attrs)
    requires p < 29
    ensures a' == Shaded(a, p, on)
  {
    match p
    case 0 => return DEFATTRS;
    case 1 | 22 => return a.(bold := on);
    case 2 | 23 => return a.(dim := on);
    case 4 | 24 => return a.(underline := on);
    case 5 | 25 => return a.(blink := on);
    case 7 | 27 => return a.(reverse := on);
    case 8 | 28 => return a.(invisible := on);
    case _ => return a;
  }

  method SwitchColour(a: Attrs, ghost on: bool, p: nat) returns (a': Attrs)
    requires p >= 29
    ensures a' == Shaded(a, p, on)
  {
    var black := if p < 40 then 30 else 40;
    if !(black <= p <= black + 7 || p == black + 9) {
      return a;
    }
    var color := if p == black + 9 then DEFAULT else p - black + 1;
    return if p < 40 then a.(fg := color) else a.(bg := color);
  }

  class Terminal {
    const nline: nat
    const ncol: nat
    var screen: Lines
    var dirty: bool
    var curs: Point
    var attrs: Attrs
    var acs: bool
    var old_: Saving
    var tabs: seq<bool>
    var parser: Parser
    var events: seq<Event>
    var nmb: nat
    var mb: seq<char>
    var display: Console.Display
    // the rows as they were when the console drew them last
    ghost var shown: seq<Row>

    /** The terminal as a machine over rows. */
    ghost function Abs(): (v: Vt)
      reads this
    {
      Vt(Rows(screen), ncol, curs, attrs, acs, old_, tabs, parser, events)
    }

    /** Lines, dirty flags and display fit together. */
    ghost predicate Inv() reads this {
      && Coupled(screen, nline, ncol, dirty, display, shown)
      && nmb == 0 && |mb| == BUF_MAX + 1
    }

    /** The cursor is on the screen, the parameters are in bounds, and the rest fits together. */
    ghost predicate Valid() reads this { Inv() && WellFormed(Abs()) }

    /** tmt_open, by way of tmt_resize, for a frame buffer with any contents: after the first drawing it shows a blank
        screen. */
    constructor (rows: nat, cols: nat, fb: seq<seq<Console.Glyph>>)
      requires 2 <= rows < WRAP && 2 <= cols < WRAP && Console.Sized(fb, rows, cols)
      ensures Valid() && nline == rows && ncol == cols && Console.Showing(display, Abs().rows)
      ensures Abs() == Vt(seq(rows, _ => BlankRow(cols)), cols, Point(0, 0), Attrs(false, false, false, false, false, false, 0, 0),
        false, Saving(Point(0, 0), Attrs(false, false, false, false, false, false, 0, 0)), Stops(cols), START, [])
    {
      var lines := BlankLines(rows, cols);
      BlankSound(rows, cols);
      var d := Console.Display(fb, seq(rows, _ => seq(cols, _ => Console.UNDRAWN)), 0, 0);
      BlankSweep(rows, cols, d);
      d := Console.Update(d, lines, rows);
      ghost var was := Rows(lines);
      RowLengths(lines, rows, cols, was);
      WidthShown(was, cols);
      DisplayFits(d, was, rows, cols);
      Console.CleanSound(lines, rows, cols, was);
      d := Console.MoveCursor(d, 0, 0, CURSOR, was, rows, cols);
      nline, ncol, screen, dirty, display, shown := rows, cols, Console.Cleaned(lines), false, d, was;
      var plain := Attrs(false, false, false, false, false, false, 0, 0);
      curs, attrs, acs, old_, tabs, parser := Point(0, 0), plain, false, Saving(Point(0, 0), plain), Stops(cols), START;
      events, nmb, mb := [], 0, seq(BUF_MAX + 1, _ => '\U{0}');
      new;
      hide Sound, Console.Showing, Console.Fits, Rows, Console.Cleaned;
    }

    // ---------------------------------------------------------------- the screen

    method ClearLineAt(row: nat, from: nat, to: int)
      requires Inv() && row < nline
      modifies this`screen, this`dirty
      ensures Inv() && |old(Abs()).rows| == nline && SameLines(old(screen), screen)
      ensures Abs() == old(Abs()).(rows := old(Abs()).rows[row := Blanked(old(Abs()).rows[row], from, to)])
    {
      hide Sound, Rows, Blanked, Console.Showing, Console.Fits, AllRows, SameLines;
      SoundLive(screen, nline, ncol, shown);
      screen := ClearLine(screen, row, from, to, nline, ncol, shown);
      SoundLive(screen, nline, ncol, shown);
      dirty := true;
    }

    method ClearLinesFrom(row: nat, num: nat)
      requires Inv()
      modifies this`screen, this`dirty
      ensures Inv() && SameLines(old(screen), screen)
      ensures Abs() == old(Abs()).(rows := BlankedRows(old(Abs()).rows, row, row + num))
    {
      hide Sound, Rows, BlankedRows, Console.Showing, Console.Fits, AllRows, SameLines;
      SoundLive(screen, nline, ncol, shown);
      ghost var was := Rows(screen);
      screen := ClearLines(screen, row, num, nline, ncol, shown);
      SoundLive(screen, nline, ncol, shown);
      if num > 0 && row < nline {
        dirty := true;
      } else {
        NoneBlanked(was, row, num);
      }
    }

    method ScrollUpFrom(row: nat, num: nat)
      requires Inv() && row < nline
      modifies this`screen, this`dirty
      ensures Inv() && |old(Abs()).rows| == nline && SameLines(old(screen), screen)
      ensures Abs() == old(Abs()).(rows := RaisedRows(old(Abs()).rows, ncol, row, num))
    {
      hide Sound, Rows, RaisedRows, LoweredRows, Console.Showing, Console.Fits, AllRows, SameLines;
      SoundLive(screen, nline, ncol, shown);
      ghost var was := Rows(screen);
      screen := ScrollUp(screen, row, num, nline, ncol, shown);
      SoundLive(screen, nline, ncol, shown);
      NotRaised(was, ncol, row, num);
      if Min(num, nline - 1 - row) > 0 {
        dirty := true;
      }
    }

    method ScrollDownFrom(row: nat, num: nat)
      requires Inv() && row < nline
      modifies this`screen, this`dirty
      ensures Inv() && |old(Abs()).rows| == nline && SameLines(old(screen), screen)
      ensures Abs() == old(Abs()).(rows := LoweredRows(old(Abs()).rows, ncol, row, num))
    {
      hide Sound, Rows, RaisedRows, LoweredRows, Console.Showing, Console.Fits, AllRows, SameLines;
      SoundLive(screen, nline, ncol, shown);
      ghost var was := Rows(screen);
      screen := ScrollDown(screen, row, num, nline, ncol, shown);
      SoundLive(screen, nline, ncol, shown);
      NotRaised(was, ncol, row, num);
      if Min(num, nline - 1 - row) > 0 {
        dirty := true;
      }
    }

    /** The cell at the cursor is written and its line is dirty. */
    method PutAtCursor(w: int)
      requires Inv() && curs.r < nline && curs.c < ncol
      modifies this`screen, this`dirty
      ensures Inv() && |old(Abs()).rows| == nline && |old(Abs()).rows[curs.r]| == ncol && SameLines(old(screen), screen)
      ensures Abs() == old(Abs()).(rows := old(Abs()).rows[curs.r := old(Abs()).rows[curs.r][curs.c := Cell(w, attrs)]])
    {
      hide Sound, Rows, Console.Showing, Console.Fits, AllRows, SameLines, WithRow;
      LineAt(screen, nline, ncol, shown, curs.r);
      var chars := screen.mem[screen.order[curs.r]].chars[curs.c := Cell(w, attrs)];
      WithRowSound(screen, nline, ncol, shown, curs.r, chars);
      screen := WithRow(screen, curs.r, chars);
      SoundLive(screen, nline, ncol, shown);
      dirty := true;
    }

    /** writecharatcurs. */
    method WriteChar(w: int)
      requires Valid()
      modifies this`screen, this`dirty, this`curs
      ensures Valid() && Abs() == Written(old(Abs()), w) && SameLines(old(screen), screen)
    {
      hide Coupled, Sound, Rows, RaisedRows, Console.Showing, Console.Fits, AllRows, SameLines, WellFormed;
      CoupledLive(screen, nline, ncol, dirty, display, shown);
      WrittenFormed(Abs(), w);
      ghost var v, lines := Abs(), screen;
      FormedCursor(v);
      PutAtCursor(w);
      if curs.c < ncol - 1 {
        curs := curs.(c := curs.c + 1);
      } else {
        curs := Point(curs.r + 1, 0);
      }
      if curs.r >= nline {
        curs := curs.(r := nline - 1);
        ghost var mid := screen;
        ScrollUpFrom(0, 1);
        SameTwice(lines, mid, screen);
      }
    }

    // ---------------------------------------------------------------- erasing

    /** ed. Where the cursor is in row 0, the subtraction of ED 1 passes zero. */
    method Ed()
      requires Valid()
      modifies this`screen, this`dirty
      ensures Inv() && Abs() == old(Abs()).(rows := Erased(old(Abs()))) && SameLines(old(screen), screen)
    {
      hide Coupled, Sound, Rows, Blanked, BlankedRows, Console.Showing, Console.Fits, AllRows, SameLines, WellFormed, Erased;
      CoupledLive(screen, nline, ncol, dirty, display, shown);
      ghost var v, lines := Abs(), screen;
      SameSelf(lines);
      FormedCursor(v);
      EdCases(v);
      var b, e := 0, nline;
      if parser.pars[0] == 0 {
        b := curs.r + 1;
        ClearLineAt(curs.r, curs.c, ncol);
      } else if parser.pars[0] == 1 {
        e := (curs.r - 1) % WRAP;
        ClearLineAt(curs.r, 0, curs.c);
      } else if parser.pars[0] != 2 {
        return;
      }
      ghost var mid := screen;
      ClearLinesFrom(b, e - b);
      SameTwice(lines, mid, screen);
    }

    /** el. */
    method El()
      requires Valid()
      modifies this`screen, this`dirty
      ensures Inv() && |old(Abs()).rows| == nline && SameLines(old(screen), screen)
      ensures Abs() == old(Abs()).(rows := old(Abs()).rows[curs.r := ErasedRow(old(Abs()))])
    {
      hide Coupled, Sound, Rows, Blanked, Console.Showing, Console.Fits, AllRows, SameLines, WellFormed;
      CoupledLive(screen, nline, ncol, dirty, display, shown);
      SameSelf(screen);
      FormedCursor(Abs());
      ghost var v := Abs();
      if parser.pars[0] == 0 {
        ClearLineAt(curs.r, curs.c, ncol);
      } else if parser.pars[0] == 1 {
        ClearLineAt(curs.r, 0, Min(curs.c + 1, ncol - 1));
      } else if parser.pars[0] == 2 {
        ClearLineAt(curs.r, 0, ncol);
      } else {
        assert v.rows == v.rows[curs.r := v.rows[curs.r]];
      }
    }

    /** The final bytes that change rows. */
    method Edit(i: char)
      requires Valid() && IsEdit(i)
      modifies this`screen, this`dirty
      ensures Inv() && Abs() == old(Abs()).(rows := Edited(old(Abs()), i)) && SameLines(old(screen), screen)
    {
      hide Sound, Rows, Blanked, Opened, Closed, RaisedRows, LoweredRows, Erased, ErasedRow, Console.Showing, Console.Fits,
        AllRows, SameLines, WellFormed;
      SoundLive(screen, nline, ncol, shown);
      ghost var v := Abs();
      FormedCursor(v);
      var n := if parser.pars[0] != 0 then parser.pars[0] else 1;
      LineAt(screen, nline, ncol, shown, curs.r);
      if i == 'J' {
        Ed();
      } else if i == 'K' {
        El();
      } else if i == 'L' {
        ScrollDownFrom(curs.r, n);
      } else if i == 'M' {
        ScrollUpFrom(curs.r, n);
      } else if i == 'P' {
        screen := DeleteCells(screen, curs.r, curs.c, n, nline, ncol, shown);
        dirty := true;
      } else if i == 'S' {
        ScrollUpFrom(0, n);
      } else if i == 'T' {
        ScrollDownFrom(0, n);
      } else if i == 'X' {
        ClearLineAt(curs.r, curs.c, n);
      } else {
        screen := InsertCells(screen, curs.r, curs.c, n, nline, ncol, shown);
        dirty := true;
      }
      SoundLive(screen, nline, ncol, shown);
    }

    // ---------------------------------------------------------------- cursor movement

    /** The final bytes that move the cursor, in 32-bit arithmetic; fixcursor follows. */
    method Move(i: char)
      requires Valid() && IsMove(i)
      modifies this`curs
      ensures Inv() && Fixed(Abs()) == old(Abs()).(cur := Target(old(Abs()), i)) && curs.r < WRAP && curs.c < WRAP
    {
      hide Coupled, Sound, Rows, Console.Showing, Console.Fits, AllRows, WellFormed, Last, NextStop, PreviousStop, Target;
      CoupledLive(screen, nline, ncol, dirty, display, shown);
      ghost var v := Abs();
      FormedCursor(v);
      FormedSizes(v);
      LastSame(curs.r, nline);
      LastSame(curs.c, ncol);
      TargetIs(v, i);
      if i == 'I' {
        TabForward();
      } else if i == 'Z' {
        TabBack();
        StopInside(tabs, v.cur.c);
      } else {
        var n := if parser.pars[0] != 0 then parser.pars[0] else 1;
        var m := if parser.pars[1] != 0 then parser.pars[1] else 1;
        curs := Shifted(curs, i, n, m, nline, ncol);
      }
    }

    /** The loop of HT and CHT; it may leave the cursor one past the last column. */
    method TabForward()
      requires |tabs| == ncol && ncol >= 2 && curs.c < ncol
      modifies this`curs
      ensures curs.r == old(curs).r && curs.c <= ncol && Last(curs.c, ncol) == NextStop(tabs, old(curs).c)
    {
      curs := curs.(c := curs.c + 1);
      while curs.c < ncol - 1 && !tabs[curs.c]
        invariant curs.r == old(curs).r && 0 < curs.c <= ncol && |tabs| == ncol
        invariant NextStop(tabs, old(curs).c) == NextStop(tabs, curs.c - 1)
        decreases ncol - curs.c
      {
        curs := curs.(c := curs.c + 1);
      }
    }

    /** The loop of CBT. */
    method TabBack()
      requires |tabs| == ncol && ncol >= 2 && curs.c < ncol
      modifies this`curs
      ensures curs == old(curs).(c := PreviousStop(tabs, old(curs).c))
    {
      var stop := false;
      while curs.c > 0 && !stop
        invariant curs.r == old(curs).r && curs.c < ncol && |tabs| == ncol
        invariant PreviousStop(tabs, old(curs).c) == if stop then curs.c else PreviousStop(tabs, curs.c)
        decreases curs.c
      {
        curs := curs.(c := curs.c - 1);
        stop := tabs[curs.c];
      }
    }

    /** fixcursor. */
    method FixCursor()
      requires Inv() && nline > 0 && ncol > 0
      modifies this`curs
      ensures Inv() && |old(Abs()).rows| == nline && Abs() == Fixed(old(Abs()))
    {
      hide Coupled, Sound, Rows, Console.Showing, Console.Fits, AllRows;
      CoupledLive(screen, nline, ncol, dirty, display, shown);
      curs := Point(Min(curs.r, nline - 1), Min(curs.c, ncol - 1));
    }

    // ---------------------------------------------------------------- the parser

    method ConsumeArg()
      requires Valid()
      modifies this`parser
      ensures Valid() && Abs() == Consumed(old(Abs()))
    {
      hide Coupled, Sound, Rows, Console.Showing, Console.Fits, AllRows, WellFormed;
      CoupledLive(screen, nline, ncol, dirty, display, shown);
      FormedCursor(Abs());
      ConsumedFormed(Abs());
      if parser.npar < PAR_MAX {
        parser := parser.(pars := parser.pars[parser.npar := parser.arg], npar := parser.npar + 1);
      }
      parser := parser.(arg := 0);
    }

    method ResetParser()
      requires Inv()
      modifies this`parser
      ensures Inv() && Abs() == ParserReset(old(Abs()))
    {
      hide Coupled, Sound, Rows, Console.Showing, Console.Fits, AllRows;
      CoupledLive(screen, nline, ncol, dirty, display, shown);
      parser := START;
    }

    // ---------------------------------------------------------------- rendition and repetition

    method Sgr()
      requires Valid()
      modifies this`attrs, this`acs
      ensures Inv() && Abs() == Renditions(old(Abs()), parser.npar)
    {
      hide Coupled, Sound, Rows, Console.Showing, Console.Fits, AllRows, WellFormed, Rendered;
      CoupledLive(screen, nline, ncol, dirty, display, shown);
      ghost var v := Abs();
      FormedCursor(v);
      FormedPars(v);
      var i := 0;
      while i < parser.npar
        invariant 0 <= i <= parser.npar && Inv() && Live(screen) && Abs() == Renditions(v, i)
      {
        Render(parser.pars[i]);
        i := i + 1;
      }
    }

    /** One parameter of sgr. */
    method Render(p: nat)
      requires Inv() && |parser.pars| == PAR_MAX
      modifies this`attrs, this`acs
      ensures Inv() && Abs() == Rendered(old(Abs()), p)
    {
      hide Coupled, Sound, Rows, Console.Showing, Console.Fits, AllRows, Shaded;
      CoupledLive(screen, nline, ncol, dirty, display, shown);
      attrs, acs := Switch(attrs, acs, parser.pars[0], p);
    }

    /** rep. */
    method Rep()
      requires Valid()
      modifies this`screen, this`dirty, this`curs
      ensures Valid() && Abs() == Other(old(Abs()), 'b') && SameLines(old(screen), screen)
    {
      hide Coupled, Sound, Rows, Console.Showing, Console.Fits, AllRows, SameLines, WellFormed, Written;
      CoupledLive(screen, nline, ncol, dirty, display, shown);
      SameSelf(screen);
      ghost var v := Abs();
      FormedCursor(v);
      if curs.c == 0 {
        return;
      }
      LineAt(screen, nline, ncol, shown, curs.r);
      var w := screen.mem[screen.order[curs.r]].chars[curs.c - 1].c;
      var n := if parser.pars[0] != 0 then parser.pars[0] else 1;
      var i := 0;
      while i < n
        invariant 0 <= i <= n && Valid() && Live(screen) && Abs() == Repeated(v, w, i) && SameLines(old(screen), screen)
      {
        ghost var was := screen;
        WriteChar(w);
        SameTwice(old(screen), was, screen);
        CoupledLive(screen, nline, ncol, dirty, display, shown);
        i := i + 1;
      }
    }

    // ---------------------------------------------------------------- the console

    /** notify: the console draws what is dirty and then moves its cursor. */
    method Notify(update: bool, moved: bool)
      requires Inv() && curs.r < nline && curs.c < ncol
      modifies this`screen, this`dirty, this`display, this`shown
      ensures Inv() && Abs() == old(Abs()) && SameLines(old(screen), screen)
      ensures update || !old(dirty) ==> shown == Abs().rows
      ensures update ==> !dirty
    {
      hide Sound, Rows, Console.Showing, Console.Fits, AllRows, SameLines, Console.Sweeping, Console.Cleaned;
      SoundLive(screen, nline, ncol, shown);
      SameSelf(screen);
      if update {
        ShownWidth(shown, ncol);
        CursorFits(display, nline, ncol);
        Console.ReadyToSweep(display, screen, nline, ncol, shown);
        display := Console.Update(display, screen, nline);
        RowLengths(screen, nline, ncol, shown);
        DisplayFits(display, Rows(screen), nline, ncol);
        Console.CleanSound(screen, nline, ncol, shown);
        shown := Rows(screen);
        screen := Console.Cleaned(screen);
        WidthShown(shown, ncol);
        SoundLive(screen, nline, ncol, shown);
        dirty := false;
      }
      if moved {
        display := Console.MoveCursor(display, curs.r, curs.c, CURSOR, shown, nline, ncol);
      }
    }

    // ---------------------------------------------------------------- bytes

    /** The part of tmt_reset that does not touch the screen. */
    method ResetFields()
      requires Inv()
      modifies this`curs, this`old_, this`acs, this`parser, this`attrs
      ensures Inv() && curs == Point(0, 0)
      ensures Abs() == ParserReset(old(Abs())).(cur := Point(0, 0), saved := Saving(Point(0, 0), DEFATTRS), acs := false, attrs := DEFATTRS)
    {
      hide Coupled, Rows;
      curs, old_, acs := Point(0, 0), old_.(cur := Point(0, 0)), false;
      ResetParser();
      attrs, old_ := DEFATTRS, old_.(attrs := DEFATTRS);
    }

    /** tmt_reset. */
    method ResetAll()
      requires Valid()
      modifies this
      ensures Valid() && Abs() == Reset(old(Abs())) && SameLines(old(screen), screen)
    {
      hide Coupled, Sound, Rows, Console.Showing, Console.Fits, AllRows, SameLines, WellFormed, BlankedRows;
      CoupledLive(screen, nline, ncol, dirty, display, shown);
      ghost var v, lines := Abs(), screen;
      FormedCursor(v);
      ResetFormed(v);
      ResetFields();
      ClearLinesFrom(0, nline);
      ghost var mid := screen;
      events := events + [CursorOn];
      Notify(true, true);
      SameTwice(lines, mid, screen);
      KeptFormed(v, Abs());
    }

    /** The final bytes of a control sequence that neither move the cursor nor edit rows. */
    method Misc(i: char)
      requires Valid() && !IsMove(i) && !IsEdit(i)
      modifies this`screen, this`dirty, this`curs, this`old_, this`attrs, this`acs, this`tabs, this`events
      ensures Inv() && Abs() == Other(old(Abs()), i) && SameLines(old(screen), screen)
    {
      hide Coupled, Sound, Rows, Console.Showing, Console.Fits, AllRows, SameLines, WellFormed, Renditions, Repeated, IsMove, IsEdit;
      CoupledLive(screen, nline, ncol, dirty, display, shown);
      SameSelf(screen);
      FormedCursor(Abs());
      if i == 'b' {
        Rep();
      } else if i == 'c' {
        events := events + [DeviceAttributes];
      } else if i == 'g' {
        if parser.pars[0] == 3 {
          // clearline on the tab line also reports the screen dirty
          CoupledDirty(screen, nline, ncol, dirty, display, shown);
          dirty := true;
          tabs := seq(ncol, _ => false);
        }
      } else if i == 'm' {
        Sgr();
      } else if i == 'n' {
        if parser.pars[0] == 6 {
          events := events + [Position(curs.r + 1, curs.c + 1)];
        }
      } else if i == 'h' {
        if parser.pars[0] == 25 {
          events := events + [CursorOn];
        }
      } else if i == 'l' {
        if parser.pars[0] == 25 {
          events := events + [CursorOff];
        }
      } else if i == 's' {
        old_ := Saving(curs, attrs);
      } else if i == 'u' {
        curs, attrs := old_.cur, old_.attrs;
      }
    }

    /** The actions on plain control characters. */
    method Control(i: char)
      requires Valid() && parser.state == Nul && Final(Nul, i)
      modifies this`screen, this`dirty, this`curs, this`events
      ensures Inv() && |Abs().rows| == nline > 0 && ncol > 0 && SameLines(old(screen), screen)
      ensures Fixed(Abs()) == Action(old(Abs()), i)
    {
      hide Coupled, Sound, Rows, Console.Showing, Console.Fits, AllRows, SameLines, WellFormed, RaisedRows, NextStop;
      CoupledLive(screen, nline, ncol, dirty, display, shown);
      SameSelf(screen);
      FormedCursor(Abs());
      if i == '\U{7}' || i == '\U{0}' {
        events := events + [Bell];
      } else if i == '\U{8}' {
        if curs.c > 0 {
          curs := curs.(c := curs.c - 1);
        }
      } else if i == '\U{9}' {
        TabForward();
      } else if i == '\U{a}' {
        if curs.r < nline - 1 {
          curs := curs.(r := curs.r + 1);
        } else {
          ScrollUpFrom(0, 1);
        }
      } else {
        curs := curs.(c := 0);
      }
    }

    /** The actions on escape sequences. */
    method Escape(i: char)
      requires Valid() && parser.state == Esc && Final(Esc, i)
      modifies this
      ensures Inv() && Abs() == Action(old(Abs()), i) && SameLines(old(screen), screen)
    {
      hide Coupled, Sound, Rows, Console.Showing, Console.Fits, AllRows, SameLines, WellFormed, Reset;
      CoupledLive(screen, nline, ncol, dirty, display, shown);
      SameSelf(screen);
      FormedCursor(Abs());
      if i == 'H' {
        tabs := tabs[curs.c := true];
      } else if i == '7' {
        old_ := Saving(curs, attrs);
      } else if i == '8' {
        curs, attrs := old_.cur, old_.attrs;
      } else {
        ResetAll();
      }
    }

    /** The action of a final byte. */
    method Act(i: char)
      requires Valid() && Final(parser.state, i)
      modifies this
      ensures Inv() && |Abs().rows| == nline > 0 && ncol > 0 && SameLines(old(screen), screen)
      ensures Fixed(Abs()) == Action(old(Abs()), i)
    {
      hide Coupled, Sound, Rows, Console.Showing, Console.Fits, AllRows, SameLines, WellFormed, Target, Edited, Other, Reset,
        IsMove, IsEdit, NextStop, RaisedRows, Final, Fixed;
      ghost var v := Abs();
      CoupledLive(screen, nline, ncol, dirty, display, shown);
      SameSelf(screen);
      FormedCursor(v);
      ActionFormed(v, i);
      FixedSame(v, i);
      match parser.state {
        case Nul => Control(i);
        case Esc => Escape(i);
        case Arg =>
          if IsMove(i) {
            Move(i);
          } else if IsEdit(i) {
            Edit(i);
          } else {
            Misc(i);
          }
      }
      CoupledLive(screen, nline, ncol, dirty, display, shown);
    }

    /** The macro DO: consumearg, the action unless ignored, fixcursor, resetparser. */
    method Do(i: char)
      requires Valid() && Final(parser.state, i)
      modifies this
      ensures Valid() && Abs() == Finished(old(Abs()), i) && SameLines(old(screen), screen)
    {
      hide Coupled, Sound, Rows, Console.Showing, Console.Fits, AllRows, SameLines, WellFormed, Action, Fixed, Final;
      ghost var v := Abs();
      CoupledLive(screen, nline, ncol, dirty, display, shown);
      SameSelf(screen);
      FormedCursor(v);
      ConsumeArg();
      ghost var w := Abs();
      SameFixed(w);
      if !parser.ignored {
        ActionFormed(w, i);
        Act(i);
      }
      FixCursor();
      ghost var u := Abs();
      ParserFormed(if w.parser.ignored then w else Action(w, i));
      ResetParser();
    }

    /** handlechar. */
    method Handle(i: char) returns (handled: bool)
      requires Valid()
      modifies this
      ensures Valid() && SameLines(old(screen), screen)
      ensures handled <==> Final(old(Abs()).parser.state, i) || Inner(old(Abs()).parser.state, i)
      ensures handled ==> Abs() == Fed(old(Abs()), i)
      ensures !handled ==> Abs() == ParserReset(old(Abs()))
    {
      hide Coupled, Sound, Rows, Console.Showing, Console.Fits, AllRows, SameLines, WellFormed, Action, Finished, Final;
      ghost var v := Abs();
      SameSelf(screen);
      FormedCursor(v);
      FedFormed(v, i);
      handled := true;
      if Final(parser.state, i) {
        Do(i);
      } else if i == '\U{1b}' || (i == '\U{0}' && parser.state != Nul) {
        parser := parser.(state := Esc);
      } else if parser.state == Esc && i in "+*()" {
        parser := parser.(ignored := true, state := Arg);
      } else if parser.state == Esc && i == '[' {
        parser := parser.(state := Arg);
      } else if parser.state == Arg && i == ';' {
        ConsumeArg();
      } else if parser.state == Arg && i == '?' {
      } else if parser.state == Arg && IsDigit(i) {
        parser := parser.(arg := (parser.arg * 10 + (i as int - '0' as int)) % WRAP);
      } else {
        ParserFormed(v);
        ResetParser();
        handled := false;
      }
    }

    /** One turn of the loop of tmt_write: a byte that is no part of a control function is printed. */
    method Feed(i: char)
      requires Valid()
      modifies this
      ensures Valid() && Abs() == Fed(old(Abs()), i) && SameLines(old(screen), screen)
    {
      hide Coupled, Sound, Rows, Console.Showing, Console.Fits, AllRows, SameLines, WellFormed, Finished, Final, Written;
      ghost var lines := screen;
      var handled := Handle(i);
      ghost var mid := screen;
      if !handled {
        if acs {
          WriteChar(Printed(true, i));
        } else {
          // an empty buffer takes the byte and gives it back
          mb := mb[nmb := i];
          nmb := nmb + 1;
          nmb := 0;
          WriteChar(Printed(false, mb[0]));
        }
        SameTwice(lines, mid, screen);
      }
    }

    /** tmt_write: the bytes are fed in order; then the console shows the whole screen. */
    method Write(s: string)
      requires Valid()
      modifies this
      ensures Valid() && Abs() == Run(old(Abs()), s) && SameLines(old(screen), screen)
      ensures Console.Showing(display, Abs().rows) && shown == Abs().rows
    {
      hide Coupled, Sound, Rows, Console.Showing, Console.Fits, AllRows, SameLines, WellFormed, Fed;
      ghost var v, lines := Abs(), screen;
      SameSelf(screen);
      var oc := curs;
      var p := 0;
      assert s[..0] == [];
      while p < |s|
        invariant 0 <= p <= |s| && Valid() && Abs() == Run(v, s[..p]) && SameLines(lines, screen)
      {
        ghost var was := screen;
        assert s[..p + 1][..p] == s[..p];
        Feed(s[p]);
        SameTwice(lines, was, screen);
        p := p + 1;
      }
      assert s[..p] == s;
      FormedCursor(Abs());
      CoupledLive(screen, nline, ncol, dirty, display, shown);
      CoupledShows(screen, nline, ncol, dirty, display, shown);
      ghost var was := screen;
      Notify(dirty, oc != curs);
      CoupledShows(screen, nline, ncol, dirty, display, shown);
      SameTwice(lines, was, screen);
    }
  }

  /** The tab stops tmt_resize sets: every eighth column and the last. */
  function Stops(ncol: nat): (t: seq<bool>)
    ensures |t| == ncol
  {
    seq(ncol, i => i % 8 == 0 || i == ncol - 1)
  }

  /** Fresh lines: cleared, so blank and dirty. */
  function BlankLines(nline: nat, ncol: nat): (s: Lines) {
    var order := seq(nline, i => i + 1);
    Lines(order, map p | p in order :: Line(true, BlankRow(ncol)))
  }

  lemma BlankSound(nline: nat, ncol: nat)
    ensures var s := BlankLines(nline, ncol);
      && Sound(s, nline, ncol, Rows(s)) && Rows(s) == seq(nline, _ => BlankRow(ncol))
      && forall p :: p in s.mem ==> s.mem[p].dirty
  {
    var s := BlankLines(nline, ncol);
    forall i, j | 0 <= i < j < nline ensures s.order[i] != s.order[j] {
    }
    assert AllDifferent(s.order);
    assert (set p | p in s.order) == s.mem.Keys;
    GoodLive(s, nline, ncol);
  }

  lemma BlankSweep(nline: nat, ncol: nat, d: Console.Display)
    requires Console.Sized(d.fb, nline, ncol) && d.cache == seq(nline, _ => seq(ncol, _ => Console.UNDRAWN))
    ensures Live(BlankLines(nline, ncol)) && Console.Sweeping(d, BlankLines(nline, ncol), 0)
  {
    var s := BlankLines(nline, ncol);
    BlankSound(nline, ncol);
    GoodLive(s, nline, ncol);
    forall k | 0 <= k < nline ensures Console.Ready(d, k, s.mem[s.order[k]]) {
      forall j | 0 <= j < ncol ensures Console.ReadyCell(d, k, j, BLANK) {
      }
    }
  }

  lemma SameFixed(v: Vt)
    requires WellFormed(v)
    ensures Fixed(v) == v
  {
  }

  lemma FixedSame(v: Vt, i: char)
    requires WellFormed(v)
    ensures WellFormed(Action(v, i)) && Fixed(Action(v, i)) == Action(v, i)
  {
    hide Action;
    ActionFormed(v, i);
    SameFixed(Action(v, i));
  }

  lemma KeptFormed(v: Vt, v': Vt)
    requires WellFormed(Reset(v)) && v' == Reset(v)
    ensures WellFormed(v')
  {
  }

  lemma CursorFits(d: Console.Display, nline: nat, ncol: nat)
    requires Console.Fits(d, nline, ncol)
    ensures d.y < nline && d.x < ncol
  {
  }

  lemma FormedPars(v: Vt)
    requires WellFormed(v)
    ensures v.parser.npar <= PAR_MAX
  {
  }

  lemma ShownWidth(rows: seq<Row>, ncol: nat)
    requires AllRows(rows, ncol)
    ensures forall i :: 0 <= i < |rows| ==> |rows[i]| == ncol
  {
  }

  lemma WidthShown(rows: seq<Row>, ncol: nat)
    requires forall i :: 0 <= i < |rows| ==> |rows[i]| == ncol
    ensures AllRows(rows, ncol)
  {
  }

  lemma DisplayFits(d: Console.Display, rows: seq<Row>, nline: nat, ncol: nat)
    requires Console.Showing(d, rows) && |rows| == nline && d.y < nline && d.x < ncol
    requires forall i :: 0 <= i < |rows| ==> |rows[i]| == ncol
    ensures Console.Fits(d, nline, ncol)
  {
    forall i | 0 <= i < nline ensures |d.fb[i]| == ncol && |d.cache[i]| == ncol {
      assert Console.ShowsRow(d, i, rows[i]);
    }
  }

  lemma TargetIs(v: Vt, i: char)
    requires WellFormed(v) && IsMove(i)
    ensures P1(v, 0) < WRAP && P1(v, 1) < WRAP
    ensures Target(v, i) == match i
      case 'I' => v.cur.(c := NextStop(v.tabs, v.cur.c))
      case 'Z' => v.cur.(c := PreviousStop(v.tabs, v.cur.c))
      case _ => Goal(v.cur, i, P1(v, 0), P1(v, 1), |v.rows|, v.ncol)
  {
    hide Up, Onward, Last, NextStop, PreviousStop, AllRows;
  }

  /** The cursor movements as the source computes them, before fixcursor. */
  method Shifted(p: Point, i: char, n: nat, m: nat, nline: nat, ncol: nat) returns (q: Point)
    requires p.r < nline < WRAP && p.c < ncol < WRAP && 0 < n < WRAP && 0 < m < WRAP
    ensures Point(Last(q.r, nline), Last(q.c, ncol)) == Goal(p, i, n, m, nline, ncol) && q.r < WRAP && q.c < WRAP
  {
    hide Up, Onward, Last;
    LastSame(p.r, nline);
    LastSame(p.c, ncol);
    LastSame(0, ncol);
    match i {
      case 'A' => UpIs(p.r, n, nline); q := p.(r := Max((p.r - n) % WRAP, 0));
      case 'B' => OnwardIs(p.r, n, nline); q := p.(r := Min((p.r + n) % WRAP, nline - 1));
      case 'C' => OnwardIs(p.c, n, ncol); q := p.(c := Min((p.c + n) % WRAP, ncol - 1));
      case 'D' => BackIs(p.c, n, ncol); q := p.(c := Min((p.c - n) % WRAP, p.c));
      case 'E' => OnwardIs(p.r, n, nline); q := Point(Min((p.r + n) % WRAP, nline - 1), 0);
      case 'F' => UpIs(p.r, n, nline); q := Point(Max((p.r - n) % WRAP, 0), 0);
      case 'G' => LastIs(n - 1, ncol); q := p.(c := Min(n - 1, ncol - 1));
      case 'd' => LastIs(n - 1, nline); q := p.(r := Min(n - 1, nline - 1));
      case _ => q := Point(n - 1, m - 1);
    }
  }

  lemma FormedSizes(v: Vt)
    requires WellFormed(v)
    ensures |v.rows| < WRAP && v.ncol < WRAP && v.parser.pars[0] < WRAP && v.parser.pars[1] < WRAP
  {
  }

  lemma UpIs(r: nat, n: nat, nline: nat)
    requires r < nline < WRAP && n < WRAP
    ensures Max((r - n) % WRAP, 0) < WRAP && Last(Max((r - n) % WRAP, 0), nline) == Up(r, n, nline)
  {
    assert n > r ==> (r - n) % WRAP == WRAP - (n - r);
  }

  lemma OnwardIs(x: nat, n: nat, size: nat)
    requires 0 < size < WRAP
    ensures 0 <= Min((x + n) % WRAP, size - 1) < WRAP && Last(Min((x + n) % WRAP, size - 1), size) == Onward(x, n, size)
  {
  }

  lemma BackIs(x: nat, n: nat, size: nat)
    requires x < size < WRAP && n < WRAP
    ensures var y := Min((x - n) % WRAP, x); 0 <= y < WRAP && Last(y, size) == y == if n <= x then x - n else x
  {
    assert n > x ==> (x - n) % WRAP == WRAP - (n - x);
  }

  lemma LastIs(n: nat, size: nat)
    requires 0 < size
    ensures 0 <= Min(n, size - 1) && Last(Min(n, size - 1), size) == Last(n, size)
  {
  }

  lemma LastSame(n: nat, size: nat)
    requires n < size
    ensures Last(n, size) == n
  {
  }

  lemma StopInside(tabs: seq<bool>, c: nat)
    requires c < |tabs|
    ensures Last(PreviousStop(tabs, c), |tabs|) == PreviousStop(tabs, c)
  {
  }

  lemma EdCases(v: Vt)
    requires WellFormed(v)
    ensures var r, c := v.cur.r, v.cur.c;
      && (v.parser.pars[0] == 0 ==> Erased(v) == BlankedRows(v.rows[r := Blanked(v.rows[r], c, v.ncol)], r + 1, r + 1 + (|v.rows| - (r + 1))))
      && (v.parser.pars[0] == 1 ==> Erased(v) == BlankedRows(v.rows[r := Blanked(v.rows[r], 0, c)], 0, (r - 1) % WRAP))
      && (v.parser.pars[0] == 2 ==> Erased(v) == BlankedRows(v.rows, 0, |v.rows|))
      && (v.parser.pars[0] > 2 ==> Erased(v) == v.rows)
  {
    hide Blanked;
    if v.parser.pars[0] == 1 && v.cur.r == 0 {
      BeyondAll(v.rows[0 := Blanked(v.rows[0], 0, v.cur.c)], WRAP - 1);
    }
  }

  lemma BeyondAll(rows: seq<Row>, e: nat)
    requires |rows| <= e
    ensures BlankedRows(rows, 0, e) == BlankedRows(rows, 0, |rows|)
  {
  }

  lemma FormedCursor(v: Vt)
    requires WellFormed(v)
    ensures v.cur.r < |v.rows| && v.cur.c < v.ncol && |v.rows| >= 2 && v.ncol >= 2 && |v.parser.pars| == PAR_MAX && |v.tabs| == v.ncol
  {
  }

  lemma NoneBlanked(rows: seq<Row>, row: nat, num: nat)
    requires num == 0 || row >= |rows|
    ensures BlankedRows(rows, row, row + num) == rows
  {
  }
}
