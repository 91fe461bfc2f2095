/** What byte streams do to the terminal of src/tty/tmt.c, said without its parser. */
module ByteStreams {
  import opened Common
  import opened Decimal
  import opened Screen
  import opened RowMachine
  import Console
  import Ecma48

  const ESCAPE := '\U{1b}'

  // ---------------------------------------------------------------- one byte at a time

  /** The terminal is at rest: no control sequence has begun. */
  predicate AtRest(v: Vt) { WellFormed(v) && v.parser == START }

  lemma RunOne(v: Vt, i: char)
    requires WellFormed(v)
    ensures Run(v, [i]) == Fed(v, i)
  {
    assert [i][..0] == [] && Run(v, []) == v;
  }

  lemma RunMore(v: Vt, s: string, i: char)
    requires WellFormed(v)
    ensures Run(v, s + [i]) == Fed(Run(v, s), i)
  {
    assert (s + [i])[..|s|] == s;
  }

  lemma DigitInner(i: char)
    requires IsDigit(i)
    ensures !Final(Arg, i) && Inner(Arg, i)
  {
  }

  lemma DigitFed(v: Vt, i: char)
    requires WellFormed(v) && v.parser.state == Arg && IsDigit(i)
    ensures Fed(v, i) == v.(parser := v.parser.(arg := (v.parser.arg * 10 + (i as int - '0' as int)) % WRAP))
  {
    DigitInner(i);
    hide Final, Inner, AllRows;
  }

  lemma WrapStep(x: nat, d: nat)
    ensures (x % WRAP * 10 + d) % WRAP == (x * 10 + d) % WRAP
  {
    var q := x / WRAP;
    assert x * 10 + d == (x % WRAP * 10 + d) + 10 * q * WRAP;
    Multiple(x % WRAP * 10 + d, 10 * q);
  }

  lemma Multiple(x: nat, q: nat)
    ensures (x + q * WRAP) % WRAP == x % WRAP
  {
  }

  // ---------------------------------------------------------------- parameters

  /** Digits in a control sequence make up the pending parameter, on 32 bits. */
  lemma {:induction false} DigitsRun(v: Vt, s: string)
    requires WellFormed(v) && v.parser.state == Arg && v.parser.arg == 0 && AllDigits(s)
    ensures Run(v, s) == v.(parser := v.parser.(arg := Value(s) % WRAP))
  {
    if s != "" {
      hide WellFormed, Run, Fed, Value;
      var n := |s| - 1;
      var t, d := s[..n], s[n];
      assert s == t + [d] && AllDigits(t) && IsDigit(d);
      DigitsRun(v, t);
      RunMore(v, t, d);
      DigitFed(Run(v, t), d);
      ValueMore(t, d);
      WrapStep(Value(t), d as int - '0' as int);
    }
  }

  /** The digits of every 32-bit number make that number the parameter. */
  lemma NumberRun(v: Vt, n: nat)
    requires WellFormed(v) && v.parser.state == Arg && v.parser.arg == 0 && n < WRAP
    ensures Run(v, Digits(n)) == v.(parser := v.parser.(arg := n))
  {
    DigitsValue(n);
    hide Digits, Value, WellFormed, Run;
    DigitsRun(v, Digits(n));
  }

  predicate AllNumbers(ds: seq<string>) { forall i :: 0 <= i < |ds| ==> AllDigits(ds[i]) }

  /** Parameters with semicolons between them. An empty one counts as 0. */
  function Joined(ds: seq<string>): (s: string) {
    if |ds| == 0 then "" else if |ds| == 1 then ds[0] else Joined(ds[..|ds| - 1]) + [';'] + ds[|ds| - 1]
  }

  /** The parameters that are kept: the first eight, on 32 bits, and 0 for those that are missing. */
  function Kept(ds: seq<string>): (s: seq<nat>)
    requires AllNumbers(ds)
    ensures |s| == PAR_MAX && forall i :: 0 <= i < PAR_MAX ==> s[i] == if i < |ds| then Value(ds[i]) % WRAP else 0
  {
    seq(PAR_MAX, i requires 0 <= i < PAR_MAX => if i < |ds| then assert AllDigits(ds[i]); Value(ds[i]) % WRAP else 0)
  }

  /** The parser after the introducer and some parameters, the last of which is still pending. */
  function Reading(ds: seq<string>): (p: Parser)
    requires |ds| > 0 && AllNumbers(ds)
  {
    var n := |ds| - 1;
    assert AllNumbers(ds[..n]) && AllDigits(ds[n]);
    Parser(Arg, Kept(ds[..n]), Min(n, PAR_MAX), Value(ds[n]) % WRAP, false)
  }

  /** And when they are complete. */
  function Complete(ds: seq<string>): (p: Parser)
    requires |ds| > 0 && AllNumbers(ds)
    ensures InBounds(p)
  {
    Parser(Arg, Kept(ds), Min(|ds|, PAR_MAX), 0, false)
  }

  lemma ReadingComplete(ds: seq<string>)
    requires |ds| > 0 && AllNumbers(ds)
    ensures ConsumedArg(Reading(ds)) == Complete(ds)
  {
    var n := |ds| - 1;
    assert AllNumbers(ds[..n]) && AllDigits(ds[n]);
    hide Value;
    var a, b := ConsumedArg(Reading(ds)).pars, Kept(ds);
    forall i | 0 <= i < PAR_MAX ensures a[i] == b[i] {
    }
  }

  lemma {:induction false} ParametersRun(v: Vt, ds: seq<string>)
    requires AtRest(v) && |ds| > 0 && AllNumbers(ds)
    ensures Run(v, [ESCAPE, '['] + Joined(ds)) == v.(parser := Reading(ds))
  {
    var n := |ds| - 1;
    var last := ds[n];
    assert AllDigits(last);
    if n == 0 {
      Introduced(v);
      RunSplit(v, [ESCAPE, '['], last);
      FirstReading(ds);
      hide Run, WellFormed, Value;
      DigitsRun(v.(parser := START.(state := Arg)), last);
    } else {
      var front := ds[..n];
      assert AllNumbers(front);
      ParametersRun(v, front);
      var s := [ESCAPE, '['] + Joined(front);
      assert [ESCAPE, '['] + Joined(ds) == s + [';'] + last;
      RunSplit(v, s + [';'], last);
      RunMore(v, s, ';');
      ReadingComplete(front);
      NextReading(ds);
      Separated(v, front);
      hide Run, WellFormed, Value, Kept, Reading, Complete;
      DigitsRun(v.(parser := Complete(front)), last);
    }
  }

  lemma Introduced(v: Vt)
    requires AtRest(v)
    ensures Run(v, [ESCAPE, '[']) == v.(parser := START.(state := Arg)) && WellFormed(v.(parser := START.(state := Arg)))
  {
    hide AllRows;
    RunOne(v, ESCAPE);
    assert [ESCAPE, '['] == [ESCAPE] + ['['];
    RunMore(v, [ESCAPE], '[');
    hide Run;
  }

  lemma FirstReading(ds: seq<string>)
    requires |ds| == 1 && AllNumbers(ds)
    ensures Reading(ds) == START.(state := Arg, arg := Value(ds[0]) % WRAP)
  {
    assert ds[..0] == [];
    hide Value;
    assert Kept(ds[..0]) == NoPars();
  }

  lemma NextReading(ds: seq<string>)
    requires |ds| > 1 && AllNumbers(ds)
    ensures AllNumbers(ds[..|ds| - 1]) && Reading(ds) == Complete(ds[..|ds| - 1]).(arg := Value(ds[|ds| - 1]) % WRAP)
  {
    hide Value;
  }

  lemma Separated(v: Vt, ds: seq<string>)
    requires AtRest(v) && |ds| > 0 && AllNumbers(ds)
    ensures WellFormed(v.(parser := Reading(ds))) && WellFormed(v.(parser := Complete(ds)))
    ensures Fed(v.(parser := Reading(ds)), ';') == v.(parser := ConsumedArg(Reading(ds)))
  {
    hide Value, AllRows;
    assert AllNumbers(ds[..|ds| - 1]) && AllDigits(ds[|ds| - 1]);
    assert !Final(Arg, ';');
    hide Final, Kept;
  }

  /** The final bytes of control sequences. */
  const FINALS := "ABCDEFGdHfIJKLMPSTXZbcgmnhilsu@"

  /** A control sequence: its final byte acts with the parameters as they are written, and the terminal is at rest again. */
  lemma SequenceRun(v: Vt, ds: seq<string>, f: char)
    requires AtRest(v) && |ds| > 0 && AllNumbers(ds) && f in FINALS
    ensures WellFormed(v.(parser := Complete(ds)))
    ensures Run(v, [ESCAPE, '['] + Joined(ds) + [f]) == ParserReset(Action(v.(parser := Complete(ds)), f))
  {
    ParametersRun(v, ds);
    RunMore(v, [ESCAPE, '['] + Joined(ds), f);
    ReadingComplete(ds);
    Separated(v, ds);
    ReadingState(ds);
    assert Final(Arg, f);
    hide Run, Value, Kept, Reading, Complete, Action, WellFormed;
  }

  lemma ReadingState(ds: seq<string>)
    requires |ds| > 0 && AllNumbers(ds)
    ensures Reading(ds).state == Arg && Complete(ds).state == Arg && !Complete(ds).ignored && |Reading(ds).pars| == PAR_MAX
    ensures Complete(ds).npar == Min(|ds|, PAR_MAX) && InBounds(Complete(ds))
  {
    assert AllNumbers(ds[..|ds| - 1]) && AllDigits(ds[|ds| - 1]);
  }

  // ---------------------------------------------------------------- control sequences by the standard

  /** The machine with the parameters in place. */
  function Armed(v: Vt, ds: seq<string>): (w: Vt)
    requires |ds| > 0 && AllNumbers(ds)
  {
    v.(parser := Complete(ds))
  }

  /** A parameter that is missing or 0 counts as 1. */
  lemma ParameterIs(v: Vt, ds: seq<string>, x: nat)
    requires |ds| > 0 && AllNumbers(ds) && x < PAR_MAX
    ensures P1(Armed(v, ds), x) == if x < |ds| && Value(ds[x]) % WRAP != 0 then Value(ds[x]) % WRAP else 1
  {
    hide Value;
  }

  lemma MoveIsFinal(f: char)
    requires IsMove(f)
    ensures f in FINALS && !IsEdit(f)
  {
  }

  lemma EditIsFinal(f: char)
    requires IsEdit(f)
    ensures f in FINALS && !IsMove(f)
  {
  }

  /** A sequence that moves the cursor does nothing else, and it does what ECMA-48 asks exactly where the table of movements
      says so. */
  lemma MoveSequence(v: Vt, ds: seq<string>, f: char)
    requires AtRest(v) && |ds| > 0 && AllNumbers(ds) && IsMove(f)
    ensures WellFormed(Armed(v, ds))
    ensures var u := Run(v, [ESCAPE, '['] + Joined(ds) + [f]);
      u == v.(cur := u.cur) && (u.cur == Ecma48.Bidden(Armed(v, ds), f) <==> Ecma48.MoveRight(Armed(v, ds), f))
  {
    MoveIsFinal(f);
    SequenceRun(v, ds, f);
    ReadingState(ds);
    Ecma48.MovesConform(Armed(v, ds), f);
    hide Run, Value, Complete, WellFormed, IsMove, Target, Ecma48.Bidden, Ecma48.MoveRight;
  }

  /** One that edits the screen changes only rows, as ECMA-48 asks where the table of editing functions says so. */
  lemma EditSequence(v: Vt, ds: seq<string>, f: char)
    requires AtRest(v) && |ds| > 0 && AllNumbers(ds) && IsEdit(f)
    ensures WellFormed(Armed(v, ds))
    ensures var u := Run(v, [ESCAPE, '['] + Joined(ds) + [f]);
      u == v.(rows := u.rows) && (Ecma48.EditRight(Armed(v, ds), f) ==> u.rows == Ecma48.Asked(Armed(v, ds), f))
  {
    EditIsFinal(f);
    SequenceRun(v, ds, f);
    ReadingState(ds);
    var w := Armed(v, ds);
    if Ecma48.EditRight(w, f) {
      Ecma48.EditsConform(w, f);
      Itself(w);
      assert Edited(w.(rows := w.rows), f) == Ecma48.Asked(w.(rows := w.rows), f);
    }
    hide Run, Value, Complete, WellFormed, IsMove, IsEdit, Edited, Ecma48.Asked, Ecma48.EditRight, Ecma48.Conforms;
  }

  lemma Itself(w: Vt)
    requires WellFormed(w)
    ensures w.(rows := w.rows) == w && AllRows(w.rows, w.ncol)
  {
  }

  /** SGR changes only the renditions, as ECMA-48 asks exactly where its parameters say so. */
  lemma RenditionSequence(v: Vt, ds: seq<string>)
    requires AtRest(v) && |ds| > 0 && AllNumbers(ds)
    ensures WellFormed(Armed(v, ds))
    ensures var (u, w, n) := (Run(v, [ESCAPE, '['] + Joined(ds) + ['m']), Armed(v, ds), Min(|ds|, PAR_MAX));
      && u == v.(attrs := u.attrs, acs := u.acs)
      && (u == ParserReset(Ecma48.Wishes(w, n)) <==> forall m: Ecma48.Mark :: Ecma48.MarkRight(w, n, m))
  {
    hide Run, Value, Complete, WellFormed, IsMove, IsEdit, Ecma48.Wishes, Ecma48.MarkRight, Renditions, Action, Kept, Joined;
    SequenceRun(v, ds, 'm');
    ReadingState(ds);
    OtherFinal(v, ds, 'm');
    Ecma48.SgrAgrees(Armed(v, ds));
  }

  /** CUP: the cursor goes to the row and column given, counted from 1, or to the last ones. */
  lemma CursorPosition(v: Vt, r: nat, c: nat)
    requires AtRest(v) && 0 < r < WRAP && 0 < c < WRAP
    ensures Run(v, [ESCAPE, '['] + (Digits(r) + [';'] + Digits(c)) + ['H']) == v.(cur := Point(Min(r, |v.rows|) - 1, Min(c, v.ncol) - 1))
  {
    hide Digits, Value, Joined, Run, WellFormed;
    var ds := [Digits(r), Digits(c)];
    DigitsValue(r);
    DigitsValue(c);
    TwoJoined(ds);
    PositionSequence(v, ds, r, c);
  }

  lemma PositionSequence(v: Vt, ds: seq<string>, r: nat, c: nat)
    requires AtRest(v) && 0 < |ds| && AllNumbers(ds) && r > 0 && c > 0
    requires r == if Value(ds[0]) % WRAP != 0 then Value(ds[0]) % WRAP else 1
    requires c == if 1 < |ds| && Value(ds[1]) % WRAP != 0 then Value(ds[1]) % WRAP else 1
    ensures |v.rows| > 0 && v.ncol > 0
    ensures Run(v, [ESCAPE, '['] + Joined(ds) + ['H']) == v.(cur := Point(Min(r, |v.rows|) - 1, Min(c, v.ncol) - 1))
  {
    hide Value, Joined, Run, Complete, P1, IsMove, WellFormed, Ecma48.Bidden, Ecma48.MoveRight, Kept;
    MoveH();
    MoveSequence(v, ds, 'H');
    ParameterIs(v, ds, 0);
    ParameterIs(v, ds, 1);
    BiddenPosition(Armed(v, ds));
    AtLeastTwo(v);
  }

  lemma EmptyNumber()
    ensures AllNumbers([""]) && Value("") == 0
  {
  }

  lemma MoveH()
    ensures IsMove('H')
  {
  }

  lemma BiddenPosition(w: Vt)
    requires WellFormed(w)
    ensures Ecma48.MoveRight(w, 'H') && Ecma48.Bidden(w, 'H') == Point(Min(P1(w, 0), |w.rows|) - 1, Min(P1(w, 1), w.ncol) - 1)
  {
  }

  lemma TwoJoined(ds: seq<string>)
    requires |ds| == 2
    ensures Joined(ds) == ds[0] + [';'] + ds[1]
  {
    assert ds[..1] == [ds[0]];
  }

  /** Without parameters it goes home. */
  lemma CursorHome(v: Vt)
    requires AtRest(v)
    ensures Run(v, [ESCAPE, '[', 'H']) == v.(cur := Point(0, 0))
  {
    assert [ESCAPE, '['] + Joined([""]) + ['H'] == [ESCAPE, '[', 'H'];
    EmptyNumber();
    hide Value, Joined, Run, WellFormed;
    PositionSequence(v, [""], 1, 1);
    AtLeastTwo(v);
  }

  lemma AtLeastTwo(v: Vt)
    requires WellFormed(v)
    ensures |v.rows| >= 2 && v.ncol >= 2
  {
  }

  // ---------------------------------------------------------------- plain bytes

  lemma PlainFinal(v: Vt, i: char)
    requires AtRest(v) && (i == '\U{7}' || i == '\U{8}' || i == '\U{9}' || i == '\U{a}' || i == '\U{d}')
    ensures WellFormed(Consumed(v)) && Run(v, [i]) == ParserReset(Action(Consumed(v), i))
    ensures Consumed(v) == v.(parser := Consumed(v).parser) && Consumed(v).parser.state == Nul && ParserReset(v) == v
  {
    RunOne(v, i);
    ConsumedFormed(v);
    hide Run, Action, AllRows;
  }

  /** Backspace, carriage return, tab and bell. */
  lemma ControlBytes(v: Vt)
    requires AtRest(v)
    ensures Run(v, ['\U{8}']) == v.(cur := Point(v.cur.r, if v.cur.c > 0 then v.cur.c - 1 else 0))
    ensures Run(v, ['\r']) == v.(cur := Point(v.cur.r, 0))
    ensures v.cur.c < |v.tabs| && Run(v, ['\t']) == v.(cur := Point(v.cur.r, NextStop(v.tabs, v.cur.c)))
    ensures Run(v, ['\U{7}']) == v.(events := v.events + [Bell])
  {
    hide Run, NextStop, WellFormed, Consumed, RaisedRows;
    PlainFinal(v, '\U{8}');
    PlainFinal(v, '\r');
    PlainFinal(v, '\t');
    PlainFinal(v, '\U{7}');
    CursorOnTabs(v);
  }

  lemma CursorOnTabs(v: Vt)
    requires WellFormed(v)
    ensures v.cur.c < |v.tabs| && v.cur.r < |v.rows| && |v.rows| >= 2
  {
  }

  /** The screen moved up by one row: the first one is lost and a blank one comes in. */
  predicate MovedUp(rows: seq<Row>, ncol: nat, q: seq<Row>) {
    && |q| == |rows| && (forall i :: 0 <= i < |rows| - 1 ==> q[i] == rows[i + 1])
    && (|rows| > 0 ==> q[|rows| - 1] == BlankRow(ncol))
  }

  lemma RaisedOne(rows: seq<Row>, ncol: nat)
    requires |rows| >= 2
    ensures MovedUp(rows, ncol, RaisedRows(rows, ncol, 0, 1))
  {
  }

  /** Line feed: down by one row, on the last one by scrolling. */
  lemma LineFeed(v: Vt)
    requires AtRest(v)
    ensures v.cur.r < |v.rows| - 1 ==> Run(v, ['\n']) == v.(cur := Point(v.cur.r + 1, v.cur.c))
    ensures v.cur.r == |v.rows| - 1 ==>
      var u := Run(v, ['\n']); u == v.(rows := u.rows) && MovedUp(v.rows, v.ncol, u.rows)
  {
    hide Run, RaisedRows, MovedUp, WellFormed, Consumed, NextStop;
    PlainFinal(v, '\n');
    CursorOnTabs(v);
    RaisedOne(v.rows, v.ncol);
  }

  /** A printable character of ASCII. */
  predicate Visible(i: char) { ' ' <= i <= '~' }

  /** The row with s written over it from column c on. */
  function Typed(row: Row, c: nat, s: string, a: Attrs): (q: Row)
    requires c + |s| <= |row|
    ensures |q| == |row|
    ensures forall j :: 0 <= j < |row| ==> q[j] == if c <= j < c + |s| then Cell(s[j - c] as int, a) else row[j]
  {
    seq(|row|, j requires 0 <= j < |row| => if c <= j < c + |s| then Cell(s[j - c] as int, a) else row[j])
  }

  lemma VisibleFed(v: Vt, i: char)
    requires AtRest(v) && Visible(i) && !v.acs
    ensures Fed(v, i) == Written(v, i as int)
  {
    assert ParserReset(v) == v;
  }

  /** Text that ends before the last column stands in its row, and the cursor behind it. */
  lemma {:induction false} TextRun(v: Vt, s: string)
    requires AtRest(v) && !v.acs && v.cur.c + |s| < v.ncol && forall i :: 0 <= i < |s| ==> Visible(s[i])
    ensures var (r, c) := (v.cur.r, v.cur.c);
      && r < |v.rows| && |v.rows[r]| == v.ncol
      && Run(v, s) == v.(rows := v.rows[r := Typed(v.rows[r], c, s, v.attrs)], cur := Point(r, c + |s|))
  {
    var (r, c) := (v.cur.r, v.cur.c);
    var row := v.rows[r];
    if s == "" {
      assert Typed(row, c, s, v.attrs) == row;
    } else {
      var n := |s| - 1;
      var t := s[..n];
      TextRun(v, t);
      var u := Run(v, t);
      VisibleFed(u, s[n]);
      assert Typed(row, c, t, v.attrs)[c + n := Cell(s[n] as int, v.attrs)] == Typed(row, c, s, v.attrs);
      hide AllRows, RaisedRows;
    }
  }

  /** A character in the last column leads to the start of the next row, on the last one by scrolling. */
  lemma LastColumn(v: Vt, i: char)
    requires AtRest(v) && !v.acs && Visible(i) && v.cur.c == v.ncol - 1
    ensures var (r, c) := (v.cur.r, v.cur.c);
      && r < |v.rows| && c < |v.rows[r]|
      && var rows := v.rows[r := v.rows[r][c := Cell(i as int, v.attrs)]];
      && (r < |v.rows| - 1 ==> Run(v, [i]) == v.(rows := rows, cur := Point(r + 1, 0)))
      && (r == |v.rows| - 1 ==> var u := Run(v, [i]); u == v.(rows := u.rows, cur := Point(r, 0)) && MovedUp(rows, v.ncol, u.rows))
  {
    RunOne(v, i);
    VisibleFed(v, i);
    var rows := v.rows[v.cur.r := v.rows[v.cur.r][v.cur.c := Cell(i as int, v.attrs)]];
    RaisedOne(rows, v.ncol);
    hide Run, RaisedRows, MovedUp, Fed;
  }

  /** A table of codes is read from its start, and a code that is not in it stands for itself. */
  lemma {:induction false} TranslatedIs(codes: seq<int>, chars: string, c: int)
    requires |codes| == |chars|
    ensures forall k :: 0 <= k < |codes| && codes[k] == c && (forall j :: 0 <= j < k ==> codes[j] != c) ==>
      Translated(codes, chars, c) == chars[k] as int
    ensures c !in codes ==> Translated(codes, chars, c) == c
  {
    if codes != [] {
      TranslatedIs(codes[1..], chars[1..], c);
      forall k | 0 < k < |codes| && codes[k] == c && (forall j :: 0 <= j < k ==> codes[j] != c)
        ensures Translated(codes, chars, c) == chars[k] as int
      {
        assert codes[1..][k - 1] == c && forall j :: 0 <= j < k - 1 ==> codes[1..][j] == codes[j + 1];
      }
    }
  }

  // ---------------------------------------------------------------- escape sequences

  lemma EscapeRun(v: Vt, i: char)
    requires AtRest(v) && i in "H78c"
    ensures Run(v, [ESCAPE, i]) == Finished(v.(parser := START.(state := Esc)), i) && WellFormed(v.(parser := START.(state := Esc)))
  {
    RunOne(v, ESCAPE);
    assert [ESCAPE, i] == [ESCAPE] + [i];
    RunMore(v, [ESCAPE], i);
    assert Final(Esc, i);
    hide Run;
  }

  /** ESC 7 remembers cursor and attributes, and ESC 8 brings back what was remembered. */
  lemma SaveAndRestore(v: Vt)
    requires AtRest(v)
    ensures Run(v, [ESCAPE, '7']) == v.(saved := Saving(v.cur, v.attrs))
    ensures Run(v, [ESCAPE, '8']) == v.(cur := v.saved.cur, attrs := v.saved.attrs)
  {
    hide Run, AllRows, Finished;
    EscapeRun(v, '7');
    EscapeRun(v, '8');
    FinishedEscape(v, '7');
    FinishedEscape(v, '8');
  }

  lemma FinishedEscape(v: Vt, i: char)
    requires AtRest(v)
    ensures var w := v.(parser := START.(state := Esc));
      && WellFormed(w) && WellFormed(Consumed(w)) && Finished(w, i) == ParserReset(Action(Consumed(w), i))
      && Consumed(w) == v.(parser := Consumed(w).parser) && Consumed(w).parser.state == Esc && ParserReset(v) == v
  {
    hide Action, AllRows;
    ConsumedFormed(v.(parser := START.(state := Esc)));
  }

  /** So whatever text and movement lies between, the cursor and the attributes are back. */
  lemma SavedThrough(v: Vt, s: string)
    requires AtRest(v)
    ensures var u := Run(v, [ESCAPE, '7'] + s);
      AtRest(u) && u.saved == Saving(v.cur, v.attrs) ==>
        Run(v, [ESCAPE, '7'] + s + [ESCAPE, '8']) == u.(cur := v.cur, attrs := v.attrs)
  {
    RunSplit(v, [ESCAPE, '7'] + s, [ESCAPE, '8']);
    var u := Run(v, [ESCAPE, '7'] + s);
    hide Run;
    if AtRest(u) {
      SaveAndRestore(u);
    }
  }

  /** ESC H sets a tab stop. */
  lemma TabSet(v: Vt)
    requires AtRest(v)
    ensures v.cur.c < |v.tabs| && Run(v, [ESCAPE, 'H']) == v.(tabs := v.tabs[v.cur.c := true])
  {
    hide Run, AllRows, Finished;
    EscapeRun(v, 'H');
    FinishedEscape(v, 'H');
  }

  /** CSI 3 g takes all of them away. */
  lemma TabsCleared(v: Vt)
    requires AtRest(v)
    ensures var u := Run(v, [ESCAPE, '['] + Joined(["3"]) + ['g']);
      u == v.(tabs := u.tabs) && |u.tabs| == |v.tabs| && forall i :: 0 <= i < |u.tabs| ==> !u.tabs[i]
  {
    hide Run, Value, WellFormed, Joined, Renditions, Repeated, Kept;
    Single("3", 3);
    ReportRun(v, "3", 'g');
  }

  /** ESC c starts anew, but for the tab stops. */
  lemma StartedAnew(v: Vt)
    requires AtRest(v)
    ensures var u := Run(v, [ESCAPE, 'c']);
      && u.cur == Point(0, 0) && u.attrs == DEFATTRS && !u.acs && u.saved == Saving(Point(0, 0), DEFATTRS)
      && u.tabs == v.tabs && |u.rows| == |v.rows| && forall i :: 0 <= i < |u.rows| ==> Ecma48.IsBlank(u.rows[i])
  {
    hide Run, AllRows, Finished;
    EscapeRun(v, 'c');
    FinishedEscape(v, 'c');
  }

  lemma Single(d: string, n: nat)
    requires |d| == 1 && IsDigit(d[0]) && d[0] as int - '0' as int == n
    ensures AllNumbers([d]) && Kept([d])[0] == n && Value(d) == n
  {
    assert d[..0] == "";
    assert AllDigits(d) && [d][0] == d;
    assert Value(d) == n;
  }

  lemma OtherFinal(v: Vt, ds: seq<string>, f: char)
    requires AtRest(v) && |ds| > 0 && AllNumbers(ds) && f in "bcgmnhilsu" && WellFormed(Armed(v, ds))
    ensures Action(Armed(v, ds), f) == Other(Armed(v, ds), f)
  {
    assert !IsMove(f) && !IsEdit(f);
  }

  /** DSR reports where the cursor is, counted from 1. */
  lemma PositionReport(v: Vt)
    requires AtRest(v)
    ensures Run(v, [ESCAPE, '['] + Joined(["6"]) + ['n']) == v.(events := v.events + [Position(v.cur.r + 1, v.cur.c + 1)])
  {
    hide Run, Value, WellFormed, Joined, Other, Kept;
    Single("6", 6);
    ReportRun(v, "6", 'n');
    OtherReport(Armed(v, ["6"]));
  }

  lemma OtherReport(w: Vt)
    requires WellFormed(w) && w.parser.pars[0] == 6
    ensures Other(w, 'n') == w.(events := w.events + [Position(w.cur.r + 1, w.cur.c + 1)])
  {
    hide WellFormed, Renditions, Repeated;
  }

  /** DA reports what the terminal is. */
  lemma AttributesReport(v: Vt)
    requires AtRest(v)
    ensures Run(v, [ESCAPE, '['] + Joined([""]) + ['c']) == v.(events := v.events + [DeviceAttributes])
  {
    hide Run, Value, WellFormed, Joined, Renditions, Repeated, Kept;
    ReportRun(v, "", 'c');
  }

  /** The cursor is shown and hidden. */
  lemma CursorShown(v: Vt)
    requires AtRest(v)
    ensures Run(v, [ESCAPE, '['] + Joined(["25"]) + ['h']) == v.(events := v.events + [CursorOn])
    ensures Run(v, [ESCAPE, '['] + Joined(["25"]) + ['l']) == v.(events := v.events + [CursorOff])
  {
    hide Run, Value, WellFormed, Joined, Renditions, Repeated, Kept;
    TwentyFive();
    ReportRun(v, "25", 'h');
    ReportRun(v, "25", 'l');
  }

  lemma TwentyFive()
    ensures AllNumbers(["25"]) && Kept(["25"])[0] == 25
  {
    assert "25"[..1] == "2" && "2"[..0] == "";
    assert Value("2") == 2 && Value("25") == 25;
  }

  lemma ReportRun(v: Vt, d: string, f: char)
    requires AtRest(v) && AllDigits(d) && f in "bcgmnhilsu"
    ensures WellFormed(Armed(v, [d])) && Run(v, [ESCAPE, '['] + Joined([d]) + [f]) == ParserReset(Other(Armed(v, [d]), f))
  {
    SequenceRun(v, [d], f);
    OtherFinal(v, [d], f);
  }

  // ---------------------------------------------------------------- what is seen

  /** CSI 3 k m and CSI 4 k m select one of the eight colours. */
  lemma ColourSequence(v: Vt, p: nat)
    requires AtRest(v) && (30 <= p <= 37 || 40 <= p <= 47)
    ensures Run(v, [ESCAPE, '['] + Joined([Digits(p)]) + ['m']) ==
      v.(attrs := if p < 40 then v.attrs.(fg := p - 29) else v.attrs.(bg := p - 39))
  {
    hide Digits, Value, Run, WellFormed, Joined, Kept, Action, IsMove, IsEdit, Renditions, Rendered, Complete;
    var ds := [Digits(p)];
    DigitsValue(p);
    ReadingState(ds);
    FirstKept(ds, p);
    SequenceRun(v, ds, 'm');
    OtherFinal(v, ds, 'm');
    OneRendition(Armed(v, ds), p);
  }

  lemma FirstKept(ds: seq<string>, p: nat)
    requires |ds| == 1 && AllDigits(ds[0]) && Value(ds[0]) == p < WRAP
    ensures AllNumbers(ds) && Complete(ds).pars[0] == p
  {
    hide Value;
  }

  lemma OneRendition(w: Vt, p: nat)
    requires |w.parser.pars| == PAR_MAX && w.parser.pars[0] == p && (30 <= p <= 37 || 40 <= p <= 47)
    ensures Renditions(w, 1) == w.(attrs := if p < 40 then w.attrs.(fg := p - 29) else w.attrs.(bg := p - 39))
  {
    assert Renditions(w, 0) == w;
  }

  /** From column c on the row shows s in colour k. */
  predicate InColour(row: Row, c: nat, s: string, k: nat)
    requires k < 8
  {
    && c + |s| <= |row|
    && forall i :: 0 <= i < |s| ==> var g := Console.Drawn(row[c + i]); g.chr == s[i] as int && g.fg == Console.Shade(k)
  }

  lemma TypedDrawn(row: Row, c: nat, s: string, a: Attrs, k: nat)
    requires c + |s| <= |row| && k < 8 && a.fg == k + 1
    ensures InColour(Typed(row, c, s, a), c, s, k)
  {
    hide Console.Drawn, Console.Shade;
    forall i | 0 <= i < |s|
      ensures var g := Console.Drawn(Typed(row, c, s, a)[c + i]); g.chr == s[i] as int && g.fg == Console.Shade(k)
    {
      Console.DrawnAs(Typed(row, c, s, a)[c + i]);
    }
  }

  /** Text behind the sequence is drawn in that colour. */
  lemma ColouredText(v: Vt, k: nat, s: string)
    requires AtRest(v) && k < 8 && !v.acs && v.cur.c + |s| < v.ncol && forall i :: 0 <= i < |s| ==> Visible(s[i])
    ensures var (u, r, c) := (Run(v, [ESCAPE, '['] + Joined([Digits(30 + k)]) + ['m'] + s), v.cur.r, v.cur.c);
      r < |u.rows| && InColour(u.rows[r], c, s, k)
  {
    hide Digits, Joined, Run, WellFormed, Typed, InColour;
    ColourSequence(v, 30 + k);
    var start := [ESCAPE, '['] + Joined([Digits(30 + k)]) + ['m'];
    RunSplit(v, start, s);
    var w := Run(v, start);
    TextRun(w, s);
    TypedDrawn(v.rows[v.cur.r], v.cur.c, s, w.attrs, k);
  }
}
