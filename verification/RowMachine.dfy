/** The terminal src/tty/tmt.c as a machine over a screen of rows, without line pointers, dirty flags or 32-bit cursor
    arithmetic. What it does is what the code does; module Ecma48 says where that is what the standard asks. */
module RowMachine {
  import opened Common
  import opened Decimal
  import opened Screen

  const PAR_MAX := 8

  datatype Point = Point(r: nat, c: nat)

  datatype State = Nul | Esc | Arg

  /** What the terminal tells its host: the bell, the answers to requests, and whether the cursor is visible. */
  datatype Event = Bell | DeviceAttributes | Position(r: nat, c: nat) | CursorOn | CursorOff

  /** The state of the parser: the parameters so far, the one being read, and whether the sequence is to be ignored. */
  datatype Parser = Parser(state: State, pars: seq<nat>, npar: nat, arg: nat, ignored: bool)

  /** The cursor and the attributes that a later restore brings back. */
  datatype Saving = Saving(cur: Point, attrs: Attrs)

  datatype Vt = Vt(rows: seq<Row>, ncol: nat, cur: Point, attrs: Attrs, acs: bool, saved: Saving, tabs: seq<bool>,
                   parser: Parser, events: seq<Event>)

  predicate Inside(p: Point, nline: nat, ncol: nat) { p.r < nline && p.c < ncol }

  predicate AllRows(rows: seq<Row>, ncol: nat) { forall i :: 0 <= i < |rows| ==> |rows[i]| == ncol }

  /** The screen has at least two rows and columns, the cursor is on it, and so is the saved one. */
  predicate WellFormed(v: Vt) {
    && |v.rows| >= 2 && v.ncol >= 2 && AllRows(v.rows, v.ncol) && |v.rows| < WRAP && v.ncol < WRAP
    && Inside(v.cur, |v.rows|, v.ncol) && Inside(v.saved.cur, |v.rows|, v.ncol)
    && |v.tabs| == v.ncol && InBounds(v.parser)
  }

  /** At most eight parameters, each of 32 bits. */
  predicate InBounds(p: Parser) {
    |p.pars| == PAR_MAX && p.npar <= PAR_MAX && p.arg < WRAP && forall i :: 0 <= i < PAR_MAX ==> p.pars[i] < WRAP
  }

  function P1(v: Vt, x: nat): (n: nat)
    requires x < |v.parser.pars|
    ensures n > 0
  {
    if v.parser.pars[x] != 0 then v.parser.pars[x] else 1
  }

  // ---------------------------------------------------------------- the parser

  function NoPars(): (s: seq<nat>)
    ensures |s| == PAR_MAX && forall i :: 0 <= i < PAR_MAX ==> s[i] == 0
  {
    seq(PAR_MAX, _ => 0)
  }

  const START: Parser := Parser(Nul, NoPars(), 0, 0, false)

  function ParserReset(v: Vt): (v': Vt) { v.(parser := START) }

  function ConsumedArg(p: Parser): (p': Parser)
    requires |p.pars| == PAR_MAX
  {
    (if p.npar < PAR_MAX then p.(pars := p.pars[p.npar := p.arg], npar := p.npar + 1) else p).(arg := 0)
  }

  function Consumed(v: Vt): (v': Vt)
    requires |v.parser.pars| == PAR_MAX
  {
    v.(parser := ConsumedArg(v.parser))
  }

  /** The bytes that end a sequence; NUL counts as the first byte that its state looks for, in plain text the bell. */
  predicate Final(state: State, i: char) {
    match state
    case Nul => i == '\U{0}' || i == '\U{7}' || i == '\U{8}' || i == '\U{9}' || i == '\U{a}' || i == '\U{d}'
    case Esc => i in "H78c"
    case Arg => i in "ABCDEFGdHfIJKLMPSTXZbcgmnhilsu@"
  }

  /** The bytes that only change the parser. */
  predicate Inner(state: State, i: char) {
    match state
    case Nul => i == '\U{1b}'
    case Esc => i == '\U{1b}' || i == '\U{0}' || i in "+*()["
    case Arg => i == '\U{1b}' || i == '\U{0}' || i == ';' || i == '?' || IsDigit(i)
  }

  function Parsed(p: Parser, i: char): (p': Parser)
    requires |p.pars| == PAR_MAX && Inner(p.state, i)
  {
    if i == '\U{1b}' || i == '\U{0}' then p.(state := Esc)
    else if p.state == Esc then (if i == '[' then p.(state := Arg) else p.(ignored := true, state := Arg))
    else if i == ';' then ConsumedArg(p)
    else if IsDigit(i) then p.(arg := (p.arg * 10 + (i as int - '0' as int)) % WRAP)
    else p
  }

  // ---------------------------------------------------------------- tabulation

  /** The next tab stop to the right of column c, or the last column. */
  function NextStop(tabs: seq<bool>, c: nat): (q: nat)
    requires |tabs| > 0
    ensures q < |tabs| && (c < |tabs| - 1 ==> c < q) && (c >= |tabs| - 1 ==> q == |tabs| - 1)
    ensures q < |tabs| - 1 ==> tabs[q]
    ensures forall k :: c < k < q ==> !tabs[k]
    decreases |tabs| - c
  {
    if c + 1 >= |tabs| - 1 then |tabs| - 1 else if tabs[c + 1] then c + 1 else NextStop(tabs, c + 1)
  }

  /** The next tab stop to the left, or column 0. */
  function PreviousStop(tabs: seq<bool>, c: nat): (q: nat)
    requires c < |tabs|
    ensures q <= c && (c > 0 ==> q < c) && (q > 0 ==> tabs[q])
    ensures forall k :: q < k < c ==> !tabs[k]
  {
    if c == 0 then 0 else if tabs[c - 1] then c - 1 else PreviousStop(tabs, c - 1)
  }

  // ---------------------------------------------------------------- cursor movement

  function Last(n: nat, size: nat): nat
    requires size > 0
  {
    if n < size then n else size - 1
  }

  /** Up by n; past the top row the count comes round, and the cursor comes out on the last row. */
  function Up(r: nat, n: nat, nline: nat): nat
    requires 0 < nline && r < nline && n < WRAP
  {
    if n <= r then r - n else Last(WRAP - (n - r), nline)
  }

  /** Down or right by n, counted on 32 bits, but not past the end. */
  function Onward(x: nat, n: nat, size: nat): nat
    requires size > 0
  {
    Last((x + n) % WRAP, size)
  }

  /** CUU stops at no margin: it goes to the last row as soon as it would leave the screen. Only parameters within a
      screen of 2^32 do not. */
  lemma UpLeaves(r: nat, n: nat, nline: nat)
    requires 0 < nline && r < nline && r < n < WRAP
    ensures Up(r, n, nline) == nline - 1 <==> n - r <= WRAP - nline + 1
  {
  }

  predicate IsMove(i: char) { i in "ABCDEFGdHfIZ" }

  /** Where the cursor goes without the tab stops. */
  function Goal(p: Point, i: char, n: nat, m: nat, nline: nat, ncol: nat): (q: Point)
    requires p.r < nline && p.c < ncol && 0 < n < WRAP && 0 < m
    ensures Inside(q, nline, ncol)
  {
    match i
    case 'A' => p.(r := Up(p.r, n, nline))
    case 'B' => p.(r := Onward(p.r, n, nline))
    case 'C' => p.(c := Onward(p.c, n, ncol))
    case 'D' => p.(c := if n <= p.c then p.c - n else p.c)
    case 'E' => Point(Onward(p.r, n, nline), 0)
    case 'F' => Point(Up(p.r, n, nline), 0)
    case 'G' => p.(c := Last(n - 1, ncol))
    case 'd' => p.(r := Last(n - 1, nline))
    case _ => Point(Last(n - 1, nline), Last(m - 1, ncol))
  }

  /** Where the cursor goes. */
  function Target(v: Vt, i: char): (p: Point)
    requires WellFormed(v) && IsMove(i)
    ensures Inside(p, |v.rows|, v.ncol)
  {
    assert P1(v, 0) < WRAP;
    match i
    case 'I' => v.cur.(c := NextStop(v.tabs, v.cur.c))
    case 'Z' => v.cur.(c := PreviousStop(v.tabs, v.cur.c))
    case _ => Goal(v.cur, i, P1(v, 0), P1(v, 1), |v.rows|, v.ncol)
  }

  // ---------------------------------------------------------------- erasing and scrolling

  predicate IsEdit(i: char) { i in "JKLMPSTX@" }

  /** ED: below the cursor, above it (the row next to the cursor's stays, and from row 0 all go), or everything. */
  function Erased(v: Vt): (q: seq<Row>)
    requires WellFormed(v)
  {
    var (r, c) := (v.cur.r, v.cur.c);
    match v.parser.pars[0]
    case 0 => BlankedRows(v.rows[r := Blanked(v.rows[r], c, v.ncol)], r + 1, |v.rows|)
    case 1 => BlankedRows(v.rows[r := Blanked(v.rows[r], 0, c)], 0, if r == 0 then |v.rows| else r - 1)
    case 2 => BlankedRows(v.rows, 0, |v.rows|)
    case _ => v.rows
  }

  /** EL: to the right, to the left (never the last column), or the whole row. */
  function ErasedRow(v: Vt): (q: Row)
    requires WellFormed(v)
  {
    var (r, c) := (v.cur.r, v.cur.c);
    match v.parser.pars[0]
    case 0 => Blanked(v.rows[r], c, v.ncol)
    case 1 => Blanked(v.rows[r], 0, Min(c + 1, v.ncol - 1))
    case 2 => Blanked(v.rows[r], 0, v.ncol)
    case _ => v.rows[r]
  }

  function Edited(v: Vt, i: char): (q: seq<Row>)
    requires WellFormed(v) && IsEdit(i)
  {
    var (r, c, n) := (v.cur.r, v.cur.c, P1(v, 0));
    match i
    case 'J' => Erased(v)
    case 'K' => v.rows[r := ErasedRow(v)]
    case 'L' => LoweredRows(v.rows, v.ncol, r, n)
    case 'M' => RaisedRows(v.rows, v.ncol, r, n)
    case 'P' => v.rows[r := Closed(v.rows[r], c, n)]
    case 'S' => RaisedRows(v.rows, v.ncol, 0, n)
    case 'T' => LoweredRows(v.rows, v.ncol, 0, n)
    case 'X' => v.rows[r := Blanked(v.rows[r], c, n)]
    case _ => v.rows[r := Opened(v.rows[r], c, n)]
  }

  // ---------------------------------------------------------------- writing

  /** A character goes where the cursor is; the cursor moves on, at the end of the last row by scrolling. */
  function Written(v: Vt, w: int): (v': Vt)
    requires WellFormed(v)
  {
    var (r, c) := (v.cur.r, v.cur.c);
    var rows := v.rows[r := v.rows[r][c := Cell(w, v.attrs)]];
    if c < v.ncol - 1 then v.(rows := rows, cur := Point(r, c + 1))
    else if r + 1 < |rows| then v.(rows := rows, cur := Point(r + 1, 0))
    else v.(rows := RaisedRows(rows, v.ncol, 0, 1), cur := Point(r, 0))
  }

  lemma RaisedWidth(rows: seq<Row>, ncol: nat, r: nat, n: nat)
    requires AllRows(rows, ncol) && r < |rows|
    ensures AllRows(RaisedRows(rows, ncol, r, n), ncol) && AllRows(LoweredRows(rows, ncol, r, n), ncol)
  {
    forall i | 0 <= i < |rows|
      ensures |RaisedRows(rows, ncol, r, n)[i]| == ncol && |LoweredRows(rows, ncol, r, n)[i]| == ncol
    {
      var k := Min(n, |rows| - 1 - r);
      assert |BlankRow(ncol)| == ncol;
      assert r <= i < |rows| - k ==> |rows[i + k]| == ncol;
      assert r + k <= i ==> |rows[i - k]| == ncol;
    }
  }

  lemma WrittenFormed(v: Vt, w: int)
    requires WellFormed(v)
    ensures WellFormed(Written(v, w))
  {
    var rows := v.rows[v.cur.r := v.rows[v.cur.r][v.cur.c := Cell(w, v.attrs)]];
    RaisedWidth(rows, v.ncol, 0, 1);
  }

  /** REP. */
  function Repeated(v: Vt, w: int, n: nat): (v': Vt)
    requires WellFormed(v)
    ensures WellFormed(v')
  {
    if n == 0 then v else WrittenFormed(Repeated(v, w, n - 1), w); Written(Repeated(v, w, n - 1), w)
  }

  // ---------------------------------------------------------------- rendition

  /** What one parameter of SGR does to the attributes, and to the terminal; whether an attribute goes on or off is read
      from the first parameter. */
  function Shaded(a: Attrs, p: nat, on: bool): (b: Attrs) {
    if p == 0 then DEFATTRS
    else
      Attrs(if p == 1 || p == 22 then on else a.bold,
            if p == 2 || p == 23 then on else a.dim,
            if p == 4 || p == 24 then on else a.underline,
            if p == 5 || p == 25 then on else a.blink,
            if p == 7 || p == 27 then on else a.reverse,
            if p == 8 || p == 28 then on else a.invisible,
            if 30 <= p <= 37 then p - 29 else if p == 39 then DEFAULT else a.fg,
            if 40 <= p <= 47 then p - 39 else if p == 49 then DEFAULT else a.bg)
  }

  function Rendered(v: Vt, p: nat): (v': Vt)
    requires |v.parser.pars| == PAR_MAX
    ensures v' == v.(attrs := v'.attrs, acs := v'.acs)
  {
    var f := v.parser.pars[0];
    v.(attrs := Shaded(v.attrs, p, f < 20), acs := if p == 10 || p == 11 then f > 10 else v.acs)
  }

  /** The first n parameters of SGR. */
  function Renditions(v: Vt, n: nat): (v': Vt)
    requires |v.parser.pars| == PAR_MAX && n <= PAR_MAX
    ensures v' == v.(attrs := v'.attrs, acs := v'.acs)
  {
    if n == 0 then v else Rendered(Renditions(v, n - 1), v.parser.pars[n - 1])
  }

  // ---------------------------------------------------------------- one byte

  function Reset(v: Vt): (v': Vt) {
    ParserReset(v).(cur := Point(0, 0), saved := Saving(Point(0, 0), DEFATTRS), acs := false, attrs := DEFATTRS,
                    rows := BlankedRows(v.rows, 0, |v.rows|), events := v.events + [CursorOn])
  }

  function Saved(v: Vt): (v': Vt) { v.(saved := Saving(v.cur, v.attrs)) }
  function Restored(v: Vt): (v': Vt) { v.(cur := v.saved.cur, attrs := v.saved.attrs) }
  function Told(v: Vt, e: Event): (v': Vt) { v.(events := v.events + [e]) }

  /** The remaining final bytes of a control sequence. */
  function Other(v: Vt, i: char): (v': Vt)
    requires WellFormed(v)
  {
    var p := v.parser.pars[0];
    match i
    case 'b' => if v.cur.c == 0 then v else Repeated(v, v.rows[v.cur.r][v.cur.c - 1].c, P1(v, 0))
    case 'c' => Told(v, DeviceAttributes)
    case 'g' => if p == 3 then v.(tabs := seq(|v.tabs|, _ => false)) else v
    case 'm' => Renditions(v, v.parser.npar)
    case 'n' => if p == 6 then Told(v, Position(v.cur.r + 1, v.cur.c + 1)) else v
    case 'h' => if p == 25 then Told(v, CursorOn) else v
    case 'l' => if p == 25 then Told(v, CursorOff) else v
    case 's' => Saved(v)
    case 'u' => Restored(v)
    case _ => v
  }

  /** What a final byte does. */
  function Action(v: Vt, i: char): (v': Vt)
    requires WellFormed(v)
  {
    match v.parser.state
    case Nul =>
      if i == '\U{0}' || i == '\U{7}' then Told(v, Bell)
      else if i == '\U{8}' then v.(cur := v.cur.(c := if v.cur.c > 0 then v.cur.c - 1 else 0))
      else if i == '\U{9}' then v.(cur := v.cur.(c := NextStop(v.tabs, v.cur.c)))
      else if i == '\U{a}' then
        if v.cur.r < |v.rows| - 1 then v.(cur := v.cur.(r := v.cur.r + 1)) else v.(rows := RaisedRows(v.rows, v.ncol, 0, 1))
      else v.(cur := v.cur.(c := 0))
    case Esc =>
      if i == 'H' then v.(tabs := v.tabs[v.cur.c := true])
      else if i == '7' then Saved(v)
      else if i == '8' then Restored(v)
      else Reset(v)
    case Arg =>
      if IsMove(i) then v.(cur := Target(v, i)) else if IsEdit(i) then v.(rows := Edited(v, i)) else Other(v, i)
  }

  /** A final byte: the pending parameter counts, the action is taken unless the sequence is to be ignored. */
  function Finished(v: Vt, i: char): (v': Vt)
    requires WellFormed(v)
  {
    ConsumedFormed(v);
    var w := Consumed(v);
    ParserReset(if w.parser.ignored then w else Action(w, i))
  }

  lemma ConsumedFormed(v: Vt)
    requires WellFormed(v)
    ensures WellFormed(Consumed(v))
  {
  }

  /** The alternate character set for ANSI. */
  const ACS_CODES: seq<int> := [0x10, 0x11, 0x18, 0x19, 0xdb, 0x04, 0xb1, 0xf8, 0xf1, 0xb0, 0xd9, 0xbf, 0xda, 0xc0, 0xc5, 0x7e,
    0xc4, 0xc4, 0xc4, 0x5f, 0xc3, 0xb4, 0xc1, 0xc2, 0xb3, 0xf3, 0xf2, 0xe3, 0xd8, 0x9c, 0xfe]
  const ACS_CHARS: string := "><^v#+:o##+++++~---_++++|<>*!fo"

  function Translated(codes: seq<int>, chars: string, c: int): (w: int)
    requires |codes| == |chars|
  {
    if codes == [] then c else if codes[0] == c then chars[0] as int else Translated(codes[1..], chars[1..], c)
  }

  function Alternate(c: int): (w: int) {
    assert |ACS_CODES| == 31 && |ACS_CHARS| == 31;
    Translated(ACS_CODES, ACS_CHARS, c)
  }

  /** The character a printed byte stands for; a plain char is signed. */
  function Printed(acs: bool, i: char): int {
    if acs then Alternate(i as int % 256) else if i as int % 256 < 128 then i as int % 256 else i as int % 256 - 256
  }

  /** One byte: it ends a sequence, continues one, or is printed. */
  function Fed(v: Vt, i: char): (v': Vt)
    requires WellFormed(v)
  {
    if Final(v.parser.state, i) then Finished(v, i)
    else if Inner(v.parser.state, i) then v.(parser := Parsed(v.parser, i))
    else Written(ParserReset(v), Printed(v.acs, i))
  }

  /** A stream of bytes. */
  function Run(v: Vt, s: string): (v': Vt)
    requires WellFormed(v)
    ensures WellFormed(v') && |v'.rows| == |v.rows| && v'.ncol == v.ncol
  {
    if s == [] then v else FedFormed(Run(v, s[..|s| - 1]), s[|s| - 1]); Fed(Run(v, s[..|s| - 1]), s[|s| - 1])
  }

  /** How a stream is cut into writes does not matter. */
  lemma {:induction false} RunSplit(v: Vt, s: string, t: string)
    requires WellFormed(v)
    ensures Run(v, s + t) == Run(Run(v, s), t)
    decreases |t|
  {
    if t == [] {
      assert s + t == s;
    } else {
      var t' := t[..|t| - 1];
      assert (s + t)[..|s + t| - 1] == s + t';
      RunSplit(v, s, t');
    }
  }

  // ---------------------------------------------------------------- every byte keeps the cursor on the screen

  lemma ErasedWidth(v: Vt)
    requires WellFormed(v)
    ensures |Erased(v)| == |v.rows| && AllRows(Erased(v), v.ncol)
  {
    hide WellFormed;
    FormedRows(v);
    var q := Erased(v);
    forall i | 0 <= i < |q| ensures |q[i]| == v.ncol {
    }
  }

  lemma FormedRows(v: Vt)
    requires WellFormed(v)
    ensures AllRows(v.rows, v.ncol) && v.cur.r < |v.rows| && |v.parser.pars| == PAR_MAX
  {
  }

  lemma EditedWidth(v: Vt, i: char)
    requires WellFormed(v) && IsEdit(i)
    ensures |Edited(v, i)| == |v.rows| && AllRows(Edited(v, i), v.ncol)
  {
    hide IsEdit, Erased, Blanked, Closed, Opened, RaisedRows, LoweredRows;
    ErasedWidth(v);
    RaisedWidth(v.rows, v.ncol, v.cur.r, P1(v, 0));
    RaisedWidth(v.rows, v.ncol, 0, P1(v, 0));
  }

  lemma RenditionsFormed(v: Vt, n: nat)
    requires WellFormed(v) && n <= PAR_MAX
    ensures WellFormed(Renditions(v, n)) && Renditions(v, n).rows == v.rows && Renditions(v, n).ncol == v.ncol
  {
    hide Renditions;
  }

  lemma {:induction false} RepeatedSize(v: Vt, w: int, n: nat)
    requires WellFormed(v)
    ensures |Repeated(v, w, n).rows| == |v.rows| && Repeated(v, w, n).ncol == v.ncol
  {
    hide RaisedRows, WellFormed, Written;
    if n > 0 {
      RepeatedSize(v, w, n - 1);
      WrittenSize(Repeated(v, w, n - 1), w);
    }
  }

  lemma WrittenSize(v: Vt, w: int)
    requires WellFormed(v)
    ensures |Written(v, w).rows| == |v.rows| && Written(v, w).ncol == v.ncol
  {
    hide RaisedRows;
  }

  /** v' is well formed and has the size of v. */
  predicate Keeps(v: Vt, v': Vt) { WellFormed(v') && |v'.rows| == |v.rows| && v'.ncol == v.ncol }

  lemma OtherFormed(v: Vt, i: char)
    requires WellFormed(v)
    ensures Keeps(v, Other(v, i))
  {
    hide Renditions, Repeated;
    if i == 'b' && v.cur.c > 0 {
      RepeatedSize(v, v.rows[v.cur.r][v.cur.c - 1].c, P1(v, 0));
    } else if i != 'b' {
      hide AllRows;
      RenditionsFormed(v, v.parser.npar);
    }
  }

  lemma ResetFormed(v: Vt)
    requires WellFormed(v)
    ensures Keeps(v, Reset(v))
  {
    var q := BlankedRows(v.rows, 0, |v.rows|);
    forall i | 0 <= i < |q| ensures |q[i]| == v.ncol {
    }
  }

  lemma ActionFormed(v: Vt, i: char)
    requires WellFormed(v)
    ensures Keeps(v, Action(v, i))
  {
    hide Edited, Target, Other, RaisedRows, Reset, IsMove, IsEdit, AllRows, BlankedRows;
    match v.parser.state
    case Nul => RaisedWidth(v.rows, v.ncol, 0, 1);
    case Esc => ResetFormed(v);
    case Arg =>
      OtherFormed(v, i);
      if IsEdit(i) {
        EditedWidth(v, i);
      }
  }

  lemma ParserFormed(v: Vt)
    requires WellFormed(v)
    ensures Keeps(v, ParserReset(v))
  {
  }

  lemma WrittenKeeps(v: Vt, w: int)
    requires WellFormed(v)
    ensures Keeps(v, Written(v, w))
  {
    hide WellFormed, Written;
    WrittenFormed(v, w);
    WrittenSize(v, w);
  }

  /** For every byte the cursor stays on the screen, there are at most eight parameters and the rows keep their number
      and width. */
  lemma FedFormed(v: Vt, i: char)
    requires WellFormed(v)
    ensures Keeps(v, Fed(v, i))
  {
    hide Action, Written, Final, Printed;
    ConsumedFormed(v);
    var w := Consumed(v);
    ActionFormed(w, i);
    ParserFormed(if w.parser.ignored then w else Action(w, i));
    ParserFormed(v);
    WrittenKeeps(ParserReset(v), Printed(v.acs, i));
  }
}
