/** The mount table printer and parser of land/newlib/xelix/mntent_r.c. */
module MountTable {
  import opened Common
  import opened Decimal

  // ---------------------------------------------------------------- names

  /** encode_name: blanks and backslashes are written as escapes. */
  function Encode(s: string): (t: string) {
    if s == "" then "" else EncodeChar(s[0]) + Encode(s[1..])
  }

  function EncodeChar(c: char): (t: string)
    ensures 1 <= |t| <= 4 && (forall k :: 0 <= k < |t| ==> t[k] != ' ' && t[k] != '\t' && (t[k] == NUL ==> c == NUL))
    ensures forall k :: 0 <= k < |t| ==> (t[k] == '\n' ==> c == '\n') && (t[0] == '#' ==> c == '#')
  {
    if c == ' ' then "\\040" else if c == '\t' then "\\012" else if c == '\\' then "\\\\" else [c]
  }

  /** How many characters decode_name takes at the start of a string, and the one it puts there. */
  function Taken(s: string): (r: (nat, char))
    requires s != ""
    ensures 1 <= r.0 <= |s|
  {
    if |s| >= 4 && s[..4] == "\\040" then (4, ' ')
    else if |s| >= 4 && s[..4] == "\\012" then (4, '\t')
    else if |s| >= 2 && s[..2] == "\\\\" then (2, '\\')
    else (1, s[0])
  }

  /** decode_name. */
  function Decode(s: string): (t: string) {
    if s == "" then "" else [Taken(s).1] + Decode(s[Taken(s).0..])
  }

  lemma TakenEncoded(c: char, rest: string)
    ensures EncodeChar(c) + rest != "" && Taken(EncodeChar(c) + rest) == (|EncodeChar(c)|, c)
  {
    var s := EncodeChar(c) + rest;
    if c == ' ' {
      assert s[..4] == "\\040";
    } else if c == '\t' {
      assert s[..4] == "\\012";
    } else if c == '\\' {
      assert s[..2] == "\\\\" && s[1] == '\\';
      if |s| >= 4 {
        assert s[..4][1] == '\\' && "\\040"[1] == '0' && "\\012"[1] == '0';
      }
    } else {
      assert s[0] == c;
      if |s| >= 4 { assert s[..4][0] == c; }
      if |s| >= 2 { assert s[..2][0] == c; }
    }
  }

  /** decode_name undoes encode_name. */
  lemma {:induction false} DecodeEncode(s: string)
    ensures Decode(Encode(s)) == s
  {
    if s != "" {
      DecodeEncode(s[1..]);
      TakenEncoded(s[0], Encode(s[1..]));
      assert Encode(s)[|EncodeChar(s[0])|..] == Encode(s[1..]);
      assert s == [s[0]] + s[1..];
    }
  }

  lemma {:induction false} EncodedSize(s: string)
    ensures |s| <= |Encode(s)| <= 4 * |s|
  {
    if s != "" { EncodedSize(s[1..]); }
  }

  /** No encoded name contains a separator, nor anything that was not in the name. */
  lemma {:induction false} EncodedChars(s: string)
    ensures forall k :: 0 <= k < |Encode(s)| ==> Encode(s)[k] != ' ' && Encode(s)[k] != '\t'
    ensures CString(s) ==> CString(Encode(s))
    ensures '\n' !in s ==> '\n' !in Encode(s)
    ensures s != "" ==> Encode(s) != "" && (s[0] != '#' ==> Encode(s)[0] != '#')
  {
    if s != "" {
      EncodedChars(s[1..]);
    }
  }

  predicate Plain(c: char) { c != ' ' && c != '\t' && c != '\\' }

  lemma {:induction false} PlainEncode(s: string)
    requires forall k :: 0 <= k < |s| ==> Plain(s[k])
    ensures Encode(s) == s
  {
    if s != "" { PlainEncode(s[1..]); }
  }

  lemma {:induction false} EncodeAppend(s: string, c: char)
    ensures Encode(s + [c]) == Encode(s) + EncodeChar(c)
  {
    if s == "" {
      assert (s + [c])[1..] == "";
    } else {
      assert (s + [c])[1..] == s[1..] + [c];
      EncodeAppend(s[1..], c);
    }
  }

  /** The macro encode_name: a name without blanks and backslashes stays; another is written into a buffer of four
      times its length, which it cannot leave. */
  method EncodeName(name: string) returns (r: string)
    ensures r == Encode(name)
  {
    var rp := 0;
    while rp < |name| && Plain(name[rp])
      invariant 0 <= rp <= |name| && forall k :: 0 <= k < rp ==> Plain(name[k])
    {
      rp := rp + 1;
    }
    if rp == |name| {
      PlainEncode(name);
      return name;
    }
    var buf := new char[4 * |name| + 1];
    var wp: nat := 0;
    rp := 0;
    while rp < |name|
      invariant 0 <= rp <= |name| && wp <= 4 * rp && buf[..wp] == Encode(name[..rp])
    {
      ghost var was := buf[..wp];
      wp := Put(buf, wp, EncodeChar(name[rp]));
      EncodeAppend(name[..rp], name[rp]);
      assert name[..rp + 1] == name[..rp] + [name[rp]];
      rp := rp + 1;
    }
    assert name[..rp] == name;
    r := buf[..wp];
  }

  /** The characters of t go to the write pointer. */
  method Put(buf: array<char>, wp0: nat, t: string) returns (wp: nat)
    requires wp0 + |t| <= buf.Length
    modifies buf
    ensures wp == wp0 + |t| && buf[..wp] == old(buf[..wp0]) + t
  {
    forall k | 0 <= k < |t| {
      buf[wp0 + k] := t[k];
    }
    wp := wp0 + |t|;
    assert buf[..wp] == buf[..wp0] + buf[wp0..wp];
  }

  /** What decode_name sees at a place of its buffer. */
  lemma TakenThere(buf: seq<char>, s: string, rp: nat)
    requires |buf| == |s| + 1 && rp < |s| && buf[rp..] == s[rp..] + [NUL] && CString(s)
    ensures forall k :: rp <= k < |s| ==> buf[k] == s[k] && buf[k] != NUL
    ensures buf[|s|] == NUL
    ensures Taken(s[rp..]) ==
      if buf[rp] == '\\' && buf[rp + 1] == '0' && buf[rp + 2] == '4' && buf[rp + 3] == '0' then (4, ' ')
      else if buf[rp] == '\\' && buf[rp + 1] == '0' && buf[rp + 2] == '1' && buf[rp + 3] == '2' then (4, '\t')
      else if buf[rp] == '\\' && buf[rp + 1] == '\\' then (2, '\\')
      else (1, buf[rp])
  {
    var t := s[rp..];
    forall k | 0 <= k < |t| ensures buf[rp + k] == t[k] && t[k] != NUL {
      assert buf[rp + k] == buf[rp..][k];
      assert t[k] == s[rp + k];
    }
    assert buf[|s|] == buf[rp..][|s| - rp];
    if |t| >= 4 {
      assert t[..4] == [t[0], t[1], t[2], t[3]];
    }
    if |t| >= 2 {
      assert t[..2] == [t[0], t[1]];
    }
  }

  /** The cases of the loop of decode_name: the character and how far it reached. */
  method DecodeOne(buf: array<char>, rp: nat, ghost s: string) returns (c: char, n: nat)
    requires buf.Length == |s| + 1 && rp < |s| && buf[rp..] == s[rp..] + [NUL] && CString(s)
    ensures Taken(s[rp..]) == (n, c)
  {
    hide Taken;
    assert buf[..][rp..] == buf[rp..];
    TakenThere(buf[..], s, rp);
    if buf[rp] == '\\' && buf[rp + 1] == '0' && buf[rp + 2] == '4' && buf[rp + 3] == '0' {
      return ' ', 4;
    } else if buf[rp] == '\\' && buf[rp + 1] == '0' && buf[rp + 2] == '1' && buf[rp + 3] == '2' {
      return '\t', 4;
    } else if buf[rp] == '\\' && buf[rp + 1] == '\\' {
      return '\\', 2;
    } else {
      return buf[rp], 1;
    }
  }

  /** In a buffer with contents b: what is decoded so far stands at its start, and the rest of s, with its terminator, at
      its end. */
  ghost predicate Decoding(b: seq<char>, s: string, rp: nat, wp: nat) {
    && |b| == |s| + 1 && wp <= rp <= |s| && b[rp..] == s[rp..] + [NUL]
    && b[..wp] + Decode(s[rp..]) == Decode(s)
  }

  lemma DecodingStart(s: string)
    ensures Decoding(s + [NUL], s, 0, 0)
  {
    assert s[0..] == s && (s + [NUL])[0..] == s + [NUL] && (s + [NUL])[..0] == "";
  }

  lemma DecodingBounds(b: seq<char>, s: string, rp: nat, wp: nat)
    requires Decoding(b, s, rp, wp)
    ensures wp <= rp <= |s| == |b| - 1 && b[rp..] == s[rp..] + [NUL] && (b[rp] != NUL ==> rp < |s|)
  {
    if b[rp] != NUL {
      NotAtEnd(b, s, rp);
    }
  }

  lemma DecodingStep(b: seq<char>, s: string, rp: nat, wp: nat, n: nat, c: char)
    requires Decoding(b, s, rp, wp) && rp < |s| && Taken(s[rp..]) == (n, c)
    ensures 0 < n && rp + n <= |s| && Decoding(b[wp := c], s, rp + n, wp + 1)
  {
    DecodeStep(s[rp..]);
    hide Decode, Taken;
    Advance(b, s, rp, wp, n, c);
  }

  lemma DecodingEnd(b: seq<char>, s: string, rp: nat, wp: nat)
    requires Decoding(b, s, rp, wp) && CString(s) && b[rp] == NUL
    ensures wp == |Decode(s)| && b[wp := NUL][..wp + 1] == Decode(s) + [NUL]
  {
    AtEnd(b, s, rp);
    DecodeStep("");
    hide Decode;
  }

  /** decode_name in place: the write pointer never passes the read pointer. */
  method DecodeName(buf: array<char>, ghost s: string)
    requires buf.Length == |s| + 1 && buf[..] == s + [NUL] && CString(s)
    modifies buf
    ensures |Decode(s)| <= |s| && buf[..|Decode(s)| + 1] == Decode(s) + [NUL]
  {
    hide Decode, Taken, Decoding;
    var rp: nat, wp: nat := 0, 0;
    DecodingStart(s);
    DecodingBounds(buf[..], s, rp, wp);
    while buf[rp] != NUL
      invariant wp <= rp <= |s| && Decoding(buf[..], s, rp, wp)
      decreases |s| - rp
    {
      ghost var was := buf[..];
      DecodingBounds(was, s, rp, wp);
      assert was[rp..] == buf[rp..];
      var c, n := DecodeOne(buf, rp, s);
      DecodingStep(was, s, rp, wp, n, c);
      buf[wp] := c;
      assert buf[..] == was[wp := c];
      wp := wp + 1;
      rp := rp + n;
      DecodingBounds(buf[..], s, rp, wp);
    }
    ghost var last := buf[..];
    DecodingEnd(last, s, rp, wp);
    buf[wp] := buf[rp];
    assert buf[..] == last[wp := NUL];
    assert buf[..wp + 1] == buf[..][..wp + 1];
  }

  lemma NotAtEnd(buf: seq<char>, s: string, rp: nat)
    requires |buf| == |s| + 1 && rp <= |s| && buf[rp..] == s[rp..] + [NUL] && buf[rp] != NUL
    ensures rp < |s|
  {
    assert buf[rp] == buf[rp..][0];
  }

  lemma DecodeStep(s: string)
    ensures Decode(s) == if s == "" then "" else [Taken(s).1] + Decode(s[Taken(s).0..])
  {
  }

  lemma AtEnd(buf: seq<char>, s: string, rp: nat)
    requires |buf| == |s| + 1 && rp <= |s| && buf[rp..] == s[rp..] + [NUL] && CString(s) && buf[rp] == NUL
    ensures rp == |s| && s[rp..] == ""
  {
    if rp < |s| {
      CharThere(buf, s, rp);
    }
  }

  lemma CharThere(buf: seq<char>, s: string, rp: nat)
    requires |buf| == |s| + 1 && rp < |s| && buf[rp..] == s[rp..] + [NUL]
    ensures buf[rp] == s[rp]
  {
    assert buf[rp] == buf[rp..][0];
  }

  lemma Advance(buf: seq<char>, s: string, rp: nat, wp: nat, n: nat, c: char)
    requires |buf| == |s| + 1 && wp <= rp && 0 < n && rp + n <= |s| && buf[rp..] == s[rp..] + [NUL]
    requires buf[..wp] + ([c] + Decode(s[rp..][n..])) == Decode(s)
    ensures var buf' := buf[wp := c];
      buf'[rp + n..] == s[rp + n..] + [NUL] && buf'[..wp + 1] + Decode(s[rp + n..]) == Decode(s) && buf'[|s|] == NUL
  {
    hide Decode;
    var buf' := buf[wp := c];
    assert s[rp..][n..] == s[rp + n..];
    Regroup(buf[..wp], c, Decode(s[rp + n..]));
    assert buf'[..wp + 1] == buf[..wp] + [c];
    TailOf(buf, buf', s, rp, n);
  }

  lemma Regroup(a: string, c: char, b: string)
    ensures (a + [c]) + b == a + ([c] + b)
  {
  }

  lemma TailOf(buf: seq<char>, buf': seq<char>, s: string, rp: nat, n: nat)
    requires |buf| == |buf'| == |s| + 1 && rp + n <= |s| && buf[rp..] == s[rp..] + [NUL]
    requires forall k :: rp < k < |buf| ==> buf'[k] == buf[k]
    requires n > 0
    ensures buf'[rp + n..] == s[rp + n..] + [NUL] && buf'[|s|] == NUL
  {
    var b, t := buf'[rp + n..], s[rp + n..] + [NUL];
    forall k | 0 <= k < |t| ensures b[k] == t[k] {
      assert buf'[rp + n + k] == buf[rp..][n + k] == (s[rp..] + [NUL])[n + k];
    }
    assert buf[|s|] == buf[rp..][|s| - rp];
  }

  // ---------------------------------------------------------------- numbers

  /** %d in fprintf. */
  function Show(n: int): (s: string) { if n < 0 then "-" + Digits(-n) else Digits(n) }

  /** The digits at the start of a string, as %d in sscanf reads them. */
  function DigitRun(s: string): (k: nat)
    ensures k <= |s| && AllDigits(s[..k])
    ensures k < |s| ==> !IsDigit(s[k])
  {
    if s == "" || !IsDigit(s[0]) then 0 else 1 + DigitRun(s[1..])
  }

  predicate IsSpace(c: char) { c == ' ' || c == '\t' || c == '\n' || c == '\r' || c == '\U{b}' || c == '\U{c}' }

  function SkipSpace(s: string): (t: string)
    ensures |t| <= |s| && (t != "" ==> !IsSpace(t[0]))
  {
    if s == "" || !IsSpace(s[0]) then s else SkipSpace(s[1..])
  }

  datatype Scan = Missing | End | Number(value: int, rest: string)

  /** Digits, with a sign before them or not. */
  function ScanDigits(u: string, negative: bool): (r: Scan) {
    var k := DigitRun(u);
    if k == 0 then Missing else Number(if negative then 0 - Value(u[..k]) else Value(u[..k]), u[k..])
  }

  /** " %d": End where the string ends first, Missing where no number starts. */
  function ScanInt(s: string): (r: Scan) {
    var t := SkipSpace(s);
    if t == "" then End else if t[0] == '-' || t[0] == '+' then ScanDigits(t[1..], t[0] == '-') else ScanDigits(t, false)
  }

  lemma {:induction false} RunOf(d: string, rest: string)
    requires AllDigits(d) && (rest == "" || !IsDigit(rest[0]))
    ensures DigitRun(d + rest) == |d|
  {
    if d != "" {
      assert (d + rest)[1..] == d[1..] + rest;
      RunOf(d[1..], rest);
    } else {
      assert d + rest == rest;
    }
  }

  lemma ScanRun(d: string, rest: string, negative: bool)
    requires d != "" && AllDigits(d) && (rest == "" || !IsDigit(rest[0]))
    ensures ScanDigits(d + rest, negative) == Number(if negative then 0 - Value(d) else Value(d), rest)
  {
    hide DigitRun, Value;
    RunOf(d, rest);
    assert (d + rest)[..|d|] == d && (d + rest)[|d|..] == rest;
  }

  /** sscanf reads what fprintf wrote. */
  lemma ScanShown(n: int, rest: string)
    requires rest == "" || !IsDigit(rest[0])
    ensures ScanInt(Show(n) + rest) == Number(n, rest)
  {
    hide Digits, Value, ScanDigits;
    var m := if n < 0 then -n else n;
    var d := Digits(m);
    DigitsValue(m);
    assert IsDigit(d[0]);
    ScanRun(d, rest, n < 0);
    var t := Show(n) + rest;
    assert SkipSpace(t) == t && t[0] == Show(n)[0];
    if n < 0 {
      assert t[1..] == d + rest;
    }
  }

  lemma ScanSpaced(s: string)
    ensures ScanInt([' '] + s) == ScanInt(s)
  {
    assert ([' '] + s)[1..] == s;
    assert SkipSpace([' '] + s) == SkipSpace(s);
  }

  // ---------------------------------------------------------------- lines

  datatype Mnt = Mnt(fsname: string, dir: string, type_: string, opts: string, freq: int, passno: int)

  /** The line addmntent prints. */
  function Line(m: Mnt): (s: string) {
    Encode(m.fsname) + " " + Encode(m.dir) + " " + Encode(m.type_) + " " + Encode(m.opts) + " " + Show(m.freq) + " " + Show(m.passno) + "\n"
  }

  predicate IsBlank(c: char) { c == ' ' || c == '\t' }

  function SkipBlanks(s: string): (t: string)
    ensures |t| <= |s|
  {
    if s == "" || !IsBlank(s[0]) then s else SkipBlanks(s[1..])
  }

  /** The first blank of a string, or its length. */
  function TokenEnd(s: string): (k: nat)
    ensures k <= |s| && (k < |s| ==> IsBlank(s[k]))
  {
    if s == "" || IsBlank(s[0]) then 0 else 1 + TokenEnd(s[1..])
  }

  /** strsep with the blanks as delimiters: the token and what follows its delimiter, None where nothing follows. */
  function Separate(head: Option<string>): (r: (Option<string>, Option<string>)) {
    if head == None then (None, None)
    else
      var k := TokenEnd(head.value);
      (Some(head.value[..k]), if k == |head.value| then None else Some(head.value[k + 1..]))
  }

  /** One name of an entry: decoded, empty if missing; and the rest after blanks. */
  function Field(head: Option<string>): (r: (string, Option<string>)) {
    var (cp, rest) := Separate(head);
    (if cp == None then "" else Decode(cp.value), if rest == None then None else Some(SkipBlanks(rest.value)))
  }

  /** The two numbers: what sscanf does not reach is 0, and a line that ends before the first leaves both as they were. */
  function Numbers(head: Option<string>, freq: int, passno: int): (r: (int, int)) {
    if head == None then (0, 0)
    else match ScanInt(head.value)
      case End => (freq, passno)
      case Missing => (0, 0)
      case Number(a, rest) =>
        match ScanInt(rest)
        case Number(b, _) => (a, b)
        case _ => (a, 0)
  }

  /** A line without its newline, read into a record that held old_. */
  function Parse(line: string, old_: Mnt): (m: Mnt) {
    var (fsname, h1) := Field(Some(SkipBlanks(line)));
    var (dir, h2) := Field(h1);
    var (type_, h3) := Field(h2);
    var (cp, h4) := Separate(h3);
    var (freq, passno) := Numbers(h4, old_.freq, old_.passno);
    Mnt(fsname, dir, type_, if cp == None then "" else Decode(cp.value), freq, passno)
  }

  /** The names are nonempty strings without newline, and the first does not look like a comment. */
  predicate Printable(m: Mnt) {
    && PrintableName(m.fsname) && PrintableName(m.dir) && PrintableName(m.type_) && PrintableName(m.opts)
    && m.fsname[0] != '#'
  }

  predicate PrintableName(s: string) { s != "" && CString(s) && '\n' !in s }

  lemma {:induction false} TokenOf(t: string, rest: string)
    requires forall k :: 0 <= k < |t| ==> !IsBlank(t[k])
    ensures TokenEnd(t + [' '] + rest) == |t|
  {
    if t != "" {
      assert (t + [' '] + rest)[1..] == t[1..] + [' '] + rest;
      TokenOf(t[1..], rest);
    } else {
      assert t + [' '] + rest == [' '] + rest;
    }
  }

  /** An encoded name at the head of a line comes back. */
  lemma SeparateEncoded(name: string, rest: string)
    ensures Separate(Some(Encode(name) + [' '] + rest)) == (Some(Encode(name)), Some(rest))
    ensures Decode(Encode(name)) == name
  {
    hide Encode, Decode;
    EncodedChars(name);
    DecodeEncode(name);
    var s := Encode(name) + [' '] + rest;
    TokenOf(Encode(name), rest);
    assert s[..|Encode(name)|] == Encode(name) && s[|Encode(name)| + 1..] == rest;
  }

  lemma NoSkip(name: string, rest: string)
    requires name != ""
    ensures SkipBlanks(Encode(name) + rest) == Encode(name) + rest
  {
    hide Encode;
    EncodedChars(name);
    assert (Encode(name) + rest)[0] == Encode(name)[0];
  }

  /** The tails of a line, from its end on. */
  function Tail5(m: Mnt): string { Show(m.freq) + ([' '] + Show(m.passno)) }
  function Tail4(m: Mnt): string { Encode(m.opts) + [' '] + Tail5(m) }
  function Tail3(m: Mnt): string { Encode(m.type_) + [' '] + Tail4(m) }
  function Tail2(m: Mnt): string { Encode(m.dir) + [' '] + Tail3(m) }
  function Tail1(m: Mnt): string { Encode(m.fsname) + [' '] + Tail2(m) }

  lemma LineTails(m: Mnt)
    ensures Line(m) == Tail1(m) + ['\n']
  {
    hide Encode, Show;
    assert Line(m) == Encode(m.fsname) + [' '] + (Encode(m.dir) + [' '] + (Encode(m.type_) + [' '] + (Encode(m.opts) + [' '] +
      (Show(m.freq) + [' '] + Show(m.passno))))) + ['\n'];
  }

  /** The line of a printable entry parses to the entry. */
  lemma ParseLine(m: Mnt, old_: Mnt)
    requires Printable(m)
    ensures Parse(Tail1(m), old_) == m
  {
    hide Encode, Decode, Separate, SkipBlanks, ScanInt, Show;
    NoSkip(m.fsname, [' '] + Tail2(m));
    assert Encode(m.fsname) + ([' '] + Tail2(m)) == Tail1(m);
    SeparateEncoded(m.fsname, Tail2(m));
    FieldOf(m.dir, Tail3(m));
    FieldOf(m.type_, Tail4(m));
    NoSkip(m.opts, [' '] + Tail5(m));
    assert Encode(m.opts) + ([' '] + Tail5(m)) == Tail4(m);
    SeparateEncoded(m.opts, Tail5(m));
    ScanShown(m.freq, [' '] + Show(m.passno));
    ScanShown(m.passno, "");
    assert Show(m.passno) + "" == Show(m.passno);
    ScanSpaced(Show(m.passno));
  }

  lemma FieldOf(name: string, rest: string)
    requires name != ""
    ensures SkipBlanks(Encode(name) + [' '] + rest) == Encode(name) + [' '] + rest
    ensures Separate(Some(Encode(name) + [' '] + rest)) == (Some(Encode(name)), Some(rest)) && Decode(Encode(name)) == name
  {
    hide Encode, Decode, Separate, SkipBlanks;
    NoSkip(name, [' '] + rest);
    assert Encode(name) + ([' '] + rest) == Encode(name) + [' '] + rest;
    SeparateEncoded(name, rest);
  }

  // ---------------------------------------------------------------- the stream

  /** The length of the first line with its newline, or of the whole text. */
  function LineEnd(text: string): (k: nat)
    ensures k <= |text| && (text != "" ==> k > 0)
  {
    if text == "" then 0 else if text[0] == '\n' then 1 else 1 + LineEnd(text[1..])
  }

  /** What fgets gets into a buffer of the given size. */
  function Gotten(text: string, size: nat): (k: nat)
    requires size >= 2
    ensures k <= |text| && (text != "" ==> k > 0)
  {
    if LineEnd(text) < size then LineEnd(text) else size - 1
  }

  /** The text after the first line. */
  function AfterLine(text: string): (rest: string) { text[LineEnd(text)..] }

  lemma {:induction false} LineEndOf(line: string, rest: string)
    requires '\n' !in line
    ensures LineEnd(line + ['\n'] + rest) == |line| + 1
  {
    if line != "" {
      assert (line + ['\n'] + rest)[1..] == line[1..] + ['\n'] + rest;
      LineEndOf(line[1..], rest);
    }
  }

  lemma {:induction false} LineEndNewline(text: string)
    ensures forall i :: 0 <= i < LineEnd(text) - 1 ==> text[i] != '\n'
    ensures text != "" && text[LineEnd(text) - 1] != '\n' ==> LineEnd(text) == |text|
  {
    if text != "" && text[0] != '\n' {
      LineEndNewline(text[1..]);
    }
  }

  lemma {:induction false} LineEndSkip(text: string, k: nat)
    requires k <= LineEnd(text) && (k == 0 || text[k - 1] != '\n')
    ensures LineEnd(text) == k + LineEnd(text[k..])
  {
    if k > 0 {
      LineEndNewline(text);
      assert text[0] != '\n' || k == 1;
      LineEndSkip(text[1..], k - 1);
      assert text[1..][k - 1..] == text[k..];
    } else {
      assert text[0..] == text;
    }
  }

  /** The rest of a line that did not fit is read and forgotten. */
  method ForgetLine(text: string) returns (rest: string)
    ensures rest == AfterLine(text)
  {
    hide LineEnd;
    rest := text;
    assert text[0..] == text;
    ghost var k := 0;
    while rest != ""
      invariant 0 <= k <= LineEnd(text) && rest == text[k..] && (k == 0 || text[k - 1] != '\n')
      decreases |rest|
    {
      LineEndSkip(text, k);
      var n := Gotten(rest, 1024);
      LineEndNewline(rest);
      var chunk := rest[..n];
      rest := rest[n..];
      assert rest == text[k + n..];
      k := k + n;
      assert chunk[n - 1] == text[k - 1];
      if chunk[n - 1] == '\n' {
        return;
      }
    }
    EmptyAfter(text, k);
  }

  lemma EmptyAfter(text: string, k: nat)
    requires k <= LineEnd(text) && text[k..] == ""
    ensures AfterLine(text) == ""
  {
  }

  /** One line as the parser sees it: without newline, cut to the buffer, and what follows it. */
  function NextLine(text: string, size: nat): (r: (string, string))
    requires size >= 2 && text != ""
    ensures |r.1| < |text|
  {
    var k := Gotten(text, size);
    (if text[k - 1] == '\n' then text[..k - 1] else text[..k], AfterLine(text))
  }

  /** An entry starts on this line. */
  predicate Significant(line: string) { SkipBlanks(line) != "" && SkipBlanks(line)[0] != '#' }

  /** The next entry of a text and what follows it. */
  function Next(text: string, size: nat, old_: Mnt): (r: Option<(Mnt, string)>)
    requires size >= 2
    ensures r.Some? ==> |r.value.1| < |text|
    decreases |text|
  {
    if text == "" then None
    else
      var (line, rest) := NextLine(text, size);
      if Significant(line) then Some((Parse(line, old_), rest)) else Next(rest, size, old_)
  }

  /** One token decoded in its buffer. */
  method DecodeToken(cp: string) returns (s: string)
    requires CString(cp)
    ensures s == Decode(cp)
  {
    var buf := new char[|cp| + 1](i requires 0 <= i < |cp| + 1 => if i < |cp| then cp[i] else NUL);
    assert buf[..] == cp + [NUL];
    DecodeName(buf, cp);
    s := buf[..|Decode(cp)|];
    assert s == buf[..|Decode(cp)| + 1][..|Decode(cp)|];
  }

  method ParseEntry(line: string, old_: Mnt) returns (m: Mnt)
    requires CString(line)
    ensures m == Parse(line, old_)
  {
    hide Decode, TokenEnd, SkipBlanks, Numbers;
    var head := Some(SkipBlanks(line));
    Skipped(line);
    var fsname, dir, type_, opts;
    fsname, head := ParseField(head);
    dir, head := ParseField(head);
    type_, head := ParseField(head);
    var (cp, rest) := Separate(head);
    if cp == None {
      opts := "";
    } else {
      opts := DecodeToken(cp.value);
    }
    var (freq, passno) := Numbers(rest, old_.freq, old_.passno);
    m := Mnt(fsname, dir, type_, opts, freq, passno);
  }

  predicate Clean(head: Option<string>) { head.Some? ==> CString(head.value) }

  lemma {:induction false} Skipped(s: string)
    requires CString(s)
    ensures CString(SkipBlanks(s))
  {
    if s != "" { Skipped(s[1..]); }
  }

  method ParseField(head: Option<string>) returns (name: string, rest: Option<string>)
    requires Clean(head)
    ensures (name, rest) == Field(head) && Clean(rest)
  {
    hide Decode, TokenEnd, SkipBlanks;
    var (cp, tail) := Separate(head);
    if cp == None {
      name := "";
    } else {
      name := DecodeToken(cp.value);
    }
    rest := tail;
    if tail.Some? {
      Skipped(tail.value);
      rest := Some(SkipBlanks(tail.value));
    }
  }

  /** getmntent_r: the next entry of the stream, None at its end. */
  method GetMntent(text: string, size: nat, old_: Mnt) returns (r: Option<(Mnt, string)>)
    requires size >= 2 && CString(text)
    ensures r == Next(text, size, old_)
  {
    hide Parse, Significant, LineEnd;
    var rest := text;
    while rest != ""
      invariant CString(rest) && Next(text, size, old_) == Next(rest, size, old_)
      decreases |rest|
    {
      var k := Gotten(rest, size);
      var buffer := rest[..k];
      var after;
      GottenRest(rest, size);
      if buffer[k - 1] == '\n' {
        buffer := buffer[..k - 1];
        after := rest[k..];
      } else {
        after := ForgetLine(rest[k..]);
      }
      assert NextLine(rest, size) == (buffer, after);
      if Significant(buffer) {
        var m := ParseEntry(buffer, old_);
        return Some((m, after));
      }
      rest := after;
    }
    return None;
  }

  lemma GottenRest(text: string, size: nat)
    requires size >= 2 && text != ""
    ensures var k := Gotten(text, size);
      && (text[k - 1] == '\n' ==> text[k..] == AfterLine(text) && text[..k][..k - 1] == text[..k - 1])
      && (text[k - 1] != '\n' ==> AfterLine(text[k..]) == AfterLine(text))
  {
    hide LineEnd;
    var k := Gotten(text, size);
    LineEndNewline(text);
    if text[k - 1] != '\n' {
      LineEndSkip(text, k);
    }
  }

  /** addmntent appends a line. */
  method AddMntent(text: string, m: Mnt) returns (r: string)
    ensures r == text + Line(m)
  {
    hide Encode, Show;
    var fsname := EncodeName(m.fsname);
    var dir := EncodeName(m.dir);
    var type_ := EncodeName(m.type_);
    var opts := EncodeName(m.opts);
    r := text + (fsname + " " + dir + " " + type_ + " " + opts + " " + Show(m.freq) + " " + Show(m.passno) + "\n");
  }

  // ---------------------------------------------------------------- round trips

  lemma {:induction false} DigitsClean(n: nat)
    ensures '\n' !in Digits(n)
  {
    if n >= 10 { DigitsClean(n / 10); }
  }

  lemma TailClean(m: Mnt)
    requires Printable(m)
    ensures '\n' !in Tail1(m)
  {
    hide Encode, Digits;
    EncodedChars(m.fsname);
    EncodedChars(m.dir);
    EncodedChars(m.type_);
    EncodedChars(m.opts);
    DigitsClean(if m.freq < 0 then -m.freq else m.freq);
    DigitsClean(if m.passno < 0 then -m.passno else m.passno);
  }

  /** What addmntent wrote is what getmntent_r reads, whatever follows, provided that the line fits. */
  lemma GetAdded(m: Mnt, rest: string, size: nat, old_: Mnt)
    requires Printable(m) && |Line(m)| < size
    ensures Next(Line(m) + rest, size, old_) == Some((m, rest))
  {
    hide Encode, Decode, Parse, Show, Tail2, LineEnd;
    LineTails(m);
    TailClean(m);
    var line := Tail1(m);
    var text := line + ['\n'] + rest;
    assert Line(m) + rest == text;
    LineEndOf(line, rest);
    assert text[|line|] == '\n' && text[..|line|] == line && text[|line| + 1..] == rest;
    NoSkip(m.fsname, [' '] + Tail2(m));
    assert Encode(m.fsname) + ([' '] + Tail2(m)) == line;
    EncodedChars(m.fsname);
    assert line[0] == Encode(m.fsname)[0];
    ParseLine(m, old_);
  }

  /** A table of entries, and all entries of a text. */
  function Table(ms: seq<Mnt>): (s: string) { if ms == [] then "" else Line(ms[0]) + Table(ms[1..]) }

  function ReadAll(text: string, size: nat, old_: Mnt): (ms: seq<Mnt>)
    requires size >= 2
    decreases |text|
  {
    var r := Next(text, size, old_);
    if r == None then [] else [r.value.0] + ReadAll(r.value.1, size, r.value.0)
  }

  /** A whole table comes back. */
  lemma {:induction false} ReadTable(ms: seq<Mnt>, size: nat, old_: Mnt)
    requires size >= 2 && forall i :: 0 <= i < |ms| ==> Printable(ms[i]) && |Line(ms[i])| < size
    ensures ReadAll(Table(ms), size, old_) == ms
  {
    hide Next, Line;
    if ms == [] {
      EmptyText(size, old_);
    } else {
      GetAdded(ms[0], Table(ms[1..]), size, old_);
      ReadTable(ms[1..], size, ms[0]);
      assert ms == [ms[0]] + ms[1..];
    }
  }

  lemma EmptyText(size: nat, old_: Mnt)
    requires size >= 2
    ensures Next("", size, old_) == None
  {
  }

  // ---------------------------------------------------------------- any text

  predicate AllBlank(s: string) { forall i :: 0 <= i < |s| ==> IsBlank(s[i]) }

  /** The line is blank, or its first other character starts a comment. */
  ghost predicate Remark(line: string) { AllBlank(line) || exists k :: 0 <= k < |line| && line[k] == '#' && AllBlank(line[..k]) }

  lemma {:induction false} BlanksSkipped(b: string, t: string)
    requires AllBlank(b) && (t == "" || !IsBlank(t[0]))
    ensures SkipBlanks(b + t) == t
  {
    if b == "" {
      assert b + t == t;
    } else {
      assert (b + t)[1..] == b[1..] + t;
      BlanksSkipped(b[1..], t);
    }
  }

  /** Where the first character that is no blank stands. */
  lemma {:induction false} FirstOther(s: string) returns (k: nat)
    ensures k <= |s| && AllBlank(s[..k]) && (k < |s| ==> !IsBlank(s[k]))
  {
    k := 0;
    if s != "" && IsBlank(s[0]) {
      k := FirstOther(s[1..]);
      assert s[..k + 1] == [s[0]] + s[1..][..k];
      k := k + 1;
    }
  }

  /** The lines without an entry are the remarks. */
  lemma RemarksSkipped(line: string)
    ensures Significant(line) <==> !Remark(line)
  {
    hide SkipBlanks;
    var k := FirstOther(line);
    assert line == line[..k] + line[k..];
    BlanksSkipped(line[..k], line[k..]);
    if k == |line| {
      assert line[..k] == line;
    } else {
      forall j | 0 <= j < |line| && line[j] == '#' && AllBlank(line[..j]) ensures j == k {
        NotBefore(line, j, k);
        NotBefore(line, k, j);
      }
    }
  }

  lemma NotBefore(s: string, j: nat, k: nat)
    requires j < |s| && k < |s| && AllBlank(s[..j]) && !IsBlank(s[k])
    ensures j <= k
  {
    if k < j {
      BlankAt(s, j, k);
    }
  }

  lemma BlankAt(s: string, j: nat, k: nat)
    requires k < j <= |s| && AllBlank(s[..j])
    ensures IsBlank(s[k])
  {
    assert s[..j][k] == s[k];
  }

  /** What of a line gets into the buffer. */
  function Seen(line: string, size: nat): (s: string)
    requires size >= 2
  {
    if |line| < size then line else line[..size - 1]
  }

  lemma SeenLine(line: string, rest: string, size: nat)
    requires size >= 2 && '\n' !in line
    ensures NextLine(line + ['\n'] + rest, size) == (Seen(line, size), rest)
  {
    hide LineEnd;
    var text := line + ['\n'] + rest;
    LineEndOf(line, rest);
    var k := Gotten(text, size);
    assert text[|line| + 1..] == rest && text[|line|] == '\n' && text[..|line|] == line;
    assert k <= |line| ==> text[k - 1] == line[k - 1] && text[..k] == line[..k];
  }

  lemma SeenLast(line: string, size: nat)
    requires size >= 2 && '\n' !in line && line != ""
    ensures NextLine(line, size) == (Seen(line, size), "")
  {
    hide LineEnd;
    LineEndNewline(line);
    var k := Gotten(line, size);
    assert line[LineEnd(line) - 1] in line && line[k - 1] in line;
    assert LineEnd(line) == |line| && line[..|line|] == line;
  }

  /** Any line of a text: if what the buffer shows of it is a remark, it is skipped; otherwise it is the next entry. */
  lemma LineRead(line: string, rest: string, size: nat, old_: Mnt)
    requires size >= 2 && '\n' !in line
    ensures Next(line + ['\n'] + rest, size, old_) ==
      if Remark(Seen(line, size)) then Next(rest, size, old_) else Some((Parse(Seen(line, size), old_), rest))
  {
    hide NextLine, Parse, Significant;
    SeenLine(line, rest, size);
    RemarksSkipped(Seen(line, size));
  }

  /** The last one may lack its newline. */
  lemma LastRead(line: string, size: nat, old_: Mnt)
    requires size >= 2 && '\n' !in line
    ensures Next(line, size, old_) == if Remark(Seen(line, size)) then None else Some((Parse(Seen(line, size), old_), ""))
  {
    hide NextLine, Parse, Significant;
    RemarksSkipped(Seen(line, size));
    if line != "" {
      SeenLast(line, size);
      EmptyText(size, old_);
    }
  }

  lemma RemarkSeen(line: string, size: nat)
    requires size >= 2 && Remark(line)
    ensures Remark(Seen(line, size))
  {
    var s := Seen(line, size);
    if |line| >= size && !AllBlank(line) {
      var k :| 0 <= k < |line| && line[k] == '#' && AllBlank(line[..k]);
      if k < size - 1 {
        assert s[k] == '#' && s[..k] == line[..k];
      } else {
        forall i | 0 <= i < |s| ensures IsBlank(s[i]) {
          assert line[..k][i] == s[i];
        }
      }
    }
  }

  /** Blank lines and comments are skipped, whether they fit the buffer or not. */
  lemma RemarkRead(line: string, rest: string, size: nat, old_: Mnt)
    requires size >= 2 && '\n' !in line && Remark(line)
    ensures Next(line + ['\n'] + rest, size, old_) == Next(rest, size, old_)
  {
    hide Next, Remark;
    RemarkSeen(line, size);
    LineRead(line, rest, size, old_);
  }

  /** A text of entries and remarks in any order. */
  datatype Item = Entry(m: Mnt) | Comment(line: string)

  function Text(items: seq<Item>): (s: string) {
    if items == [] then ""
    else (match items[0] case Entry(m) => Line(m) case Comment(line) => line + ['\n']) + Text(items[1..])
  }

  function Entries(items: seq<Item>): (ms: seq<Mnt>) {
    if items == [] then [] else (match items[0] case Entry(m) => [m] case Comment(_) => []) + Entries(items[1..])
  }

  ghost predicate Proper(item: Item, size: nat) {
    match item
    case Entry(m) => Printable(m) && |Line(m)| < size
    case Comment(line) => '\n' !in line && Remark(line)
  }

  /** It is read as its entries alone. */
  lemma {:induction false} ReadMixed(items: seq<Item>, size: nat, old_: Mnt)
    requires size >= 2 && forall i :: 0 <= i < |items| ==> Proper(items[i], size)
    ensures ReadAll(Text(items), size, old_) == Entries(items)
  {
    hide Next, Line, Remark, Printable;
    if items == [] {
      EmptyText(size, old_);
    } else {
      var rest := items[1..];
      assert Proper(items[0], size);
      match items[0]
      case Entry(m) =>
        GetAdded(m, Text(rest), size, old_);
        ReadMixed(rest, size, m);
      case Comment(line) =>
        RemarkRead(line, Text(rest), size, old_);
        ReadMixed(rest, size, old_);
        SameNext(Text(items), Text(rest), size, old_);
    }
  }

  lemma SameNext(s: string, t: string, size: nat, old_: Mnt)
    requires size >= 2 && Next(s, size, old_) == Next(t, size, old_)
    ensures ReadAll(s, size, old_) == ReadAll(t, size, old_)
  {
    hide Next;
  }

  // ---------------------------------------------------------------- any line

  predicate Word(t: string) { t != "" && forall i :: 0 <= i < |t| ==> !IsBlank(t[i]) }

  /** Blanks between words. */
  predicate Gap(b: string) { b != "" && AllBlank(b) }

  lemma {:induction false} WordEnds(t: string, rest: string)
    requires (forall i :: 0 <= i < |t| ==> !IsBlank(t[i])) && (rest == "" || IsBlank(rest[0]))
    ensures TokenEnd(t + rest) == |t|
  {
    if t == "" {
      assert t + rest == rest;
    } else {
      assert (t + rest)[1..] == t[1..] + rest;
      WordEnds(t[1..], rest);
    }
  }

  /** A word in front of a gap and more, at the end of the line, and none at all. */
  lemma WordRead(t: string, b: string, more: string)
    requires Word(t) && Gap(b) && (more == "" || !IsBlank(more[0]))
    ensures Field(Some(t + (b + more))) == (Decode(t), Some(more))
    ensures Separate(Some(t + (b + more))) == (Some(t), Some(b[1..] + more))
    ensures Field(Some(t)) == (Decode(t), None) && Separate(Some(t)) == (Some(t), None)
    ensures Field(Some("")) == ("", None) && Separate(Some("")) == (Some(""), None)
  {
    hide TokenEnd, SkipBlanks;
    EmptyDecode();
    var rest := b + more;
    WordEnds(t, rest);
    WordEnds(t, "");
    WordEnds("", "");
    assert t + "" == t && "" + "" == "";
    assert (t + rest)[..|t|] == t && (t + rest)[|t| + 1..] == b[1..] + more;
    BlanksSkipped(b[1..], more);
  }

  /** Four words, with any blanks before and between them, and something after them. */
  lemma ParseFour(lead: string, a: string, x: string, b: string, y: string, c: string, z: string, d: string, tail: string, old_: Mnt)
    requires AllBlank(lead) && Word(a) && Gap(x) && Word(b) && Gap(y) && Word(c) && Gap(z) && Word(d)
    requires tail == "" || IsBlank(tail[0])
    ensures var m := Parse(lead + (a + (x + (b + (y + (c + (z + (d + tail))))))), old_);
      && m.fsname == Decode(a) && m.dir == Decode(b) && m.type_ == Decode(c) && m.opts == Decode(d)
      && (m.freq, m.passno) == if tail == "" then (0, 0) else Numbers(Some(tail[1..]), old_.freq, old_.passno)
  {
    hide Decode, Field, Separate, SkipBlanks, ScanInt;
    var s3 := d + tail;
    var s2 := c + (z + s3);
    var s1 := b + (y + s2);
    BlanksSkipped(lead, a + (x + s1));
    WordRead(a, x, s1);
    WordRead(b, y, s2);
    WordRead(c, z, s3);
    LastWord(d, tail);
  }

  lemma LastWord(d: string, tail: string)
    requires Word(d) && (tail == "" || IsBlank(tail[0]))
    ensures Separate(Some(d + tail)) == (Some(d), if tail == "" then None else Some(tail[1..]))
  {
    hide TokenEnd;
    WordEnds(d, tail);
    assert (d + tail)[..|d|] == d && (tail != "" ==> (d + tail)[|d| + 1..] == tail[1..]);
  }

  /** With fewer words the missing names are empty and the numbers are 0, whether blanks follow or not. */
  lemma ParseFewer(lead: string, a: string, x: string, b: string, y: string, c: string, z: string, old_: Mnt)
    requires AllBlank(lead) && Word(a) && Gap(x) && Word(b) && Gap(y) && Word(c) && Gap(z)
    ensures Parse(lead + a, old_) == Mnt(Decode(a), "", "", "", 0, 0)
    ensures Parse(lead + (a + x), old_) == Mnt(Decode(a), "", "", "", 0, 0)
    ensures Parse(lead + (a + (x + b)), old_) == Mnt(Decode(a), Decode(b), "", "", 0, 0)
    ensures Parse(lead + (a + (x + (b + y))), old_) == Mnt(Decode(a), Decode(b), "", "", 0, 0)
    ensures Parse(lead + (a + (x + (b + (y + c)))), old_) == Mnt(Decode(a), Decode(b), Decode(c), "", 0, 0)
    ensures Parse(lead + (a + (x + (b + (y + (c + z))))), old_) == Mnt(Decode(a), Decode(b), Decode(c), "", 0, 0)
  {
    EmptyDecode();
    hide Decode, Field, Separate, SkipBlanks;
    NoneField();
    assert x + "" == x && y + "" == y && z + "" == z;
    var words := [a, a + x, a + (x + b), a + (x + (b + y)), a + (x + (b + (y + c))), a + (x + (b + (y + (c + z))))];
    forall i | 0 <= i < 6 ensures SkipBlanks(lead + words[i]) == words[i] {
      assert words[i][0] == a[0];
      BlanksSkipped(lead, words[i]);
    }
    assert words[0] == a && words[1] == a + x && words[2] == a + (x + b) && words[3] == a + (x + (b + y));
    assert words[4] == a + (x + (b + (y + c))) && words[5] == a + (x + (b + (y + (c + z))));
    WordRead(a, x, "");
    WordRead(a, x, b);
    WordRead(a, x, b + y);
    WordRead(a, x, b + (y + c));
    WordRead(a, x, b + (y + (c + z)));
    WordRead(b, y, "");
    WordRead(b, y, c);
    WordRead(b, y, c + z);
    WordRead(c, z, "");
  }

  lemma EmptyDecode()
    ensures Decode("") == ""
  {
  }

  lemma NoneField()
    ensures Field(None) == ("", None) && Separate(None) == (None, None)
  {
  }

  /** The numbers behind the options: two of them, one, none, or something else. */
  lemma NumbersRead(b: string, f: int, g: string, p: int, rest: string, freq: int, passno: int)
    requires AllBlank(b) && Gap(g) && (rest == "" || !IsDigit(rest[0]))
    ensures Numbers(Some(b + (Show(f) + (g + (Show(p) + rest)))), freq, passno) == (f, p)
    ensures Numbers(Some(b + Show(f)), freq, passno) == (f, 0) && Numbers(Some(b + (Show(f) + g)), freq, passno) == (f, 0)
    ensures Numbers(Some(b), freq, passno) == (freq, passno)
  {
    hide Show, Numbers;
    ScanBlanks(b, Show(f) + (g + (Show(p) + rest)));
    ScanBlanks(b, Show(f) + g);
    ScanBlanks(b, Show(f));
    ScanBlanks(b, "");
    ScanBlanks(g, Show(p) + rest);
    ScanBlanks(g, "");
    assert b + "" == b && g + "" == g && Show(f) + "" == Show(f);
    ScanShown(f, g + (Show(p) + rest));
    ScanShown(f, g);
    ScanShown(f, "");
    ScanShown(p, rest);
    ScanEmpty();
    NumbersOf(b + (Show(f) + (g + (Show(p) + rest))), freq, passno);
    NumbersOf(b + Show(f), freq, passno);
    NumbersOf(b + (Show(f) + g), freq, passno);
    NumbersOf(b, freq, passno);
  }

  lemma NumbersOf(s: string, freq: int, passno: int)
    ensures ScanInt(s) == End ==> Numbers(Some(s), freq, passno) == (freq, passno)
    ensures ScanInt(s) == Missing ==> Numbers(Some(s), freq, passno) == (0, 0)
    ensures ScanInt(s).Number? ==>
      var next := ScanInt(ScanInt(s).rest);
      Numbers(Some(s), freq, passno) == (ScanInt(s).value, if next.Number? then next.value else 0)
  {
    hide ScanInt;
  }

  lemma ScanEmpty()
    ensures ScanInt("") == End
  {
  }

  lemma {:induction false} ScanBlanks(b: string, s: string)
    requires AllBlank(b)
    ensures ScanInt(b + s) == ScanInt(s)
  {
    if b == "" {
      assert b + s == s;
    } else {
      assert (b + s)[1..] == b[1..] + s;
      ScanBlanks(b[1..], s);
    }
  }

  /** The numbers of the entry before stay if and only if there is only white space behind the options. */
  lemma StaleNumbers(s: string)
    ensures (forall f, p :: Numbers(Some(s), f, p) == (f, p)) <==> forall i :: 0 <= i < |s| ==> IsSpace(s[i])
  {
    OnlySpace(s);
    assert ScanInt(s) == End <==> SkipSpace(s) == "";
    hide ScanInt, SkipSpace;
    if ScanInt(s) != End {
      var r := Numbers(Some(s), 0, 0);
      assert Numbers(Some(s), r.0 + 1, r.1) == r;
    }
  }

  lemma {:induction false} OnlySpace(s: string)
    ensures SkipSpace(s) == "" <==> forall i :: 0 <= i < |s| ==> IsSpace(s[i])
  {
    if s != "" && IsSpace(s[0]) {
      OnlySpace(s[1..]);
      assert forall i :: 0 < i < |s| ==> s[i] == s[1..][i - 1];
    }
  }

  /** A word that is no number makes both 0. */
  lemma NoNumbers(b: string, c: char, rest: string, freq: int, passno: int)
    requires AllBlank(b) && !IsSpace(c) && !IsDigit(c) && c != '-' && c != '+'
    ensures Numbers(Some(b + ([c] + rest)), freq, passno) == (0, 0)
  {
    hide Numbers;
    ScanBlanks(b, [c] + rest);
    NumbersOf(b + ([c] + rest), freq, passno);
  }

  /** How a name is written: its separators and backslashes as escapes, everything else as it is. */
  lemma EncodeParts(s: string, t: string)
    ensures Encode(s + " " + t) == Encode(s) + "\\040" + Encode(t)
    ensures Encode(s + "\t" + t) == Encode(s) + "\\012" + Encode(t)
    ensures Encode(s + "\\" + t) == Encode(s) + "\\\\" + Encode(t)
    ensures (forall k :: 0 <= k < |s| ==> Plain(s[k])) ==> Encode(s) == s
  {
    EncodeOne(' ');
    EncodeOne('\t');
    EncodeOne('\\');
    hide Encode;
    EncodeCat(s + " ", t);
    EncodeCat(s, " ");
    EncodeCat(s + "\t", t);
    EncodeCat(s, "\t");
    EncodeCat(s + "\\", t);
    EncodeCat(s, "\\");
    if forall k :: 0 <= k < |s| ==> Plain(s[k]) {
      PlainEncode(s);
    }
  }

  lemma EncodeOne(c: char)
    ensures Encode([c]) == EncodeChar(c)
  {
    assert [c][1..] == "";
  }

  lemma {:induction false} EncodeCat(s: string, t: string)
    ensures Encode(s + t) == Encode(s) + Encode(t)
  {
    if s == "" {
      assert s + t == t;
    } else {
      assert (s + t)[1..] == s[1..] + t;
      EncodeCat(s[1..], t);
    }
  }
}
