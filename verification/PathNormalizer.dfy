/** vfs_normalize_path of src/fs/vfs.c. */
module PathNormalizer {
  import opened Common

  const SLASH := '/'

  // ---------------------------------------------------------------- what a path means

  /** The pieces between slashes. */
  function Split(s: string): (q: seq<string>)
    ensures |q| > 0
  {
    if s == "" then [""]
    else
      var q := Split(s[..|s| - 1]);
      var c := s[|s| - 1];
      if c == SLASH then q + [""] else q[..|q| - 1] + [q[|q| - 1] + [c]]
  }

  /** The directories that the pieces lead through from the root, left to right: a name goes down, ".." goes up unless
      at the root, and nothing else matters. */
  function Walked(segs: seq<string>): (stack: seq<string>) {
    if segs == [] then []
    else
      var stack := Walked(segs[..|segs| - 1]);
      var seg := segs[|segs| - 1];
      if seg == "" || seg == "." then stack
      else if seg == ".." then (if stack == [] then [] else stack[..|stack| - 1])
      else stack + [seg]
  }

  /** Each name with a slash before it. */
  function Joined(names: seq<string>): (s: string) {
    if names == [] then "" else Joined(names[..|names| - 1]) + [SLASH] + names[|names| - 1]
  }

  /** The canonical path of a list of names; the root is a slash. */
  function Rendered(names: seq<string>): (s: string) { if names == [] then [SLASH] else Joined(names) }

  /** The absolute path that a path stands for in a working directory. */
  function Absolute(path: string, cwd: string): (s: string) {
    if path != "" && path[0] == SLASH then path else [SLASH] + cwd + [SLASH] + path
  }

  /** The meaning of a path. */
  function Meaning(path: string, cwd: string): (s: string) { Rendered(Walked(Split(Absolute(path, cwd)))) }

  // ---------------------------------------------------------------- right to left

  /** The names that survive when the pieces are read right to left with skip names still to be dropped. */
  function Kept(segs: seq<string>, skip: nat): (names: seq<string>) {
    if segs == [] then []
    else
      var rest := segs[..|segs| - 1];
      var seg := segs[|segs| - 1];
      if seg == "" || seg == "." then Kept(rest, skip)
      else if seg == ".." then Kept(rest, skip + 1)
      else if skip > 0 then Kept(rest, skip - 1)
      else Kept(rest, 0) + [seg]
  }

  /** All but the last k names. */
  function Without(stack: seq<string>, k: nat): (s: seq<string>) { if k >= |stack| then [] else stack[..|stack| - k] }

  /** Reading backwards with a counter is walking forwards and then going up as many times. */
  lemma {:induction false} KeptIsWalked(segs: seq<string>, skip: nat)
    ensures Kept(segs, skip) == Without(Walked(segs), skip)
  {
    if segs != [] {
      var rest, seg := segs[..|segs| - 1], segs[|segs| - 1];
      var stack := Walked(rest);
      KeptIsWalked(rest, skip);
      KeptIsWalked(rest, skip + 1);
      if skip > 0 {
        KeptIsWalked(rest, skip - 1);
      }
      KeptIsWalked(rest, 0);
    }
  }

  // ---------------------------------------------------------------- pieces and buffers

  /** No character from i up to e is a slash. */
  predicate NoSlash(s: string, i: nat, e: nat) { forall k :: i <= k < e && k < |s| ==> s[k] != SLASH }

  /** A slash cuts off the last piece. */
  lemma {:induction false} SplitAt(s: string, i: nat, e: nat)
    requires i < e <= |s| && s[i] == SLASH && NoSlash(s, i + 1, e)
    ensures Split(s[..e]) == Split(s[..i]) + [s[i + 1..e]]
    decreases e
  {
    assert s[..e][..e - 1] == s[..e - 1];
    if e == i + 1 {
      assert s[i + 1..e] == "";
    } else {
      SplitAt(s, i, e - 1);
      assert s[i + 1..e] == s[i + 1..e - 1] + [s[e - 1]];
      var q := Split(s[..i]);
      assert (q + [s[i + 1..e - 1]])[..|q|] == q;
    }
  }

  lemma {:induction false} JoinedFront(seg: string, names: seq<string>)
    ensures Joined([seg] + names) == [SLASH] + seg + Joined(names)
  {
    if names == [] {
      assert ([seg] + names)[..0] == [];
    } else {
      var init, last := names[..|names| - 1], names[|names| - 1];
      assert ([seg] + names)[..|names|] == [seg] + init;
      JoinedFront(seg, init);
    }
  }

  /** The string that starts at place i of a buffer. */
  function Reading(buf: seq<char>, i: nat): (s: string)
    decreases |buf| - i
  {
    if i >= |buf| || buf[i] == NUL then "" else [buf[i]] + Reading(buf, i + 1)
  }

  lemma {:induction false} ReadingIs(buf: seq<char>, i: nat, e: nat)
    requires i <= e < |buf| && buf[e] == NUL && NUL !in buf[i..e]
    ensures Reading(buf, i) == buf[i..e]
    decreases e - i
  {
    if i < e {
      assert buf[i] in buf[i..e] && buf[i..e] == [buf[i]] + buf[i + 1..e];
      ReadingIs(buf, i + 1, e);
    }
  }

  // ---------------------------------------------------------------- the scan

  /** What the scan has done when it has cut the path down to its first e characters: the kept names so far are
      those of the cut-off pieces, and they stand at the end of the new buffer. */
  ghost predicate Scanned(path: string, e: nat, skip: nat, names: seq<string>, out: seq<char>, nptr: nat) {
    && e <= |path| && Kept(Split(path[..e]), skip) + names == Kept(Split(path), 0)
    && |out| == |path| + 1 && e <= nptr <= |path| && out[nptr..|path|] == Joined(names)
    && (nptr == |path| <==> names == [])
    && out[|path|] == NUL && NUL !in out[nptr..|path|]
  }

  lemma ScanStart(path: string, out: seq<char>)
    requires |out| == |path| + 1 && out[|path|] == NUL
    ensures Scanned(path, |path|, 0, [], out, |path|)
  {
    assert path[..|path|] == path;
    assert Kept(Split(path), 0) + [] == Kept(Split(path), 0);
  }

  /** A piece that adds no name. */
  lemma ScanSkips(path: string, i: nat, e: nat, skip: nat, names: seq<string>, out: seq<char>, nptr: nat)
    requires Scanned(path, e, skip, names, out, nptr) && i < e <= |path| && path[i] == SLASH && NoSlash(path, i + 1, e)
    ensures var seg := path[i + 1..e];
      && (seg == "" || seg == "." ==> Scanned(path, i, skip, names, out, nptr))
      && (seg == ".." ==> Scanned(path, i, skip + 1, names, out, nptr))
      && (seg != "" && seg != "." && seg != ".." && skip > 0 ==> Scanned(path, i, skip - 1, names, out, nptr))
  {
    SplitAt(path, i, e);
    var q := Split(path[..i]);
    assert (q + [path[i + 1..e]])[..|q|] == q;
  }

  /** A piece that is kept: its name goes in front, after a slash. */
  lemma ScanKeeps(path: string, i: nat, e: nat, names: seq<string>, out: seq<char>, out': seq<char>, nptr: nat)
    requires Scanned(path, e, 0, names, out, nptr) && i < e <= |path| && path[i] == SLASH && NoSlash(path, i + 1, e)
    requires path[i + 1..e] != "" && path[i + 1..e] != "." && path[i + 1..e] != ".."
    requires |out'| == |out| && i <= nptr - (e - i)
    requires out'[nptr - (e - i)..] == [SLASH] + path[i + 1..e] + out[nptr..] && CString(path)
    ensures Scanned(path, i, 0, [path[i + 1..e]] + names, out', nptr - (e - i))
  {
    var seg, n := path[i + 1..e], nptr - (e - i);
    SplitAt(path, i, e);
    var q := Split(path[..i]);
    assert (q + [seg])[..|q|] == q;
    assert Kept(q, 0) + ([seg] + names) == (Kept(q, 0) + [seg]) + names;
    JoinedFront(seg, names);
    KeepsOutput(out, out', n, nptr, [SLASH] + seg, |path|);
    assert NUL !in seg;
  }

  lemma KeepsOutput(out: seq<char>, out': seq<char>, n: nat, nptr: nat, front: string, len: nat)
    requires |out| == |out'| == len + 1 && n + |front| == nptr <= len && out'[n..] == front + out[nptr..]
    ensures out'[n..len] == front + out[nptr..len] && out'[len] == out[len]
  {
    assert out'[n..][..len - n] == out'[n..len];
    assert (front + out[nptr..])[..len - n] == front + out[nptr..len];
    assert out'[len] == out'[n..][len - n];
    assert (front + out[nptr..])[len - n] == out[nptr..][len - nptr];
  }

  lemma ScanEnd(path: string, e: nat, skip: nat, names: seq<string>, out: seq<char>, nptr: nat)
    requires path != "" && path[0] == SLASH && Scanned(path, e, skip, names, out, nptr) && e == 0
    ensures names == Walked(Split(path))
  {
    assert path[..0] == "";
    assert Split("")[..0] == [];
    KeptIsWalked(Split(path), 0);
    assert Kept([], skip) == [];
    assert Kept([""], skip) == [];
  }

  /** memcpy of a name into the buffer, and the slash before it. */
  method Prepend(newPath: array<char>, nptr0: nat, seg: string) returns (nptr: nat)
    requires |seg| < nptr0 <= newPath.Length
    modifies newPath
    ensures nptr == nptr0 - |seg| - 1 && newPath[nptr..] == [SLASH] + seg + old(newPath[nptr0..])
  {
    nptr := nptr0 - |seg|;
    forall k | 0 <= k < |seg| {
      newPath[nptr + k] := seg[k];
    }
    nptr := nptr - 1;
    newPath[nptr] := SLASH;
    assert newPath[nptr..] == [newPath[nptr]] + newPath[nptr + 1..nptr0] + newPath[nptr0..];
    assert newPath[nptr + 1..nptr0] == seg;
    assert newPath[nptr0..] == old(newPath[nptr0..]);
  }

  /** The buffer holds the path as far as e, where a string ends. */
  predicate CutAt(buf: seq<char>, path: string, e: nat) {
    |buf| == |path| + 1 && e <= |path| && buf[..e] == path[..e] && buf[e] == NUL
  }

  /** A slash turned into a terminator: the string behind it is the piece of the path. */
  lemma CutMore(buf: seq<char>, path: string, i: nat, e: nat)
    requires CutAt(buf, path, e) && i < e && CString(path)
    ensures i < |buf| && CutAt(buf[i := NUL], path, i) && Reading(buf[i := NUL], i + 1) == path[i + 1..e]
  {
    var buf' := buf[i := NUL];
    assert buf'[i + 1..e] == buf[..e][i + 1..] == path[..e][i + 1..] == path[i + 1..e];
    ReadingIs(buf', i + 1, e);
    assert buf'[..i] == buf[..e][..i];
  }

  lemma CutRead(buf: seq<char>, path: string, i: nat, e: nat)
    requires CutAt(buf, path, e) && i < e
    ensures |buf| == |path| + 1 && i < |path| && buf[i] == path[i]
  {
    assert buf[i] == buf[..e][i];
  }

  /** One turn of the loop, at a slash. */
  method Piece(path: array<char>, newPath: array<char>, ptr: nat, nptr0: nat, skip0: nat, set0: nat,
               ghost full: string, ghost e: nat, ghost names0: seq<string>)
    returns (nptr: nat, skip: nat, set_: nat, ghost names: seq<string>)
    requires path != newPath && CString(full) && CutAt(path[..], full, e) && ptr < e && full[ptr] == SLASH && NoSlash(full, ptr + 1, e)
    requires Scanned(full, e, skip0, names0, newPath[..], nptr0) && set0 == |names0|
    modifies path, newPath
    ensures CutAt(path[..], full, ptr) && Scanned(full, ptr, skip, names, newPath[..], nptr) && set_ == |names|
  {
    hide Scanned, Reading, CutAt, NoSlash;
    nptr, skip, set_, names := nptr0, skip0, set0, names0;
    ghost var buf, out := path[..], newPath[..];
    CutMore(buf, full, ptr, e);
    RoomLeft(full, e, skip, names, out, nptr);
    path[ptr] := NUL;
    assert path[..] == buf[ptr := NUL];
    assert newPath[..] == out;
    var seg := Reading(path[..], ptr + 1);
    ScanSkips(full, ptr, e, skip, names, out, nptr);
    if seg == "" || seg == "." {
      return;
    }
    if seg == ".." {
      skip := skip + 1;
      return;
    }
    if skip > 0 {
      skip := skip - 1;
      return;
    }
    assert out[nptr..] == newPath[nptr..];
    nptr := Prepend(newPath, nptr, seg);
    assert newPath[..][nptr..] == newPath[nptr..];
    ScanKeeps(full, ptr, e, names, out, newPath[..], nptr0);
    names := [seg] + names;
    set_ := set_ + 1;
  }

  /** The scan of vfs_normalize_path. path and newPath are the buffers the source allocates; the first one is cut into
      strings and the second is filled from its end. */
  method Scan(full: string) returns (r: string)
    requires CString(full) && full != "" && full[0] == SLASH
    ensures r == Rendered(Walked(Split(full)))
  {
    hide Scanned, Reading, Split, Walked, Joined, CutAt, NoSlash;
    var plen := |full|;
    var path := new char[plen + 1](i requires 0 <= i < plen + 1 => if i < plen then full[i] else NUL);
    var newPath := new char[plen + 1](_ => NUL);
    CutStart(path[..], full);
    var ptr := plen - 1;
    var nptr: nat, skip: nat, set_: nat := plen, 0, 0;
    ghost var e: nat, names := plen, [];
    ScanStart(full, newPath[..]);
    NoneYet(full, plen);
    while ptr >= 0
      invariant -1 <= ptr < plen && (ptr < e || ptr == -1) && path != newPath && fresh(path) && fresh(newPath)
      invariant CutAt(path[..], full, e) && NoSlash(full, ptr + 1, e) && (ptr == -1 ==> e == 0)
      invariant Scanned(full, e, skip, names, newPath[..], nptr) && set_ == |names|
    {
      CutRead(path[..], full, ptr, e);
      if path[ptr] == SLASH {
        nptr, skip, set_, names := Piece(path, newPath, ptr, nptr, skip, set_, full, e, names);
        e := ptr;
        NoneYet(full, e);
      } else {
        NoneMore(full, ptr, e);
      }
      ptr := ptr - 1;
    }
    ScanEnd(full, e, skip, names, newPath[..], nptr);
    Finish(full, names, newPath[..], skip, nptr);
    RoomLeft(full, e, skip, names, newPath[..], nptr);
    ghost var out := newPath[..];
    if set_ == 0 {
      nptr := nptr - 1;
      newPath[nptr] := SLASH;
      assert newPath[..] == out[nptr := SLASH];
    }
    r := Reading(newPath[..], nptr);
  }

  /** vfs_normalize_path: what the path means, except that "." gives the working directory as it is. */
  method Normalize(origPath: string, cwd: string) returns (r: string)
    requires CString(origPath) && CString(cwd)
    ensures r == if origPath == "." then cwd else Meaning(origPath, cwd)
  {
    if origPath == "." {
      return cwd;
    }
    r := Scan(Absolute(origPath, cwd));
  }

  lemma NoneYet(s: string, e: nat)
    ensures NoSlash(s, e, e)
  {
  }

  lemma NoneMore(s: string, i: nat, e: nat)
    requires NoSlash(s, i + 1, e) && i < |s| && s[i] != SLASH
    ensures NoSlash(s, i, e)
  {
  }

  lemma CutStart(buf: seq<char>, path: string)
    requires |buf| == |path| + 1 && forall i :: 0 <= i < |buf| ==> buf[i] == if i < |path| then path[i] else NUL
    ensures CutAt(buf, path, |path|)
  {
  }

  lemma RoomLeft(path: string, e: nat, skip: nat, names: seq<string>, out: seq<char>, nptr: nat)
    requires Scanned(path, e, skip, names, out, nptr)
    ensures e <= nptr <= |path| && |out| == |path| + 1
  {
  }

  lemma Finish(path: string, names: seq<string>, out: seq<char>, skip: nat, nptr: nat)
    requires path != "" && Scanned(path, 0, skip, names, out, nptr)
    ensures names == [] ==> nptr == |path| == |out| - 1 && Reading(out[nptr - 1 := SLASH], nptr - 1) == [SLASH]
    ensures names != [] ==> Reading(out, nptr) == Joined(names)
  {
    if names == [] {
      var out' := out[nptr - 1 := SLASH];
      assert out'[nptr - 1..nptr] == [SLASH];
      ReadingIs(out', nptr - 1, nptr);
    } else {
      ReadingIs(out, nptr, |path|);
    }
  }

  // ---------------------------------------------------------------- canonical paths

  predicate SlashFree(s: string) { SLASH !in s }

  /** A name that a directory entry can have. */
  predicate Proper(name: string) { name != "" && name != "." && name != ".." && SlashFree(name) }

  predicate AllProper(names: seq<string>) { forall i :: 0 <= i < |names| ==> Proper(names[i]) }

  ghost predicate Canonical(s: string) { exists names :: AllProper(names) && s == Rendered(names) }

  lemma {:induction false} PiecesSlashFree(s: string)
    ensures forall i :: 0 <= i < |Split(s)| ==> SlashFree(Split(s)[i])
  {
    if s != "" {
      PiecesSlashFree(s[..|s| - 1]);
    }
  }

  lemma {:induction false} WalkedProper(segs: seq<string>)
    requires forall i :: 0 <= i < |segs| ==> SlashFree(segs[i])
    ensures AllProper(Walked(segs))
  {
    if segs != [] {
      WalkedProper(segs[..|segs| - 1]);
    }
  }

  /** The result is always canonical. */
  lemma MeaningCanonical(path: string, cwd: string)
    ensures Canonical(Meaning(path, cwd))
  {
    hide Split, Walked;
    PiecesSlashFree(Absolute(path, cwd));
    WalkedProper(Split(Absolute(path, cwd)));
  }

  lemma SplitAppend(s: string, name: string)
    requires SlashFree(name)
    ensures Split(s + [SLASH] + name) == Split(s) + [name]
  {
    hide Split;
    var t := s + [SLASH] + name;
    assert t[..|t|] == t && t[..|s|] == s && t[|s| + 1..|t|] == name;
    forall k | |s| + 1 <= k < |t| ensures t[k] != SLASH {
      assert t[k] == name[k - |s| - 1];
    }
    SplitAt(t, |s|, |t|);
  }

  lemma {:induction false} SplitJoined(names: seq<string>)
    requires AllProper(names)
    ensures Split(Joined(names)) == [""] + names
  {
    if names != [] {
      var init, last := names[..|names| - 1], names[|names| - 1];
      SplitJoined(init);
      SplitAppend(Joined(init), last);
      assert names == init + [last];
    }
  }

  /** One more piece at the end of an absolute path: a name goes down, ".." goes up unless at the root, and "." and an empty
      piece stay. */
  lemma LastPiece(path: string, cwd: string, name: string) returns (names: seq<string>)
    requires path != "" && path[0] == SLASH && Proper(name)
    ensures AllProper(names) && Meaning(path, cwd) == Rendered(names)
    ensures Meaning(path + [SLASH] + name, cwd) == Rendered(names + [name])
    ensures Meaning(path + [SLASH] + "..", cwd) == Rendered(if names == [] then [] else names[..|names| - 1])
    ensures Meaning(path + [SLASH] + ".", cwd) == Meaning(path + [SLASH] + "", cwd) == Rendered(names)
  {
    names := Walked(Split(path));
    PiecesSlashFree(path);
    WalkedProper(Split(path));
    OnePiece(path, name);
    OnePiece(path, "..");
    OnePiece(path, ".");
    OnePiece(path, "");
    hide Split, Walked, Rendered, Proper;
  }

  lemma OnePiece(path: string, name: string)
    requires path != "" && path[0] == SLASH && SlashFree(name)
    ensures var (stack, p) := (Walked(Split(path)), path + [SLASH] + name);
      && p[0] == SLASH
      && Walked(Split(p)) == if name == "" || name == "." then stack
           else if name == ".." then (if stack == [] then [] else stack[..|stack| - 1]) else stack + [name]
  {
    SplitAppend(path, name);
    hide Split;
  }

  /** Where the pieces lead from a directory other than the root. */
  function Continued(stack: seq<string>, segs: seq<string>): (s: seq<string>) {
    if segs == [] then stack
    else
      var here := Continued(stack, segs[..|segs| - 1]);
      var seg := segs[|segs| - 1];
      if seg == "" || seg == "." then here
      else if seg == ".." then (if here == [] then [] else here[..|here| - 1])
      else here + [seg]
  }

  lemma {:induction false} WalkedConcat(a: seq<string>, b: seq<string>)
    ensures Walked(a + b) == Continued(Walked(a), b)
    decreases |b|
  {
    if b == [] {
      assert a + b == a;
    } else {
      assert (a + b)[..|a + b| - 1] == a + b[..|b| - 1];
      WalkedConcat(a, b[..|b| - 1]);
    }
  }

  lemma {:induction false} ContinuedNames(stack: seq<string>, names: seq<string>)
    requires AllProper(names)
    ensures Continued(stack, names) == stack + names
  {
    if names != [] {
      var init, last := names[..|names| - 1], names[|names| - 1];
      ContinuedNames(stack, init);
      assert stack + names == stack + init + [last];
    }
  }

  lemma WalkedRendered(names: seq<string>)
    requires AllProper(names)
    ensures Walked(Split(Rendered(names))) == names
  {
    if names == [] {
      SplitAppend("", "");
      assert "" + [SLASH] + "" == [SLASH];
      assert Split("") + [""] == ["", ""];
      assert ["", ""][..1] == [""] && [""][..0] == [];
    } else {
      SplitJoined(names);
      WalkedConcat([""], names);
      ContinuedNames([], names);
      assert [""][..0] == [];
    }
  }

  lemma {:induction false} JoinedStarts(names: seq<string>)
    requires names != []
    ensures Joined(names) != "" && Joined(names)[0] == SLASH
  {
    if |names| > 1 {
      JoinedStarts(names[..|names| - 1]);
    }
  }

  /** Canonical paths mean themselves, in whatever directory: normalising twice is normalising once. */
  lemma Idempotent(path: string, cwd: string, other: string)
    ensures Canonical(path) ==> Meaning(path, other) == path
    ensures Meaning(Meaning(path, cwd), other) == Meaning(path, cwd)
  {
    hide Split, Walked, Meaning;
    MeaningCanonical(path, cwd);
    CanonicalFixed(Meaning(path, cwd), other);
    if Canonical(path) {
      CanonicalFixed(path, other);
    }
  }

  lemma CanonicalFixed(path: string, cwd: string)
    requires Canonical(path)
    ensures Meaning(path, cwd) == path && path != "" && path != "."
  {
    hide Split, Walked;
    var names :| AllProper(names) && path == Rendered(names);
    WalkedRendered(names);
    if names != [] {
      JoinedStarts(names);
    }
  }

  /** One more character: a new piece, or a longer last one. */
  function Extended(q: seq<string>, c: char): (r: seq<string>)
    requires |q| > 0
  {
    if c == SLASH then q + [""] else q[..|q| - 1] + [q[|q| - 1] + [c]]
  }

  lemma SplitStep(s: string, c: char)
    ensures Split(s + [c]) == Extended(Split(s), c)
  {
    assert (s + [c])[..|s|] == s;
  }

  lemma ExtendedConcat(a: seq<string>, b: seq<string>, c: char)
    requires |b| > 0
    ensures Extended(a + b, c) == a + Extended(b, c)
  {
    assert (a + b)[..|a + b| - 1] == a + b[..|b| - 1];
  }

  /** A slash between two strings keeps their pieces apart. */
  lemma {:induction false} SplitMiddle(s: string, t: string)
    ensures Split(s + [SLASH] + t) == Split(s) + Split(t)
    decreases |t|
  {
    hide Split, Extended;
    if t == "" {
      SplitAppend(s, "");
      assert s + [SLASH] + t == s + [SLASH] + "";
      NoPieces();
    } else {
      var t', c := t[..|t| - 1], t[|t| - 1];
      assert t == t' + [c];
      assert s + [SLASH] + t == (s + [SLASH] + t') + [c];
      SplitMiddle(s, t');
      SplitStep(t', c);
      SplitStep(s + [SLASH] + t', c);
      ExtendedConcat(Split(s), Split(t'), c);
    }
  }

  lemma NoPieces()
    ensures Split("") == [""]
  {
  }

  lemma SplitFront(s: string)
    ensures Split([SLASH] + s) == [""] + Split(s)
  {
    hide Split;
    SplitMiddle("", s);
    NoPieces();
    assert "" + [SLASH] + s == [SLASH] + s;
  }

  /** A relative path is walked from the working directory. */
  lemma RelativeFromCwd(path: string, names: seq<string>)
    requires AllProper(names) && (path == "" || path[0] != SLASH)
    ensures Meaning(path, Rendered(names)) == Rendered(Continued(names, Split(path)))
  {
    hide Split, Walked, Continued;
    var cwd := Rendered(names);
    assert [SLASH] + cwd + [SLASH] + path == ([SLASH] + cwd) + [SLASH] + path;
    SplitMiddle([SLASH] + cwd, path);
    SplitFront(cwd);
    WalkedConcat([""] + Split(cwd), Split(path));
    WalkedRendered(names);
    FrontIgnored(Split(cwd));
  }

  lemma FrontIgnored(segs: seq<string>)
    ensures Walked([""] + segs) == Walked(segs)
  {
    WalkedConcat([""], segs);
    WalkedConcat([], segs);
    assert [""][..0] == [] && [] + segs == segs;
  }

  /** The shortcut for "." gives the meaning of "." exactly when the working directory is canonical. */
  lemma DotShortcut(cwd: string)
    ensures Meaning(".", cwd) == cwd <==> Canonical(cwd)
  {
    hide Split, Walked, Continued;
    if Canonical(cwd) {
      var names :| AllProper(names) && cwd == Rendered(names);
      RelativeFromCwd(".", names);
      DotStays(names);
    }
    if Meaning(".", cwd) == cwd {
      MeaningCanonical(".", cwd);
    }
  }

  lemma DotStays(names: seq<string>)
    ensures Continued(names, Split(".")) == names
  {
    SplitStep("", '.');
    assert "" + ['.'] == "." && Split("") == [""];
    assert Extended([""], '.') == ["."];
    assert ["."][..0] == [];
  }
}
