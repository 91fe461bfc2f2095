/** The MD5 implementation src/lib/md5.c against section 3 of RFC 1321. */
module Md5 {
  import opened Common

  type Word = bv32

  datatype Regs = Regs(a: Word, b: Word, c: Word, d: Word)

  const INIT := Regs(0x67452301, 0xefcdab89, 0x98badcfe, 0x10325476)

  const S: seq<nat> :=
    ([7, 12, 17, 22, 7, 12, 17, 22, 7, 12, 17, 22, 7, 12, 17, 22] + [5, 9, 14, 20, 5, 9, 14, 20, 5, 9, 14, 20, 5, 9, 14, 20]) +
    ([4, 11, 16, 23, 4, 11, 16, 23, 4, 11, 16, 23, 4, 11, 16, 23] + [6, 10, 15, 21, 6, 10, 15, 21, 6, 10, 15, 21, 6, 10, 15, 21])

  const K: seq<Word> := [0xd76aa478, 0xe8c7b756, 0x242070db, 0xc1bdceee, 0xf57c0faf, 0x4787c62a, 0xa8304613, 0xfd469501,
    0x698098d8, 0x8b44f7af, 0xffff5bb1, 0x895cd7be, 0x6b901122, 0xfd987193, 0xa679438e, 0x49b40821,
    0xf61e2562, 0xc040b340, 0x265e5a51, 0xe9b6c7aa, 0xd62f105d, 0x02441453, 0xd8a1e681, 0xe7d3fbc8,
    0x21e1cde6, 0xc33707d6, 0xf4d50d87, 0x455a14ed, 0xa9e3e905, 0xfcefa3f8, 0x676f02d9, 0x8d2a4c8a,
    0xfffa3942, 0x8771f681, 0x6d9d6122, 0xfde5380c, 0xa4beea44, 0x4bdecfa9, 0xf6bb4b60, 0xbebfbc70,
    0x289b7ec6, 0xeaa127fa, 0xd4ef3085, 0x04881d05, 0xd9d4d039, 0xe6db99e5, 0x1fa27cf8, 0xc4ac5665,
    0xf4292244, 0x432aff97, 0xab9423a7, 0xfc93a039, 0x655b59c3, 0x8f0ccc92, 0xffeff47d, 0x85845dd1,
    0x6fa87e4f, 0xfe2ce6e0, 0xa3014314, 0x4e0811a1, 0xf7537e82, 0xbd3af235, 0x2ad7d2bb, 0xeb86d391]

  function Sine(i: nat): Word
    requires i < 64
  {
    K[i]
  }

  // addition modulo 2^32
  function Plus(x: Word, y: Word): Word { x + y }

  // ---------------------------------------------------------------- section 3.4 of RFC 1321

  function F(x: Word, y: Word, z: Word): Word { (x & y) | (!x & z) }
  function G(x: Word, y: Word, z: Word): Word { (x & z) | (y & !z) }
  function H(x: Word, y: Word, z: Word): Word { x ^ y ^ z }
  function I(x: Word, y: Word, z: Word): Word { y ^ (x | !z) }

  /** F takes the bits of y where x has ones and those of z where it has zeros. */
  lemma Conditional(x: Word, y: Word, z: Word)
    ensures x & F(x, y, z) == x & y
    ensures !x & F(x, y, z) == !x & z
  {
  }

  /** G does so with z choosing. */
  lemma Choosing(x: Word, y: Word, z: Word)
    ensures z & G(x, y, z) == z & x
    ensures !z & G(x, y, z) == !z & y
  {
  }

  /** H is the parity. */
  lemma Parity(x: Word, y: Word, z: Word)
    ensures H(x, y, z) ^ z == x ^ y
  {
  }

  function Mix(round: nat, x: Word, y: Word, z: Word): Word {
    if round == 0 then F(x, y, z) else if round == 1 then G(x, y, z) else if round == 2 then H(x, y, z) else I(x, y, z)
  }

  /** The circular shift. */
  function Rotl(x: Word, s: nat): Word
    requires 0 < s < 32
  {
    (x << s) | (x >> (32 - s))
  }

  /** The shifts of the four operations of a line, round by round. */
  const SHIFTS: seq<seq<nat>> := [[7, 12, 17, 22], [5, 9, 14, 20], [4, 11, 16, 23], [6, 10, 15, 21]]

  /** The words that the sixteen operations of a round take, in order. */
  const ORDER: seq<seq<nat>> := [
    [0, 1, 2, 3, 4, 5, 6, 7, 8, 9, 10, 11, 12, 13, 14, 15],
    [1, 6, 11, 0, 5, 10, 15, 4, 9, 14, 3, 8, 13, 2, 7, 12],
    [5, 8, 11, 14, 1, 4, 7, 10, 13, 0, 3, 6, 9, 12, 15, 2],
    [0, 7, 14, 5, 12, 3, 10, 1, 8, 15, 6, 13, 4, 11, 2, 9]]

  function Shift(i: nat): (s: nat)
    requires i < 64
    ensures 0 < s < 32
  {
    SHIFTS[i / 16][i % 4]
  }

  function Pick(i: nat): (k: nat)
    requires i < 64
    ensures k < 16
  {
    ORDER[i / 16][i % 16]
  }

  /** The operation [abcd k s i]; the sum does not depend on the order of its terms. */
  function Op(i: nat, a: Word, b: Word, c: Word, d: Word, x: seq<Word>): Word
    requires i < 64 && |x| == 16
  {
    Plus(b, Rotl(Plus(Plus(Plus(a, Mix(i / 16, b, c, d)), Sine(i)), x[Pick(i)]), Shift(i)))
  }

  /** A line of four operations: [ABCD], [DABC], [CDAB], [BCDA]. */
  function Quad(r: Regs, i: nat, x: seq<Word>): (q: Regs)
    requires i + 3 < 64 && |x| == 16
  {
    var a := Op(i, r.a, r.b, r.c, r.d, x);
    var d := Op(i + 1, r.d, a, r.b, r.c, x);
    var c := Op(i + 2, r.c, d, a, r.b, x);
    var b := Op(i + 3, r.b, c, d, a, x);
    Regs(a, b, c, d)
  }

  /** The first n lines; a round has four of them. */
  function Lines(r: Regs, n: nat, x: seq<Word>): (q: Regs)
    requires n <= 16 && |x| == 16
  {
    if n == 0 then r else Quad(Lines(r, n - 1, x), 4 * (n - 1), x)
  }

  function Add(r: Regs, q: Regs): Regs { Regs(Plus(r.a, q.a), Plus(r.b, q.b), Plus(r.c, q.c), Plus(r.d, q.d)) }

  /** Four rounds over a block, added to the registers. */
  function Block(r: Regs, x: seq<Word>): (q: Regs)
    requires |x| == 16
  {
    Add(r, Lines(r, 16, x))
  }

  // ---------------------------------------------------------------- the loop

  /** The word index as the source computes it. */
  function Index(i: nat): (j: nat)
    requires i < 64
    ensures j < 16
  {
    if i / 16 == 0 then i else if i / 16 == 1 then (i * 5 + 1) % 16 else if i / 16 == 2 then (i * 3 + 5) % 16 else i * 7 % 16
  }

  lemma Picked0(n: nat)
    requires n < 16
    ensures Index(0 + n) == ORDER[0][n]
  {
  }

  lemma Picked1(n: nat)
    requires n < 16
    ensures Index(16 + n) == ORDER[1][n]
  {
  }

  lemma Picked2(n: nat)
    requires n < 16
    ensures Index(32 + n) == ORDER[2][n]
  {
  }

  lemma Picked3(n: nat)
    requires n < 16
    ensures Index(48 + n) == ORDER[3][n]
  {
  }

  lemma Picked(i: nat)
    requires i < 64
    ensures Index(i) == Pick(i)
  {
    hide Index;
    assert i == 16 * (i / 16) + i % 16;
    if i / 16 == 0 { Picked0(i % 16); }
    if i / 16 == 1 { Picked1(i % 16); }
    if i / 16 == 2 { Picked2(i % 16); }
    if i / 16 == 3 { Picked3(i % 16); }
  }

  /** The shift as the source looks it up. */
  function Turned(i: nat): (s: nat)
    requires i < 64
  {
    S[i]
  }

  lemma Shifted0(n: nat)
    requires n < 16
    ensures Turned(0 + n) == SHIFTS[0][n % 4]
  {
  }

  lemma Shifted1(n: nat)
    requires n < 16
    ensures Turned(16 + n) == SHIFTS[1][n % 4]
  {
  }

  lemma Shifted2(n: nat)
    requires n < 16
    ensures Turned(32 + n) == SHIFTS[2][n % 4]
  {
  }

  lemma Shifted3(n: nat)
    requires n < 16
    ensures Turned(48 + n) == SHIFTS[3][n % 4]
  {
  }

  lemma Shifted(i: nat)
    requires i < 64
    ensures Turned(i) == Shift(i)
  {
    hide Turned;
    var n := i % 16;
    assert i == 16 * (i / 16) + n && i % 4 == n % 4;
    if i / 16 == 0 { Shifted0(n); }
    if i / 16 == 1 { Shifted1(n); }
    if i / 16 == 2 { Shifted2(n); }
    if i / 16 == 3 { Shifted3(n); }
  }

  /** One turn of the loop of md5Step. */
  function Turn(r: Regs, i: nat, x: seq<Word>): (q: Regs)
    requires i < 64 && |x| == 16
  {
    Shifted(i);
    Regs(r.d, Plus(r.b, Rotl(Plus(Plus(Plus(r.a, Mix(i / 16, r.b, r.c, r.d)), Sine(i)), x[Index(i)]), Turned(i))), r.b, r.c)
  }

  function Turns(r: Regs, n: nat, x: seq<Word>): (q: Regs)
    requires n <= 64 && |x| == 16
  {
    if n == 0 then r else Turn(Turns(r, n - 1, x), n - 1, x)
  }

  lemma TurnIsOp(r: Regs, i: nat, x: seq<Word>)
    requires i < 64 && |x| == 16
    ensures Turn(r, i, x) == Regs(r.d, Op(i, r.a, r.b, r.c, r.d, x), r.b, r.c)
  {
    hide Rotl, Mix, Index, Pick, Shift, Plus, Sine, Turned;
    Shifted(i);
    Picked(i);
  }

  /** The registers that move through the loop come back to their places every four turns. */
  lemma FourTurns(r: Regs, i: nat, x: seq<Word>)
    requires i + 3 < 64 && |x| == 16
    ensures Turn(Turn(Turn(Turn(r, i, x), i + 1, x), i + 2, x), i + 3, x) == Quad(r, i, x)
  {
    hide Turn, Op;
    var r1 := Turn(r, i, x);
    var r2 := Turn(r1, i + 1, x);
    var r3 := Turn(r2, i + 2, x);
    TurnIsOp(r, i, x);
    TurnIsOp(r1, i + 1, x);
    TurnIsOp(r2, i + 2, x);
    TurnIsOp(r3, i + 3, x);
  }

  /** The loop is the four rounds. */
  lemma {:induction false} TurnsAreLines(r: Regs, n: nat, x: seq<Word>)
    requires n <= 16 && |x| == 16
    ensures Turns(r, 4 * n, x) == Lines(r, n, x)
  {
    hide Turn, Quad;
    if n > 0 {
      TurnsAreLines(r, n - 1, x);
      var i := 4 * (n - 1);
      FourTurns(Turns(r, i, x), i, x);
      assert Turns(r, i + 4, x) == Turn(Turns(r, i + 3, x), i + 3, x);
      assert Turns(r, i + 3, x) == Turn(Turns(r, i + 2, x), i + 2, x);
      assert Turns(r, i + 2, x) == Turn(Turns(r, i + 1, x), i + 1, x);
      assert Turns(r, i + 1, x) == Turn(Turns(r, i, x), i, x);
    }
  }

  /** md5Step. */
  method Step(buffer: Regs, input: seq<Word>) returns (r: Regs)
    requires |input| == 16
    ensures r == Block(buffer, input)
  {
    hide Rotl, F, G, H, I, Turns, Lines, Plus, Sine, Turned, Shift;
    var aa, bb, cc, dd := buffer.a, buffer.b, buffer.c, buffer.d;
    StartTurns(buffer, input);
    var i := 0;
    while i < 64
      invariant 0 <= i <= 64 && Regs(aa, bb, cc, dd) == Turns(buffer, i, input)
    {
      NextTurn(buffer, i, input);
      Shifted(i);
      var e, j;
      match i / 16 {
        case 0 => e := F(bb, cc, dd); j := i;
        case 1 => e := G(bb, cc, dd); j := (i * 5 + 1) % 16;
        case 2 => e := H(bb, cc, dd); j := (i * 3 + 5) % 16;
        case _ => e := I(bb, cc, dd); j := i * 7 % 16;
      }
      var temp := dd;
      dd := cc;
      cc := bb;
      bb := Plus(bb, Rotl(Plus(Plus(Plus(aa, e), Sine(i)), input[j]), Turned(i)));
      aa := temp;
      i := i + 1;
    }
    TurnsAreLines(buffer, 16, input);
    r := Regs(Plus(buffer.a, aa), Plus(buffer.b, bb), Plus(buffer.c, cc), Plus(buffer.d, dd));
  }

  lemma StartTurns(r: Regs, x: seq<Word>)
    requires |x| == 16
    ensures Turns(r, 0, x) == r
  {
  }

  lemma NextTurn(r: Regs, i: nat, x: seq<Word>)
    requires i < 64 && |x| == 16
    ensures Turns(r, i + 1, x) == Turn(Turns(r, i, x), i, x)
  {
  }

  // ---------------------------------------------------------------- sections 3.1 to 3.3 of RFC 1321

  type Byte = bv8

  /** Four bytes as a word, low-order byte first. */
  function WordOf(b0: Byte, b1: Byte, b2: Byte, b3: Byte): Word {
    ((b3 as bv32) << 24) | ((b2 as bv32) << 16) | ((b1 as bv32) << 8) | (b0 as bv32)
  }

  function Words(s: seq<Byte>): (w: seq<Word>)
    ensures |w| == |s| / 4
  {
    seq(|s| / 4, j requires 0 <= j < |s| / 4 => WordOf(s[4 * j], s[4 * j + 1], s[4 * j + 2], s[4 * j + 3]))
  }

  /** How many bytes of padding: at least one, up to 56 modulo 64. */
  function PadLength(n: nat): (k: nat)
    ensures 0 < k <= 64 && (n + k) % 64 == 56
  {
    if n % 64 < 56 then 56 - n % 64 else 120 - n % 64
  }

  function Padding(k: nat): (s: seq<Byte>)
    ensures |s| == k
  {
    seq(k, i => if i == 0 then 0x80 else 0)
  }

  function ToWord(n: nat): Word
    requires n < WRAP
  {
    n as bv32
  }

  /** The low-order 64 bits of the length in bits, as two words, low-order word first. */
  function LengthWords(n: nat): (w: seq<Word>)
    ensures |w| == 2
  {
    [ToWord(n * 8 % WRAP), ToWord(n * 8 / WRAP % WRAP)]
  }

  /** The padded message in words. */
  function Padded(m: seq<Byte>): (w: seq<Word>) {
    Words(m + Padding(PadLength(|m|))) + LengthWords(|m|)
  }

  /** Section 3.1: a one bit and then zeros, at least the one bit and at most 512 bits; section 3.2: then the length in bits,
      so that there are whole blocks. */
  lemma PaddedForm(m: seq<Byte>)
    ensures |Padded(m)| % 16 == 0 && 4 * |Padded(m)| == |m| + PadLength(|m|) + 8 && 0 < PadLength(|m|) <= 64
    ensures Padding(PadLength(|m|))[0] == 0x80 && forall i :: 0 < i < PadLength(|m|) ==> Padding(PadLength(|m|))[i] == 0
    ensures |m| < 0x2000_0000 ==> Padded(m)[|Padded(m)| - 2..] == [ToWord(8 * |m|), ToWord(0)]
  {
    hide Words, ToWord;
    var n := |m| + PadLength(|m|);
    hide PadLength;
    WholeBlocks(n);
    var front := Words(m + Padding(PadLength(|m|)));
    assert Padded(m)[|front|..] == LengthWords(|m|);
  }

  lemma WholeBlocks(n: nat)
    requires n % 64 == 56
    ensures (n / 4 + 2) % 16 == 0 && 4 * (n / 4) == n
  {
    var q := n / 64;
    assert n == 64 * q + 56;
    assert n / 4 == 16 * q + 14;
    assert (n / 4 + 2) == 16 * (q + 1);
  }

  /** The blocks of a sequence of words, one after the other. */
  function Fold(w: seq<Word>): (r: Regs) {
    if |w| < 16 then INIT else Block(Fold(w[..|w| - 16]), w[|w| - 16..])
  }

  function BytesOf(w: Word): (s: seq<Byte>)
    ensures |s| == 4
  {
    [(w & 0xff) as bv8, ((w & 0xff00) >> 8) as bv8, ((w & 0xff_0000) >> 16) as bv8, ((w & 0xff00_0000) >> 24) as bv8]
  }

  /** Bytes become words and words bytes low-order byte first. */
  lemma WordBytes(b0: Byte, b1: Byte, b2: Byte, b3: Byte)
    ensures BytesOf(WordOf(b0, b1, b2, b3)) == [b0, b1, b2, b3]
    ensures WordOf(b0, 0, 0, 0) == b0 as Word && WordOf(0, b1, 0, 0) == (b1 as Word) << 8
    ensures WordOf(0, 0, b2, 0) == (b2 as Word) << 16 && WordOf(0, 0, 0, b3) == (b3 as Word) << 24
  {
  }

  /** Section 3.3: the registers start as the bytes 01 23 45 67, 89 ab cd ef, fe dc ba 98 and 76 54 32 10. */
  lemma InitBytes()
    ensures BytesOf(INIT.a) == [0x01, 0x23, 0x45, 0x67] && BytesOf(INIT.b) == [0x89, 0xab, 0xcd, 0xef]
    ensures BytesOf(INIT.c) == [0xfe, 0xdc, 0xba, 0x98] && BytesOf(INIT.d) == [0x76, 0x54, 0x32, 0x10]
  {
    WordBytes(0x01, 0x23, 0x45, 0x67);
    WordBytes(0x89, 0xab, 0xcd, 0xef);
    WordBytes(0xfe, 0xdc, 0xba, 0x98);
    WordBytes(0x76, 0x54, 0x32, 0x10);
  }

  function Output(r: Regs): (s: seq<Byte>) { BytesOf(r.a) + BytesOf(r.b) + BytesOf(r.c) + BytesOf(r.d) }

  /** The MD5 digest of a message. */
  function Digest(m: seq<Byte>): (s: seq<Byte>) { Output(Fold(Padded(m))) }

  // ---------------------------------------------------------------- streaming

  lemma WordsConcat(a: seq<Byte>, b: seq<Byte>)
    requires |a| % 4 == 0
    ensures Words(a + b) == Words(a) + Words(b)
  {
    hide WordOf;
    var s := a + b;
    assert |s| / 4 == |a| / 4 + |b| / 4;
    forall j | 0 <= j < |s| / 4 ensures Words(s)[j] == (Words(a) + Words(b))[j] {
      if j < |a| / 4 {
        assert s[4 * j] == a[4 * j] && s[4 * j + 1] == a[4 * j + 1] && s[4 * j + 2] == a[4 * j + 2] && s[4 * j + 3] == a[4 * j + 3];
      } else {
        var k := j - |a| / 4;
        assert s[4 * j] == b[4 * k] && s[4 * j + 1] == b[4 * k + 1] && s[4 * j + 2] == b[4 * k + 2] && s[4 * j + 3] == b[4 * k + 3];
      }
    }
  }

  /** One more block at the end. */
  lemma FoldBlock(w: seq<Word>, x: seq<Word>)
    requires |x| == 16
    ensures Fold(w + x) == Block(Fold(w), x)
  {
    hide Block;
    assert (w + x)[..|w|] == w && (w + x)[|w|..] == x;
  }

  /** The bytes of the message in full blocks. */
  function Full(n: nat): nat { n - n % 64 }

  /** The full blocks of m have gone into the registers; the rest is in the input buffer. */
  predicate Absorbed(m: seq<Byte>, r: Regs, input: seq<Byte>) {
    && |input| == 64 && r == Fold(Words(m[..Full(|m|)])) && input[..|m| % 64] == m[Full(|m|)..]
  }

  lemma FullStep(n: nat)
    ensures (n + 1) % 64 != 0 ==> (n + 1) % 64 == n % 64 + 1 && Full(n + 1) == Full(n)
    ensures (n + 1) % 64 == 0 ==> n % 64 == 63 && Full(n + 1) == n + 1
    ensures Full(n) <= n && n - Full(n) == n % 64 && Full(n) % 4 == 0
  {
    var q, r := n / 64, n % 64;
    assert n == 64 * q + r;
    assert Full(n) == 4 * (16 * q);
    if r == 63 {
      assert n + 1 == 64 * (q + 1);
    } else {
      assert n + 1 == 64 * q + (r + 1);
      Rest(q, r + 1);
    }
  }

  lemma Rest(q: nat, r: nat)
    requires r < 64
    ensures (64 * q + r) % 64 == r
  {
  }

  lemma StoreByte(m: seq<Byte>, k: nat, input: seq<Byte>, b: Byte)
    requires k <= |m| && |m| - k < |input| && input[..|m| - k] == m[k..]
    ensures input[|m| - k := b][..|m| - k + 1] == (m + [b])[k..] && (m + [b])[..k] == m[..k]
  {
  }

  lemma AbsorbByte(m: seq<Byte>, r: Regs, input: seq<Byte>, b: Byte)
    requires Absorbed(m, r, input)
    ensures var input' := input[|m| % 64 := b];
      && ((|m| + 1) % 64 != 0 ==> Absorbed(m + [b], r, input'))
      && ((|m| + 1) % 64 == 0 ==> Absorbed(m + [b], Block(r, Words(input')), input'))
  {
    hide Fold, Words, Block, Full;
    FullStep(|m|);
    StoreByte(m, Full(|m|), input, b);
    if (|m| + 1) % 64 == 0 {
      FillBlock(m, r, input, b);
    }
  }

  /** The byte that fills the input buffer. */
  lemma FillBlock(m: seq<Byte>, r: Regs, input: seq<Byte>, b: Byte)
    requires Absorbed(m, r, input) && (|m| + 1) % 64 == 0
    ensures var input' := input[|m| % 64 := b]; Absorbed(m + [b], Block(r, Words(input')), input')
  {
    hide Fold, Words, Block, Full;
    FullStep(|m|);
    var k, m', input' := Full(|m|), m + [b], input[63 := b];
    StoreByte(m, k, input, b);
    assert input'[..64] == input';
    assert m' == m'[..k] + m'[k..];
    WordsConcat(m[..k], input');
    WordsSize(input');
    FoldBlock(Words(m[..k]), Words(input'));
    assert m'[..|m'|] == m' && m'[|m'|..] == [] && input'[..0] == [];
  }

  lemma WordsSize(s: seq<Byte>)
    ensures |Words(s)| == |s| / 4
  {
  }

  lemma AbsorbedParts(p: seq<Byte>, r: Regs, input: seq<Byte>)
    requires Absorbed(p, r, input) && |p| % 64 == 56
    ensures |input| == 64 && p == p[..Full(|p|)] + input[..56] && r == Fold(Words(p[..Full(|p|)])) && Full(|p|) % 4 == 0
  {
    hide Fold, Words;
  }

  /** The last block: 56 bytes and the length. */
  lemma LastBlock(m: seq<Byte>, p: seq<Byte>, r: Regs, input: seq<Byte>, x: seq<Word>)
    requires p == m + Padding(PadLength(|m|)) && Absorbed(p, r, input) && x == Words(input[..56]) + LengthWords(|m|)
    ensures |x| == 16 && Fold(Padded(m)) == Block(r, x)
  {
    hide Fold, Words, Block, LengthWords, Padding, Absorbed, PadLength;
    AbsorbedParts(p, r, input);
    var w, y, l := Words(p[..Full(|p|)]), Words(input[..56]), LengthWords(|m|);
    WordsConcat(p[..Full(|p|)], input[..56]);
    WordsSize(input[..56]);
    FoldBlock(w, x);
    Regroup(w, y, l);
  }

  lemma Regroup(a: seq<Word>, b: seq<Word>, c: seq<Word>)
    ensures (a + b) + c == a + (b + c)
  {
  }

  lemma NothingAbsorbed(input: seq<Byte>)
    requires |input| == 64
    ensures Absorbed([], INIT, input)
  {
    hide WordOf, Block;
    assert |Words([])| == 0;
  }

  lemma Bits(size: nat, n: nat)
    requires size == n % WRAP64
    ensures size * 8 % WRAP64 % WRAP == n * 8 % WRAP && size * 8 % WRAP64 / WRAP == n * 8 / WRAP % WRAP
  {
    var q := n / WRAP64;
    assert n == q * WRAP64 + size;
    var t := size * 8 / WRAP64;
    assert size * 8 == t * WRAP64 + size * 8 % WRAP64;
    var u := size * 8 % WRAP64;
    assert n * 8 == (8 * q + t) * WRAP64 + u;
    High(8 * q + t, u);
  }

  lemma High(v: nat, u: nat)
    requires u < WRAP64
    ensures (v * WRAP64 + u) % WRAP == u % WRAP && (v * WRAP64 + u) / WRAP % WRAP == u / WRAP
  {
    var n := v * WRAP64 + u;
    assert n == (v * WRAP) * WRAP + u;
    var h, l := u / WRAP, u % WRAP;
    assert n == (v * WRAP + h) * WRAP + l;
    assert h < WRAP;
    assert n / WRAP == v * WRAP + h;
  }

  /** The message words of a buffer, as the source assembles them. */
  method Load(input: array<Byte>, n: nat) returns (w: seq<Word>)
    requires 4 * n <= input.Length
    ensures w == Words(input[..4 * n])
  {
    hide WordOf;
    w := [];
    var j := 0;
    while j < n
      invariant 0 <= j <= n && |w| == j
      invariant forall k :: 0 <= k < j ==> w[k] == WordOf(input[4 * k], input[4 * k + 1], input[4 * k + 2], input[4 * k + 3])
    {
      w := w + [WordOf(input[4 * j], input[4 * j + 1], input[4 * j + 2], input[4 * j + 3])];
      j := j + 1;
    }
  }

  /** A number on 64 bits. */
  function On64(n: int): nat { n % WRAP64 }

  lemma SizeFacts(n: nat, k: nat)
    ensures On64(n) % 64 == n % 64 && On64(On64(n) + k) == On64(n + k) && On64(On64(n + k) - k) == On64(n)
  {
    SizeIs(n, k);
    SizeBack(n, k);
  }

  lemma SizeIs(n: nat, k: nat)
    ensures On64(On64(n) + k) == On64(n + k)
  {
  }

  lemma SizeBack(n: nat, k: nat)
    ensures On64(On64(n + k) - k) == On64(n)
  {
  }

  lemma PadIs(n: nat)
    ensures PadLength(n) == if n % 64 < 56 then 56 - n % 64 else (56 + 64) - n % 64
  {
  }

  /** The two last words of the last block. */
  method LengthOf(size: nat, ghost n: nat) returns (w: seq<Word>)
    requires size == On64(n)
    ensures w == LengthWords(n)
  {
    hide ToWord;
    Bits(size, n);
    w := [ToWord(size * 8 % WRAP64 % WRAP), ToWord(size * 8 % WRAP64 / WRAP)];
  }

  /** MD5Context. */
  class Context {
    var size: nat
    var buffer: Regs
    const input: array<Byte>
    var digest: seq<Byte>
    // the bytes of all updates so far
    ghost var message: seq<Byte>

    ghost predicate Valid()
      reads this, input
    {
      input.Length == 64 && size == On64(|message|) && Absorbed(message, buffer, input[..])
    }

    /** md5Init. */
    constructor ()
      ensures Valid() && message == [] && fresh(input)
    {
      hide Absorbed, Fold, Words, Block, Full;
      size, buffer, digest, message := 0, INIT, [], [];
      input := new Byte[64](_ => 0);
      new;
      NothingAbsorbed(input[..]);
    }

    /** One turn of the loop of md5Update. */
    method AddByte(offset0: nat, b: Byte) returns (offset: nat)
      requires input.Length == 64 && Absorbed(message, buffer, input[..]) && offset0 == |message| % 64
      modifies this`buffer, this`message, input
      ensures Absorbed(message, buffer, input[..]) && offset == |message| % 64 && message == old(message) + [b]
    {
      hide Absorbed, Block, Words, Fold;
      AbsorbByte(message, buffer, input[..], b);
      ghost var was := input[..];
      input[offset0] := b;
      assert input[..] == was[offset0 := b];
      message := message + [b];
      offset := offset0 + 1;
      if offset % 64 == 0 {
        var words := Load(input, 16);
        WordsSize(input[..]);
        assert input[..64] == input[..];
        buffer := Step(buffer, words);
        offset := 0;
      }
    }

    /** md5Update: the message is longer by the input. */
    method Update(data: seq<Byte>)
      requires Valid()
      modifies this`size, this`buffer, this`message, input
      ensures Valid() && message == old(message) + data
    {
      hide Absorbed, On64;
      var offset := size % 64;
      ghost var m := message;
      SizeFacts(|m|, |data|);
      size := On64(size + |data|);
      var i := 0;
      while i < |data|
        invariant 0 <= i <= |data| && message == m + data[..i] && size == On64(|m| + |data|)
        invariant Absorbed(message, buffer, input[..]) && offset == |message| % 64
      {
        assert data[..i + 1] == data[..i] + [data[i]];
        offset := AddByte(offset, data[i]);
        i := i + 1;
      }
      assert data[..i] == data;
    }

    /** md5Finalize: the digest of everything that went in, however it was split. */
    method Finalize()
      requires Valid()
      modifies this, input
      ensures digest == Digest(old(message)) && |digest| == 16
    {
      hide Absorbed, On64, Block, Fold, Words, LengthWords, Padded, BytesOf, PadLength, Padding;
      ghost var m := message;
      PadIs(|m|);
      SizeFacts(|m|, PadLength(|m|));
      var offset := size % 64;
      var paddingLength := if offset < 56 then 56 - offset else (56 + 64) - offset;
      Update(Padding(paddingLength));
      size := On64(size - paddingLength);
      var words := Load(input, 14);
      assert input[..][..56] == input[..56];
      LastBlock(m, message, buffer, input[..], Words(input[..56]) + LengthWords(|m|));
      var length := LengthOf(size, |m|);
      buffer := Step(buffer, words + length);
      digest := BytesOf(buffer.a) + BytesOf(buffer.b) + BytesOf(buffer.c) + BytesOf(buffer.d);
    }
  }

  /** Splitting a message over updates does not change its digest. */
  method DigestOf(parts: seq<seq<Byte>>) returns (d: seq<Byte>)
    ensures d == Digest(Joined(parts))
  {
    hide Absorbed, Digest;
    var ctx := new Context();
    var i := 0;
    assert parts[..0] == [];
    while i < |parts|
      invariant 0 <= i <= |parts| && ctx.Valid() && fresh(ctx) && fresh(ctx.input) && ctx.message == Joined(parts[..i])
    {
      assert parts[..i + 1][..i] == parts[..i];
      ctx.Update(parts[i]);
      i := i + 1;
    }
    assert parts[..i] == parts;
    ctx.Finalize();
    d := ctx.digest;
  }

  function Joined(parts: seq<seq<Byte>>): (m: seq<Byte>) {
    if parts == [] then [] else Joined(parts[..|parts| - 1]) + parts[|parts| - 1]
  }
}
