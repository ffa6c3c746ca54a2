/** The wire format of GDB packets: what the encoder writes and how GDB reads it
    (GDB Remote Serial Protocol, section E.1 "Overview"). */
module PacketText {
  import opened Words

  const DOLLAR: Byte := 0x24
  const HASH: Byte := 0x23
  const STAR: Byte := 0x2a
  const BRACE: Byte := 0x7d
  const PLUS: Byte := 0x2b
  const MINUS: Byte := 0x2d
  const CTRL_C: Byte := 0x03
  const BRACKET: Byte := 0x5d

  type Bytes = seq<Byte>

  predicate IsEscape(c: Byte) {
    c == STAR || c == DOLLAR || c == BRACE || c == HASH
  }

  /** `c ^ 0x20`. */
  function Flip(c: Byte): Byte {
    if (c / 32) % 2 == 1 then c - 32 else c + 32
  }

  function Rep(c: Byte, n: nat): (r: Bytes)
    ensures |r| == n
  {
    seq(n, _ => c)
  }

  /** `algo::get_checksum`: the byte sum modulo 256. */
  function Checksum(body: Bytes): Byte {
    if body == [] then 0 else (Checksum(body[..|body| - 1]) + body[|body| - 1]) % 256
  }

  function HexDigit(n: nat): Byte
    requires n < 16
  {
    if n < 10 then 0x30 + n else 0x61 + (n - 10)
  }

  /** Value of a hexadecimal digit of either case. */
  function HexValue(c: Byte): Option<nat> {
    if 0x30 <= c <= 0x39 then Some(c - 0x30)
    else if 0x61 <= c <= 0x66 then Some(c - 0x61 + 10)
    else if 0x41 <= c <= 0x46 then Some(c - 0x41 + 10)
    else None
  }

  function Frame(body: Bytes): Bytes {
    [DOLLAR] + body + [HASH, HexDigit(Checksum(body) / 16), HexDigit(Checksum(body) % 16)]
  }

  /** No byte that would end or restart the packet. */
  predicate NoRaw(body: Bytes) {
    DOLLAR !in body && HASH !in body
  }

  /* ---- Maximal runs ---- */

  /** `n` equal characters in a row, at most 98: one leading character and 97 repeats. */
  datatype Token = Token(c: Byte, n: nat)

  const MAX_RUN := 98

  function Extend(ts: seq<Token>, c: Byte): seq<Token> {
    if c == 0 then ts
    else if ts != [] && ts[|ts| - 1].c == c && ts[|ts| - 1].n < MAX_RUN then
      ts[..|ts| - 1] + [Token(c, ts[|ts| - 1].n + 1)]
    else ts + [Token(c, 1)]
  }

  function Tokens(s: Bytes): seq<Token> {
    if s == [] then [] else Extend(Tokens(s[..|s| - 1]), s[|s| - 1])
  }

  function StripNul(s: Bytes): Bytes {
    if s == [] then []
    else StripNul(s[..|s| - 1]) + (if s[|s| - 1] == 0 then [] else [s[|s| - 1]])
  }

  /** The characters of the runs. */
  function Chars(ts: seq<Token>): Bytes {
    if ts == [] then [] else Rep(ts[0].c, ts[0].n) + Chars(ts[1..])
  }

  predicate ValidTokens(ts: seq<Token>) {
    && (forall i :: 0 <= i < |ts| ==> 1 <= ts[i].n <= MAX_RUN && ts[i].c != 0)
    && (forall i :: 0 <= i < |ts| - 1 && ts[i].n < MAX_RUN ==> ts[i].c != ts[i + 1].c)
  }

  lemma {:induction false} CharsConcat(a: seq<Token>, b: seq<Token>)
    ensures Chars(a + b) == Chars(a) + Chars(b)
  {
    if a == [] {
      assert a + b == b;
    } else {
      assert (a + b)[1..] == a[1..] + b;
      CharsConcat(a[1..], b);
    }
  }

  lemma {:induction false} TokensOfString(s: Bytes)
    ensures ValidTokens(Tokens(s)) && Chars(Tokens(s)) == StripNul(s)
  {
    if s != [] {
      var front, c := s[..|s| - 1], s[|s| - 1];
      TokensOfString(front);
      ExtendValid(Tokens(front), c);
      ExtendChars(Tokens(front), c);
    }
  }

  lemma {:induction false} ExtendValid(ts: seq<Token>, c: Byte)
    requires ValidTokens(ts)
    ensures ValidTokens(Extend(ts, c))
  {
  }

  lemma {:induction false} ExtendChars(ts: seq<Token>, c: Byte)
    ensures Chars(Extend(ts, c)) == Chars(ts) + if c == 0 then [] else [c]
  {
    if c == 0 {
      assert Chars(ts) + [] == Chars(ts);
    } else if ts != [] && ts[|ts| - 1].c == c && ts[|ts| - 1].n < MAX_RUN {
      CharsOfLonger(ts[..|ts| - 1], c, ts[|ts| - 1].n);
      assert ts == ts[..|ts| - 1] + [ts[|ts| - 1]];
    } else {
      CharsConcat(ts, [Token(c, 1)]);
      assert Chars([Token(c, 1)]) == [c];
    }
  }

  lemma {:induction false} CharsOfLonger(front: seq<Token>, c: Byte, n: nat)
    ensures Chars(front + [Token(c, n + 1)]) == Chars(front + [Token(c, n)]) + [c]
  {
    CharsConcat(front, [Token(c, n)]);
    CharsConcat(front, [Token(c, n + 1)]);
    assert Chars([Token(c, n + 1)]) == Chars([Token(c, n)]) + [c];
  }

  /* ---- Encoder output ---- */

  function Lead(c: Byte): Bytes {
    if IsEscape(c) then [BRACE, Flip(c)] else [c]
  }

  /** What `push_repeat` writes for `n` further copies of `c`. */
  function RepeatText(c: Byte, n: nat): Bytes
    requires n < MAX_RUN
  {
    if n <= 2 then Rep(c, n)
    else if n == 6 then [STAR, 0x22, c]
    else if n == 7 then [STAR, 0x22, c, c]
    else [STAR, n + 29]
  }

  function TokenText(t: Token): Bytes
    requires 1 <= t.n <= MAX_RUN
  {
    Lead(t.c) + RepeatText(t.c, t.n - 1)
  }

  function Text(ts: seq<Token>): Bytes
    requires forall i :: 0 <= i < |ts| ==> 1 <= ts[i].n <= MAX_RUN
  {
    if ts == [] then [] else TokenText(ts[0]) + Text(ts[1..])
  }

  lemma {:induction false} TextSnoc(ts: seq<Token>, t: Token)
    requires forall i :: 0 <= i < |ts| ==> 1 <= ts[i].n <= MAX_RUN
    requires 1 <= t.n <= MAX_RUN
    ensures Text(ts + [t]) == Text(ts) + TokenText(t)
  {
    if ts == [] {
      assert [t][1..] == [];
    } else {
      assert (ts + [t])[1..] == ts[1..] + [t];
      TextSnoc(ts[1..], t);
    }
  }

  /** The packet body and the packet that `Packet_encoder::encode` produces. */
  function Body(s: Bytes): Bytes {
    TokensOfString(s);
    Text(Tokens(s))
  }

  function Encoded(s: Bytes): Bytes {
    Frame(Body(s))
  }

  /* ---- The receiving side ---- */

  /** Count characters are printable and are neither of the packet delimiters. */
  predicate IsCount(d: Byte) {
    32 <= d <= 126 && d != HASH && d != DOLLAR
  }

  function Prepend(a: Bytes, r: Option<Bytes>): Option<Bytes> {
    match r
    case None => None
    case Some(b) => Some(a + b)
  }

  /** Run-length expansion: `*d` repeats the preceding character `d - 29` more times. */
  function Expand(prev: Option<Byte>, b: Bytes): Option<Bytes>
    decreases |b|
  {
    if b == [] then Some([])
    else if b[0] == STAR then
      if |b| < 2 || prev.None? || !IsCount(b[1]) then None
      else Prepend(Rep(prev.value, b[1] - 29), Expand(prev, b[2..]))
    else Prepend([b[0]], Expand(Some(b[0]), b[1..]))
  }

  /** `algo::remove_escape`. */
  function Unescape(b: Bytes): Option<Bytes>
    decreases |b|
  {
    if b == [] then Some([])
    else if b[0] == BRACE then
      if |b| < 2 || b[1] == BRACE then None
      else Prepend([Flip(b[1])], Unescape(b[2..]))
    else Prepend([b[0]], Unescape(b[1..]))
  }

  function ExpandAndUnescape(b: Bytes): Option<Bytes> {
    match Expand(None, b)
    case None => None
    case Some(x) => Unescape(x)
  }

  /** A receiver that follows the protocol: framing, checksum, run lengths, escapes. */
  function Receive(packet: Bytes): Option<Bytes> {
    if |packet| < 4 || packet[0] != DOLLAR || packet[|packet| - 3] != HASH then None
    else
      var body := packet[1..|packet| - 3];
      var hi, lo := HexValue(packet[|packet| - 2]), HexValue(packet[|packet| - 1]);
      if !NoRaw(body) || hi.None? || lo.None? || 16 * hi.value + lo.value != Checksum(body) then None
      else ExpandAndUnescape(body)
  }

  /** Escaping without run lengths, as GDB itself sends packets. */
  function Escape(s: Bytes): Bytes {
    if s == [] then [] else Lead(s[0]) + Escape(s[1..])
  }

  /* ---- The checksum and the digits of section E.1 ---- */

  /** The sum of all bytes. */
  function Sum(b: Bytes): nat {
    if b == [] then 0 else b[0] + Sum(b[1..])
  }

  lemma {:induction false} SumSnoc(b: Bytes, c: Byte)
    ensures Sum(b + [c]) == Sum(b) + c
  {
    if b == [] {
      assert [c][1..] == [];
    } else {
      assert (b + [c])[1..] == b[1..] + [c];
      SumSnoc(b[1..], c);
    }
  }

  /** The fold computes the sum modulo 256. */
  lemma {:induction false} ChecksumIsSum(b: Bytes)
    ensures Checksum(b) == Sum(b) % 256
  {
    if b != [] {
      var front := b[..|b| - 1];
      assert b == front + [b[|b| - 1]];
      ChecksumIsSum(front);
      SumSnoc(front, b[|b| - 1]);
    }
  }

  /** The characters 0123456789abcdef and 0123456789ABCDEF. */
  const LOWER: Bytes := [0x30, 0x31, 0x32, 0x33, 0x34, 0x35, 0x36, 0x37, 0x38, 0x39,
                         0x61, 0x62, 0x63, 0x64, 0x65, 0x66]
  const UPPER: Bytes := [0x30, 0x31, 0x32, 0x33, 0x34, 0x35, 0x36, 0x37, 0x38, 0x39,
                         0x41, 0x42, 0x43, 0x44, 0x45, 0x46]

  predicate IsDigit(c: Byte, k: nat) {
    k < 16 && (c == LOWER[k] || c == UPPER[k])
  }

  lemma {:induction false} DigitsAreTable(n: nat)
    requires n < 16
    ensures HexDigit(n) == LOWER[n]
  {
  }

  lemma {:induction false} ValuesAreTable(c: Byte, k: nat)
    ensures HexValue(c) == Some(k) <==> IsDigit(c, k)
  {
    if HexValue(c).Some? {
      var v := HexValue(c).value;
      assert v == 0 || v == 1 || v == 2 || v == 3 || v == 4 || v == 5 || v == 6 || v == 7
             || v == 8 || v == 9 || v == 10 || v == 11 || v == 12 || v == 13 || v == 14 || v == 15;
    }
  }

  /** A packet is `$`, the body, `#`, and the sum of the body modulo 256 as two lower-case digits, the high one
      first. */
  lemma {:induction false} PacketLayout(s: Bytes)
    ensures var sum := Sum(Body(s)) % 256;
            Encoded(s) == [0x24] + Body(s) + [0x23, LOWER[sum / 16], LOWER[sum % 16]]
  {
    hide LOWER, HexDigit, Body;
    var sum := Sum(Body(s)) % 256;
    ChecksumIsSum(Body(s));
    DigitsAreTable(sum / 16);
    DigitsAreTable(sum % 16);
  }

  lemma {:induction false} XorZero(n: nat, x: nat)
    requires x < Pow2(n)
    ensures Bitwise(n, Xor, x, 0) == x
  {
    if n != 0 {
      XorZero(n - 1, x / 2);
    }
  }

  lemma {:induction false} XorEven(n: nat, x: nat, m: nat)
    ensures Bitwise(n + 1, Xor, x, 2 * m) == 2 * Bitwise(n, Xor, x / 2, m) + x % 2
  {
  }

  lemma {:induction false} XorOne(n: nat, x: nat)
    requires x / 2 < Pow2(n)
    ensures Bitwise(n + 1, Xor, x, 1) == 2 * (x / 2) + (1 - x % 2)
  {
    XorZero(n, x / 2);
  }

  /** `Flip` is exclusive or with 0x20, bit by bit. */
  lemma {:induction false} FlipMeaning(c: Byte)
    ensures Flip(c) == BitXor(c, 0x20)
  {
    assert Pow2(26) > 4 by {
      Pow2Split(3, 23);
      assert Pow2(3) == 8;
      Pow2Positive(23);
    }
    hide Bitwise, Pow2;
    var c1 := c / 2;
    var c2 := c1 / 2;
    var c3 := c2 / 2;
    var c4 := c3 / 2;
    XorEven(31, c, 16);
    XorEven(30, c1, 8);
    XorEven(29, c2, 4);
    XorEven(28, c3, 2);
    XorEven(27, c4, 1);
    XorOne(26, c4 / 2);
    assert c4 / 2 == c / 32;
  }

  lemma {:induction false} Pow2Positive(n: nat)
    ensures 8 * Pow2(n) >= 8
  {
  }

  /** A run of `n` equal characters is one token up to 98, of which the encoder repeats 97. */
  lemma {:induction false} RunIsToken(c: Byte, n: nat)
    requires c != 0 && 1 <= n <= 98
    ensures Tokens(Rep(c, n)) == [Token(c, n)]
  {
    var s := Rep(c, n);
    if n == 1 {
      assert s[..0] == [];
    } else {
      assert s[..n - 1] == Rep(c, n - 1);
      RunIsToken(c, n - 1);
    }
  }

  lemma {:induction false} TwoLetters(a: Byte, b: Byte)
    requires !IsEscape(a) && !IsEscape(b) && a != 0 && b != 0 && a != b
    ensures Body([a, b]) == [a, b] && Sum([a, b]) == a + b
  {
    var s: Bytes := [a, b];
    assert s[..1] == [a] && s[..1][..0] == [] && s[1..] == [b] && s[1..][1..] == [];
    assert Tokens([a]) == [Token(a, 1)];
    var ts := [Token(a, 1), Token(b, 1)];
    assert Tokens(s) == ts;
    assert ts[1..] == [Token(b, 1)] && ts[1..][1..] == [];
    assert Text([Token(b, 1)]) == [b];
    assert Sum([b]) == b;
  }

  lemma {:induction false} FourEqual(c: Byte)
    requires !IsEscape(c) && c != 0
    ensures Body(Rep(c, 4)) == [c, 0x2a, 0x20] && Sum([c, 0x2a, 0x20]) == c + 0x4a
  {
    RunIsToken(c, 4);
    var ts := [Token(c, 4)];
    assert ts[1..] == [] && Text(ts) == TokenText(ts[0]) + [];
    assert TokenText(ts[0]) == [c] + [0x2a, 0x20];
    var b: Bytes := [c, 0x2a, 0x20];
    assert b[1..] == [0x2a, 0x20] && b[1..][1..] == [0x20] && b[1..][1..][1..] == [];
    assert Sum([0x20]) == 0x20;
    assert Sum([0x2a, 0x20]) == 0x4a;
  }

  /** The packets for two different letters, for four equal ones, and what 98 and 99 equal letters and a brace
      are written as. With O and K the first is `$OK#9a`. */
  lemma {:induction false} Samples(a: Byte, b: Byte)
    requires !IsEscape(a) && !IsEscape(b) && a != 0 && b != 0 && a != b
    ensures Encoded([a, b]) == [0x24, a, b, 0x23, LOWER[(a + b) % 256 / 16], LOWER[(a + b) % 256 % 16]]
    ensures Encoded(Rep(a, 4))
         == [0x24, a, 0x2a, 0x20, 0x23, LOWER[(a + 0x4a) % 256 / 16], LOWER[(a + 0x4a) % 256 % 16]]
    ensures Body(Rep(0x61, 98)) == [0x61, 0x2a, 0x7e] && Body(Rep(0x61, 99)) == [0x61, 0x2a, 0x7e, 0x61]
    ensures Body([0x7d]) == [0x7d, 0x5d]
  {
    hide *;
    TwoLetters(a, b);
    FourEqual(a);
    PacketLayout([a, b]);
    PacketLayout(Rep(a, 4));
    SampleLong();
    SampleBrace();
  }

  lemma {:induction false} SampleLong()
    ensures Body(Rep(0x61, 98)) == [0x61, 0x2a, 0x7e] && Body(Rep(0x61, 99)) == [0x61, 0x2a, 0x7e, 0x61]
  {
    RunIsToken(0x61, 98);
    assert Tokens(Rep(0x61, 98))[1..] == [];
    assert Rep(0x61, 99)[..98] == Rep(0x61, 98);
    var ts := Tokens(Rep(0x61, 99));
    assert ts == [Token(0x61, 98), Token(0x61, 1)];
    assert ts[1..] == [Token(0x61, 1)] && ts[1..][1..] == [];
    assert Text([Token(0x61, 1)]) == [0x61];
  }

  lemma {:induction false} SampleBrace()
    ensures Body([0x7d]) == [0x7d, 0x5d]
  {
    assert [0x7d][..0] == [];
    assert Tokens([0x7d]) == [Token(0x7d, 1)];
    assert [Token(0x7d, 1)][1..] == [];
  }
}
