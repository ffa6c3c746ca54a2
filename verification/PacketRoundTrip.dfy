/** When does a protocol-following receiver get back the string that was encoded? */
module PacketRoundTrip {
  import opened Words
  import opened PacketText

  /** No escaped character (`*`, `$`, `}`, `#`) is directly followed by itself. */
  predicate NoAdjacentEscapes(s: Bytes) {
    forall i :: 0 <= i < |s| - 1 && IsEscape(s[i]) ==> s[i] != s[i + 1]
  }

  predicate SingleEscapes(ts: seq<Token>) {
    forall i :: 0 <= i < |ts| && IsEscape(ts[i].c) ==> ts[i].n == 1
  }

  lemma {:induction false} SingleEscapesChars(ts: seq<Token>)
    requires ValidTokens(ts)
    ensures SingleEscapes(ts) <==> NoAdjacentEscapes(Chars(ts))
  {
    if ts != [] {
      var t, rest := ts[0], ts[1..];
      SingleEscapesChars(rest);
      assert ts == [t] + rest;
      var a, b := Rep(t.c, t.n), Chars(rest);
      assert rest != [] ==> b[0] == rest[0].c && rest[0] == ts[1];
      AdjacentSplit(a, b);
      if t.n > 1 && IsEscape(t.c) {
        assert a[0] == a[1];
        assert Chars(ts)[0] == Chars(ts)[1];
      } else if IsEscape(t.c) {
        assert a == [t.c];
      }
    }
  }

  lemma {:induction false} AdjacentSplit(a: Bytes, b: Bytes)
    ensures NoAdjacentEscapes(a + b)
       <==> NoAdjacentEscapes(a) && NoAdjacentEscapes(b)
            && (a != [] && b != [] && IsEscape(a[|a| - 1]) ==> a[|a| - 1] != b[0])
  {
    var s := a + b;
    if NoAdjacentEscapes(s) {
      forall i | 0 <= i < |a| - 1 && IsEscape(a[i])
        ensures a[i] != a[i + 1]
      {
        assert s[i] == a[i] && s[i + 1] == a[i + 1];
      }
      forall i | 0 <= i < |b| - 1 && IsEscape(b[i])
        ensures b[i] != b[i + 1]
      {
        assert s[|a| + i] == b[i] && s[|a| + i + 1] == b[i + 1];
      }
      if a != [] && b != [] {
        assert s[|a| - 1] == a[|a| - 1] && s[|a|] == b[0];
      }
    }
  }

  /* ---- Unfolding the receiver over concatenations ---- */

  lemma {:induction false} ExpandRaw(prev: Option<Byte>, c: Byte, rest: Bytes)
    requires c != STAR
    ensures Expand(prev, [c] + rest) == Prepend([c], Expand(Some(c), rest))
  {
    assert ([c] + rest)[1..] == rest;
  }

  lemma {:induction false} ExpandRun(c: Byte, d: Byte, rest: Bytes)
    requires IsCount(d)
    ensures Expand(Some(c), [STAR, d] + rest) == Prepend(Rep(c, d - 29), Expand(Some(c), rest))
  {
    assert ([STAR, d] + rest)[2..] == rest;
  }

  /** The preceding character matters only to a leading `*`. */
  lemma {:induction false} ExpandFresh(p: Option<Byte>, q: Option<Byte>, b: Bytes)
    requires b != [] ==> b[0] != STAR
    ensures Expand(p, b) == Expand(q, b)
  {
  }

  lemma {:induction false} PrependTwice(a: Bytes, b: Bytes, r: Option<Bytes>)
    ensures Prepend(a, Prepend(b, r)) == Prepend(a + b, r)
  {
    if r.Some? {
      assert a + (b + r.value) == (a + b) + r.value;
    }
  }

  lemma {:induction false} UnescapePlain(c: Byte, b: Bytes)
    requires c != BRACE
    ensures Unescape([c] + b) == Prepend([c], Unescape(b))
  {
    assert ([c] + b)[1..] == b;
  }

  lemma {:induction false} UnescapePair(e: Byte, b: Bytes)
    requires e != BRACE
    ensures Unescape([BRACE, e] + b) == Prepend([Flip(e)], Unescape(b))
  {
    assert ([BRACE, e] + b)[2..] == b;
  }

  lemma {:induction false} UnescapeRep(c: Byte, n: nat, b: Bytes)
    requires c != BRACE
    ensures Unescape(Rep(c, n) + b) == Prepend(Rep(c, n), Unescape(b))
  {
    if n == 0 {
      assert Rep(c, n) + b == b;
      PrependNothing(Rep(c, 0), Unescape(b));
    } else {
      assert Rep(c, n) + b == [c] + (Rep(c, n - 1) + b);
      UnescapePlain(c, Rep(c, n - 1) + b);
      UnescapeRep(c, n - 1, b);
      PrependTwice([c], Rep(c, n - 1), Unescape(b));
      assert [c] + Rep(c, n - 1) == Rep(c, n);
    }
  }

  lemma {:induction false} PrependNothing(a: Bytes, r: Option<Bytes>)
    requires a == []
    ensures Prepend(a, r) == r
  {
    if r.Some? {
      assert a + r.value == r.value;
    }
  }

  /* ---- One well-encoded run ---- */

  lemma {:induction false} ExpandCopies(c: Byte, n: nat, rest: Bytes)
    requires c != STAR
    ensures Expand(Some(c), Rep(c, n) + rest) == Prepend(Rep(c, n), Expand(Some(c), rest))
  {
    if n == 0 {
      assert Rep(c, n) + rest == rest;
      PrependNothing(Rep(c, 0), Expand(Some(c), rest));
    } else {
      RepSplit(c, n, rest);
      ExpandRaw(Some(c), c, Rep(c, n - 1) + rest);
      ExpandCopies(c, n - 1, rest);
      PrependTwice([c], Rep(c, n - 1), Expand(Some(c), rest));
      assert [c] + Rep(c, n - 1) == Rep(c, n);
    }
  }

  /** `n` further copies of a plain character are read back as such. */
  lemma {:induction false} ExpandRepeat(c: Byte, n: nat, rest: Bytes)
    requires !IsEscape(c) && n < MAX_RUN
    ensures Expand(Some(c), RepeatText(c, n) + rest) == Prepend(Rep(c, n), Expand(Some(c), rest))
  {
    var copies := if n <= 2 then n else if n == 6 || n == 7 then n - 5 else 0;
    ExpandCopies(c, copies, rest);
    if n > 2 {
      var d: Byte := n - copies + 29;
      assert RepeatText(c, n) == [STAR, d] + Rep(c, copies);
      Associate([STAR, d], Rep(c, copies), rest);
      ExpandRun(c, d, Rep(c, copies) + rest);
      PrependTwice(Rep(c, n - copies), Rep(c, copies), Expand(Some(c), rest));
      assert Rep(c, n - copies) + Rep(c, copies) == Rep(c, n);
    }
  }

  predicate StartsPlain(b: Bytes) {
    b != [] ==> b[0] != STAR
  }

  lemma {:induction false} ExpandToken(t: Token, rest: Bytes)
    requires !IsEscape(t.c) && 1 <= t.n <= MAX_RUN && StartsPlain(rest)
    ensures Expand(None, TokenText(t) + rest) == Prepend(Rep(t.c, t.n), Expand(None, rest))
  {
    var tail := RepeatText(t.c, t.n - 1) + rest;
    assert TokenText(t) + rest == [t.c] + tail;
    ExpandRaw(None, t.c, tail);
    ExpandRepeat(t.c, t.n - 1, rest);
    ExpandFresh(Some(t.c), None, rest);
    PrependTwice([t.c], Rep(t.c, t.n - 1), Expand(None, rest));
    assert [t.c] + Rep(t.c, t.n - 1) == Rep(t.c, t.n);
  }

  lemma {:induction false} DecodePlain(t: Token, rest: Bytes)
    requires !IsEscape(t.c) && 1 <= t.n <= MAX_RUN && StartsPlain(rest)
    ensures ExpandAndUnescape(TokenText(t) + rest) == Prepend(Rep(t.c, t.n), ExpandAndUnescape(rest))
  {
    ExpandToken(t, rest);
    if Expand(None, rest).Some? {
      UnescapeRep(t.c, t.n, Expand(None, rest).value);
    }
  }

  lemma {:induction false} ExpandPair(c: Byte, rest: Bytes)
    requires IsEscape(c)
    ensures Expand(None, Lead(c) + rest) == Prepend(Lead(c), Expand(Some(Flip(c)), rest))
  {
    assert Lead(c) + rest == [BRACE] + ([Flip(c)] + rest);
    ExpandRaw(None, BRACE, [Flip(c)] + rest);
    ExpandRaw(Some(BRACE), Flip(c), rest);
    PrependTwice([BRACE], [Flip(c)], Expand(Some(Flip(c)), rest));
    assert [BRACE] + [Flip(c)] == Lead(c);
  }

  lemma {:induction false} DecodeEscape(c: Byte, rest: Bytes)
    requires IsEscape(c) && StartsPlain(rest)
    ensures ExpandAndUnescape(TokenText(Token(c, 1)) + rest) == Prepend([c], ExpandAndUnescape(rest))
  {
    assert TokenText(Token(c, 1)) == Lead(c);
    ExpandPair(c, rest);
    ExpandFresh(Some(Flip(c)), None, rest);
    if Expand(None, rest).Some? {
      UnescapePair(Flip(c), Expand(None, rest).value);
    }
  }

  lemma {:induction false} TextStart(ts: seq<Token>)
    requires ValidTokens(ts)
    ensures StartsPlain(Text(ts))
    ensures ts != [] ==> Text(ts) != [] && Text(ts)[0] == Lead(ts[0].c)[0]
    ensures ts == [] ==> Text(ts) == []
  {
  }

  lemma {:induction false} TailValid(ts: seq<Token>)
    requires ValidTokens(ts) && ts != []
    ensures ValidTokens(ts[1..])
    ensures SingleEscapes(ts) <==> SingleEscapes(ts[1..]) && (IsEscape(ts[0].c) ==> ts[0].n == 1)
    ensures |ts| > 1 ==> ts[1..][0] == ts[1]
  {
    var rest := ts[1..];
    forall i | 0 <= i < |rest|
      ensures rest[i] == ts[i + 1]
    {
    }
    if SingleEscapes(rest) && (IsEscape(ts[0].c) ==> ts[0].n == 1) {
      forall i | 0 <= i < |ts| && IsEscape(ts[i].c)
        ensures ts[i].n == 1
      {
        assert i > 0 ==> ts[i] == rest[i - 1];
      }
    }
  }

  predicate ReadsBack(ts: seq<Token>)
    requires ValidTokens(ts)
  {
    NoRaw(Text(ts)) && ExpandAndUnescape(Text(ts)) == Some(Chars(ts))
  }

  /* ---- Repeated escapes are never read back ---- */

  /** A repeat of an escaped character is written after the *flipped* character, so a following `*`
      repeats that one. */
  lemma {:induction false} RepeatsFlipped(c: Byte, tail: Bytes)
    requires IsEscape(c)
    ensures var r := ExpandAndUnescape(Lead(c) + ([STAR] + tail));
            r.Some? ==> |r.value| >= 2 && r.value[1] == Flip(c)
  {
    ExpandPair(c, [STAR] + tail);
    var e := Flip(c);
    if tail != [] && IsCount(tail[0]) {
      assert [STAR] + tail == [STAR, tail[0]] + tail[1..];
      ExpandRun(e, tail[0], tail[1..]);
      var more := Expand(Some(e), tail[1..]);
      if more.Some? {
        var k := tail[0] - 29;
        UnescapePair(e, Rep(e, k) + more.value);
        UnescapeRep(e, k, more.value);
      }
    }
  }

  lemma {:induction false} TextSplit(ts: seq<Token>)
    requires ValidTokens(ts) && ts != []
    ensures Text(ts) == Lead(ts[0].c) + (RepeatText(ts[0].c, ts[0].n - 1) + Text(ts[1..]))
  {
    Associate(Lead(ts[0].c), RepeatText(ts[0].c, ts[0].n - 1), Text(ts[1..]));
  }

  lemma {:induction false} Associate(a: Bytes, b: Bytes, c: Bytes)
    ensures (a + b) + c == a + (b + c)
  {
  }

  lemma {:induction false} PairDecoded(c: Byte, tail: Bytes)
    requires IsEscape(c)
    ensures var r := ExpandAndUnescape(Lead(c) + tail); r.Some? ==> r.value != [] && r.value[0] == c
  {
    ExpandPair(c, tail);
    if Expand(Some(Flip(c)), tail).Some? {
      UnescapePair(Flip(c), Expand(Some(Flip(c)), tail).value);
    }
  }

  lemma {:induction false} PlainDecoded(t: Token, rest: Bytes)
    requires !IsEscape(t.c) && 1 <= t.n <= MAX_RUN && StartsPlain(rest)
    ensures var r := ExpandAndUnescape(TokenText(t) + rest); r.Some? ==> r.value != [] && r.value[0] == t.c
  {
    DecodePlain(t, rest);
  }

  lemma {:induction false} FirstDecoded(ts: seq<Token>)
    requires ValidTokens(ts) && ts != []
    ensures var r := ExpandAndUnescape(Text(ts)); r.Some? ==> r.value != [] && r.value[0] == ts[0].c
  {
    var t, rest := ts[0], ts[1..];
    if IsEscape(t.c) {
      TextSplit(ts);
      PairDecoded(t.c, RepeatText(t.c, t.n - 1) + Text(rest));
    } else {
      TailValid(ts);
      TextStart(rest);
      PlainDecoded(t, Text(rest));
    }
  }

  /** A missing character `]` is never made up for later in the packet. */
  lemma {:induction false} NoExtraBracket(ts: seq<Token>)
    requires ValidTokens(ts)
    ensures ExpandAndUnescape(Text(ts)) != Some([BRACKET] + Chars(ts))
  {
    if ts != [] {
      FirstDecoded(ts);
      var t, rest := ts[0], ts[1..];
      if t.c == BRACKET {
        TailValid(ts);
        TextStart(rest);
        DecodePlain(t, Text(rest));
        NoExtraBracket(rest);
        if ExpandAndUnescape(Text(ts)) == Some([BRACKET] + Chars(ts)) {
          CancelRun(BRACKET, t.n, ExpandAndUnescape(Text(rest)).value, Chars(rest));
        }
      }
    }
  }

  lemma {:induction false} CancelRun(c: Byte, n: nat, x: Bytes, y: Bytes)
    requires Rep(c, n) + x == [c] + (Rep(c, n) + y)
    ensures x == [c] + y
  {
    assert [c] + (Rep(c, n) + y) == Rep(c, n) + ([c] + y);
    assert x == (Rep(c, n) + x)[n..];
    assert [c] + y == (Rep(c, n) + ([c] + y))[n..];
  }

  /** `}}` is written `}]}`: the raw brace then takes the next character of the packet with it. */
  lemma {:induction false} DoubledBrace(ts: seq<Token>)
    requires ValidTokens(ts) && ts != [] && ts[0] == Token(BRACE, 2)
    ensures ExpandAndUnescape(Text(ts)) != Some(Chars(ts))
  {
    var rest := ts[1..];
    TailValid(ts);
    TextStart(rest);
    TextSplit(ts);
    assert RepeatText(BRACE, 1) == [BRACE];
    BraceThen(Text(rest));
    assert Chars(ts) == [BRACE] + ([BRACE] + Chars(rest)) by {
      assert Rep(BRACE, 2) == [BRACE] + [BRACE];
      Associate([BRACE], [BRACE], Chars(rest));
    }
    var x := Expand(None, Text(rest));
    if x.Some? {
      NotSwallowed(rest, x.value);
      PrependCancels([BRACE], Unescape([BRACE] + x.value), [BRACE] + Chars(rest));
    }
  }

  lemma {:induction false} BraceThen(rest: Bytes)
    requires StartsPlain(rest)
    ensures ExpandAndUnescape(Lead(BRACE) + ([BRACE] + rest))
         == match Expand(None, rest)
            case None => None
            case Some(x) => Prepend([BRACE], Unescape([BRACE] + x))
  {
    ExpandPair(BRACE, [BRACE] + rest);
    ExpandRaw(Some(BRACKET), BRACE, rest);
    ExpandFresh(Some(BRACE), None, rest);
    var x := Expand(None, rest);
    if x.Some? {
      UnescapePair(BRACKET, [BRACE] + x.value);
    }
  }

  lemma {:induction false} NotSwallowed(rest: seq<Token>, x: Bytes)
    requires ValidTokens(rest) && Expand(None, Text(rest)) == Some(x)
    ensures Unescape([BRACE] + x) != Some([BRACE] + Chars(rest))
  {
    if rest == [] {
      assert x == [];
    } else if IsEscape(rest[0].c) {
      TextSplit(rest);
      ExpandPair(rest[0].c, RepeatText(rest[0].c, rest[0].n - 1) + Text(rest[1..]));
      assert x[0] == BRACE;
    } else {
      SwallowedCharacter(rest, x);
    }
  }

  lemma {:induction false} SwallowedCharacter(rest: seq<Token>, x: Bytes)
    requires ValidTokens(rest) && rest != [] && !IsEscape(rest[0].c)
    requires Expand(None, Text(rest)) == Some(x)
    ensures Unescape([BRACE] + x) != Some([BRACE] + Chars(rest))
  {
    var t, more := rest[0], rest[1..];
    TailValid(rest);
    TextStart(more);
    ExpandToken(t, Text(more));
    NoExtraBracket(more);
    Swallowed(t, Expand(None, Text(more)).value, Chars(more));
  }

  lemma {:induction false} Swallowed(t: Token, z: Bytes, v: Bytes)
    requires t.n >= 1 && !IsEscape(t.c) && Unescape(z) != Some([BRACKET] + v)
    ensures Unescape([BRACE] + (Rep(t.c, t.n) + z)) != Some([BRACE] + (Rep(t.c, t.n) + v))
  {
    UnescapeSwallowed(t.c, t.n, z);
    NotMadeUpFor(t.c, t.n, Unescape(z), v);
  }

  lemma {:induction false} UnescapeSwallowed(c: Byte, n: nat, z: Bytes)
    requires n >= 1 && c != BRACE
    ensures Unescape([BRACE] + (Rep(c, n) + z)) == Prepend([Flip(c)], Prepend(Rep(c, n - 1), Unescape(z)))
  {
    RepSplit(c, n, z);
    Associate([BRACE], [c], Rep(c, n - 1) + z);
    assert [BRACE] + [c] == [BRACE, c];
    UnescapePair(c, Rep(c, n - 1) + z);
    UnescapeRep(c, n - 1, z);
  }

  lemma {:induction false} NotMadeUpFor(c: Byte, n: nat, u: Option<Bytes>, v: Bytes)
    requires n >= 1 && u != Some([BRACKET] + v)
    ensures Prepend([Flip(c)], Prepend(Rep(c, n - 1), u)) != Some([BRACE] + (Rep(c, n) + v))
  {
    RepSplit(c, n, v);
    if u.Some? {
      var left, right := Rep(c, n - 1) + u.value, Rep(c, n) + v;
      if Flip(c) == BRACE {
        assert c == BRACKET;
        PrependCancels([BRACE], Some(left), right);
        if left == right {
          CancelRun(BRACKET, n - 1, u.value, v);
        }
      } else {
        assert ([Flip(c)] + left)[0] != ([BRACE] + right)[0];
      }
    }
  }

  lemma {:induction false} RepSplit(c: Byte, n: nat, z: Bytes)
    requires n >= 1
    ensures Rep(c, n) + z == [c] + (Rep(c, n - 1) + z)
  {
  }

  /** `}}}` is written `}]}}`, which is not a legal escape. */
  lemma {:induction false} TripledBrace(rest: Bytes)
    ensures ExpandAndUnescape(Lead(BRACE) + ([BRACE, BRACE] + rest)).None?
  {
    ExpandPair(BRACE, [BRACE, BRACE] + rest);
    assert [BRACE, BRACE] + rest == [BRACE] + ([BRACE] + rest);
    ExpandRaw(Some(BRACKET), BRACE, [BRACE] + rest);
    ExpandRaw(Some(BRACE), BRACE, rest);
    var x := Expand(Some(BRACE), rest);
    if x.Some? {
      UnescapePair(BRACKET, [BRACE] + ([BRACE] + x.value));
    }
  }

  lemma {:induction false} RepeatedEscape(ts: seq<Token>)
    requires ValidTokens(ts) && ts != [] && IsEscape(ts[0].c) && ts[0].n > 1
    ensures !ReadsBack(ts)
  {
    var t, rest := ts[0], ts[1..];
    var repeats := RepeatText(t.c, t.n - 1);
    TextSplit(ts);
    if repeats[0] == STAR {
      assert repeats == [STAR] + repeats[1..];
      Associate([STAR], repeats[1..], Text(rest));
      RepeatsFlipped(t.c, repeats[1..] + Text(rest));
      assert Chars(ts)[1] == t.c;
    } else if t == Token(BRACE, 2) {
      DoubledBrace(ts);
    } else if t.c == BRACE {
      assert repeats == [BRACE, BRACE];
      TripledBrace(Text(rest));
    } else {
      assert repeats[0] == t.c && t.c in repeats;
      assert t.c in Text(ts);
    }
  }

  lemma {:induction false} TokenNoRaw(t: Token)
    requires 1 <= t.n <= MAX_RUN && (IsEscape(t.c) ==> t.n == 1)
    ensures NoRaw(TokenText(t))
  {
  }

  lemma {:induction false} ReadsBackIff(ts: seq<Token>)
    requires ValidTokens(ts)
    ensures ReadsBack(ts) <==> SingleEscapes(ts)
  {
    if ts == [] {
      assert Text(ts) == [];
    } else {
      var t, rest := ts[0], ts[1..];
      TailValid(ts);
      TextStart(rest);
      ReadsBackIff(rest);
      if IsEscape(t.c) && t.n > 1 {
        RepeatedEscape(ts);
      } else {
        TokenNoRaw(t);
        if IsEscape(t.c) {
          DecodeEscape(t.c, Text(rest));
          assert Rep(t.c, 1) == [t.c];
        } else {
          DecodePlain(t, Text(rest));
        }
        PrependCancels(Rep(t.c, t.n), ExpandAndUnescape(Text(rest)), Chars(rest));
      }
    }
  }

  lemma {:induction false} PrependCancels(a: Bytes, r: Option<Bytes>, b: Bytes)
    ensures Prepend(a, r) == Some(a + b) <==> r == Some(b)
  {
    if Prepend(a, r) == Some(a + b) {
      assert (a + r.value)[|a|..] == r.value && (a + b)[|a|..] == b;
    }
  }

  /* ---- Main results ---- */

  lemma {:induction false} HexRoundTrip(n: nat)
    requires n < 16
    ensures HexValue(HexDigit(n)) == Some(n)
    ensures HexDigit(n) !in [DOLLAR, HASH, PLUS, MINUS, CTRL_C]
  {
  }

  lemma {:induction false} ReceiveFrame(body: Bytes)
    ensures Receive(Frame(body)) == if NoRaw(body) then ExpandAndUnescape(body) else None
  {
    var p := Frame(body);
    HexRoundTrip(Checksum(body) / 16);
    HexRoundTrip(Checksum(body) % 16);
    assert p[1..|p| - 3] == body;
  }

  /** For every string: a protocol-following receiver gets the string back, without its NULs, exactly
      when no escaped character is repeated in it. */
  lemma {:induction false} EncodeRoundTrip(s: Bytes)
    ensures Receive(Encoded(s)) == Some(StripNul(s)) <==> NoAdjacentEscapes(StripNul(s))
  {
    TokensOfString(s);
    var ts := Tokens(s);
    ReceiveFrame(Text(ts));
    ReadsBackIff(ts);
    SingleEscapesChars(ts);
  }

  /** `**` is one input that does not survive. */
  lemma {:induction false} RepeatedStarIsLost()
    ensures Receive(Encoded([STAR, STAR])) != Some([STAR, STAR])
  {
    var s := [STAR, STAR];
    assert s[..1] == [STAR] && s[..1][..0] == [];
    assert StripNul([STAR]) == [STAR];
    assert StripNul(s) == s;
    EncodeRoundTrip(s);
    assert s[0] == s[1];
  }

  /** The encoder keeps every string that has no NUL and no repeated escape. */
  lemma {:induction false} StripNulIdentity(s: Bytes)
    requires 0 !in s
    ensures StripNul(s) == s
  {
    if s != [] {
      StripNulIdentity(s[..|s| - 1]);
    }
  }
}
