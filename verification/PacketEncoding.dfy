/** The streaming encoder (lib/gdb-stub/packet.cpp, `Packet_encoder`), proved against the run-based
    description of its output. */
module PacketEncoding {
  import opened Words
  import opened PacketText

  /** All runs but the last are written out; of the last one, only its first character is. */
  function Pending(ts: seq<Token>): Bytes
    requires ValidTokens(ts)
  {
    if ts == [] then [] else Text(ts[..|ts| - 1]) + Lead(ts[|ts| - 1].c)
  }

  function LastChar(ts: seq<Token>): Byte {
    if ts == [] then 0 else ts[|ts| - 1].c
  }

  function LastCopies(ts: seq<Token>): nat
    requires ValidTokens(ts)
  {
    if ts == [] then 0 else ts[|ts| - 1].n - 1
  }

  lemma {:induction false} LengthensRun(ts: seq<Token>, c: Byte)
    requires ValidTokens(ts) && c != 0 && c == LastChar(ts) && LastCopies(ts) < MAX_RUN - 1
    ensures var r := Extend(ts, c);
            && ValidTokens(r) && Pending(r) == Pending(ts)
            && LastChar(r) == c && LastCopies(r) == LastCopies(ts) + 1
  {
    ExtendValid(ts, c);
    assert Extend(ts, c)[..|ts| - 1] == ts[..|ts| - 1];
  }

  lemma {:induction false} StartsRun(ts: seq<Token>, c: Byte)
    requires ValidTokens(ts) && c != 0 && !(c == LastChar(ts) && LastCopies(ts) < MAX_RUN - 1)
    ensures var r := Extend(ts, c);
            && ValidTokens(r) && Pending(r) == Text(ts) + Lead(c)
            && LastChar(r) == c && LastCopies(r) == 0
  {
    ExtendValid(ts, c);
    assert Extend(ts, c)[..|ts|] == ts;
  }

  /** Writing the copies of the last run completes the text. */
  lemma {:induction false} CompletesText(ts: seq<Token>)
    requires ValidTokens(ts)
    ensures LastCopies(ts) < MAX_RUN
    ensures Text(ts) == Pending(ts) + RepeatText(LastChar(ts), LastCopies(ts))
    ensures LastChar(ts) == 0 ==> LastCopies(ts) == 0
  {
    if ts != [] {
      var front, t := ts[..|ts| - 1], ts[|ts| - 1];
      assert ts == front + [t];
      TextSnoc(front, t);
      assert Text(front) + (Lead(t.c) + RepeatText(t.c, t.n - 1))
          == (Text(front) + Lead(t.c)) + RepeatText(t.c, t.n - 1);
    }
  }

  class PacketEncoder {
    var stream: Bytes
    var lastChar: Byte
    var copies: nat  // the source's `repeat`
    ghost var runs: seq<Token>  // the runs of everything pushed so far

    ghost predicate Valid()
      reads this
    {
      && ValidTokens(runs)
      && stream == Pending(runs) && lastChar == LastChar(runs) && copies == LastCopies(runs)
    }

    constructor ()
      ensures Valid() && runs == []
    {
      stream, lastChar, copies, runs := [], 0, 0, [];
    }

    method PushRepeat()
      requires Valid()
      modifies this`stream
      ensures stream == Text(runs)
    {
      CompletesText(runs);
      if copies == 0 || lastChar == 0 {
        assert stream + [] == stream;
        return;
      }
      if copies <= 2 {
        stream := stream + Rep(lastChar, copies);
        return;
      }
      if copies == 6 {
        stream := stream + [STAR, 0x22, lastChar];
        return;
      }
      if copies == 7 {
        stream := stream + [STAR, 0x22, lastChar, lastChar];
        return;
      }
      stream := stream + [STAR, copies + 29];
    }

    method WriteLead(c: Byte)
      modifies this`stream
      ensures stream == old(stream) + Lead(c)
    {
      if c == STAR || c == DOLLAR || c == BRACE || c == HASH {
        stream := stream + [BRACE];
        stream := stream + [Flip(c)];
      } else {
        stream := stream + [c];
      }
    }

    method Push(c: Byte)
      requires Valid()
      modifies this
      ensures Valid() && runs == Extend(old(runs), c)
    {
      hide Text, Pending, LastChar, LastCopies, ValidTokens, Lead;
      if c == 0 {
        assert Extend(runs, c) == runs;
        return;
      }
      hide Extend;
      if c != lastChar || copies >= 126 - 29 {
        PushRepeat();
        StartsRun(runs, c);
        lastChar := c;
        copies := 0;
        WriteLead(c);
      } else {
        LengthensRun(runs, c);
        copies := copies + 1;
      }
      runs := Extend(runs, c);
    }

    method InternalEncode(str: Bytes) returns (packet: Bytes)
      requires Valid() && runs == []
      modifies this
      ensures packet == Encoded(str)
    {
      for i := 0 to |str|
        invariant Valid() && runs == Tokens(str[..i])
      {
        Push(str[i]);
        assert str[..i + 1][..i] == str[..i];
      }
      assert str[..|str|] == str;
      PushRepeat();
      var checksum := Checksum(stream);
      packet := [DOLLAR] + stream + [HASH, HexDigit(checksum / 16), HexDigit(checksum % 16)];
    }
  }

  method Encode(str: Bytes) returns (packet: Bytes)
    ensures packet == Encoded(str)
  {
    var encoder := new PacketEncoder();
    packet := encoder.InternalEncode(str);
  }
}
