/** The decoder's loop over a C string, proved against `Base64`. */
module Base64Decoder {
  import opened Arithmetic
  import opened CStrings
  import opened Base64
  import opened Base64Laws
  import opened Base64Codec

  /** The decoder's variables after the text `e`: `done` are the symbols of completed quads and
      `part` those of the quad in progress. */
  ghost predicate DecoderState(e: string, done: seq<int>, part: seq<int>, t: int, y: int, g: int) {
    && Symbols(e) == done + part
    && |done| % 4 == 0 && y == |part| < 4
    && t == Value(part) && g == 3 - Pads(done + part)
  }

  lemma {:induction false} DecoderStart()
    ensures DecoderState([], [], [], 0, 0, 3) && Decoded([]) == []
  {
    var none: seq<int> := [];
    assert none + none == none;
  }

  lemma {:induction false} DecoderSkip(e: string, c: char, done: seq<int>, part: seq<int>, t: int, y: int, g: int)
    requires DecoderState(e, done, part, t, y, g) && SuffixMap(c) == SKIPPED
    ensures DecoderState(e + [c], done, part, t, y, g)
  {
    hide SuffixMap;
    SymbolsSnoc(e, c);
  }

  /** A symbol enters the quad in progress. */
  lemma {:induction false} DecoderTake(e: string, c: char, done: seq<int>, part: seq<int>, t: int, y: int, g: int)
    requires DecoderState(e, done, part, t, y, g) && SuffixMap(c) != SKIPPED
    ensures var v := SuffixMap(c);
            && Symbols(e + [c]) == done + (part + [v])
            && t * 64 + Bits(v) == Value(part + [v])
            && (if v == PADDING then g - 1 else g) == 3 - Pads(done + (part + [v]))
  {
    hide SuffixMap, Value, Pads;
    var v := SuffixMap(c);
    SymbolsSnoc(e, c);
    assert done + part + [v] == done + (part + [v]);
    ValueSnoc(part, v);
    PadsSnoc(done + part, v);
  }

  lemma {:induction false} DecoderStay(e: string, c: char, done: seq<int>, part: seq<int>, t: int, y: int, g: int)
    requires DecoderState(e, done, part, t, y, g) && SuffixMap(c) != SKIPPED && y < 3
    ensures var v := SuffixMap(c);
            DecoderState(e + [c], done, part + [v], t * 64 + Bits(v), y + 1, if v == PADDING then g - 1 else g)
  {
    DecoderTake(e, c, done, part, t, y, g);
    hide SuffixMap, Value, Pads, Symbols;
  }

  /** The fourth symbol completes the quad, which writes its bytes. */
  lemma {:induction false} DecoderComplete(e: string, c: char, done: seq<int>, part: seq<int>, t: int, y: int, g: int)
    requires DecoderState(e, done, part, t, y, g) && SuffixMap(c) != SKIPPED && y == 3
    ensures var v := SuffixMap(c);
            var g' := if v == PADDING then g - 1 else g;
            && g' <= 3
            && DecoderState(e + [c], done + (part + [v]), [], 0, 0, g')
            && Decoded(done + (part + [v])) == Decoded(done) + QuadBytes(t * 64 + Bits(v), 3 - g')
  {
    DecoderTake(e, c, done, part, t, y, g);
    var q := part + [SuffixMap(c)];
    DecodedQuad(done, q);
    QuadDone(done, q);
    hide SuffixMap, Bits, Value, Pads, Symbols, Decoded, QuadBytes;
  }

  lemma {:induction false} QuadDone(done: seq<int>, q: seq<int>)
    requires |done| % 4 == 0 && |q| == 4
    ensures |done + q| % 4 == 0 && (done + q) + [] == done + q && Value([]) == 0
  {
  }

  /** An incomplete quad writes nothing. */
  lemma {:induction false} DecodedPart(done: seq<int>, part: seq<int>)
    requires |done| % 4 == 0 && |part| < 4
    ensures Decoded(done + part) == Decoded(done)
    decreases |part|
  {
    if part == [] {
      assert done + part == done;
    } else {
      hide QuadBytes, Value, Pads;
      QuotientIs(|done + part|, 4, |done| / 4, |part|);
      assert (done + part)[..|done + part| - 1] == done + part[..|part| - 1];
      DecodedPart(done, part[..|part| - 1]);
    }
  }

  /** More symbols never take back what was written. */
  lemma {:induction false} DecodedGrows(v: seq<int>, w: seq<int>)
    ensures |Decoded(v)| <= |Decoded(v + w)|
    decreases |w|
  {
    if w == [] {
      assert v + w == v;
    } else {
      var u := v + w[..|w| - 1];
      DecodedGrows(v, w[..|w| - 1]);
      assert v + w == u + [w[|w| - 1]];
      DecodedGrowsByOne(u, w[|w| - 1]);
    }
  }

  lemma {:induction false} DecodedGrowsByOne(u: seq<int>, x: int)
    ensures |Decoded(u)| <= |Decoded(u + [x])|
  {
    var m := |u| / 4 * 4;
    var done, part := u[..m], u[m..];
    assert u == done + part && u + [x] == done + (part + [x]);
    DecodedPart(done, part);
    if |part| < 3 {
      DecodedPart(done, part + [x]);
    } else {
      DecodedQuad(done, part + [x]);
    }
  }

  /** A known prefix decodes to no more than the whole text. */
  lemma {:induction false} DecodedRoom(e: string, x: nat)
    requires x <= |KnownPrefix(e)|
    ensures |Decoded(Symbols(e[..x]))| <= |DecodedBytes(e)|
  {
    var k := KnownPrefix(e);
    assert k == e[..x] + k[x..];
    SymbolsConcat(e[..x], k[x..]);
    hide Decoded, Symbols;
    DecodedGrows(Symbols(e[..x]), Symbols(k[x..]));
  }

  /** The look-up at `x`, when all characters before are known. */
  lemma {:induction false} LookedUp(e: string, x: nat, signedChar: bool)
    requires Decodable(e, signedChar) && x < |e| && x <= |KnownPrefix(e)|
    ensures e[x] as int < 256 && SuffixIndex(e[x], signedChar) < 256
    ensures SuffixAt(SuffixIndex(e[x], signedChar)) == SuffixMap(e[x])
    ensures if SuffixMap(e[x]) == UNKNOWN then |KnownPrefix(e)| == x else x < |KnownPrefix(e)|
  {
    hide SuffixMap, SuffixIndex, SuffixAt;
    assert e[x] as int < 256;
    SuffixIndexInTableIff(e[x], signedChar);
  }

  /** One symbol, either way. */
  lemma {:induction false} DecoderSymbol(e: string, ch: char, done: seq<int>, part: seq<int>, t: int, y: int, g: int,
                                         c: int, g': int)
    requires DecoderState(e, done, part, t, y, g) && SuffixMap(ch) != SKIPPED
    requires c == Bits(SuffixMap(ch)) && g' == if SuffixMap(ch) == PADDING then g - 1 else g
    ensures var v := SuffixMap(ch);
            if y + 1 < 4 then DecoderState(e + [ch], done, part + [v], t * 64 + c, y + 1, g')
            else
              && y + 1 == 4 && g' <= 3 && |done + (part + [v])| % 4 == 0
              && DecoderState(e + [ch], done + (part + [v]), [], 0, 0, g')
              && Decoded(done + (part + [v])) == Decoded(done) + QuadBytes(t * 64 + c, 3 - g')
  {
    if y < 3 {
      hide SuffixMap, Bits, Value, Pads, Symbols, Decoded;
      DecoderStay(e, ch, done, part, t, y, g);
    } else {
      hide SuffixMap, Bits, Value, Pads, Symbols, Decoded, QuadBytes;
      DecoderComplete(e, ch, done, part, t, y, g);
    }
  }

  /** What is written after a known prefix fits where the whole output fits. */
  lemma {:induction false} WrittenFits(e: string, x: nat, done: seq<int>, part: seq<int>, t: int, y: int, g: int)
    requires x <= |KnownPrefix(e)| && DecoderState(e[..x], done, part, t, y, g)
    ensures |Decoded(done)| <= |DecodedBytes(e)|
  {
    hide Decoded, Symbols, DecodedBytes, Value, Pads;
    DecodedPart(done, part);
    DecodedRoom(e, x);
  }

  /** After all known characters, everything has been written. */
  lemma {:induction false} AllWritten(e: string, x: nat, done: seq<int>, part: seq<int>, t: int, y: int, g: int)
    requires x == |KnownPrefix(e)| && DecoderState(e[..x], done, part, t, y, g)
    ensures Decoded(done) == DecodedBytes(e)
    ensures KnownPrefix(e) == e <==> x == |e|
  {
    hide Decoded, Symbols, Value, Pads;
    DecodedPart(done, part);
  }

  /** The bytes a completed quad writes: one, and two more while few paddings were seen. */
  method WriteQuad(outdata: array<byte>, at: nat, t: int, g: int, ghost limit: nat) returns (i: nat)
    requires g <= 3 && at + |QuadBytes(t, 3 - g)| <= limit <= outdata.Length
    modifies outdata
    ensures i == at + |QuadBytes(t, 3 - g)|
    ensures outdata[..i] == old(outdata[..at]) + QuadBytes(t, 3 - g)
    ensures outdata[limit..] == old(outdata[limit..])
  {
    hide ByteOf;
    i := at;
    outdata[i] := ByteOf(t, 0);
    i := i + 1;
    if g > 1 {
      outdata[i] := ByteOf(t, 1);
      i := i + 1;
    }
    if g > 2 {
      outdata[i] := ByteOf(t, 2);
      i := i + 1;
    }
  }

  /** The decoder's loop, which stops at the end of the text or at an unknown character. */
  method DecodeLoop(signedChar: bool, indata: array<char>, outdata: array<byte>, ghost e: string, ghost d: seq<byte>)
    returns (ret: int)
    requires NUL in indata[..] && e == CText(indata[..]) && Decodable(e, signedChar)
    requires d == DecodedBytes(e) && |d| <= outdata.Length
    modifies outdata
    ensures outdata[..|d|] == d && outdata[|d|..] == old(outdata[|d|..])
    ensures ret == if KnownPrefix(e) == e then |d| else -1
  {
    hide *;
    var t, x, y, g, i := 0, 0, 0, 3, 0;
    ghost var done: seq<int>, part: seq<int> := [], [];
    DecoderStart();
    while indata[x] != NUL
      invariant 0 <= x <= |e| && x <= |KnownPrefix(e)|
      invariant DecoderState(e[..x], done, part, t, y, g) && 0 <= y < 4
      invariant 0 <= i <= |d| && outdata[..i] == Decoded(done)
      invariant outdata[|d|..] == old(outdata[|d|..])
      decreases |e| - x
    {
      LookedUp(e, x, signedChar);
      ghost var pre, ch, g0 := e[..x], e[x], g;
      assert e[..x + 1] == pre + [ch];
      var c := SuffixAt(SuffixIndex(indata[x], signedChar));
      x := x + 1;
      if c == UNKNOWN {
        AllWritten(e, x - 1, done, part, t, y, g);
        return -1;
      }
      if c == SKIPPED {
        DecoderSkip(pre, ch, done, part, t, y, g);
        continue;
      }
      ghost var v := c;
      if c == PADDING {
        c := 0;
        g := g - 1;
      }
      BitsOf(v);
      DecoderSymbol(pre, ch, done, part, t, y, g0, c, g);
      t := t * 64 + c;
      y := y + 1;
      part := part + [v];
      if y == 4 {
        done, part := done + part, [];
        WrittenFits(e, x, done, part, 0, 0, g);
        i := WriteQuad(outdata, i, t, g, |d|);
        y, t := 0, 0;
      }
    }
    AllWritten(e, x, done, part, t, y, g);
    ret := i;
  }

  lemma {:induction false} BitsOf(v: int)
    ensures Bits(v) == if v == PADDING then 0 else v
  {
  }

  /** `base64_decode`: the output and the result of `Base64`, and nothing else is written. */
  method Base64Decode(signedChar: bool, indata: array?<char>, inlen: int, outdata: array?<byte>) returns (ret: int)
    requires indata != null ==> NUL in indata[..] && Decodable(CText(indata[..]), signedChar)
    requires indata != null && outdata != null ==> |DecodeOutput(CText(indata[..]), inlen)| <= outdata.Length
    modifies outdata
    ensures indata == null || outdata == null ==> ret == -1
    ensures indata == null && outdata != null ==> outdata[..] == old(outdata[..])
    ensures indata != null && outdata != null ==>
              var e := CText(indata[..]);
              var d := DecodeOutput(e, inlen);
              && ret == DecodeResult(e, inlen)
              && outdata[..|d|] == d && outdata[|d|..] == old(outdata[|d|..])
  {
    ret := 0;
    if indata == null || inlen <= 0 || outdata == null {
      ret := -1;
      return;
    }
    if inlen % 4 != 0 {
      ret := -2;
      return;
    }
    hide CText, DecodedBytes, Decodable, KnownPrefix;
    ret := DecodeLoop(signedChar, indata, outdata, CText(indata[..]), DecodedBytes(CText(indata[..])));
  }
}
