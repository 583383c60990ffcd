/** Laws of the codec: decoding undoes encoding, encoding undoes decoding on exactly the
    canonical texts, the decoder's result is bounded, and skipped characters do not matter. */
module Base64Laws {
  import opened Arithmetic
  import opened Base64

  predicate InAlphabet(c: char) {
    0 <= SuffixMap(c) < 64
  }

  // --------------------------------------------- appending one quad

  lemma {:induction false} SymbolsSnoc(e: string, c: char)
    ensures Symbols(e + [c]) == Symbols(e) + if SuffixMap(c) == SKIPPED then [] else [SuffixMap(c)]
  {
    assert (e + [c])[..|e|] == e;
  }

  lemma {:induction false} SymbolsQuad(e: string, q: string)
    requires |q| == 4
    requires forall i :: 0 <= i < 4 ==> SuffixMap(q[i]) != SKIPPED
    ensures Symbols(e + q) == Symbols(e) + [SuffixMap(q[0]), SuffixMap(q[1]), SuffixMap(q[2]), SuffixMap(q[3])]
  {
    hide Symbols, SuffixMap;
    SymbolsSnoc(e, q[0]);
    SymbolsSnoc(e + [q[0]], q[1]);
    SymbolsSnoc(e + [q[0]] + [q[1]], q[2]);
    SymbolsSnoc(e + [q[0]] + [q[1]] + [q[2]], q[3]);
    assert e + q == e + [q[0]] + [q[1]] + [q[2]] + [q[3]];
  }

  lemma {:induction false} PadsSnoc(v: seq<int>, x: int)
    ensures Pads(v + [x]) == Pads(v) + if x == PADDING then 1 else 0
  {
    assert (v + [x])[..|v|] == v;
  }

  function PadsIn(q: seq<int>): nat
    requires |q| == 4
  {
    (if q[0] == PADDING then 1 else 0) + (if q[1] == PADDING then 1 else 0)
    + (if q[2] == PADDING then 1 else 0) + (if q[3] == PADDING then 1 else 0)
  }

  lemma {:induction false} PadsQuad(v: seq<int>, q: seq<int>)
    requires |q| == 4
    ensures Pads(v + q) == Pads(v) + PadsIn(q)
  {
    hide Pads;
    PadsSnoc(v, q[0]);
    PadsSnoc(v + [q[0]], q[1]);
    PadsSnoc(v + [q[0]] + [q[1]], q[2]);
    PadsSnoc(v + [q[0]] + [q[1]] + [q[2]], q[3]);
    assert v + q == v + [q[0]] + [q[1]] + [q[2]] + [q[3]];
  }

  lemma {:induction false} ValueSnoc(v: seq<int>, x: int)
    ensures Value(v + [x]) == Value(v) * 64 + Bits(x)
  {
    assert (v + [x])[..|v|] == v;
  }

  /** Four digits as one number. */
  function Join(a: int, b: int, c: int, d: int): int {
    ((a * 64 + b) * 64 + c) * 64 + d
  }

  lemma {:induction false} ValueQuad(q: seq<int>)
    requires |q| == 4
    ensures Value(q) == Join(Bits(q[0]), Bits(q[1]), Bits(q[2]), Bits(q[3]))
  {
    ValueSnoc([], q[0]);
    ValueSnoc([q[0]], q[1]);
    ValueSnoc([q[0], q[1]], q[2]);
    ValueSnoc([q[0], q[1], q[2]], q[3]);
    assert [] + [q[0]] == [q[0]] && [q[0]] + [q[1]] == [q[0], q[1]];
    assert [q[0], q[1]] + [q[2]] == [q[0], q[1], q[2]];
    assert q == [q[0], q[1], q[2]] + [q[3]];
  }

  lemma {:induction false} DecodedQuad(v: seq<int>, q: seq<int>)
    requires |v| % 4 == 0 && |q| == 4
    ensures Decoded(v + q) == Decoded(v) + QuadBytes(Value(q), Pads(v + q))
  {
    assert (v + q)[..|v|] == v && (v + q)[|v|..] == q;
  }

  // ------------------------------------------- decoding undoes encoding

  /** Digits determine the number they are taken from. */
  lemma {:induction false} JoinDigits(n: int)
    requires 0 <= n < 0x1000000
    ensures Join(Digit(n, 0), Digit(n, 1), Digit(n, 2), Digit(n, 3)) == n
  {
    DigitsAre(n);
    JoinParts(n);
    hide Digit, Join;
  }

  lemma {:induction false} JoinParts(n: int)
    requires 0 <= n < 0x1000000
    ensures Join(n / 262144, n / 4096 % 64, n / 64 % 64, n % 64) == n
  {
    var p, q, r := n / 64, n / 4096, n / 262144;
    Quotients(n);
    assert n == 64 * p + n % 64;
    assert p == 64 * q + p % 64;
    assert q == 64 * r + q % 64;
  }

  /** The characters of a quad are read back as its digits. */
  lemma {:induction false} QuadDigits(n: int)
    requires 0 <= n < 0x1000000
    ensures forall i :: 0 <= i < 4 ==> InAlphabet(Quad(n)[i]) && SuffixMap(Quad(n)[i]) == Digit(n, i)
  {
    hide Digit, Alphabet, SuffixMap;
    forall i | 0 <= i < 4 ensures SuffixMap(Quad(n)[i]) == Digit(n, i) {
      TablesInverse(Digit(n, i), PAD);
    }
  }

  lemma {:induction false} GroupBytes(a: byte, b: byte, c: byte)
    ensures var n := Group(a, b, c); ByteOf(n, 0) == a && ByteOf(n, 1) == b && ByteOf(n, 2) == c
  {
    var n := Group(a, b, c);
    QuotientIs(n, 256, a * 256 + b, c);
    QuotientIs(a * 256 + b, 256, a, b);
    QuotientIs(n, 65536, a, b * 256 + c);
    QuotientIs(a, 256, 0, a);
  }

  /** Decoding the quad of 24 bits behind text without paddings. */
  lemma {:induction false} DecodeAfterGroup(e: string, n: int)
    requires 0 <= n < 0x1000000
    requires |Symbols(e)| % 4 == 0 && Pads(Symbols(e)) == 0
    ensures var v := Symbols(e + Quad(n));
            && |v| % 4 == 0 && Pads(v) == 0
            && Decoded(v) == Decoded(Symbols(e)) + [ByteOf(n, 0), ByteOf(n, 1), ByteOf(n, 2)]
  {
    hide Alphabet, SuffixMap, Quad, Digit, Join, ByteOf, Symbols, Pads, Decoded;
    QuadDigits(n);
    JoinDigits(n);
    DecodeAfter(e, Quad(n));
  }

  lemma {:induction false} DecodeGroups(s: seq<byte>)
    requires |s| % 3 == 0
    ensures forall i :: 0 <= i < |EncodeGroups(s)| ==> InAlphabet(EncodeGroups(s)[i])
    ensures var v := Symbols(EncodeGroups(s)); |v| % 4 == 0 && Pads(v) == 0 && Decoded(v) == s
  {
    hide Alphabet, SuffixMap, Quad, Digit, ByteOf, Symbols, Pads, Decoded, Group;
    if s == [] {
      EmptyText();
    } else {
      var m := |s| - 3;
      var n := Group(s[m], s[m + 1], s[m + 2]);
      DecodeGroups(s[..m]);
      QuadDigits(n);
      DecodeAfterGroup(EncodeGroups(s[..m]), n);
      GroupBytes(s[m], s[m + 1], s[m + 2]);
      assert s == s[..m] + [s[m], s[m + 1], s[m + 2]];
    }
  }

  lemma {:induction false} EmptyText()
    ensures Symbols([]) == [] && Pads([]) == 0 && Decoded([]) == []
  {
  }

  /** Decoding one more quad behind text without paddings. */
  lemma {:induction false} DecodeAfter(e: string, q: string)
    requires |q| == 4 && forall i :: 0 <= i < 4 ==> SuffixMap(q[i]) != SKIPPED
    requires |Symbols(e)| % 4 == 0 && Pads(Symbols(e)) == 0
    ensures var x := [SuffixMap(q[0]), SuffixMap(q[1]), SuffixMap(q[2]), SuffixMap(q[3])];
            var v := Symbols(e + q);
            && |v| == |Symbols(e)| + 4
            && Pads(v) == PadsIn(x)
            && Decoded(v) == Decoded(Symbols(e))
               + QuadBytes(Join(Bits(x[0]), Bits(x[1]), Bits(x[2]), Bits(x[3])), PadsIn(x))
  {
    hide SuffixMap, Join, Symbols, Pads, Decoded, PadsIn, Value, QuadBytes;
    var x := [SuffixMap(q[0]), SuffixMap(q[1]), SuffixMap(q[2]), SuffixMap(q[3])];
    SymbolsQuad(e, q);
    PadsQuad(Symbols(e), x);
    DecodedQuad(Symbols(e), x);
    ValueQuad(x);
  }

  /** With missing bytes zero, the digits of the missing characters are zero. */
  lemma {:induction false} TailDigits(a: byte, b: byte)
    ensures Digit(Group(a, b, 0), 3) == 0 && Digit(Group(a, b, 0), 2) % 4 == 0
    ensures b == 0 ==> Digit(Group(a, b, 0), 2) == 0 && Digit(Group(a, b, 0), 1) % 16 == 0
  {
    DigitsAre(Group(a, b, 0));
    TailParts(a, b);
    hide Digit, Group;
  }

  lemma {:induction false} TailParts(a: byte, b: byte)
    ensures var n := Group(a, b, 0);
            && n % 64 == 0 && n / 64 % 64 % 4 == 0
            && (b == 0 ==> n / 64 % 64 == 0 && n / 4096 % 64 % 16 == 0)
  {
    var n, c, d := Group(a, b, 0), a % 4, b % 16;
    assert a == 4 * (a / 4) + c && b == 16 * (b / 16) + d;
    QuotientIs(n, 64, a * 1024 + b * 4, 0);
    QuotientIs(a * 1024 + b * 4, 64, a * 16 + b / 16, 4 * d);
    QuotientIs(4 * d, 4, d, 0);
    if b == 0 {
      QuotientIs(n, 4096, a * 16, 0);
      QuotientIs(a * 16, 64, a / 4, 16 * c);
      QuotientIs(16 * c, 16, c, 0);
    }
  }

  /** The characters of a padded tail are digits of the bytes completed with zeros. */
  lemma {:induction false} TailSymbols(s: seq<byte>)
    requires 0 < |s| < 3
    ensures var n := Group(s[0], if |s| == 1 then 0 else s[1], 0);
            var e := EncodeTail(s);
            && |e| == 4 && LastQuad(e)
            && SuffixMap(e[0]) == Digit(n, 0) && SuffixMap(e[1]) == Digit(n, 1)
            && (if |s| == 1 then e[2] == PAD && Digit(n, 2) == 0 else SuffixMap(e[2]) == Digit(n, 2))
            && e[3] == PAD && Digit(n, 3) == 0
    ensures forall i :: 0 <= i < 4 ==> InAlphabet(EncodeTail(s)[i]) || EncodeTail(s)[i] == PAD
  {
    var b: byte := if |s| == 1 then 0 else s[1];
    QuadDigits(Group(s[0], b, 0));
    TailDigits(s[0], b);
    hide Alphabet, SuffixMap, Digit, Quad, Group;
  }

  /** A padded tail stands for the bytes it was made from. */
  lemma {:induction false} TailBytes(s: seq<byte>, x: seq<int>)
    requires 0 < |s| < 3 && |x| == 4
    requires forall i :: 0 <= i < 4 ==> x[i] == SuffixMap(EncodeTail(s)[i])
    ensures forall i :: 0 <= i < 4 ==> x[i] != SKIPPED
    ensures QuadBytes(Join(Bits(x[0]), Bits(x[1]), Bits(x[2]), Bits(x[3])), PadsIn(x)) == s
  {
    assert SuffixMap(PAD) == PADDING;
    hide SuffixMap, Digit, Join, ByteOf, Group, EncodeTail, LastQuad;
    var b: byte := if |s| == 1 then 0 else s[1];
    var n := Group(s[0], b, 0);
    TailSymbols(s);
    JoinDigits(n);
    GroupBytes(s[0], b, 0);
    assert Bits(x[0]) == Digit(n, 0) && Bits(x[1]) == Digit(n, 1);
    assert Bits(x[2]) == Digit(n, 2) && Bits(x[3]) == Digit(n, 3);
  }

  lemma {:induction false} DecodeTail(e: string, s: seq<byte>)
    requires 0 < |s| < 3
    requires |Symbols(e)| % 4 == 0 && Pads(Symbols(e)) == 0
    ensures Decoded(Symbols(e + EncodeTail(s))) == Decoded(Symbols(e)) + s
  {
    hide *;
    var q := EncodeTail(s);
    TailBytes(s, [SuffixMap(q[0]), SuffixMap(q[1]), SuffixMap(q[2]), SuffixMap(q[3])]);
    DecodeAfter(e, q);
  }

  lemma {:induction false} KnownAll(e: string)
    requires forall i :: 0 <= i < |e| ==> SuffixMap(e[i]) != UNKNOWN
    ensures KnownPrefix(e) == e
  {
  }

  /** Data as full groups and a tail. */
  lemma {:induction false} EncodeSplit(s: seq<byte>) returns (g: seq<byte>, t: seq<byte>)
    ensures |g| % 3 == 0 && |t| < 3 && s == g + t
    ensures Encode(s) == EncodeGroups(g) + EncodeTail(t)
  {
    hide EncodedLength, EncodeGroups, EncodeTail;
    g, t := s[..FullLength(|s|)], s[FullLength(|s|)..];
  }

  lemma {:induction false} EncodeKnown(s: seq<byte>)
    ensures forall i :: 0 <= i < |Encode(s)| ==> InAlphabet(Encode(s)[i]) || Encode(s)[i] == PAD
  {
    hide *;
    var g, t := EncodeSplit(s);
    DecodeGroups(g);
    if t == [] {
      EncodeNothing();
    } else {
      TailSymbols(t);
    }
  }

  /** What the encoding of data is decoded to. */
  lemma {:induction false} DecodedEncode(s: seq<byte>)
    ensures Decoded(Symbols(Encode(s))) == s
  {
    hide *;
    var g, t := EncodeSplit(s);
    DecodeGroups(g);
    if t == [] {
      EncodeNothing();
      assert EncodeGroups(g) + [] == EncodeGroups(g) && g + [] == g;
    } else {
      DecodeTail(EncodeGroups(g), t);
    }
  }

  /** Decoding the encoding of nonempty data gives their length and the data. */
  lemma {:induction false} DecodeEncode(s: seq<byte>)
    requires s != []
    ensures KnownPrefix(Encode(s)) == Encode(s)
    ensures DecodedBytes(Encode(s)) == s
    ensures DecodeResult(Encode(s), |Encode(s)|) == |s|
    ensures DecodeOutput(Encode(s), |Encode(s)|) == s
  {
    EncodeKnown(s);
    assert SuffixMap(PAD) == PADDING;
    EncodedLengthIsQuads(|s|);
    DecodedEncode(s);
    hide Encode, EncodedLength, SuffixMap, Symbols, Decoded;
    KnownAll(Encode(s));
  }

  // ------------------------------------------------- canonical encodings

  /** The last quad of a canonical encoding: full, or padded with zero bits and '='. */
  predicate LastQuad(q: string) {
    && |q| == 4 && InAlphabet(q[0]) && InAlphabet(q[1])
    && ( || (InAlphabet(q[2]) && InAlphabet(q[3]))
         || (InAlphabet(q[2]) && q[3] == PAD && SuffixMap(q[2]) % 4 == 0)
         || (q[2] == PAD && q[3] == PAD && SuffixMap(q[1]) % 16 == 0))
  }

  /** Section 3.5 of RFC 4648. */
  ghost predicate Canonical(e: string) {
    && |e| >= 4 && |e| % 4 == 0
    && (forall i :: 0 <= i < |e| - 4 ==> InAlphabet(e[i]))
    && LastQuad(e[|e| - 4..])
  }

  lemma {:induction false} EncodeCanonical(s: seq<byte>)
    requires s != []
    ensures Canonical(Encode(s))
  {
    hide EncodedLength, FullLength, EncodeGroups, EncodeTail, SuffixMap, Symbols, Pads, Decoded, Encode;
    EncodedLengthIsQuads(|s|);
    var g, t := EncodeSplit(s);
    DecodeGroups(g);
    if t == [] {
      EncodeNothing();
    } else {
      TailSymbols(t);
      assert Encode(s)[|Encode(s)| - 4..] == EncodeTail(t);
    }
  }

  function PadsAtEnd(e: string): nat
    requires |e| >= 2
  {
    (if e[|e| - 1] == PAD then 1 else 0) + (if e[|e| - 2] == PAD then 1 else 0)
  }

  /** Digits, and bytes, are recovered from the number they make. */
  lemma {:induction false} DigitsOfJoin(a: int, b: int, c: int, d: int)
    requires 0 <= a < 64 && 0 <= b < 64 && 0 <= c < 64 && 0 <= d < 64
    ensures var t := Join(a, b, c, d);
            && 0 <= t < 0x1000000
            && Digit(t, 0) == a && Digit(t, 1) == b && Digit(t, 2) == c && Digit(t, 3) == d
  {
    var t := Join(a, b, c, d);
    QuotientIs(t, 64, (a * 64 + b) * 64 + c, d);
    QuotientIs((a * 64 + b) * 64 + c, 64, a * 64 + b, c);
    QuotientIs(t, 4096, a * 64 + b, 64 * c + d);
    QuotientIs(a * 64 + b, 64, a, b);
    QuotientIs(t, 262144, a, 4096 * b + 64 * c + d);
    hide Digit, Join;
    DigitsAre(t);
  }

  lemma {:induction false} GroupOfBytes(t: int)
    requires 0 <= t < 0x1000000
    ensures Group(ByteOf(t, 0), ByteOf(t, 1), ByteOf(t, 2)) == t
  {
    var q, u := t / 65536, t % 65536;
    var v, w := u / 256, u % 256;
    assert t == 65536 * q + u && u == 256 * v + w;
    QuotientIs(t, 256, 256 * q + v, w);
    QuotientIs(256 * q + v, 256, q, v);
    QuotientIs(q, 256, 0, q);
  }

  /** A full quad of the alphabet is the quad of the number it stands for. */
  lemma {:induction false} QuadOfDigits(q: string)
    requires |q| == 4 && forall i :: 0 <= i < 4 ==> InAlphabet(q[i])
    ensures var t := Join(SuffixMap(q[0]), SuffixMap(q[1]), SuffixMap(q[2]), SuffixMap(q[3]));
            0 <= t < 0x1000000 && Quad(t) == q
  {
    DigitsOfJoin(SuffixMap(q[0]), SuffixMap(q[1]), SuffixMap(q[2]), SuffixMap(q[3]));
    hide Digit, Join, Alphabet, SuffixMap;
    forall i | 0 <= i < 4 ensures Alphabet(SuffixMap(q[i])) == q[i] {
      TablesInverse(0, q[i]);
    }
  }

  lemma {:induction false} EncodeGroupsSnoc(s: seq<byte>, a: byte, b: byte, c: byte)
    requires |s| % 3 == 0
    ensures EncodeGroups(s + [a, b, c]) == EncodeGroups(s) + Quad(Group(a, b, c))
  {
    assert (s + [a, b, c])[..|s|] == s;
  }

  /** Encoding undoes the decoding of full quads. */
  lemma {:induction false} EncodeDecodedGroups(e: string)
    requires |e| % 4 == 0 && forall i :: 0 <= i < |e| ==> InAlphabet(e[i])
    ensures var v := Symbols(e);
            && |v| == |e| && Pads(v) == 0
            && |Decoded(v)| == |e| / 4 * 3 && |Decoded(v)| % 3 == 0
            && EncodeGroups(Decoded(v)) == e
  {
    hide Alphabet, SuffixMap, Quad, Digit, Join, ByteOf, Group, Symbols, Pads, Decoded, EncodeGroups;
    if e == [] {
      EmptyText();
      EncodeNothing();
    } else {
      var m := |e| - 4;
      var f, q := e[..m], e[m..];
      assert e == f + q;
      EncodeDecodedGroups(f);
      DecodeAfter(f, q);
      QuadOfDigits(q);
      var t := Join(SuffixMap(q[0]), SuffixMap(q[1]), SuffixMap(q[2]), SuffixMap(q[3]));
      GroupOfBytes(t);
      assert QuadBytes(t, 0) == [ByteOf(t, 0), ByteOf(t, 1), ByteOf(t, 2)];
      EncodeGroupsSnoc(Decoded(Symbols(f)), ByteOf(t, 0), ByteOf(t, 1), ByteOf(t, 2));
    }
  }

  lemma {:induction false} EncodeNothing()
    ensures EncodeGroups([]) == [] && EncodeTail([]) == [] && Encode([]) == []
  {
  }

  lemma {:induction false} EncodeParts(s: seq<byte>, t: seq<byte>)
    requires |s| % 3 == 0 && |t| < 3
    ensures Encode(s + t) == EncodeGroups(s) + EncodeTail(t)
  {
    hide FullLength, EncodedLength, EncodeGroups, EncodeTail;
    FullLengthOf(|s|, |t|);
    assert (s + t)[..|s|] == s && (s + t)[|s|..] == t;
  }

  lemma {:induction false} FullLengthOf(m: nat, k: nat)
    requires m % 3 == 0 && k < 3
    ensures FullLength(m + k) == m
  {
    assert m == 3 * (m / 3);
    QuotientIs(m + k, 3, m / 3, k);
  }

  /** The bytes of a padded last quad encode to that quad. */
  lemma {:induction false} TailOfQuad(q: string)
    requires LastQuad(q) && q[3] == PAD
    ensures var t := Join(SuffixMap(q[0]), SuffixMap(q[1]), Bits(SuffixMap(q[2])), 0);
            EncodeTail(QuadBytes(t, if q[2] == PAD then 2 else 1)) == q
  {
    var a, b, c := SuffixMap(q[0]), SuffixMap(q[1]), Bits(SuffixMap(q[2]));
    assert SuffixMap(PAD) == PADDING;
    assert c % 4 == 0 && (q[2] == PAD ==> c == 0 && b % 16 == 0);
    TablesInverse(0, q[0]);
    TablesInverse(0, q[1]);
    TablesInverse(0, q[2]);
    DigitsOfJoin(a, b, c, 0);
    var t := Join(a, b, c, 0);
    PaddedBytes(a, b, c);
    GroupOfBytes(t);
    hide Alphabet, SuffixMap, Digit, Join, ByteOf, Group;
  }

  /** The bytes that a padded quad does not stand for are zero. */
  lemma {:induction false} PaddedBytes(a: int, b: int, c: int)
    requires 0 <= a < 64 && 0 <= b < 64 && 0 <= c < 64 && c % 4 == 0
    ensures ByteOf(Join(a, b, c, 0), 2) == 0
    ensures c == 0 && b % 16 == 0 ==> ByteOf(Join(a, b, c, 0), 1) == 0
  {
    var t := Join(a, b, c, 0);
    assert c == 4 * (c / 4);
    QuotientIs(t, 256, (a * 64 + b) * 16 + c / 4, 0);
    if c == 0 && b % 16 == 0 {
      assert b == 16 * (b / 16);
      QuotientIs((a * 64 + b) * 16, 256, a * 4 + b / 16, 0);
    }
  }

  /** A canonical encoding is known throughout; all but its last quad are digits. */
  lemma {:induction false} CanonicalParts(e: string, f: string, q: string)
    requires |e| >= 4 && f == e[..|e| - 4] && q == e[|e| - 4..]
    requires Canonical(e)
    ensures e == f + q && KnownPrefix(e) == e
    ensures forall i :: 0 <= i < |f| ==> InAlphabet(f[i])
  {
    assert SuffixMap(PAD) == PADDING;
    hide SuffixMap;
    forall i | 0 <= i < |e| ensures SuffixMap(e[i]) != UNKNOWN {
      if i >= |f| { assert e[i] == q[i - |f|]; }
    }
    KnownAll(e);
  }

  /** Full quads and a last quad are encoded from what they decode to. */
  lemma {:induction false} EncodeDecodedParts(f: string, q: string)
    requires |f| % 4 == 0 && forall i :: 0 <= i < |f| ==> InAlphabet(f[i])
    requires LastQuad(q)
    ensures var b := Decoded(Symbols(f + q));
            && Encode(b) == f + q
            && |b| == |f| / 4 * 3 + 3 - PadsAtEnd(q)
  {
    assert SuffixMap(PAD) == PADDING;
    hide SuffixMap, Symbols, Pads, Decoded, Encode, EncodeGroups, EncodeTail;
    if q[3] == PAD {
      EncodeDecodedPadded(f, q);
    } else {
      EncodeDecodedFull(f + q);
    }
  }

  lemma {:induction false} EncodeDecodedFull(e: string)
    requires |e| % 4 == 0 && forall i :: 0 <= i < |e| ==> InAlphabet(e[i])
    ensures var b := Decoded(Symbols(e)); Encode(b) == e && |b| == |e| / 4 * 3
  {
    hide *;
    EncodeDecodedGroups(e);
    EncodeNothing();
    var b := Decoded(Symbols(e));
    EncodeParts(b, []);
    assert b + [] == b && e + [] == e;
  }

  lemma {:induction false} EncodeDecodedPadded(f: string, q: string)
    requires |f| % 4 == 0 && forall i :: 0 <= i < |f| ==> InAlphabet(f[i])
    requires LastQuad(q) && q[3] == PAD
    ensures var b := Decoded(Symbols(f + q));
            && Encode(b) == f + q
            && |b| == |f| / 4 * 3 + 3 - PadsAtEnd(q)
  {
    hide *;
    EncodeDecodedGroups(f);
    PaddedQuad(q);
    DecodeAfter(f, q);
    TailOfQuad(q);
    var t := Join(SuffixMap(q[0]), SuffixMap(q[1]), Bits(SuffixMap(q[2])), 0);
    EncodeParts(Decoded(Symbols(f)), QuadBytes(t, PadsAtEnd(q)));
  }

  lemma {:induction false} PaddedQuad(q: string)
    requires LastQuad(q) && q[3] == PAD
    ensures |q| == 4 && forall i :: 0 <= i < 4 ==> SuffixMap(q[i]) != SKIPPED
    ensures PadsAtEnd(q) == if q[2] == PAD then 2 else 1
    ensures PadsIn([SuffixMap(q[0]), SuffixMap(q[1]), SuffixMap(q[2]), SuffixMap(q[3])]) == PadsAtEnd(q)
    ensures Bits(SuffixMap(q[0])) == SuffixMap(q[0]) && Bits(SuffixMap(q[1])) == SuffixMap(q[1])
    ensures Bits(SuffixMap(q[3])) == 0
  {
    assert SuffixMap(PAD) == PADDING;
    hide SuffixMap;
  }

  /** Encoding undoes decoding on canonical encodings, which decode to three bytes a quad less the paddings. */
  lemma {:induction false} EncodeDecode(e: string)
    requires Canonical(e)
    ensures DecodedBytes(e) != [] && Encode(DecodedBytes(e)) == e
    ensures DecodeResult(e, |e|) == 3 * (|e| / 4) - PadsAtEnd(e)
  {
    var f, q := e[..|e| - 4], e[|e| - 4..];
    CanonicalParts(e, f, q);
    hide SuffixMap, Symbols, Decoded, Encode;
    EncodeDecodedParts(f, q);
    EncodeNothing();
  }

  /** Exactly the canonical texts are restored by decoding and encoding. */
  lemma {:induction false} RestoredIffCanonical(e: string)
    requires e != []
    ensures Encode(DecodedBytes(e)) == e <==> Canonical(e)
  {
    hide DecodedBytes, Canonical;
    EncodeNothing();
    if DecodedBytes(e) != [] {
      EncodeCanonical(DecodedBytes(e));
    }
    if Canonical(e) {
      EncodeDecode(e);
    }
  }

  /** Encoding is a bijection between nonempty data and canonical texts. */
  lemma {:induction false} EncodeBijective(s: seq<byte>, r: seq<byte>, e: string)
    requires s != [] && r != []
    ensures Canonical(Encode(s))
    ensures Encode(s) == Encode(r) ==> s == r
    ensures Canonical(e) ==> DecodedBytes(e) != [] && Encode(DecodedBytes(e)) == e
  {
    hide *;
    EncodeCanonical(s);
    DecodeEncode(s);
    DecodeEncode(r);
    if Canonical(e) {
      EncodeDecode(e);
    }
  }

  // ------------------------------------------------------ any input

  /** Each completed quad writes one to three bytes. */
  lemma {:induction false} DecodedBounds(v: seq<int>)
    ensures |v| / 4 <= |Decoded(v)| <= 3 * (|v| / 4)
    decreases |v|
  {
    if v != [] {
      DecodedBounds(v[..if |v| % 4 == 0 then |v| - 4 else |v| - 1]);
    }
  }

  /** Whatever paddings were seen, a quad writes the first bytes of the three that its digits make. */
  lemma {:induction false} QuadBytesAre(t: int, pads: nat) returns (a: byte, b: byte, c: byte)
    requires 0 <= t < 0x1000000
    ensures Group(a, b, c) == t
    ensures QuadBytes(t, pads) == if pads == 0 then [a, b, c] else if pads == 1 then [a, b] else [a]
  {
    a, b, c := ByteOf(t, 0), ByteOf(t, 1), ByteOf(t, 2);
    hide ByteOf, Group;
    GroupOfBytes(t);
  }

  lemma {:induction false} PaddingIff(c: char)
    ensures SuffixMap(c) == PADDING <==> c == '='
  {
  }

  /** The paddings are the equals signs of the text. */
  lemma {:induction false} PadsAreCounted(e: string)
    ensures Pads(Symbols(e)) == multiset(e)['=']
  {
    hide SuffixMap;
    if e != [] {
      var m := |e| - 1;
      var f, c := e[..m], e[m];
      assert e == f + [c];
      PadsAreCounted(f);
      hide Symbols, Pads;
      SymbolsSnoc(f, c);
      PadsSnoc(Symbols(f), SuffixMap(c));
      PaddingIff(c);
      assert multiset(e) == multiset(f) + multiset{c};
      assert Symbols(f) + [] == Symbols(f);
    }
  }

  /** The digit that a character stands for in a quad; '=' stands for zero. */
  predicate DigitOf(c: char, d: int) {
    0 <= d < 64 && if c == '=' then d == 0 else Alphabet(d) == c
  }

  lemma {:induction false} DigitFound(c: char)
    requires InAlphabet(c) || c == '='
    ensures DigitOf(c, Bits(SuffixMap(c))) && SuffixMap(c) != SKIPPED && SuffixMap(c) != UNKNOWN
  {
    TablesInverse(0, c);
  }

  /** The 24 bits of a quad. */
  lemma {:induction false} QuadNumber(q: string, x: seq<int>) returns (t: int)
    requires |q| == |x| == 4
    requires forall i :: 0 <= i < 4 ==> x[i] == SuffixMap(q[i]) && DigitOf(q[i], Bits(x[i]))
    ensures 0 <= t < 0x1000000 && t == Join(Bits(x[0]), Bits(x[1]), Bits(x[2]), Bits(x[3]))
    ensures forall i :: 0 <= i < 4 ==> DigitOf(q[i], Digit(t, i))
  {
    hide SuffixMap, Bits, Alphabet, Digit;
    t := Join(Bits(x[0]), Bits(x[1]), Bits(x[2]), Bits(x[3]));
    DigitsOfJoin(Bits(x[0]), Bits(x[1]), Bits(x[2]), Bits(x[3]));
    hide Join, DigitOf;
  }

  /** Every quad of any text, wherever its paddings stand: behind text of completed quads, it writes the
      first bytes of the three whose bits are its digits: all of them as long as the text has had no
      '=', two once it has had one, and one once it has had more. */
  lemma {:induction false} EveryQuad(e: string, q: string) returns (a: byte, b: byte, c: byte)
    requires KnownPrefix(e) == e && |Symbols(e)| % 4 == 0
    requires |q| == 4 && forall i :: 0 <= i < 4 ==> InAlphabet(q[i]) || q[i] == '='
    ensures forall i :: 0 <= i < 4 ==> DigitOf(q[i], Digit(Group(a, b, c), i))
    ensures var n := multiset(e + q)['='];
            DecodedBytes(e + q) == DecodedBytes(e) + if n == 0 then [a, b, c] else if n == 1 then [a, b] else [a]
    ensures KnownPrefix(e + q) == e + q && |Symbols(e + q)| == |Symbols(e)| + 4
  {
    hide SuffixMap, Bits, Alphabet, Symbols, Pads, Decoded, QuadBytes, Digit, Group, InAlphabet;
    hide DigitOf, Join, KnownPrefix;
    var x := [SuffixMap(q[0]), SuffixMap(q[1]), SuffixMap(q[2]), SuffixMap(q[3])];
    forall i | 0 <= i < 4
      ensures x[i] == SuffixMap(q[i]) && DigitOf(q[i], Bits(x[i]))
      ensures SuffixMap(q[i]) != SKIPPED && SuffixMap(q[i]) != UNKNOWN
    {
      DigitFound(q[i]);
    }
    var t := QuadNumber(q, x);
    SymbolsQuad(e, q);
    DecodedQuad(Symbols(e), x);
    ValueQuad(x);
    PadsAreCounted(e + q);
    a, b, c := QuadBytesAre(t, Pads(Symbols(e + q)));
    KnownBoth(e, q);
  }

  lemma {:induction false} KnownBoth(e: string, q: string)
    requires KnownPrefix(e) == e && forall i :: 0 <= i < |q| ==> SuffixMap(q[i]) != UNKNOWN
    ensures KnownPrefix(e + q) == e + q
  {
    hide SuffixMap;
    forall i | 0 <= i < |e + q| ensures SuffixMap((e + q)[i]) != UNKNOWN {
      if i < |e| {
        assert KnownPrefix(e)[i] == e[i];
      }
    }
    KnownAll(e + q);
  }

  /** What the decoder's results mean, whatever the text and the length it is given. */
  lemma {:induction false} DecodeResultIs(e: string, inlen: int)
    ensures DecodeResult(e, inlen) == -2 <==> inlen > 0 && inlen % 4 != 0
    ensures DecodeResult(e, inlen) == -1 <==>
              inlen <= 0 || (inlen % 4 == 0 && exists i :: 0 <= i < |e| && SuffixMap(e[i]) == UNKNOWN)
    ensures DecodeResult(e, inlen) >= 0 <==> DecodeResult(e, inlen) != -1 && DecodeResult(e, inlen) != -2
    ensures DecodeResult(e, inlen) >= 0 ==> DecodeResult(e, inlen) == |DecodeOutput(e, inlen)|
  {
    hide SuffixMap, Decoded, Symbols;
    if forall i :: 0 <= i < |e| ==> SuffixMap(e[i]) != UNKNOWN {
      KnownAll(e);
    }
  }

  /** What the decoder returns for any text of a positive length divisible by four. */
  lemma {:induction false} DecodeResultBounds(e: string)
    requires e != [] && |e| % 4 == 0
    ensures var q := |Symbols(KnownPrefix(e))| / 4;
            && q <= |e| / 4
            && q <= |DecodeOutput(e, |e|)| <= 3 * q
            && (DecodeResult(e, |e|) == -1 || q <= DecodeResult(e, |e|) <= 3 * q)
            && (DecodeResult(e, |e|) == -1 <==> exists i :: 0 <= i < |e| && SuffixMap(e[i]) == UNKNOWN)
  {
    DecodedBounds(Symbols(KnownPrefix(e)));
    if forall i :: 0 <= i < |e| ==> SuffixMap(e[i]) != UNKNOWN {
      KnownAll(e);
    }
  }

  /** The text without spaces, carriage returns and line feeds. */
  function Strip(e: string): string {
    if e == [] then [] else (if SuffixMap(e[0]) == SKIPPED then [] else [e[0]]) + Strip(e[1..])
  }

  lemma {:induction false} SymbolsConcat(e: string, f: string)
    ensures Symbols(e + f) == Symbols(e) + Symbols(f)
    decreases |f|
  {
    if f == [] {
      assert e + f == e;
    } else {
      var m := |f| - 1;
      assert e + f == (e + f[..m]) + [f[m]] && f == f[..m] + [f[m]];
      SymbolsConcat(e, f[..m]);
      SymbolsSnoc(e + f[..m], f[m]);
      SymbolsSnoc(f[..m], f[m]);
    }
  }

  /** The known prefix, one character at a time. */
  lemma {:induction false} KnownCons(c: char, e: string)
    requires SuffixMap(c) != UNKNOWN
    ensures KnownPrefix([c] + e) == [c] + KnownPrefix(e)
    ensures KnownPrefix([c] + e) == [c] + e <==> KnownPrefix(e) == e
  {
    hide SuffixMap;
    assert ([c] + e)[1..] == e;
    assert [c] + KnownPrefix(e) == [c] + e ==> ([c] + KnownPrefix(e))[1..] == e;
  }

  lemma {:induction false} StripSymbols(e: string)
    ensures Symbols(Strip(e)) == Symbols(e)
  {
    hide SuffixMap, KnownPrefix;
    if e != [] {
      var t := e[1..];
      StripSymbols(t);
      assert e == [e[0]] + t;
      SymbolsConcat([e[0]], t);
      SymbolsSnoc([], e[0]);
      assert [] + [e[0]] == [e[0]];
      SymbolsConcat(if SuffixMap(e[0]) == SKIPPED then [] else [e[0]], Strip(t));
    }
  }

  lemma {:induction false} StripKnown(e: string)
    ensures KnownPrefix(Strip(e)) == Strip(KnownPrefix(e))
    ensures KnownPrefix(Strip(e)) == Strip(e) <==> KnownPrefix(e) == e
  {
    hide SuffixMap, Symbols;
    if e != [] {
      var c, t := e[0], e[1..];
      assert e == [c] + t;
      StripKnown(t);
      if SuffixMap(c) == SKIPPED {
        KnownCons(c, t);
        assert Strip(e) == Strip(t) && Strip([c] + KnownPrefix(t)) == Strip(KnownPrefix(t));
      } else if SuffixMap(c) != UNKNOWN {
        KnownCons(c, t);
        KnownCons(c, Strip(t));
        assert Strip([c] + KnownPrefix(t)) == [c] + Strip(KnownPrefix(t));
      }
    }
  }

  /** Stripping a text changes neither result nor output exactly if a positive multiple of
      four characters is left. */
  lemma {:induction false} StripUnobservableIff(e: string)
    requires e != [] && |e| % 4 == 0
    ensures DecodeResult(Strip(e), |Strip(e)|) == DecodeResult(e, |e|)
            && DecodeOutput(Strip(e), |Strip(e)|) == DecodeOutput(e, |e|)
       <==> Strip(e) != [] && |Strip(e)| % 4 == 0
  {
    StripKnown(e);
    StripSymbols(KnownPrefix(e));
    hide SuffixMap;
    assert DecodedBytes(Strip(e)) == DecodedBytes(e);
    if Strip(e) == [] {
      assert KnownPrefix(Strip(e)) == Strip(e);
    }
  }
}
