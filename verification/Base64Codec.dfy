/** The codec's loops over C buffers, proved against `Base64`.

    Whether `char` is signed is a property of the platform.  Where it is, a table is indexed
    with a negative number for some bytes, which C leaves undefined; the preconditions say
    exactly for which. */
module Base64Codec {
  import opened Arithmetic
  import opened Base64
  import opened Base64Laws

  /** A `char` as the `int` it is promoted to. */
  function Promote(c: int, signedChar: bool): int
    requires 0 <= c < 256
  {
    if signedChar && c >= 128 then c - 256 else c
  }

  /** `promoted >> 2`, an arithmetic shift, as the index into the alphabet. */
  function AlphabetIndex(b: byte, signedChar: bool): int {
    Promote(b, signedChar) / 4
  }

  /** The index stays inside the table unless `char` is signed and the byte exceeds 127. */
  lemma {:induction false} AlphabetIndexInTableIff(b: byte, signedChar: bool)
    ensures 0 <= AlphabetIndex(b, signedChar) < 64 <==> !(signedChar && b >= 128)
    ensures AlphabetIndex(b, signedChar) == if signedChar && b >= 128 then b / 4 - 64 else b / 4
  {
  }

  /** Encoding `s` stays inside the table: the bytes shifted as `char` are the first of each group. */
  ghost predicate Encodable(s: seq<byte>, signedChar: bool) {
    forall i :: 0 <= i < |s| && i % 3 == 0 ==> 0 <= AlphabetIndex(s[i], signedChar) < 64
  }

  lemma {:induction false} EncodableIff(s: seq<byte>, signedChar: bool)
    ensures Encodable(s, signedChar) <==> (signedChar ==> forall i :: 0 <= i < |s| && i % 3 == 0 ==> s[i] < 128)
  {
    hide AlphabetIndex;
    forall i | 0 <= i < |s| ensures 0 <= AlphabetIndex(s[i], signedChar) < 64 <==> !(signedChar && s[i] >= 128) {
      AlphabetIndexInTableIff(s[i], signedChar);
    }
  }

  /** The promoted character converted to `unsigned int`, as the index into the decoding table. */
  function SuffixIndex(c: char, signedChar: bool): (i: nat)
    requires c as int < 256
  {
    var p := Promote(c as int, signedChar);
    if p < 0 then p + 0x1_0000_0000 else p
  }

  /** The entry of the decoding table at an index. */
  function SuffixAt(i: nat): int
    requires i < 256
  {
    SuffixMap(i as char)
  }

  /** The index stays inside the table unless `char` is signed and the character exceeds 127. */
  lemma {:induction false} SuffixIndexInTableIff(c: char, signedChar: bool)
    requires c as int < 256
    ensures SuffixIndex(c, signedChar) < 256 <==> !(signedChar && c as int >= 128)
    ensures SuffixIndex(c, signedChar) == if signedChar && c as int >= 128 then 4294967040 + c as int else c as int
    ensures SuffixIndex(c, signedChar) < 256 ==> SuffixAt(SuffixIndex(c, signedChar)) == SuffixMap(c)
  {
    hide SuffixMap;
  }

  /** Decoding `e` stays inside the table: the characters looked up are those up to the first
      unknown one. */
  ghost predicate Decodable(e: string, signedChar: bool) {
    forall i :: 0 <= i < |e| && i <= |KnownPrefix(e)| ==> e[i] as int < 256 && SuffixIndex(e[i], signedChar) < 256
  }

  lemma {:induction false} DecodableIff(e: string, signedChar: bool)
    requires forall i :: 0 <= i < |e| ==> e[i] as int < 256
    ensures Decodable(e, signedChar)
       <==> (signedChar ==> forall i :: 0 <= i < |e| && i <= |KnownPrefix(e)| ==> e[i] as int < 128)
  {
    hide SuffixIndex, KnownPrefix;
    forall i | 0 <= i < |e| ensures SuffixIndex(e[i], signedChar) < 256 <==> !(signedChar && e[i] as int >= 128) {
      SuffixIndexInTableIff(e[i], signedChar);
    }
  }

  /** Encoded text is decodable whatever `char` is. */
  lemma {:induction false} EncodedIsDecodable(s: seq<byte>, signedChar: bool)
    ensures Decodable(Encode(s), signedChar)
  {
    EncodeKnown(s);
    hide Encode;
    var e := Encode(s);
    forall i | 0 <= i < |e| ensures e[i] as int < 128 {
      SmallCharacters(e[i]);
    }
    DecodableIff(e, signedChar);
  }

  lemma {:induction false} SmallCharacters(c: char)
    requires SuffixMap(c) != UNKNOWN
    ensures c as int < 128
  {
  }

  /** Shifting an unsigned number to the left. */
  function ShiftLeft(x: nat, n: nat): nat {
    if n == 0 then x else ShiftLeft(x, n - 1) * 2
  }

  /** `cmove_bits`: the shift to the left is cut to the eight bits of an unsigned char. */
  function CMoveBits(src: byte, lnum: nat, rnum: nat): byte {
    ShiftRight(ShiftLeft(src, lnum) % 256, rnum)
  }

  lemma {:induction false} Shifts(x: nat)
    ensures ShiftLeft(x, 0) == x && ShiftLeft(x, 4) == 16 * x && ShiftLeft(x, 6) == 64 * x
    ensures ShiftRight(x, 2) == x / 4 && ShiftRight(x, 4) == x / 16 && ShiftRight(x, 6) == x / 64
  {
    ShiftsRight(x, 0);
    assert ShiftLeft(x, 1) == 2 * x;
    assert ShiftLeft(x, 2) == 4 * x;
    assert ShiftLeft(x, 3) == 8 * x;
    assert ShiftLeft(x, 4) == 16 * x;
    assert ShiftLeft(x, 5) == 32 * x;
  }

  /** What `cmove_bits` picks out of a byte. */
  lemma {:induction false} MovedBits(b: byte)
    ensures CMoveBits(b, 6, 2) == b % 4 * 16 && CMoveBits(b, 0, 4) == b / 16
    ensures CMoveBits(b, 4, 2) == b % 16 * 4 && CMoveBits(b, 0, 6) == b / 64
  {
    hide ShiftLeft, ShiftRight;
    Shifts(b);
    Shifts(64 * b % 256);
    Shifts(16 * b % 256);
    CutShifts(b);
  }

  lemma {:induction false} CutShifts(b: byte)
    ensures 64 * b % 256 == 64 * (b % 4) && 64 * b % 256 / 4 == b % 4 * 16
    ensures 16 * b % 256 == 16 * (b % 16) && 16 * b % 256 / 4 == b % 16 * 4
  {
    var c, d := b % 4, b % 16;
    assert b == 4 * (b / 4) + c && b == 16 * (b / 16) + d;
    QuotientIs(64 * b, 256, b / 4, 64 * c);
    QuotientIs(64 * c, 4, 16 * c, 0);
    QuotientIs(16 * b, 256, b / 16, 16 * d);
    QuotientIs(16 * d, 4, 4 * d, 0);
  }

  /** The shifts of the encoder pick the digits out of three bytes. */
  lemma {:induction false} ShiftedDigits(a: byte, b: byte, c: byte)
    ensures a / 4 == Digit(Group(a, b, c), 0)
    ensures CMoveBits(a, 6, 2) + CMoveBits(b, 0, 4) == Digit(Group(a, b, c), 1)
    ensures CMoveBits(b, 4, 2) + CMoveBits(c, 0, 6) == Digit(Group(a, b, c), 2)
    ensures c % 64 == Digit(Group(a, b, c), 3)
  {
    MovedBits(a);
    MovedBits(b);
    MovedBits(c);
    hide CMoveBits;
    DigitsOfBytes(a, b, c);
  }

  lemma {:induction false} DigitsOfBytes(a: byte, b: byte, c: byte)
    ensures Digit(Group(a, b, c), 0) == a / 4 && Digit(Group(a, b, c), 1) == a % 4 * 16 + b / 16
    ensures Digit(Group(a, b, c), 2) == b % 16 * 4 + c / 64 && Digit(Group(a, b, c), 3) == c % 64
  {
    DigitsAre(Group(a, b, c));
    GroupParts(a, b, c);
    hide Digit, Group;
  }

  lemma {:induction false} GroupParts(a: byte, b: byte, c: byte)
    ensures var n := Group(a, b, c);
            && n / 262144 == a / 4 && n / 4096 % 64 == a % 4 * 16 + b / 16
            && n / 64 % 64 == b % 16 * 4 + c / 64 && n % 64 == c % 64
  {
    var n, x, y, z := Group(a, b, c), a % 4, b % 16, c % 64;
    var d, e, f := a / 4, b / 16, c / 64;
    assert a == 4 * d + x && b == 16 * e + y && c == 64 * f + z;
    QuotientIs(n, 64, a * 1024 + b * 4 + f, z);
    QuotientIs(a * 1024 + b * 4 + f, 64, a * 16 + e, y * 4 + f);
    QuotientIs(n, 4096, a * 16 + e, y * 256 + c);
    QuotientIs(a * 16 + e, 64, d, x * 16 + e);
    QuotientIs(n, 262144, d, x * 65536 + b * 256 + c);
  }

  /** A group of three bytes begins at `i`. */
  predicate GroupStart(i: nat) {
    i % 3 == 0
  }

  /** What has been written when the groups before `i` are done. */
  function EncodedSoFar(s: seq<byte>, i: nat): string
    requires GroupStart(i)
  {
    if i <= |s| then EncodeGroups(s[..i]) else Encode(s)
  }

  /** The characters of the group at `i`. */
  function NextQuad(s: seq<byte>, i: nat): (q: string)
    requires i < |s|
    ensures |q| == 4
  {
    if i + 3 <= |s| then Quad(Group(s[i], s[i + 1], s[i + 2])) else EncodeTail(s[i..])
  }

  lemma {:induction false} EncodedStep(s: seq<byte>, i: nat)
    requires GroupStart(i) && i < |s|
    ensures GroupStart(i + 3)
    ensures EncodedSoFar(s, i + 3) == EncodedSoFar(s, i) + NextQuad(s, i)
    ensures i + 3 >= |s| ==> EncodedSoFar(s, i + 3) == Encode(s)
  {
    hide Quad, Group, EncodeTail, EncodeGroups;
    if i + 3 <= |s| {
      assert s[..i + 3] == s[..i] + [s[i], s[i + 1], s[i + 2]];
      EncodeGroupsSnoc(s[..i], s[i], s[i + 1], s[i + 2]);
      if i + 3 == |s| {
        EncodeNothing();
        EncodeParts(s, []);
        assert s + [] == s && s[..i + 3] == s && EncodeGroups(s) + [] == EncodeGroups(s);
      }
    } else {
      EncodeParts(s[..i], s[i..]);
      assert s == s[..i] + s[i..];
    }
  }

  /** The characters of a group, shift by shift. */
  lemma {:induction false} NextQuadShifts(s: seq<byte>, i: nat, signedChar: bool)
    requires GroupStart(i) && i < |s| && Encodable(s, signedChar)
    ensures var q := NextQuad(s, i);
            && 0 <= AlphabetIndex(s[i], signedChar) < 64 && q[0] == Alphabet(AlphabetIndex(s[i], signedChar))
            && var b: byte := if i + 1 < |s| then s[i + 1] else 0;
               var c: byte := if i + 2 < |s| then s[i + 2] else 0;
               && 0 <= CMoveBits(s[i], 6, 2) + CMoveBits(b, 0, 4) < 64
               && 0 <= CMoveBits(b, 4, 2) + CMoveBits(c, 0, 6) < 64
               && CMoveBits(0, 0, 4) == 0 && CMoveBits(0, 0, 6) == 0
               && q[1] == Alphabet(CMoveBits(s[i], 6, 2) + CMoveBits(b, 0, 4))
               && q[2] == (if i + 1 < |s| then Alphabet(CMoveBits(b, 4, 2) + CMoveBits(c, 0, 6)) else PAD)
               && q[3] == (if i + 2 < |s| then Alphabet(c % 64) else PAD)
  {
    hide Alphabet, AlphabetIndex, Digit, Group, CMoveBits;
    AlphabetIndexInTableIff(s[i], signedChar);
    var b: byte := if i + 1 < |s| then s[i + 1] else 0;
    var c: byte := if i + 2 < |s| then s[i + 2] else 0;
    ShiftedDigits(s[i], b, c);
    MovedBits(0);
  }

  /** How many bytes are missing from the last group. */
  function PadNum(inlen: nat): nat {
    if inlen % 3 != 0 then 3 - inlen % 3 else 0
  }

  /** One turn of the encoder's loop. */
  method EncodeTurn(signedChar: bool, indata: array<byte>, inlen: nat, i: nat, padNum: nat,
                    outdata: array<char>, p: nat, ghost limit: nat)
    requires inlen <= indata.Length && GroupStart(i) && i < inlen && p + 4 <= limit <= outdata.Length
    requires Encodable(indata[..inlen], signedChar)
    requires padNum < 3 && (i == inlen + padNum - 3 || i + 3 <= inlen)
    modifies outdata
    ensures outdata[..p + 4] == old(outdata[..p]) + NextQuad(indata[..inlen], i)
    ensures outdata[limit..] == old(outdata[limit..])
  {
    ghost var s := indata[..inlen];
    ghost var q := NextQuad(s, i);
    NextQuadShifts(s, i, signedChar);
    hide Alphabet, AlphabetIndex, GroupStart, NextQuad, CMoveBits, Encodable;
    outdata[p] := Alphabet(AlphabetIndex(indata[i], signedChar));
    if i == inlen + padNum - 3 && padNum != 0 {
      if padNum == 1 {
        outdata[p + 1] := Alphabet(CMoveBits(indata[i], 6, 2) + CMoveBits(indata[i + 1], 0, 4));
        outdata[p + 2] := Alphabet(CMoveBits(indata[i + 1], 4, 2));
        outdata[p + 3] := PAD;
      } else if padNum == 2 {
        outdata[p + 1] := Alphabet(CMoveBits(indata[i], 6, 2));
        outdata[p + 2] := PAD;
        outdata[p + 3] := PAD;
      }
    } else {
      outdata[p + 1] := Alphabet(CMoveBits(indata[i], 6, 2) + CMoveBits(indata[i + 1], 0, 4));
      outdata[p + 2] := Alphabet(CMoveBits(indata[i + 1], 4, 2) + CMoveBits(indata[i + 2], 0, 6));
      outdata[p + 3] := Alphabet(indata[i + 2] % 64);
    }
    assert outdata[p] == q[0] && outdata[p + 1] == q[1] && outdata[p + 2] == q[2] && outdata[p + 3] == q[3];
  }

  /** The encoder's loop, which takes `n` turns. */
  method EncodeLoop(signedChar: bool, indata: array<byte>, inlen: nat, padNum: nat, outdata: array<char>, ghost n: nat)
    requires inlen <= indata.Length && Encodable(indata[..inlen], signedChar)
    requires inlen > 0 && padNum < 3 && inlen + padNum == 3 * n && 4 * n <= outdata.Length
    modifies outdata
    ensures outdata[..4 * n] == Encode(indata[..inlen])
    ensures outdata[4 * n..] == old(outdata[4 * n..])
  {
    hide *;
    var inLen := inlen + padNum;
    ghost var s := indata[..inlen];
    EncodedNothingYet(s);
    var p, i := 0, 0;
    while i < inLen
      invariant 0 <= p <= 4 * n && 4 * i == 3 * p && i <= inLen
      invariant GroupStart(i)
      invariant outdata[..p] == EncodedSoFar(s, i)
      invariant i >= inLen ==> EncodedSoFar(s, i) == Encode(s)
      invariant outdata[4 * n..] == old(outdata[4 * n..])
      decreases inLen - i
    {
      GroupFits(i, p, inlen, padNum, n);
      EncodeTurn(signedChar, indata, inlen, i, padNum, outdata, p, 4 * n);
      EncodedStep(s, i);
      p := p + 4;
      i := i + 3;
    }
  }

  /** A turn has data to read and room to write. */
  lemma {:induction false} GroupFits(i: nat, p: nat, inlen: nat, padNum: nat, n: nat)
    requires GroupStart(i) && 4 * i == 3 * p && padNum < 3 && inlen + padNum == 3 * n && i < inlen + padNum
    ensures i < inlen && p + 4 <= 4 * n && (i == inlen + padNum - 3 || i + 3 <= inlen) && i + 3 <= inlen + padNum
  {
  }

  /** `base64_encode`.  Without data nothing is written; otherwise exactly the encoding is. */
  method Base64Encode(signedChar: bool, indata: array?<byte>, inlen: nat, outdata: array<char>) returns (ret: int)
    requires indata != null ==>
               && inlen <= indata.Length && Encodable(indata[..inlen], signedChar)
               && EncodedLength(inlen) <= outdata.Length
    modifies outdata
    ensures indata == null || inlen == 0 ==> ret == -1 && outdata[..] == old(outdata[..])
    ensures indata != null && inlen > 0 ==>
              && ret == 0
              && outdata[..EncodedLength(inlen)] == Encode(indata[..inlen])
              && outdata[EncodedLength(inlen)..] == old(outdata[EncodedLength(inlen)..])
  {
    ret := 0;
    if indata == null || inlen == 0 {
      ret := -1;
      return;
    }
    hide *;
    var padNum := PadNum(inlen);
    ghost var n := Groups(inlen);
    EncodeLoop(signedChar, indata, inlen, padNum, outdata, n);
  }

  lemma {:induction false} EncodedNothingYet(s: seq<byte>)
    ensures GroupStart(0) && EncodedSoFar(s, 0) == []
  {
  }

  /** The number of turns of the encoder's loop. */
  lemma {:induction false} Groups(inlen: nat) returns (n: nat)
    requires inlen > 0
    ensures PadNum(inlen) < 3 && n > 0 && inlen + PadNum(inlen) == 3 * n && EncodedLength(inlen) == 4 * n
  {
    n := (inlen + PadNum(inlen)) / 3;
  }
}
