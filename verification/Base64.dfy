/** The Base64 codec: section 4 of RFC 4648 for encoding, with the canonical padding of
    section 3.5, and the character-driven state machine that decodes.

    Plain data are bytes; encoded data are C strings of characters.  Shifts of unsigned values
    are written as multiplication and division by powers of two. */
module Base64 {
  import opened Arithmetic

  type byte = x: int | 0 <= x < 256

  const PAD := '='
  const SKIPPED := 253   // what the table holds for line feed, carriage return and space
  const PADDING := 254   // what it holds for '='
  const UNKNOWN := 255   // what it holds for every other character outside the alphabet

  /** `base64_alphabet`. */
  function Alphabet(v: int): (c: char)
    requires 0 <= v < 64
  {
    if v < 26 then ('A' as int + v) as char
    else if v < 52 then ('a' as int + (v - 26)) as char
    else if v < 62 then ('0' as int + (v - 52)) as char
    else if v == 62 then '+'
    else '/'
  }

  /** `base64_suffix_map`. */
  function SuffixMap(c: char): (v: int)
    ensures 0 <= v < 64 || v == SKIPPED || v == PADDING || v == UNKNOWN
  {
    if c == '\n' || c == '\r' || c == ' ' then SKIPPED
    else if c == PAD then PADDING
    else if 'A' <= c <= 'Z' then c as int - 'A' as int
    else if 'a' <= c <= 'z' then c as int - 'a' as int + 26
    else if '0' <= c <= '9' then c as int - '0' as int + 52
    else if c == '+' then 62
    else if c == '/' then 63
    else UNKNOWN
  }

  /** The two tables are inverse to each other. */
  lemma {:induction false} TablesInverse(v: int, c: char)
    ensures 0 <= v < 64 ==> SuffixMap(Alphabet(v)) == v
    ensures 0 <= SuffixMap(c) < 64 ==> Alphabet(SuffixMap(c)) == c
  {
  }

  // ------------------------------------------------------------ encoding

  /** The 24 bits of a group of three bytes. */
  function Group(a: byte, b: byte, c: byte): (n: int)
    ensures 0 <= n < 0x1000000
  {
    a * 65536 + b * 256 + c
  }

  /** Shifting an unsigned number to the right. */
  function ShiftRight(x: nat, n: nat): (y: nat)
    ensures y <= x
  {
    if n == 0 then x else ShiftRight(x, n - 1) / 2
  }

  /** Six bits at a time. */
  lemma {:induction false} ShiftsRight(x: nat, n: nat)
    ensures ShiftRight(x, n + 2) == ShiftRight(x, n) / 4 && ShiftRight(x, n + 4) == ShiftRight(x, n) / 16
    ensures ShiftRight(x, n + 6) == ShiftRight(x, n) / 64
  {
    assert ShiftRight(x, n + 1) == ShiftRight(x, n) / 2;
    assert ShiftRight(x, n + 2) == ShiftRight(x, n) / 4;
    assert ShiftRight(x, n + 3) == ShiftRight(x, n) / 8;
    assert ShiftRight(x, n + 4) == ShiftRight(x, n) / 16;
    assert ShiftRight(x, n + 5) == ShiftRight(x, n) / 32;
  }

  /** The 6-bit digits of 24 bits, from the left. */
  function Digit(n: int, i: nat): (d: int)
    requires 0 <= n < 0x1000000 && i < 4
    ensures 0 <= d < 64
  {
    ShiftRight(n, 6 * (3 - i)) % 64
  }

  lemma {:induction false} DigitsAre(n: int)
    requires 0 <= n < 0x1000000
    ensures Digit(n, 3) == n % 64 && Digit(n, 2) == n / 64 % 64
    ensures Digit(n, 1) == n / 4096 % 64 && Digit(n, 0) == n / 262144
  {
    assert ShiftRight(n, 0) == n;
    ShiftsRight(n, 0);
    ShiftsRight(n, 6);
    ShiftsRight(n, 12);
    hide ShiftRight;
    Quotients(n);
  }

  lemma {:induction false} Quotients(n: int)
    requires 0 <= n < 0x1000000
    ensures n / 64 / 64 == n / 4096 && n / 4096 / 64 == n / 262144 && 0 <= n / 262144 < 64
  {
    var p, q := n / 64, n / 64 / 64;
    var r := q / 64;
    assert n == 64 * p + n % 64 && p == 64 * q + p % 64 && q == 64 * r + q % 64;
    QuotientIs(n, 4096, q, 64 * (p % 64) + n % 64);
    QuotientIs(n, 262144, r, 4096 * (q % 64) + 64 * (p % 64) + n % 64);
  }

  /** The bytes of 24 bits, from the left. */
  function ByteOf(n: int, i: nat): byte
    requires i < 3
  {
    if i == 0 then n / 65536 % 256 else if i == 1 then n / 256 % 256 else n % 256
  }

  /** The four digits of a group as characters. */
  function Quad(n: int): (q: string)
    requires 0 <= n < 0x1000000
    ensures |q| == 4
  {
    [Alphabet(Digit(n, 0)), Alphabet(Digit(n, 1)), Alphabet(Digit(n, 2)), Alphabet(Digit(n, 3))]
  }

  function EncodeGroups(s: seq<byte>): (e: string)
    requires |s| % 3 == 0
    ensures |e| == |s| / 3 * 4
  {
    if s == [] then []
    else
      var m := |s| - 3;
      EncodeGroups(s[..m]) + Quad(Group(s[m], s[m + 1], s[m + 2]))
  }

  /** The last one or two bytes: the missing bits are zero, the missing characters are '='. */
  function EncodeTail(s: seq<byte>): (e: string)
    requires |s| < 3
    ensures |e| == if s == [] then 0 else 4
  {
    if |s| == 0 then []
    else if |s| == 1 then Quad(Group(s[0], 0, 0))[..2] + [PAD, PAD]
    else Quad(Group(s[0], s[1], 0))[..3] + [PAD]
  }

  function EncodedLength(n: nat): nat {
    4 * ((n + 2) / 3)
  }

  /** The length of the full groups of `n` bytes. */
  function FullLength(n: nat): (m: nat)
    ensures m <= n < m + 3 && m % 3 == 0
    ensures EncodedLength(n) == m / 3 * 4 + if n == m then 0 else 4
  {
    n / 3 * 3
  }

  lemma {:induction false} EncodedLengthIsQuads(n: nat)
    ensures EncodedLength(n) % 4 == 0 && (n > 0 ==> EncodedLength(n) >= 4)
  {
  }

  /** The encoding of section 4 of RFC 4648. */
  function Encode(s: seq<byte>): (e: string)
    ensures |e| == EncodedLength(|s|)
  {
    var m := FullLength(|s|);
    EncodeGroups(s[..m]) + EncodeTail(s[m..])
  }

  // ------------------------------------------------------------ decoding

  /** The characters before the first one the table does not know. */
  function KnownPrefix(e: string): (k: string)
    ensures |k| <= |e| && k == e[..|k|]
    ensures forall i :: 0 <= i < |k| ==> SuffixMap(k[i]) != UNKNOWN
    ensures |k| < |e| ==> SuffixMap(e[|k|]) == UNKNOWN
  {
    if e == [] || SuffixMap(e[0]) == UNKNOWN then []
    else
      var k := KnownPrefix(e[1..]);
      assert e[..1 + |k|] == [e[0]] + e[1..][..|k|];
      [e[0]] + k
  }

  /** The table values of the characters that are not skipped. */
  function Symbols(e: string): (v: seq<int>)
    ensures |v| <= |e|
    ensures forall i :: 0 <= i < |v| ==> v[i] != SKIPPED
  {
    if e == [] then []
    else
      var m := |e| - 1;
      Symbols(e[..m]) + (if SuffixMap(e[m]) == SKIPPED then [] else [SuffixMap(e[m])])
  }

  function Pads(v: seq<int>): nat {
    if v == [] then 0
    else
      var m := |v| - 1;
      Pads(v[..m]) + (if v[m] == PADDING then 1 else 0)
  }

  function Bits(v: int): int {
    if v == PADDING then 0 else v
  }

  /** The number with the given base-64 digits. */
  function Value(v: seq<int>): int {
    if v == [] then 0
    else
      var m := |v| - 1;
      Value(v[..m]) * 64 + Bits(v[m])
  }

  /** What one completed quad writes when `pads` paddings have been seen so far. */
  function QuadBytes(t: int, pads: nat): (b: seq<byte>)
    ensures 1 <= |b| <= 3
    ensures |b| == if pads == 0 then 3 else if pads == 1 then 2 else 1
  {
    [ByteOf(t, 0)] + (if pads <= 1 then [ByteOf(t, 1)] else []) + (if pads == 0 then [ByteOf(t, 2)] else [])
  }

  /** What the completed quads write. */
  function Decoded(v: seq<int>): (b: seq<byte>)
    decreases |v|
  {
    if v == [] then []
    else if |v| % 4 != 0 then Decoded(v[..|v| - 1])
    else
      var m := |v| - 4;
      Decoded(v[..m]) + QuadBytes(Value(v[m..]), Pads(v))
  }

  /** The bytes `base64_decode` writes for the text `e`. */
  function DecodedBytes(e: string): seq<byte> {
    Decoded(Symbols(KnownPrefix(e)))
  }

  /** The value `base64_decode` returns. */
  function DecodeResult(e: string, inlen: int): int {
    if inlen <= 0 then -1
    else if inlen % 4 != 0 then -2
    else if KnownPrefix(e) != e then -1
    else |DecodedBytes(e)|
  }

  /** The bytes it writes, if its arguments are accepted. */
  function DecodeOutput(e: string, inlen: int): seq<byte> {
    if inlen <= 0 || inlen % 4 != 0 then [] else DecodedBytes(e)
  }
}
