/** The two tables of the codec as they are written down, and the agreement of the range
    definitions in `Base64` with every entry. */
module Base64Tables {
  import opened Base64

  /** Row `r` of `base64_alphabet` and the number of its first entry. */
  function AlphabetRow(r: nat): (int, string)
    requires r < 10
  {
    match r
    case 0 => (0, "ABCDEFG")
    case 1 => (7, "HIJKLMN")
    case 2 => (14, "OPQRST")
    case 3 => (20, "UVWXYZ")
    case 4 => (26, "abcdefg")
    case 5 => (33, "hijklmn")
    case 6 => (40, "opqrst")
    case 7 => (46, "uvwxyz")
    case 8 => (52, "0123456789")
    case _ => (62, "+/")
  }

  /** Row `r` of `base64_suffix_map`, twelve entries a row. */
  function SuffixRow(r: nat): seq<int>
    requires r < 22
  {
    match r
    case 0 => [255, 255, 255, 255, 255, 255, 255, 255, 255, 255, 253, 255]
    case 1 => [255, 253, 255, 255, 255, 255, 255, 255, 255, 255, 255, 255]
    case 2 => [255, 255, 255, 255, 255, 255, 255, 255, 253, 255, 255, 255]
    case 3 => [255, 255, 255, 255, 255, 255, 255, 62, 255, 255, 255, 63]
    case 4 => [52, 53, 54, 55, 56, 57, 58, 59, 60, 61, 255, 255]
    case 5 => [255, 254, 255, 255, 255, 0, 1, 2, 3, 4, 5, 6]
    case 6 => [7, 8, 9, 10, 11, 12, 13, 14, 15, 16, 17, 18]
    case 7 => [19, 20, 21, 22, 23, 24, 25, 255, 255, 255, 255, 255]
    case 8 => [255, 26, 27, 28, 29, 30, 31, 32, 33, 34, 35, 36]
    case 9 => [37, 38, 39, 40, 41, 42, 43, 44, 45, 46, 47, 48]
    case 10 => [49, 50, 51, 255, 255, 255, 255, 255, 255, 255, 255, 255]
    case _ => if r < 21 then [255, 255, 255, 255, 255, 255, 255, 255, 255, 255, 255, 255] else [255, 255, 255, 255]
  }

  /** Every entry of the encoding table; each row begins where the row before ends. */
  lemma {:induction false} AlphabetIsTable(r: nat, k: nat)
    requires r < 10 && k < |AlphabetRow(r).1|
    ensures 0 <= AlphabetRow(r).0 + k < 64 && AlphabetRow(r).1[k] == Alphabet(AlphabetRow(r).0 + k)
    ensures AlphabetRow(r).0 + |AlphabetRow(r).1| == if r < 9 then AlphabetRow(r + 1).0 else 64
  {
  }

  /** Every entry of the decoding table. */
  lemma {:induction false} SuffixMapIsTable(c: nat)
    requires c < 256
    ensures c % 12 < |SuffixRow(c / 12)| && SuffixRow(c / 12)[c % 12] == SuffixMap(c as char)
  {
    if c / 12 < 6 {
      UpperRows(c / 12, c % 12);
    } else if c / 12 < 11 {
      LowerRows(c / 12, c % 12);
    }
  }

  lemma {:induction false} UpperRows(r: nat, k: nat)
    requires r < 6 && k < 12
    ensures |SuffixRow(r)| == 12 && SuffixRow(r)[k] == SuffixMap((12 * r + k) as char)
  {
  }

  lemma {:induction false} LowerRows(r: nat, k: nat)
    requires 6 <= r < 11 && k < 12
    ensures |SuffixRow(r)| == 12 && SuffixRow(r)[k] == SuffixMap((12 * r + k) as char)
  {
  }
}
