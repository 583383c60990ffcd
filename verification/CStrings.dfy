/** C strings: character buffers whose text ends before the first NUL.  The library calls
    `strcpy`, `strncpy` and `strncat` are written out as loops over such buffers; `strlen` and
    `strstr` are functions of the text.  On top of them stand `_count_string` and `_replace_str`. */
module CStrings {
  import opened Words

  const NUL := '\0'

  /** The text at the front of a buffer. */
  function CText(s: seq<char>): (t: string)
    requires NUL in s
    ensures |t| < |s| && s[..|t|] == t && s[|t|] == NUL && NUL !in t
    ensures s[|t|] as int == 0
  {
    if s[0] == NUL then [] else [s[0]] + CText(s[1..])
  }

  lemma {:induction false} CTextIs(s: seq<char>, t: string)
    requires |t| < |s| && s[..|t|] == t && s[|t|] == NUL && NUL !in t
    ensures CText(s) == t
  {
    if t != [] {
      assert s[0] == t[0];
      assert s[1..][..|t[1..]|] == t[1..];
      CTextIs(s[1..], t[1..]);
    }
  }

  /** `strstr(text + pos, key)` as an offset into the text; -1 stands for NULL. */
  function Strstr(text: string, key: string, pos: nat): (r: int)
    requires pos <= |text|
    ensures r == -1 || pos <= r <= |text| - |key|
  {
    var k := FirstMatch(text[pos..], key);
    if k < 0 then -1 else pos + k
  }

  /** The text behind the match found at `e` by a search from `pos`. */
  lemma {:induction false} StrstrRest(text: string, a: string, pos: nat, e: int, rest: string)
    requires pos <= |text| && rest == text[pos..]
    requires e == Strstr(text, a, pos) && e >= 0
    ensures e - pos == FirstMatch(rest, a)
    ensures text[pos..e] == rest[..e - pos] && text[e + |a|..] == rest[e - pos + |a|..]
  {
  }

  /** `strncpy(dst + at, src + from, n)` for `n` characters of text, which adds no NUL. */
  method StrNCpy(dst: array<char>, at: nat, src: array<char>, from: nat, n: nat)
    requires dst != src
    requires from + n <= src.Length && at + n <= dst.Length
    modifies dst
    ensures dst[..at + n] == old(dst[..at]) + src[from..from + n]
    ensures dst[at + n..] == old(dst[at + n..])
  {
    var i := 0;
    while i < n
      invariant i <= n
      invariant dst[..at + i] == old(dst[..at]) + src[from..from + i]
      invariant dst[at + i..] == old(dst[at + i..])
    {
      dst[at + i] := src[from + i];
      i := i + 1;
    }
  }

  /** `strcpy(dst + at, src + from)`: the text and its NUL. */
  method StrCpy(dst: array<char>, at: nat, src: array<char>, from: nat)
    requires dst != src
    requires NUL in src[..] && from <= |CText(src[..])|
    requires at + |CText(src[..])[from..]| < dst.Length
    modifies dst
    ensures var t := CText(src[..])[from..];
            && dst[..at + |t|] == old(dst[..at]) + t
            && dst[at + |t|] == NUL
            && dst[at + |t| + 1..] == old(dst[at + |t| + 1..])
    ensures NUL in dst[..]
    ensures NUL !in old(dst[..at]) ==> CText(dst[..]) == old(dst[..at]) + CText(src[..])[from..]
  {
    var n := |CText(src[..])| - from;
    StrNCpy(dst, at, src, from, n);
    assert src[from..from + n] == CText(src[..])[from..];
    dst[at + n] := NUL;
    if NUL !in old(dst[..at]) {
      CTextIs(dst[..], dst[..at + n]);
    }
  }

  /** The rounds of a search-and-replace loop: `tails[n]` is what round `n` searches, and
      `done[n]` is what is written before it. */
  datatype Rounds = Rounds(tails: seq<string>, done: seq<string>, count: nat) {

    /** Round `n` copies the piece before the match, writes `b`, and goes on behind the match. */
    ghost predicate Round(a: string, b: string, n: nat)
      requires n < count && |tails| == |done| == count + 1
    {
      var k := FirstMatch(tails[n], a);
      && k >= 0
      && tails[n + 1] == tails[n][k + |a|..]
      && done[n + 1] == done[n] + tails[n][..k] + b
    }

    /** All rounds go from `(written, text)` to a text without a match, never writing past `limit`. */
    ghost predicate Lead(written: string, text: string, a: string, b: string, limit: nat) {
      && |tails| == |done| == count + 1
      && tails[0] == text && done[0] == written
      && (forall n: nat :: n < count ==> Round(a, b, n))
      && FirstMatch(tails[count], a) < 0
      && (forall n: nat :: n <= count ==> |done[n]| <= limit)
    }
  }

  /** The rounds produce what `Replace` and `Count` say. */
  lemma {:induction false} AllRounds(written: string, text: string, a: string, b: string) returns (t: Rounds)
    requires a != []
    ensures t.count == Count(text, a)
    ensures t.Lead(written, text, a, b, |written + Replace(text, a, b)|)
    ensures t.done[t.count] + t.tails[t.count] == written + Replace(text, a, b)
    decreases |text|
  {
    var k := FirstMatch(text, a);
    if k < 0 {
      t := Rounds([text], [written], 0);
    } else {
      var rest := text[k + |a|..];
      assert Replace(text, a, b) == text[..k] + b + Replace(rest, a, b) && Count(text, a) == 1 + Count(rest, a);
      hide *;
      var u := AllRounds(written + text[..k] + b, rest, a, b);
      t := Rounds([text] + u.tails, [written] + u.done, u.count + 1);
      Associate(written, text[..k], b, Replace(rest, a, b));
      LeadFromFirst(written, text, a, b, t, u, |written + Replace(text, a, b)|);
    }
  }

  lemma {:induction false} LeadFromFirst(written: string, text: string, a: string, b: string,
                                         t: Rounds, u: Rounds, limit: nat)
    requires FirstMatch(text, a) >= 0
    requires u.Lead(written + text[..FirstMatch(text, a)] + b, text[FirstMatch(text, a) + |a|..], a, b, limit)
    requires t == Rounds([text] + u.tails, [written] + u.done, u.count + 1)
    ensures t.Lead(written, text, a, b, limit)
  {
    assert u.done[0] == t.done[1] && |t.done[0]| <= limit;
    forall n: nat | n < t.count ensures t.Round(a, b, n) {
      if n > 0 {
        assert u.Round(a, b, n - 1);
        assert t.tails[n] == u.tails[n - 1] && t.tails[n + 1] == u.tails[n];
      }
    }
    forall n: nat | n <= t.count ensures |t.done[n]| <= limit {
      if n > 0 { assert t.done[n] == u.done[n - 1]; }
    }
  }

  lemma {:induction false} RoundsOf(text: string, a: string, b: string) returns (t: Rounds)
    requires a != []
    ensures t.count == Count(text, a)
    ensures t.Lead([], text, a, b, |Replace(text, a, b)|)
    ensures t.done[t.count] + t.tails[t.count] == Replace(text, a, b)
  {
    assert [] + Replace(text, a, b) == Replace(text, a, b);
    t := AllRounds([], text, a, b);
  }

  /** The loop goes through the rounds: a search that finds something begins a round, and the search
      that finds nothing ends them. */
  lemma {:induction false} RoundAt(t: Rounds, text: string, a: string, b: string, limit: nat, n: nat, pos: nat, e: int)
    requires t.Lead([], text, a, b, limit) && n <= t.count
    requires pos <= |text| && t.tails[n] == text[pos..] && e == Strstr(text, a, pos)
    ensures e < 0 ==> n == t.count
    ensures e >= 0 ==>
              && n < t.count && pos <= e && e + |a| <= |text|
              && t.tails[n + 1] == text[e + |a|..]
              && t.done[n + 1] == t.done[n] + t.tails[n][..e - pos] + b
              && |t.done[n]| + (e - pos) + |b| <= limit
  {
    hide FirstMatch;
    if e >= 0 {
      StrstrRest(text, a, pos, e, t.tails[n]);
      assert n < t.count;
      assert t.Round(a, b, n);
      assert |t.done[n + 1]| <= limit;
    } else {
      assert n < t.count ==> t.Round(a, b, n);
    }
  }

  /** `_count_string`. */
  method CountString(data: array<char>, key: array<char>) returns (count: nat)
    requires NUL in data[..] && NUL in key[..]
    requires CText(key[..]) != []
    ensures count == Count(CText(data[..]), CText(key[..]))
  {
    hide FirstMatch, Replace, Count, CText, Strstr;
    count := 0;
    var text, pattern := CText(data[..]), CText(key[..]);
    var klen := |pattern|;
    ghost var t := RoundsOf(text, pattern, []);
    var posStart := 0;
    var posEnd := Strstr(text, pattern, posStart);
    while posEnd >= 0
      invariant posStart <= |text| && count <= t.count && t.tails[count] == text[posStart..]
      invariant posEnd == Strstr(text, pattern, posStart)
      decreases |text| - posStart
    {
      RoundAt(t, text, pattern, [], |Replace(text, pattern, [])|, count, posStart, posEnd);
      posStart := posEnd + klen;
      count := count + 1;
      posEnd := Strstr(text, pattern, posStart);
    }
    RoundAt(t, text, pattern, [], |Replace(text, pattern, [])|, count, posStart, posEnd);
  }

  /** `_replace_str`.  The buffer holds the rewritten text and its NUL, and nothing behind that
      is touched; the loop runs once for each counted match. */
  method ReplaceStr(newBuf: array<char>, data: array<char>, rep: array<char>, to: array<char>)
    returns (ghost rounds: nat)
    requires newBuf != data && newBuf != rep && newBuf != to
    requires NUL in data[..] && NUL in rep[..] && NUL in to[..]
    requires CText(rep[..]) != []
    requires |Replace(CText(data[..]), CText(rep[..]), CText(to[..]))| < newBuf.Length
    modifies newBuf
    ensures NUL in newBuf[..]
    ensures CText(newBuf[..]) == Replace(CText(data[..]), CText(rep[..]), CText(to[..]))
    ensures var n := |Replace(CText(data[..]), CText(rep[..]), CText(to[..]))| + 1;
            newBuf[n..] == old(newBuf[n..])
    ensures rounds == Count(CText(data[..]), CText(rep[..]))
  {
    hide FirstMatch, Replace, Count, CText, Strstr;
    var text, a, b := CText(data[..]), CText(rep[..]), CText(to[..]);
    var repLen, toLen := |a|, |b|;
    ghost var r := Replace(text, a, b);
    NoNulAfterReplace(text, a, b);
    ghost var t := RoundsOf(text, a, b);
    var counts := CountString(data, rep);
    rounds := 0;
    if counts == 0 {
      StrCpy(newBuf, 0, data, 0);
      return;
    }
    var posStart, pbuf := 0, 0;
    var posEnd := Strstr(text, a, posStart);
    while posEnd >= 0
      invariant posStart <= |text| && rounds <= t.count && t.tails[rounds] == text[posStart..]
      invariant posEnd == Strstr(text, a, posStart)
      invariant 0 <= pbuf <= newBuf.Length && newBuf[..pbuf] == t.done[rounds]
      invariant newBuf[|r| + 1..] == old(newBuf[|r| + 1..])
      decreases |text| - posStart
    {
      RoundAt(t, text, a, b, |r|, rounds, posStart, posEnd);
      var copyLen := posEnd - posStart;
      CopyRound(newBuf, pbuf, data, posStart, copyLen, to, |r| + 1, t.tails[rounds][..copyLen], b);
      pbuf := pbuf + copyLen + toLen;
      posStart := posEnd + repLen;
      posEnd := Strstr(text, a, posStart);
      rounds := rounds + 1;
    }
    RoundAt(t, text, a, b, |r|, rounds, posStart, posEnd);
    assert t.done[rounds] + text[posStart..] == r;
    StrCpy(newBuf, pbuf, data, posStart);
  }

  lemma {:induction false} NoNulAfterReplace(s: string, a: string, b: string)
    requires a != [] && NUL !in s && NUL !in b
    ensures NUL !in Replace(s, a, b)
    decreases |s|
  {
    var k := FirstMatch(s, a);
    if k >= 0 {
      var u, v := s[..k], s[k + |a|..];
      assert s == u + a + v;
      ReplaceAtMatch(u, a, v, b);
      NoNulAfterReplace(v, a, b);
    }
  }

  /** The copying of one round: the piece before the match, then the new word. */
  method CopyRound(newBuf: array<char>, pbuf: nat, data: array<char>, posStart: nat, copyLen: nat,
                   to: array<char>, ghost limit: nat, ghost piece: string, ghost word: string)
    requires newBuf != data && newBuf != to
    requires NUL in data[..] && posStart + copyLen <= |CText(data[..])|
    requires piece == CText(data[..])[posStart..posStart + copyLen]
    requires NUL in to[..] && word == CText(to[..])
    requires pbuf + copyLen + |word| < limit <= newBuf.Length
    modifies newBuf
    ensures newBuf[..pbuf + copyLen + |word|] == old(newBuf[..pbuf]) + piece + word
    ensures newBuf[limit..] == old(newBuf[limit..])
  {
    hide *;
    StrNCpy(newBuf, pbuf, data, posStart, copyLen);
    assert newBuf[..][limit..] == old(newBuf[limit..]);
    assert data[posStart..posStart + copyLen] == piece;
    StrCpy(newBuf, pbuf + copyLen, to, 0);
    assert word[0..] == word;
  }
}
