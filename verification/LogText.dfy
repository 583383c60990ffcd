/** The text of a log record: quotation marks are escaped before the message is put into a
    JSON string.  The strings accepted here are those of section 7 of RFC 8259. */
module LogText {
  import opened Words

  const QUOTE := "\""
  const ESCAPED_QUOTE := "\\\""

  function Escape(msg: string): string {
    Replace(msg, QUOTE, ESCAPED_QUOTE)
  }

  predicate IsHex(c: char) {
    '0' <= c <= '9' || 'a' <= c <= 'f' || 'A' <= c <= 'F'
  }

  /** The first `n` characters of `s` exist and are hexadecimal digits. */
  predicate HexStart(s: string, n: nat) {
    n == 0 || (s != [] && IsHex(s[0]) && HexStart(s[1..], n - 1))
  }

  /** RFC 8259, section 7: what may stand between the quotation marks of a string. */
  predicate ValidBody(s: string) {
    if s == [] then true
    else if s[0] == '\\' then
      |s| >= 2 &&
      if s[1] == 'u' then HexStart(s[2..], 4) && |s| >= 6 && ValidBody(s[6..])
      else s[1] in "\"\\/bfnrt" && ValidBody(s[2..])
    else s[0] != '"' && s[0] >= ' ' && ValidBody(s[1..])
  }

  /** One character of a string in the grammar of section 7: an unescaped one, or an escape. */
  predicate IsUnit(u: string) {
    || (|u| == 1 && 0x20 <= u[0] as int && u[0] != '"' && u[0] != '\\')
    || (|u| == 2 && u[0] == '\\' && u[1] in "\"\\/bfnrt")
    || (|u| == 6 && u[0] == '\\' && u[1] == 'u' && forall i :: 2 <= i < 6 ==> u[i] in "0123456789abcdefABCDEF")
  }

  function Concat(us: seq<string>): string {
    if us == [] then "" else us[0] + Concat(us[1..])
  }

  lemma {:induction false} HexIs(c: char)
    ensures IsHex(c) <==> c in "0123456789abcdefABCDEF"
  {
    var digits := "0123456789abcdefABCDEF";
    if '0' <= c <= '9' {
      assert digits[c as int - '0' as int] == c;
    } else if 'a' <= c <= 'f' {
      assert digits[c as int - 'a' as int + 10] == c;
    } else if 'A' <= c <= 'F' {
      assert digits[c as int - 'A' as int + 16] == c;
    }
  }

  lemma {:induction false} HexStartIs(s: string, n: nat)
    ensures HexStart(s, n) <==> n <= |s| && forall i :: 0 <= i < n ==> s[i] in "0123456789abcdefABCDEF"
  {
    hide IsHex;
    if n > 0 && s != [] {
      HexIs(s[0]);
      HexStartIs(s[1..], n - 1);
      assert forall i :: 0 < i < n && n <= |s| ==> s[i] == s[1..][i - 1];
      if HexStart(s[1..], n - 1) {
        assert forall i :: 0 < i < n ==> s[1..][i - 1] == s[i];
      }
    }
  }

  /** A unit in front of a text keeps it valid, or invalid. */
  lemma {:induction false} UnitInFront(u: string, s: string)
    requires IsUnit(u)
    ensures ValidBody(u + s) <==> ValidBody(s)
  {
    var t := u + s;
    assert t[|u|..] == s;
    if |u| == 6 {
      HexStartIs(t[2..], 4);
      assert forall i :: 0 <= i < 4 ==> t[2..][i] == u[i + 2];
    }
    hide HexStart;
  }

  /** The first unit of a nonempty valid text. */
  lemma {:induction false} FirstUnit(s: string) returns (n: nat)
    requires s != "" && ValidBody(s)
    ensures 0 < n <= |s| && IsUnit(s[..n]) && s == s[..n] + s[n..]
  {
    if s[0] != '\\' {
      n := 1;
    } else if s[1] != 'u' {
      n := 2;
    } else {
      n := 6;
      HexStartIs(s[2..], 4);
      assert forall i :: 2 <= i < 6 ==> s[..6][i] == s[2..][i - 2];
    }
    hide HexStart;
  }

  lemma {:induction false} UnitsAreValid(us: seq<string>)
    requires forall i :: 0 <= i < |us| ==> IsUnit(us[i])
    ensures ValidBody(Concat(us))
  {
    if us != [] {
      UnitsAreValid(us[1..]);
      UnitInFront(us[0], Concat(us[1..]));
      hide ValidBody, IsUnit;
    }
  }

  lemma {:induction false} ValidIsUnits(s: string) returns (us: seq<string>)
    requires ValidBody(s)
    ensures Concat(us) == s && forall i :: 0 <= i < |us| ==> IsUnit(us[i])
    decreases |s|
  {
    if s == "" {
      us := [];
    } else {
      var n := FirstUnit(s);
      hide ValidBody, IsUnit;
      UnitInFront(s[..n], s[n..]);
      var rest := ValidIsUnits(s[n..]);
      us := [s[..n]] + rest;
      assert us[1..] == rest;
    }
  }

  /** The strings accepted are exactly the sequences of the grammar's characters. */
  lemma {:induction false} ValidBodyIff(s: string)
    ensures ValidBody(s) <==> exists us: seq<string> :: Concat(us) == s && forall i :: 0 <= i < |us| ==> IsUnit(us[i])
  {
    hide ValidBody, Concat, IsUnit;
    if ValidBody(s) {
      var us := ValidIsUnits(s);
    }
    forall us: seq<string> | Concat(us) == s && forall i :: 0 <= i < |us| ==> IsUnit(us[i]) ensures ValidBody(s) {
      UnitsAreValid(us);
    }
  }

  /** Messages in which quotation marks stand bare, every backslash begins an escape other
      than that of a quotation mark, and no control character occurs. */
  predicate LoggableBody(s: string) {
    if s == [] then true
    else if s[0] == '\\' then
      |s| >= 2 &&
      if s[1] == 'u' then HexStart(s[2..], 4) && |s| >= 6 && LoggableBody(s[6..])
      else s[1] in "\\/bfnrt" && LoggableBody(s[2..])
    else s[0] >= ' ' && LoggableBody(s[1..])
  }

  /** Escaping goes character by character. */
  lemma {:induction false} EscapeStep(c: char, rest: string)
    ensures Escape([c] + rest) == (if c == '"' then ESCAPED_QUOTE else [c]) + Escape(rest)
  {
    if c == '"' {
      assert Unbordered(QUOTE);
      assert [c] + rest == "" + QUOTE + rest;
      SplitAtBlock("", QUOTE, rest, ESCAPED_QUOTE);
    } else {
      ReplacePrefix([c], rest, QUOTE, ESCAPED_QUOTE);
    }
  }

  /** Hexadecimal digits survive escaping, and escaping brings no digits forward. */
  lemma {:induction false} EscapeHexStart(s: string, n: nat)
    ensures HexStart(Escape(s), n) <==> HexStart(s, n)
    ensures HexStart(s, n) ==> n <= |s| && n <= |Escape(s)| && Escape(s)[n..] == Escape(s[n..])
  {
    if n > 0 && s != [] {
      assert s == [s[0]] + s[1..];
      EscapeStep(s[0], s[1..]);
      EscapeHexStart(s[1..], n - 1);
      if s[0] != '"' {
        assert Escape(s)[1..] == Escape(s[1..]);
        if HexStart(s[1..], n - 1) {
          assert Escape(s)[n..] == Escape(s[1..])[n - 1..];
          assert s[n..] == s[1..][n - 1..];
        }
      }
    }
  }

  /** Exactly the loggable messages give a valid JSON string. */
  lemma {:induction false} LogBodyValidIff(s: string)
    ensures ValidBody(Escape(s)) <==> LoggableBody(s)
    decreases |s|, 1
  {
    if s != [] {
      var e := Escape(s);
      assert s == [s[0]] + s[1..];
      EscapeStep(s[0], s[1..]);
      if s[0] == '"' {
        assert e[2..] == Escape(s[1..]);
        LogBodyValidIff(s[1..]);
      } else if s[0] != '\\' {
        assert e[1..] == Escape(s[1..]);
        LogBodyValidIff(s[1..]);
      } else if |s| >= 2 {
        LogBodyAfterBackslash(s);
      }
    }
  }

  lemma {:induction false} LogBodyAfterBackslash(s: string)
    requires |s| >= 2 && s[0] == '\\'
    ensures ValidBody(Escape(s)) <==> LoggableBody(s)
    decreases |s|, 0
  {
    var e := Escape(s);
    BackslashStep(s);
    if s[1] == 'u' {
      EscapeHexStart(s[2..], 4);
      if HexStart(s[2..], 4) {
        assert s[6..] == s[2..][4..] && e[6..] == e[2..][4..];
        LogBodyValidIff(s[6..]);
      }
    } else if s[1] != '"' {
      LogBodyValidIff(s[2..]);
    }
  }

  lemma {:induction false} BackslashStep(s: string)
    requires |s| >= 2 && s[0] == '\\'
    ensures var e := Escape(s);
            if s[1] == '"' then |e| >= 3 && e[..3] == "\\\\\""
            else |e| >= 2 && e[..2] == s[..2] && e[2..] == Escape(s[2..])
  {
    hide Escape;
    var t, u := s[1..], s[2..];
    assert s == [s[0]] + t && t == [s[1]] + u;
    EscapeStep(s[0], t);
    EscapeStep(s[1], u);
  }

  /** A message without backslashes and control characters is loggable. */
  lemma {:induction false} PlainIsLoggable(s: string)
    requires forall i :: 0 <= i < |s| ==> s[i] != '\\' && s[i] >= ' '
    ensures LoggableBody(s)
  {
    if s != [] {
      PlainIsLoggable(s[1..]);
    }
  }

  /** Hexadecimal digits at the front do not depend on what follows them. */
  lemma {:induction false} HexStartInFront(s: string, w: string, n: nat)
    requires n <= |s|
    ensures HexStart(s + w, n) <==> HexStart(s, n)
  {
    if n > 0 {
      assert (s + w)[1..] == s[1..] + w;
      HexStartInFront(s[1..], w, n - 1);
    }
  }

  lemma {:induction false} HexStartFits(s: string, n: nat)
    requires HexStart(s, n)
    ensures n <= |s|
  {
    if n > 0 {
      HexStartFits(s[1..], n - 1);
    }
  }

  /** Behind a loggable text it only matters what follows. */
  lemma {:induction false} LoggableBehind(u: string, w: string)
    requires LoggableBody(u)
    ensures LoggableBody(u + w) <==> LoggableBody(w)
    decreases |u|
  {
    if u == [] {
      assert u + w == w;
    } else if u[0] != '\\' {
      assert (u + w)[1..] == u[1..] + w;
      LoggableBehind(u[1..], w);
    } else if u[1] != 'u' {
      assert (u + w)[2..] == u[2..] + w;
      LoggableBehind(u[2..], w);
    } else {
      HexStartFits(u[2..], 4);
      HexStartInFront(u[2..], w, 4);
      assert (u + w)[2..] == u[2..] + w && (u + w)[6..] == u[6..] + w;
      LoggableBehind(u[6..], w);
    }
  }

  /** A message that quotes its own quotation mark, behind whatever could be logged and before
      anything, is not loggable: the record is not JSON. */
  lemma {:induction false} EscapedQuoteNotLoggable(u: string, v: string)
    requires LoggableBody(u)
    ensures !ValidBody(Escape(u + ESCAPED_QUOTE + v))
  {
    LogBodyValidIff(u + ESCAPED_QUOTE + v);
    assert u + ESCAPED_QUOTE + v == u + (ESCAPED_QUOTE + v);
    LoggableBehind(u, ESCAPED_QUOTE + v);
    hide ValidBody, HexStart, Escape;
    assert (ESCAPED_QUOTE + v)[0] == '\\' && (ESCAPED_QUOTE + v)[1] == '"';
  }

  /** No message is lost: undoing the escapes gives it back, whatever backslashes it has. */
  lemma {:induction false} EscapeIsLossless(msg: string)
    ensures Replace(Escape(msg), "\\\"", "\"") == msg
  {
    assert ESCAPED_QUOTE[1..] == QUOTE && ESCAPED_QUOTE[..1] == "\\";
    assert Unbordered(ESCAPED_QUOTE);
    assert MatchAt(ESCAPED_QUOTE, QUOTE, 1);
    LosslessIff(QUOTE, ESCAPED_QUOTE);
    assert ThereAndBack(msg, QUOTE, ESCAPED_QUOTE) == msg;
  }

  /** An escaped message needs one more character for each quotation mark. */
  lemma {:induction false} EscapedLength(msg: string)
    ensures |Escape(msg)| == |msg| + multiset(msg)['"']
    decreases |msg|
  {
    if msg != [] {
      assert msg == [msg[0]] + msg[1..];
      EscapeStep(msg[0], msg[1..]);
      EscapedLength(msg[1..]);
    } else {
      assert Escape(msg) == "";
    }
  }
}
