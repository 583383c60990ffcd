/** Binary messages on a NATS subject: published as Base64 text, handed to the user decoded. */
module NatsMessages {
  import opened Common
  import opened CStrings
  import opened Base64
  import opened Base64Laws
  import opened Base64Codec
  import opened Base64Decoder

  /** The text sent for the data `s`. */
  function Published(s: seq<byte>): string {
    if s == [] then [] else Encode(s)
  }

  /** What the user's handler is given for the text `e`: the bytes and the length. */
  function Delivered(e: string): (seq<byte>, int) {
    (DecodeOutput(e, |e|), DecodeResult(e, |e|))
  }

  /** Every nonempty payload arrives unchanged; the empty one is announced with length -1. */
  lemma {:induction false} DeliveredIff(s: seq<byte>)
    ensures Delivered(Published(s)) == (s, |s|) <==> s != []
    ensures s == [] ==> Delivered(Published(s)) == ([], -1)
  {
    hide Encode, DecodedBytes, KnownPrefix;
    if s != [] {
      DecodeEncode(s);
    }
  }

  /** The largest payload whose text and NUL fit into the message buffer. */
  lemma {:induction false} FitsIff(n: nat)
    ensures EncodedLength(n) < NATS_MSG_MAX_LEN == 2048 <==> n <= 1533
  {
  }

  /** Whatever its characters are, a text of `n` characters is decoded within the buffer exactly
      if it is refused for its length or has at most 2731 characters. */
  lemma {:induction false} DecodedFitsIff(n: nat)
    ensures (forall e: string :: |e| == n ==> |DecodeOutput(e, n)| <= NATS_MSG_MAX_LEN) <==> n % 4 != 0 || n <= 2731
  {
    hide Symbols, Decoded, KnownPrefix, EncodeGroups;
    forall e: string | |e| == n ensures |DecodedBytes(e)| <= 3 * (n / 4) {
      DecodedBounds(Symbols(KnownPrefix(e)));
    }
    if n % 4 == 0 && n > 2731 {
      var e: string := seq(n, _ => 'A');
      KnownAll(e);
      EncodeDecodedGroups(e);
      assert |DecodeOutput(e, n)| == n / 4 * 3;
    }
  }

  /** `nats_publish` up to the call of the library, whose status it returns. */
  method NatsPublish(signedChar: bool, data: array?<byte>, dataLen: nat, libraryStatus: int)
    returns (sent: string, status: int)
    requires data != null ==> dataLen <= data.Length && dataLen <= 1533 && Encodable(data[..dataLen], signedChar)
    ensures sent == Published(if data == null then [] else data[..dataLen]) && status == libraryStatus
  {
    hide Encode, EncodedLength, Encodable, CText;
    FitsIff(dataLen);
    var buffer := new char[NATS_MSG_MAX_LEN](_ => NUL);
    var ret := Base64Encode(signedChar, data, dataLen, buffer);
    PublishedText(buffer[..], if data == null then [] else data[..dataLen]);
    sent := CText(buffer[..]);
    status := libraryStatus;
  }

  /** The text of a cleared buffer into which data were encoded. */
  lemma {:induction false} PublishedText(buffer: seq<char>, s: seq<byte>)
    requires |Published(s)| < |buffer| && buffer[..|Published(s)|] == Published(s)
    requires forall i :: |Published(s)| <= i < |buffer| ==> buffer[i] == NUL
    ensures NUL in buffer && CText(buffer) == Published(s)
  {
    hide Encode, CText;
    EncodeKnown(s);
    assert !InAlphabet(NUL) && NUL != PAD;
    CTextIs(buffer, Published(s));
  }

  /** `_on_nats_message`: the buffer and the length given to the user's handler. */
  method OnNatsMessage(signedChar: bool, msg: array<char>) returns (payload: array<byte>, payloadLen: int)
    requires NUL in msg[..] && Decodable(CText(msg[..]), signedChar)
    requires |DecodeOutput(CText(msg[..]), |CText(msg[..])|)| <= NATS_MSG_MAX_LEN
    ensures fresh(payload) && payload.Length == NATS_MSG_MAX_LEN == 2048
    ensures var (d, n) := Delivered(CText(msg[..]));
            |d| <= payload.Length && payload[..|d|] == d && payloadLen == n
            && forall i :: |d| <= i < payload.Length ==> payload[i] == 0
  {
    hide DecodeOutput, DecodeResult, Decodable, CText;
    ghost var e := CText(msg[..]);
    payload := new byte[NATS_MSG_MAX_LEN](_ => 0);
    payloadLen := Base64Decode(signedChar, msg, |CText(msg[..])|, payload);
    ghost var d := DecodeOutput(e, |e|);
    assert forall i :: |d| <= i < payload.Length ==> payload[i] == payload[|d|..][i - |d|];
  }
}
