/** The two uses of `_replace_str`, with the buffers they use. */
module TextBuffers {
  import opened Common
  import opened Words
  import opened CStrings
  import opened RrpcTopics
  import opened LogText

  const RESPONSE_TOPIC_SIZE := 128

  /** A string literal as a C string. */
  method Literal(s: string) returns (a: array<char>)
    requires NUL !in s
    ensures fresh(a) && NUL in a[..] && CText(a[..]) == s
  {
    hide CText;
    a := new char[|s| + 1](i => if 0 <= i < |s| then s[i] else NUL);
    assert a[..|s|] == s && a[|s|] == NUL;
    assert a[..][|s|] == NUL;
    CTextIs(a[..], s);
  }

  /** `edge_rrpc_response` up to the call of `edge_publish`: the topic it publishes on. */
  method RrpcResponseTopic(topic: array<char>) returns (responseTopic: array<char>)
    requires NUL in topic[..]
    requires |ResponseTopic(CText(topic[..]))| < RESPONSE_TOPIC_SIZE
    ensures fresh(responseTopic) && NUL in responseTopic[..]
    ensures CText(responseTopic[..]) == ResponseTopic(CText(topic[..]))
    ensures IsRequestTopic(CText(topic[..])) ==> Occurs(CText(responseTopic[..]), RESPONSE_MARK)
    ensures !IsRequestTopic(CText(responseTopic[..]))
  {
    hide CText, Replace, FirstMatch, Count, Occurs;
    var rep := Literal(REQUEST);
    var to := Literal(RESPONSE);
    responseTopic := new char[RESPONSE_TOPIC_SIZE](_ => NUL);
    ghost var rounds := ReplaceStr(responseTopic, topic, rep, to);
    ResponseIsNotRequest(CText(topic[..]));
    if IsRequestTopic(CText(topic[..])) {
      AcceptedTopicIsAnswered(CText(topic[..]));
    }
  }

  /** A topic can be answered exactly if it leaves one character for each "request" and the NUL. */
  lemma {:induction false} ResponseTopicFitsIff(topic: string)
    ensures |ResponseTopic(topic)| < RESPONSE_TOPIC_SIZE <==> |topic| + Count(topic, REQUEST) <= 127
  {
    hide Replace, Count;
    ReplaceLength(topic, REQUEST, RESPONSE);
  }

  /** What `vsnprintf` leaves of a formatted message in the message buffer. */
  function Cut(formatted: string): (msg: string)
    ensures |msg| < NATS_MSG_MAX_LEN && msg <= formatted && |msg| == if |formatted| <= 2047 then |formatted| else 2047
    ensures |formatted| < NATS_MSG_MAX_LEN ==> msg == formatted
  {
    if |formatted| < NATS_MSG_MAX_LEN then formatted else formatted[..NATS_MSG_MAX_LEN - 1]
  }

  /** A message fits after escaping exactly if what the cut leaves has room for one backslash for
      each of its quotation marks; a message that was cut fits only without any. */
  lemma {:induction false} EscapedFitsIff(formatted: string)
    ensures |Escape(Cut(formatted))| < NATS_MSG_MAX_LEN
       <==> |Cut(formatted)| + multiset(Cut(formatted))['"'] <= 2047
    ensures |formatted| >= NATS_MSG_MAX_LEN - 1 ==>
              (|Escape(Cut(formatted))| < NATS_MSG_MAX_LEN <==> '"' !in Cut(formatted))
  {
    hide Escape;
    EscapedLength(Cut(formatted));
    assert '"' in Cut(formatted) <==> '"' in multiset(Cut(formatted));
  }

  /** The part of `log_write` that makes the message of a record: it is cut, then escaped. */
  method EscapeMessage(formatted: string) returns (escaped: array<char>)
    requires NUL !in formatted
    requires |Cut(formatted)| + multiset(Cut(formatted))['"'] <= NATS_MSG_MAX_LEN - 1
    ensures fresh(escaped) && NUL in escaped[..]
    ensures CText(escaped[..]) == Escape(Cut(formatted))
    ensures ValidBody(CText(escaped[..])) <==> LoggableBody(Cut(formatted))
  {
    EscapedFitsIff(formatted);
    assert NUL !in Cut(formatted);
    hide CText, Cut, Replace, ValidBody, LoggableBody;
    var msg := Literal(Cut(formatted));
    var rep := Literal(QUOTE);
    var to := Literal(ESCAPED_QUOTE);
    escaped := new char[NATS_MSG_MAX_LEN](_ => NUL);
    ghost var rounds := ReplaceStr(escaped, msg, rep, to);
    LogBodyValidIff(Cut(formatted));
  }
}
