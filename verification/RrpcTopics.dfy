/** The topics of remote calls: a request topic is recognised by a substring, and its
    response topic is made from it by replacing words. */
module RrpcTopics {
  import opened Words

  const REQUEST := "request"
  const RESPONSE := "response"
  const REQUEST_MARK := "/rrpc/request/"
  const RESPONSE_MARK := "/rrpc/response/"

  /** `edge_rrpc_check`: true stands for EDGE_OK. */
  predicate IsRequestTopic(topic: string) {
    FirstMatch(topic, REQUEST_MARK) >= 0
  }

  /** Accepted are exactly the topics with the request mark somewhere in them. */
  lemma {:induction false} RequestTopicIff(topic: string)
    ensures IsRequestTopic(topic) <==> Occurs(topic, "/rrpc/request/")
  {
    FirstMatchIsLeast(topic, REQUEST_MARK);
  }

  /** The topic that `edge_rrpc_response` publishes on. */
  function ResponseTopic(topic: string): string {
    Replace(topic, REQUEST, RESPONSE)
  }

  lemma {:induction false} RequestUnbordered()
    ensures Unbordered(REQUEST)
  {
    forall i | 0 < i < |REQUEST| ensures REQUEST[i..] != REQUEST[..|REQUEST| - i] {
      assert REQUEST[i..][0] != 'r' == REQUEST[..|REQUEST| - i][0];
    }
  }

  lemma {:induction false} ResponseUnbordered()
    ensures Unbordered(RESPONSE)
  {
    forall i | 0 < i < |RESPONSE| ensures RESPONSE[i..] != RESPONSE[..|RESPONSE| - i] {
      assert RESPONSE[i..][0] != 'r' == RESPONSE[..|RESPONSE| - i][0];
    }
  }

  lemma {:induction false} RequestApartFromResponse()
    ensures Apart(REQUEST, RESPONSE)
  {
    forall i: nat ensures !MatchAt(REQUEST, RESPONSE, i) && !MatchAt(RESPONSE, REQUEST, i) {
      if i + |REQUEST| <= |RESPONSE| {
        assert RESPONSE[i..i + |REQUEST|][2] == RESPONSE[i + 2] != 'q' == REQUEST[2];
      }
    }
    forall i | 0 < i < |REQUEST| < i + |RESPONSE| ensures REQUEST[i..] != RESPONSE[..|REQUEST| - i] {
      assert REQUEST[i..][0] != 'r' == RESPONSE[..|REQUEST| - i][0];
    }
    forall i | 0 < i < |RESPONSE| < i + |REQUEST| ensures RESPONSE[i..] != REQUEST[..|RESPONSE| - i] {
      assert RESPONSE[i..][0] != 'r' == REQUEST[..|RESPONSE| - i][0];
    }
  }

  /** No response topic contains the word "request", so none is taken for a request. */
  lemma {:induction false} ResponseIsNotRequest(topic: string)
    ensures !Occurs(ResponseTopic(topic), "request")
    ensures !IsRequestTopic(ResponseTopic(topic))
    ensures ResponseTopic(ResponseTopic(topic)) == ResponseTopic(topic)
  {
    RequestApartFromResponse();
    ReplacedIsGone(topic, REQUEST, RESPONSE);
    assert REQUEST_MARK[6..13] == REQUEST;
    assert MatchAt(REQUEST_MARK, REQUEST, 6);
    ContainsTransitively(ResponseTopic(topic), REQUEST_MARK, REQUEST);
    FirstMatchIsLeast(ResponseTopic(topic), REQUEST_MARK);
    FirstMatchIsLeast(ResponseTopic(topic), REQUEST);
  }

  /** The response topic of `u/rrpc/request/v` is `u'/rrpc/response/v'`. */
  lemma {:induction false} ResponseTopicShape(u: string, v: string)
    ensures ResponseTopic(u + "/rrpc/request/" + v) == ResponseTopic(u) + "/rrpc/response/" + ResponseTopic(v)
  {
    RequestUnbordered();
    assert REQUEST_MARK == "/rrpc/" + REQUEST + "/";
    assert RESPONSE_MARK == "/rrpc/" + RESPONSE + "/";
    ReplaceMarked(u, "/rrpc/", REQUEST, "/", v, RESPONSE);
  }

  /** Every accepted topic is answered on a topic with the response mark. */
  lemma {:induction false} AcceptedTopicIsAnswered(topic: string)
    requires IsRequestTopic(topic)
    ensures Occurs(ResponseTopic(topic), "/rrpc/response/")
  {
    var k := FirstMatch(topic, REQUEST_MARK);
    var u, v := topic[..k], topic[k + |REQUEST_MARK|..];
    assert topic == u + REQUEST_MARK + v;
    ResponseTopicShape(u, v);
    assert MatchAt(ResponseTopic(topic), RESPONSE_MARK, |ResponseTopic(u)|);
  }

  /** A caller gets the request topic back from the response topic exactly if no "response"
      stood between the "request"s; in particular if the topic had no "response" at all. */
  lemma {:induction false} RequestRecovered(topic: string)
    ensures Replace(ResponseTopic(topic), "response", "request") == topic
       <==> StrayCount(topic, "request", "response") == 0
    ensures !Occurs(topic, "response") ==> Replace(ResponseTopic(topic), "response", "request") == topic
  {
    ResponseUnbordered();
    InverseIff(topic, REQUEST, RESPONSE);
    if !Occurs(topic, RESPONSE) {
      AbsentNotStray(topic, REQUEST, RESPONSE);
    }
  }
}
