/**
 * Topic detection: the taxonomy names that occur literally in the completion
 * service's free-text answer, wrapped as `{type: 1, name: topic}` entries.
 */
module Topics {
  import opened Text

  /** One entry of an article's `tags` list: the constant `type` and the topic's name. */
  datatype TopicTag = TopicTag(kind: int, name: string)

  /** The `type` value every detected topic carries. */
  const TopicKind := 1

  /** The fixed taxonomy the crawler classifies against, in its order. */
  const Taxonomy: seq<string> := ["Alegeri", "Economie", "Societate", "Demonstratii", "Politica"]

  /**
   * Reference definition: the entries for the topics of `topics` that occur in `response`,
   * in taxonomy order; never more entries than topics.
   */
  function MatchTopics(topics: seq<string>, response: string): (r: seq<TopicTag>)
    ensures |r| <= |topics|
  {
    if topics == [] then
      []
    else
      var last := topics[|topics| - 1];
      var init := MatchTopics(topics[..|topics| - 1], response);
      if Contains(last, response) then init + [TopicTag(TopicKind, last)] else init
  }

  /**
   * The matching loop of detectTopics, with the completion service's answer given as
   * `response`: one entry per topic that is a substring of the answer.
   */
  method DetectTopics(topics: seq<string>, response: string) returns (result: seq<TopicTag>)
    ensures result == MatchTopics(topics, response)
  {
    result := [];
    for i := 0 to |topics|
      invariant result == MatchTopics(topics[..i], response)
    {
      var topic := topics[i];
      assert topics[..i + 1][..i] == topics[..i];
      if Contains(topic, response) {
        result := result + [TopicTag(TopicKind, topic)];
      }
    }
    assert topics[..|topics|] == topics;
  }

  /**
   * A topic has an entry exactly when it is in the taxonomy and occurs in the answer,
   * and every entry has type 1 and names a taxonomy topic.
   */
  lemma {:induction false} MatchTopicsMembers(topics: seq<string>, response: string)
    ensures forall k :: 0 <= k < |MatchTopics(topics, response)| ==>
              MatchTopics(topics, response)[k].kind == TopicKind
              && MatchTopics(topics, response)[k].name in topics
    ensures forall t :: (exists k :: 0 <= k < |MatchTopics(topics, response)| && MatchTopics(topics, response)[k].name == t)
                        <==> t in topics && Occurs(t, response)
  {
    if topics != [] {
      var init, last := topics[..|topics| - 1], topics[|topics| - 1];
      MatchTopicsMembers(init, response);
      assert topics == init + [last];
      var r, ri := MatchTopics(topics, response), MatchTopics(init, response);
      forall t
        ensures (exists k :: 0 <= k < |r| && r[k].name == t) <==> t in topics && Occurs(t, response)
      {
        if Contains(last, response) {
          assert r[|ri|].name == last;
          if exists k :: 0 <= k < |r| && r[k].name == t {
            var k :| 0 <= k < |r| && r[k].name == t;
            if k < |ri| {
              assert ri[k].name == t;
            }
          }
          if t in init && Occurs(t, response) {
            var k :| 0 <= k < |ri| && ri[k].name == t;
            assert r[k].name == t;
          }
        }
      }
    }
  }

  /** Matching distributes over concatenation of taxonomies, so taxonomy order is kept. */
  lemma {:induction false} MatchTopicsAppend(a: seq<string>, b: seq<string>, response: string)
    ensures MatchTopics(a + b, response) == MatchTopics(a, response) + MatchTopics(b, response)
    decreases |b|
  {
    if b != [] {
      var init := b[..|b| - 1];
      MatchTopicsAppend(a, init, response);
      assert (a + b)[..|a + b| - 1] == a + init;
    } else {
      assert a + b == a;
    }
  }

  /** An answer containing no topic name yields no entries. */
  lemma MatchTopicsNone(topics: seq<string>, response: string)
    requires forall t :: t in topics ==> !Occurs(t, response)
    ensures MatchTopics(topics, response) == []
  {
  }

  /** With distinct topics, no topic has two entries. */
  lemma {:induction false} MatchTopicsDistinct(topics: seq<string>, response: string)
    requires forall i, j :: 0 <= i < j < |topics| ==> topics[i] != topics[j]
    ensures forall i, j :: 0 <= i < j < |MatchTopics(topics, response)| ==>
              MatchTopics(topics, response)[i].name != MatchTopics(topics, response)[j].name
  {
    if topics != [] {
      var init := topics[..|topics| - 1];
      MatchTopicsDistinct(init, response);
      MatchTopicsMembers(init, response);
      assert topics[|topics| - 1] !in init;
    }
  }

  /** When no topic is the empty string, an empty answer tags nothing. */
  lemma EmptyAnswer(topics: seq<string>)
    requires forall t :: t in topics ==> t != ""
    ensures MatchTopics(topics, "") == []
  {
    forall t | t in topics
      ensures !Occurs(t, "")
    {
      assert |t| > 0;
    }
    MatchTopicsNone(topics, "");
  }

  /** For the crawler's taxonomy, an empty answer tags nothing. */
  lemma TaxonomyEmptyResponse()
    ensures MatchTopics(Taxonomy, "") == []
  {
    EmptyAnswer(Taxonomy);
  }
}
