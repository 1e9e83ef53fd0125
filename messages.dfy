// The message handler: ignore the bot's own messages, reply once when the
// lower-cased text holds a trigger keyword, and then hand the message on to
// command processing, unless sending the reply raised.

module Messages {
  import opened Text

  type UserId = nat

  datatype Message = Message(author: UserId, content: string)

  /** What the handler does with a message, in order: sending the canned reply, and the hand-off to command processing. */
  datatype Action = Reply | ProcessCommands

  const TriggerKeywords: seq<string> := ["snor", "snorlax", "snorlax2lazy"]

  /** `any(keyword in text for keyword in keywords)`. */
  function AnyKeyword(text: string, keywords: seq<string>): bool
  {
    keywords != [] && (Contains(text, keywords[0]) || AnyKeyword(text, keywords[1..]))
  }

  /** The scan finds a keyword exactly when some keyword of the list occurs in the text. */
  lemma {:induction false} AnyKeywordIff(text: string, keywords: seq<string>)
    ensures AnyKeyword(text, keywords) <==> exists k :: k in keywords && Contains(text, k)
  {
    if keywords != [] {
      AnyKeywordIff(text, keywords[1..]);
      if exists k :: k in keywords && Contains(text, k) {
        var k :| k in keywords && Contains(text, k);
        assert k == keywords[0] || k in keywords[1..];
      }
    }
  }

  /** The lower-cased content holds one of the trigger keywords. */
  predicate Triggers(content: string)
  {
    AnyKeyword(Lower(content), TriggerKeywords)
  }

  /** Every trigger keyword begins with "snor", so the keyword list triggers exactly when "snor" occurs. */
  lemma TriggersIffSnor(content: string)
    ensures Triggers(content) <==> Contains(Lower(content), "snor")
  {
    var text := Lower(content);
    AnyKeywordIff(text, TriggerKeywords);
    if Contains(text, "snorlax") {
      assert "snorlax" == "snor" + "lax";
      ContainsPrefixOf(text, "snor", "lax");
    }
    if Contains(text, "snorlax2lazy") {
      assert "snorlax2lazy" == "snor" + "lax2lazy";
      ContainsPrefixOf(text, "snor", "lax2lazy");
    }
  }

  /** Any spelling of "snor" in any mix of upper and lower case triggers the reply. */
  lemma TriggerIgnoresCase(content: string, w: string)
    requires Contains(content, w) && Lower(w) == "snor"
    ensures Triggers(content)
  {
    ContainsLowered(content, w);
    TriggersIffSnor(content);
  }

  /** "snor" written in any mix of upper and lower case, anywhere in the message, triggers the reply. */
  lemma AnyCaseSnorTriggers(content: string, w: string)
    requires |w| == 4 && w[0] in "sS" && w[1] in "nN" && w[2] in "oO" && w[3] in "rR"
    requires Contains(content, w)
    ensures Triggers(content)
  {
    assert Lower(w) == "snor";
    TriggerIgnoresCase(content, w);
  }

  /**
   * `on_message`: nothing for the bot's own messages; otherwise one reply when
   * the content triggers, then the hand-off to command processing. `sent` is
   * the platform's answer to the reply's send: the send is not guarded, so
   * when it raises the handler stops before the hand-off.
   */
  function OnMessage(msg: Message, botUser: UserId, sent: bool): (actions: seq<Action>)
    ensures msg.author == botUser ==> actions == []
    ensures msg.author != botUser ==> (Reply in actions <==> Contains(Lower(msg.content), "snor"))
    ensures ProcessCommands in actions <==>
              msg.author != botUser && (sent || !Contains(Lower(msg.content), "snor"))
    ensures Reply in actions ==> actions[0] == Reply
    ensures ProcessCommands in actions ==>
              && actions[|actions| - 1] == ProcessCommands
              && ProcessCommands !in actions[..|actions| - 1]
    ensures multiset(actions)[Reply] <= 1
  {
    TriggersIffSnor(msg.content);
    if msg.author == botUser then []
    else if Triggers(msg.content) then (if sent then [Reply, ProcessCommands] else [Reply])
    else [ProcessCommands]
  }

  /**
   * A member's "Snor" gets one reply and then the hand-off, or only the reply
   * when its send fails; "hi" gets no reply, and the bot's own message nothing.
   */
  lemma MessageExamples()
    ensures OnMessage(Message(2, "Snor"), 1, true) == [Reply, ProcessCommands]
    ensures OnMessage(Message(2, "Snor"), 1, false) == [Reply]
    ensures OnMessage(Message(2, "hi"), 1, false) == [ProcessCommands]
    ensures OnMessage(Message(1, "snorlax"), 1, true) == []
  {
    assert Lower("Snor") == "snor";
    assert StartsWith("snor", "snor");
    assert Lower("hi") == "hi";
    assert !Contains("hi"[1..][1..], "snor");
    assert !Contains("hi", "snor");
  }
}
