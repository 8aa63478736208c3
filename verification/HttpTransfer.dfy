/** One message from HttpBase's sending half to its receiving half, through a network that loses nothing: the schedules
    of both sides are arbitrary. */
module HttpTransfer {
  import opened CText
  import opened HttpParsing
  import opened HttpMessage
  import opened HttpSender
  import opened HttpReceiver

  lemma {:induction false} PrefixIsTransitive<T>(a: seq<T>, b: seq<T>, c: seq<T>)
    requires a <= b <= c
    ensures a <= c
  {
  }

  lemma {:induction false} FeedGrows(h: Hooks, m: Machine, c: char)
    ensures m.parse.body <= Feed(h, m, c).parse.body && m.parse.events <= Feed(h, m, c).parse.events
    ensures m.taken <= Feed(h, m, c).taken <= m.taken + 1
  {
    hide FieldEffect, SplitField, TrimEnd, StrToUL;
  }

  /** What has been delivered is never taken back. */
  lemma {:induction false} RunGrows(h: Hooks, m: Machine, s: string)
    ensures m.parse.body <= Run(h, m, s).parse.body && m.parse.events <= Run(h, m, s).parse.events
    ensures m.taken <= Run(h, m, s).taken <= m.taken + |s|
    decreases s
  {
    hide Feed;
    if s != "" {
      var n := Feed(h, m, s[0]);
      FeedGrows(h, m, s[0]);
      RunGrows(h, n, s[1..]);
      PrefixIsTransitive(m.parse.body, n.parse.body, Run(h, m, s).parse.body);
      PrefixIsTransitive(m.parse.events, n.parse.events, Run(h, m, s).parse.events);
    }
  }

  /** A machine that has not stopped has taken a proper part of the stream that stops it. */
  lemma {:induction false} UnfinishedIsPrefix(h: Hooks, done: string, wire: string, next: string)
    requires done <= wire + next && Run(h, START, wire).outcome.Finished? && Run(h, START, done).outcome.Continue?
    ensures |done| < |wire|
    ensures Run(h, START, done).parse.body <= Run(h, START, wire).parse.body
    ensures Run(h, START, done).parse.events <= Run(h, START, wire).parse.events
  {
    hide Run;
    if |wire| <= |done| {
      assert wire <= done;
      LongerStreamAgrees(h, wire, done);
      assert false;
    }
    assert wire == done + wire[|done|..];
    RunConcat(h, START, done, wire[|done|..]);
    RunGrows(h, Run(h, START, done), wire[|done|..]);
  }

  /** The receiver has got some of what the network took from the sender and, once the message is complete, of what
      was sent after it. */
  ghost predicate Delivered(s: Sender, r: Receiver, next: string)
    reads s, r
  {
    r.received <= s.wire || (s.AllSent() && r.received <= s.wire + next)
  }

  lemma {:induction false} DeliveredOfMessage(s: Sender, r: Receiver, next: string)
    requires s.Valid() && Delivered(s, r, next)
    ensures s.position <= |s.Document()| && r.received <= s.Message() + next && s.wire <= s.Message()
  {
    hide Sender.Valid, Sender.Message, Sender.Document;
    s.WireStartsMessage();
    if s.AllSent() {
      s.AllSentIsMessage();
    }
    if r.received <= s.wire {
      PrefixIsTransitive(r.received, s.wire, s.Message());
      PrefixIsTransitive(r.received, s.Message(), s.Message() + next);
    }
  }

  /** A receiver that stops has the whole message, without an error, and has left what follows it alone; and the sender
      has sent all of it. */
  lemma {:induction false} StoppedReceiverHasMessage(s: Sender, r: Receiver, error: HttpError, next: string)
    requires s.Valid() && s.Announces(r.hooks) && Delivered(s, r, next)
    requires Run(r.hooks, START, r.received) == r.Progress(Finished(error))
    ensures error == NoError && r.document == s.Document() && r.events == s.Events(r.hooks)
    ensures s.position <= |s.Document()| && s.wire == s.Message() && r.consumed == |s.wire| <= |r.received|
  {
    hide Run, Sender.Valid, Sender.Announces, Sender.Events, Sender.Message;
    DeliveredOfMessage(s, r, next);
    s.MessageReadsBack(r.hooks);
    LongerStreamAgrees(r.hooks, r.received, s.Message() + next);
    LongerStreamAgrees(r.hooks, s.Message(), s.Message() + next);
    RunGrows(r.hooks, START, r.received);
    if s.AllSent() {
      s.AllSentIsMessage();
    }
  }

  /** Before that, while the sender may still be sending, what the receiver has delivered is a part of the message: the
      start of its document and of its events. */
  lemma {:induction false} WaitingReceiverHasPrefix(s: Sender, r: Receiver, next: string)
    requires s.Valid() && s.Announces(r.hooks) && Delivered(s, r, next) && r.Valid()
    ensures r.document <= s.Document() && r.events <= s.Events(r.hooks)
    ensures s.position <= |s.Document()| && r.consumed < |s.Message()|
  {
    hide Run, Sender.Valid, Sender.Announces, Sender.Events, Sender.Message, Sender.AllSent;
    DeliveredOfMessage(s, r, next);
    s.MessageReadsBack(r.hooks);
    var done := r.received[..r.consumed];
    PrefixIsTransitive(done, r.received, s.Message() + next);
    UnfinishedIsPrefix(r.hooks, done, s.Message(), next);
  }

  /** A receiver that waits for the network lacks a part of the message: once all of it has arrived, the receive loop
      can only end with the parser, or with the document or the connection. */
  lemma {:induction false} DrainedReceiverLacksSome(s: Sender, r: Receiver, next: string)
    requires s.Valid() && s.Announces(r.hooks) && Delivered(s, r, next) && r.Valid() && r.Drained()
    ensures s.position <= |s.Document()| && |r.received| < |s.Message()|
    ensures Run(r.hooks, START, r.received) == r.OnePass()
  {
    hide Run, Sender.Valid, Sender.Announces, Sender.Events, Sender.Message, Sender.AllSent;
    DeliveredOfMessage(s, r, next);
    s.MessageReadsBack(r.hooks);
    r.DrainedIsOnePass();
    if |s.Message()| <= |r.received| {
      assert s.Message() <= r.received;
      LongerStreamAgrees(r.hooks, s.Message(), r.received);
      assert false;
    }
  }

  // A body that is lost

  const LEADER := "HTTP/1.0 200"

  /** An owner that takes everything as it comes. */
  const CONTENT: Hooks := Hooks(_ => NoError, (_, _, size: Size) => Verdict(NoError, size, false))

  lemma {:induction false} HeadOfLeader()
    ensures var head := Head(LEADER, []);
            Run(CONTENT, START, head) ==
              Machine(Parse(Data, false, SIZE_UNKNOWN, false,
                            [LeaderLine(LEADER), HeadersDone(false, SIZE_UNKNOWN)], ""),
                      "", Continue, |head|)
  {
    RunHead(CONTENT, LEADER, []);
    assert HeadEvents(LEADER, []) == [LeaderLine(LEADER)];
  }

  /** A response without a length whose document could not be written when its body came: if the peer closes now, the
      reception ends without an error and without the body. */
  lemma {:induction false} BlockedBodyIsLost(r: Receiver)
    requires r.hooks == CONTENT && r.Valid() && r.received == Head(LEADER, []) + "ab"
    requires r.consumed == |Head(LEADER, [])|
    ensures r.len == 2 && r.CloseError(0) == NoError
    ensures r.document == "" && Run(r.hooks, START, r.received).parse.body == "ab"
  {
    hide Run, Head, LEADER, CONTENT;
    HeadOfLeader();
    var head := Head(LEADER, []);
    assert (head + "ab")[..|head|] == head && (head + "ab")[|head|..] == "ab";
    r.BufferedBodyIsLost();
  }
}
