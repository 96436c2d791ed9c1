/** The intake pipeline: statuses from the filtered stream are screened for questions,
    answered through Agent Mesh, stored, announced to the registered listeners and,
    when auto-reply is on, answered on Twitter.

    The stream, the Agent Mesh call, the listeners' callbacks and the Twitter post are
    outside the model; each call is given its outcome as a parameter, and what each call
    does to the world (the question passed to Agent Mesh, the listener called, the reply posted) is
    recorded in a log so that it can be stated. */
module Service {
  import opened Text
  import opened Tweets
  import opened Config

  /** Twitter's character limit, as the reply formatter uses it. */
  const MaxLength: nat := 280

  /** The words whose presence, anywhere and in any case, marks a question. */
  const QuestionWords: seq<string> :=
    ["how", "what", "when", "where", "why", "who", "which", "can", "could"]

  // ---------------------------------------------------------------------------
  // Text heuristics
  // ---------------------------------------------------------------------------

  /** containsQuestion: a '?' or one of the question words as a substring of the
      lower-cased text; no word boundaries are checked. */
  predicate ContainsQuestion(text: string): (b: bool)
    ensures b <==> Contains(text, "?") || exists w | w in QuestionWords :: Contains(Lower(text), w)
  {
    Contains(text, "?") ||
    Contains(Lower(text), "how") ||
    Contains(Lower(text), "what") ||
    Contains(Lower(text), "when") ||
    Contains(Lower(text), "where") ||
    Contains(Lower(text), "why") ||
    Contains(Lower(text), "who") ||
    Contains(Lower(text), "which") ||
    Contains(Lower(text), "can") ||
    Contains(Lower(text), "could")
  }

  /** extractQuestion: the whole text is the question. */
  function ExtractQuestion(text: string): (question: string)
    ensures question == text
  {
    text
  }

  /** formatReply: an answer within the limit is kept; a longer one is cut to its first
      276 characters followed by "...", which makes 279 characters. */
  function FormatReply(answer: string): (reply: string)
    ensures |reply| <= MaxLength
    ensures |answer| <= MaxLength ==> reply == answer
    ensures |answer| > MaxLength ==>
              |reply| == MaxLength - 1 && reply[..MaxLength - 4] == answer[..MaxLength - 4] &&
              reply[MaxLength - 4..] == "..."
  {
    if |answer| <= MaxLength then answer else answer[..MaxLength - 4] + "..."
  }

  /** The text replyToTweet posts: the mention, a space, then the formatted answer
      (the mention is not counted against the limit). */
  function ReplyText(username: string, answer: string): (text: string)
    ensures |username| + 2 <= |text| <= |username| + 2 + MaxLength
    ensures text[..|username| + 2] == "@" + username + " "
    ensures text[|username| + 2..] == FormatReply(answer)
    ensures |answer| <= MaxLength ==> text[|username| + 2..] == answer
    ensures |answer| > MaxLength ==> text[|username| + 2..] == answer[..MaxLength - 4] + "..."
  {
    "@" + username + " " + FormatReply(answer)
  }

  // ---------------------------------------------------------------------------
  // Events, oracles and the observable state of the pipeline
  // ---------------------------------------------------------------------------

  /** The fields of a twitter4j Status that the pipeline reads. */
  datatype Status = Status(id: Long, screenName: string, name: string, createdAt: int,
                           text: string, isRetweet: bool)

  /** What agentMeshService.processQuestion does: return an answer (a real answer or one of
      its fallback messages) or throw (invalid configuration, malformed JSON). */
  datatype AnswerOutcome = Answered(answer: string) | AnswerThrew

  /** What twitter.updateStatus does: post, or throw. */
  datatype PostOutcome = Posted | PostFailed

  /** A registered TweetUpdateListener, by identity. */
  type Listener = nat

  /** One call of onTweetProcessed: which listener was told about which tweet. */
  datatype Delivery = Delivery(listener: Listener, tweetId: Long)

  /** One posted reply: the tweet it answers and its text. */
  datatype Reply = Reply(inReplyTo: Long, text: string)

  /** Outcome of startMonitoring: it returns normally or throws one of two exceptions. */
  datatype StartOutcome = Returned | InvalidConfiguration | StartFailed

  /** The stored records and everything the pipeline has done to the world. */
  datatype Pipeline = Pipeline(
    tweets: seq<TweetView>,       // processedTweets, in order
    asked: seq<string>,           // questions passed to processQuestion
    deliveries: seq<Delivery>,    // listener calls
    sent: seq<Reply>)             // replies posted

  // ---------------------------------------------------------------------------
  // The specification of the pipeline
  // ---------------------------------------------------------------------------

  /** The listeners that notifyUpdateListeners calls: each in registration order, up to and
      including the first one that throws. */
  function Called(listeners: seq<Listener>, failing: set<Listener>): seq<Listener>
  {
    if listeners == [] then []
    else if listeners[0] in failing then [listeners[0]]
    else [listeners[0]] + Called(listeners[1..], failing)
  }

  /** No listener throws, so the loop runs to its end. */
  predicate Completes(listeners: seq<Listener>, failing: set<Listener>)
  {
    forall k | 0 <= k < |listeners| :: listeners[k] !in failing
  }

  function DeliveriesTo(listeners: seq<Listener>, tweetId: Long): (ds: seq<Delivery>)
  {
    seq(|listeners|, k requires 0 <= k < |listeners| => Delivery(listeners[k], tweetId))
  }

  /** replyToTweet on the i-th stored record: on success the reply is posted and the record
      is marked replied; on failure nothing changes. */
  function ReplyEffect(p: Pipeline, i: nat, post: PostOutcome): Pipeline
    requires i < |p.tweets|
  {
    if post.PostFailed? then p
    else
      var t := p.tweets[i];
      p.(tweets := p.tweets[i := t.(replied := true)],
         sent := p.sent + [Reply(t.tweetId, ReplyText(t.username, t.answer))])
  }

  /** processStatus on one status. Every exception inside ends the pass and is swallowed:
      an Agent Mesh failure before the record exists leaves the store as it was; a listener
      failure after it keeps the record but skips the remaining listeners and the
      auto-reply; a post failure only leaves the record unreplied. */
  function Intake(p: Pipeline, listeners: seq<Listener>, autoReply: bool, status: Status,
                  answer: AnswerOutcome, failing: set<Listener>, post: PostOutcome): Pipeline
  {
    if status.isRetweet || !ContainsQuestion(status.text) then p
    else
      var question := ExtractQuestion(status.text);
      var p1 := p.(asked := p.asked + [question]);
      match answer
      case AnswerThrew => p1
      case Answered(a) =>
        var record := TweetView(status.id, status.screenName, status.name, status.createdAt,
                                status.text, question, a, false);
        var p2 := p1.(tweets := p1.tweets + [record],
                      deliveries := p1.deliveries + DeliveriesTo(Called(listeners, failing), status.id));
        if Completes(listeners, failing) && autoReply then ReplyEffect(p2, |p2.tweets| - 1, post) else p2
  }

  /** The pipeline after a status that produces a record. */
  lemma IntakeAnswered(p: Pipeline, listeners: seq<Listener>, autoReply: bool, status: Status,
                       a: string, failing: set<Listener>, post: PostOutcome)
    requires !status.isRetweet && ContainsQuestion(status.text)
    ensures var record := TweetView(status.id, status.screenName, status.name, status.createdAt,
                                    status.text, status.text, a, false);
            var p2 := Pipeline(p.tweets + [record], p.asked + [status.text],
                               p.deliveries + DeliveriesTo(Called(listeners, failing), status.id), p.sent);
            Intake(p, listeners, autoReply, status, Answered(a), failing, post) ==
              if Completes(listeners, failing) && autoReply then ReplyEffect(p2, |p.tweets|, post) else p2
  {
  }

  /** A status the pipeline acts on: not a retweet, and a question. */
  predicate Qualifies(status: Status)
  {
    !status.isRetweet && ContainsQuestion(status.text)
  }

  /** One status arriving on the stream, with the outcomes of the calls made for it. */
  datatype Event = Event(status: Status, autoReply: bool, answer: AnswerOutcome,
                         failing: set<Listener>, post: PostOutcome)

  /** The pipeline after a run of statuses, in arrival order. */
  function IntakeAll(p: Pipeline, listeners: seq<Listener>, run: seq<Event>): Pipeline
  {
    if run == [] then p
    else
      var e := run[|run| - 1];
      Intake(IntakeAll(p, listeners, run[..|run| - 1]), listeners, e.autoReply, e.status,
             e.answer, e.failing, e.post)
  }

  /** The ids of the statuses of a run that produce a record, in arrival order. */
  function Recorded(run: seq<Event>): seq<Long>
  {
    if run == [] then []
    else
      var e := run[|run| - 1];
      Recorded(run[..|run| - 1]) + (if Qualifies(e.status) && e.answer.Answered? then [e.status.id] else [])
  }

  function Ids(tweets: seq<TweetView>): (ids: seq<Long>)
  {
    seq(|tweets|, k requires 0 <= k < |tweets| => tweets[k].tweetId)
  }

  /** Listeners in registration order, as the source's ArrayList.remove does it: the first
      occurrence goes. */
  function RemoveFirst(listeners: seq<Listener>, listener: Listener): seq<Listener>
  {
    if listeners == [] then []
    else if listeners[0] == listener then listeners[1..]
    else [listeners[0]] + RemoveFirst(listeners[1..], listener)
  }

  // ---------------------------------------------------------------------------
  // The service object
  // ---------------------------------------------------------------------------

  class TwitterService {
    const configManager: ConfigManager
    var monitoring: bool
    var trackedKeywords: seq<string>          // the stream's filter query
    var processedTweets: seq<ProcessedTweet>
    var updateListeners: seq<Listener>
    var asked: seq<string>
    var deliveries: seq<Delivery>
    var sent: seq<Reply>

    /** Every stored record is a distinct object (each is created by its own intake). */
    ghost predicate Valid()
      reads this
    {
      Distinct(processedTweets)
    }

    function State(): Pipeline
      reads this, processedTweets
    {
      Pipeline(Views(processedTweets), asked, deliveries, sent)
    }

    constructor (configManager: ConfigManager)
      ensures Valid() && this.configManager == configManager
      ensures !monitoring && trackedKeywords == [] && updateListeners == []
      ensures State() == Pipeline([], [], [], [])
    {
      this.configManager := configManager;
      monitoring := false;
      trackedKeywords := [];
      processedTweets := [];
      updateListeners := [];
      asked := [];
      deliveries := [];
      sent := [];
    }

    /** startMonitoring: a no-op while monitoring; with an invalid configuration it throws
        and stays stopped; otherwise it tracks the comma-separated keywords (not trimmed)
        and, if the stream accepts the filter, is monitoring. */
    method StartMonitoring(streamOk: bool) returns (outcome: StartOutcome)
      modifies this`monitoring, this`trackedKeywords
      ensures old(monitoring) ==> outcome == Returned && monitoring && trackedKeywords == old(trackedKeywords)
      ensures !old(monitoring) && !configManager.IsConfigValid() ==>
                outcome == InvalidConfiguration && !monitoring && trackedKeywords == old(trackedKeywords)
      ensures !old(monitoring) && configManager.IsConfigValid() && !streamOk ==>
                outcome == StartFailed && !monitoring && trackedKeywords == old(trackedKeywords)
      ensures !old(monitoring) && configManager.IsConfigValid() && streamOk ==>
                outcome == Returned && monitoring &&
                trackedKeywords == JavaSplit(configManager.GetConfig(SearchKeywords), ',')
    {
      if monitoring {
        return Returned;
      }
      if !configManager.IsConfigValid() {
        return InvalidConfiguration;
      }
      var keywordsStr := configManager.GetConfig(SearchKeywords);
      var keywords := JavaSplit(keywordsStr, ',');
      if !streamOk {
        return StartFailed;
      }
      trackedKeywords := keywords;
      monitoring := true;
      outcome := Returned;
    }

    /** stopMonitoring: shuts the stream down if it was running. */
    method StopMonitoring()
      modifies this`monitoring
      ensures !monitoring
    {
      if !monitoring {
        return;
      }
      monitoring := false;
    }

    /** processStatus, proved against Intake. */
    method ProcessStatus(status: Status, answer: AnswerOutcome, failing: set<Listener>, post: PostOutcome)
      requires Valid()
      // The answering service refuses every question while the configuration is invalid.
      requires !configManager.IsConfigValid() ==> answer.AnswerThrew?
      modifies this`processedTweets, this`asked, this`deliveries, this`sent
      ensures Valid()
      ensures old(processedTweets) <= processedTweets
      ensures forall t | t in processedTweets[|old(processedTweets)|..] :: fresh(t)
      ensures State() == Intake(old(State()), updateListeners,
                                   configManager.GetBooleanConfig(AutoReplyEnabled),
                                   status, answer, failing, post)
    {
      ghost var p0 := State();
      if status.isRetweet {
        return;
      }
      var tweetText := status.text;
      if ContainsQuestion(tweetText) {
        var question := ExtractQuestion(tweetText);
        asked := asked + [question];
        if answer.AnswerThrew? {
          return;
        }
        var processedTweet := new ProcessedTweet(status.id, status.screenName, status.name,
                                                 status.createdAt, tweetText, question,
                                                 answer.answer, false);
        processedTweets := processedTweets + [processedTweet];
        assert Views(processedTweets) == p0.tweets + [processedTweet.View()];
        DistinctAppend(old(processedTweets), processedTweet);
        var completed := NotifyUpdateListeners(processedTweet, failing);
        ghost var p2 := State();
        assert p2 == p0.(asked := p0.asked + [question],
                         tweets := p0.tweets + [processedTweet.View()],
                         deliveries := p0.deliveries + DeliveriesTo(Called(updateListeners, failing), status.id));
        ghost var autoReply := configManager.GetBooleanConfig(AutoReplyEnabled);
        IntakeAnswered(p0, updateListeners, autoReply, status, answer.answer, failing, post);
        if completed && configManager.GetBooleanConfig(AutoReplyEnabled) {
          assert processedTweets[|p0.tweets|] == processedTweet;
          assert IndexOf(processedTweets, processedTweet) == |p0.tweets|;
          ReplyToTweet(processedTweet, post);
        }
      }
    }

    /** replyToTweet: posts "@username answer" in reply to the tweet and marks it replied
        only if the post went through; a failure changes nothing. */
    method ReplyToTweet(tweet: ProcessedTweet, post: PostOutcome)
      requires Valid()
      modifies tweet, this`sent
      ensures Valid()
      ensures tweet.replied == (old(tweet.replied) || post.Posted?)
      ensures sent == old(sent) + (if post.Posted? then [Reply(tweet.tweetId, ReplyText(tweet.username, tweet.answer))] else [])
      ensures tweet in processedTweets ==>
                State() == ReplyEffect(old(State()), IndexOf(processedTweets, tweet), post)
    {
      var reply := "@" + tweet.username + " " + FormatReply(tweet.answer);
      if post.PostFailed? {
        return;
      }
      ghost var before := Views(processedTweets);
      sent := sent + [Reply(tweet.tweetId, reply)];
      tweet.SetReplied(true);
      if tweet in processedTweets {
        var i := IndexOf(processedTweets, tweet);
        forall k | 0 <= k < |processedTweets|
          ensures Views(processedTweets)[k] == before[i := before[i].(replied := true)][k]
        {
          if k != i {
            assert processedTweets[k] != tweet;
          }
        }
      }
    }

    /** getProcessedTweets: a copy of the list, same records in the same order. */
    method GetProcessedTweets() returns (tweets: seq<ProcessedTweet>)
      ensures tweets == processedTweets
    {
      tweets := processedTweets;
    }

    method AddUpdateListener(listener: Listener)
      modifies this`updateListeners
      ensures updateListeners == old(updateListeners) + [listener]
    {
      updateListeners := updateListeners + [listener];
    }

    method RemoveUpdateListener(listener: Listener)
      modifies this`updateListeners
      ensures updateListeners == RemoveFirst(old(updateListeners), listener)
    {
      updateListeners := RemoveFirst(updateListeners, listener);
    }

    /** notifyUpdateListeners: calls each listener in order; a listener that throws ends the
        loop, and `completed` tells whether the loop ran to its end. */
    method NotifyUpdateListeners(tweet: ProcessedTweet, failing: set<Listener>) returns (completed: bool)
      modifies this`deliveries
      ensures deliveries == old(deliveries) + DeliveriesTo(Called(updateListeners, failing), tweet.tweetId)
      ensures completed == Completes(updateListeners, failing)
    {
      var i := 0;
      while i < |updateListeners|
        invariant 0 <= i <= |updateListeners|
        invariant Completes(updateListeners[..i], failing)
        invariant deliveries == old(deliveries) + DeliveriesTo(updateListeners[..i], tweet.tweetId)
      {
        var listener := updateListeners[i];
        assert updateListeners[..i + 1] == updateListeners[..i] + [listener];
        deliveries := deliveries + [Delivery(listener, tweet.tweetId)];
        if listener in failing {
          CalledUpTo(updateListeners, failing, i);
          return false;
        }
        i := i + 1;
      }
      CalledUpTo(updateListeners, failing, i);
      assert updateListeners[..i] == updateListeners;
      completed := true;
    }

    function IsMonitoring(): (b: bool)
      reads this
      ensures b == monitoring
    {
      monitoring
    }
  }

  /** No record is stored twice. */
  ghost predicate Distinct(ts: seq<ProcessedTweet>)
  {
    forall i, j | 0 <= i < j < |ts| :: ts[i] != ts[j]
  }

  lemma DistinctAppend(ts: seq<ProcessedTweet>, t: ProcessedTweet)
    requires Distinct(ts) && t !in ts
    ensures Distinct(ts + [t])
  {
  }

  function Views(ts: seq<ProcessedTweet>): (vs: seq<TweetView>)
    reads ts
  {
    seq(|ts|, k requires 0 <= k < |ts| reads ts => ts[k].View())
  }

  /** The listeners before the first failing one are all called. */
  lemma {:induction false} CalledUpTo(listeners: seq<Listener>, failing: set<Listener>, i: nat)
    requires i <= |listeners| && Completes(listeners[..i], failing)
    ensures Called(listeners, failing) == listeners[..i] + Called(listeners[i..], failing)
    ensures i < |listeners| && listeners[i] in failing ==> Called(listeners, failing) == listeners[..i + 1]
    ensures i == |listeners| ==> Called(listeners, failing) == listeners
  {
    if i > 0 {
      assert listeners[0] == listeners[..i][0];
      CalledUpTo(listeners[1..], failing, i - 1);
      assert listeners[1..][..i - 1] == listeners[1..i];
      assert listeners[1..][i - 1..] == listeners[i..];
      assert listeners[..i] == [listeners[0]] + listeners[1..i];
    }
    if i < |listeners| && listeners[i] in failing {
      assert listeners[..i + 1] == listeners[..i] + [listeners[i]];
    }
    if i == |listeners| {
      assert listeners[..i] == listeners;
    }
  }

  // ---------------------------------------------------------------------------
  // Properties of the heuristics
  // ---------------------------------------------------------------------------

  /** Being a question survives adding text on either side: the test is a substring test. */
  lemma ContainsQuestionExtend(p: string, s: string, q: string)
    requires ContainsQuestion(s)
    ensures ContainsQuestion(p + s + q)
  {
    LowerConcat(p + s, q);
    LowerConcat(p, s);
    assert Lower(p + s + q) == Lower(p) + Lower(s) + Lower(q);
    if Contains(s, "?") {
      ContainsExtend(p, s, q, "?");
    } else {
      var w :| w in QuestionWords && Contains(Lower(s), w);
      ContainsExtend(Lower(p), Lower(s), Lower(q), w);
    }
  }

  /** Sample questions: a question mark, and a question word inside another word. */
  lemma QuestionExamples()
    ensures ContainsQuestion("How do I configure pubsub+?")
    ensures ContainsQuestion("What is pubsub+?")
    ensures ContainsQuestion("I scanned the docs")
  {
    assert OccursAt("How do I configure pubsub+?", "?", 26);
    assert OccursAt("What is pubsub+?", "?", 15);
    var scanned := "I scanned the docs";
    assert Lower(scanned)[3..6] == "can";
    assert OccursAt(Lower(scanned), "can", 3);
  }

  /** A statement with none of the ten triggers is not a question. */
  lemma StatementExample()
    ensures !ContainsQuestion("Solace is great today")
  {
    var plain := "Solace is great today";
    LowerStatement();
    assert !Contains(plain, "?") by {
      if Contains(plain, "?") { ContainsChars(plain, "?", 0); }
    }
    NoQuestionWordInStatement();
  }

  lemma LowerStatement()
    ensures Lower("Solace is great today") == "solace is great today"
  {
  }

  lemma NoQuestionWordInStatement()
    ensures forall w | w in QuestionWords :: !Contains("solace is great today", w)
  {
    var lowered := "solace is great today";
    assert !Contains(lowered, "can") by {
      if Contains(lowered, "can") { ContainsChars(lowered, "can", 2); }
    }
    assert !Contains(lowered, "could") by {
      if Contains(lowered, "could") { ContainsChars(lowered, "could", 2); }
    }
    assert !Contains(lowered, "how") by {
      if Contains(lowered, "how") { ContainsChars(lowered, "how", 0); }
    }
    forall w | w in ["what", "when", "where", "why", "who", "which"]
      ensures !Contains(lowered, w)
    {
      if Contains(lowered, w) { ContainsChars(lowered, w, 1); }
    }
  }

  /** A formatted reply is left alone by a second formatting. */
  lemma FormatReplyIdempotent(answer: string)
    ensures FormatReply(FormatReply(answer)) == FormatReply(answer)
  {
  }

  /** The listeners called for one record are a prefix of the registered ones, taken in
      order: every one of them but the last returned normally, the loop stops early only at
      a listener that throws, and when none throws all of them are called. */
  lemma {:induction false} CalledMeaning(listeners: seq<Listener>, failing: set<Listener>)
    ensures |Called(listeners, failing)| <= |listeners|
    ensures Called(listeners, failing) == listeners[..|Called(listeners, failing)|]
    ensures forall k | 0 <= k < |Called(listeners, failing)| - 1 :: Called(listeners, failing)[k] !in failing
    ensures |Called(listeners, failing)| < |listeners| ==>
              Called(listeners, failing) != [] && Called(listeners, failing)[|Called(listeners, failing)| - 1] in failing
    ensures Completes(listeners, failing) ==> Called(listeners, failing) == listeners
  {
    if listeners != [] && listeners[0] !in failing {
      CalledMeaning(listeners[1..], failing);
      var rest := Called(listeners[1..], failing);
      assert Called(listeners, failing) == [listeners[0]] + rest;
      assert listeners[..|rest| + 1] == [listeners[0]] + listeners[1..][..|rest|];
      if Completes(listeners, failing) {
        assert Completes(listeners[1..], failing) by {
          forall k | 0 <= k < |listeners[1..]| ensures listeners[1..][k] !in failing {
            assert listeners[1..][k] == listeners[k + 1];
          }
        }
        assert listeners == [listeners[0]] + listeners[1..];
      }
    }
  }

  // ---------------------------------------------------------------------------
  // Properties of the intake
  // ---------------------------------------------------------------------------

  /** A retweet or a text that is not a question changes nothing: no record, no answer
      request, no listener call, no reply. */
  lemma IntakeIgnores(p: Pipeline, listeners: seq<Listener>, autoReply: bool, status: Status,
                      answer: AnswerOutcome, failing: set<Listener>, post: PostOutcome)
    requires status.isRetweet || !ContainsQuestion(status.text)
    ensures Intake(p, listeners, autoReply, status, answer, failing, post) == p
  {
  }

  /** When the Agent Mesh call throws, the question was passed to it but nothing else happens. */
  lemma IntakeAnswerFails(p: Pipeline, listeners: seq<Listener>, autoReply: bool, status: Status,
                          failing: set<Listener>, post: PostOutcome)
    requires Qualifies(status)
    ensures Intake(p, listeners, autoReply, status, AnswerThrew, failing, post) ==
              p.(asked := p.asked + [status.text])
  {
  }

  /** A status that produces a record appends exactly one at the end, leaves the earlier
      ones alone, stores the text as the question with the oracle's answer, calls the
      listeners in registration order, and the record ends up replied exactly when
      auto-reply was on, every listener returned and the post went through. */
  lemma IntakeRecords(p: Pipeline, listeners: seq<Listener>, autoReply: bool, status: Status,
                      a: string, failing: set<Listener>, post: PostOutcome)
    requires Qualifies(status)
    ensures var r := Intake(p, listeners, autoReply, status, Answered(a), failing, post);
            var replied := autoReply && Completes(listeners, failing) && post.Posted?;
            |r.tweets| == |p.tweets| + 1 &&
            r.tweets[..|p.tweets|] == p.tweets &&
            r.tweets[|p.tweets|] == TweetView(status.id, status.screenName, status.name,
                                              status.createdAt, status.text, status.text, a, replied) &&
            r.asked == p.asked + [status.text] &&
            r.deliveries == p.deliveries + DeliveriesTo(Called(listeners, failing), status.id) &&
            r.sent == p.sent + (if replied then [Reply(status.id, ReplyText(status.screenName, a))] else [])
  {
    IntakeAnswered(p, listeners, autoReply, status, a, failing, post);
    var r := Intake(p, listeners, autoReply, status, Answered(a), failing, post);
    assert r.tweets[..|p.tweets|] == p.tweets;
  }

  /** Whatever happens, the stored records before the call are kept as they were, at most
      one is added, and the logs only grow. */
  lemma IntakeKeepsEarlier(p: Pipeline, listeners: seq<Listener>, autoReply: bool, status: Status,
                           answer: AnswerOutcome, failing: set<Listener>, post: PostOutcome)
    ensures var r := Intake(p, listeners, autoReply, status, answer, failing, post);
            |p.tweets| <= |r.tweets| <= |p.tweets| + 1 &&
            r.tweets[..|p.tweets|] == p.tweets &&
            p.asked <= r.asked && p.deliveries <= r.deliveries && p.sent <= r.sent
  {
    if Qualifies(status) && answer.Answered? {
      IntakeRecords(p, listeners, autoReply, status, answer.answer, failing, post);
    }
  }

  /** After a run of statuses, the stored records are the earlier ones followed by one per
      status that was a question and got an answer, in arrival order. */
  lemma {:induction false} IntakeAllOrder(p: Pipeline, listeners: seq<Listener>, run: seq<Event>)
    ensures |IntakeAll(p, listeners, run).tweets| == |p.tweets| + |Recorded(run)|
    ensures IntakeAll(p, listeners, run).tweets[..|p.tweets|] == p.tweets
    ensures Ids(IntakeAll(p, listeners, run).tweets) == Ids(p.tweets) + Recorded(run)
    decreases |run|
  {
    if run == [] {
      assert p.tweets[..|p.tweets|] == p.tweets;
    } else {
      var e := run[|run| - 1];
      var before := IntakeAll(p, listeners, run[..|run| - 1]);
      IntakeAllOrder(p, listeners, run[..|run| - 1]);
      IntakeStep(before, listeners, e);
      var after := IntakeAll(p, listeners, run);
      assert after.tweets[..|p.tweets|] == before.tweets[..|before.tweets|][..|p.tweets|];
    }
  }

  /** One status of a run: the records so far are kept, and the id is added when the status
      produces a record. */
  lemma IntakeStep(before: Pipeline, listeners: seq<Listener>, e: Event)
    ensures var after := Intake(before, listeners, e.autoReply, e.status, e.answer, e.failing, e.post);
            var added := if Qualifies(e.status) && e.answer.Answered? then [e.status.id] else [];
            |after.tweets| == |before.tweets| + |added| &&
            after.tweets[..|before.tweets|] == before.tweets &&
            Ids(after.tweets) == Ids(before.tweets) + added
  {
    var after := Intake(before, listeners, e.autoReply, e.status, e.answer, e.failing, e.post);
    if Qualifies(e.status) && e.answer.Answered? {
      IntakeRecords(before, listeners, e.autoReply, e.status, e.answer.answer, e.failing, e.post);
      assert after.tweets == before.tweets + [after.tweets[|before.tweets|]];
    } else {
      assert after.tweets == before.tweets;
    }
  }

  /** Replying twice to the same record posts twice: nothing in replyToTweet guards against
      a second call. */
  lemma DoubleReplyPostsTwice(p: Pipeline, i: nat)
    requires i < |p.tweets|
    ensures var once := ReplyEffect(p, i, Posted);
            var twice := ReplyEffect(once, i, Posted);
            twice.tweets[i].replied &&
            |twice.sent| == |p.sent| + 2 && twice.sent[|p.sent|] == twice.sent[|p.sent| + 1]
  {
  }

  /** A reply changes only the replied flag of its record, and only from false to true. */
  lemma ReplyEffectOnlyMarks(p: Pipeline, i: nat, post: PostOutcome)
    requires i < |p.tweets|
    ensures var r := ReplyEffect(p, i, post);
            |r.tweets| == |p.tweets| &&
            (forall k | 0 <= k < |p.tweets| && k != i :: r.tweets[k] == p.tweets[k]) &&
            r.tweets[i] == p.tweets[i].(replied := p.tweets[i].replied || post.Posted?) &&
            r.asked == p.asked && r.deliveries == p.deliveries
  {
  }

  /** The end-to-end case: "What is pubsub+?" answered "It's an event broker protocol."
      with auto-reply on and one listener gives one unreplied-then-replied record and the
      reply "@<handle> It's an event broker protocol."; a retweet of it gives nothing. */
  lemma EndToEndScenario(handle: string, id: Long, createdAt: int)
    ensures var status := Status(id, handle, "Someone", createdAt, "What is pubsub+?", false);
            var r := Intake(Pipeline([], [], [], []), [7], true, status,
                            Answered("It's an event broker protocol."), {}, Posted);
            r.tweets == [TweetView(id, handle, "Someone", createdAt, "What is pubsub+?", "What is pubsub+?",
                                   "It's an event broker protocol.", true)] &&
            r.asked == ["What is pubsub+?"] &&
            r.deliveries == [Delivery(7, id)] &&
            r.sent == [Reply(id, "@" + handle + " " + "It's an event broker protocol.")]
    ensures var retweet := Status(id, handle, "Someone", createdAt, "What is pubsub+?", true);
            Intake(Pipeline([], [], [], []), [7], true, retweet,
                   Answered("It's an event broker protocol."), {}, Posted) == Pipeline([], [], [], [])
  {
    var text := "What is pubsub+?";
    assert ContainsQuestion(text) by {
      assert OccursAt(text, "?", 15);
    }
    var answer := "It's an event broker protocol.";
    var status := Status(id, handle, "Someone", createdAt, text, false);
    IntakeRecords(Pipeline([], [], [], []), [7], true, status, answer, {}, Posted);
    assert Called([7], {}) == [7];
    assert DeliveriesTo([7], id) == [Delivery(7, id)];
    assert FormatReply(answer) == answer;
  }

  // ---------------------------------------------------------------------------
  // Properties of the listener list and the keyword list
  // ---------------------------------------------------------------------------

  /** removeUpdateListener takes out the first registration of the listener and keeps the
      order of the rest; a listener that is not registered leaves the list as it was. */
  lemma {:induction false} RemoveFirstMeaning(listeners: seq<Listener>, listener: Listener)
    ensures listener !in listeners ==> RemoveFirst(listeners, listener) == listeners
    ensures listener in listeners ==>
              var i := IndexOf(listeners, listener);
              RemoveFirst(listeners, listener) == listeners[..i] + listeners[i + 1..]
    decreases |listeners|
  {
    if listeners != [] {
      RemoveFirstMeaning(listeners[1..], listener);
      assert listeners == [listeners[0]] + listeners[1..];
      if listeners[0] != listener && listener in listeners {
        assert listener in listeners[1..];
        var j := IndexOf(listeners[1..], listener);
        assert IndexOf(listeners, listener) == j + 1;
        assert listeners[..j + 1] == [listeners[0]] + listeners[1..][..j];
        assert listeners[j + 2..] == listeners[1..][j + 1..];
      }
    }
  }

  /** Removing takes away exactly one registration of the listener, if it has one. */
  lemma {:induction false} RemoveFirstCount(listeners: seq<Listener>, listener: Listener)
    ensures multiset(RemoveFirst(listeners, listener)) == multiset(listeners) - multiset{listener}
    decreases |listeners|
  {
    if listeners != [] {
      var rest := listeners[1..];
      assert listeners == [listeners[0]] + rest;
      assert multiset(listeners) == multiset{listeners[0]} + multiset(rest);
      if listeners[0] != listener {
        RemoveFirstCount(rest, listener);
        assert RemoveFirst(listeners, listener) == [listeners[0]] + RemoveFirst(rest, listener);
      }
    }
  }

  /** Adding a new listener and removing it again restores the list. */
  lemma {:induction false} AddThenRemove(listeners: seq<Listener>, listener: Listener)
    requires listener !in listeners
    ensures RemoveFirst(listeners + [listener], listener) == listeners
    decreases |listeners|
  {
    if listeners != [] {
      assert (listeners + [listener])[1..] == listeners[1..] + [listener];
      AddThenRemove(listeners[1..], listener);
      assert listeners == [listeners[0]] + listeners[1..];
    }
  }

  /** The default keyword setting tracks five phrases, taken as written between the commas. */
  lemma DefaultKeywordsSplit()
    ensures JavaSplit(DefaultKeywords, ',') ==
              ["solace", "pubsub+", "event mesh", "event portal", "event broker"]
  {
    var ps := ["solace", "pubsub+", "event mesh", "event portal", "event broker"];
    DefaultKeywordsJoin();
    assert NoneContains(ps, ',');
    SplitOfJoin(ps, ',');
  }

  /** The default keyword setting is the five phrases joined with commas. */
  lemma DefaultKeywordsJoin()
    ensures Join(["solace", "pubsub+", "event mesh", "event portal", "event broker"], ',') == DefaultKeywords
  {
    JoinFive("solace", "pubsub+", "event mesh", "event portal", "event broker", ',');
  }

  lemma JoinFive(a: string, b: string, c: string, d: string, e: string, sep: char)
    ensures Join([a, b, c, d, e], sep) == a + [sep] + b + [sep] + c + [sep] + d + [sep] + e
  {
    var ps := [a, b, c, d, e];
    assert ps[1..] == [b, c, d, e];
    assert ps[1..][1..] == [c, d, e];
    assert ps[1..][1..][1..] == [d, e];
    assert ps[1..][1..][1..][1..] == [e];
    var t := d + [sep] + e;
    assert Join(ps[3..], sep) == t;
    assert Join(ps[2..], sep) == c + [sep] + t;
    assert Join(ps[1..], sep) == b + [sep] + (c + [sep] + t);
    assert c + [sep] + t == c + [sep] + d + [sep] + e;
    assert b + [sep] + (c + [sep] + d + [sep] + e) == b + [sep] + c + [sep] + d + [sep] + e;
    assert a + [sep] + (b + [sep] + c + [sep] + d + [sep] + e) == a + [sep] + b + [sep] + c + [sep] + d + [sep] + e;
  }

  /** Keywords are not trimmed: a space after a comma stays in the keyword. */
  lemma KeywordsNotTrimmed()
    ensures JavaSplit("solace, pubsub+", ',') == ["solace", " pubsub+"]
  {
    var ps := ["solace", " pubsub+"];
    assert Join(ps[1..], ',') == " pubsub+";
    assert Join(ps, ',') == "solace, pubsub+";
    assert NoneContains(ps, ',');
    SplitOfJoin(ps, ',');
  }
}
