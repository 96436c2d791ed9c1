/** A question tweet that went through the intake pipeline, with the answer obtained
    for it. Every field is fixed at construction except the `replied` flag. */
module Tweets {
  import opened Text

  /** Java's `long`, the type of a tweet id. */
  newtype Long = x: int | -0x8000_0000_0000_0000 <= x < 0x8000_0000_0000_0000

  const UrlPrefix: string := "https://twitter.com/"
  const StatusSegment: string := "/status/"

  /** The value of every field of a processed tweet at one moment. */
  datatype TweetView = TweetView(
    tweetId: Long,
    username: string,
    userDisplayName: string,
    createdAt: int,        // java.util.Date, as milliseconds since the epoch
    tweetText: string,
    extractedQuestion: string,
    answer: string,
    replied: bool)

  class ProcessedTweet {
    const tweetId: Long
    const username: string
    const userDisplayName: string
    const createdAt: int
    const tweetText: string
    const extractedQuestion: string
    const answer: string
    var replied: bool

    /** Every field takes the matching argument; the getters are these fields. */
    constructor (tweetId: Long, username: string, userDisplayName: string, createdAt: int,
                 tweetText: string, extractedQuestion: string, answer: string, replied: bool)
      ensures this.tweetId == tweetId && this.username == username
      ensures this.userDisplayName == userDisplayName && this.createdAt == createdAt
      ensures this.tweetText == tweetText && this.extractedQuestion == extractedQuestion
      ensures this.answer == answer && this.replied == replied
      ensures View() == TweetView(tweetId, username, userDisplayName, createdAt,
                                  tweetText, extractedQuestion, answer, replied)
    {
      this.tweetId := tweetId;
      this.username := username;
      this.userDisplayName := userDisplayName;
      this.createdAt := createdAt;
      this.tweetText := tweetText;
      this.extractedQuestion := extractedQuestion;
      this.answer := answer;
      this.replied := replied;
    }

    function View(): TweetView
      reads this
    {
      TweetView(tweetId, username, userDisplayName, createdAt, tweetText, extractedQuestion, answer, replied)
    }

    /** Sets the flag to the given value in either direction; nothing else changes.
        (TwitterUrl reads no mutable field, so no call of this method can change it.) */
    method SetReplied(replied: bool)
      modifies this
      ensures this.replied == replied
      ensures View() == old(View()).(replied := replied)
    {
      this.replied := replied;
    }

    /** The tweet's web address; it depends on the username and the id only, and for a
        screen name (no '/') both can be read back from it. */
    function TwitterUrl(): (url: string)
      ensures |url| > |UrlPrefix| && url[..|UrlPrefix|] == UrlPrefix
      ensures '/' !in username ==> ParseStatusUrl(url) == Some(UrlParts(username, tweetId as int))
    {
      if '/' !in username then
        StatusUrlRoundTrip(username, tweetId);
        StatusUrl(username, tweetId)
      else
        StatusUrl(username, tweetId)
    }
  }

  /** "https://twitter.com/" + username + "/status/" + the id in decimal. */
  function StatusUrl(username: string, tweetId: Long): (url: string)
  {
    UrlPrefix + username + StatusSegment + IntToDecimal(tweetId as int)
  }

  datatype UrlParts = UrlParts(username: string, tweetId: int)

  /** Reads a status URL back into its username and id. */
  function ParseStatusUrl(url: string): (r: Option<UrlParts>)
  {
    if |url| < |UrlPrefix| || url[..|UrlPrefix|] != UrlPrefix then None
    else
      var rest := url[|UrlPrefix|..];
      if '/' !in rest then None
      else
        var j := IndexOf(rest, '/');
        var tail := rest[j..];
        if |tail| < |StatusSegment| || tail[..|StatusSegment|] != StatusSegment then None
        else
          match ParseDecimal(tail[|StatusSegment|..])
          case None => None
          case Some(n) => Some(UrlParts(rest[..j], n))
  }

  /** A status URL names its tweet: for a username without '/' (screen names are letters,
      digits and '_'), the username and the id are read back from the URL. */
  lemma StatusUrlRoundTrip(username: string, tweetId: Long)
    requires '/' !in username
    ensures ParseStatusUrl(StatusUrl(username, tweetId)) == Some(UrlParts(username, tweetId as int))
  {
    var url := StatusUrl(username, tweetId);
    var digits := IntToDecimal(tweetId as int);
    assert url[..|UrlPrefix|] == UrlPrefix;
    var rest := url[|UrlPrefix|..];
    assert rest == username + StatusSegment + digits;
    assert rest[|username|] == '/';
    assert rest[..|username|] == username;
    var j := IndexOf(rest, '/');
    assert j == |username|;
    assert rest[j..] == StatusSegment + digits;
    assert (StatusSegment + digits)[|StatusSegment|..] == digits;
    DecimalRoundTrip(tweetId as int);
  }

  /** Different tweets have different URLs. */
  lemma NoSlashAfter(a: string, d: string)
    requires '/' !in d
    ensures forall j | |a| <= j < |a + d| :: (a + d)[j] != '/'
  {
    forall j | |a| <= j < |a + d| ensures (a + d)[j] != '/' {
      assert (a + d)[j] == d[j - |a|];
    }
  }

  lemma StatusUrlInjective(u1: string, id1: Long, u2: string, id2: Long)
    requires StatusUrl(u1, id1) == StatusUrl(u2, id2)
    ensures u1 == u2 && id1 == id2
  {
    var url := StatusUrl(u1, id1);
    var a1, d1 := UrlPrefix + u1 + StatusSegment, IntToDecimal(id1 as int);
    var a2, d2 := UrlPrefix + u2 + StatusSegment, IntToDecimal(id2 as int);
    assert url == a1 + d1 == a2 + d2;
    DecimalHasNoSlash(id1 as int);
    DecimalHasNoSlash(id2 as int);
    // The last '/' of the URL is the one that ends "/status/": the digits after it hold none.
    assert url[|a1| - 1] == '/' && url[|a2| - 1] == '/';
    NoSlashAfter(a1, d1);
    NoSlashAfter(a2, d2);
    if |d1| != |d2| {
      assert false;
    }
    assert d1 == url[|a1|..] == d2;
    assert a1 == url[..|a1|] == a2;
    DecimalRoundTrip(id1 as int);
    DecimalRoundTrip(id2 as int);
    assert u1 == a1[|UrlPrefix|..|a1| - |StatusSegment|];
    assert u2 == a2[|UrlPrefix|..|a2| - |StatusSegment|];
  }
}
