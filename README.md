# Solace Twitter integration: the intake pipeline, its settings and its records

This project models the sequential core of a desktop application. The application watches
Twitter for posts about Solace, asks Solace Agent Mesh to answer the ones that look like
questions, keeps a record of each answered post and can reply to the post with the answer.
Three source classes are modelled:

- **`ProcessedTweet`** (`processed_tweet.dfy`, module `Tweets`). It is a class with seven
  `const` fields and one mutable flag, `replied`. `View()` is the record's value at one moment.
  `TwitterUrl` builds the post's web address, and `ParseStatusUrl` reads that address back.
- **`ConfigManager`** (`config_manager.dfy`, module `Config`). It is a class holding the
  string-to-string `properties` map and the `configLoaded` flag. Its methods change both in
  place.
  - The properties file is a parameter of type `ConfigFile`: absent, unreadable after some
    pairs were read, or read completely.
  - `Load` is the specification function for `loadConfig`, and `ApplySettings` stands for a run
    of `setConfig` calls.
- **`TwitterService`** (`twitter_service.dfy`, module `Service`). The text heuristics
  (`ContainsQuestion`, `ExtractQuestion`, `FormatReply`) are pure functions. The service
  itself is a class with these fields:
  - the `monitoring` flag and the tracked keywords;
  - the stored `ProcessedTweet` objects;
  - the listener list;
  - three logs of what the service does to the outside world: the questions passed to
    Agent Mesh's `processQuestion`, the listener calls and the posted replies.

  Every outside call is an argument of the method that makes it:
  - the Agent Mesh answer, which returns a string or throws;
  - the set of listeners that throw;
  - whether the post succeeds;
  - whether the stream accepts the filter.

  `processStatus` is proved against the pure function `Intake`. `IntakeAll` gives the meaning
  of a run of statuses.

`text.dfy` (module `Text`) gives the Java library behaviour the core relies on:
- `String.contains`;
- `toLowerCase`, on ASCII letters only;
- `equalsIgnoreCase`;
- `String.split` on a one-character separator, which drops trailing empty pieces;
- `Long.toString`, together with a decimal reader that is its inverse.

`formatReply`'s comment names Twitter's 280-character limit
(src/main/java/com/solace/twitter/service/TwitterService.java:236). The code cuts a long answer
to its first 276 characters plus `"..."`, which is 279 characters in all, and the model does the
same. The `@user ` prefix in front of the answer is not counted against the limit.

## Model

| member | source | states |
|---|---|---|
| Tweets.ProcessedTweet.constructor | src/main/java/com/solace/twitter/model/ProcessedTweet.java:29-40 | every field, and so every getter, equals its constructor argument, `replied` included |
| Tweets.ProcessedTweet.SetReplied | src/main/java/com/solace/twitter/model/ProcessedTweet.java:110-112 | `replied` becomes the given value in either direction (no one-way rule) and the seven other fields keep their values |
| Tweets.ProcessedTweet.TwitterUrl | src/main/java/com/solace/twitter/model/ProcessedTweet.java:118-120 | the URL starts with `https://twitter.com/`, and for a screen name without `/` the username and the id are read back from it; it reads no mutable field, so `setReplied` cannot change it |
| Tweets.StatusUrlRoundTrip | src/main/java/com/solace/twitter/model/ProcessedTweet.java:118-120 | the URL is `https://twitter.com/` + username + `/status/` + the decimal id; for a screen name without `/`, read back it gives exactly that username and id |
| Tweets.StatusUrlInjective | src/main/java/com/solace/twitter/model/ProcessedTweet.java:118-120 | two records with different usernames or ids have different URLs, for any screen name: the digits after the last `/` are the id |
| Text.DecimalRoundTrip | src/main/java/com/solace/twitter/model/ProcessedTweet.java:119 | the decimal text of any `long` (with a minus sign when it is negative) reads back as that number |
| Text.NatToDecimal | src/main/java/com/solace/twitter/model/ProcessedTweet.java:119 | the digits of the id are non-empty decimal digits with no leading zero |
| Config.ConfigManager.constructor | src/main/java/com/solace/twitter/service/ConfigManager.java:31-34 | an empty, not-loaded map followed by one `Load` |
| Config.ConfigManager.LoadConfig | src/main/java/com/solace/twitter/service/ConfigManager.java:39-56 | the new map and flag are `Load` of the old ones |
| Config.ConfigManager.SaveConfig | src/main/java/com/solace/twitter/service/ConfigManager.java:61-68 | what is written is the whole map, and nothing in memory changes |
| Config.ConfigManager.SetDefaultConfig | src/main/java/com/solace/twitter/service/ConfigManager.java:73-82 | the eight defaults are set over the map, other keys stay and the flag is untouched |
| Config.ConfigManager.GetConfig | src/main/java/com/solace/twitter/service/ConfigManager.java:89-91 | the stored value, or `""` when the key is absent |
| Config.ConfigManager.GetBooleanConfig | src/main/java/com/solace/twitter/service/ConfigManager.java:98-100 | true exactly when the key is present and its value lower-cased is `"true"`; an absent key gives false |
| Config.ParseBoolean | src/main/java/com/solace/twitter/service/ConfigManager.java:99 | `Boolean.parseBoolean`: true exactly for `"true"` in any mix of cases |
| Text.EqualsIgnoreCaseLower | src/main/java/com/solace/twitter/service/ConfigManager.java:99 | comparing with a lower-case word while ignoring case is the same as comparing the lower-cased string with it, in both directions |
| Config.ConfigManager.SetConfig | src/main/java/com/solace/twitter/service/ConfigManager.java:107-109 | only this key changes and it reads back as the new value; the flag is not in the frame |
| Config.SetThenGet | src/main/java/com/solace/twitter/service/ConfigManager.java:107-109 | after setting a key it reads as the new value and every other key reads as before |
| Config.SettingsKeepLoaded | src/main/java/com/solace/twitter/service/ConfigManager.java:107-109 | no run of `setConfig` calls changes `configLoaded` |
| Config.SettingsLastWins | src/main/java/com/solace/twitter/service/ConfigManager.java:107-109 | the last `setConfig` of a key decides what it reads as |
| Config.BooleanConfigMeaning | src/main/java/com/solace/twitter/service/ConfigManager.java:98-100 | the boolean reading is true exactly for a present `"true"` ignoring case; absent gives false; `"TRUE"` and `"True"` give true, `"false"` and `"yes"` give false |
| Config.ConfigManager.IsConfigValid | src/main/java/com/solace/twitter/service/ConfigManager.java:115-126 | true exactly when the configuration was loaded and all five credentials are present and non-empty |
| Config.ValidityMeaning | src/main/java/com/solace/twitter/service/ConfigManager.java:115-126 | not loaded means not valid; once loaded, valid exactly when all five credentials are present and non-empty |
| Config.ValidityIgnoresOtherKeys | src/main/java/com/solace/twitter/service/ConfigManager.java:120-125 | setting any key other than the five credentials (endpoint, auto-reply, keywords, anything else) never changes validity |
| Config.DefaultsKeys | src/main/java/com/solace/twitter/service/ConfigManager.java:73-82 | the defaults have exactly the eight named keys |
| Config.DefaultsContents | src/main/java/com/solace/twitter/service/ConfigManager.java:73-82 | five empty credentials, the Agent Mesh endpoint URL, auto-reply `"false"` and the five-keyword list |
| Config.FirstRunTrap | src/main/java/com/solace/twitter/service/ConfigManager.java:50-55 | with no file the map becomes the defaults and the flag stays false, so the configuration is invalid after any run of `setConfig` calls |
| Config.LoadReadable | src/main/java/com/solace/twitter/service/ConfigManager.java:42-46 | a readable file sets the flag; its keys read as the file's values and every other key reads as before; validity then depends on the credentials alone |
| Config.LoadUnreadable | src/main/java/com/solace/twitter/service/ConfigManager.java:47-49 | a failed read leaves the flag as it was, so a configuration that was not loaded stays invalid |
| Service.ContainsQuestion | src/main/java/com/solace/twitter/service/TwitterService.java:184-195 | a text is a question exactly when it contains `?` or its lower-cased form contains one of the nine question words, in both directions |
| Service.ContainsQuestionExtend | src/main/java/com/solace/twitter/service/TwitterService.java:184-195 | adding text on either side of a question keeps it a question, because the test is a substring test |
| Text.ContainsExtend | src/main/java/com/solace/twitter/service/TwitterService.java:185-194 | an occurrence of a substring survives adding text on either side |
| Service.QuestionExamples | src/main/java/com/solace/twitter/service/TwitterService.java:184-195 | two `?` texts are questions, and so is "I scanned the docs", through "can" inside "scanned" |
| Service.StatementExample | src/main/java/com/solace/twitter/service/TwitterService.java:184-195 | "Solace is great today" is not a question |
| Service.ExtractQuestion | src/main/java/com/solace/twitter/service/TwitterService.java:202-205 | the whole text is the question |
| Service.FormatReply | src/main/java/com/solace/twitter/service/TwitterService.java:235-245 | at most 280 characters; an answer of up to 280 is kept as it is; a longer one becomes its first 276 characters followed by `...`, 279 in all |
| Service.FormatReplyIdempotent | src/main/java/com/solace/twitter/service/TwitterService.java:235-245 | formatting a formatted reply changes nothing |
| Service.ReplyText | src/main/java/com/solace/twitter/service/TwitterService.java:214 | the posted text is the mention `@` + username + space, followed by the answer part: the answer itself when it has at most 280 characters, otherwise its first 276 characters and `...`; the mention is not counted against the limit |
| Service.TwitterService.constructor | src/main/java/com/solace/twitter/service/TwitterService.java:34-38 | not monitoring, no listeners, no records and empty logs |
| Service.TwitterService.StartMonitoring | src/main/java/com/solace/twitter/service/TwitterService.java:71-113 | nothing happens while already monitoring; with an invalid configuration it throws and stays stopped; if the stream fails it throws and stays stopped; otherwise it is monitoring and tracks the keyword setting split on `,` |
| Text.JavaSplitJoin | src/main/java/com/solace/twitter/service/TwitterService.java:85 | no piece of a split holds the separator, and joining the pieces gives the string back when it is empty or does not end with the separator |
| Text.SplitOfJoin | src/main/java/com/solace/twitter/service/TwitterService.java:85 | splitting the join of one or more separator-free pieces, the last one non-empty, gives those pieces back |
| Text.JavaSplit | src/main/java/com/solace/twitter/service/TwitterService.java:85 | `String.split`: a string without the separator gives itself as the only piece; otherwise the raw pieces with the trailing empty ones dropped; no piece holds the separator |
| Text.JoinPieces | src/main/java/com/solace/twitter/service/TwitterService.java:85 | the raw pieces join back to the string and hold no separator |
| Text.PiecesUnique | src/main/java/com/solace/twitter/service/TwitterService.java:85 | the raw pieces are the only separator-free list that joins to the string |
| Text.DropTrailingEmpty | src/main/java/com/solace/twitter/service/TwitterService.java:85 | the result is the longest prefix whose last piece is non-empty, and only empty pieces are dropped |
| Service.DefaultKeywordsSplit | src/main/java/com/solace/twitter/service/TwitterService.java:84-85 | the default keyword setting tracks exactly the five phrases |
| Service.KeywordsNotTrimmed | src/main/java/com/solace/twitter/service/TwitterService.java:85 | a space after a comma stays in the keyword |
| Service.TwitterService.IsMonitoring | src/main/java/com/solace/twitter/service/TwitterService.java:281-283 | the current value of the monitoring flag |
| Service.TwitterService.StopMonitoring | src/main/java/com/solace/twitter/service/TwitterService.java:118-126 | afterwards it is not monitoring, whether or not it was before |
| Service.TwitterService.ProcessStatus | src/main/java/com/solace/twitter/service/TwitterService.java:132-177 | the new records and logs are `Intake` of the old ones, with the listener list, the auto-reply setting and the outcomes of the outside calls; records stay distinct objects; the records stored before are still stored, the same objects in the same order, and the new record is a new object; it expects the answer to be an exception whenever the configuration is invalid, as the answering service makes it |
| Service.IntakeAnswered | src/main/java/com/solace/twitter/service/TwitterService.java:146-172 | an answered question adds its record and listener calls, and replies only when every listener returned and auto-reply is on |
| Service.IntakeIgnores | src/main/java/com/solace/twitter/service/TwitterService.java:134-142 | a retweet or a non-question changes nothing: no record, no answer request, no listener call, no reply |
| Service.IntakeAnswerFails | src/main/java/com/solace/twitter/service/TwitterService.java:146-176 | when the answer call throws, the question was passed to `processQuestion` and nothing else changes |
| Service.IntakeRecords | src/main/java/com/solace/twitter/service/TwitterService.java:146-171 | one record is appended after the earlier ones, which are unchanged; its question is the text and its answer is the oracle's; listeners are called in registration order up to the first that throws; it ends up replied exactly when auto-reply is on, every listener returned and the post succeeded |
| Service.IntakeKeepsEarlier | src/main/java/com/solace/twitter/service/TwitterService.java:132-177 | whatever happens, earlier records are kept unchanged, at most one is added and the logs only grow |
| Service.IntakeStep | src/main/java/com/solace/twitter/service/TwitterService.java:132-177 | one status adds its id to the stored ids exactly when it is a question that got an answer |
| Service.IntakeAllOrder | src/main/java/com/solace/twitter/service/TwitterService.java:164 | after a run of statuses the store holds the earlier records followed by one per answered question, in arrival order |
| Service.EndToEndScenario | src/main/java/com/solace/twitter/service/TwitterService.java:132-177 | "What is pubsub+?" with auto-reply on and one listener gives one replied record, one listener call and the reply `@handle It's an event broker protocol.`; its retweet gives nothing |
| Service.TwitterService.ReplyToTweet | src/main/java/com/solace/twitter/service/TwitterService.java:211-228 | on success, `@username formatted-answer` is posted in reply to the tweet's id and the record is marked replied; on failure nothing changes; for a stored record the new state is `ReplyEffect` of the old |
| Service.ReplyEffectOnlyMarks | src/main/java/com/solace/twitter/service/TwitterService.java:211-228 | a reply changes only its record's flag, and only to true on success |
| Service.DoubleReplyPostsTwice | src/main/java/com/solace/twitter/service/TwitterService.java:211-228 | nothing guards a second reply: two calls post the same text twice |
| Service.TwitterService.GetProcessedTweets | src/main/java/com/solace/twitter/service/TwitterService.java:251-253 | the copy has the same records in the same order |
| Service.TwitterService.AddUpdateListener | src/main/java/com/solace/twitter/service/TwitterService.java:259-261 | the listener is appended at the end |
| Service.TwitterService.RemoveUpdateListener | src/main/java/com/solace/twitter/service/TwitterService.java:267-269 | the list becomes `RemoveFirst` of the old list |
| Service.RemoveFirstMeaning | src/main/java/com/solace/twitter/service/TwitterService.java:267-269 | removal takes out the first registration of the listener and keeps the rest in order; an unregistered listener leaves the list as it was |
| Service.RemoveFirstCount | src/main/java/com/solace/twitter/service/TwitterService.java:267-269 | removal takes away exactly one registration, if there is one |
| Service.AddThenRemove | src/main/java/com/solace/twitter/service/TwitterService.java:259-269 | adding a new listener and then removing it restores the list |
| Service.TwitterService.NotifyUpdateListeners | src/main/java/com/solace/twitter/service/TwitterService.java:275-279 | each listener is called in order with the record, up to and including the first that throws; the loop completes exactly when none throws |
| Service.CalledMeaning | src/main/java/com/solace/twitter/service/TwitterService.java:275-279 | the listeners called are a prefix of the registered ones in order; all but the last returned; the loop stops early only at a listener that throws; if none throws, all are called |
| Service.CalledUpTo | src/main/java/com/solace/twitter/service/TwitterService.java:276-278 | after `i` listeners that returned normally, the rest of the calls are the calls on the remaining listeners |

## Left out

- twitter4j is not modelled: client construction, `initializeTwitter`, and the stream's `addListener`, `filter` and `shutdown`. Whether the stream accepts the filter is a parameter. Posting a reply succeeds or fails according to a parameter.
- Service.TwitterService.StartMonitoring: does not model that every start adds another status listener to the same stream. After a stop and a restart, or after a start whose `filter` failed once the listener was added, a status may be processed more than once.
- `initializeTwitter` throwing `RuntimeException` from the constructor is not modelled, because it depends on twitter4j only.
- The body of `AgentMeshService` is not part of this model. Its call is an outcome: an answer, which may be one of its fallback texts, or an exception.
- Concurrency is not modelled: the `CopyOnWriteArrayList`, the stream's callback thread and the GUI thread. Everything runs as one sequence of calls.
- Properties file I/O and its text format (`Properties.load` and `store`) are not modelled. The file is a `ConfigFile` value, and `SaveConfig` returns the map it would write.
- Config.ConfigManager.LoadConfig: an `IllegalArgumentException` from a malformed `\u` escape in the file escapes `loadConfig` and the constructor; it is not modelled. A read failure is modelled only as an `IOException`, whose pairs read so far are kept.
- Service.FormatReply: lengths are counted in Unicode characters, not in UTF-16 code units as Java's `length` and `substring` count them. An answer with characters outside the Basic Multilingual Plane is therefore cut at a different point, or not cut at all, and Java's cut through the middle of a surrogate pair cannot be expressed.
- Text.Lower: `toLowerCase` is locale-sensitive and covers all of Unicode; the model lowers ASCII letters only.
- `createdAt` is milliseconds since the epoch, not a `java.util.Date`. Logging is left out.
- `ProcessedTweet.toString` is not modelled; it is only used for logging.
- Listeners are identified by a number, so `equals` on a listener is identity.
- Exceptions from a listener, the Agent Mesh call or the post are modelled as outcomes given to the call. Other runtime exceptions inside `processStatus` are not modelled, for example a null user. They would end the pass like the modelled ones do.
- Service.TwitterService.ReplyToTweet: for a record that is not in the store, only its flag and the reply log are stated. The program's own callers never pass such a record: `getProcessedTweets` copies the list but not the records, and nothing is ever removed from the store.
- The stored records are `ProcessedTweet` objects. `State()` reads them as values, and the only update made in place is the `replied` flag.
