/**
  The text post-processing of the tweet-thread generator: the length check,
  thread numbering `[i/n] `, extraction of a list of tweets from a model reply,
  and the input checks, tone fallback, trimming, numbering and capping around
  the language-model call.

  The language model and the JSON decoder are not modelled; they are passed in
  as functions. `respond` maps the prompt inputs to the reply text, and `decode`
  stands for `json.loads`.
 */
module TweetGenerator {
  import opened PyStr

  /** Twitter's character limit, hard-coded throughout the generator. */
  const TweetLimit: nat := 280
  /** Body kept when an over-long tweet is cut, leaving room for the ellipsis. */
  const TrimmedLength: nat := 277
  const Ellipsis := "..."

  /** The keys of the prompt-template table; only the key set is modelled. */
  const PromptTones: set<string> := {"professional", "casual", "humorous", "engaging", "educational"}
  const DefaultTone := "engaging"

  const MinTopicLength: nat := 10
  const MinTweets: int := 1
  const MaxTweets: int := 20

  const TopicMessage := "Topic must be at least 10 characters long"
  const CountMessage := "max_tweets must be between 1 and 20"
  const ParseMessage := "Could not parse tweets from LLM response"
  const FailurePrefix := "Failed to generate tweets: "

  /** The two exception classes the generator raises, with their messages. */
  datatype Error = ValueError(message: string) | GenerationError(message: string)

  datatype Result<+T> = Ok(value: T) | Err(error: Error)

  /** What `json.loads` makes of a text: a decode error, some value other than a
      list, or a list (of strings). */
  datatype Json = Malformed | NotAList | List(items: seq<string>)

  /** What the prompt template is filled with before the model is called. */
  datatype Prompt = Prompt(tone: string, topic: string, tweetCount: int)

  /** The dictionary the generators return. */
  datatype Thread = Thread(tweets: seq<string>, tweetCount: int, tone: string, topic: string)

  // ---------------------------------------------------------------------------
  // Length check

  /** `validate_tweet_length`: whether the tweet fits the limit (280 unless given). */
  predicate ValidateTweetLength(tweet: string, maxLength: int := TweetLimit): (ok: bool)
    ensures ok <==> 0 <= maxLength && SliceTo(tweet, maxLength) == tweet
  {
    |tweet| <= maxLength
  }

  /** The cut applied to every parsed tweet: one that fails the length check
      becomes `tweet[:277] + "..."`, exactly 280 characters starting with its
      first 277; one that passes is kept. */
  function TrimTweet(tweet: string): (r: string)
    ensures |r| <= TweetLimit
    ensures ValidateTweetLength(tweet) ==> r == tweet
    ensures !ValidateTweetLength(tweet) ==>
              |r| == TweetLimit && r[..TrimmedLength] == tweet[..TrimmedLength]
              && r[TrimmedLength..] == Ellipsis
  {
    if ValidateTweetLength(tweet) then tweet else SliceTo(tweet, TrimmedLength) + Ellipsis
  }

  /** The length check and the cut agree: a tweet passes the check exactly when
      the cut leaves it unchanged, and whatever the cut returns passes. */
  lemma TrimFixesExactlyValid(tweet: string)
    ensures TrimTweet(tweet) == tweet <==> ValidateTweetLength(tweet)
    ensures ValidateTweetLength(TrimTweet(tweet))
    ensures TrimTweet(TrimTweet(tweet)) == TrimTweet(tweet)
  {
  }

  // ---------------------------------------------------------------------------
  // Thread numbering

  /** The marker `f"[{i}/{n}] "` put in front of entry i of n. */
  function ThreadPrefix(i: nat, n: nat): (p: string)
    ensures |p| == 4 + NumDigits(i) + NumDigits(n)
    ensures p[0] == '[' && p[|p| - 2..] == "] "
  {
    "[" + NatToString(i) + "/" + NatToString(n) + "] "
  }

  /** Distinct positions or totals give distinct markers, so each entry's marker
      tells its position and the thread length back. */
  lemma ThreadPrefixInjective(i: nat, n: nat, j: nat, m: nat)
    requires ThreadPrefix(i, n) == ThreadPrefix(j, m)
    ensures i == j && n == m
  {
    var a, b := NatToString(i), NatToString(n);
    var c, d := NatToString(j), NatToString(m);
    var p := ThreadPrefix(i, n);
    assert p == "[" + a + "/" + b + "] ";
    assert p == "[" + c + "/" + d + "] ";
    // the first '/' of the marker sits right after both renderings of the position
    assert p[1 + |a|] == '/' && p[1 + |c|] == '/';
    assert forall k :: 1 <= k < 1 + |a| ==> p[k] == a[k - 1];
    assert forall k :: 1 <= k < 1 + |c| ==> p[k] == c[k - 1];
    assert |a| == |c|;
    assert a == p[1..1 + |a|] == c;
    assert b == p[2 + |a|..|p| - 2] == d;
    NatToStringInjective(i, j);
    NatToStringInjective(n, m);
  }

  /** Entry i of n as `add_thread_numbering` builds it: the marker and the tweet
      when they fit in 280 characters; otherwise the marker, the first
      `280 - |marker| - 3` characters of the tweet (Python slice rules) and "...". */
  function NumberedEntry(tweet: string, i: nat, n: nat): (r: string)
    ensures ThreadPrefix(i, n) <= r
    ensures |ThreadPrefix(i, n) + tweet| <= TweetLimit ==> r == ThreadPrefix(i, n) + tweet
    ensures |ThreadPrefix(i, n) + tweet| > TweetLimit && |ThreadPrefix(i, n)| <= TrimmedLength ==>
              |r| == TweetLimit
              && r == ThreadPrefix(i, n) + tweet[..TrimmedLength - |ThreadPrefix(i, n)|] + Ellipsis
  {
    var threadNumber := ThreadPrefix(i, n);
    if |threadNumber + tweet| <= TweetLimit then
      threadNumber + tweet
    else
      var maxTweetLength := TweetLimit - |threadNumber|;
      threadNumber + SliceTo(tweet, maxTweetLength - 3) + Ellipsis
  }

  /** `add_thread_numbering`: builds the numbered list entry by entry, in order;
      entry k (0-based) is numbered k + 1 of the input length. */
  method AddThreadNumbering(tweets: seq<string>) returns (numbered: seq<string>)
    ensures |numbered| == |tweets|
    ensures forall k :: 0 <= k < |tweets| ==> numbered[k] == NumberedEntry(tweets[k], k + 1, |tweets|)
  {
    var total := |tweets|;
    numbered := [];
    for i := 0 to |tweets|
      invariant |numbered| == i
      invariant forall k :: 0 <= k < i ==> numbered[k] == NumberedEntry(tweets[k], k + 1, total)
    {
      var threadNumber := ThreadPrefix(i + 1, total);
      if |threadNumber + tweets[i]| <= TweetLimit {
        numbered := numbered + [threadNumber + tweets[i]];
      } else {
        var maxTweetLength := TweetLimit - |threadNumber|;
        var trimmedTweet := SliceTo(tweets[i], maxTweetLength - 3) + Ellipsis;
        numbered := numbered + [threadNumber + trimmedTweet];
      }
    }
  }

  /** The list `add_thread_numbering` returns, as a value. */
  function Numbered(tweets: seq<string>): (r: seq<string>)
    ensures |r| == |tweets|
  {
    seq(|tweets|, k requires 0 <= k < |tweets| => NumberedEntry(tweets[k], k + 1, |tweets|))
  }

  /** No numbered entry is longer than 280 characters, whatever the tweets, as
      long as the thread length has at most 136 digits (so no marker is longer
      than 277 characters and the cut never takes a negative slice). */
  lemma NumberedWithinLimit(tweets: seq<string>)
    requires NumDigits(|tweets|) <= 136
    ensures forall k :: 0 <= k < |tweets| ==> |Numbered(tweets)[k]| <= TweetLimit
  {
    forall k | 0 <= k < |tweets|
      ensures |Numbered(tweets)[k]| <= TweetLimit
    {
      EntryWithinLimit(tweets[k], k + 1, |tweets|);
    }
  }

  /** One entry of a thread of n fits in 280 characters when n has at most 136 digits. */
  lemma EntryWithinLimit(tweet: string, i: nat, n: nat)
    requires i <= n && NumDigits(n) <= 136
    ensures |NumberedEntry(tweet, i, n)| <= TweetLimit
  {
    NumDigitsMonotone(i, n);
    assert |ThreadPrefix(i, n)| <= TrimmedLength;
  }

  /** Numbering `["a", "b", "c"]` gives `["[1/3] a", "[2/3] b", "[3/3] c"]`. */
  lemma NumberingExample()
    ensures Numbered(["a", "b", "c"]) == ["[1/3] a", "[2/3] b", "[3/3] c"]
  {
    assert NatToString(1) == "1" && NatToString(2) == "2" && NatToString(3) == "3";
    var r := Numbered(["a", "b", "c"]);
    assert r[0] == "[1/3] a";
    assert r[1] == "[2/3] b";
    assert r[2] == "[3/3] c";
  }

  // ---------------------------------------------------------------------------
  // Extracting the list from the reply

  /** The text the pattern `\[.*\]` (with DOTALL) matches: from the first `[` to
      the last `]`. It matches exactly when some `[` comes before some `]`, and
      the match then starts at the first `[` and ends at the last `]`. */
  function BracketSpan(text: string): (r: Option<string>)
    ensures r.None? <==> forall i, j :: 0 <= i < j < |text| ==> !(text[i] == '[' && text[j] == ']')
    ensures r.Some? ==> exists lo, hi :: OutermostBrackets(text, lo, hi) && r.value == text[lo..hi + 1]
  {
    match FindFirst(text, '[')
    case None => None
    case Some(lo) =>
      match FindLast(text, ']')
      case None => None
      case Some(hi) =>
        if lo < hi then
          assert OutermostBrackets(text, lo, hi);
          Some(text[lo..hi + 1])
        else None
  }

  /** `text[lo]` is the first `[` of text and `text[hi]` its last `]`, after it. */
  predicate OutermostBrackets(text: string, lo: int, hi: int) {
    && 0 <= lo < hi < |text|
    && text[lo] == '[' && text[hi] == ']'
    && (forall k :: 0 <= k < lo ==> text[k] != '[')
    && (forall k :: hi < k < |text| ==> text[k] != ']')
  }

  /** `parse_tweet_response`: the whole reply if it decodes to a list; otherwise
      the bracket span if there is one and it decodes to a list; otherwise a
      ValueError. */
  function ParseTweetResponse(responseText: string, decode: string -> Json): (r: Result<seq<string>>)
    ensures decode(responseText).List? ==> r == Ok(decode(responseText).items)
    ensures r.Ok? ==> decode(responseText).List?
                      || exists lo, hi :: OutermostBrackets(responseText, lo, hi)
                                          && decode(responseText[lo..hi + 1]) == List(r.value)
    ensures r.Err? ==> r.error == ValueError(ParseMessage)
    ensures r.Err? ==> !decode(responseText).List?
                       && forall lo, hi :: OutermostBrackets(responseText, lo, hi)
                                           ==> !decode(responseText[lo..hi + 1]).List?
  {
    var direct := decode(responseText);
    if direct.List? then Ok(direct.items)
    else
      match BracketSpan(responseText)
      case Some(span) =>
        if decode(span).List? then Ok(decode(span).items) else Err(ValueError(ParseMessage))
      case None => Err(ValueError(ParseMessage))
  }

  /** Two `[`...`]` pairs that are both outermost are the same pair. */
  lemma OutermostBracketsUnique(text: string, lo: int, hi: int, lo': int, hi': int)
    requires OutermostBrackets(text, lo, hi) && OutermostBrackets(text, lo', hi')
    ensures lo == lo' && hi == hi'
  {
  }

  /** A reply with prose around the array: `Here are the tweets: ["x","y"]`
      yields `["x", "y"]` when the decoder rejects the whole text and reads the
      array. */
  lemma ParseExampleWithProse(decode: string -> Json)
    requires !decode("Here are the tweets: [\"x\",\"y\"]").List?
    requires decode("[\"x\",\"y\"]") == List(["x", "y"])
    ensures ParseTweetResponse("Here are the tweets: [\"x\",\"y\"]", decode) == Ok(["x", "y"])
  {
    var text := "Here are the tweets: [\"x\",\"y\"]";
    assert OutermostBrackets(text, 21, 29);
    assert text[21..30] == "[\"x\",\"y\"]";
    var span := BracketSpan(text);
    var lo, hi :| OutermostBrackets(text, lo, hi) && span.value == text[lo..hi + 1];
    OutermostBracketsUnique(text, lo, hi, 21, 29);
  }

  /** A reply with no brackets fails unless it decodes to a list as a whole. */
  lemma ParseExampleNoArray(decode: string -> Json)
    requires !decode("no array here").List?
    ensures ParseTweetResponse("no array here", decode) == Err(ValueError(ParseMessage))
  {
    assert forall k :: 0 <= k < |"no array here"| ==> "no array here"[k] != '[';
  }

  // ---------------------------------------------------------------------------
  // Input checks and tone fallback

  /** The checks made before any model call: the stripped topic must have at
      least 10 characters, then `max_tweets` must lie in 1..20. */
  function CheckInputs(topic: string, maxTweets: int): (r: Option<Error>)
    ensures r.None? <==> |Strip(topic)| >= MinTopicLength && MinTweets <= maxTweets <= MaxTweets
    ensures |Strip(topic)| < MinTopicLength ==> r == Some(ValueError(TopicMessage))
    ensures |Strip(topic)| >= MinTopicLength && !(MinTweets <= maxTweets <= MaxTweets) ==>
              r == Some(ValueError(CountMessage))
  {
    if |topic| == 0 || |Strip(topic)| < MinTopicLength then Some(ValueError(TopicMessage))
    else if maxTweets < MinTweets || maxTweets > MaxTweets then Some(ValueError(CountMessage))
    else None
  }

  /** The tone actually used: the lower-cased tone when it names a template,
      "engaging" when the tone is missing, empty or unknown. */
  function NormalizeTone(tone: Option<string>): (r: string)
    ensures r in PromptTones
    ensures tone.Some? && Lower(tone.value) in PromptTones ==> r == Lower(tone.value)
    ensures tone.None? || Lower(tone.value) !in PromptTones ==> r == DefaultTone
  {
    var lowered := if tone.Some? && tone.value != "" then Lower(tone.value) else DefaultTone;
    if lowered in PromptTones then lowered else DefaultTone
  }

  /** Normalising an already chosen tone changes nothing. */
  lemma NormalizeToneIdempotent(tone: Option<string>)
    ensures NormalizeTone(Some(NormalizeTone(tone))) == NormalizeTone(tone)
  {
    var t := NormalizeTone(tone);
    forall key | key in PromptTones
      ensures Lower(key) == key
    {
      LowerFixesLowerCase(key);
    }
    assert Lower(t) == t;
  }

  // ---------------------------------------------------------------------------
  // Post-processing of the parsed list

  /** Every parsed tweet after the cut. */
  function TrimAll(tweets: seq<string>): (r: seq<string>)
    ensures |r| == |tweets|
  {
    seq(|tweets|, k requires 0 <= k < |tweets| => TrimTweet(tweets[k]))
  }

  /** The list after the cap `valid_tweets[:max_tweets]`. */
  function Cap(tweets: seq<string>, maxTweets: nat): (r: seq<string>)
    ensures r <= tweets
    ensures |r| == if |tweets| <= maxTweets then |tweets| else maxTweets
  {
    if |tweets| > maxTweets then tweets[..maxTweets] else tweets
  }

  /** What the post-processing makes of a parsed list: the cut list, numbered
      when asked and when it has several entries, then capped. */
  function Processed(tweets: seq<string>, addNumbering: bool, maxTweets: nat): (r: seq<string>)
    ensures |r| == if |tweets| <= maxTweets then |tweets| else maxTweets
  {
    var valid := TrimAll(tweets);
    Cap(if addNumbering && |valid| > 1 then Numbered(valid) else valid, maxTweets)
  }

  /** Entry k of the post-processed list is the k-th parsed tweet after the cut,
      numbered k + 1 of the number of PARSED tweets when numbering applies. */
  lemma ProcessedAt(tweets: seq<string>, addNumbering: bool, maxTweets: nat, k: nat)
    requires k < |Processed(tweets, addNumbering, maxTweets)|
    ensures Processed(tweets, addNumbering, maxTweets)[k]
         == if addNumbering && |tweets| > 1
            then NumberedEntry(TrimTweet(tweets[k]), k + 1, |tweets|)
            else TrimTweet(tweets[k])
  {
    var valid := TrimAll(tweets);
    assert valid[k] == TrimTweet(tweets[k]);
    if addNumbering && |tweets| > 1 {
      assert Numbered(valid)[k] == NumberedEntry(valid[k], k + 1, |tweets|);
    }
  }

  /** The loop, numbering and cap of `generate_tweet_thread` on the parsed list. */
  method PostProcess(tweets: seq<string>, addNumbering: bool, maxTweets: nat) returns (validTweets: seq<string>)
    ensures validTweets == Processed(tweets, addNumbering, maxTweets)
  {
    validTweets := [];
    for i := 0 to |tweets|
      invariant |validTweets| == i
      invariant forall k :: 0 <= k < i ==> validTweets[k] == TrimTweet(tweets[k])
    {
      if ValidateTweetLength(tweets[i]) {
        validTweets := validTweets + [tweets[i]];
      } else {
        validTweets := validTweets + [SliceTo(tweets[i], TrimmedLength) + Ellipsis];
      }
    }
    assert validTweets == TrimAll(tweets);
    if addNumbering && |validTweets| > 1 {
      validTweets := AddThreadNumbering(validTweets);
      assert validTweets == Numbered(TrimAll(tweets));
    }
    if |validTweets| > maxTweets {
      validTweets := validTweets[..maxTweets];
    }
  }

  /** Every tweet the post-processing returns fits in 280 characters (for any
      parsed list of fewer than 10^136 entries). */
  lemma ProcessedWithinLimit(tweets: seq<string>, addNumbering: bool, maxTweets: nat)
    requires NumDigits(|tweets|) <= 136
    ensures forall k :: 0 <= k < |Processed(tweets, addNumbering, maxTweets)| ==>
              |Processed(tweets, addNumbering, maxTweets)[k]| <= TweetLimit
  {
    var r := Processed(tweets, addNumbering, maxTweets);
    forall k | 0 <= k < |r|
      ensures |r[k]| <= TweetLimit
    {
      ProcessedAt(tweets, addNumbering, maxTweets, k);
      if addNumbering && |tweets| > 1 {
        EntryWithinLimit(TrimTweet(tweets[k]), k + 1, |tweets|);
      }
    }
  }

  /** Numbering comes before the cap: when the list is numbered, entry k of the
      result carries the marker `[k+1/n]` with n the number of parsed tweets,
      even when the cap then drops some of them. */
  lemma NumberedBeforeCap(tweets: seq<string>, maxTweets: nat)
    requires |tweets| > 1
    ensures forall k :: 0 <= k < |Processed(tweets, true, maxTweets)| ==>
              ThreadPrefix(k + 1, |tweets|) <= Processed(tweets, true, maxTweets)[k]
  {
    forall k | 0 <= k < |Processed(tweets, true, maxTweets)|
      ensures ThreadPrefix(k + 1, |tweets|) <= Processed(tweets, true, maxTweets)[k]
    {
      ProcessedAt(tweets, true, maxTweets, k);
    }
  }

  // ---------------------------------------------------------------------------
  // The generators

  /** `generate_tweet_thread` as a value: the input checks, the tone fallback,
      the model call, the parse and the post-processing. Any failure after the
      checks is re-raised as a generic error whose message wraps the cause. */
  function Generated(topic: string, tone: Option<string>, maxTweets: int, addNumbering: bool,
                     respond: Prompt -> string, decode: string -> Json): (r: Result<Thread>)
    ensures r.Ok? ==> |Strip(topic)| >= MinTopicLength && MinTweets <= maxTweets <= MaxTweets
    ensures r.Ok? ==> r.value.tone in PromptTones && r.value.topic == topic
    ensures r.Ok? ==> r.value.tone == NormalizeTone(tone)
    ensures r.Ok? ==> r.value.tweetCount == |r.value.tweets| <= maxTweets
  {
    match CheckInputs(topic, maxTweets)
    case Some(e) => Err(e)
    case None =>
      var chosen := NormalizeTone(tone);
      match ParseTweetResponse(respond(Prompt(chosen, topic, maxTweets)), decode)
      case Err(e) => Err(GenerationError(FailurePrefix + e.message))
      case Ok(tweets) =>
        var out := Processed(tweets, addNumbering, maxTweets);
        Ok(Thread(out, |out|, chosen, topic))
  }

  /** `generate_tweet_thread`: validates the inputs, picks the tone, asks the
      model, parses the reply and post-processes the list. */
  method GenerateTweetThread(topic: string, respond: Prompt -> string, decode: string -> Json,
                             tone: Option<string> := Some(DefaultTone), maxTweets: int := 5,
                             addNumbering: bool := true)
    returns (r: Result<Thread>)
    ensures r == Generated(topic, tone, maxTweets, addNumbering, respond, decode)
  {
    if |topic| == 0 || |Strip(topic)| < MinTopicLength {
      return Err(ValueError(TopicMessage));
    }
    if maxTweets < MinTweets || maxTweets > MaxTweets {
      return Err(ValueError(CountMessage));
    }
    var chosen := NormalizeTone(tone);
    var responseText := respond(Prompt(chosen, topic, maxTweets));
    var parsed := ParseTweetResponse(responseText, decode);
    if parsed.Err? {
      return Err(GenerationError(FailurePrefix + parsed.error.message));
    }
    var validTweets := PostProcess(parsed.value, addNumbering, maxTweets);
    r := Ok(Thread(validTweets, |validTweets|, chosen, topic));
  }

  /** Bad inputs are refused with a ValueError before the model is asked: the
      outcome is the same whatever the model or the decoder would have done. */
  lemma InputErrorsPrecedeModel(topic: string, tone: Option<string>, maxTweets: int, addNumbering: bool,
                                respond: Prompt -> string, decode: string -> Json,
                                respond': Prompt -> string, decode': string -> Json)
    requires CheckInputs(topic, maxTweets).Some?
    ensures Generated(topic, tone, maxTweets, addNumbering, respond, decode).Err?
    ensures Generated(topic, tone, maxTweets, addNumbering, respond, decode).error.ValueError?
    ensures Generated(topic, tone, maxTweets, addNumbering, respond, decode)
         == Generated(topic, tone, maxTweets, addNumbering, respond', decode')
  {
  }

  /** A reply that cannot be parsed ends in the generic error, not in the
      parser's ValueError. */
  lemma ParseFailureIsWrapped(topic: string, tone: Option<string>, maxTweets: int, addNumbering: bool,
                              respond: Prompt -> string, decode: string -> Json)
    requires CheckInputs(topic, maxTweets).None?
    requires ParseTweetResponse(respond(Prompt(NormalizeTone(tone), topic, maxTweets)), decode).Err?
    ensures Generated(topic, tone, maxTweets, addNumbering, respond, decode)
         == Err(GenerationError(FailurePrefix + ParseMessage))
  {
  }

  /** Every returned tweet fits in 280 characters, provided the decoder never
      yields a list of 10^136 or more entries. */
  lemma GeneratedWithinLimit(topic: string, tone: Option<string>, maxTweets: int, addNumbering: bool,
                             respond: Prompt -> string, decode: string -> Json)
    requires forall s :: decode(s).List? ==> NumDigits(|decode(s).items|) <= 136
    ensures var r := Generated(topic, tone, maxTweets, addNumbering, respond, decode);
            r.Ok? ==> forall k :: 0 <= k < |r.value.tweets| ==> |r.value.tweets[k]| <= TweetLimit
  {
    var r := Generated(topic, tone, maxTweets, addNumbering, respond, decode);
    if r.Ok? {
      var parsed := ParseTweetResponse(respond(Prompt(NormalizeTone(tone), topic, maxTweets)), decode);
      ProcessedWithinLimit(parsed.value, addNumbering, maxTweets);
    }
  }

  /** `generate_tweet_thread_dict_format`: the same tone fallback and parse, but
      no input checks, no cut, no numbering and no wrapping of the parse error;
      the list is sliced `tweets[:max_tweets]` (so a negative count drops
      entries from the end). */
  function GenerateTweetThreadDictFormat(topic: string, respond: Prompt -> string, decode: string -> Json,
                                         tone: Option<string> := Some(DefaultTone), maxTweets: int := 5)
    : (r: Result<Thread>)
    ensures r.Ok? ==> r.value.tone in PromptTones && r.value.topic == topic
    ensures r.Ok? ==> r.value.tone == NormalizeTone(tone)
    ensures r.Ok? ==> r.value.tweetCount == |r.value.tweets|
    ensures r.Ok? && maxTweets >= 0 ==> |r.value.tweets| <= maxTweets
    ensures r.Err? ==> r.error == ValueError(ParseMessage)
    ensures var parsed := ParseTweetResponse(respond(Prompt(NormalizeTone(tone), topic, maxTweets)), decode);
            && (r.Ok? <==> parsed.Ok?)
            && (r.Ok? ==> r.value.tweets <= parsed.value)
            && (r.Ok? && maxTweets >= 0 ==>
                  |r.value.tweets| == if |parsed.value| <= maxTweets then |parsed.value| else maxTweets)
  {
    var chosen := NormalizeTone(tone);
    match ParseTweetResponse(respond(Prompt(chosen, topic, maxTweets)), decode)
    case Err(e) => Err(e)
    case Ok(tweets) => Ok(Thread(SliceTo(tweets, maxTweets), |SliceTo(tweets, maxTweets)|, chosen, topic))
  }
}
