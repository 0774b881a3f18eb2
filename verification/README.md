# Tweet thread post-processing, modelled in Dafny

This project models the text handling of the tweet-thread generator in
`Backend/tweet_generator.py`. That file asks a language model for a thread on
a topic, pulls a JSON list of tweets out of the reply, and then tidies the
list. It cuts every tweet to the 280-character limit. It numbers the entries
`[i/n] ` when asked. It keeps at most `max_tweets` of them. Before the model
is called it also checks the topic and the requested count, and it falls back
to the "engaging" prompt template for a tone it does not know.

The project has two modules:

- `PyStr` (`py_str.dfy`) holds the parts of Python's `str` that the generator
  relies on:
  - `str(n)` for non-negative integers, with a read-back round trip;
  - `str.strip()`, over Python's white-space set;
  - `str.lower()` on ASCII letters;
  - prefix slicing `s[:k]`, including Python's negative-index rule;
  - the first and last position of a character.

  Strings are sequences of Unicode scalar values, so `|s|` is Python's `len(s)`.
- `TweetGenerator` (`tweet_generator.dfy`) holds the generator's own logic:
  - the length check and the cut of over-long tweets;
  - `add_thread_numbering`, as a method with a loop, proved against the
    per-entry definition `NumberedEntry`;
  - `parse_tweet_response`;
  - the input checks and tone fallback;
  - the post-processing loop of `generate_tweet_thread`, as a method proved
    against the function `Processed`;
  - both generators, `generate_tweet_thread` and
    `generate_tweet_thread_dict_format`.

The language model and `json.loads` are parameters, not models:

- `respond: Prompt -> string` stands for the reply the model gives to a
  filled-in template. `Prompt` holds the tone, the topic and the tweet count.
- `decode: string -> Json` stands for `json.loads`. It returns a decode
  error, a non-list value, or a list of strings.

The regular expression `\[.*\]` (DOTALL, greedy, leftmost) is modelled
concretely. It matches from the first `[` to the last `]` of the reply, and
only when some `[` comes before some `]`.

Points where the code's behaviour is narrower or wider than its own comments
and docstrings suggest, and which the model follows as written:

- The comment at `Backend/tweet_generator.py:190` says the parser looks for a
  JSON array in the response. The code first tries to decode the whole reply,
  and returns the result when it is a list; only then does it look for an
  array. For a real JSON decoder the two paths agree. A reply that decodes to
  a list as a whole is a bracketed array, apart from surrounding white space.
  Its first-`[`/last-`]` span is then that same array, and it decodes to the
  same list. The model keeps the code's order because `decode` is arbitrary.
- The comments at lines 165 and 169 say the numbering checks the character
  limit and trims a tweet that would exceed it. The trim keeps an entry
  within 280 characters only while the marker `[i/n] ` is at most 277
  characters, that is while the list has fewer than 10^136 entries. Past that
  point the slice `tweet[:max_tweet_length-3]` has a negative bound, Python
  counts it from the end, and the entry exceeds 280 characters. The
  limit lemmas therefore require `NumDigits(n) <= 136`.
- The docstring at line 226 gives `max_tweets` the range 1-20, and
  `generate_tweet_thread` enforces it. The dictionary-format generator does
  not validate `max_tweets`. For a negative count, `tweets[:max_tweets]` drops
  entries from the end, so "at most `max_tweets` tweets" holds only when
  `max_tweets >= 0`.

## Model

| member | source | states |
|---|---|---|
| `PyStr.NatToString` | Backend/tweet_generator.py:163 | `str(n)` has exactly NumDigits(n) characters, all decimal digits, and no leading zero |
| `PyStr.DigitsRoundTrip` | Backend/tweet_generator.py:163 | reading back the digits `str(n)` prints gives n |
| `PyStr.NatToStringInjective` | Backend/tweet_generator.py:163 | distinct numbers print differently |
| `PyStr.NumDigitsMonotone` | Backend/tweet_generator.py:163 | a position i <= n never prints longer than the total n |
| `PyStr.LStrip` | Backend/tweet_generator.py:242 | the result is a suffix of the input, everything dropped is white space, and it does not start with white space |
| `PyStr.RStrip` | Backend/tweet_generator.py:242 | the result is a prefix of the input, everything dropped is white space, and it does not end with white space |
| `PyStr.Strip` | Backend/tweet_generator.py:242 | `topic.strip()` is a slice of the topic with only white space around it, neither starting nor ending with white space |
| `PyStr.StripEmptyIffAllSpace` | Backend/tweet_generator.py:242 | the stripped topic is empty exactly when the topic is all white space |
| `PyStr.LowerChar` | Backend/tweet_generator.py:249 | an ASCII capital maps to its small letter and every other character is kept |
| `PyStr.Lower` | Backend/tweet_generator.py:249 | `tone.lower()` keeps the length and leaves no ASCII capital |
| `PyStr.LowerIdempotent` | Backend/tweet_generator.py:249 | lowering twice is lowering once |
| `PyStr.LowerFixesLowerCase` | Backend/tweet_generator.py:250 | a key without capitals, as every template key is, lowers to itself |
| `PyStr.SliceTo` | Backend/tweet_generator.py:171 | `s[:k]` is a prefix of s of length min(k, len(s)), or len(s)+k clamped at 0 for negative k |
| `PyStr.FindFirst` | Backend/tweet_generator.py:200 | the found index holds the character and no earlier index does; none found means it does not occur |
| `PyStr.FindLast` | Backend/tweet_generator.py:200 | the found index holds the character and no later index does; none found means it does not occur |
| `TweetGenerator.ValidateTweetLength` | Backend/tweet_generator.py:134-145 | `validate_tweet_length(tweet, max_length=280)` holds exactly when `len(tweet) <= max_length`, stated as: the limit is non-negative and slicing the tweet to it changes nothing; the limit is 280 by default |
| `TweetGenerator.TrimTweet` | Backend/tweet_generator.py:282-287 | a tweet that passes `validate_tweet_length` is kept; any other becomes exactly 280 characters, its first 277 followed by "..." |
| `TweetGenerator.TrimFixesExactlyValid` | Backend/tweet_generator.py:134-145 | `validate_tweet_length(t)` (default limit 280) holds exactly when the cut leaves t unchanged; the cut's output always passes it, and cutting twice is cutting once |
| `TweetGenerator.ThreadPrefix` | Backend/tweet_generator.py:163 | the marker `[i/n] ` has length 4 + digits(i) + digits(n), opens with `[` and closes with `] ` |
| `TweetGenerator.ThreadPrefixInjective` | Backend/tweet_generator.py:163 | equal markers mean equal position and equal total |
| `TweetGenerator.NumberedEntry` | Backend/tweet_generator.py:163-172 | each entry starts with its marker; it is marker + tweet when that fits in 280 characters; otherwise, for a marker of at most 277 characters, it is marker + the first 280 - len(marker) - 3 characters + "...", exactly 280 long |
| `TweetGenerator.AddThreadNumbering` | Backend/tweet_generator.py:148-174 | the output has the input's length and order, and entry k is the tweet k numbered k+1 of the input length |
| `TweetGenerator.Numbered` | Backend/tweet_generator.py:158-174 | the numbered list has the input's length |
| `TweetGenerator.EntryWithinLimit` | Backend/tweet_generator.py:165-172 | an entry numbered i of n, with i <= n and n of at most 136 digits, is at most 280 characters |
| `TweetGenerator.NumberedWithinLimit` | Backend/tweet_generator.py:165-172 | no numbered entry exceeds 280 characters, whatever the tweets' lengths, for lists of fewer than 10^136 entries |
| `TweetGenerator.NumberingExample` | Backend/tweet_generator.py:148-174 | numbering ["a","b","c"] gives ["[1/3] a","[2/3] b","[3/3] c"] |
| `TweetGenerator.BracketSpan` | Backend/tweet_generator.py:200-201 | `\[.*\]` with DOTALL matches exactly when some `[` precedes some `]`, and the match runs from the first `[` to the last `]` |
| `TweetGenerator.OutermostBracketsUnique` | Backend/tweet_generator.py:200 | the first-`[`/last-`]` pair is unique |
| `TweetGenerator.ParseTweetResponse` | Backend/tweet_generator.py:177-210 | a reply that decodes to a list is returned as it is; otherwise a result comes from decoding the outermost bracket span; failure is exactly "neither decodes to a list" and raises ValueError with the source's message |
| `TweetGenerator.ParseExampleWithProse` | Backend/tweet_generator.py:190-205 | `Here are the tweets: ["x","y"]` parses to ["x","y"] |
| `TweetGenerator.ParseExampleNoArray` | Backend/tweet_generator.py:199-210 | "no array here" raises the parse ValueError unless the decoder reads the whole text as a list |
| `TweetGenerator.CheckInputs` | Backend/tweet_generator.py:241-246 | the inputs pass exactly when the stripped topic has at least 10 characters and 1 <= max_tweets <= 20; the topic error is reported first |
| `TweetGenerator.NormalizeTone` | Backend/tweet_generator.py:248-251 | the chosen tone is always a template key; it is the lower-cased tone when that is a key, and "engaging" when the tone is missing, empty or unknown |
| `TweetGenerator.NormalizeToneIdempotent` | Backend/tweet_generator.py:249-253 | normalising a chosen tone leaves it unchanged |
| `TweetGenerator.TrimAll` | Backend/tweet_generator.py:281-287 | the cut list has the parsed list's length |
| `TweetGenerator.Cap` | Backend/tweet_generator.py:293-295 | the capped list is a prefix of length min(len(list), max_tweets) |
| `TweetGenerator.Processed` | Backend/tweet_generator.py:280-295 | the post-processed list has min(n, max_tweets) entries for n parsed tweets |
| `TweetGenerator.ProcessedAt` | Backend/tweet_generator.py:280-295 | entry k of the result is the cut k-th parsed tweet, numbered k+1 of n (the parsed count) when numbering is asked for and n > 1, and left unnumbered otherwise |
| `TweetGenerator.PostProcess` | Backend/tweet_generator.py:280-295 | the cut-number-cap steps produce exactly `Processed` of the parsed list |
| `TweetGenerator.ProcessedWithinLimit` | Backend/tweet_generator.py:280-295 | every post-processed tweet is at most 280 characters, for lists of fewer than 10^136 entries |
| `TweetGenerator.NumberedBeforeCap` | Backend/tweet_generator.py:289-295 | with numbering, entry k carries `[k+1/n]` where n counts the tweets before the cap |
| `TweetGenerator.Generated` | Backend/tweet_generator.py:213-305 | success implies valid inputs, the normalised tone (always a template key), the original topic, and tweet_count equal to the number of tweets, at most max_tweets |
| `TweetGenerator.GenerateTweetThread` | Backend/tweet_generator.py:241-305 | the generator returns exactly `Generated`: checks, tone fallback, model reply, parse, post-processing, and wrapping of the parse failure |
| `TweetGenerator.InputErrorsPrecedeModel` | Backend/tweet_generator.py:241-256 | bad inputs give a ValueError, the same whatever the model and the decoder do |
| `TweetGenerator.ParseFailureIsWrapped` | Backend/tweet_generator.py:304-305 | an unparsable reply ends in the generic error "Failed to generate tweets: Could not parse tweets from LLM response" |
| `TweetGenerator.GeneratedWithinLimit` | Backend/tweet_generator.py:280-301 | every returned tweet is at most 280 characters when the decoder never yields 10^136 or more entries |
| `TweetGenerator.GenerateTweetThreadDictFormat` | Backend/tweet_generator.py:326-366 | the reported tone is the normalised input tone, as in `generate_tweet_thread`; it succeeds exactly when the parse does; the tweets are a prefix of the parsed list, min(n, max_tweets) of them and so at most max_tweets when max_tweets >= 0; tweet_count matches; the parse ValueError is not wrapped |

## Left out

- The language-model call, `get_chat_model`, `load_dotenv` and the API-key
  environment handling (Backend/tweet_generator.py:104-127, 255-275) are
  external services. The reply is a parameter `respond` of the prompt inputs,
  so the model is treated as deterministic.
- The prompt texts and their `.format` calls are left out. Only the key set of
  `TWEET_PROMPTS` is modelled.
- The floating-point `temperature` is left out.
- `json.loads` is the parameter `decode`. Decoded lists are taken to hold
  strings only, so what the source does with other elements is not modelled:
  - In `generate_tweet_thread`, a number, boolean or `None` makes `len`
    raise at line 283. That error is rewrapped as the generic error.
  - A nested list or dict has a length, so it passes the check at line 283.
    Without numbering (`add_numbering` false, or a single entry) it is
    returned as a "tweet" (lines 297-302).
  - With numbering, such an element fails at `thread_number + tweet`
    (line 166).
  - If it has more than 280 entries, it fails at `tweet[:277] + "..."`
    (line 287).
  - `generate_tweet_thread_dict_format` never takes the length of an
    element, so it returns any decoded list unchanged, apart from the slice
    (line 362).
- `decode` cannot express `json.loads` raising an exception other than
  `JSONDecodeError`, such as `RecursionError` on deeply nested brackets.
  Such an exception skips the regex fallback and escapes
  `parse_tweet_response` (lines 191-207).
- `generate_tweet_thread` rewraps every exception at lines 304-305. Only the
  parse failure is modelled as a source of that error. Failures of the model
  call itself are left out with the call.
- `PyStr.Lower` lowers only ASCII letters, because its per-character map
  `PyStr.LowerChar` does. Python's `str.lower` also maps
  other characters. Two of them reach ASCII: the Kelvin sign becomes `k`, and
  dotted capital I becomes `i` followed by a combining dot. No template key
  contains either result, so the chosen tone is unaffected.
- `PyStr.LowerChar` maps only the ASCII capitals A-Z and keeps every other
  character. This is the restriction behind `PyStr.Lower` above.
- Lone surrogate code points, which a Python string can hold, are not Dafny
  characters. They are left out.
- `generate_simple_thread` only returns `generate_tweet_thread(topic)["tweets"]`,
  and `test_tweet_generator` only prints. Neither is modelled.
- The password hashing and signed-token code (Backend/utils/auth_utils.py)
  only calls bcrypt and JWT libraries, so it is not modelled. The FastAPI
  routers, the admin panel, the database, configuration and schema files are
  not part of this model either.
