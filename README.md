# wholesome-counter bot, modelled in Dafny

The bot watches a Reddit comment stream and answers "wholesome checks". A comment triggers it when its lower-cased body contains one of `!wholesomenesscheck`, `!wholesomecheck`, `!uwucheck` or `!uwucheckself`. The target user is chosen in this order:

1. the comment's own author, when the lower-cased body contains `!uwucheckself`;
2. the comment's own author, when the body contains the exact text `[self]`;
3. otherwise the author of the parent comment.

If the target is the bot itself (`wholesome-counter`, compared case-insensitively), the bot queues a fixed explanatory text. Otherwise it finds the target's recent comments:

- It reuses a cached response that is at most one week (604800 s) old.
- Otherwise it queries a remote search service with up to four attempts. It pauses 7 s after every response and 10 s after every failed attempt except the last. It then stores the result in the cache, even when that result is empty.

Every comment body is scored: punctuation is removed, the text is lower-cased and split on whitespace, and each token found in the word list counts once. The bot then composes a reply. The reply gives the total and a Markdown table with one `| word | count |` row per counted word, in the order the words were first seen. The reply is in the second person for `!uwucheckself` and in the third person (`u/<user>`) otherwise. The bot queues the reply and also posts it at once.

The model is split into modules that follow the steps above:

| file | module | contents |
|---|---|---|
| `Text.dfy` | `Text` | ASCII lower-casing, substring test, `re.sub(r'[^\w\s]', '')`, `str.split()`, `str.split(sep)`, `sep.join`, `str(n)` and reading a number back |
| `Trigger.dfy` | `Trigger` | the trigger gate, target resolution and the bot-self check (`Classify`) |
| `History.dfy` | `History` | the retry loop (`FetchWithRetry`, specified by `Retried`), freshness, and the `HistoryCache` class |
| `Scoring.dfy` | `Scoring` | tokens, the `collections.Counter` as a key sequence plus a map, the scoring loops (`CountWholesome`, `CountTokens`) specified by `ScoreOf` |
| `Reply.dfy` | `Reply` | table rows, the table, the two reply templates and the fixed self-query text |
| `Bot.dfy` | `Bot` | the handling of one incoming comment (`WholesomeBot.Handle`, specified by `Answer`) |

Clock readings, the remote search's results and the parent comment's author are parameters:

- `now` is the reading used in the freshness test on line 74.
- `storedAt` is the reading stored on line 102, taken after the retry loop has slept.
- `outcomes[i]` is what attempt `i` of the remote search produces:
  - `RequestFailed`: the request raised, so there is no response and no 7 s pause;
  - `MalformedJson`: a response arrived, the 7 s pause was taken, and JSON decoding failed;
  - `Received(data)`: the decoded `data` array.

Where the code's behaviour is surprising, the model follows the code:

- A failed refresh overwrites the cache entry with an empty history stamped with the current time. That empty history is then reused for a week.
- The `[self]` marker is matched case-sensitively on the raw body. `!uwucheckself` and the trigger phrases are matched on the lower-cased body.
- The word list is not lower-cased, so a word-list entry with an upper-case letter can never match a token.
- `{table} |` appends ` |` to the last row of the table. With an empty table it leaves a lone ` |` line after the header.
- A bot self-query is queued in `comments_to_reply` but is not posted with `reply()`. A scored reply is both queued and posted.

## Model

| member | source | states |
|---|---|---|
| Text.LowerChar | script.py:50 | an upper-case ASCII letter becomes its own lower-case letter (code point plus 32); every other character is unchanged; the result is never upper-case |
| Text.Lower | script.py:50 | lower-casing keeps the length and maps every character through `LowerChar`, which turns each upper-case ASCII letter into its own lower-case letter (code point plus 32) and leaves every other character unchanged |
| Text.LowerIsLower | script.py:50 | lower-cased text has no upper-case letter, and lower-casing twice is lower-casing once |
| Text.Contains | script.py:50-56 | Python's `p in s` for strings: `p` is a prefix of `s` or of one of its suffixes; `Text.ContainsIff` characterises it by occurrence positions |
| Text.ContainsIff | script.py:50 | the substring test `p in s` holds exactly when `p` occurs at some index of `s` |
| Text.ContainsNeedsEveryChar | script.py:56 | a text lacking a character of `p` does not contain `p` |
| Text.ContainsPrefixOf | script.py:50-52 | a text containing `p` contains every prefix of `p` |
| Text.StripPunctuation | script.py:112-113 | the cleaned body is no longer than the body and holds only word characters and whitespace |
| Text.StripAppend | script.py:112-113 | removing punctuation distributes over concatenation |
| Text.StripPunctuationOnly | script.py:112-113 | text made only of punctuation is removed entirely |
| Text.StripKeepsClean | script.py:112-113 | text made only of word characters and whitespace is unchanged |
| Text.StripIgnoresPunctuation | script.py:112-113 | inserting punctuation anywhere leaves the cleaned text unchanged |
| Text.WordLength | script.py:114 | the first word ends at the first whitespace character or at the end of the text |
| Text.Words | script.py:114 | every piece produced by `split()` is non-empty and free of whitespace |
| Text.DropSpaces | script.py:114 | deleting whitespace leaves no whitespace character |
| Text.DropSpacesOfWord | script.py:114 | deleting whitespace leaves a leading whitespace-free word unchanged |
| Text.WordsCoverText | script.py:114 | for every text, the words of `split()` written one after the other are the text with all its whitespace deleted, so `split()` loses no other character and keeps their order |
| Text.WordsOfJoin | script.py:114 | `split()` gives back words joined with single spaces |
| Text.WordsOfWord | script.py:114 | `split()` of an empty text has no words, and of a non-empty text without whitespace is that text as the only word |
| Text.WordsSplitAtSpace | script.py:114 | every whitespace character separates words: splitting a text around a whitespace character gives the words before it followed by the words after it; with `Text.WordsOfWord` this determines `split()` on every text |
| Text.WordsOfCleanText | script.py:112-114 | splitting cleaned, lower-cased text yields only lower-case word characters |
| Text.Join | script.py:126 | `sep.join(parts)`: the parts in order with `sep` between neighbours; `Text.SplitOnJoin` and `Text.WordsOfJoin` show that splitting gives the parts back |
| Text.SplitOn | script.py:126 | splitting at a separator gives at least one part, none containing the separator |
| Text.SplitOnJoin | script.py:126 | splitting at `sep` undoes `sep.join(parts)` when no part contains `sep` |
| Text.Decimal | script.py:124 | `str(n)` is a non-empty string of digits that starts with `0` only for zero |
| Text.DecimalRoundTrip | script.py:124 | reading back `str(n)` gives `n` |
| Text.DigitRun | script.py:130-132 | the digit run at the start of a text is all digits and is followed by a non-digit or the end |
| Text.DigitRunOfDecimal | script.py:130-132 | a rendered number followed by a non-digit is read as exactly that number |
| Trigger.IsTriggered | script.py:37-50 | some trigger phrase occurs in the lower-cased body; `Trigger.TriggerGate` reduces it to the first three phrases |
| Trigger.SameUserName | script.py:64 | two names are equal after lower-casing, so they match ignoring ASCII letter case (`Text.LowerChar`) |
| Trigger.ResolveTarget | script.py:52-61 | the route and the target user by the three rules in order; `Trigger.SelfCommandFirst`, `Trigger.SelfMarkerSecond` and `Trigger.ParentOtherwise` state each rule through `Trigger.Classify` |
| Trigger.Classify | script.py:50-64 | no trigger exactly when no trigger phrase is in the lower-cased body; bot self-query exactly when the resolved target equals the bot's name ignoring case; otherwise the checked user is the author or the parent author and is not the bot |
| Trigger.TriggerGate | script.py:37-50 | the comment is answered exactly when its lower-cased body contains one of the first three phrases (`!uwucheckself` implies `!uwucheck`) |
| Trigger.SelfCommandFirst | script.py:52-64 | `!uwucheckself` in any letter case targets the author, before any other rule |
| Trigger.SelfMarkerSecond | script.py:56-64 | otherwise the exact `[self]` marker targets the author |
| Trigger.ParentOtherwise | script.py:59-64 | otherwise the parent comment's author is the target |
| Trigger.MarkerIsCaseSensitive | script.py:56-61 | `!wholesomecheck [SELF]` targets the parent's author, because `[self]` is matched case-sensitively |
| History.AttemptPauses | script.py:84-97 | the pauses after one attempt: 7 s when a response arrived, then 10 s when it failed and is not the last; `History.AttemptRetryPauses` counts the latter |
| History.Retried | script.py:79-97 | the comments, number of attempts and pauses of the retry loop; `History.RetriedPolicy` and `History.RetryPauseCount` characterise it and `History.FetchWithRetry` computes it |
| History.FirstReceived | script.py:80-87 | the index of the first attempt that received data, with no earlier attempt receiving any |
| History.RetriedPolicy | script.py:79-97 | between one and four attempts; the first attempt that receives data ends the loop with that data; if all four fail the result is empty |
| History.SucceedsOnLastAttempt | script.py:79-97 | three failures and then data on the fourth attempt return that data |
| History.CountOfAppend | script.py:85-97 | counting pauses of one length distributes over concatenating pause sequences |
| History.AttemptRetryPauses | script.py:90-97 | an attempt is followed by the 10 s pause exactly when it failed and is not the last |
| History.FailedPauses | script.py:90-97 | `n` failed attempts took `n` retry pauses, or three when all four failed |
| History.RetryPauseCount | script.py:80-97 | a fetch of `n` attempts pauses for a retry exactly `n - 1` times |
| History.FetchWithRetry | script.py:78-97 | the retry loop returns the comments, attempt count and pauses that `Retried` specifies |
| History.IsFresh | script.py:74 | the user has a cache entry at most 604800 s old at time `now`; `History.FreshnessBoundary` shows the bound is inclusive |
| History.FreshnessBoundary | script.py:74 | the one-week window is inclusive: an entry exactly 604800 s old is reused, an older one is not |
| History.CacheAfter | script.py:74-103 | only the user's key changes; a fresh entry is left unchanged; otherwise the entry becomes the retry result stamped with the storing time, even when that result is empty |
| History.SecondFetchWithinWindow | script.py:74-103 | after a refresh, another fetch of the same user within a week is served from the cache with the same comments |
| History.HistoryCache.constructor | script.py:33 | the cache starts empty |
| History.HistoryCache.Fetch | script.py:74-103 | returns the cached response with no attempts and no pauses when it is fresh; otherwise runs the retry loop; the cache becomes `CacheAfter` of the old cache |
| Scoring.Tokens | script.py:112-114 | punctuation removed, then lower-cased, then split on whitespace; characterised by `Scoring.TokensAreTokens`, `Scoring.TokensIgnorePunctuation` and `Scoring.KindExample` |
| Scoring.TokensAreTokens | script.py:112-114 | every token is non-empty and made of lower-case word characters |
| Scoring.AllTokensAreTokens | script.py:110-114 | the same holds for the tokens of the whole history |
| Scoring.Occurrences | script.py:117-120 | a word's number of occurrences is positive exactly when it occurs |
| Scoring.FirstIndex | script.py:124 | the first position of a word: it is there and not earlier |
| Scoring.Increment | script.py:120 | `counter[w] += 1`: a missing word starts at 1 and is appended to the keys; `Scoring.CounterKeys`, `Scoring.CounterCounts` and `Scoring.CounterSum` state what repeated increments give |
| Scoring.CounterKeys | script.py:107-120 | the counter's keys are distinct and are exactly the words incremented |
| Scoring.CounterCounts | script.py:107-120 | each counted word maps to its number of occurrences |
| Scoring.SumCountsOther | script.py:119-120 | changing the count of a word that is not a key leaves the sum unchanged |
| Scoring.SumCountsBump | script.py:119-120 | incrementing one key's count raises the sum by one |
| Scoring.CounterSum | script.py:119-120 | the counts add up to the number of increments |
| Scoring.CounterFirstSeen | script.py:120-124 | the counter lists its words in the order they were first incremented |
| Scoring.FirstSeenStep | script.py:120-124 | one more increment keeps the counter's keys in first-seen order |
| Scoring.FirstIndexExtend | script.py:124 | appending a word keeps earlier first positions and gives a new word the last position |
| Scoring.ScoreOf | script.py:106-120 | the counter is well formed; the total equals the sum of the counts; every counted word is in the word list and is a token |
| Scoring.OccurrencesStep | script.py:117-120 | appending a word adds one occurrence of it and none of any other word |
| Scoring.HitsStep | script.py:117-118 | one more token adds itself to the hits exactly when it is in the word list |
| Scoring.HitsOccurrences | script.py:117-120 | keeping only word-list tokens keeps every occurrence of a listed word and drops every other word |
| Scoring.HitsKeepFirstSeen | script.py:117-120 | keeping only word-list tokens preserves which of two listed words was seen first |
| Scoring.OccurrencesMember | script.py:117-118 | a word is a hit exactly when it is in the word list and among the tokens |
| Scoring.ScoreCounts | script.py:106-120 | a word is counted exactly when it is in the word list and among the history's tokens, with its number of occurrences |
| Scoring.ScoreFirstSeen | script.py:107-124 | counted words are listed in the order of their first occurrence in the history |
| Scoring.TokensIgnorePunctuation | script.py:112-114 | inserting punctuation anywhere in a body changes none of its tokens |
| Scoring.EmptyHistory | script.py:106-110 | an empty history scores zero with an empty counter |
| Scoring.UpperCaseEntryNeverCounts | script.py:112-118 | a word-list entry with an upper-case letter is never counted |
| Scoring.KindExample | script.py:112-114 | punctuation is removed before lower-casing: `Kind!` gives the single token `kind` |
| Scoring.AllTokensStep | script.py:110-114 | one more comment appends its tokens to the history's tokens |
| Scoring.CounterOfStep | script.py:120 | one more hit increments the counter once for that word |
| Scoring.CountTokens | script.py:117-120 | the inner loop extends the total and the counter by exactly the hits among one body's tokens |
| Scoring.CountWholesome | script.py:106-120 | the scoring loops compute `ScoreOf` of the history, whose total is the sum of the counts |
| Reply.Row | script.py:124 | one table row, the word and its count between bars; `Reply.TableLines` shows the table consists of exactly these rows |
| Reply.Rows | script.py:123-125 | one table row per counted word, in the counter's order, showing the word and its count |
| Reply.Table | script.py:126 | the rows joined with line breaks; characterised by `Reply.TableLines` |
| Reply.ReplyText | script.py:129-132 | the introduction chosen by `!uwucheckself`, the total, the table header, the table and the closing text; characterised by `Reply.ReplyPerson`, `Reply.ReplyReportsTotal` and `Reply.ReplyEmbedsTable` |
| Reply.TableLines | script.py:123-126 | an empty counter gives an empty table; otherwise splitting the table at line breaks gives back exactly the rows |
| Reply.CountedWordsHaveNoLineBreak | script.py:114-126 | no counted word contains a line break, so the table has one line per word |
| Reply.IntrosDiffer | script.py:130-132 | no text starting with the third-person introduction starts with the second-person one |
| Reply.ReplyPerson | script.py:129-132 | the reply is in the second person exactly when the lower-cased body contains `!uwucheckself`, and otherwise in the third person naming `u/<user>` |
| Reply.ReadBack | script.py:130-132 | a count written after an introduction and followed by a non-digit is read back exactly |
| Reply.ReplyReportsTotal | script.py:129-132 | the number right after the introduction is the total |
| Reply.ReplyEmbedsTable | script.py:130-132 | the reply ends with the header, the table and the closing text, whose leading space and bar follow the last row |
| Bot.Answer | script.py:50-138 | the reply for one comment: none, the fixed text for a bot self-query, or the scored reply; characterised by the four lemmas below and computed by `Bot.WholesomeBot.Handle` |
| Bot.AnsweredIffTriggered | script.py:50 | a comment gets an answer exactly when it passes the trigger gate |
| Bot.SelfQueryIgnoresHistory | script.py:64-68 | when the bot is the target, the answer is the fixed text whatever the cache holds or the search returns |
| Bot.ReplyPersonFollowsRoute | script.py:52-132 | a scored reply is in the second person exactly when `!uwucheckself` chose the target, and otherwise names the target in the third person |
| Bot.ReplyReportsScore | script.py:74-132 | the count in a scored reply is the score of the history that the cache or the search provides for the target |
| Bot.WholesomeBot.constructor | script.py:33-44 | the bot starts with an empty cache and nothing queued or posted |
| Bot.WholesomeBot.Handle | script.py:50-138 | an untriggered comment changes nothing; a bot self-query queues the fixed text and changes neither the posted replies nor the cache; a checked user's reply is queued and posted, and the cache becomes `CacheAfter` of the old cache |

## Left out

- Authentication, environment variables, the subreddit stream and its outer loop: they are I/O. The outer loop iterates over the characters of the subreddit string, but the stream never ends, so only one comment at a time is modelled (`Handle`).
- The remote search request, JSON decoding and `time.sleep`: each attempt's outcome is a parameter, and sleeps are recorded as the sequence of pause lengths, not as real delays.
- The `KeyError` raised when a decoded response has no `data` key: it escapes the retry loop and ends the program.
- The `KeyError` raised when a received comment record has no `body` key: `Received(data)` gives every record a body. In the program this error is raised while scoring, outside the `try` of the retry loop, so the program ends there, after the entry was already written to the cache; the model does not capture this.
- Reading the word list from `wholesomewords.txt`: the word list is a given set of strings.
- The crash when the parent comment or its author has been deleted: the parent's author is given as a string.
- The `'timestamp' in cache[user_name]` test: every entry the program stores has a timestamp, so the test always holds.
- The error and retry messages that are printed: they are not observable in the reply.
- Text.Lower: models `str.lower()` on ASCII letters only; other characters are left unchanged, whereas Python also lower-cases non-ASCII letters.
- Text.StripPunctuation: treats only ASCII letters, digits and `_` as `\w`, and only ASCII whitespace as `\s`; Python's Unicode classes are wider.
- Text.Words: splits on ASCII whitespace only, whereas `str.split()` also splits on Unicode spaces.
- Timestamps are modelled as real numbers; floating-point rounding of `time.time()` is not modelled.
- Scoring.KindExample: a worked example on a one-word body only; longer literal examples are not proved.
