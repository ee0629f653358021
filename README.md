# Korean vocabulary bot, greedy change and pyramid rows

A Dafny model of three small Python programs, with proofs about them.

- **The Korean vocabulary bot** (`korean_vocab_bot_fast.py`). One user talks to the bot through four buttons and a few slash commands. Each user has a session (`context.user_data`) with four keys:
  - `mode`: absent, `"add"` or `"quiz"`;
  - `answer`: the normalised expected answer of the pending question;
  - `quiz_pool`: a preloaded random sample of words;
  - `quiz_index`: a cursor into that pool.

  The model has these parts:
  - a `Conversation` class whose fields are that session plus an outbox of replies;
  - a `Store` class holding the vocabulary table as a sequence of rows;
  - `Text`, the Python string operations the bot uses: `strip()`, ASCII `lower()`, `split()` and `" ".join`.

  Every handler is a method whose contract states the new session, the new table and the texts it sends:
  - `handle_message`;
  - `start`, `add`, `list_words` and `stop`;
  - `_ask_quiz_question`;
  - `safe_reply`.
- **Greedy change** (`week6_2.py`). The loop over quarters, dimes, nickels and pennies works on integer cents. It is proved to pay the amount exactly and to leave nothing over. The comment's claim that it uses the fewest coins is proved too. The prompt loop that insists on a non-negative amount is modelled over a list of typed-in values.
- **Pyramid** (`week6_1.py`). Each row is a string function of the height and the row number, and a loop collects the rows. Proved properties:
  - the rows' length;
  - their prefix shape;
  - the `#` count;
  - the blank middle column;
  - that every row is a palindrome;
  - that only heights above 0 reach `pyramid`.

Files:
- `wrappers.dfy`: `Option`.
- `text.dfy`: module `Text`.
- `vocab_store.dfy`: module `VocabStore`.
- `vocab_bot.dfy`: module `VocabBot`.
- `change.dfy`: module `Change`.
- `pyramid.dfy`: module `Pyramid`.

Choices made where the program depends on things outside it:

- **Randomness.** `ORDER BY RANDOM()` and `random.choice` are modelled as nondeterministic choices.
  - A random read returns an `IsSample`: exactly `min(limit, rows)` rows, each at most as often as it occurs in the table.
  - The quiz direction is the parameter `askMeaning`: `true` means "what does … mean".
- **Sending.** The outcome of each send is chosen nondeterministically: delivered, `Forbidden`, `BadRequest` or another error. It is recorded in the outbox with the text.
  - A `Forbidden` outcome clears the mode, exactly as `safe_reply` does. So "the mode stays" is always stated as `ModeAfter(m, replies)`: `m` unless one of the replies was refused with `Forbidden`.
  - Each handler returns the replies it sent as a ghost value.
- **Absent keys.** An absent `quiz_pool` is the empty pool and an absent `quiz_index` is 0. This is how `_ask_quiz_question` reads them (`.get('quiz_index', 0)` and the truthiness test on the pool).

Three behaviours of the code a reader might not expect:
- The pending answer is not cleared when a question cannot be asked. It is also not cleared when a `Forbidden` send drops the mode. It is only replaced by the next question or removed by Stop.
- `/list` on an empty table sends the two headers with no lines. It does not send a "no words yet" message.
- With an empty table, the Quiz button first sends "Quiz mode activated", then "No words yet", and ends with no mode.

## Model

| member | source | states |
|---|---|---|
| Text.StripLeftSpec | korean_vocab_bot_fast.py:203 | `lstrip` removes exactly a run of Python whitespace from the front and stops at a non-whitespace character |
| Text.StripRightSpec | korean_vocab_bot_fast.py:203 | `rstrip` removes exactly a run of whitespace from the back and stops at a non-whitespace character |
| Text.StripSpec | korean_vocab_bot_fast.py:203 | `strip()` keeps a slice of its input that neither starts nor ends with whitespace, and all it drops on either side is whitespace |
| Text.StripOf | korean_vocab_bot_fast.py:203 | `strip()` of whitespace + core + whitespace is the core, for any core without whitespace at its ends |
| Text.StripIdempotent | korean_vocab_bot_fast.py:203 | stripping twice gives what stripping once gives |
| Text.StripPadded | korean_vocab_bot_fast.py:203 | extra whitespace around a text does not change what `strip()` keeps |
| Text.Lower | korean_vocab_bot_fast.py:194 | `lower()` keeps the length and maps every character by itself, `A`-`Z` to `a`-`z` |
| Text.NormalizeIdempotent | korean_vocab_bot_fast.py:194-197 | a stored answer (`x.lower().strip()`) is its own normal form |
| Text.NormalizeIgnoresPaddingAndCase | korean_vocab_bot_fast.py:257 | a text padded with whitespace, or differing only in letter case, normalises like the original |
| Text.NormalizeStripped | korean_vocab_bot_fast.py:203 | the message is stripped before `lower().strip()`; that first strip leaves the normal form unchanged |
| Text.WordLength | korean_vocab_bot_fast.py:245 | the first word of a text is its longest whitespace-free prefix |
| Text.Split | korean_vocab_bot_fast.py:245 | `split()` yields only non-empty tokens without whitespace |
| Text.SplitSpace | korean_vocab_bot_fast.py:245 | whitespace in front of a text, of any kind and length, contributes no token to `split()` |
| Text.SplitCons | korean_vocab_bot_fast.py:245 | after leading whitespace, the next token of `split()` is the maximal whitespace-free run, followed by the tokens of the text after it |
| Text.SplitJoin | korean_vocab_bot_fast.py:245-251 | splitting words joined by single spaces gives back those words |
| VocabStore.Pairs | korean_vocab_bot_fast.py:90 | the `(korean, english)` columns of every row, in order |
| VocabStore.PrefixIsSample | korean_vocab_bot_fast.py:80 | a random read always has a possible result |
| VocabStore.SampleEmpty | korean_vocab_bot_fast.py:100 | with a positive limit, a random read is empty exactly when the table is |
| VocabStore.SampleMembers | korean_vocab_bot_fast.py:80 | a random read returns only rows of the table |
| VocabStore.Newest | korean_vocab_bot_fast.py:69 | `ORDER BY id DESC LIMIT n`: `min(n, rows)` rows, the k-th being the k-th newest |
| VocabStore.NewestAfterAdd | korean_vocab_bot_fast.py:55-74 | right after `add_word`, the new row heads the recent list, followed by what was newest before |
| VocabStore.Store.constructor | korean_vocab_bot_fast.py:38-53 | a fresh table is empty |
| VocabStore.Store.AddWord | korean_vocab_bot_fast.py:55-63 | appends exactly one row with the given columns and changes nothing else |
| VocabStore.Store.RecentWords | korean_vocab_bot_fast.py:65-74 | returns the `limit` newest rows, newest first |
| VocabStore.Store.RandomWords | korean_vocab_bot_fast.py:76-85 | returns a random sample of whole rows |
| VocabStore.Store.RandomWord | korean_vocab_bot_fast.py:87-93 | returns nothing exactly when the table is empty, else the columns of some row |
| VocabStore.Store.RandomQuizPool | korean_vocab_bot_fast.py:95-105 | returns a random sample of the rows' `(korean, english)` columns |
| VocabBot.ModeAfterAppend | korean_vocab_bot_fast.py:116-123 | one more send clears the mode exactly when it is refused with `Forbidden`, consistently over a run of sends |
| VocabBot.TextsOf | korean_vocab_bot_fast.py:114 | the texts of the replies, in order |
| VocabBot.ParseEntry | korean_vocab_bot_fast.py:249-251 | nothing for fewer than two tokens; otherwise token 0, token 1 and the rest joined by single spaces, `""` for exactly two tokens |
| VocabBot.AddLineRoundTrip | korean_vocab_bot_fast.py:245-251 | typing `korean english example…` yields exactly that row |
| VocabBot.AddExample | korean_vocab_bot_fast.py:211-212 | `사랑 love I love you` yields the row (사랑, love, "I love you") |
| VocabBot.AnswerAccepted | korean_vocab_bot_fast.py:192-198 | typing the asked word, in any letter case and with any surrounding whitespace, gets "Correct" |
| VocabBot.GradingExample | korean_vocab_bot_fast.py:257-263 | asked for the meaning of 사랑 (love), `  LOVE ` is graded correct |
| VocabBot.WrongAnswerShown | korean_vocab_bot_fast.py:264-265 | an answer whose normal form differs gets "Wrong", followed by the stored answer |
| VocabBot.LinesAppend | korean_vocab_bot_fast.py:164-171 | the bullet lines of two runs of rows are the lines of the first followed by those of the second |
| VocabBot.LinesInclude | korean_vocab_bot_fast.py:164-166 | every row's bullet line appears in the listing, after the lines of the rows before it |
| VocabBot.AppendLines | korean_vocab_bot_fast.py:164-166 | each `for w in ...: text += ...` loop appends exactly the bullet lines of its rows |
| VocabBot.BuildListing | korean_vocab_bot_fast.py:159-172 | the listing text is the latest header, the recent lines, the random header and the random lines |
| VocabBot.Conversation.constructor | korean_vocab_bot_fast.py:242 | a new session has no mode, no answer, an empty pool, cursor 0 and an empty outbox |
| VocabBot.Conversation.SafeReply | korean_vocab_bot_fast.py:108-129 | sends one reply; reports delivery; a `Forbidden` outcome clears the mode; nothing else changes |
| VocabBot.Conversation.NextRow | korean_vocab_bot_fast.py:178-185 | below the end of the pool: the row under the cursor, cursor +1; otherwise a random row of the table (none if empty), cursor unchanged |
| VocabBot.Conversation.AskQuizQuestion | korean_vocab_bot_fast.py:175-200 | stores the normalised answer of the chosen row and sends its question; with no row it sends "No words yet", clears the mode, keeps the answer and fails |
| VocabBot.Conversation.Start | korean_vocab_bot_fast.py:132-141 | sends the greeting and changes nothing else |
| VocabBot.Conversation.AddParts | korean_vocab_bot_fast.py:144-157 | fewer than two tokens: usage reply, table unchanged; otherwise exactly one row appended and confirmed |
| VocabBot.Conversation.AddCommand | korean_vocab_bot_fast.py:143-157 | `/add` adds from its arguments whatever the mode, with the command's usage text |
| VocabBot.Conversation.ListWords | korean_vocab_bot_fast.py:159-173 | one reply: the newest 10 rows and a random sample of 5 rows; the session stays as it was |
| VocabBot.Conversation.StopCommand | korean_vocab_bot_fast.py:281-293 | `/stop` removes mode and answer from any state and sends the command list |
| VocabBot.Conversation.PressAdd | korean_vocab_bot_fast.py:206-215 | enters add mode; the quiz keys stay as they were |
| VocabBot.Conversation.PressStop | korean_vocab_bot_fast.py:235-239 | removes mode and answer from any state and confirms |
| VocabBot.Conversation.LoadQuizPool | korean_vocab_bot_fast.py:226-228 | a fresh random sample becomes the pool and the cursor goes to 0 |
| VocabBot.Conversation.PressQuiz | korean_vocab_bot_fast.py:222-233 | quiz mode, a new pool, cursor at 0, one question from the pool's first row with cursor 1; with an empty table no question, the answer kept, and no mode |
| VocabBot.Conversation.AnswerQuiz | korean_vocab_bot_fast.py:256-271 | no pending answer: one reply, nothing else changes; otherwise "Correct" exactly when the normal forms match, then the next question |
| VocabBot.Conversation.HandleMessage | korean_vocab_bot_fast.py:202-279 | buttons first whatever the mode, then add mode adds, quiz mode grades, and with no mode a prompt to press a button; for each case, the new session, the table and the texts |
| Change.Recompose | week6_2.py:22-24 | the coins taken so far and the cents left add back up to the starting amount |
| Change.RestBelowCoin | week6_2.py:24 | after each coin the cents left are at least 0 and below that coin |
| Change.TakeOneCoin | week6_2.py:22-24 | one turn of the loop adds `cents // coin` to the count and keeps `cents % coin` |
| Change.TakenAt | week6_2.py:23 | the count taken of each coin is the cents left before it divided by the coin |
| Change.TakenNonNegative | week6_2.py:21-23 | from a non-negative amount every count taken, and their sum, is at least 0 |
| Change.TakenWithCoins | week6_2.py:18-24 | with 25, 10, 5, 1 the loop takes q, d, n, p as the successive quotients, and nothing is left |
| Change.GreedyBeatsAll | week6_2.py:20 | no combination of quarters, dimes, nickels and pennies uses fewer coins than the greedy count for the same value |
| Change.GreedyIsMinimal | week6_2.py:20-24 | the greedy count is at most the size of any exact payment |
| Change.GreedyCorrect | week6_2.py:18-24 | the greedy counts pay the amount exactly with nothing left; they are not negative for a non-negative amount; and no exact payment uses fewer coins |
| Change.TakeCoins | week6_2.py:21-24 | the loop over any positive coin list: count = sum of quotients, coins taken + cents left = amount, cents left below the last coin |
| Change.CountCoins | week6_2.py:18-26 | for 25, 10, 5, 1: the printed count is the number of coins of an exact payment with nothing left over, and no exact payment uses fewer coins |
| Change.ReadChange | week6_2.py:2-14 | only a non-negative number is accepted; it is the first such value, and every value before it was not a number or negative |
| Pyramid.Repeat | week6_1.py:5 | `c * n`: `n` copies of `c`, none for `n <= 0` |
| Pyramid.RowAt | week6_1.py:3-5 | row i has width 2h+1 and a blank exactly outside the two `#` runs and at the middle column h |
| Pyramid.RowWidth | week6_1.py:3-5 | row i has length 2h+1 and its character at index h is a blank |
| Pyramid.RowStart | week6_1.py:3-5 | row i begins with h-i blanks followed by i `#` |
| Pyramid.RowPalindrome | week6_1.py:5 | every row reads the same reversed |
| Pyramid.RowHashes | week6_1.py:4-5 | row i holds exactly 2i `#` |
| Pyramid.ReverseAt | week6_1.py:5 | reading a row reversed, index k holds the character at index length-1-k |
| Pyramid.Build | week6_1.py:1-5 | `pyramid(h)` gives exactly h rows, the k-th being row k, in increasing order; none for h <= 0 |
| Pyramid.Respond | week6_1.py:7-21 | one round of `main`: not a number gives the complaint, a height <= 0 the other complaint, and only a height above 0 reaches `pyramid` |

## Left out

- Telegram transport is not modelled: `reply_text`, the keyboard markup, handler registration, `run_polling` and the routing of slash commands away from `handle_message`. They are I/O and a foreign library. A reply is its text plus the send outcome, appended to the outbox.
- The exception types of `safe_reply` and its logging are not modelled. Only "refused with `Forbidden` clears the mode" and "any failure returns false" are kept.
- SQLite is replaced by the `Store` sequence: the connections, the SQL text and the `date_added` column. Row order stands for the auto-increment id. A failing database call is not modelled.
- `ORDER BY RANDOM()` and `random.choice` are nondeterministic. Their distribution and the order of a sample are not modelled, because neither can be stated as a verifiable property.
- The sessions of other users, `async` scheduling and concurrent updates are not modelled. One `Conversation` is one user, and its handlers run one after another.
- The token file and logging configuration are not modelled.
- Telegram splits the command text into `context.args`; the model takes `add`'s arguments already split. For messages, the model's own `Split` is used.
- Text.Lower: only `A`-`Z` are lower-cased. Python's `lower()` also maps non-ASCII letters (Latin-1, Greek, Cyrillic and others), and that Unicode case table is not modelled. Hangul has no case, so Korean words are unaffected either way.
- VocabBot.Conversation.ListWords: the "List never changes the session" property holds only up to `Forbidden`. The code clears `mode` when the listing send is refused with `Forbidden`, so the ensures say `ModeAfter(old(mode), replies)`. The same holds for `PressAdd` and for add mode; it is what the code does.
- week6_2.py: `get_float`'s parsing of the typed text and the conversion `round(change_owed * 100)` are not modelled, because they are floating point. `ReadChange` takes each line already parsed, with no value for a line `float` rejects. A parsed line is a mathematical real, so NaN and the infinities are not modelled. `CountCoins` starts from integer cents.
- week6_2.py: both `while True` prompt loops (in `get_float` and in `main`) are unbounded. `ReadChange` takes a finite list of lines instead, and "no acceptable line" is its outcome when the list runs out; an input that never yields an acceptable line is not modelled.
- Printing is not modelled in either script. The outputs are returned values: the count from `CountCoins`, and the rows or complaint message from `Respond`.
- week6_1.py: the endless `while True` loop of `main` is modelled one round at a time in `Respond`.
- week6_1.py: the branch `if number is None` at lines 15-16 has no model, because `int()` never returns `None`.
