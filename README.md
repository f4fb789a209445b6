# Daily word game: letter feedback and per-day guess handling

This project models the core of a chat word game. Each calendar day has one
hidden five-letter word. Players send guesses. Each guess gets letter-by-letter
feedback: a match (right letter, right place), a partial (right letter,
wrong place) or absent.

The project has four files:

- `game.dfy` (module `Game`) models the feedback engine, `word_diff`.
  `WordDiff` is the source's two loops over a letter counter. It is proved
  equal to `Diff`, a closed form stated without the counter: an occurrence of
  a letter is reported when the guess holds fewer earlier occurrences of it
  than the word's first len(guess) letters do. The module also models the rendering of a
  diff as an emoji row and, optionally, a letter row (`slack_diff_payload`).
  Emoji and the invisible joiner are abstract tokens.
- `app.dfy` (module `App`) models the store and the request handler.
  - The store is a class `Tables` holding two maps. The game table maps a
    date to a word and an optional winner. The guess table maps a (user,
    date) pair to that player's list of guesses.
  - Each store helper of the source is a method on `Tables`.
  - `handle_request` is `HandleRequest`. It handles one guess in eight
    steps:
    1. A text that is empty or not five characters long is an invalid
       guess. Otherwise it is upper-cased.
    2. The day's game is read. If there is none, or the read fails, a game
       is created with an upper-cased word from the pool. If the store
       rejects that, the answer is "no game today".
    3. If the day has a winner (a non-empty name), the answer names the
       winner and the word.
    4. A player who already has three guesses for the day is out of
       guesses.
    5. A guess the player already made is refused.
    6. The guess is appended to the player's list. When there was no
       record, the record is created first.
    7. A right guess claims the win (set-if-absent). If another player
       holds it, the answer names that player. Otherwise the answer shows
       every guess as emoji and lists the day's players.
    8. A wrong guess is answered with every guess and its letters. The
       third guess also reveals the word.
  - `PlayGuess` does steps 3 to 8. It uses `RecordGuess` (steps 4 to 6)
    and `Respond` (steps 7 and 8).
  - The outcome of steps 3 to 8 is the predicate `Played`.
  - `Tables.Valid` is the store invariant the handler keeps. Every game has an
    upper-cased five-letter word. Every guess list has at most three distinct
    upper-cased five-letter guesses.
- `text.dfy` (module `Text`) models ASCII upper- and lower-casing, and
  proves that two texts upper-case to the same guess exactly when they
  differ only in case.
- `wrappers.dfy` (module `Wrappers`) defines `Option`.

The feedback code is single-pass. Matches and partials are decided in the
same left-to-right loop, so an earlier partial can use up a letter. A later
occurrence of that letter in its own position is then reported absent.
`SinglePassLlamaAlarm` shows this for LLAMA against ALARM. The usual
two-pass rule of Wordle reports every match first, so it would mark the
second L a match, and under it the number of matches always equals the
number of positions where guess and word agree. That equality does not hold
for this code: in the LLAMA/ALARM case 2 positions agree but only 1 is
reported a match.

The clock, the random choice of a word from the pool, and the store's
failures are parameters of `HandleRequest`:

- `date` is the day.
- `poolWord` is the word drawn for a new game.
- `gameReadFails` says whether the read of the day's game fails. The handler
  treats any failure of that read like a missing game and creates a new
  one. That unconditional put replaces the day's word and erases a stored
  winner, so a day already won can be won again (`FailedReadReopensWonDay`).
- `createFails` says whether the store rejects the creation of the game.
- `guessReadFails` says whether the read of the player's guess record
  fails. The handler treats that like a missing record: it puts a record
  holding the guess alone over whatever was stored. The three-guess limit
  and the duplicate check are then skipped (`FailedGuessReadResetsList`).
- `scanFails` says whether the store rejects the scan for the day's players.

## Model

| member | source | states |
|---|---|---|
| `Game.Diff` | wordle/game.py:11-26 | one entry per letter of the guess, in guess order, each carrying that letter |
| `Game.CountLetters` | wordle/game.py:12-15 | the counter holds, for every letter, its number of occurrences among the first `len(guess)` letters of the word |
| `Game.WordDiff` | wordle/game.py:11-26 | the single-pass loop over the counter yields exactly `Diff`; its invariant says the counter is what is left of the word's letters after the earlier guess letters drew on it, so it never goes negative |
| `Game.DrawOne` | wordle/game.py:20-22 | a guess letter decrements its counter only while the counter is positive, and leaves every other letter's counter alone |
| `Game.DiffStep` | wordle/game.py:17-25 | the diff of the first idx+1 letters is the diff of the first idx letters plus one entry for letter idx |
| `Game.MatchOnlyInPlace` | wordle/game.py:20-21 | a match only where guess and word agree; every other reported letter is a partial |
| `Game.ReportedIsMin` | wordle/game.py:12-25 | for every letter, the number of entries reporting it (match or partial) is the minimum of its count in the guess and its count in the word's first len(guess) letters |
| `Game.ReportedPrefix` | wordle/game.py:17-25 | the same counting law for every prefix of the guess |
| `Game.OccurrencesGrow` | wordle/game.py:17-25 | a later prefix of the guess holds strictly more occurrences of a letter than the prefix before that letter |
| `Game.LeftmostReported` | wordle/game.py:17-25 | once an occurrence of a letter is absent, every later occurrence of it is absent too |
| `Game.AbsentOutsideWord` | wordle/game.py:15-25 | a letter that does not occur in the word is always absent |
| `Game.SelfDiffAllMatch` | wordle/game.py:15-23 | guessing the word itself gives a match at every position |
| `Game.SinglePassLlamaAlarm` | wordle/game.py:17-25 | LLAMA against ALARM gives L partial, L absent, A match, M partial, A partial; the second L is absent although the word has an L there |
| `Game.LlamaAlarmCounts` | wordle/game.py:12-22 | the letter counts of ALARM and of the prefixes of LLAMA that decide that diff |
| `Game.StatusText` | wordle/game.py:30-35 | a letter is rendered as an emoji exactly when emoji are asked for, and otherwise as text |
| `Game.Row` | wordle/game.py:38-43 | a row of n entries has 2n-1 tokens (none for no entry); `RowShape` states what they are |
| `Game.SlackDiffPayload` | wordle/game.py:28-47 | the payload has 2n-1 tokens when hidden and 4n-1 when revealed (none, or the separator alone, for an empty guess); `HiddenPayload` and `RevealedPayload` state what they are |
| `Game.RowShape` | wordle/game.py:38-43 | a row holds the rendered entries at even positions in guess order, the joiner between each two, and nothing else |
| `Game.HiddenPayload` | wordle/game.py:30-46 | without revealing the guess the payload is one emoji per letter (green match, orange partial, white absent) with the joiner at every position between two of them, and no text |
| `Game.RevealedPayload` | wordle/game.py:30-46 | revealing the guess gives the emoji row, then " - ", then the letter row with the joiner between its letters, where a match is `*C*`, a partial `C` and an absent letter lower case; an empty guess gives the separator alone |
| `Game.EmojiRowShowsOnlyStatuses` | wordle/game.py:30-44 | the emoji row depends only on the statuses, so it shows nothing of the letters guessed |
| `Text.UpperChar` | wordle/app.py:44 | the result is never a lower-case letter; a lower-case letter becomes an upper-case one and nothing else changes |
| `Text.LowerChar` | wordle/game.py:35 | the result is never an upper-case letter; an upper-case letter becomes a lower-case one and nothing else changes |
| `Text.LowerUndoesUpper` | wordle/app.py:44 | lower-casing the upper-case form of a lower-case letter gives the letter back |
| `Text.UpperUndoesLower` | wordle/game.py:35 | upper-casing the lower-case form of an upper-case letter gives the letter back |
| `Text.UpperKeepsLength` | wordle/app.py:42-44 | upper-casing keeps the length, so checking the length before upper-casing agrees with checking it after |
| `Text.UpperIdempotent` | wordle/app.py:44 | upper-casing an upper-cased guess again leaves it unchanged |
| `Text.UpperIgnoresCase` | wordle/app.py:44 | a text and its lower-case form give the same upper-cased guess |
| `Text.LowerOfUpperIsLower` | wordle/app.py:44 | lower-casing an upper-cased text gives the text's own lower-case form |
| `Text.SameGuessIffSameIgnoringCase` | wordle/app.py:44 | two texts give the same upper-cased guess iff they agree ignoring case |
| `App.Diffs` | wordle/app.py:76 | one rendered diff per stored guess |
| `App.Tables.GetUserGuesses` | wordle/app.py:107-113 | the player's stored list for the day, or None when the read fails or there is no record |
| `App.Tables.CreateUserGuess` | wordle/app.py:115-124 | the record of (user, date) becomes the one-guess list, and no other record changes |
| `App.Tables.SetUserGuesses` | wordle/app.py:125-133 | the record of (user, date) becomes the given list, created if missing, and no other record changes |
| `App.Tables.GetPlayers` | wordle/app.py:135-148 | exactly the users with a guess record for the day, each once; the empty list when the scan fails |
| `App.Tables.GetGame` | wordle/app.py:151-160 | the day's word and stored winner, or None when the read fails, the day has no row or its row has no word |
| `App.Tables.CreateGame` | wordle/app.py:163-170 | an accepted put replaces the day's row with the word and no winner; a rejected put changes nothing |
| `App.Tables.GameHasWinner` | wordle/app.py:173-182 | the stored winner of the day, or None when there is no row or no winner |
| `App.Tables.SetWinner` | wordle/app.py:184-194 | set-if-absent: an existing winner is never overwritten, otherwise the user is stored; reports success iff the stored winner is the user |
| `App.SeenGuesses` | wordle/app.py:58-67 | the list the handler works from (none at all when the read of the record fails) is well formed and a prefix of what is stored |
| `App.RecordGuess` | wordle/app.py:58-70 | three seen guesses give "out of guesses", a repeated guess gives "already submitted", and in both cases nothing changes; otherwise the list becomes the seen list plus the guess, which on a failed read replaces the stored list; no other record changes, and the list only grows when the read succeeds |
| `App.Respond` | wordle/app.py:71-105 | a right guess claims the win with set-if-absent and lists the day's players, each once; a lost claim names the stored winner; a wrong guess shows every guess with its letters and reveals the word iff the list now has 3 entries |
| `App.PlayGuess` | wordle/app.py:55-105 | steps 3 to 8 as `Played` states them: a finished day answers with its winner and word and records nothing, then the guess limit, the duplicate check, the append, the winner claim and the answer |
| `App.GamesWithGame` | wordle/app.py:45-54 | the day has a game with the word played; a created game (no word found, or a failed read) replaces the day's row and has no winner; every other day is untouched |
| `App.HandleRequest` | wordle/app.py:33-105 | a text whose length is not 5 is invalid and changes nothing; a day whose game is missing or unreadable first gets the upper-cased pool word, or the answer is "no game today" with nothing changed; then `Played`; the store invariant is kept; when the game's read succeeds no word or stored winner changes; other days never change; only this player's list for the day can change, and only by growing when the record's read succeeds |
| `App.KeepsGamesTransitive` | wordle/app.py:45-74 | keeping every day's word and winner is preserved across successive steps of the handler |
| `App.WinningAnswerHidesLetters` | wordle/app.py:76 | the winning answer renders every guess as emoji and joiners only, without a letter |
| `App.DuplicateIgnoresCase` | wordle/app.py:44-65 | on a day without a winner and under the limit, a guess is refused as already submitted iff a seen guess equals the text ignoring case |
| `App.WinIgnoresCase` | wordle/app.py:44-72 | a newly recorded guess claims the win iff the text equals the word ignoring case, and otherwise the guesses are shown |
| `App.FailedGuessReadResetsList` | wordle/app.py:58-70 | after a failed read of the player's record the list becomes the guess alone and the guess is never refused, so the limit is bypassed |
| `App.FailedReadReopensWonDay` | wordle/app.py:45-54 | after a failed read a day already won gets a new word and no winner, so its right guess wins again and replaces the stored winner |
| `App.AnswerRevealedOnThirdWrongGuess` | wordle/app.py:75-105 | a wrong guess reveals the word exactly when the player's list has 3 entries, and the winner is among the players listed when the scan succeeds |

## Left out

- HTTP and Lambda plumbing (`lambda_handler`, `parse_qs`) is not modelled. The user name and the raw guess text are inputs.
- DynamoDB request shapes, `get_ddb_connection` and the environment lookups of table names are not modelled. The two tables are the two maps of `Tables`.
- Store failures are modelled only where the handler reacts to them: the failed read of the day's game, the rejected creation of a game, the failed read of the player's guess record and the failed players scan. A failure of `game_has_winner`'s read, `set_user_guesses`, `create_user_guess` or `set_winner` escapes the handler as an exception in the source. That path is not modelled.
- `datetime.date.today()` and `random.choice(WORD_POOL)` are parameters (`date`, `poolWord`). `words.py` is not part of this model. The pool word is required to be five letters long.
- Concurrency is not modelled. Each request runs alone against the two maps. The race-loss branch of the winner claim is still modelled. In the model it is reachable without a race, when the stored winner is an empty name. In the source it is not: `parse_qs` drops blank values, so no request carries an empty user name.
- `Tables.CreateGame` is an unconditional put, as in the source, not a first-writer-wins create.
- The Slack block layout, the message texts, the "\n>" joining of diff lines and the exact emoji strings are not modelled. `Response` names each message variant. Emoji, the joiner character and the " - " separator are abstract tokens.
- The order of the players list is the store's scan order, which is unspecified. `GetPlayers` fixes only the set of players and that each appears once.
- `Tables.GetPlayers`: the source makes a single scan call and ignores `LastEvaluatedKey`, so it sees only the first page (1 MB) of the guess table. The model returns every player of the day, as if the table fitted in one page.
- `UpperChar`, `LowerChar`, `UpperKeepsLength`: case conversion is ASCII only. Python's `str.upper` and `str.lower` also convert other Unicode letters, and can change a string's length: "ßABCD" passes the length check and upper-cases to "SSABCD". That is not modelled, and neither is what follows from it in the source. The six-letter guess is stored, which breaks `Tables.Valid`. Then `word_diff` reads past the end of the five-letter word and raises after the guess was saved.
- `Diffs`: its contract states only the number of diffs. What each diff holds is stated by `HiddenPayload` and `RevealedPayload`.
- `HandleRequest` requires `Tables.Valid()`, and keeps it. The source relies on it without checking it. It holds of the source only while every guess upper-cases to five characters, as the line above explains.
- The `WorldeGame` class, logging, `print` and unused imports are outside the modelled core.
