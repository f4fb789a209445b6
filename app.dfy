/**
 * Per-day guess handling: the game table (date to word and optional winner),
 * the guess table ((user, date) to the list of guesses), their store
 * operations, and the handler of one guess.
 */
module App {
  import opened Wrappers
  import opened Text
  import opened Game

  type User = string
  type Date = string

  /** A row of the game table. Its word is missing only on a row that set_winner created. */
  datatype GameItem = GameItem(word: Option<string>, winner: Option<User>)

  /** What the handler answers, before it is laid out as a chat message. */
  datatype Response =
    | InvalidGuess                                   // "Invalid guess"
    | NoGameToday                                    // "Unable to create a game today"
    | GameOver(winner: User, answer: string)         // "The game is finished, the winner is ..."
    | OutOfGuesses                                   // "you have run out of guesses"
    | AlreadySubmitted                               // "you have submitted that guess"
    | Won(winner: User, answer: string, diffs: seq<seq<Token>>, players: seq<User>)
    | Guesses(diffs: seq<seq<Token>>, revealed: Option<string>)  // the answer only on the last wrong guess

  /** A stored winner counts only when it is a non-empty name (the handler tests its truth value). */
  function Truthy(w: Option<User>): Option<User>
  {
    if w.Some? && w.value != "" then w else None
  }

  /** The winner the handler sees for a day. */
  function ActiveWinner(games: map<Date, GameItem>, date: Date): Option<User>
  {
    if date in games then Truthy(games[date].winner) else None
  }

  /**
   * What the handler keeps true of one player's list: at most three
   * distinct five-letter guesses, each stored upper-cased.
   */
  predicate WellFormedGuesses(gs: seq<string>)
  {
    && |gs| <= 3
    && (forall i :: 0 <= i < |gs| ==> |gs[i]| == 5 && Upper(gs[i]) == gs[i])
    && (forall i, j :: 0 <= i < j < |gs| ==> gs[i] != gs[j])
  }

  /** From `before` to `after` no day loses its game, its word, or a stored winner. */
  ghost predicate KeepsGames(before: map<Date, GameItem>, after: map<Date, GameItem>)
  {
    forall d :: d in before ==>
      && d in after
      && after[d].word == before[d].word
      && (before[d].winner.Some? ==> after[d].winner == before[d].winner)
  }

  /** From `before` to `after` no list other than the one under `key` changes. */
  ghost predicate OthersKept(before: map<(User, Date), seq<string>>, after: map<(User, Date), seq<string>>,
                             key: (User, Date))
  {
    forall k :: k != key ==> (k in after <==> k in before) && (k in after ==> after[k] == before[k])
  }

  /**
   * From `before` to `after` only the list under `key` may change, and only by
   * growing: what was stored there stays a prefix of it.
   */
  ghost predicate OnlyGrows(before: map<(User, Date), seq<string>>, after: map<(User, Date), seq<string>>,
                      key: (User, Date))
  {
    && OthersKept(before, after, key)
    && (key in before ==> key in after && before[key] <= after[key])
  }

  lemma KeepsGamesTransitive(a: map<Date, GameItem>, b: map<Date, GameItem>, c: map<Date, GameItem>)
    requires KeepsGames(a, b) && KeepsGames(b, c)
    ensures KeepsGames(a, c)
  {
  }

  /** The rendered diff of each stored guess, in order. */
  function Diffs(gs: seq<string>, word: string, revealGuess: bool): (r: seq<seq<Token>>)
    requires forall i :: 0 <= i < |gs| ==> |gs[i]| <= |word|
    ensures |r| == |gs|
  {
    seq(|gs|, i requires 0 <= i < |gs| => SlackDiffPayload(gs[i], word, revealGuess))
  }

  /** The two tables of the store. */
  class Tables {
    var games: map<Date, GameItem>
    var guesses: map<(User, Date), seq<string>>

    /** Every game has an upper-cased five-letter word; every guess list is well formed. */
    ghost predicate Valid()
      reads this
    {
      && (forall d :: d in games ==>
            games[d].word.Some? && |games[d].word.value| == 5 && Upper(games[d].word.value) == games[d].word.value)
      && (forall k :: k in guesses ==> WellFormedGuesses(guesses[k]))
    }

    constructor ()
      ensures Valid() && games == map[] && guesses == map[]
    {
      games := map[];
      guesses := map[];
    }

    /**
     * get_user_guesses: the stored list of a player for a day, or None when
     * there is no record or the read fails (`fails`), since the handler
     * treats every exception alike.
     */
    method GetUserGuesses(user: User, date: Date, fails: bool) returns (r: Option<seq<string>>)
      ensures fails ==> r == None
      ensures !fails && (user, date) in guesses ==> r == Some(guesses[(user, date)])
      ensures (user, date) !in guesses ==> r == None
    {
      if !fails && (user, date) in guesses {
        r := Some(guesses[(user, date)]);
      } else {
        r := None;
      }
    }

    /** create_user_guess: put a record holding the one guess. */
    method CreateUserGuess(user: User, date: Date, guess: string)
      modifies this`guesses
      ensures guesses == old(guesses)[(user, date) := [guess]]
    {
      guesses := guesses[(user, date) := [guess]];
    }

    /** set_user_guesses: replace the list of a record, creating the record if needed. */
    method SetUserGuesses(user: User, date: Date, gs: seq<string>)
      modifies this`guesses
      ensures guesses == old(guesses)[(user, date) := gs]
    {
      guesses := guesses[(user, date) := gs];
    }

    /**
     * get_players: the users with a guess record for the day, each once, in
     * the store's own order; an empty list when the scan fails.
     */
    method GetPlayers(date: Date, scanFails: bool) returns (players: seq<User>)
      ensures scanFails ==> players == []
      ensures !scanFails ==> forall u :: u in players <==> (u, date) in guesses
      ensures forall i, j :: 0 <= i < j < |players| ==> players[i] != players[j]
    {
      players := [];
      if scanFails {
        return;
      }
      var pending := set k | k in guesses && k.1 == date :: k.0;
      while pending != {}
        invariant forall u :: u in players <==> (u, date) in guesses && u !in pending
        invariant forall u :: u in pending ==> (u, date) in guesses
        invariant forall i, j :: 0 <= i < j < |players| ==> players[i] != players[j]
        decreases pending
      {
        var u :| u in pending;
        players := players + [u];
        pending := pending - {u};
      }
    }

    /**
     * dynamo_get_game: the word of the day and its stored winner, if any;
     * None when there is no row, the row has no word, or the read fails
     * (`fails`), since the handler treats every exception alike.
     */
    method GetGame(date: Date, fails: bool) returns (r: Option<(string, Option<User>)>)
      ensures r.Some? <==> !fails && date in games && games[date].word.Some?
      ensures r.Some? ==> r.value == (games[date].word.value, games[date].winner)
    {
      if !fails && date in games && games[date].word.Some? {
        r := Some((games[date].word.value, games[date].winner));
      } else {
        r := None;
      }
    }

    /**
     * dynamo_create_game: put a fresh row holding the word, replacing any row
     * of that day; `fails` stands for a put the store rejects.
     */
    method CreateGame(date: Date, word: string, fails: bool) returns (ok: bool)
      modifies this`games
      ensures ok == !fails
      ensures games == if ok then old(games)[date := GameItem(Some(word), None)] else old(games)
    {
      ok := !fails;
      if ok {
        games := games[date := GameItem(Some(word), None)];
      }
    }

    /** game_has_winner: the stored winner of the day, if any. */
    method GameHasWinner(date: Date) returns (w: Option<User>)
      ensures date in games ==> w == games[date].winner
      ensures date !in games ==> w == None
    {
      if date in games {
        w := games[date].winner;
      } else {
        w := None;
      }
    }

    /**
     * set_winner: store `user` as the winner unless a winner is already
     * stored (set-if-absent); answer the winner now stored and whether it is
     * `user`. A day without a row gets a row holding only the winner.
     */
    method SetWinner(date: Date, user: User) returns (ok: bool, actual: User)
      modifies this`games
      ensures date in old(games) && old(games)[date].winner.Some? ==> actual == old(games)[date].winner.value
      ensures !(date in old(games) && old(games)[date].winner.Some?) ==> actual == user
      ensures ok <==> actual == user
      ensures games == old(games)[date := GameItem(if date in old(games) then old(games)[date].word else None, Some(actual))]
    {
      var word := if date in games then games[date].word else None;
      if date in games && games[date].winner.Some? {
        actual := games[date].winner.value;
      } else {
        actual := user;
      }
      games := games[date := GameItem(word, Some(actual))];
      ok := actual == user;
    }
  }

  /**
   * Whether the handler creates the day's game: when its read finds no word,
   * which is also the case when the read fails (`readFails`).
   */
  predicate CreatesGame(games: map<Date, GameItem>, date: Date, readFails: bool)
  {
    readFails || !(date in games && games[date].word.Some?)
  }

  /** The word the handler plays with: the stored one, or the pool word for a new game. */
  function WordFor(games: map<Date, GameItem>, date: Date, poolWord: string, readFails: bool): string
  {
    if CreatesGame(games, date, readFails) then Upper(poolWord) else games[date].word.value
  }

  /**
   * The game table once the handler has made sure the day has a game: a
   * created game replaces whatever row the day had, its word and its winner.
   */
  function GamesWithGame(games: map<Date, GameItem>, date: Date, poolWord: string, readFails: bool)
    : (g: map<Date, GameItem>)
    ensures date in g && g[date].word == Some(WordFor(games, date, poolWord, readFails))
    ensures forall d :: d != date ==> (d in g <==> d in games) && (d in g ==> g[d] == games[d])
    ensures CreatesGame(games, date, readFails) ==> g[date].winner == None
    ensures !CreatesGame(games, date, readFails) ==> g == games
  {
    if CreatesGame(games, date, readFails) then games[date := GameItem(Some(Upper(poolWord)), None)]
    else games
  }

  /** The stored list of a player for a day, empty when there is no record. */
  function StoredGuesses(guesses: map<(User, Date), seq<string>>, user: User, date: Date): seq<string>
  {
    if (user, date) in guesses then guesses[(user, date)] else []
  }

  /**
   * The list the handler works from: the stored one, or none at all when the
   * read of the record fails (`readFails`), which it treats as no record.
   */
  function SeenGuesses(guesses: map<(User, Date), seq<string>>, user: User, date: Date, readFails: bool)
    : (gs: seq<string>)
    requires forall k :: k in guesses ==> WellFormedGuesses(guesses[k])
    // what the handler sees is well formed, and never more than what is stored
    ensures WellFormedGuesses(gs)
    ensures gs <= StoredGuesses(guesses, user, date)
  {
    if readFails then [] else StoredGuesses(guesses, user, date)
  }

  /**
   * Steps 4 to 6 of handle_request: refuse a fourth guess or a repeated one,
   * otherwise append the guess to the player's list, creating the record
   * first when there is none. Answers the refusal, or None and the new list.
   * When the read of the record fails (`readFails`) the record is written
   * afresh with the guess alone, whatever it held.
   */
  method RecordGuess(db: Tables, user: User, date: Date, guess: string, readFails: bool)
      returns (refusal: Option<Response>, list: seq<string>)
    requires db.Valid() && |guess| == 5 && Upper(guess) == guess
    modifies db`guesses
    ensures db.Valid()
    ensures OthersKept(old(db.guesses), db.guesses, (user, date))
    ensures !readFails ==> OnlyGrows(old(db.guesses), db.guesses, (user, date))
    ensures var stored := SeenGuesses(old(db.guesses), user, date, readFails);
      && (|stored| >= 3 ==> refusal == Some(OutOfGuesses) && db.guesses == old(db.guesses))
      && (|stored| < 3 && guess in stored ==> refusal == Some(AlreadySubmitted) && db.guesses == old(db.guesses))
      && (|stored| < 3 && guess !in stored ==>
            refusal == None && list == stored + [guess]
            && db.guesses == old(db.guesses)[(user, date) := list])
  {
    var existing: seq<string> := [];
    var stored := db.GetUserGuesses(user, date, readFails);
    if stored.Some? {
      existing := stored.value;
      if |existing| >= 3 {
        return Some(OutOfGuesses), existing;
      }
      if guess in existing {
        return Some(AlreadySubmitted), existing;
      }
    } else {
      db.CreateUserGuess(user, date, guess);
    }
    existing := existing + [guess];
    db.SetUserGuesses(user, date, existing);
    refusal, list := None, existing;
  }

  /**
   * Steps 7 and 8 of handle_request, once `list` (ending with `guess`) is
   * stored: a right guess claims the win with set-if-absent and answers with
   * every guess rendered and the day's players; a wrong guess answers with
   * every guess rendered with its letters, revealing the word on the third.
   */
  method Respond(db: Tables, user: User, date: Date, guess: string, word: string, list: seq<string>,
                 scanFails: bool) returns (r: Response)
    requires db.Valid() && date in db.games && db.games[date].word == Some(word)
    requires (user, date) in db.guesses && db.guesses[(user, date)] == list
    modifies db`games
    ensures db.Valid()
    ensures KeepsGames(old(db.games), db.games)
    ensures guess != word ==>
              db.games == old(db.games)
              && r == Guesses(Diffs(list, word, true), if |list| == 3 then Some(word) else None)
    ensures guess == word ==>
              var actual := if old(db.games)[date].winner.Some? then old(db.games)[date].winner.value else user;
              && db.games == old(db.games)[date := GameItem(Some(word), Some(actual))]
              && (actual != user ==> r == GameOver(actual, word))
              && (actual == user ==>
                    && r.Won? && r.winner == user && r.answer == word
                    && r.diffs == Diffs(list, word, false)
                    && (scanFails ==> r.players == [])
                    && (!scanFails ==> forall u :: u in r.players <==> (u, date) in db.guesses)
                    && (forall i, j :: 0 <= i < j < |r.players| ==> r.players[i] != r.players[j]))
  {
    if guess == word {
      var ok, actual := db.SetWinner(date, user);
      if !ok {
        return GameOver(actual, word);
      }
      var players := db.GetPlayers(date, scanFails);
      r := Won(user, word, Diffs(list, word, false), players);
    } else {
      r := Guesses(Diffs(list, word, true), if |list| == 3 then Some(word) else None);
    }
  }

  /**
   * What steps 3 to 8 of handle_request do to a day that has a game with
   * `word`: `games` and `guesses` are the tables before, `games'` and
   * `guesses'` after, `guess` is the upper-cased guess and `r` the answer;
   * `guessReadFails` says whether the read of the player's record fails.
   */
  ghost predicate Played(games: map<Date, GameItem>, guesses: map<(User, Date), seq<string>>,
                         games': map<Date, GameItem>, guesses': map<(User, Date), seq<string>>,
                         user: User, date: Date, guess: string, word: string, guessReadFails: bool,
                         scanFails: bool, r: Response)
    requires date in games && forall k :: k in guesses ==> WellFormedGuesses(guesses[k])
    requires |guess| == 5 && |word| == 5
  {
    var stored := SeenGuesses(guesses, user, date, guessReadFails);
    var list := stored + [guess];
    assert forall i :: 0 <= i < |list| ==> |list[i]| == 5;
    // 3. a finished game answers with its winner and word and records nothing
    && (ActiveWinner(games, date).Some? ==>
          r == GameOver(ActiveWinner(games, date).value, word) && games' == games && guesses' == guesses)
    // 4. three stored guesses are the limit
    && (ActiveWinner(games, date).None? && |stored| >= 3 ==>
          r == OutOfGuesses && games' == games && guesses' == guesses)
    // 5. a guess already made is refused
    && (ActiveWinner(games, date).None? && |stored| < 3 && guess in stored ==>
          r == AlreadySubmitted && games' == games && guesses' == guesses)
    // 6. otherwise the guess is appended
    && (ActiveWinner(games, date).None? && |stored| < 3 && guess !in stored ==>
          && guesses' == guesses[(user, date) := list]
          // 8. a wrong guess shows every guess so far; the third one reveals the word
          && (guess != word ==>
                games' == games
                && r == Guesses(Diffs(list, word, true), if |list| == 3 then Some(word) else None))
          // 7. a right guess claims the win, unless a winner is already stored
          && (guess == word ==>
                var actual := if games[date].winner.Some? then games[date].winner.value else user;
                && games' == games[date := GameItem(games[date].word, Some(actual))]
                && (actual != user ==> r == GameOver(actual, word))
                && (actual == user ==>
                      && r.Won? && r.winner == user && r.answer == word
                      && r.diffs == Diffs(list, word, false)
                      && (scanFails ==> r.players == [])
                      && (!scanFails ==> forall u :: u in r.players <==> (u, date) in guesses')
                      && (forall i, j :: 0 <= i < j < |r.players| ==> r.players[i] != r.players[j]))))
  }

  /** Steps 3 to 8 of handle_request, on a day whose game holds `word`. */
  method PlayGuess(db: Tables, user: User, date: Date, guess: string, word: string, guessReadFails: bool,
                   scanFails: bool) returns (r: Response)
    requires db.Valid() && |guess| == 5 && Upper(guess) == guess
    requires date in db.games && db.games[date].word == Some(word)
    modifies db
    ensures db.Valid()
    ensures KeepsGames(old(db.games), db.games)
    ensures OthersKept(old(db.guesses), db.guesses, (user, date))
    ensures !guessReadFails ==> OnlyGrows(old(db.guesses), db.guesses, (user, date))
    ensures Played(old(db.games), old(db.guesses), db.games, db.guesses, user, date, guess, word, guessReadFails,
                   scanFails, r)
  {
    var winner := db.GameHasWinner(date);
    if winner.Some? && winner.value != "" {
      return GameOver(winner.value, word);
    }
    var refusal, list := RecordGuess(db, user, date, guess, guessReadFails);
    if refusal.Some? {
      return refusal.value;
    }
    ghost var gamesBefore := db.games;
    r := Respond(db, user, date, guess, word, list, scanFails);
    KeepsGamesTransitive(old(db.games), gamesBefore, db.games);
  }

  /**
   * The winning answer shows every guess as emoji only: not one letter of
   * any guess appears in it.
   */
  lemma WinningAnswerHidesLetters(games: map<Date, GameItem>, guesses: map<(User, Date), seq<string>>,
                                  games': map<Date, GameItem>, guesses': map<(User, Date), seq<string>>,
                                  user: User, date: Date, guess: string, word: string, guessReadFails: bool,
                                  scanFails: bool, r: Response)
    requires date in games && forall k :: k in guesses ==> WellFormedGuesses(guesses[k])
    requires |guess| == 5 && |word| == 5
    requires Played(games, guesses, games', guesses', user, date, guess, word, guessReadFails, scanFails, r) && r.Won?
    ensures forall i, k :: 0 <= i < |r.diffs| && 0 <= k < |r.diffs[i]| ==> r.diffs[i][k].Emoji? || r.diffs[i][k].Joiner?
  {
    var list := SeenGuesses(guesses, user, date, guessReadFails) + [guess];
    assert r.diffs == Diffs(list, word, false);
    forall i | 0 <= i < |r.diffs|
      ensures forall k :: 0 <= k < |r.diffs[i]| ==> r.diffs[i][k].Emoji? || r.diffs[i][k].Joiner?
    {
      HiddenPayload(list[i], word);
    }
  }

  /**
   * A wrong guess is answered with the word exactly when it is the player's
   * third, and the winner of a day is among the players the win lists.
   */
  lemma AnswerRevealedOnThirdWrongGuess(games: map<Date, GameItem>, guesses: map<(User, Date), seq<string>>,
                                        games': map<Date, GameItem>, guesses': map<(User, Date), seq<string>>,
                                        user: User, date: Date, guess: string, word: string, guessReadFails: bool,
                                        scanFails: bool, r: Response)
    requires date in games && forall k :: k in guesses ==> WellFormedGuesses(guesses[k])
    requires |guess| == 5 && |word| == 5
    requires Played(games, guesses, games', guesses', user, date, guess, word, guessReadFails, scanFails, r)
    ensures r.Guesses? ==> (user, date) in guesses' && guess != word
    ensures r.Guesses? ==> (r.revealed.Some? <==> |guesses'[(user, date)]| == 3)
    ensures r.Guesses? && r.revealed.Some? ==> r.revealed.value == word
    ensures r.Won? && !scanFails ==> r.winner in r.players
  {
  }

  /**
   * The duplicate check ignores case: on a day without a winner, a text with
   * fewer than three guesses seen is refused as already submitted exactly
   * when a seen guess equals it ignoring case, since every stored guess is
   * upper-cased.
   */
  lemma DuplicateIgnoresCase(games: map<Date, GameItem>, guesses: map<(User, Date), seq<string>>,
                             games': map<Date, GameItem>, guesses': map<(User, Date), seq<string>>,
                             user: User, date: Date, text: string, word: string, guessReadFails: bool,
                             scanFails: bool, r: Response)
    requires date in games && forall k :: k in guesses ==> WellFormedGuesses(guesses[k])
    requires |text| == 5 && |word| == 5
    requires Played(games, guesses, games', guesses', user, date, Upper(text), word, guessReadFails, scanFails, r)
    requires ActiveWinner(games, date).None? && |SeenGuesses(guesses, user, date, guessReadFails)| < 3
    ensures r == AlreadySubmitted <==>
              exists s :: s in SeenGuesses(guesses, user, date, guessReadFails) && Lower(s) == Lower(text)
  {
    var seen := SeenGuesses(guesses, user, date, guessReadFails);
    if exists s :: s in seen && Lower(s) == Lower(text) {
      var s :| s in seen && Lower(s) == Lower(text);
      SameGuessIffSameIgnoringCase(s, text);
      assert Upper(text) in seen;
    }
    if r == AlreadySubmitted {
      LowerOfUpperIsLower(text);
      assert Upper(text) in seen && Lower(Upper(text)) == Lower(text);
    }
  }

  /**
   * The comparison with the word ignores case: once a new guess is recorded
   * on a day without a winner, it claims the win exactly when the text equals
   * the upper-cased word ignoring case; otherwise the guesses are shown.
   */
  lemma WinIgnoresCase(games: map<Date, GameItem>, guesses: map<(User, Date), seq<string>>,
                       games': map<Date, GameItem>, guesses': map<(User, Date), seq<string>>,
                       user: User, date: Date, text: string, word: string, guessReadFails: bool,
                       scanFails: bool, r: Response)
    requires date in games && forall k :: k in guesses ==> WellFormedGuesses(guesses[k])
    requires |text| == 5 && |word| == 5 && Upper(word) == word
    requires Played(games, guesses, games', guesses', user, date, Upper(text), word, guessReadFails, scanFails, r)
    requires var seen := SeenGuesses(guesses, user, date, guessReadFails);
      ActiveWinner(games, date).None? && |seen| < 3 && Upper(text) !in seen
    ensures r.Guesses? <==> Lower(text) != Lower(word)
    ensures !r.Guesses? ==> r.Won? || r.GameOver?
  {
    SameGuessIffSameIgnoringCase(text, word);
  }

  /**
   * A failed read of the player's record bypasses the limit: on a day
   * without a winner the record is replaced by the guess alone, whatever it
   * held, and the guess is never refused.
   */
  lemma FailedGuessReadResetsList(games: map<Date, GameItem>, guesses: map<(User, Date), seq<string>>,
                                  games': map<Date, GameItem>, guesses': map<(User, Date), seq<string>>,
                                  user: User, date: Date, guess: string, word: string, scanFails: bool,
                                  r: Response)
    requires date in games && forall k :: k in guesses ==> WellFormedGuesses(guesses[k])
    requires |guess| == 5 && |word| == 5
    requires Played(games, guesses, games', guesses', user, date, guess, word, true, scanFails, r)
    requires ActiveWinner(games, date).None?
    ensures (user, date) in guesses' && guesses'[(user, date)] == [guess]
    ensures r != OutOfGuesses && r != AlreadySubmitted
  {
  }

  /**
   * A failed read of the day's game reopens a day already won: the game
   * created in its place has a new word and no winner, so the right guess for
   * that word is answered as a win and its player replaces the stored winner.
   */
  lemma FailedReadReopensWonDay(games: map<Date, GameItem>, guesses: map<(User, Date), seq<string>>,
                                games': map<Date, GameItem>, guesses': map<(User, Date), seq<string>>,
                                user: User, date: Date, guess: string, poolWord: string, guessReadFails: bool,
                                scanFails: bool, r: Response)
    requires forall k :: k in guesses ==> WellFormedGuesses(guesses[k])
    requires |guess| == 5 && |Upper(poolWord)| == 5
    requires date in games && games[date].winner.Some? && games[date].winner != Some(user)
    requires Played(GamesWithGame(games, date, poolWord, true), guesses, games', guesses',
                    user, date, guess, Upper(poolWord), guessReadFails, scanFails, r)
    requires var seen := SeenGuesses(guesses, user, date, guessReadFails); |seen| < 3 && guess !in seen
    requires guess == Upper(poolWord)
    ensures r.Won? && r.winner == user
    ensures date in games' && games'[date] == GameItem(Some(guess), Some(user)) != games[date]
  {
  }

  /**
   * handle_request, for one guess `text` of `user` on `date`. `poolWord` is
   * the word drawn from the pool should the day have no game yet;
   * `gameReadFails`, `createFails`, `guessReadFails` and `scanFails` say
   * whether the store fails the read of the day's game, rejects the creation
   * of a game, fails the read of the player's record, and fails the scan for
   * players.
   */
  method HandleRequest(db: Tables, user: User, date: Date, text: string, poolWord: string,
                       gameReadFails: bool, createFails: bool, guessReadFails: bool, scanFails: bool)
      returns (r: Response)
    requires db.Valid() && |poolWord| == 5
    modifies db
    ensures db.Valid()
    // when the day's game can be read, its word never changes, and neither does a stored winner
    ensures !gameReadFails ==> KeepsGames(old(db.games), db.games)
    // whatever happens, every other day's game is kept
    ensures forall d :: d != date && d in old(db.games) ==> d in db.games && db.games[d] == old(db.games)[d]
    // only the list of this player for this day can change
    ensures OthersKept(old(db.guesses), db.guesses, (user, date))
    // and, when the player's record can be read, only by growing
    ensures !guessReadFails ==> OnlyGrows(old(db.guesses), db.guesses, (user, date))
    // 1. a guess that is not five characters long changes nothing
    ensures |text| != 5 ==>
              r == InvalidGuess && db.games == old(db.games) && db.guesses == old(db.guesses)
    // 2. a day whose game is not read gets a new one, unless the store rejects it
    ensures |text| == 5 && CreatesGame(old(db.games), date, gameReadFails) && createFails ==>
              r == NoGameToday && db.games == old(db.games) && db.guesses == old(db.guesses)
    // 3. to 8. then the guess is played against the day's word, on a read failure against a new game
    ensures |text| == 5 && !(CreatesGame(old(db.games), date, gameReadFails) && createFails) ==>
              |Upper(text)| == 5 && |Upper(poolWord)| == 5
              && Played(GamesWithGame(old(db.games), date, poolWord, gameReadFails), old(db.guesses), db.games, db.guesses,
                        user, date, Upper(text), WordFor(old(db.games), date, poolWord, gameReadFails),
                        guessReadFails, scanFails, r)
  {
    UpperKeepsLength(text);
    UpperKeepsLength(poolWord);
    UpperIdempotent(text);
    UpperIdempotent(poolWord);
    if text == [] || |text| != 5 {
      return InvalidGuess;
    }
    var guess := Upper(text);
    var word: string;
    var game := db.GetGame(date, gameReadFails);
    if game.Some? {
      word := game.value.0;
    } else {
      word := Upper(poolWord);
      var created := db.CreateGame(date, word, createFails);
      if !created {
        return NoGameToday;
      }
    }
    ghost var gamesBefore := db.games;
    r := PlayGuess(db, user, date, guess, word, guessReadFails, scanFails);
    if !gameReadFails {
      KeepsGamesTransitive(old(db.games), gamesBefore, db.games);
    }
  }
}
