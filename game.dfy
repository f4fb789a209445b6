/**
 * The letter-feedback engine: how each letter of a guess is classified
 * against the day's word, and how that classification is rendered as a row
 * of emoji and, optionally, a row of letters.
 */
module Game {
  import opened Text

  /** Feedback for one letter of a guess. */
  datatype Status = Match | Partial | Absent

  /** One entry of a diff: a letter of the guess and its feedback. */
  type Entry = (char, Status)

  /** How many times `c` occurs in `s`. */
  function Occurrences(s: string, c: char): nat
  {
    multiset(s)[c]
  }

  /**
   * The letters the counter is built from: the first |guess| letters of the
   * word, since the table is filled for positions 0 .. len(guess) - 1 only.
   */
  function Pool(guess: string, word: string): string
    requires |guess| <= |word|
  {
    word[..|guess|]
  }

  /**
   * Feedback for position i, stated without the counter: an occurrence of a
   * letter is reported (as a match or a partial) exactly when the guess
   * holds fewer earlier occurrences of the same letter than the pool does
   * (by `ReportedPrefix`, those earlier occurrences are then all reported);
   * a reported letter is a match when it sits at its own position in the word.
   */
  function StatusAt(guess: string, word: string, i: nat): Status
    requires |guess| <= |word| && i < |guess|
  {
    var c := guess[i];
    if Occurrences(guess[..i], c) < Occurrences(Pool(guess, word), c) then
      (if c == word[i] then Match else Partial)
    else Absent
  }

  /** The diff of a guess against the word: one entry per letter of the guess, in order. */
  function Diff(guess: string, word: string): (d: seq<Entry>)
    requires |guess| <= |word|
    ensures |d| == |guess|
    ensures forall i :: 0 <= i < |d| ==> d[i].0 == guess[i]
  {
    seq(|guess|, i requires 0 <= i < |guess| => (guess[i], StatusAt(guess, word, i)))
  }

  /** The counter's value for `c`; a missing key reads as 0, as in a defaultdict. */
  function Tally(counts: map<char, int>, c: char): int
  {
    if c in counts then counts[c] else 0
  }

  /** What is left of the pool's count of `c` once the letters in `used` have drawn on it. */
  function Left(pool: string, used: string, c: char): nat
  {
    if Occurrences(used, c) < Occurrences(pool, c) then Occurrences(pool, c) - Occurrences(used, c) else 0
  }

  /**
   * The first loop of word_diff: count each letter among the first `n`
   * letters of the word.
   */
  method CountLetters(word: string, n: nat) returns (counts: map<char, int>)
    requires n <= |word|
    ensures forall c :: Tally(counts, c) == Occurrences(word[..n], c)
  {
    counts := map[];
    var idx := 0;
    while idx < n
      invariant 0 <= idx <= n
      invariant forall c :: Tally(counts, c) == Occurrences(word[..idx], c)
    {
      ghost var before := counts;
      counts := counts[word[idx] := Tally(counts, word[idx]) + 1];
      assert word[..idx + 1] == word[..idx] + [word[idx]];
      forall c ensures Tally(counts, c) == Occurrences(word[..idx + 1], c) {
        assert Tally(before, c) == Occurrences(word[..idx], c);
        assert multiset(word[..idx + 1]) == multiset(word[..idx]) + multiset{word[idx]};
      }
      idx := idx + 1;
    }
  }

  /**
   * word_diff: fill a letter counter from the word, then walk the guess once,
   * reporting a letter (match or partial) while its counter is non-zero and
   * decrementing the counter, and reporting it absent otherwise.
   */
  method WordDiff(guess: string, word: string) returns (diff: seq<Entry>)
    requires |guess| <= |word|
    ensures diff == Diff(guess, word)
  {
    var wordLength := |guess|;
    var counts := CountLetters(word, wordLength);
    ghost var pool := Pool(guess, word);
    ghost var spec := Diff(guess, word);
    diff := [];
    var idx := 0;
    while idx < wordLength
      invariant 0 <= idx <= wordLength
      invariant diff == spec[..idx]
      // the counter never goes negative: it holds what is left of the pool
      invariant forall c :: Tally(counts, c) == Left(pool, guess[..idx], c)
    {
      var guessChar := guess[idx];
      var targetChar := word[idx];
      DiffStep(guess, word, idx);
      DrawOne(pool, guess[..idx], guessChar);
      if Tally(counts, guessChar) != 0 {
        var status := if guessChar == targetChar then Match else Partial;
        counts := counts[guessChar := Tally(counts, guessChar) - 1];
        diff := diff + [(guessChar, status)];
      } else {
        diff := diff + [(guessChar, Absent)];
      }
      idx := idx + 1;
    }
  }

  /** The diff of the first idx + 1 letters extends that of the first idx letters by one entry. */
  lemma DiffStep(guess: string, word: string, idx: nat)
    requires |guess| <= |word| && idx < |guess|
    ensures guess[..idx + 1] == guess[..idx] + [guess[idx]]
    ensures Diff(guess, word)[..idx + 1] == Diff(guess, word)[..idx] + [(guess[idx], StatusAt(guess, word, idx))]
  {
  }

  /** Drawing one more `c` lowers what is left of `c` by one, if any is left, and of no other letter. */
  lemma DrawOne(pool: string, used: string, c: char)
    ensures Left(pool, used + [c], c) == if Left(pool, used, c) > 0 then Left(pool, used, c) - 1 else 0
    ensures forall d :: d != c ==> Left(pool, used + [c], d) == Left(pool, used, d)
    ensures Left(pool, used, c) > 0 <==> Occurrences(used, c) < Occurrences(pool, c)
  {
    assert multiset(used + [c]) == multiset(used) + multiset{c};
  }

  /** The smaller of two counts. */
  function Min(a: nat, b: nat): nat
  {
    if a < b then a else b
  }

  /** How many entries of `d` report the letter `c` as present (a match or a partial). */
  function Reported(d: seq<Entry>, c: char): nat
  {
    if d == [] then 0
    else Reported(d[..|d| - 1], c) + (if d[|d| - 1].0 == c && d[|d| - 1].1 != Absent then 1 else 0)
  }

  /** A match is only ever reported where the guess and the word agree; every other reported letter is a partial. */
  lemma MatchOnlyInPlace(guess: string, word: string, i: nat)
    requires |guess| <= |word| && i < |guess|
    ensures Diff(guess, word)[i].1 == Match <==> Diff(guess, word)[i].1 != Absent && guess[i] == word[i]
    ensures Diff(guess, word)[i].1 == Partial <==> Diff(guess, word)[i].1 != Absent && guess[i] != word[i]
  {
  }

  /**
   * The counting law of the diff: for every letter, the number of entries
   * that report it is the smaller of its count in the guess and its count in
   * the pool of the word.
   */
  lemma {:induction false} ReportedIsMin(guess: string, word: string, c: char)
    requires |guess| <= |word|
    ensures Reported(Diff(guess, word), c) == Min(Occurrences(guess, c), Occurrences(Pool(guess, word), c))
  {
    ReportedPrefix(guess, word, c, |guess|);
    assert Diff(guess, word)[..|guess|] == Diff(guess, word);
    assert guess[..|guess|] == guess;
  }

  lemma {:induction false} ReportedPrefix(guess: string, word: string, c: char, n: nat)
    requires |guess| <= |word| && n <= |guess|
    ensures Reported(Diff(guess, word)[..n], c) == Min(Occurrences(guess[..n], c), Occurrences(Pool(guess, word), c))
  {
    var d := Diff(guess, word);
    if n == 0 {
      assert d[..0] == [];
      assert guess[..0] == [];
    } else {
      ReportedPrefix(guess, word, c, n - 1);
      assert d[..n][..n - 1] == d[..n - 1];
      assert Reported(d[..n], c) == Reported(d[..n - 1], c) + (if d[n - 1].0 == c && d[n - 1].1 != Absent then 1 else 0);
      assert guess[..n] == guess[..n - 1] + [guess[n - 1]];
      assert multiset(guess[..n]) == multiset(guess[..n - 1]) + multiset{guess[n - 1]};
    }
  }

  /** Occurrences of a letter before position j include every occurrence before i, plus the one at i. */
  lemma {:induction false} OccurrencesGrow(s: string, i: nat, j: nat)
    requires i < j <= |s|
    ensures Occurrences(s[..j], s[i]) >= Occurrences(s[..i], s[i]) + 1
  {
    assert s[..j] == s[..i] + [s[i]] + s[i + 1..j];
    assert multiset(s[..j]) == multiset(s[..i]) + multiset{s[i]} + multiset(s[i + 1..j]);
  }

  /**
   * The letters reported are the leftmost occurrences: once an occurrence of
   * a letter is absent, every later occurrence of it is absent too.
   */
  lemma LeftmostReported(guess: string, word: string, i: nat, j: nat)
    requires |guess| <= |word| && i < j < |guess| && guess[i] == guess[j]
    requires Diff(guess, word)[i].1 == Absent
    ensures Diff(guess, word)[j].1 == Absent
  {
    OccurrencesGrow(guess, i, j);
  }

  /** A letter that does not occur in the word is always absent. */
  lemma AbsentOutsideWord(guess: string, word: string, i: nat)
    requires |guess| <= |word| && i < |guess| && guess[i] !in word
    ensures Diff(guess, word)[i].1 == Absent
  {
    assert guess[i] !in Pool(guess, word);
  }

  /** Guessing the word itself gives a match at every position. */
  lemma SelfDiffAllMatch(word: string, i: nat)
    requires i < |word|
    ensures Diff(word, word)[i] == (word[i], Match)
  {
    assert Pool(word, word) == word;
    OccurrencesGrow(word, i, |word|);
    assert word[..|word|] == word;
  }

  /**
   * The diff is single-pass: a partial earlier in the guess can use up a
   * letter, so a later occurrence of it in its own position is reported
   * absent. Guessing LLAMA against ALARM reports the L at index 1 absent
   * although the word has an L there.
   */
  lemma SinglePassLlamaAlarm()
    ensures "LLAMA"[1] == "ALARM"[1]
    ensures Diff("LLAMA", "ALARM") == [('L', Partial), ('L', Absent), ('A', Match), ('M', Partial), ('A', Partial)]
  {
    var g, w := "LLAMA", "ALARM";
    LlamaAlarmCounts();
    var d := Diff(g, w);
    assert d[0] == ('L', Partial);
    assert d[1] == ('L', Absent);
    assert d[2] == ('A', Match);
    assert d[3] == ('M', Partial);
    assert d[4] == ('A', Partial);
  }

  /** The letter counts that decide the diff of LLAMA against ALARM. */
  lemma LlamaAlarmCounts()
    ensures Pool("LLAMA", "ALARM") == "ALARM"
    ensures Occurrences("ALARM", 'L') == 1 && Occurrences("ALARM", 'A') == 2 && Occurrences("ALARM", 'M') == 1
    ensures Occurrences("LLAMA"[..0], 'L') == 0 && Occurrences("LLAMA"[..1], 'L') == 1
    ensures Occurrences("LLAMA"[..2], 'A') == 0 && Occurrences("LLAMA"[..3], 'M') == 0
    ensures Occurrences("LLAMA"[..4], 'A') == 1
  {
    var g, w := "LLAMA", "ALARM";
    assert w == [w[0]] + [w[1]] + [w[2]] + [w[3]] + [w[4]];
    assert g[..4] == [g[0]] + [g[1]] + [g[2]] + [g[3]];
    assert g[..2] == [g[0]] + [g[1]];
    assert g[..3] == [g[0]] + [g[1]] + [g[2]];
  }

  /** The three emoji of the feedback row. */
  datatype Color = Green | Orange | White

  /**
   * The pieces of a rendered diff: an emoji, a piece of text, the invisible
   * joiner between the pieces of one row, and the " - " between the rows.
   */
  datatype Token = Emoji(color: Color) | Glyph(text: string) | Joiner | Separator

  /**
   * status_text: one letter rendered either as an emoji, which hides the
   * letter, or as text.
   */
  function StatusText(c: char, status: Status, withEmoji: bool): (t: Token)
    ensures t.Emoji? <==> withEmoji
    ensures !withEmoji ==> t.Glyph?
  {
    match status
    case Match => if withEmoji then Emoji(Green) else Glyph(['*', c, '*'])
    case Partial => if withEmoji then Emoji(Orange) else Glyph([c])
    case Absent => if withEmoji then Emoji(White) else Glyph([LowerChar(c)])
  }

  /** One row of the rendering: each entry rendered, joined by the joiner. */
  function Row(d: seq<Entry>, withEmoji: bool): (r: seq<Token>)
    ensures |r| == if d == [] then 0 else 2 * |d| - 1
  {
    if d == [] then []
    else if |d| == 1 then [StatusText(d[0].0, d[0].1, withEmoji)]
    else [StatusText(d[0].0, d[0].1, withEmoji), Joiner] + Row(d[1..], withEmoji)
  }

  /**
   * slack_diff_payload: the emoji row, followed, when the guess is revealed,
   * by " - " and the letter row.
   */
  function SlackDiffPayload(guess: string, word: string, revealGuess: bool): (p: seq<Token>)
    requires |guess| <= |word|
    ensures !revealGuess ==> |p| == if guess == [] then 0 else 2 * |guess| - 1
    ensures revealGuess ==> |p| == if guess == [] then 1 else 4 * |guess| - 1
  {
    var d := Diff(guess, word);
    if revealGuess then Row(d, true) + [Separator] + Row(d, false) else Row(d, true)
  }

  /** The colour that stands for a status in the emoji row. */
  function ColorOf(status: Status): Color
  {
    match status
    case Match => Green
    case Partial => Orange
    case Absent => White
  }

  /**
   * A row holds the rendered entries at even positions, in order, with a
   * joiner between each two of them and nothing else.
   */
  lemma {:induction false} RowShape(d: seq<Entry>, withEmoji: bool)
    ensures |Row(d, withEmoji)| == if d == [] then 0 else 2 * |d| - 1
    ensures forall i :: 0 <= i < |d| ==> Row(d, withEmoji)[2 * i] == StatusText(d[i].0, d[i].1, withEmoji)
    ensures forall i :: 0 <= i < |d| - 1 ==> Row(d, withEmoji)[2 * i + 1] == Joiner
  {
    if |d| > 1 {
      RowShape(d[1..], withEmoji);
      var r := Row(d, withEmoji);
      var rest := Row(d[1..], withEmoji);
      assert r == [StatusText(d[0].0, d[0].1, withEmoji), Joiner] + rest;
      forall i | 1 <= i < |d|
        ensures r[2 * i] == StatusText(d[i].0, d[i].1, withEmoji)
      {
        assert r[2 * i] == rest[2 * (i - 1)];
      }
      forall i | 1 <= i < |d| - 1
        ensures r[2 * i + 1] == Joiner
      {
        assert r[2 * i + 1] == rest[2 * (i - 1) + 1];
      }
    }
  }

  /**
   * Without revealing the guess the payload is the emoji row alone: one
   * emoji per letter, green for a match, orange for a partial and white for
   * an absent letter, and no text at all.
   */
  lemma HiddenPayload(guess: string, word: string)
    requires |guess| <= |word|
    ensures var p := SlackDiffPayload(guess, word, false);
      && |p| == (if guess == [] then 0 else 2 * |guess| - 1)
      && (forall i :: 0 <= i < |guess| ==> p[2 * i] == Emoji(ColorOf(Diff(guess, word)[i].1)))
      && (forall i :: 0 <= i < |guess| - 1 ==> p[2 * i + 1] == Joiner)
      && (forall k :: 0 <= k < |p| ==> p[k].Emoji? || p[k].Joiner?)
  {
    var d := Diff(guess, word);
    var p := Row(d, true);
    RowShape(d, true);
    forall k | 0 <= k < |p|
      ensures p[k].Emoji? || p[k].Joiner?
    {
      if k % 2 == 0 {
        assert p[2 * (k / 2)] == StatusText(d[k / 2].0, d[k / 2].1, true);
      } else {
        assert p[2 * (k / 2) + 1] == Joiner;
      }
    }
  }

  /**
   * Revealing the guess appends " - " and the letter row: a match shows its
   * letter between asterisks, a partial shows the letter, and an absent
   * letter shows in lower case. An empty guess has two empty rows, so its
   * payload is the separator alone.
   */
  lemma RevealedPayload(guess: string, word: string)
    requires |guess| <= |word|
    ensures guess == [] ==> SlackDiffPayload(guess, word, true) == [Separator]
    ensures guess != [] ==>
      var p := SlackDiffPayload(guess, word, true);
      var d := Diff(guess, word);
      && |p| == 4 * |guess| - 1
      && p[..2 * |guess| - 1] == SlackDiffPayload(guess, word, false)
      && p[2 * |guess| - 1] == Separator
      && (forall i :: 0 <= i < |guess| ==>
            p[2 * |guess| + 2 * i] == (
              match d[i].1
              case Match => Glyph(['*', guess[i], '*'])
              case Partial => Glyph([guess[i]])
              case Absent => Glyph([LowerChar(guess[i])])))
      && (forall i :: 0 <= i < |guess| - 1 ==> p[2 * |guess| + 2 * i + 1] == Joiner)
  {
    var d := Diff(guess, word);
    RowShape(d, true);
    RowShape(d, false);
    if guess == [] {
      return;
    }
    var p := SlackDiffPayload(guess, word, true);
    assert p == Row(d, true) + [Separator] + Row(d, false);
    forall i | 0 <= i < |guess|
      ensures p[2 * |guess| + 2 * i] == StatusText(guess[i], d[i].1, false)
    {
      assert p[2 * |guess| + 2 * i] == Row(d, false)[2 * i];
    }
    forall i | 0 <= i < |guess| - 1
      ensures p[2 * |guess| + 2 * i + 1] == Joiner
    {
      assert p[2 * |guess| + 2 * i + 1] == Row(d, false)[2 * i + 1];
    }
  }

  /**
   * The emoji row depends on the statuses alone: two guesses whose letters
   * get the same statuses render the same hidden payload, so it shows
   * nothing of the letters guessed.
   */
  lemma {:induction false} EmojiRowShowsOnlyStatuses(d1: seq<Entry>, d2: seq<Entry>)
    requires |d1| == |d2|
    requires forall i :: 0 <= i < |d1| ==> d1[i].1 == d2[i].1
    ensures Row(d1, true) == Row(d2, true)
  {
    if |d1| > 1 {
      EmojiRowShowsOnlyStatuses(d1[1..], d2[1..]);
    }
  }
}
