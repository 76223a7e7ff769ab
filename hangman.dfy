/**
  Hangman: the guess state machine run on every character message, the reset
  that starts a new game, the clipped copy of an artwork image into the
  640 x 480 window buffer and the choice of artwork by lives left.  The word
  to guess is drawn at random by the program; here it is a parameter.
*/
module Hangman {
  import opened Raster
  import opened CStrings
  import opened Options

  const WINDOW_DIMENSIONS_X: nat := 640
  const WINDOW_DIMENSIONS_Y: nat := 480

  /** One artwork frame per life: `ARRAY_COUNT(g_hangman_art)`. */
  const MAX_LIVES: nat := 10

  /** The size of `g_guessed_word` and of `g_guessed_letters`. */
  const BUFFER_SIZE: nat := 4096

  /** Characters codes a guess may have (`w_param < 128`). */
  const LETTER_CODES: nat := 128

  const PROMPT: string := "type a letter to\nguess"

  /** `memset(g_window_pixels, 255, ..)` sets every byte of every pixel. */
  const WHITE_FILL: Pixel := Pixel(255, 255, 255, 255)

  datatype GameState = Playing | Won | Lost

  // ---------------------------------------------------------------------------
  // Guessed letters

  /** The word as shown: guessed letters in place, the others as '_'. */
  function Masked(word: string, guessed: seq<char>): string {
    seq(|word|, i requires 0 <= i < |word| => if word[i] in guessed then word[i] else '_')
  }

  predicate AllGuessed(word: string, guessed: seq<char>) {
    forall i | 0 <= i < |word| :: word[i] in guessed
  }

  /** The guesses that are not letters of the word. */
  function WrongGuesses(word: string, guessed: seq<char>): (n: nat)
    ensures n <= |guessed|
  {
    if guessed == [] then 0
    else WrongGuesses(word, guessed[..|guessed| - 1]) + (if guessed[|guessed| - 1] in word then 0 else 1)
  }

  lemma WrongGuessesAppend(word: string, guessed: seq<char>, c: char)
    ensures WrongGuesses(word, guessed + [c]) == WrongGuesses(word, guessed) + (if c in word then 0 else 1)
  {
    assert (guessed + [c])[..|guessed|] == guessed;
  }

  predicate Distinct(s: seq<char>) {
    forall i, j | 0 <= i < j < |s| :: s[i] != s[j]
  }

  predicate CodesBelow(s: seq<char>, n: nat) {
    forall i | 0 <= i < |s| :: s[i] as int < n
  }

  function Elements(s: seq<char>): set<char> { set c | c in s }

  lemma {:induction false} DistinctElements(s: seq<char>)
    requires Distinct(s)
    ensures |Elements(s)| == |s|
  {
    if s != [] {
      var init := s[..|s| - 1];
      assert Distinct(init);
      DistinctElements(init);
      assert Elements(s) == Elements(init) + {s[|s| - 1]};
      assert s[|s| - 1] !in Elements(init);
    }
  }

  lemma {:induction false} SmallCodes(e: set<char>, n: nat)
    requires n <= LETTER_CODES
    requires forall c | c in e :: c as int < n
    ensures |e| <= n
  {
    if n > 0 {
      var top := (n - 1) as char;
      var rest := e - {top};
      SmallCodes(rest, n - 1);
      assert e <= rest + {top};
      assert |e| <= |rest + {top}| <= |rest| + 1;
    }
  }

  /** Duplicate-free guesses with codes below 128 number at most 128, so the
      4096-character array is never full. */
  lemma GuessesBounded(s: seq<char>)
    requires Distinct(s) && CodesBelow(s, LETTER_CODES)
    ensures |s| <= LETTER_CODES
  {
    DistinctElements(s);
    SmallCodes(Elements(s), LETTER_CODES);
  }

  // ---------------------------------------------------------------------------
  // Images

  datatype Image = Image(width: nat, height: nat, pixels: seq<Pixel>)

  /** The pixel data that follows the header holds width * height pixels,
      row after row. */
  predicate ValidImage(img: Image) { |img.pixels| == img.width * img.height }

  predicate InImage(img: Image, i: int, j: int) {
    0 <= i < img.width && 0 <= j < img.height
  }

  lemma PixelIndex(i: int, j: int, width: nat, height: nat)
    requires 0 <= i < width && 0 <= j < height
    ensures 0 <= i + j * width < width * height
  {
    assert (height - 1 - j) * width >= 0;
    assert (j + 1) * width + (height - 1 - j) * width == height * width;
  }

  /** Pixel (i, j) of an image: `pixels[i + j * width]`. */
  function ImagePixel(img: Image, i: int, j: int): Pixel
    requires ValidImage(img) && InImage(img, i, j)
  {
    PixelIndex(i, j, img.width, img.height);
    img.pixels[i + j * img.width]
  }

  /** `DrawImage(image, x, y)`: every window pixel (x + i, y + j) with (i, j)
      in the image takes image pixel (i, j); the rest of the window, and the
      part of the image outside it, are untouched. */
  method DrawImage(window: array2<Pixel>, img: Image, x: int, y: int)
    requires ValidImage(img)
    requires window.Length0 == WINDOW_DIMENSIONS_X && window.Length1 == WINDOW_DIMENSIONS_Y
    modifies window
    ensures forall px, py | InWindow(window, px, py) ::
      window[px, py] == if InImage(img, px - x, py - y) then ImagePixel(img, px - x, py - y) else old(window[px, py])
  {
    var i := 0;
    while i < img.width
      invariant 0 <= i <= img.width
      invariant forall px, py | InWindow(window, px, py) ::
        window[px, py] ==
          if InImage(img, px - x, py - y) && px - x < i then ImagePixel(img, px - x, py - y) else old(window[px, py])
    {
      var j := 0;
      while j < img.height
        invariant 0 <= j <= img.height
        invariant forall px, py | InWindow(window, px, py) ::
          window[px, py] ==
            if InImage(img, px - x, py - y) && (px - x < i || (px - x == i && py - y < j))
            then ImagePixel(img, px - x, py - y) else old(window[px, py])
      {
        var wx, wy := x + i, y + j;
        if 0 <= wx < WINDOW_DIMENSIONS_X && 0 <= wy < WINDOW_DIMENSIONS_Y {
          PixelIndex(i, j, img.width, img.height);
          window[wx, wy] := img.pixels[i + j * img.width];
        }
        j := j + 1;
      }
      i := i + 1;
    }
  }

  /** `memset(g_window_pixels, 255, ..)` as a pixel fill: every pixel of the
      window takes `colour`. */
  method FillWindow(window: array2<Pixel>, colour: Pixel)
    modifies window
    ensures forall px, py | InWindow(window, px, py) :: window[px, py] == colour
  {
    forall px, py | 0 <= px < window.Length0 && 0 <= py < window.Length1 {
      window[px, py] := colour;
    }
  }

  // ---------------------------------------------------------------------------
  // The game as a value

  /** What the character messages read and write: the state, the lives left,
      the chosen word (none before the first guess), the letters guessed in
      this game and the 4096-character display buffer `g_guessed_word`. */
  datatype Round = Round(state: GameState, lives: int, word: Option<string>,
                         guessed: seq<char>, display: seq<char>)

  /** The invariant of a round: the guesses are distinct codes below 128; no
      word is chosen exactly while nothing has been guessed; the display holds
      the masked word and its terminator; the game is won exactly when every
      letter of the word has been guessed and lost exactly when no life is
      left. */
  predicate Consistent(r: Round) {
    |r.display| == BUFFER_SIZE &&
    Distinct(r.guessed) && CodesBelow(r.guessed, LETTER_CODES) &&
    0 <= r.lives <= MAX_LIVES && (r.state == Lost <==> r.lives == 0) &&
    (r.word.None? <==> r.guessed == []) &&
    (r.word.None? ==> r.lives == MAX_LIVES && r.state == Playing) &&
    (r.word.Some? ==>
      var w := r.word.value;
      |w| < BUFFER_SIZE && NulFree(w) &&
      r.display[..|w|] == Masked(w, r.guessed) && r.display[|w|] == NUL &&
      (r.state == Won <==> AllGuessed(w, r.guessed)))
  }

  /** Every wrong guess of a round with a non-empty word has cost one life. */
  predicate LivesAccounted(r: Round) {
    r.word.Some? && r.word.value != [] ==> r.lives + WrongGuesses(r.word.value, r.guessed) == MAX_LIVES
  }

  /** `ResetGame` on a round: no word, no guesses, all lives, a game in play
      and the prompt copied over the display. */
  function Reset(r: Round): Round
    requires |r.display| == BUFFER_SIZE
  {
    Round(Playing, MAX_LIVES, None, [], StrNCopy(r.display, PROMPT, BUFFER_SIZE - 1))
  }

  /** The word of the round after a guess: `chosen` when none was chosen. */
  function WordAfter(r: Round, chosen: string): string {
    if r.word.None? then chosen else r.word.value
  }

  /** Lives after guessing `letter`: one fewer for a letter not in an
      unfinished word. */
  function LivesAfter(w: string, guessed: seq<char>, letter: char, lives: int): int {
    if AllGuessed(w, guessed) || letter in w then lives else lives - 1
  }

  /** The state after guessing `letter`: won once every letter is guessed,
      lost once the lives run out, in play otherwise. */
  function StateAfter(w: string, guessed: seq<char>, letter: char, lives: int): GameState {
    if AllGuessed(w, guessed) then Won
    else if LivesAfter(w, guessed, letter, lives) == 0 then Lost
    else Playing
  }

  /** A new letter guessed in a round in play: it joins the guesses, the word
      `chosen` becomes the word if there is none yet, the display shows the
      word masked by all guesses, and then the round is won if every letter
      is guessed; otherwise a letter not in the word costs a life and the
      last life loses. */
  function NextRound(r: Round, letter: char, chosen: string): Round
    requires |WordAfter(r, chosen)| < |r.display|
  {
    var guessed := r.guessed + [letter];
    var w := WordAfter(r, chosen);
    Round(StateAfter(w, guessed, letter, r.lives), LivesAfter(w, guessed, letter, r.lives), Some(w),
          guessed, Masked(w, guessed) + [NUL] + r.display[|w| + 1..])
  }

  /** Resetting gives a consistent round in play. */
  lemma ResetConsistent(r: Round)
    requires |r.display| == BUFFER_SIZE
    ensures Consistent(Reset(r)) && LivesAccounted(Reset(r))
    ensures Reset(r).state == Playing && Reset(r).lives == MAX_LIVES
  {
  }

  lemma NewGuessDistinct(guessed: seq<char>, letter: char)
    requires Distinct(guessed) && CodesBelow(guessed, LETTER_CODES)
    requires letter as int < LETTER_CODES && letter !in guessed
    ensures Distinct(guessed + [letter]) && CodesBelow(guessed + [letter], LETTER_CODES)
    ensures |guessed| < LETTER_CODES
  {
    GuessesBounded(guessed + [letter]);
  }

  /** The lives-and-state part of the invariant survives a new guess: `w` is
      the word after the guess and `hadWord` says whether it was chosen
      before it. */
  lemma OutcomeConsistent(w: string, hadWord: bool, guessed: seq<char>, letter: char, lives: int)
    requires !hadWord ==> guessed == [] && lives == MAX_LIVES
    requires hadWord ==> !AllGuessed(w, guessed)
    requires 0 < lives <= MAX_LIVES
    ensures var lives' := LivesAfter(w, guessed + [letter], letter, lives);
      var state' := StateAfter(w, guessed + [letter], letter, lives);
      0 <= lives' <= MAX_LIVES && (state' == Lost <==> lives' == 0) &&
      (state' == Won <==> AllGuessed(w, guessed + [letter])) &&
      (w != [] && AllGuessed(w, guessed + [letter]) ==> letter in w)
  {
    if w != [] && AllGuessed(w, guessed + [letter]) {
      if hadWord {
        var i :| 0 <= i < |w| && w[i] !in guessed;
        assert w[i] in guessed + [letter];
      } else {
        assert w[0] in guessed + [letter];
      }
    }
  }

  /** A new guess keeps a round consistent.  In particular the guesses stay
      at most 128, lives stay in [0, 10], the round is won exactly when the
      word is complete and lost exactly when the lives run out. */
  lemma NextRoundConsistent(r: Round, letter: char, chosen: string)
    requires Consistent(r) && r.state == Playing
    requires letter as int < LETTER_CODES && letter !in r.guessed
    requires |chosen| < BUFFER_SIZE && NulFree(chosen)
    ensures |r.guessed| < LETTER_CODES
    ensures Consistent(NextRound(r, letter, chosen))
  {
    var w := WordAfter(r, chosen);
    var guessed := r.guessed + [letter];
    var display := Masked(w, guessed) + [NUL] + r.display[|w| + 1..];
    NewGuessDistinct(r.guessed, letter);
    OutcomeConsistent(w, r.word.Some?, r.guessed, letter, r.lives);
    assert |display| == BUFFER_SIZE && display[..|w|] == Masked(w, guessed) && display[|w|] == NUL;
  }

  /** A new guess keeps the lives account: the lives left are 10 minus the
      wrong guesses. */
  lemma NextRoundAccountsLives(r: Round, letter: char, chosen: string)
    requires Consistent(r) && LivesAccounted(r) && r.state == Playing
    requires letter as int < LETTER_CODES && letter !in r.guessed
    requires |chosen| < BUFFER_SIZE && NulFree(chosen)
    ensures LivesAccounted(NextRound(r, letter, chosen))
  {
    var w := WordAfter(r, chosen);
    var guessed := r.guessed + [letter];
    WrongGuessesAppend(w, r.guessed, letter);
    OutcomeConsistent(w, r.word.Some?, r.guessed, letter, r.lives);
  }

  /** The first guess of a game whose word is empty wins it, whatever the
      letter: no letter of the word is left to hide. */
  lemma EmptyWordWinsAtOnce(r: Round, letter: char)
    requires Consistent(r) && r.word.None?
    ensures NextRound(r, letter, []).state == Won && NextRound(r, letter, []).lives == MAX_LIVES
  {
  }

  /** A game on the word "ab", from a round with no word yet (as a reset
      leaves it): guessing 'a' shows "a_", a wrong 'z' costs a life, and 'b'
      completes the word and wins with nine lives left. */
  lemma GameScenario(r0: Round)
    requires Consistent(r0) && r0.word.None?
    ensures var r1 := NextRound(r0, 'a', "ab");
      var r2 := NextRound(r1, 'z', "ab");
      var r3 := NextRound(r2, 'b', "ab");
      r1.display[..3] == "a_" + [NUL] && r1.state == Playing && r1.lives == MAX_LIVES &&
      r2.display[..3] == "a_" + [NUL] && r2.state == Playing && r2.lives == MAX_LIVES - 1 &&
      r3.display[..3] == "ab" + [NUL] && r3.state == Won && r3.lives == MAX_LIVES - 1
  {
    AbMasks();
    var r1 := NextRound(r0, 'a', "ab");
    StepOnAb(r0, 'a', ['a'], "a_");
    var r2 := NextRound(r1, 'z', "ab");
    StepOnAb(r1, 'z', ['a', 'z'], "a_");
    StepOnAb(r2, 'b', ['a', 'z', 'b'], "ab");
  }

  /** What the guesses of GameScenario show of "ab". */
  lemma AbMasks()
    ensures Masked("ab", ['a']) == "a_" && !AllGuessed("ab", ['a'])
    ensures Masked("ab", ['a', 'z']) == "a_" && !AllGuessed("ab", ['a', 'z'])
    ensures Masked("ab", ['a', 'z', 'b']) == "ab" && AllGuessed("ab", ['a', 'z', 'b'])
  {
    assert "ab"[1] !in ['a'] && "ab"[1] !in ['a', 'z'];
  }

  /** One guess of GameScenario. */
  lemma StepOnAb(r: Round, letter: char, guessed: seq<char>, shown: string)
    requires |r.display| == BUFFER_SIZE && (r.word.None? || r.word == Some("ab"))
    requires r.guessed + [letter] == guessed && Masked("ab", guessed) == shown
    ensures var n := NextRound(r, letter, "ab");
      n.word == Some("ab") && n.guessed == guessed && |n.display| == BUFFER_SIZE &&
      n.display[..3] == shown + [NUL] &&
      n.lives == LivesAfter("ab", guessed, letter, r.lives) &&
      n.state == StateAfter("ab", guessed, letter, r.lives)
  {
  }

  /** The lives of a consistent round index the artwork: they lie in
      [0, 10], and a round that is not lost has at least one. */
  lemma LivesInRange(r: Round)
    requires Consistent(r)
    ensures 0 <= r.lives <= MAX_LIVES
    ensures r.state != Lost ==> 0 < r.lives
  {
  }

  // ---------------------------------------------------------------------------
  // The game

  class Game {
    var state: GameState
    var livesLeft: int
    var word: Option<string>
    const guessedWord: array<char>
    const guessedLetters: array<char>
    var guessedLettersCount: nat
    const pixels: array2<Pixel>

    /** The letters guessed in this game, in order. */
    function Guessed(): seq<char>
      reads this, guessedLetters
      requires guessedLettersCount <= guessedLetters.Length
    {
      guessedLetters[..guessedLettersCount]
    }

    /** The globals as a round. */
    function Snapshot(): Round
      reads this, guessedWord, guessedLetters
      requires guessedLettersCount <= guessedLetters.Length
    {
      Round(state, livesLeft, word, Guessed(), guessedWord[..])
    }

    predicate Valid()
      reads this, guessedWord, guessedLetters
    {
      guessedWord.Length == BUFFER_SIZE && guessedLetters.Length == BUFFER_SIZE &&
      guessedWord != guessedLetters &&
      pixels.Length0 == WINDOW_DIMENSIONS_X && pixels.Length1 == WINDOW_DIMENSIONS_Y &&
      guessedLettersCount <= LETTER_CODES &&
      Consistent(Snapshot())
    }

    /** The zero-initialised globals: a game in play with all lives and no
        word. */
    constructor ()
      ensures Valid() && fresh(guessedWord) && fresh(guessedLetters) && fresh(pixels)
      ensures Snapshot() == Round(Playing, MAX_LIVES, None, [], seq(BUFFER_SIZE, _ => NUL))
      ensures guessedLetters[..] == seq(BUFFER_SIZE, _ => NUL)
    {
      state := Playing;
      livesLeft := MAX_LIVES;
      word := None;
      guessedWord := new char[BUFFER_SIZE](_ => NUL);
      guessedLetters := new char[BUFFER_SIZE](_ => NUL);
      guessedLettersCount := 0;
      pixels := new Pixel[WINDOW_DIMENSIONS_X, WINDOW_DIMENSIONS_Y]((_, _) => Pixel(0, 0, 0, 0));
    }

    /** `ResetGame`.  The guessed-letter array itself keeps its characters:
        only the count goes back to 0. */
    method ResetGame()
      requires Valid()
      modifies this, guessedWord
      ensures Valid()
      ensures Snapshot() == Reset(old(Snapshot()))
      ensures guessedLetters[..] == old(guessedLetters[..])
    {
      word := None;
      guessedLettersCount := 0;
      livesLeft := MAX_LIVES;
      StrNCopyInto(guessedWord, PROMPT, BUFFER_SIZE - 1);
      state := Playing;
      ResetConsistent(old(Snapshot()));
    }

    /** The search of the guessed letters for `letter`. */
    method HasGuessed(letter: char) returns (found: bool)
      requires guessedLettersCount <= guessedLetters.Length
      ensures found <==> letter in Guessed()
    {
      found := false;
      var k := 0;
      while k < guessedLettersCount
        invariant 0 <= k <= guessedLettersCount
        invariant letter !in guessedLetters[..k]
      {
        if guessedLetters[k] == letter {
          found := true;
          return;
        }
        assert guessedLetters[..k + 1] == guessedLetters[..k] + [guessedLetters[k]];
        k := k + 1;
      }
      assert guessedLetters[..k] == Guessed();
    }

    /** The `WM_CHAR` message with key `wParam` and repeat count
        `LOWORD(lParam)`; `chosen` is the word drawn if none is chosen yet.
        Outside a game in play any character resets the game.  In play, a
        key repeat, a code of 128 or more, or a letter guessed before changes
        nothing, and a new letter makes the next round. */
    method OnChar(wParam: bv64, lParam: bv64, chosen: string)
      requires Valid()
      requires |chosen| < BUFFER_SIZE && NulFree(chosen)
      modifies this, guessedWord, guessedLetters
      ensures Valid()
      ensures old(state) != Playing ==>
        Snapshot() == Reset(old(Snapshot())) && guessedLetters[..] == old(guessedLetters[..])
      ensures (old(state) == Playing &&
               ((lParam & 0xFFFF) as int > 1 || wParam as int >= LETTER_CODES ||
                (wParam as int) as char in old(Guessed()))) ==>
        Snapshot() == old(Snapshot()) && guessedLetters[..] == old(guessedLetters[..])
      ensures old(state) == Playing && (lParam & 0xFFFF) as int <= 1 && wParam as int < LETTER_CODES ==>
        var letter := (wParam as int) as char;
        letter !in old(Guessed()) ==>
        Snapshot() == NextRound(old(Snapshot()), letter, chosen) &&
        guessedLetters[..] == old(guessedLetters[..])[old(guessedLettersCount) := letter]
    {
      if state == Playing {
        var isRepeat := (lParam & 0xFFFF) as int > 1;
        if !isRepeat && wParam as int < LETTER_CODES {
          var letter := (wParam as int) as char;
          var isLetterGuessed := HasGuessed(letter);
          if !isLetterGuessed {
            Guess(letter, chosen);
          }
        }
      } else {
        ResetGame();
      }
    }

    /** The part of `WM_CHAR` that takes a new letter into a game in play. */
    method Guess(letter: char, chosen: string)
      requires Valid() && state == Playing
      requires letter as int < LETTER_CODES && letter !in Guessed()
      requires |chosen| < BUFFER_SIZE && NulFree(chosen)
      modifies this, guessedWord, guessedLetters
      ensures Valid()
      ensures Snapshot() == NextRound(old(Snapshot()), letter, chosen)
      ensures guessedLetters[..] == old(guessedLetters[..])[old(guessedLettersCount) := letter]
    {
      ghost var r := Snapshot();
      NextRoundConsistent(r, letter, chosen);
      guessedLetters[guessedLettersCount] := letter;
      guessedLettersCount := guessedLettersCount + 1;
      assert Guessed() == r.guessed + [letter];
      assert guessedWord[..] == r.display;
      if word == None {
        word := Some(chosen);
      }
      var w := word.value;
      var isWordGuessedCorrectly, isGuessedLetterInWord := ShowMasked(w, letter);
      if isWordGuessedCorrectly {
        state := Won;
      } else if !isGuessedLetterInWord {
        livesLeft := livesLeft - 1;
        if livesLeft == 0 {
          state := Lost;
        }
      }
      ghost var guessed := r.guessed + [letter];
      assert guessedWord[..] == Masked(w, guessed) + [NUL] + r.display[|w| + 1..];
      assert livesLeft == LivesAfter(w, guessed, letter, r.lives);
      assert state == StateAfter(w, guessed, letter, r.lives);
      assert Guessed() == guessed && word == Some(w) && w == WordAfter(r, chosen);
      assert NextRound(r, letter, chosen) ==
        Round(state, livesLeft, word, guessed, Masked(w, guessed) + [NUL] + r.display[|w| + 1..]);
    }

    /** The display part of a guess: the word is copied into the display
        buffer with its terminator and every letter not guessed yet becomes
        '_'.  Reports whether no letter had to be hidden and whether `letter`
        occurs in the word. */
    method ShowMasked(w: string, letter: char) returns (isWordGuessedCorrectly: bool, isGuessedLetterInWord: bool)
      requires guessedLettersCount <= guessedLetters.Length && guessedWord != guessedLetters
      requires |w| < guessedWord.Length
      modifies guessedWord
      ensures guessedWord[..] == Masked(w, Guessed()) + [NUL] + old(guessedWord[..])[|w| + 1..]
      ensures isWordGuessedCorrectly <==> AllGuessed(w, Guessed())
      ensures isGuessedLetterInWord <==> letter in w
    {
      ghost var guessed := Guessed();
      ghost var masked := Masked(w, guessed);
      var wordLen := |w|;
      forall k | 0 <= k < wordLen {
        guessedWord[k] := w[k];
      }
      guessedWord[wordLen] := NUL;
      isWordGuessedCorrectly := true;
      isGuessedLetterInWord := false;
      var charIndex := 0;
      while charIndex < wordLen
        invariant 0 <= charIndex <= wordLen
        invariant forall k | 0 <= k < charIndex :: guessedWord[k] == masked[k]
        invariant forall k | charIndex <= k < wordLen :: guessedWord[k] == w[k]
        invariant guessedWord[wordLen] == NUL
        invariant forall k | wordLen < k < guessedWord.Length :: guessedWord[k] == old(guessedWord[k])
        invariant isWordGuessedCorrectly <==> AllGuessed(w[..charIndex], guessed)
        invariant isGuessedLetterInWord <==> letter in w[..charIndex]
      {
        assert w[..charIndex + 1] == w[..charIndex] + [w[charIndex]];
        if w[charIndex] == letter {
          isGuessedLetterInWord := true;
        }
        var isLetterGuessed := HasGuessed(guessedWord[charIndex]);
        if !isLetterGuessed {
          isWordGuessedCorrectly := false;
          guessedWord[charIndex] := '_';
        }
        charIndex := charIndex + 1;
      }
      assert w[..wordLen] == w;
    }

    /** The artwork selection of `WM_PAINT`: with every life left the window
        is cleared to white, otherwise frame `livesLeft` of the artwork is
        drawn at the origin. */
    method PaintArt(art: seq<Image>)
      requires pixels.Length0 == WINDOW_DIMENSIONS_X && pixels.Length1 == WINDOW_DIMENSIONS_Y
      requires 0 <= livesLeft && |art| == MAX_LIVES
      requires forall k | 0 <= k < |art| :: ValidImage(art[k])
      modifies pixels
      ensures livesLeft >= MAX_LIVES ==>
        forall px, py | InWindow(pixels, px, py) :: pixels[px, py] == WHITE_FILL
      ensures livesLeft < MAX_LIVES ==>
        forall px, py | InWindow(pixels, px, py) ::
          pixels[px, py] == if InImage(art[livesLeft], px, py) then ImagePixel(art[livesLeft], px, py)
                            else old(pixels[px, py])
    {
      if livesLeft >= MAX_LIVES {
        FillWindow(pixels, WHITE_FILL);
      } else {
        DrawImage(pixels, art[livesLeft], 0, 0);
      }
    }
  }
}
