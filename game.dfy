/**
 * One round of the guessing game: a secret, an attempt budget, a difficulty
 * and a game-over flag (src/main.rs:50-69), and what submitting a guess does
 * to them (the `GameMessage::Guess` arm, src/main.rs:172-218).
 *
 * The pure layer is `Session` with `Start`, `Step` (a guess whose text has
 * already been read), `Transition` (a guess as typed) and `Play` (a run of
 * guesses). The class `GameState` holds the same fields and updates them in
 * place as the event loop does; `Guess` is specified by `Transition` and the
 * imperative arm `Submit` by `Step`.
 */
module Game {
  import opened Wrappers
  import opened UInt32
  import opened Text
  import opened Config

  datatype Session = Session(secret: u32, remaining: u32, difficulty: Difficulty, over: bool)

  /** What one press of the guess button reports. */
  datatype Outcome =
    | AlreadyOver                        // the game had ended; the press is ignored
    | InvalidInput                       // the text is not a u32; nothing is consumed
    | TooLow(guess: u32)
    | TooHigh(guess: u32)
    | Correct(guess: u32)
    | Exhausted(guess: u32, secret: u32) // a wrong guess used the last attempt

  /** The guess was read and used up an attempt. */
  predicate Consumes(o: Outcome) {
    o.TooLow? || o.TooHigh? || o.Correct? || o.Exhausted?
  }

  /** The guess ended the game. */
  predicate Ends(o: Outcome) {
    o.Correct? || o.Exhausted?
  }

  /** While the game runs there is an attempt left, so the decrement at src/main.rs:180 cannot underflow. */
  predicate AttemptLeft(s: Session) {
    s.over || s.remaining >= 1
  }

  /** What every session reachable from `Start` satisfies. */
  predicate Invariant(s: Session) {
    && AttemptLeft(s)
    && s.remaining <= Attempts(s.difficulty)
    && Contains(Range(s.difficulty), s.secret)
  }

  /**
   * `GameState::new`, with the random draw from `Range(d)` supplied by the
   * caller as `secret`: a fresh, running game with the full budget.
   */
  function Start(d: Difficulty, secret: u32): (s: Session)
    requires Contains(Range(d), secret)
    ensures Invariant(s) && !s.over
    ensures s.difficulty == d && s.secret == secret && s.remaining == Attempts(d)
  {
    Session(secret, Attempts(d), d, false)
  }

  /**
   * The part of a guess after the text has been read as `n` (src/main.rs:179-209):
   * one attempt is used; the game ends exactly when `n` is the secret or the
   * attempt was the last; a win beats running out, a loss reveals the secret,
   * and a guess that does not end the game says on which side the secret is.
   */
  function Judge(s: Session, n: u32): (r: (Session, Outcome))
    requires !s.over && s.remaining >= 1
    ensures r.0 == s.(remaining := s.remaining - 1, over := r.0.over)
    ensures r.0.over <==> n == s.secret || s.remaining == 1
    ensures n == s.secret ==> r.1 == Correct(n)
    ensures n != s.secret && s.remaining == 1 ==> r.1 == Exhausted(n, s.secret)
    ensures n < s.secret && s.remaining > 1 ==> r.1 == TooLow(n)
    ensures n > s.secret && s.remaining > 1 ==> r.1 == TooHigh(n)
  {
    var s1 := s.(remaining := s.remaining - 1);
    var (s2, o) :=
      if n < s.secret then (s1, TooLow(n))
      else if n > s.secret then (s1, TooHigh(n))
      else (s1.(over := true), Correct(n));
    if !s2.over && s2.remaining == 0 then (s2.(over := true), Exhausted(n, s2.secret))
    else (s2, o)
  }

  /**
   * A press of the guess button once the field's text has been read as
   * `read` (src/main.rs:173-217). A step never touches the secret or the
   * difficulty, never gives back an attempt, never reopens a finished game,
   * and keeps both the no-underflow condition and the full invariant.
   */
  function Step(s: Session, read: Option<u32>): (r: (Session, Outcome))
    requires AttemptLeft(s)
    ensures AttemptLeft(r.0)
    ensures r.0.secret == s.secret && r.0.difficulty == s.difficulty
    ensures r.0.remaining <= s.remaining
    ensures s.over ==> r.0.over
    ensures Invariant(s) ==> Invariant(r.0)
  {
    if s.over then
      (s, AlreadyOver)
    else
      match read
      case None => (s, InvalidInput)
      case Some(n) => Judge(s, n)
  }

  /** Submitting the text `input` of the guess field. */
  function Transition(s: Session, input: string): (Session, Outcome)
    requires AttemptLeft(s)
  {
    Step(s, ReadGuess(input))
  }

  // ---------------------------------------------------------------------
  // One guess
  // ---------------------------------------------------------------------

  /** After the game has ended a guess changes nothing and reports `AlreadyOver`. */
  lemma GuessAfterGameOver(s: Session, read: Option<u32>)
    requires s.over
    ensures Step(s, read) == (s, AlreadyOver)
  {
  }

  /** Text that is not a `u32` after trimming leaves the whole session as it was. */
  lemma UnreadableGuess(s: Session)
    requires AttemptLeft(s) && !s.over
    ensures Step(s, None) == (s, InvalidInput)
    ensures !Step(s, None).0.over
  {
  }

  /** A readable guess uses up exactly one attempt and is reported with its value. */
  lemma ReadableGuess(s: Session, n: u32)
    requires AttemptLeft(s) && !s.over
    ensures var (t, o) := Step(s, Some(n));
      && t.remaining == s.remaining - 1
      && t.secret == s.secret && t.difficulty == s.difficulty
      && Consumes(o) && o.guess == n
  {
  }

  /** Guessing the secret wins, even with the last attempt: winning beats running out. */
  lemma CorrectGuessWins(s: Session)
    requires AttemptLeft(s) && !s.over
    ensures var (t, o) := Step(s, Some(s.secret));
      t.over && o == Correct(s.secret) && t.remaining == s.remaining - 1
  {
  }

  /**
   * A wrong guess ends the game exactly when it used the last attempt, and
   * then reveals the secret; otherwise it says which side the secret is on.
   */
  lemma WrongGuess(s: Session, n: u32)
    requires AttemptLeft(s) && !s.over && n != s.secret
    ensures var (t, o) := Step(s, Some(n));
      && (t.over <==> s.remaining == 1)
      && (s.remaining == 1 ==> o == Exhausted(n, s.secret))
      && (s.remaining > 1 && n < s.secret ==> o == TooLow(n))
      && (s.remaining > 1 && n > s.secret ==> o == TooHigh(n))
  {
  }

  /** The game-over flag is set by a guess exactly when it was already set or the guess won or lost. */
  lemma GameOverExactlyOnEnd(s: Session, read: Option<u32>)
    requires AttemptLeft(s)
    ensures var (t, o) := Step(s, read);
      (t.over <==> s.over || Ends(o)) && (s.over ==> !Ends(o))
  {
  }

  /** A single guess takes one attempt if it was read and none otherwise. */
  lemma GuessAccounting(s: Session, read: Option<u32>)
    requires AttemptLeft(s)
    ensures var (t, o) := Step(s, read);
      t.remaining + (if Consumes(o) then 1 else 0) == s.remaining
  {
  }

  /** Blank text, a stray letter, a sign or a decimal point: the press is refused and nothing changes. */
  lemma MalformedGuessIgnored(s: Session, pre: string, t: string, post: string, k: nat)
    requires AttemptLeft(s) && !s.over
    requires AllWhitespace(pre) && AllWhitespace(post) && IsTrimmed(t)
    requires t == [] || (k < |t| && !IsDigit(t[k]) && !(k == 0 && t[k] == '+'))
    ensures Transition(s, pre + t + post) == (s, InvalidInput)
  {
    if t == [] {
      assert pre + t + post == pre + post;
      BlankRejected(pre + post);
    } else {
      StrayCharacterRejected(pre, t, post, k);
    }
  }

  /** A guess typed with padding is read as the number it spells. */
  lemma PaddedGuessIsJudged(s: Session, pre: string, n: u32, post: string)
    requires AttemptLeft(s) && !s.over
    requires AllWhitespace(pre) && AllWhitespace(post)
    ensures Transition(s, pre + ToDecimal(n) + post) == Judge(s, n)
  {
    ReadPaddedNumber(pre, n, post);
  }

  // ---------------------------------------------------------------------
  // A sequence of guesses
  // ---------------------------------------------------------------------

  /**
   * Pressing the guess button once for each entry of `guesses`, the field's
   * text as `ReadGuess` reads it: the final session and every report.
   */
  function Play(s: Session, guesses: seq<Option<u32>>): (r: (Session, seq<Outcome>))
    requires AttemptLeft(s)
    ensures AttemptLeft(r.0) && |r.1| == |guesses|
    decreases |guesses|
  {
    if guesses == [] then
      (s, [])
    else
      var (s1, o) := Step(s, guesses[0]);
      var (s2, os) := Play(s1, guesses[1..]);
      (s2, [o] + os)
  }

  /** The number of reports that used up an attempt. */
  function Consumed(os: seq<Outcome>): nat {
    if os == [] then 0 else (if Consumes(os[0]) then 1 else 0) + Consumed(os[1..])
  }

  /** The number of reports that ended the game. */
  function Endings(os: seq<Outcome>): nat {
    if os == [] then 0 else (if Ends(os[0]) then 1 else 0) + Endings(os[1..])
  }

  /** Any run of guesses keeps the invariant, the secret and the difficulty. */
  lemma {:induction false} PlayKeepsInvariant(s: Session, guesses: seq<Option<u32>>)
    requires Invariant(s)
    ensures Invariant(Play(s, guesses).0)
    ensures Play(s, guesses).0.secret == s.secret && Play(s, guesses).0.difficulty == s.difficulty
    decreases |guesses|
  {
    if guesses != [] {
      PlayKeepsInvariant(Step(s, guesses[0]).0, guesses[1..]);
    }
  }

  /** Every attempt that disappears was used by exactly one read guess. */
  lemma {:induction false} PlayAccounting(s: Session, guesses: seq<Option<u32>>)
    requires AttemptLeft(s)
    ensures Play(s, guesses).0.remaining + Consumed(Play(s, guesses).1) == s.remaining
    decreases |guesses|
  {
    if guesses != [] {
      var (s1, o) := Step(s, guesses[0]);
      var (t, os) := Play(s1, guesses[1..]);
      GuessAccounting(s, guesses[0]);
      PlayAccounting(s1, guesses[1..]);
      assert Play(s, guesses) == (t, [o] + os);
      assert ([o] + os)[1..] == os;
    }
  }

  /** A game ends at most once, and ends exactly when some guess won or lost it. */
  lemma {:induction false} PlayEndsAtMostOnce(s: Session, guesses: seq<Option<u32>>)
    requires AttemptLeft(s)
    ensures var (t, os) := Play(s, guesses);
      && Endings(os) <= 1
      && (s.over ==> Endings(os) == 0)
      && (t.over <==> s.over || Endings(os) == 1)
    decreases |guesses|
  {
    if guesses != [] {
      var (s1, o) := Step(s, guesses[0]);
      GameOverExactlyOnEnd(s, guesses[0]);
      PlayEndsAtMostOnce(s1, guesses[1..]);
      assert ([o] + Play(s1, guesses[1..]).1)[1..] == Play(s1, guesses[1..]).1;
    }
  }

  /** Once the game is over, no sequence of presses changes it; each reports `AlreadyOver`. */
  lemma {:induction false} PlayAfterGameOver(s: Session, guesses: seq<Option<u32>>)
    requires s.over
    ensures Play(s, guesses).0 == s
    ensures forall i :: 0 <= i < |guesses| ==> Play(s, guesses).1[i] == AlreadyOver
    decreases |guesses|
  {
    if guesses != [] {
      PlayAfterGameOver(s, guesses[1..]);
    }
  }

  /** A game started at difficulty `d` reads at most `Attempts(d)` guesses, whatever is typed. */
  lemma BudgetBoundsGuesses(d: Difficulty, secret: u32, guesses: seq<Option<u32>>)
    requires Contains(Range(d), secret)
    ensures Consumed(Play(Start(d, secret), guesses).1) <= Attempts(d)
  {
    PlayAccounting(Start(d, secret), guesses);
  }

  /**
   * With `remaining` wrong guesses in a row the game runs to the end: every
   * report but the last says too low or too high, and the last reveals the
   * secret.
   */
  lemma {:induction false} WrongGuessesExhaust(s: Session, guesses: seq<Option<u32>>)
    requires !s.over && |guesses| == s.remaining >= 1
    requires forall i :: 0 <= i < |guesses| ==>
               guesses[i].Some? && guesses[i].value != s.secret
    ensures var (t, os) := Play(s, guesses);
      && t.over && t.remaining == 0
      && os[|os| - 1] == Exhausted(guesses[|guesses| - 1].value, s.secret)
      && (forall i :: 0 <= i < |os| - 1 ==> os[i].TooLow? || os[i].TooHigh?)
    decreases |guesses|
  {
    var (s1, o) := Step(s, guesses[0]);
    var n := guesses[0].value;
    ReadableGuess(s, n);
    WrongGuess(s, n);
    var rest := guesses[1..];
    var (t, os) := Play(s1, rest);
    assert Play(s, guesses) == (t, [o] + os);
    if |guesses| > 1 {
      assert !s1.over && s1.remaining == |rest| && s1.secret == s.secret;
      assert forall i :: 0 <= i < |rest| ==> rest[i] == guesses[i + 1];
      WrongGuessesExhaust(s1, rest);
      assert o.TooLow? || o.TooHigh?;
      assert forall i :: 0 < i < |os| + 1 ==> ([o] + os)[i] == os[i - 1];
    } else {
      assert os == [] && t == s1;
    }
  }

  /** Pressing the button once more: one step, then the rest of the run. */
  lemma PlayCons(s: Session, g: Option<u32>, gs: seq<Option<u32>>)
    requires AttemptLeft(s)
    ensures var (s1, o) := Step(s, g);
      Play(s, [g] + gs) == (Play(s1, gs).0, [o] + Play(s1, gs).1)
  {
    assert ([g] + gs)[1..] == gs;
  }

  /**
   * Easy level with secret 42: 50 is too high (9 left), 10 too low (8 left),
   * 42 correct (7 left, game over).
   */
  lemma EasyScenario()
    ensures Play(Start(Easy, 42), [Some(50), Some(10), Some(42)])
         == (Session(42, 7, Easy, true), [TooHigh(50), TooLow(10), Correct(42)])
  {
    var s0 := Start(Easy, 42);
    var s1, s2, s3 := Session(42, 9, Easy, false), Session(42, 8, Easy, false), Session(42, 7, Easy, true);
    assert Step(s0, Some(50)) == (s1, TooHigh(50));
    assert Step(s1, Some(10)) == (s2, TooLow(10));
    assert Step(s2, Some(42)) == (s3, Correct(42));
    assert Play(s3, []) == (s3, []);
    PlayCons(s2, Some(42), []);
    assert [Some(42)] == [Some(42)] + [];
    assert [Correct(42)] + [] == [Correct(42)];
    assert Play(s2, [Some(42)]) == (s3, [Correct(42)]);
    PlayCons(s1, Some(10), [Some(42)]);
    assert [Some(10), Some(42)] == [Some(10)] + [Some(42)];
    assert [TooLow(10)] + [Correct(42)] == [TooLow(10), Correct(42)];
    assert Play(s1, [Some(10), Some(42)]) == (s3, [TooLow(10), Correct(42)]);
    PlayCons(s0, Some(50), [Some(10), Some(42)]);
    assert [Some(50), Some(10), Some(42)] == [Some(50)] + [Some(10), Some(42)];
    assert [TooHigh(50)] + [TooLow(10), Correct(42)] == [TooHigh(50), TooLow(10), Correct(42)];
  }

  /** The first press of the Easy scenario as typed: "50" is too high, with nine attempts left. */
  lemma EasyScenarioTyped()
    ensures Transition(Start(Easy, 42), "50") == (Session(42, 9, Easy, false), TooHigh(50))
  {
    assert ToDecimal(50) == "50";
    assert [] + "50" + [] == "50";
    PaddedGuessIsJudged(Start(Easy, 42), [], 50, []);
  }

  /** A decimal point makes a guess unreadable: "3.5" leaves a running game as it was. */
  lemma DecimalPointRefused(s: Session)
    requires AttemptLeft(s) && !s.over
    ensures Transition(s, "3.5") == (s, InvalidInput)
  {
    assert [] + "3.5" + [] == "3.5";
    MalformedGuessIgnored(s, [], "3.5", [], 1);
  }

  /** A lone blank is refused and leaves a running game as it was. */
  lemma BlankRefused(s: Session)
    requires AttemptLeft(s) && !s.over
    ensures Transition(s, " ") == (s, InvalidInput)
  {
    assert AllWhitespace(" ");
    assert " " + [] + [] == " ";
    MalformedGuessIgnored(s, " ", [], [], 0);
  }

  /**
   * Medium level with secret 7: nine wrong guesses use up the nine attempts,
   * and the ninth ends the game and reveals 7.
   */
  lemma MediumScenario()
    ensures var (t, os) := Play(Start(Medium, 7), [Some(1), Some(2), Some(3), Some(4), Some(5), Some(6), Some(8), Some(9), Some(10)]);
      t == Session(7, 0, Medium, true) && os[8] == Exhausted(10, 7)
  {
    var s0 := Start(Medium, 7);
    var gs := [Some(1), Some(2), Some(3), Some(4), Some(5), Some(6), Some(8), Some(9), Some(10)];
    WrongGuessesExhaust(s0, gs);
    PlayKeepsInvariant(s0, gs);
  }

  /** The first press of the Medium scenario as typed with padding: " 1\n" is too low, with eight attempts left. */
  lemma MediumScenarioTyped()
    ensures Transition(Start(Medium, 7), " 1\n") == (Session(7, 8, Medium, false), TooLow(1))
  {
    assert ToDecimal(1) == "1";
    assert AllWhitespace(" ") && AllWhitespace("\n");
    assert " " + "1" + "\n" == " 1\n";
    PaddedGuessIsJudged(Start(Medium, 7), " ", 1, "\n");
  }

  /** A minus sign makes a guess unreadable: "-5" leaves a running game as it was. */
  lemma NegativeRefused(s: Session)
    requires AttemptLeft(s) && !s.over
    ensures Transition(s, "-5") == (s, InvalidInput)
  {
    assert [] + "-5" + [] == "-5";
    MalformedGuessIgnored(s, [], "-5", [], 0);
  }

  // ---------------------------------------------------------------------
  // The mutable game state of the event loop
  // ---------------------------------------------------------------------

  /** `GameState`: the fields the `Guess` handler updates in place. */
  class GameState {
    var secretNumber: u32
    var remainingAttempts: u32
    var difficulty: Difficulty
    var gameOver: bool

    function Snapshot(): Session
      reads this
    {
      Session(secretNumber, remainingAttempts, difficulty, gameOver)
    }

    ghost predicate Valid()
      reads this
    {
      Invariant(Snapshot())
    }

    /** `GameState::new(difficulty)` with the drawn secret passed in. */
    constructor (d: Difficulty, secret: u32)
      requires Contains(Range(d), secret)
      ensures Valid() && Snapshot() == Start(d, secret)
    {
      secretNumber := secret;
      remainingAttempts := Attempts(d);
      difficulty := d;
      gameOver := false;
    }

    /** The `GameMessage::Guess` arm, with the text of the input field as `input`. */
    method Guess(input: string) returns (outcome: Outcome)
      requires Valid()
      modifies this
      ensures (Snapshot(), outcome) == Transition(old(Snapshot()), input)
      ensures Valid()
    {
      var read := ReadGuess(input);
      outcome := Submit(read);
    }

    /** The same arm once the field's text has been read as `read`. */
    method Submit(read: Option<u32>) returns (outcome: Outcome)
      requires Valid()
      modifies this
      ensures (Snapshot(), outcome) == Step(old(Snapshot()), read)
      ensures Valid()
    {
      if gameOver {
        return AlreadyOver;
      }
      match read
      case None =>
        outcome := InvalidInput;
      case Some(num) =>
        remainingAttempts := remainingAttempts - 1;
        if num < secretNumber {
          outcome := TooLow(num);
        } else if num > secretNumber {
          outcome := TooHigh(num);
        } else {
          outcome := Correct(num);
          gameOver := true;
        }
        if !gameOver && remainingAttempts == 0 {
          outcome := Exhausted(num, secretNumber);
          gameOver := true;
        }
    }
  }

  /**
   * The `GameMessage::NewGame` arm: read the chooser's index, then replace
   * the game with a fresh one at that level (the secret drawn by the caller).
   */
  method NewGame(choice: int, secret: u32) returns (g: GameState)
    requires Contains(Range(FromChoice(choice)), secret)
    ensures fresh(g) && g.Valid()
    ensures g.Snapshot() == Start(FromChoice(choice), secret)
  {
    var d := FromChoice(choice);
    g := new GameState(d, secret);
  }
}
