/**
 * One round of the game (`Main` and `PlayGame`, Program.cs): validate the
 * moves, fix and commit to the computer's move, read the player's move,
 * score it and reveal the key. The computer's random index and the secure
 * random key bytes are parameters.
 */
module Game {
  import opened Wrappers
  import opened Winner
  import opened Validation
  import opened Hex
  import opened Commitment
  import opened PlayerInput

  datatype RoundOutcome = Draw | PlayerWins | ComputerWins

  function OutcomeOf(result: int): RoundOutcome
  {
    if result == 0 then Draw else if result == 1 then PlayerWins else ComputerWins
  }

  /** The outcome names the right side: for an odd number of moves the
      computer wins exactly when its move beats the player's. */
  lemma OutcomeMeaning(n: int, player: int, computer: int)
    requires n % 2 == 1
    requires 0 <= player < n && 0 <= computer < n
    ensures OutcomeOf(GetWinner(player, computer, n)) == Draw <==> player == computer
    ensures OutcomeOf(GetWinner(player, computer, n)) == PlayerWins <==> Beats(player, computer, n)
    ensures OutcomeOf(GetWinner(player, computer, n)) == ComputerWins <==> Beats(computer, player, n)
  {
    GetWinnerMeaning(player, computer, n);
    GetWinnerMeaning(computer, player, n);
    GetWinnerAntisymmetric(player, computer, n);
  }

  const WinPrefix: string := "You win: "
  const LosePrefix: string := "You lose: "
  const BeatsWord: string := " beats "

  /** The result line as the program writes it: the branch for -1 repeats
      the text of the branch for 1. */
  function ResultMessage(moves: seq<string>, player: int, computer: int, result: int): (m: string)
    requires 0 <= player < |moves| && 0 <= computer < |moves|
    ensures m == "Draw" <==> result == 0
    ensures result != 0 ==> m == WinPrefix + moves[player] + BeatsWord + moves[computer] + "."
  {
    if result == 0 then "Draw"
    else if result == 1 then WinPrefix + moves[player] + BeatsWord + moves[computer] + "."
    else WinPrefix + moves[player] + BeatsWord + moves[computer] + "."
  }

  /** When the computer wins, the message still says the player won, and
      names the player's move as the one that beats. */
  lemma LossReportedAsWin(moves: seq<string>, player: int, computer: int)
    requires |moves| % 2 == 1
    requires 0 <= player < |moves| && 0 <= computer < |moves|
    requires GetWinner(player, computer, |moves|) == -1
    ensures Beats(computer, player, |moves|) && !Beats(player, computer, |moves|)
    ensures ResultMessage(moves, player, computer, GetWinner(player, computer, |moves|))
      == WinPrefix + moves[player] + BeatsWord + moves[computer] + "."
  {
    OutcomeMeaning(|moves|, player, computer);
  }

  /** The concrete case: rock against paper loses, and is announced as
      "You win: rock beats paper." */
  lemma RockAgainstPaper()
    ensures GetWinner(0, 1, 3) == -1 && GetWinner(1, 0, 3) == 1
    ensures ResultMessage(["rock", "paper", "scissors"], 0, 1, GetWinner(0, 1, 3))
      == WinPrefix + "rock" + BeatsWord + "paper" + "."
  {
  }

  /** Rock, paper, scissors with the computer on rock: typing "2" picks
      paper, which wins, announced as "You win: paper beats rock." */
  lemma PaperAgainstRock()
    ensures Classify("2", 3) == Choose(2)
    ensures OutcomeOf(GetWinner(2 - 1, 0, 3)) == PlayerWins
    ensures ResultMessage(["rock", "paper", "scissors"], 2 - 1, 0, GetWinner(2 - 1, 0, 3))
      == WinPrefix + "paper" + BeatsWord + "rock" + "."
  {
    ListedNumbersAccepted(["rock", "paper", "scissors"], 1);
    assert Text.DecimalString(2) == "2";
  }

  /** The result line with a losing branch: the move named before "beats"
      is always the winner's. */
  function IntendedResultMessage(moves: seq<string>, player: int, computer: int, result: int): string
    requires 0 <= player < |moves| && 0 <= computer < |moves|
  {
    if result == 0 then "Draw"
    else if result == 1 then WinPrefix + moves[player] + BeatsWord + moves[computer] + "."
    else LosePrefix + moves[computer] + BeatsWord + moves[player] + "."
  }

  lemma IntendedMessageNamesWinner(moves: seq<string>, player: int, computer: int)
    requires |moves| % 2 == 1
    requires 0 <= player < |moves| && 0 <= computer < |moves|
    ensures var m := IntendedResultMessage(moves, player, computer, GetWinner(player, computer, |moves|));
      (player == computer ==> m == "Draw") &&
      (Beats(player, computer, |moves|) ==>
        m == WinPrefix + moves[player] + BeatsWord + moves[computer] + ".") &&
      (Beats(computer, player, |moves|) ==>
        m == LosePrefix + moves[computer] + BeatsWord + moves[player] + ".")
  {
    OutcomeMeaning(|moves|, player, computer);
  }

  /** What a played round shows: the player's move as typed (1-based), the
      computer's move as an index, the result and the revealed key. */
  datatype Round = Round(playerMove: int, computerMove: int, result: int,
                         outcome: RoundOutcome, message: string, keyHex: string)

  datatype SessionEnd = Played(round: Round) | QuitGame | InputEnded

  /** One session: the commitment shown first, the number of input lines
      read, what the input loop answered, and how the session ended. */
  datatype Session = Session(commitment: string, consumed: nat, responses: seq<Response>, end: SessionEnd)

  /** The round the program shows once the player has chosen a move in
      [1, n]: the move turned into an index, scored by `GetWinner` against
      the computer's move, with its message as written and the key as
      displayed. */
  function ScoreRound(moves: seq<string>, playerMove: int, computerMove: int, keyHex: string): Round
    requires 1 <= playerMove <= |moves| && 0 <= computerMove < |moves|
  {
    var result := GetWinner(playerMove - 1, computerMove, |moves|);
    Round(playerMove, computerMove, result, OutcomeOf(result),
          ResultMessage(moves, playerMove - 1, computerMove, result), keyHex)
  }

  /** A round scored as the program scores it, with the key from `entropy`. */
  predicate ScoredRound(moves: seq<string>, computerMove: int, entropy: seq<byte>, r: Round)
    requires 0 <= computerMove < |moves|
  {
    1 <= r.playerMove <= |moves| &&
    r == ScoreRound(moves, r.playerMove, computerMove, HexString(entropy))
  }

  /** The first steps of `PlayGame`: a fresh key, its display, and the
      digest of the computer's move under it. An honest reveal of that key
      passes the player's check. */
  method Commit(entropy: seq<byte>, move: string, hmac: HmacSha256, utf8: Utf8Encoder)
    returns (keyHex: string, commitment: string)
    requires |entropy| == KeySize
    ensures commitment == ComputeHmac(entropy, move, hmac, utf8)
    ensures keyHex == HexString(entropy) && |keyHex| == 64
    ensures Verify(commitment, keyHex, move, hmac, utf8)
  {
    var key := GenerateSecureKey(entropy);
    keyHex := HexString(key[..]);
    commitment := ComputeHmac(key[..], move, hmac, utf8);
    RevealedKeyVerifies(key[..], move, hmac, utf8);
  }

  /** What the input loop returned, read off how the session ended. */
  function InputOf(end: SessionEnd): InputOutcome
  {
    match end
    case Played(round) => Chosen(round.playerMove)
    case QuitGame => QuitRequested
    case InputEnded => InputExhausted
  }

  /** `PlayGame`: the computer's move and the key are fixed and committed to
      before any input is read; the player's 1-based move is turned into an
      index before scoring. */
  method PlayGame(moves: seq<string>, computerMove: int, entropy: seq<byte>, lines: seq<string>,
                  hmac: HmacSha256, utf8: Utf8Encoder) returns (s: Session)
    requires 0 <= computerMove < |moves|
    requires |entropy| == KeySize
    ensures s.commitment == ComputeHmac(entropy, moves[computerMove], hmac, utf8)
    ensures LoopEnded(moves, lines, InputOf(s.end), s.consumed, s.responses)
    ensures s.end.Played? ==>
      var r := s.end.round;
      ScoredRound(moves, computerMove, entropy, r) && |r.keyHex| == 64 &&
      Verify(s.commitment, r.keyHex, moves[computerMove], hmac, utf8)
  {
    var keyHex, commitment := Commit(entropy, moves[computerMove], hmac, utf8);
    var input, consumed, responses := UserInput(moves, lines);
    match input
    case Chosen(playerMove) =>
      s := Session(commitment, consumed, responses,
                   Played(ScoreRound(moves, playerMove, computerMove, keyHex)));
    case QuitRequested =>
      s := Session(commitment, consumed, responses, QuitGame);
    case InputExhausted =>
      s := Session(commitment, consumed, responses, InputEnded);
  }

  const ErrorPrefix: string := "Error: "
  const MoveCountDetail: string := "Please enter an odd number of moves, " + "three or more, separated by a space."
  const DuplicateDetail: string := "duplicate moves. " + "All moves must be unique."
  const MoveCountText: string := ErrorPrefix + MoveCountDetail
  const DuplicateMovesText: string := ErrorPrefix + DuplicateDetail

  /** The lines `Main` prints when it refuses the moves. */
  function ErrorMessage(e: ValidationError): (m: string)
    ensures |m| > |ErrorPrefix| && m[..|ErrorPrefix|] == ErrorPrefix
    ensures e.MoveCountError? ==> m[|ErrorPrefix|] == 'P'
    ensures e.DuplicateMoves? ==> m[|ErrorPrefix|] == 'd'
  {
    match e
    case MoveCountError =>
      assert MoveCountDetail[0] == 'P';
      MoveCountText
    case DuplicateMoves =>
      assert DuplicateDetail[0] == 'd';
      DuplicateMovesText
  }

  datatype RunResult = Rejected(error: ValidationError, message: string) | Started(session: Session)

  /** `Main`: validate the command-line moves, then play one round with
      them unchanged. The random index is drawn only once the moves are
      valid, from [0, n). */
  method Run(args: seq<string>, computerMove: int, entropy: seq<byte>, lines: seq<string>,
             hmac: HmacSha256, utf8: Utf8Encoder) returns (r: RunResult)
    requires Validate(args).Success? ==> 0 <= computerMove < |args|
    requires |entropy| == KeySize
    ensures r.Rejected? <==> Validate(args).Failure?
    ensures r.Rejected? ==> r.error == Validate(args).error && r.message == ErrorMessage(r.error)
    ensures r.Started? ==>
      |args| >= 3 && |args| % 2 == 1 && DistinctIgnoringCase(args) &&
      r.session.commitment == ComputeHmac(entropy, args[computerMove], hmac, utf8) &&
      LoopEnded(args, lines, InputOf(r.session.end), r.session.consumed, r.session.responses) &&
      (r.session.end.Played? ==>
        ScoredRound(args, computerMove, entropy, r.session.end.round))
  {
    match Validate(args)
    case Failure(e) =>
      r := Rejected(e, ErrorMessage(e));
    case Success(moves) =>
      var session := PlayGame(moves, computerMove, entropy, lines, hmac, utf8);
      r := Started(session);
  }
}
