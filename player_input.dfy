/**
 * Reading the player's move (`UserInput` and `ShowAvailableMoves`,
 * Program.cs). Each input line is classified by `Classify`; the loop keeps
 * reading until a move is chosen or the player quits. Console lines are
 * given as a sequence; what the loop would print is returned as responses.
 */
module PlayerInput {
  import opened Wrappers
  import opened Text
  import opened HelpTable

  datatype Command = Help | Quit | Choose(move: int) | Invalid

  /** The `switch` in `UserInput` on one line: "help", "0", a number in
      [1, n] as `int.TryParse` reads it, or anything else. */
  function Classify(token: string, n: int): (c: Command)
    ensures c == Help <==> token == "help"
    ensures c == Quit <==> token == "0"
    ensures c.Choose? ==> 1 <= c.move <= n && TryParseInt(token) == Some(c.move)
    ensures c == Invalid <==>
      token != "help" && token != "0" && !(TryParseInt(token).Some? && 1 <= TryParseInt(token).value <= n)
  {
    if token == "help" then Help
    else if token == "0" then Quit
    else match TryParseInt(token)
      case Some(v) => if 1 <= v <= n then Choose(v) else Invalid
      case None => Invalid
  }

  /** The lines `ShowAvailableMoves` prints under "Moves list:". */
  function MoveListing(moves: seq<string>): (listing: seq<string>)
    ensures |listing| == |moves|
    ensures forall i :: 0 <= i < |moves| ==>
      var number := DecimalString(i + 1);
      |listing[i]| == |number| + 2 + |moves[i]| &&
      listing[i][..|number|] == number && listing[i][|number|..|number| + 2] == ": " &&
      listing[i][|number| + 2..] == moves[i]
  {
    seq(|moves|, i requires 0 <= i < |moves| => DecimalString(i + 1) + ": " + moves[i])
  }

  /** Every number the move list shows is accepted as that move. */
  lemma ListedNumbersAccepted(moves: seq<string>, i: int)
    requires |moves| <= Int32Max
    requires 0 <= i < |moves|
    ensures MoveListing(moves)[i][..|DecimalString(i + 1)|] == DecimalString(i + 1)
    ensures Classify(DecimalString(i + 1), |moves|) == Choose(i + 1)
  {
    var s := DecimalString(i + 1);
    ParsesDecimalString(i + 1);
    assert s != "help" by {
      assert IsDigit(s[0]);
    }
    assert (s + ": " + moves[i])[..|s|] == s;
  }

  const UsagePrefix: string :=
    "Error: Type 'help' for display help table, '0' to quit, or one of the valid move numbers (1 - "

  /** The other kinds of line: "0" quits, "help" asks for the table, and a
      number past the last move is refused. */
  lemma ClassifyExamples()
    ensures Classify("0", 3) == Quit
    ensures Classify("help", 3) == Help
    ensures Classify("4", 3) == Invalid
  {
    ParsesDecimalString(4);
    assert DecimalString(4) == "4";
  }

  /** The error line for an invalid input, naming the highest move number. */
  function UsageMessage(n: nat): (m: string)
    ensures |m| == |UsagePrefix| + |DecimalString(n)| + 2
    ensures m[..|UsagePrefix|] == UsagePrefix
    ensures m[|m| - 2..] == ")."
    ensures var number := m[|UsagePrefix|..|m| - 2]; AllDigits(number) && DecimalValue(number) == n
  {
    DecimalRoundTrip(n);
    UsagePrefix + DecimalString(n) + ")."
  }

  datatype Response = ShowHelpTable(rows: seq<seq<string>>) | ShowError(message: string)

  /** `response` is what the loop shows for `line`, a line that leaves it
      running: the table for "help", the error message for an invalid line. */
  predicate Answers(moves: seq<string>, line: string, response: Response)
  {
    match Classify(line, |moves|)
    case Help => response == ShowHelpTable(Table(moves))
    case Invalid => response == ShowError(UsageMessage(|moves|))
    case _ => false
  }

  /** Every response answers the input line at the same position. */
  predicate AllAnswered(moves: seq<string>, lines: seq<string>, responses: seq<Response>)
  {
    |responses| <= |lines| &&
    forall k :: 0 <= k < |responses| ==> Answers(moves, lines[k], responses[k])
  }

  lemma AnswerNext(moves: seq<string>, lines: seq<string>, responses: seq<Response>, r: Response)
    requires AllAnswered(moves, lines, responses)
    requires |responses| < |lines| && Answers(moves, lines[|responses|], r)
    ensures AllAnswered(moves, lines, responses + [r])
  {
    var extended := responses + [r];
    forall k | 0 <= k < |extended|
      ensures Answers(moves, lines[k], extended[k])
    {
      if k < |responses| {
        assert extended[k] == responses[k];
      }
    }
  }

  datatype InputOutcome = Chosen(move: int) | QuitRequested | InputExhausted

  /** How a run of the input loop over `lines` ended. It read `consumed`
      lines, and every line but the last one read was a help request or
      an invalid line, answered in `responses`. The last line read is the
      chosen move, in [1, n], or the "0" that quits. If neither came, the
      input ran out. */
  predicate LoopEnded(moves: seq<string>, lines: seq<string>, outcome: InputOutcome,
                      consumed: nat, responses: seq<Response>)
  {
    consumed <= |lines| &&
    AllAnswered(moves, lines, responses) &&
    (outcome.InputExhausted? ==> consumed == |lines| && |responses| == consumed) &&
    (!outcome.InputExhausted? ==> 0 < consumed && |responses| == consumed - 1) &&
    (outcome.Chosen? ==>
      0 < consumed && 1 <= outcome.move <= |moves| &&
      Classify(lines[consumed - 1], |moves|) == Choose(outcome.move)) &&
    (outcome.QuitRequested? ==> 0 < consumed && lines[consumed - 1] == "0")
  }

  /** The `while (!playerTurns)` loop of `UserInput` over the given lines. */
  method UserInput(moves: seq<string>, lines: seq<string>)
    returns (outcome: InputOutcome, consumed: nat, responses: seq<Response>)
    ensures LoopEnded(moves, lines, outcome, consumed, responses)
  {
    var n := |moves|;
    var playerMove := -1;
    var playerTurns := false;
    outcome, consumed, responses := InputExhausted, 0, [];
    while !playerTurns && consumed < |lines|
      invariant consumed <= |lines|
      invariant !playerTurns ==> |responses| == consumed
      invariant playerTurns ==>
        0 < consumed && |responses| == consumed - 1 &&
        1 <= playerMove <= n && Classify(lines[consumed - 1], n) == Choose(playerMove)
      invariant AllAnswered(moves, lines, responses)
    {
      var input := lines[consumed];
      consumed := consumed + 1;
      var command := Classify(input, n);
      if command.Help? {
        var rows := HelpTableRows(moves);
        AnswerNext(moves, lines, responses, ShowHelpTable(rows));
        responses := responses + [ShowHelpTable(rows)];
      } else if command.Quit? {
        // the program ends here (`Environment.Exit(0)`)
        outcome := QuitRequested;
        return;
      } else if command.Choose? {
        playerMove, playerTurns := command.move, true;
      } else {
        AnswerNext(moves, lines, responses, ShowError(UsageMessage(n)));
        responses := responses + [ShowError(UsageMessage(n))];
      }
    }
    if playerTurns {
      outcome := Chosen(playerMove);
    }
  }
}
