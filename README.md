# Commit-then-reveal rock-paper-scissors, modelled in Dafny

The program is a console game of rock-paper-scissors generalised to any odd
number (three or more) of moves named on the command line. The moves stand in
a circle; each move beats the (n-1)/2 moves just behind it and loses to the
(n-1)/2 just ahead of it. Before the player chooses, the computer fixes its
move and shows an HMAC-SHA256 digest of it under a fresh random 32-byte key.
After the player has chosen, it reveals the key, so the player can recompute
the digest and check that the computer did not change its move.

This project models `Program.cs` module by module:

- `Winner` (`winner.dfy`): `GetWinner` with C#'s truncating `%` (written as
  repeated subtraction toward zero), the cyclic
  "beats" relation it decides, antisymmetry for odd counts, and the
  counterexample for an even count.
- `Validation` (`validation.dfy`): the two checks in `Main`. The count check
  comes first, then uniqueness ignoring case, using LINQ `Distinct().Count()`.
- `Text` (`text.dfy`): ASCII lower-casing, decimal numerals, and
  `int.TryParse`.
- `Hex` (`hex.dfy`): `BitConverter.ToString(..).Replace("-", "")`, its
  lower-cased form, and a decoder that reads either case back.
- `HelpTable` (`help_table.dfy`): the nested loops that fill the rows of the
  help table, and the fairness of every row.
- `PlayerInput` (`player_input.dfy`): `Classify`, the pure reading of one
  input line. `UserInput` is the reading loop over a sequence of lines.
- `Commitment` (`commitment.dfy`): the key buffer, the digest, and the
  player's check after the reveal.
- `Game` (`game.dfy`): `PlayGame` and `Main` (`Run`), with the result
  message as the program writes it.

Inputs the program takes from the outside world become parameters:

- the computer's random index, in [0, n);
- the 32 secure random key bytes;
- the console input, as a sequence of lines;
- HMAC-SHA256 and UTF-8 encoding, as function parameters.

Outputs become returned values: the responses of the input loop, the
session, and the error messages.

Three points about what the program does, which the model keeps:

- The help table has n rows of n + 1 cells, with the move's name in column 0.
- The revealed key is upper-case hex, but the digest is lower-case.
- A round in which the computer wins is announced with the "You win" text
  (see Findings).

## Model

| member | source | states |
|---|---|---|
| `Winner.TruncRem` | Program.cs:80 | C#'s `%`, taking whole multiples of the divisor off toward zero: the remainder is smaller than the divisor in magnitude and carries the dividend's sign |
| `Winner.TruncRemQuotient` | Program.cs:80 | the dividend is a quotient truncated toward zero (non-negative for a non-negative dividend, non-positive for a non-positive one) times n, plus the remainder |
| `Winner.SmallTruncRem` | Program.cs:80 | for a dividend in [0, 3n), C#'s `%` equals the mathematical remainder |
| `Winner.GetWinner` | Program.cs:77-81 | the result is always -1, 0 or 1 |
| `Winner.DividendPositive` | Program.cs:79-80 | for indices in [0, n) the dividend `a - b + p + n` is positive, so the truncating `%` equals the mathematical remainder |
| `Winner.DistanceMeaning` | Program.cs:77-81 | the steps from b forward to a are `(a - b) mod n`, in [0, n), zero only when a == b; for a != b the two ways round add up to n |
| `Winner.GetWinnerByDistance` | Program.cs:77-81 | the result is the sign of the cyclic distance from b to a, shifted down by n when the distance plus n/2 wraps past n |
| `Winner.GetWinnerMeaning` | Program.cs:77-81 | for any n > 0 and indices in range: 0 exactly when a == b, 1 exactly when b lies 1 to (n-1)/2 steps behind a on the circle, -1 otherwise |
| `Winner.GetWinnerAntisymmetric` | Program.cs:77-81 | for odd n, swapping the two moves negates the result |
| `Winner.EvenCountIsUnfair` | Program.cs:11 | with four moves, moves 0 and 2 each lose to the other, which is why the move count must be odd |
| `Validation.Distinct` | Program.cs:16 | LINQ `Distinct`: no longer than its input, the same elements, and no repeats |
| `Validation.DistinctCountExact` | Program.cs:16 | `Distinct().Count()` equals the length exactly when no element repeats |
| `Validation.Validate` | Program.cs:11-28 | the count error occurs exactly for counts that are 1 or less or even, checked before duplicates. The duplicate error occurs exactly when the count is good and two moves are equal after lower-casing. On success the moves are passed on unchanged, at least 3 of them, an odd number, none repeated ignoring case |
| `Validation.AcceptedExamples` | Program.cs:11-22 | rock/paper/scissors and five one-letter moves are accepted unchanged |
| `Validation.RefusedExamples` | Program.cs:11-20 | two moves fail the count check, even when they repeat; "rock"/"ROCK"/"paper" fails as duplicates |
| `Text.DecimalString` | Program.cs:121 | the numeral of an `int` is non-empty, all digits, and has no leading zero |
| `Text.DecimalRoundTrip` | Program.cs:121 | reading a numeral back gives the number |
| `Text.TrimWhite` | Program.cs:103 | the white space `int.TryParse` ignores is gone from both ends, and the result is no longer than the input |
| `Text.TrimWhiteSplit` | Program.cs:103 | the input is some white space, then the trimmed text, then some white space, so trimming keeps the middle exactly |
| `Text.TryParseInt` | Program.cs:103 | a parsed value lies in the 32-bit range, and a plain numeral in that range parses to its value |
| `Text.TryParseIntMeaning` | Program.cs:103 | a line parses exactly when, once trimmed, it is an optional `+` or `-` followed by one or more digits whose signed value fits 32 bits; the value is that signed value |
| `Text.TryParseAccepts` | Program.cs:103 | " +3 " parses to 3 and "-12" to -12 |
| `Text.TryParseRefuses` | Program.cs:103-106 | "abc", "1x", "- 1", "+" and "" do not parse, so they get the error line |
| `Text.ParsesDecimalString` | Program.cs:103 | every numeral of a non-negative `int` parses back to that value |
| `Hex.BitConverterString` | Program.cs:37 | `BitConverter.ToString` has no characters for no bytes and 3k - 1 characters for k bytes |
| `Hex.BitConverterLayout` | Program.cs:37 | byte k is written at 3k and 3k + 1, high nibble first, followed by a dash unless it is the last byte |
| `Hex.RemoveDashes` | Program.cs:37 | `Replace("-", "")` leaves no dash and never lengthens the string |
| `Hex.RemoveDashesKeeps` | Program.cs:37 | every character other than a dash is kept as often as it occurs, and a string without dashes is left unchanged |
| `Hex.DashesRemovedArePairs` | Program.cs:37 | removing the dashes from `BitConverter.ToString` leaves each byte's two digits back to back |
| `Hex.HexString` | Program.cs:37 | the key as displayed is the reference rendering: each byte's two upper-case digits, back to back |
| `Hex.LowerHexString` | Program.cs:73 | the digest as displayed is the reference rendering, lower-cased |
| `Hex.HexStringShape` | Program.cs:37 | the key display has 2k upper-case hex digits for k bytes; byte k gives the high nibble at 2k and the low nibble at 2k+1 |
| `Hex.LowerHexStringShape` | Program.cs:73 | the digest display has 2k lower-case hex digits for k bytes, high nibble first |
| `Hex.DecodeHexRoundTrip` | Program.cs:37 | both the upper-case and the lower-case rendering read back to the original bytes |
| `HelpTable.Cell` | Program.cs:141 | a cell reads "Draw" exactly for result 0, "Win" exactly for 1, and "Lose" otherwise |
| `HelpTable.HelpTableRows` | Program.cs:133-145 | the nested loops produce one row per move: the move's name, then the cell for `GetWinner(i, j, n)` in column j + 1 |
| `HelpTable.CellMeaning` | Program.cs:136-141 | column 0 is the move's name; a cell is Draw exactly on the diagonal, Win exactly when the row's move beats the column's, and Lose otherwise |
| `HelpTable.WinMirrorsLose` | Program.cs:140-141 | for odd n, cell (i, j) is Win exactly when cell (j, i) is Lose |
| `HelpTable.RowCounts` | Program.cs:133-145 | for odd n, every row has its name in column 0, Draw on the diagonal, exactly one Draw, n/2 Win and n/2 Lose |
| `PlayerInput.Classify` | Program.cs:93-107 | "help" asks for the table and "0" quits. A move is chosen only when the line parses to an integer in [1, n]. Every other line is invalid |
| `PlayerInput.ClassifyExamples` | Program.cs:93-107 | with three moves, "0" quits, "help" asks for the table and "4" is invalid |
| `PlayerInput.MoveListing` | Program.cs:119-122 | one line per move: line i is the number i + 1, then ": ", then move i |
| `PlayerInput.UsageMessage` | Program.cs:106 | the error line starts with the fixed text and ends with the highest move number followed by ")."; that number reads back as n |
| `PlayerInput.ListedNumbersAccepted` | Program.cs:119-122 | each line of the move list starts with a number, and typing that number chooses that move |
| `PlayerInput.UserInput` | Program.cs:82-112 | the loop stops at the first chosen move or "0", and the last line read is that move or that "0". Each earlier line was a help request or an invalid line, answered with the table or the error message. A chosen move lies in [1, n]. If neither came, every line was read and answered |
| `Commitment.GenerateSecureKey` | Program.cs:57-65 | a fresh 32-byte buffer holding the secure random bytes |
| `Commitment.ComputeHmac` | Program.cs:67-75 | the digest is lower-case hex, two digits per HMAC byte, and reads back to the HMAC bytes |
| `Commitment.RevealedKeyVerifies` | Program.cs:36-38 | the revealed key has 64 digits and reads back to the key, so recomputing the digest of the committed move matches the commitment |
| `Commitment.Verify` | Program.cs:36-39 | a passing check means the revealed key reads back as hex and the commitment reads back to the HMAC of the move under that key |
| `Commitment.CommitmentBinds` | Program.cs:36-39 | one commitment and one revealed key can pass the check for two moves only when HMAC gives both moves the same digest under that key |
| `Game.OutcomeMeaning` | Program.cs:46-51 | for odd n the round is a draw exactly on equal moves. The player wins exactly when their move beats the computer's, and the computer wins exactly when its move beats the player's |
| `Game.ResultMessage` | Program.cs:49-51 | the message is "Draw" exactly for result 0; every other result, the computer winning included, gives "You win: <player's move> beats <computer's move>." |
| `Game.LossReportedAsWin` | Program.cs:49-51 | when the computer wins, the message as written still reads "You win: <player's move> beats <computer's move>." |
| `Game.RockAgainstPaper` | Program.cs:49-51 | rock against paper loses, and is announced as "You win: rock beats paper." |
| `Game.PaperAgainstRock` | Program.cs:41-51 | with rock, paper, scissors and the computer on rock, typing "2" picks paper, which wins with "You win: paper beats rock." |
| `Game.IntendedMessageNamesWinner` | Program.cs:49-51 | with a losing branch, the message names the winner's move before "beats" in every case |
| `Game.Commit` | Program.cs:36-38 | the displayed key is the hex of the random bytes, 64 digits long; the commitment is the digest of the computer's move under them, and revealing that key passes the player's check |
| `Game.PlayGame` | Program.cs:31-55 | the commitment depends only on the key and the computer's move, never on the input. The input loop's guarantees hold for the lines read, so the last line read chose the move or was "0". A played round has the player's move in [1, n], scored as `GetWinner(move - 1, computerMove, n)`, with the message as written and the key revealed in 64 hex digits that verify against the commitment |
| `Game.ErrorMessage` | Program.cs:11-19 | both refusals start with "Error: ", and the count error and the duplicate error differ in the next character |
| `Game.Run` | Program.cs:9-29 | invalid moves are refused with the validation error and its message, and no round is played. Otherwise the moves are odd in number, at least 3 and distinct ignoring case, and the session commits to the computer's move. The input loop's guarantees hold for the moves unchanged: each earlier line is answered, and the last line read is the chosen move or "0". A played round is scored against the moves unchanged: the player's move in [1, n], `GetWinner(move - 1, computerMove, n)`, the message as written and the key revealed |

## Findings

| source | as written | input that shows it | evidently intended | confidence | as-written member | corrected member |
|---|---|---|---|---|---|---|
| Program.cs:51 | the branch for result -1 prints "You win: {player's move} beats {computer's move}.", the same text as for a win | moves `rock paper scissors`, computer on paper (index 1), player types `1` (rock): `GetWinner(0, 1, 3) == -1` and the line reads "You win: rock beats paper." | a losing message naming the computer's move as the winner: "You lose: paper beats rock." | high, not executed | `Game.LossReportedAsWin` | `Game.IntendedMessageNamesWinner` |

`Game.PlayGame` keeps the message as the program writes it. Its `outcome`
field records the correct classification (draw, player wins, computer wins),
and `Game.OutcomeMeaning` proves that classification right.

## Left out

- HMAC-SHA256 and `Encoding.UTF8.GetBytes` are library calls. They are function parameters here, so only determinism holds; nothing about their security is claimed.
- `RandomNumberGenerator` and `System.Random` are randomness sources. Their outputs are parameters: 32 key bytes, and a computer index in [0, n).
- Console output is not printed. It is returned instead: the input loop's responses, the session's commitment and round, and the validation messages.
- These texts carry nothing to prove and are not modelled: the welcome line, the prompt of `ShowAvailableMoves`, the "Your move is" and "Computer move" lines, the "Computer move HMAC: " label (Program.cs:39), the "Computer move key: " label (Program.cs:53), and the completion line printed before `Environment.Exit(0)`. The session returns the bare digest and key.
- `PlayerInput.MoveListing` models the move list of Program.cs:121, but `UserInput` does not return it among its responses: the list is printed once before the loop, and the model returns only what the loop answers.
- The program ends its process on "0". The model returns a quit outcome instead.
- When the console input runs out, `Console.ReadLine` returns null and the program prints the error line again forever. The model stops reading and reports that the input ended.
- `ConsoleTable` is third-party rendering. Only the rows given to `AddRow` are modelled, not the header row or the layout.
- `Validate`: lower-casing is ASCII only, whereas `ToLowerInvariant` folds all of Unicode. Two moves that differ only in non-ASCII letter case are not reported as duplicates.
- `TryParseInt`: models white space, an optional `+` or `-`, ASCII digits and the 32-bit range. It does not model culture-specific sign symbols or trailing NUL characters, which `int.TryParse` also accepts.
- `GetWinner`: integers are unbounded, so C#'s 32-bit overflow of `a - b + p + n` is not modelled. It could only happen with more than about 850 million moves. It also requires n > 0; the program would divide by zero at n = 0, but it only ever calls `GetWinner` with n >= 3.
- The key is not zeroised after the reveal; the program does not do it either.
