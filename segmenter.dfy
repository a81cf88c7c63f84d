/**
 * The line loop of `parseLog` as a pure fold: each line may open a game
 * (a match-start marker), and a kill line updates the current game,
 * opening game 1 first when no game is open yet.  A kill line without
 * the ` killed ` separator ends the parse with an error, as the source's
 * read of the missing second split piece throws.
 */
module Segmenter {
  import opened Wrappers
  import opened JsString
  import opened LogTypes
  import opened KillLine
  import opened Aggregate

  /** `addEmptyGame`: a new game numbered one past the current count. */
  function StartGame(games: seq<Game>): seq<Game> {
    games + [EmptyGame(|games| + 1)]
  }

  /** A kill line the parser cannot take apart: it has no ` killed `. */
  predicate Malformed(line: string) {
    IsKillLine(line) && !Contains(line, " killed ")
  }

  /**
   * The games a line is applied to: a match-start marker opens a game, and
   * a kill line with no game open opens game 1.
   */
  function OpenFor(games: seq<Game>, line: string): seq<Game> {
    var started := if IsMatchStart(line) then StartGame(games) else games;
    if IsKillLine(line) && |started| == 0 then StartGame(started) else started
  }

  /** One kill applied to the current (last) game. */
  function KillInto(games: seq<Game>, e: KillEvent): seq<Game>
    requires |games| > 0
  {
    games[|games| - 1 := ApplyKill(games[|games| - 1], e)]
  }

  /** The effect of one line on the list of games (the body of the `forEach`). */
  function ApplyLine(games: seq<Game>, line: string): Result<seq<Game>, ParseError> {
    var current := OpenFor(games, line);
    if !IsKillLine(line) then Success(current)
    else
      match Decompose(line)
      case None => Failure(MissingKilledSeparator(line))
      case Some(e) => Success(KillInto(current, e))
  }

  /** A line that is not a kill line only opens games. */
  lemma ApplyLineQuiet(games: seq<Game>, line: string)
    requires !IsKillLine(line)
    ensures ApplyLine(games, line) == Success(OpenFor(games, line))
  {
  }

  /** A kill line with both parts applies its event to the current game. */
  lemma ApplyLineKill(games: seq<Game>, line: string)
    requires IsKillLine(line) && KilledParts(line).1.Some?
    ensures |OpenFor(games, line)| > 0
    ensures ApplyLine(games, line)
         == Success(KillInto(OpenFor(games, line),
              KillEvent(KillerOf(KilledParts(line).0), VictimOf(KilledParts(line).1.value), MethodOf(line))))
  {
  }

  /**
   * The games as they stand when a kill line without ` killed ` stops the
   * parse: the line has opened its games and registered its killer.
   */
  function StoppedAt(games: seq<Game>, line: string): (r: seq<Game>)
    requires IsKillLine(line)
    ensures |r| == |OpenFor(games, line)| > 0
  {
    OpenForKill(games, line);
    var current := OpenFor(games, line);
    current[|current| - 1 := WithPlayer(current[|current| - 1], KillerOf(line))]
  }

  /** A list that agrees with the opened games but for a last game with the killer added is the stopped state. */
  lemma StoppedAtParts(games: seq<Game>, line: string, current: seq<Game>, r: seq<Game>)
    requires IsKillLine(line) && current == OpenFor(games, line)
    requires |r| == |current| > 0
    requires r[..|r| - 1] == current[..|current| - 1]
    requires r[|r| - 1] == WithPlayer(current[|current| - 1], KillerOf(line))
    ensures r == StoppedAt(games, line)
  {
    ReplacedLast(current, r, WithPlayer(current[|current| - 1], KillerOf(line)));
  }

  /** Two lists that agree up to their last element differ by replacing it. */
  lemma ReplacedLast<T>(s: seq<T>, t: seq<T>, v: T)
    requires |s| == |t| > 0
    requires t[..|t| - 1] == s[..|s| - 1] && t[|t| - 1] == v
    ensures t == s[|s| - 1 := v]
  {
    assert forall i :: 0 <= i < |t| - 1 ==> t[i] == t[..|t| - 1][i] && s[i] == s[..|s| - 1][i];
  }

  /** A kill line without ` killed ` stops the parse; its one split piece is the whole line. */
  lemma ApplyLineStops(games: seq<Game>, line: string)
    requires IsKillLine(line) && KilledParts(line).1.None?
    ensures |OpenFor(games, line)| > 0
    ensures ApplyLine(games, line) == Failure(MissingKilledSeparator(line))
    ensures KilledParts(line).0 == line
  {
  }

  /** The lines applied in order, stopping at the first error. */
  function ParseLines(games: seq<Game>, lines: seq<string>): Result<seq<Game>, ParseError>
    decreases |lines|
  {
    if |lines| == 0 then Success(games)
    else
      match ApplyLine(games, lines[0])
      case Failure(err) => Failure(err)
      case Success(next) => ParseLines(next, lines[1..])
  }

  /** Games numbered 1, 2, ... in order, each valid. */
  predicate ValidGames(games: seq<Game>) {
    forall i :: 0 <= i < |games| ==> games[i].id == i + 1 && ValidGame(games[i])
  }

  /** One line fails exactly when it is a malformed kill line, and the error names that line. */
  lemma ApplyLineFails(games: seq<Game>, line: string)
    ensures ApplyLine(games, line).Failure? <==> Malformed(line)
    ensures ApplyLine(games, line).Failure? ==> ApplyLine(games, line).error == MissingKilledSeparator(line)
  {
  }

  /** A kill line always has a game to go to. */
  lemma OpenForKill(games: seq<Game>, line: string)
    ensures IsKillLine(line) ==> |OpenFor(games, line)| > 0
  {
  }

  /** Opening games keeps them numbered and valid. */
  lemma OpenForValid(games: seq<Game>, line: string)
    requires ValidGames(games)
    ensures ValidGames(OpenFor(games, line))
  {
    var started := if IsMatchStart(line) then StartGame(games) else games;
    EmptyGameValid(|games| + 1);
    assert ValidGames(started);
    EmptyGameValid(|started| + 1);
  }

  /** A kill keeps the games numbered and valid. */
  lemma KillIntoValid(games: seq<Game>, e: KillEvent)
    requires |games| > 0 && ValidGames(games)
    ensures ValidGames(KillInto(games, e))
  {
    ApplyKillValid(games[|games| - 1], e);
  }

  /** One line keeps the games numbered and valid. */
  lemma ApplyLineValid(games: seq<Game>, line: string)
    requires ValidGames(games)
    ensures ApplyLine(games, line).Success? ==> ValidGames(ApplyLine(games, line).value)
  {
    OpenForValid(games, line);
    OpenForKill(games, line);
    if IsKillLine(line) && Decompose(line).Some? {
      KillIntoValid(OpenFor(games, line), Decompose(line).value);
    }
  }

  /** One line adds a game per match-start marker, plus game 1 for a kill line when none is open. */
  lemma ApplyLineCount(games: seq<Game>, line: string)
    ensures ApplyLine(games, line).Success? ==>
      |ApplyLine(games, line).value|
        == |games| + (if IsMatchStart(line) then 1 else 0)
           + (if |games| == 0 && !IsMatchStart(line) && IsKillLine(line) then 1 else 0)
  {
    OpenForKill(games, line);
  }

  /**
   * One line only appends games to the list and changes at most the last
   * game of the list it opened: a kill line changes that game, adding one
   * to its total, and any other line changes nothing.  So a line that both
   * opens a game and kills leaves every earlier game as it was.
   */
  lemma ApplyLineKeepsEarlier(games: seq<Game>, line: string)
    ensures ApplyLine(games, line).Success? ==>
      var r := ApplyLine(games, line).value;
      var current := OpenFor(games, line);
      && |games| <= |current| == |r|
      && current[..|games|] == games
      && (forall i :: 0 <= i < |games| - 1 ==> r[i] == games[i])
      && (!IsKillLine(line) ==> r == current)
      && (IsKillLine(line) ==>
        && |r| > 0
        && r[..|r| - 1] == current[..|r| - 1]
        && r[|r| - 1].totalKills == current[|r| - 1].totalKills + 1)
      && (IsMatchStart(line) ==> r[..|games|] == games)
  {
    OpenForKill(games, line);
    var current := OpenFor(games, line);
    OpenForAppends(games, line);
    if ApplyLine(games, line).Success? && IsKillLine(line) {
      var r := ApplyLine(games, line).value;
      assert r == KillInto(current, Decompose(line).value);
      assert r[..|r| - 1] == current[..|r| - 1];
    }
  }

  /** Opening games only appends to the list. */
  lemma OpenForAppends(games: seq<Game>, line: string)
    ensures |games| <= |OpenFor(games, line)|
    ensures OpenFor(games, line)[..|games|] == games
  {
  }

  /** The kill totals of all games together. */
  function TotalKills(games: seq<Game>): int {
    if |games| == 0 then 0 else TotalKills(games[..|games| - 1]) + games[|games| - 1].totalKills
  }

  lemma TotalKillsAppend(games: seq<Game>, g: Game)
    ensures TotalKills(games + [g]) == TotalKills(games) + g.totalKills
  {
    assert (games + [g])[..|games|] == games;
  }

  lemma {:induction false} TotalKillsUpdate(games: seq<Game>, i: nat, g: Game)
    requires i < |games|
    ensures TotalKills(games[i := g]) == TotalKills(games) - games[i].totalKills + g.totalKills
    decreases |games|
  {
    var n := |games| - 1;
    if i < n {
      assert games[i := g][..n] == games[..n][i := g];
      TotalKillsUpdate(games[..n], i, g);
    } else {
      assert games[i := g][..n] == games[..n];
    }
  }

  /** Opening games adds no kills. */
  lemma OpenForKills(games: seq<Game>, line: string)
    ensures TotalKills(OpenFor(games, line)) == TotalKills(games)
  {
    var started := if IsMatchStart(line) then StartGame(games) else games;
    TotalKillsAppend(games, EmptyGame(|games| + 1));
    TotalKillsAppend(started, EmptyGame(|started| + 1));
  }

  /** One kill line adds one kill to the total over all games; other lines add none. */
  lemma ApplyLineKills(games: seq<Game>, line: string)
    ensures ApplyLine(games, line).Success? ==>
      TotalKills(ApplyLine(games, line).value) == TotalKills(games) + (if IsKillLine(line) then 1 else 0)
  {
    OpenForKills(games, line);
    OpenForKill(games, line);
    if IsKillLine(line) && Decompose(line).Some? {
      var current := OpenFor(games, line);
      var n := |current| - 1;
      TotalKillsUpdate(current, n, ApplyKill(current[n], Decompose(line).value));
    }
  }

  /** Some line is a malformed kill line. */
  predicate HasMalformed(lines: seq<string>) {
    exists i :: 0 <= i < |lines| && Malformed(lines[i])
  }

  lemma HasMalformedCons(lines: seq<string>)
    requires |lines| > 0
    ensures HasMalformed(lines) <==> Malformed(lines[0]) || HasMalformed(lines[1..])
  {
    if HasMalformed(lines) && !Malformed(lines[0]) {
      var i :| 0 <= i < |lines| && Malformed(lines[i]);
      assert lines[1..][i - 1] == lines[i];
    }
    if HasMalformed(lines[1..]) {
      var i :| 0 <= i < |lines| - 1 && Malformed(lines[1..][i]);
      assert lines[i + 1] == lines[1..][i];
    }
  }

  /**
   * The parse fails exactly when some line is a malformed kill line, and
   * the error names the first such line.
   */
  lemma {:induction false} ParseLinesFails(games: seq<Game>, lines: seq<string>)
    ensures ParseLines(games, lines).Failure? <==> HasMalformed(lines)
    ensures ParseLines(games, lines).Failure? ==>
      exists i :: 0 <= i < |lines| && Malformed(lines[i])
        && ParseLines(games, lines).error == MissingKilledSeparator(lines[i])
        && forall j :: 0 <= j < i ==> !Malformed(lines[j])
    decreases |lines|
  {
    if |lines| > 0 {
      HasMalformedCons(lines);
      ApplyLineFails(games, lines[0]);
      if !Malformed(lines[0]) {
        var next := ApplyLine(games, lines[0]).value;
        ParseLinesFails(next, lines[1..]);
        if ParseLines(next, lines[1..]).Failure? {
          var i :| 0 <= i < |lines[1..]| && Malformed(lines[1..][i])
            && ParseLines(next, lines[1..]).error == MissingKilledSeparator(lines[1..][i])
            && forall j :: 0 <= j < i ==> !Malformed(lines[1..][j]);
          assert lines[i + 1] == lines[1..][i];
          forall j | 0 <= j < i + 1 ensures !Malformed(lines[j]) {
            if j > 0 {
              assert lines[j] == lines[1..][j - 1];
            }
          }
        }
      } else {
        assert Malformed(lines[0]);
      }
    }
  }

  /** A successful parse keeps the games numbered and valid. */
  lemma {:induction false} ParseLinesValid(games: seq<Game>, lines: seq<string>)
    requires ValidGames(games)
    ensures ParseLines(games, lines).Success? ==> ValidGames(ParseLines(games, lines).value)
    decreases |lines|
  {
    if |lines| > 0 {
      ApplyLineValid(games, lines[0]);
      if ApplyLine(games, lines[0]).Success? {
        ParseLinesValid(ApplyLine(games, lines[0]).value, lines[1..]);
      }
    }
  }

  /** The number of match-start lines. */
  function CountStarts(lines: seq<string>): nat {
    if |lines| == 0 then 0 else (if IsMatchStart(lines[0]) then 1 else 0) + CountStarts(lines[1..])
  }

  /** The number of kill lines. */
  function CountKillLines(lines: seq<string>): nat {
    if |lines| == 0 then 0 else (if IsKillLine(lines[0]) then 1 else 0) + CountKillLines(lines[1..])
  }

  /** A kill line comes before every match-start line (a line that is both counts as a start). */
  predicate KillBeforeStart(lines: seq<string>) {
    |lines| > 0 && !IsMatchStart(lines[0]) && (IsKillLine(lines[0]) || KillBeforeStart(lines[1..]))
  }

  /**
   * A successful parse opens one game per match-start line, and one more
   * when it starts with no game and meets a kill line before any start.
   */
  lemma {:induction false} ParseLinesCount(games: seq<Game>, lines: seq<string>)
    ensures ParseLines(games, lines).Success? ==>
      |ParseLines(games, lines).value|
        == |games| + CountStarts(lines) + (if |games| == 0 && KillBeforeStart(lines) then 1 else 0)
    decreases |lines|
  {
    if |lines| > 0 {
      ApplyLineCount(games, lines[0]);
      if ApplyLine(games, lines[0]).Success? {
        ParseLinesCount(ApplyLine(games, lines[0]).value, lines[1..]);
      }
    }
  }

  /** A successful parse counts every kill line once, in some game. */
  lemma {:induction false} ParseLinesKills(games: seq<Game>, lines: seq<string>)
    ensures ParseLines(games, lines).Success? ==>
      TotalKills(ParseLines(games, lines).value) == TotalKills(games) + CountKillLines(lines)
    decreases |lines|
  {
    if |lines| > 0 {
      ApplyLineKills(games, lines[0]);
      if ApplyLine(games, lines[0]).Success? {
        ParseLinesKills(ApplyLine(games, lines[0]).value, lines[1..]);
      }
    }
  }

  /** A successful parse leaves every game but the current one as it was. */
  lemma {:induction false} ParseLinesKeepsEarlier(games: seq<Game>, lines: seq<string>)
    ensures ParseLines(games, lines).Success? ==>
      var r := ParseLines(games, lines).value;
      |games| <= |r| && forall i :: 0 <= i < |games| - 1 ==> r[i] == games[i]
    decreases |lines|
  {
    if |lines| > 0 {
      ApplyLineKeepsEarlier(games, lines[0]);
      if ApplyLine(games, lines[0]).Success? {
        ParseLinesKeepsEarlier(ApplyLine(games, lines[0]).value, lines[1..]);
      }
    }
  }

  /** The events of the kill lines, in order. */
  function KillEvents(lines: seq<string>): seq<KillEvent> {
    if |lines| == 0 then []
    else
      var rest := KillEvents(lines[1..]);
      if IsKillLine(lines[0]) && Decompose(lines[0]).Some? then [Decompose(lines[0]).value] + rest else rest
  }

  /** Inside a game, a well-formed line that starts nothing applies its kill, if any, to the current game. */
  lemma ApplyLineInGame(games: seq<Game>, line: string)
    requires |games| > 0 && !IsMatchStart(line) && !Malformed(line)
    ensures ApplyLine(games, line)
         == Success(if IsKillLine(line) then KillInto(games, Decompose(line).value) else games)
  {
  }

  /** The kills of the lines are those of the first line followed by those of the rest. */
  lemma KillEventsCons(lines: seq<string>)
    requires |lines| > 0 && !Malformed(lines[0])
    ensures KillEvents(lines)
         == (if IsKillLine(lines[0]) then [Decompose(lines[0]).value] else []) + KillEvents(lines[1..])
  {
  }

  /** Applying a kill to the current game and then replaying more kills on it is replaying all of them. */
  lemma ReplayStep(games: seq<Game>, e: KillEvent, kr: seq<KillEvent>)
    requires |games| > 0
    ensures var n := |games| - 1; var next := KillInto(games, e);
      next[n := Replay(next[n], kr)] == games[n := Replay(games[n], [e] + kr)]
  {
    ReplayCons(games[|games| - 1], e, kr);
  }

  /** One well-formed line inside a game moves its kill, if any, from the pending replay into the game. */
  lemma ReplayLine(games: seq<Game>, lines: seq<string>)
    requires |games| > 0 && |lines| > 0 && !IsMatchStart(lines[0]) && !Malformed(lines[0])
    ensures ApplyLine(games, lines[0]).Success?
    ensures var next := ApplyLine(games, lines[0]).value; var n := |games| - 1;
      |next| == |games|
      && next[n := Replay(next[n], KillEvents(lines[1..]))] == games[n := Replay(games[n], KillEvents(lines))]
  {
    ApplyLineInGame(games, lines[0]);
    KillEventsCons(lines);
    if IsKillLine(lines[0]) {
      ReplayStep(games, Decompose(lines[0]).value, KillEvents(lines[1..]));
    }
  }

  /**
   * Within a game, with no start marker and no malformed line, the parse is
   * the replay of the lines' kills on the current game: the line loop and
   * the per-kill rules agree.
   */
  lemma {:induction false} ParseLinesReplay(games: seq<Game>, lines: seq<string>)
    requires |games| > 0
    requires forall i :: 0 <= i < |lines| ==> !IsMatchStart(lines[i]) && !Malformed(lines[i])
    ensures ParseLines(games, lines)
         == Success(games[|games| - 1 := Replay(games[|games| - 1], KillEvents(lines))])
    decreases |lines|
  {
    var n := |games| - 1;
    if |lines| == 0 {
      assert games[n := games[n]] == games;
    } else {
      ReplayLine(games, lines);
      var next := ApplyLine(games, lines[0]).value;
      var rest := lines[1..];
      assert forall i :: 0 <= i < |rest| ==> rest[i] == lines[i + 1];
      ParseLinesReplay(next, rest);
    }
  }
}
