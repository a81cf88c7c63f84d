/**
 * The mutable list of games `parseLog` threads through its helpers.
 * Each helper replaces the current (last) game record in place, as the
 * source reassigns `games[games.length - 1]`; `ProcessLine` is the body
 * of the line loop, calling the helpers in the source's order.
 */
module GameTable {
  import opened Wrappers
  import opened JsString
  import opened LogTypes
  import opened KillLine
  import opened Aggregate
  import opened Segmenter

  class GameList {
    var games: seq<Game>

    /** The games are numbered from 1 and each keeps the game invariant. */
    ghost predicate Valid()
      reads this
    {
      ValidGames(games)
    }

    constructor()
      ensures games == [] && Valid()
    {
      games := [];
    }

    /** `addEmptyGame`: push a game with the next id and nothing in it. */
    method AddEmptyGame()
      modifies this
      ensures games == StartGame(old(games))
      ensures old(Valid()) ==> Valid()
    {
      EmptyGameValid(|games| + 1);
      games := games + [Game(|games| + 1, 0, [], [], [])];
    }

    /** `updatePlayers`: add a name to the current roster unless it is `<world>` or already there. */
    method UpdatePlayers(playerName: string)
      requires |games| > 0
      modifies this
      ensures |games| == |old(games)|
      ensures games[..|games| - 1] == old(games)[..|games| - 1]
      ensures games[|games| - 1] == WithPlayer(old(games)[|games| - 1], playerName)
    {
      if playerName == World {
        return;
      }
      var last := games[|games| - 1];
      var playerIndex := FirstIndex(last.players, playerName);
      if playerIndex == -1 {
        games := games[|games| - 1 := last.(players := last.players + [playerName])];
      }
    }

    /** `updateKills`: move the current score of a player one point down or up, adding the entry if needed. */
    method UpdateKills(playerName: string, subtract: bool)
      requires |games| > 0
      modifies this
      ensures |games| == |old(games)|
      ensures games[..|games| - 1] == old(games)[..|games| - 1]
      ensures games[|games| - 1] == WithScore(old(games)[|games| - 1], playerName, subtract)
    {
      var last := games[|games| - 1];
      var killsIndex := FirstIndex(Names(last.kills), playerName);
      var kills := last.kills;
      if killsIndex == -1 {
        kills := kills + [Kills(playerName, if subtract then -1 else 1)];
      } else {
        var entry := kills[killsIndex];
        kills := kills[killsIndex := entry.(total := if subtract then entry.total - 1 else entry.total + 1)];
      }
      games := games[|games| - 1 := last.(kills := kills)];
    }

    /** The kill total of the current game raised by one. */
    method CountKill()
      requires |games| > 0
      modifies this
      ensures |games| == |old(games)|
      ensures games[..|games| - 1] == old(games)[..|games| - 1]
      ensures games[|games| - 1] == WithKillCounted(old(games)[|games| - 1])
    {
      var last := games[|games| - 1];
      games := games[|games| - 1 := last.(totalKills := last.totalKills + 1)];
    }

    /** `updateKillsByMethod`: count one more kill for a method, adding the entry with 1 if needed. */
    method UpdateKillsByMethod(killMethod: string)
      requires |games| > 0
      modifies this
      ensures |games| == |old(games)|
      ensures games[..|games| - 1] == old(games)[..|games| - 1]
      ensures games[|games| - 1] == WithMethodKill(old(games)[|games| - 1], killMethod)
    {
      var last := games[|games| - 1];
      var index := FirstIndex(Methods(last.killsByMethod), killMethod);
      var killsByMethod := last.killsByMethod;
      if index == -1 {
        killsByMethod := killsByMethod + [KillsByMethod(killMethod, 1)];
      } else {
        var entry := killsByMethod[index];
        killsByMethod := killsByMethod[index := entry.(total := entry.total + 1)];
      }
      assert killsByMethod == AddMethodKill(last.killsByMethod, killMethod);
      games := games[|games| - 1 := last.(killsByMethod := killsByMethod)];
    }

    /**
     * The rest of a kill once its killer is registered: register the
     * victim, move the score the rule picks, count the kill in the total
     * and under its method.
     */
    method RecordKill(e: KillEvent)
      requires |games| > 0
      modifies this
      ensures |games| == |old(games)|
      ensures games[..|games| - 1] == old(games)[..|games| - 1]
      ensures games[|games| - 1] == ScoreKill(old(games)[|games| - 1], e)
    {
      ghost var g := games[|games| - 1];
      UpdatePlayers(e.victim);
      g := WithPlayer(g, e.victim);
      if IsPenalty(e) {
        UpdateKills(e.victim, true);
      } else {
        UpdateKills(e.killer, false);
      }
      g := WithScore(g, Scored(e), IsPenalty(e));
      CountKill();
      g := WithKillCounted(g);
      UpdateKillsByMethod(e.killMethod);
    }

    /**
     * The kill part of a line, on the current game: register the killer;
     * when the line has no ` killed ` stop there, as the source throws;
     * otherwise take the victim and the method and record the kill.
     */
    method ProcessKill(line: string, ghost before: seq<Game>) returns (ok: bool)
      requires IsKillLine(line) && |games| > 0 && games == OpenFor(before, line)
      modifies this
      ensures ok == KilledParts(line).1.Some?
      ensures ok ==> games == KillInto(old(games),
        KillEvent(KillerOf(KilledParts(line).0), VictimOf(KilledParts(line).1.value), MethodOf(line)))
      ensures !ok ==> games == StoppedAt(before, line)
    {
      ghost var current := games;
      ghost var n := |current| - 1;
      var parsedItem := KilledParts(line);
      var player1 := KillerOf(parsedItem.0);
      UpdatePlayers(player1);
      if parsedItem.1.None? {
        StoppedAtParts(before, line, current, games);
        return false;
      }
      var player2 := VictimOf(parsedItem.1.value);
      var killMethod := MethodOf(line);
      var e := KillEvent(player1, player2, killMethod);
      RecordKill(e);
      ReplacedLast(current, games, ApplyKill(current[n], e));
      ok := true;
    }

    /**
     * One line of the log.  It succeeds exactly when the pure step does and
     * then leaves the games that step computes; on a kill line without the
     * ` killed ` separator it stops after registering the killer, where the
     * source throws.
     */
    method ProcessLine(line: string) returns (ok: bool)
      requires Valid()
      modifies this
      ensures ok == ApplyLine(old(games), line).Success?
      ensures ok ==> games == ApplyLine(old(games), line).value && Valid()
      ensures !ok ==> IsKillLine(line) && games == StoppedAt(old(games), line)
    {
      ghost var before := games;
      if IsMatchStart(line) {
        AddEmptyGame();
      }
      if !IsKillLine(line) {
        ApplyLineQuiet(before, line);
        return true;
      }
      if |games| == 0 {
        AddEmptyGame();
      }
      ghost var current := games;
      assert current == OpenFor(before, line);
      ok := ProcessKill(line, before);
      if ok {
        KillIntoValid(current, KillEvent(KillerOf(KilledParts(line).0), VictimOf(KilledParts(line).1.value), MethodOf(line)));
        ApplyLineKill(before, line);
      } else {
        ApplyLineStops(before, line);
      }
    }
  }
}
