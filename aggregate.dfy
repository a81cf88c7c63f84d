/**
 * The per-game aggregates the parser keeps while it reads kill lines:
 * the roster (`updatePlayers`), the signed scores (`updateKills`), the
 * kill total, and the per-method counts (`updateKillsByMethod`), each
 * as a pure update of one game record.  `findIndex` is the
 * first-match search the source uses for every lookup.
 *
 * Beside the updates stands an independent, per-player reading of the
 * rules (a player's net score is the number of others it killed minus
 * the number of times it died to the world or by its own hand) and the
 * replay lemmas that tie the running aggregates to it.
 */
module Aggregate {
  import opened LogTypes

  /** `s.findIndex(v => v == x)`: the first position holding `x`, or -1. */
  function FirstIndex<T(==)>(s: seq<T>, x: T): (i: int)
    ensures -1 <= i < |s|
    ensures i == -1 <==> x !in s
    ensures 0 <= i ==> s[i] == x && x !in s[..i]
  {
    if |s| == 0 then -1
    else if s[0] == x then 0
    else
      var j := FirstIndex(s[1..], x);
      if j == -1 then -1
      else
        assert s[..j + 1] == [s[0]] + s[1..][..j];
        j + 1
  }

  /** `s` holds no value twice. */
  predicate Distinct<T(==)>(s: seq<T>) {
    forall i, j :: 0 <= i < j < |s| ==> s[i] != s[j]
  }

  /** The first match of an appended list is the old one, or the new last position. */
  lemma {:induction false} FirstIndexAppend<T>(s: seq<T>, y: T, x: T)
    ensures FirstIndex(s + [y], x) == (if x in s then FirstIndex(s, x) else if x == y then |s| else -1)
  {
    if |s| > 0 && s[0] != x {
      assert (s + [y])[1..] == s[1..] + [y];
      FirstIndexAppend(s[1..], y, x);
    }
  }

  /** Adding a new value keeps a list distinct. */
  lemma DistinctAppend<T>(s: seq<T>, y: T)
    ensures Distinct(s) && y !in s ==> Distinct(s + [y])
  {
    if Distinct(s) && y !in s {
      forall i, j | 0 <= i < j < |s + [y]| ensures (s + [y])[i] != (s + [y])[j] {
        if j == |s| {
          assert (s + [y])[i] == s[i];
          assert s[i] in s;
        } else {
          assert (s + [y])[i] == s[i] && (s + [y])[j] == s[j];
        }
      }
    }
  }

  /**
   * `updatePlayers` on a roster: `<world>` is ignored, a name already on
   * the roster leaves it unchanged, and any other name joins at the end.
   */
  function RegisterPlayer(players: seq<string>, name: string): (r: seq<string>)
    ensures players <= r && |r| <= |players| + 1
    ensures forall p :: p in r <==> p in players || (p == name && name != World)
    ensures name == World || name in players ==> r == players
    ensures Distinct(players) ==> Distinct(r)
  {
    if name == World then players
    else if FirstIndex(players, name) == -1 then
      DistinctAppend(players, name);
      players + [name]
    else players
  }

  /** The players of a score list, in list order. */
  function Names(kills: seq<Kills>): (r: seq<string>)
    ensures |r| == |kills|
    ensures forall i :: 0 <= i < |kills| ==> r[i] == kills[i].player
  {
    seq(|kills|, i requires 0 <= i < |kills| => kills[i].player)
  }

  /** The methods of a method list, in list order. */
  function Methods(counts: seq<KillsByMethod>): (r: seq<string>)
    ensures |r| == |counts|
    ensures forall i :: 0 <= i < |counts| ==> r[i] == counts[i].killMethod
  {
    seq(|counts|, i requires 0 <= i < |counts| => counts[i].killMethod)
  }

  /** The score `kills.find(k => k.player == p)` reports, 0 when there is no entry. */
  function ScoreOf(kills: seq<Kills>, p: string): int {
    var i := FirstIndex(Names(kills), p);
    if i == -1 then 0 else kills[i].total
  }

  /** The count of `counts.find(k => k.method == m)`, 0 when there is no entry. */
  function CountOf(counts: seq<KillsByMethod>, m: string): int {
    var i := FirstIndex(Methods(counts), m);
    if i == -1 then 0 else counts[i].total
  }

  /** The change a `subtract` flag stands for. */
  function Delta(subtract: bool): int {
    if subtract then -1 else 1
  }

  /**
   * `updateKills` on a score list: the first entry of `name` moves by one
   * point down (`subtract`) or up, and a missing entry is appended with -1
   * or 1.
   */
  function AddScore(kills: seq<Kills>, name: string, subtract: bool): (r: seq<Kills>)
    ensures Names(r) == if name in Names(kills) then Names(kills) else Names(kills) + [name]
  {
    var i := FirstIndex(Names(kills), name);
    if i == -1 then
      assert Names(kills + [Kills(name, Delta(subtract))]) == Names(kills) + [name];
      kills + [Kills(name, Delta(subtract))]
    else
      var r := kills[i := Kills(kills[i].player, kills[i].total + Delta(subtract))];
      assert Names(r) == Names(kills);
      r
  }

  /** `updateKills` moves the score of `name` by one point and no other score. */
  lemma AddScoreEffect(kills: seq<Kills>, name: string, subtract: bool, p: string)
    ensures ScoreOf(AddScore(kills, name, subtract), p)
         == ScoreOf(kills, p) + (if p == name then Delta(subtract) else 0)
  {
    var r := AddScore(kills, name, subtract);
    var i := FirstIndex(Names(kills), name);
    if i == -1 {
      FirstIndexAppend(Names(kills), name, p);
      var j := FirstIndex(Names(r), p);
      if j >= 0 && j < |kills| {
        assert r[j] == kills[j];
      }
    } else {
      var j := FirstIndex(Names(kills), p);
      if j >= 0 && j != i {
        assert r[j] == kills[j];
      }
    }
  }

  /**
   * `updateKillsByMethod` on a method list: the first entry of `m` grows by
   * one and a missing entry is appended with 1.
   */
  function AddMethodKill(counts: seq<KillsByMethod>, m: string): (r: seq<KillsByMethod>)
    ensures Methods(r) == if m in Methods(counts) then Methods(counts) else Methods(counts) + [m]
  {
    var i := FirstIndex(Methods(counts), m);
    if i == -1 then
      assert Methods(counts + [KillsByMethod(m, 1)]) == Methods(counts) + [m];
      counts + [KillsByMethod(m, 1)]
    else
      var r := counts[i := KillsByMethod(counts[i].killMethod, counts[i].total + 1)];
      assert Methods(r) == Methods(counts);
      r
  }

  /** `updateKillsByMethod` adds one kill to `m` and changes no other method's count. */
  lemma AddMethodKillEffect(counts: seq<KillsByMethod>, m: string, q: string)
    ensures CountOf(AddMethodKill(counts, m), q) == CountOf(counts, q) + (if q == m then 1 else 0)
  {
    var r := AddMethodKill(counts, m);
    var i := FirstIndex(Methods(counts), m);
    if i == -1 {
      FirstIndexAppend(Methods(counts), m, q);
      var j := FirstIndex(Methods(r), q);
      if j >= 0 && j < |counts| {
        assert r[j] == counts[j];
      }
    } else {
      var j := FirstIndex(Methods(counts), q);
      if j >= 0 && j != i {
        assert r[j] == counts[j];
      }
    }
  }

  /** The sum of the counts of a method list. */
  function SumTotals(counts: seq<KillsByMethod>): int {
    if |counts| == 0 then 0 else SumTotals(counts[..|counts| - 1]) + counts[|counts| - 1].total
  }

  lemma SumAppend(counts: seq<KillsByMethod>, c: KillsByMethod)
    ensures SumTotals(counts + [c]) == SumTotals(counts) + c.total
  {
    assert (counts + [c])[..|counts|] == counts;
  }

  lemma {:induction false} SumUpdate(counts: seq<KillsByMethod>, i: nat, c: KillsByMethod)
    requires i < |counts|
    ensures SumTotals(counts[i := c]) == SumTotals(counts) - counts[i].total + c.total
    decreases |counts|
  {
    var n := |counts| - 1;
    if i < n {
      assert counts[i := c][..n] == counts[..n][i := c];
      SumUpdate(counts[..n], i, c);
    } else {
      assert counts[i := c][..n] == counts[..n];
    }
  }

  /** Every count of a method list is at least one. */
  predicate PositiveCounts(counts: seq<KillsByMethod>) {
    forall i :: 0 <= i < |counts| ==> counts[i].total >= 1
  }

  /**
   * `updateKillsByMethod` raises the sum of the counts by one and keeps
   * every count positive.
   */
  lemma AddMethodKillSum(counts: seq<KillsByMethod>, m: string)
    ensures SumTotals(AddMethodKill(counts, m)) == SumTotals(counts) + 1
    ensures PositiveCounts(counts) ==> PositiveCounts(AddMethodKill(counts, m))
  {
    var i := FirstIndex(Methods(counts), m);
    if i == -1 {
      SumAppend(counts, KillsByMethod(m, 1));
    } else {
      SumUpdate(counts, i, KillsByMethod(counts[i].killMethod, counts[i].total + 1));
    }
  }

  /** `addEmptyGame`'s record: the given id, no kills, no players, no entries. */
  function EmptyGame(id: nat): Game {
    Game(id, 0, [], [], [])
  }

  /** `updatePlayers` applied to one game. */
  function WithPlayer(g: Game, name: string): Game {
    g.(players := RegisterPlayer(g.players, name))
  }

  /** `updateKills` applied to one game. */
  function WithScore(g: Game, name: string, subtract: bool): Game {
    g.(kills := AddScore(g.kills, name, subtract))
  }

  /** The kill total of one game raised by one. */
  function WithKillCounted(g: Game): Game {
    g.(totalKills := g.totalKills + 1)
  }

  /** `updateKillsByMethod` applied to one game. */
  function WithMethodKill(g: Game, m: string): Game {
    g.(killsByMethod := AddMethodKill(g.killsByMethod, m))
  }

  /** A kill by the world or by the victim itself costs the victim a point. */
  predicate IsPenalty(e: KillEvent) {
    e.killer == World || e.killer == e.victim
  }

  /** Whose score a kill moves: the victim's on a penalty, the killer's otherwise. */
  function Scored(e: KillEvent): string {
    if IsPenalty(e) then e.victim else e.killer
  }

  /**
   * One kill line's effect on the current game: both names join the
   * roster, the score rule moves one score, the total and the method's
   * count grow by one.
   */
  function ApplyKill(g: Game, e: KillEvent): Game {
    ScoreKill(WithPlayer(g, e.killer), e)
  }

  /** The part of a kill after its killer is registered: the victim joins, then the score, total and method move. */
  function ScoreKill(g: Game, e: KillEvent): Game {
    var g1 := WithPlayer(g, e.victim);
    var g2 := WithScore(g1, Scored(e), IsPenalty(e));
    WithMethodKill(WithKillCounted(g2), e.killMethod)
  }

  /**
   * What the parser keeps true of every game: a roster without repeats and
   * without `<world>`; score entries without repeats, each for a roster
   * player or for `<world>`; method entries without repeats, each positive,
   * summing to the kill total.
   */
  predicate ValidGame(g: Game) {
    && Distinct(g.players) && World !in g.players
    && Distinct(Names(g.kills))
    && (forall i :: 0 <= i < |g.kills| ==> g.kills[i].player in g.players || g.kills[i].player == World)
    && Distinct(Methods(g.killsByMethod))
    && PositiveCounts(g.killsByMethod)
    && SumTotals(g.killsByMethod) == g.totalKills
  }

  /** A fresh game is valid. */
  lemma EmptyGameValid(id: nat)
    ensures ValidGame(EmptyGame(id))
  {
  }

  /** A name appended only when absent keeps a list of names distinct. */
  lemma NamesDistinctAfter(s: seq<string>, name: string)
    requires Distinct(s)
    ensures Distinct(if name in s then s else s + [name])
  {
    DistinctAppend(s, name);
  }

  /** The score entries after `updateKills` are old entries or the scored name. */
  lemma AddScoreNames(kills: seq<Kills>, name: string, subtract: bool, i: nat)
    requires i < |AddScore(kills, name, subtract)|
    ensures AddScore(kills, name, subtract)[i].player in Names(kills) + [name]
  {
    var r := AddScore(kills, name, subtract);
    assert Names(r)[i] == r[i].player;
    if name !in Names(kills) {
      assert Names(kills) + [name] == Names(r);
    }
    assert Names(r)[i] in Names(r);
  }

  /** Score entries for roster players (or `<world>`) stay so when the scored name is one of them. */
  lemma ScoresInRoster(kills: seq<Kills>, players: seq<string>, name: string, subtract: bool)
    requires forall i :: 0 <= i < |kills| ==> kills[i].player in players || kills[i].player == World
    requires name in players || name == World
    ensures var r := AddScore(kills, name, subtract);
      forall i :: 0 <= i < |r| ==> r[i].player in players || r[i].player == World
  {
    var r := AddScore(kills, name, subtract);
    forall i | 0 <= i < |r| ensures r[i].player in players || r[i].player == World {
      AddScoreNames(kills, name, subtract, i);
      var n := r[i].player;
      if n != name {
        var k := FirstIndex(Names(kills), n);
        assert kills[k].player == n;
      }
    }
  }

  /** Registering a name keeps a game valid. */
  lemma WithPlayerValid(g: Game, name: string)
    requires ValidGame(g)
    ensures ValidGame(WithPlayer(g, name))
    ensures name in WithPlayer(g, name).players || name == World
  {
    var g1 := WithPlayer(g, name);
    assert forall i :: 0 <= i < |g.kills| ==> g.kills[i].player in g1.players || g.kills[i].player == World;
  }

  /** Moving the score of a roster player (or `<world>`) keeps a game valid. */
  lemma WithScoreValid(g: Game, name: string, subtract: bool)
    requires ValidGame(g) && (name in g.players || name == World)
    ensures ValidGame(WithScore(g, name, subtract))
  {
    NamesDistinctAfter(Names(g.kills), name);
    ScoresInRoster(g.kills, g.players, name, subtract);
  }

  /** Counting a kill in the total and under its method keeps a game valid. */
  lemma WithMethodKillValid(g: Game, m: string)
    requires ValidGame(g)
    ensures ValidGame(WithMethodKill(WithKillCounted(g), m))
  {
    var r := WithMethodKill(WithKillCounted(g), m);
    assert r.players == g.players && r.kills == g.kills && r.totalKills == g.totalKills + 1;
    assert r.killsByMethod == AddMethodKill(g.killsByMethod, m);
    NamesDistinctAfter(Methods(g.killsByMethod), m);
    AddMethodKillSum(g.killsByMethod, m);
  }

  /** One kill keeps a game valid. */
  lemma ApplyKillValid(g: Game, e: KillEvent)
    requires ValidGame(g)
    ensures ValidGame(ApplyKill(g, e))
  {
    var g0 := WithPlayer(g, e.killer);
    var g1 := WithPlayer(g0, e.victim);
    WithPlayerValid(g, e.killer);
    WithPlayerValid(g0, e.victim);
    assert e.killer in g1.players || e.killer == World;
    WithScoreValid(g1, Scored(e), IsPenalty(e));
    WithMethodKillValid(WithScore(g1, Scored(e), IsPenalty(e)), e.killMethod);
  }

  /** One kill moves one player's score by the rule: +1 for the killer of another player, -1 for a penalised victim. */
  lemma ApplyKillScore(g: Game, e: KillEvent, p: string)
    ensures ScoreOf(ApplyKill(g, e).kills, p) == ScoreOf(g.kills, p) + EventScore(e, p)
  {
    AddScoreEffect(g.kills, Scored(e), IsPenalty(e), p);
  }

  /** One kill adds one to its method's count and leaves the other counts alone. */
  lemma ApplyKillCount(g: Game, e: KillEvent, m: string)
    ensures CountOf(ApplyKill(g, e).killsByMethod, m) == CountOf(g.killsByMethod, m) + (if e.killMethod == m then 1 else 0)
  {
    AddMethodKillEffect(g.killsByMethod, e.killMethod, m);
  }

  /** After one kill the roster holds the old players and both names, except `<world>`. */
  lemma ApplyKillRoster(g: Game, e: KillEvent, p: string)
    ensures p in ApplyKill(g, e).players <==> p in g.players || (p != World && (p == e.killer || p == e.victim))
  {
  }

  /** A kill's effect on the score of `p`, read from the point of view of `p`. */
  function EventScore(e: KillEvent, p: string): int {
    if e.killer == World || e.killer == e.victim then
      if p == e.victim then -1 else 0
    else if p == e.killer then 1
    else 0
  }

  /** The net score of `p` over a sequence of kills: kills of others minus deaths to the world or to itself. */
  function NetScore(events: seq<KillEvent>, p: string): int {
    if |events| == 0 then 0
    else NetScore(events[..|events| - 1], p) + EventScore(events[|events| - 1], p)
  }

  /** How many of the kills were done with method `m`. */
  function MethodTally(events: seq<KillEvent>, m: string): nat {
    if |events| == 0 then 0
    else MethodTally(events[..|events| - 1], m) + (if events[|events| - 1].killMethod == m then 1 else 0)
  }

  /** `p` is the killer or the victim of one of the kills. */
  predicate Mentioned(events: seq<KillEvent>, p: string) {
    exists i :: 0 <= i < |events| && (events[i].killer == p || events[i].victim == p)
  }

  /** A game after a sequence of kill lines, applied in order. */
  function Replay(g: Game, events: seq<KillEvent>): Game {
    if |events| == 0 then g
    else ApplyKill(Replay(g, events[..|events| - 1]), events[|events| - 1])
  }

  /** Replaying kills keeps the id and adds one to the kill total per kill. */
  lemma {:induction false} ReplayTotal(g: Game, events: seq<KillEvent>)
    ensures Replay(g, events).id == g.id
    ensures Replay(g, events).totalKills == g.totalKills + |events|
  {
    if |events| > 0 {
      ReplayTotal(g, events[..|events| - 1]);
    }
  }

  /** Every score after a replay is the old score plus the player's net score over the kills. */
  lemma {:induction false} ReplayScore(g: Game, events: seq<KillEvent>, p: string)
    ensures ScoreOf(Replay(g, events).kills, p) == ScoreOf(g.kills, p) + NetScore(events, p)
  {
    if |events| > 0 {
      var n := |events| - 1;
      ReplayScore(g, events[..n], p);
      ApplyKillScore(Replay(g, events[..n]), events[n], p);
    }
  }

  /** Every method count after a replay is the old count plus the number of kills with that method. */
  lemma {:induction false} ReplayCount(g: Game, events: seq<KillEvent>, m: string)
    ensures CountOf(Replay(g, events).killsByMethod, m) == CountOf(g.killsByMethod, m) + MethodTally(events, m)
  {
    if |events| > 0 {
      var n := |events| - 1;
      ReplayCount(g, events[..n], m);
      ApplyKillCount(Replay(g, events[..n]), events[n], m);
    }
  }

  /** The names of a sequence of kills are those of its prefix and of its last kill. */
  lemma MentionedLast(events: seq<KillEvent>, p: string)
    requires |events| > 0
    ensures var n := |events| - 1;
      Mentioned(events, p) <==> Mentioned(events[..n], p) || events[n].killer == p || events[n].victim == p
  {
    var n := |events| - 1;
    if Mentioned(events, p) {
      var i :| 0 <= i < |events| && (events[i].killer == p || events[i].victim == p);
      if i < n {
        assert events[..n][i] == events[i];
      }
    }
    if Mentioned(events[..n], p) {
      var i :| 0 <= i < n && (events[..n][i].killer == p || events[..n][i].victim == p);
      assert events[i] == events[..n][i];
    }
  }

  /** After a replay the roster holds exactly the old players and every name of the kills but `<world>`. */
  lemma {:induction false} ReplayRoster(g: Game, events: seq<KillEvent>, p: string)
    ensures p in Replay(g, events).players <==> p in g.players || (p != World && Mentioned(events, p))
  {
    if |events| > 0 {
      var n := |events| - 1;
      ReplayRoster(g, events[..n], p);
      ApplyKillRoster(Replay(g, events[..n]), events[n], p);
      MentionedLast(events, p);
    }
  }

  /** Replaying kills keeps a game valid. */
  lemma {:induction false} ReplayValid(g: Game, events: seq<KillEvent>)
    requires ValidGame(g)
    ensures ValidGame(Replay(g, events))
  {
    if |events| > 0 {
      var n := |events| - 1;
      ReplayValid(g, events[..n]);
      ApplyKillValid(Replay(g, events[..n]), events[n]);
    }
  }

  /**
   * A game built from scratch by kill lines: its total is the number of
   * kills, every score is the net score, every method count the tally, and
   * the roster is every name mentioned except `<world>`.
   */
  lemma GameFromKills(id: nat, events: seq<KillEvent>, p: string, m: string)
    ensures var g := Replay(EmptyGame(id), events);
      && g.id == id && g.totalKills == |events|
      && ScoreOf(g.kills, p) == NetScore(events, p)
      && CountOf(g.killsByMethod, m) == MethodTally(events, m)
      && (p in g.players <==> p != World && Mentioned(events, p))
      && ValidGame(g)
  {
    ReplayTotal(EmptyGame(id), events);
    ReplayScore(EmptyGame(id), events, p);
    ReplayCount(EmptyGame(id), events, m);
    ReplayRoster(EmptyGame(id), events, p);
    ReplayValid(EmptyGame(id), events);
  }

  /** Replaying a kill and then more kills is replaying all of them. */
  lemma {:induction false} ReplayCons(g: Game, e: KillEvent, rest: seq<KillEvent>)
    ensures Replay(g, [e] + rest) == Replay(ApplyKill(g, e), rest)
    decreases |rest|
  {
    var all := [e] + rest;
    if |rest| > 0 {
      var n := |rest| - 1;
      assert all[..|all| - 1] == [e] + rest[..n];
      assert all[|all| - 1] == rest[n];
      ReplayCons(g, e, rest[..n]);
    } else {
      assert all[..0] == [];
    }
  }
}
