/**
 * `buildLogSummary`: the two views of the parsed games.  A rendered JSON
 * object is kept as its key/value entries in key order; the text that
 * `JSON.stringify` would make of it is not modelled.
 */
module Summary {
  import opened Wrappers
  import opened JsString
  import opened LogTypes
  import opened Aggregate
  import opened Segmenter

  /** The keys of an object, in order. */
  function Keys(obj: seq<Entry>): (r: seq<string>)
    ensures |r| == |obj|
    ensures forall i :: 0 <= i < |obj| ==> r[i] == obj[i].key
  {
    seq(|obj|, i requires 0 <= i < |obj| => obj[i].key)
  }

  /** The value an object holds under a key, if it has that key. */
  function Lookup(obj: seq<Entry>, key: string): Option<int> {
    var i := FirstIndex(Keys(obj), key);
    if i == -1 then None else Some(obj[i].value)
  }

  /**
   * `{ ...obj, [key]: value }`: a key already present keeps its place and
   * takes the new value; a new key goes last.
   */
  function ObjectPut(obj: seq<Entry>, key: string, value: int): (r: seq<Entry>)
    ensures Keys(r) == if key in Keys(obj) then Keys(obj) else Keys(obj) + [key]
  {
    var i := FirstIndex(Keys(obj), key);
    if i == -1 then
      assert Keys(obj + [Entry(key, value)]) == Keys(obj) + [key];
      obj + [Entry(key, value)]
    else
      var r := obj[i := Entry(key, value)];
      assert Keys(r) == Keys(obj);
      r
  }

  /** After the put, the key holds the new value and every other key its old one. */
  lemma ObjectPutLookup(obj: seq<Entry>, key: string, value: int, k: string)
    ensures Lookup(ObjectPut(obj, key, value), k) == if k == key then Some(value) else Lookup(obj, k)
  {
    var r := ObjectPut(obj, key, value);
    var i := FirstIndex(Keys(obj), key);
    if i == -1 {
      FirstIndexAppend(Keys(obj), key, k);
      var j := FirstIndex(Keys(r), k);
      if j >= 0 && j < |obj| {
        assert r[j] == obj[j];
      }
    } else {
      var j := FirstIndex(Keys(obj), k);
      if j >= 0 && j != i {
        assert r[j] == obj[j];
      }
    }
  }

  /**
   * `entries.reduce((acc, e) => ({ ...acc, [e.key]: e.value }), {})`: the
   * object built by putting the entries one after another.  Its keys never
   * repeat and are exactly the keys of the entries.
   */
  function ObjectOf(entries: seq<Entry>): (obj: seq<Entry>)
    ensures Distinct(Keys(obj))
    ensures forall k :: k in Keys(obj) <==> k in Keys(entries)
  {
    if |entries| == 0 then []
    else
      var front := entries[..|entries| - 1];
      var e := entries[|entries| - 1];
      var obj := ObjectOf(front);
      assert Keys(entries) == Keys(front) + [e.key];
      DistinctAppend(Keys(obj), e.key);
      ObjectPut(obj, e.key, e.value)
  }

  /** The value of the last entry with a key: the one a sequence of puts leaves behind. */
  function LastValue(entries: seq<Entry>, k: string): Option<int> {
    if |entries| == 0 then None
    else if entries[|entries| - 1].key == k then Some(entries[|entries| - 1].value)
    else LastValue(entries[..|entries| - 1], k)
  }

  /** Building an object keeps, for every key, the value of its last entry. */
  lemma {:induction false} ObjectOfLookup(entries: seq<Entry>, k: string)
    ensures Lookup(ObjectOf(entries), k) == LastValue(entries, k)
  {
    if |entries| > 0 {
      var front := entries[..|entries| - 1];
      var e := entries[|entries| - 1];
      ObjectOfLookup(front, k);
      ObjectPutLookup(ObjectOf(front), e.key, e.value, k);
    }
  }

  /** Without repeats, the front of a list has none either and does not hold its last element. */
  lemma DistinctFront<T>(s: seq<T>)
    requires |s| > 0 && Distinct(s)
    ensures Distinct(s[..|s| - 1]) && s[|s| - 1] !in s[..|s| - 1]
  {
    var front := s[..|s| - 1];
    forall i | 0 <= i < |front| ensures front[i] != s[|s| - 1] {
      assert front[i] == s[i];
    }
  }

  /** Entries whose keys are all different build an object equal to themselves, in their order. */
  lemma {:induction false} ObjectOfDistinct(entries: seq<Entry>)
    requires Distinct(Keys(entries))
    ensures ObjectOf(entries) == entries
  {
    if |entries| > 0 {
      var front := entries[..|entries| - 1];
      var e := entries[|entries| - 1];
      assert Keys(front) == Keys(entries)[..|entries| - 1];
      DistinctFront(Keys(entries));
      ObjectOfDistinct(front);
      assert entries == front + [e];
    }
  }

  /** A score list read as entries: `[kill.player]: kill.total`. */
  function KillEntries(kills: seq<Kills>): (r: seq<Entry>)
    ensures |r| == |kills|
    ensures forall i :: 0 <= i < |kills| ==> r[i] == Entry(kills[i].player, kills[i].total)
  {
    seq(|kills|, i requires 0 <= i < |kills| => Entry(kills[i].player, kills[i].total))
  }

  /** A method list read as entries: `[killByMethod.method]: killByMethod.total`. */
  function MethodEntries(counts: seq<KillsByMethod>): (r: seq<Entry>)
    ensures |r| == |counts|
    ensures forall i :: 0 <= i < |counts| ==> r[i] == Entry(counts[i].killMethod, counts[i].total)
  {
    seq(|counts|, i requires 0 <= i < |counts| => Entry(counts[i].killMethod, counts[i].total))
  }

  /** The object key of a game in a view: the view's prefix followed by the decimal id. */
  function GameKey(prefix: string, id: nat): string {
    prefix + NatToString(id)
  }

  /** The `game_<id>` record of one game. */
  function StandardBlockOf(g: Game): StandardBlock {
    StandardBlock(GameKey("game_", g.id), g.totalKills, g.players, ObjectOf(KillEntries(g.kills)))
  }

  /** The `game-<id>` record of one game. */
  function MethodBlockOf(g: Game): MethodBlock {
    MethodBlock(GameKey("game-", g.id), ObjectOf(MethodEntries(g.killsByMethod)))
  }

  /** The standard view: one `game_<id>` record per game, in game order. */
  function StandardView(games: seq<Game>): (r: seq<StandardBlock>)
    ensures |r| == |games|
  {
    if |games| == 0 then [] else StandardView(games[..|games| - 1]) + [StandardBlockOf(games[|games| - 1])]
  }

  /** The by-method view: one `game-<id>` record per game, in game order. */
  function MethodView(games: seq<Game>): (r: seq<MethodBlock>)
    ensures |r| == |games|
  {
    if |games| == 0 then [] else MethodView(games[..|games| - 1]) + [MethodBlockOf(games[|games| - 1])]
  }

  /** Both views of a list of games. */
  function Summarize(games: seq<Game>): Log {
    Log(Some(StandardView(games)), Some(MethodView(games)))
  }

  /** The record at each position of a view is the record of the game at that position. */
  lemma {:induction false} ViewsAt(games: seq<Game>, i: nat)
    requires i < |games|
    ensures StandardView(games)[i] == StandardBlockOf(games[i])
    ensures MethodView(games)[i] == MethodBlockOf(games[i])
  {
    if i < |games| - 1 {
      var front := games[..|games| - 1];
      ViewsAt(front, i);
    }
  }

  /** `buildLogSummary`: walk the games once, pushing one record to each view. */
  method BuildLogSummary(games: seq<Game>) returns (log: Log)
    ensures log == Summarize(games)
  {
    var summaries: seq<StandardBlock> := [];
    var killsByMethod: seq<MethodBlock> := [];
    var i := 0;
    while i < |games|
      invariant 0 <= i <= |games|
      invariant summaries == StandardView(games[..i])
      invariant killsByMethod == MethodView(games[..i])
    {
      assert games[..i + 1][..i] == games[..i];
      summaries := summaries + [StandardBlockOf(games[i])];
      killsByMethod := killsByMethod + [MethodBlockOf(games[i])];
      i := i + 1;
    }
    assert games[..i] == games;
    log := Log(Some(summaries), Some(killsByMethod));
  }

  /** A key names its view and its game: the prefix, then digits that read back as the id. */
  lemma GameKeyRoundTrip(prefix: string, id: nat)
    ensures var key := GameKey(prefix, id);
      && |key| > |prefix| && key[..|prefix|] == prefix
      && AllDigits(key[|prefix|..]) && DigitsValue(key[|prefix|..]) == id
  {
    var key := GameKey(prefix, id);
    assert key[|prefix|..] == NatToString(id);
  }

  /** Two games with different ids never share a key. */
  lemma GameKeyInjective(prefix: string, a: nat, b: nat)
    ensures GameKey(prefix, a) == GameKey(prefix, b) <==> a == b
  {
    if GameKey(prefix, a) == GameKey(prefix, b) {
      GameKeyRoundTrip(prefix, a);
      GameKeyRoundTrip(prefix, b);
    }
  }

  /** A score list without repeated names renders as itself, each player reading its score. */
  lemma ScoresObject(kills: seq<Kills>)
    requires Distinct(Names(kills))
    ensures ObjectOf(KillEntries(kills)) == KillEntries(kills)
    ensures forall p :: Lookup(KillEntries(kills), p) == if p in Names(kills) then Some(ScoreOf(kills, p)) else None
  {
    assert Keys(KillEntries(kills)) == Names(kills);
    ObjectOfDistinct(KillEntries(kills));
  }

  /** A method list without repeated methods renders as itself, each method reading its count. */
  lemma CountsObject(counts: seq<KillsByMethod>)
    requires Distinct(Methods(counts))
    ensures ObjectOf(MethodEntries(counts)) == MethodEntries(counts)
    ensures forall m :: Lookup(MethodEntries(counts), m) == if m in Methods(counts) then Some(CountOf(counts, m)) else None
  {
    assert Keys(MethodEntries(counts)) == Methods(counts);
    ObjectOfDistinct(MethodEntries(counts));
  }

  /**
   * The records of a parsed game: its score and method objects are its
   * score and method lists in their order, so every player and method
   * reads the value the parser counted.
   */
  lemma BlocksOfValid(g: Game)
    requires ValidGame(g)
    ensures StandardBlockOf(g).kills == KillEntries(g.kills)
    ensures MethodBlockOf(g).killsByMeans == MethodEntries(g.killsByMethod)
    ensures forall p :: Lookup(StandardBlockOf(g).kills, p)
                     == if p in Names(g.kills) then Some(ScoreOf(g.kills, p)) else None
    ensures forall m :: Lookup(MethodBlockOf(g).killsByMeans, m)
                     == if m in Methods(g.killsByMethod) then Some(CountOf(g.killsByMethod, m)) else None
  {
    ScoresObject(g.kills);
    CountsObject(g.killsByMethod);
  }

  /**
   * The summary of numbered games: one record per game in each view, in
   * game order, keyed `game_<n>` and `game-<n>` for the n-th game, with
   * the game's total and roster.
   */
  lemma SummarizeShape(games: seq<Game>)
    requires ValidGames(games)
    ensures var log := Summarize(games);
      && log.standard.Some? && log.byKillMethod.Some?
      && |log.standard.value| == |games| && |log.byKillMethod.value| == |games|
      && (forall i :: 0 <= i < |games| ==>
        && log.standard.value[i].key == GameKey("game_", i + 1)
        && log.byKillMethod.value[i].key == GameKey("game-", i + 1)
        && log.standard.value[i].totalKills == games[i].totalKills
        && log.standard.value[i].players == games[i].players)
  {
    forall i | 0 <= i < |games|
      ensures StandardView(games)[i] == StandardBlockOf(games[i])
      ensures MethodView(games)[i] == MethodBlockOf(games[i])
    {
      ViewsAt(games, i);
    }
  }

  /** Games with different ids get different keys in a view. */
  lemma GameKeysDiffer(prefix: string, a: nat, b: nat)
    requires a != b
    ensures GameKey(prefix, a) != GameKey(prefix, b)
  {
    GameKeyInjective(prefix, a, b);
  }

  /** The keys of the standard view of numbered games are all different. */
  lemma StandardKeysDistinct(games: seq<Game>)
    requires ValidGames(games)
    ensures forall i, j :: 0 <= i < j < |games| ==> StandardView(games)[i].key != StandardView(games)[j].key
  {
    forall i, j | 0 <= i < j < |games|
      ensures StandardView(games)[i].key != StandardView(games)[j].key
    {
      ViewsAt(games, i);
      ViewsAt(games, j);
      GameKeysDiffer("game_", games[i].id, games[j].id);
    }
  }

  /** The keys of the by-method view of numbered games are all different. */
  lemma MethodKeysDistinct(games: seq<Game>)
    requires ValidGames(games)
    ensures forall i, j :: 0 <= i < j < |games| ==> MethodView(games)[i].key != MethodView(games)[j].key
  {
    forall i, j | 0 <= i < j < |games|
      ensures MethodView(games)[i].key != MethodView(games)[j].key
    {
      ViewsAt(games, i);
      ViewsAt(games, j);
      GameKeysDiffer("game-", games[i].id, games[j].id);
    }
  }

  /** The kill totals a view reports, added up. */
  function ReportedKills(view: seq<StandardBlock>): int {
    if |view| == 0 then 0 else ReportedKills(view[..|view| - 1]) + view[|view| - 1].totalKills
  }

  /** The standard view reports the kill totals of the games, neither more nor fewer. */
  lemma {:induction false} ReportedKillsTotal(games: seq<Game>)
    ensures ReportedKills(StandardView(games)) == TotalKills(games)
  {
    if |games| > 0 {
      var front := games[..|games| - 1];
      var view := StandardView(games);
      assert view[..|view| - 1] == StandardView(front);
      ReportedKillsTotal(front);
    }
  }
}
