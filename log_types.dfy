/**
 * The records of the log parser: a game's running aggregates and the
 * two rendered views.  The kill method is a plain string, because the
 * parser only casts the trailing token of a line to its method type and
 * never checks it against the list of known methods.
 */
module LogTypes {
  import opened Wrappers

  /** The killer name the server uses for environmental deaths; it never joins a roster. */
  const World := "<world>"

  /** One entry of a game's score list: a player and its signed score. */
  datatype Kills = Kills(player: string, total: int)

  /** One entry of a game's method list: a kill method and how often it killed. */
  datatype KillsByMethod = KillsByMethod(killMethod: string, total: int)

  /** A game (match): its 1-based id, kill total, roster, scores and method counts. */
  datatype Game = Game(
    id: nat,
    totalKills: int,
    players: seq<string>,
    kills: seq<Kills>,
    killsByMethod: seq<KillsByMethod>)

  /** The (killer, victim, method) triple taken from one kill line. */
  datatype KillEvent = KillEvent(killer: string, victim: string, killMethod: string)

  /** One key/value pair of a rendered object, in the object's key order. */
  datatype Entry = Entry(key: string, value: int)

  /** The `game_<id>` record of the standard view. */
  datatype StandardBlock = StandardBlock(
    key: string,
    totalKills: int,
    players: seq<string>,
    kills: seq<Entry>)

  /** The `game-<id>` record of the by-method view. */
  datatype MethodBlock = MethodBlock(key: string, killsByMeans: seq<Entry>)

  /** The parse result: both views absent, or both present. */
  datatype Log = Log(standard: Option<seq<StandardBlock>>, byKillMethod: Option<seq<MethodBlock>>)

  /** Why a parse stops: a kill line without the " killed " separator. */
  datatype ParseError = MissingKilledSeparator(line: string)
}
