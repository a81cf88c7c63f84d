/**
 * `parseLog`: split the content into lines, run every line through the
 * game list and summarise the games.  `LogOf` is the same parse as one
 * value, and the lemmas below say what it promises about any content.
 */
module LogParser {
  import opened Wrappers
  import opened JsString
  import opened LogTypes
  import opened KillLine
  import opened Aggregate
  import opened Segmenter
  import opened GameTable
  import opened Summary

  /** The lines of the content: the pieces between line breaks. */
  function Lines(content: string): seq<string> {
    Split(content, "\n")
  }

  /**
   * The parse of a whole log: no views for empty content; otherwise the
   * lines applied to an empty game list, summarised, or the error of the
   * line the parse stopped at.
   */
  function LogOf(content: string): Result<Log, ParseError> {
    if |content| == 0 then Success(Log(None, None))
    else
      match ParseLines([], Lines(content))
      case Failure(err) => Failure(err)
      case Success(games) => Success(Summarize(games))
  }

  /** `parseLog`: one pass over the lines with a game list, then the summary. */
  method ParseLog(content: string) returns (r: Result<Log, ParseError>)
    ensures r == LogOf(content)
  {
    if |content| == 0 {
      return Success(Log(None, None));
    }
    var splitContent := Split(content, "\n");
    var table := new GameList();
    var i := 0;
    while i < |splitContent|
      invariant 0 <= i <= |splitContent|
      invariant table.Valid()
      invariant ParseLines([], splitContent) == ParseLines(table.games, splitContent[i..])
    {
      assert splitContent[i..][0] == splitContent[i] && splitContent[i..][1..] == splitContent[i + 1..];
      ghost var before := table.games;
      var ok := table.ProcessLine(splitContent[i]);
      if !ok {
        ApplyLineFails(before, splitContent[i]);
        return Failure(MissingKilledSeparator(splitContent[i]));
      }
      i := i + 1;
    }
    var log := BuildLogSummary(table.games);
    r := Success(log);
  }

  /** Split always yields at least one line, so content without a line break is a single line. */
  lemma LinesNonEmpty(content: string)
    ensures |Lines(content)| >= 1
    ensures !Contains(content, "\n") ==> Lines(content) == [content]
  {
    SplitHeadFacts(content, "\n");
  }

  /**
   * Empty content gives neither view; any other content that parses gives
   * both, with one record per game in each.
   */
  lemma LogOfViews(content: string)
    ensures LogOf(content).Success? ==>
      var log := LogOf(content).value;
      && (log.standard.None? <==> |content| == 0)
      && (log.byKillMethod.None? <==> |content| == 0)
      && (log.standard.Some? ==> |log.standard.value| == |log.byKillMethod.value|)
  {
  }

  /**
   * The parse fails exactly when the content has a kill line without the
   * ` killed ` separator, and the error names the first such line.
   */
  lemma LogOfFails(content: string)
    ensures LogOf(content).Failure? <==> |content| > 0 && HasMalformed(Lines(content))
    ensures LogOf(content).Failure? ==>
      var lines := Lines(content);
      exists i :: 0 <= i < |lines| && Malformed(lines[i])
        && LogOf(content).error == MissingKilledSeparator(lines[i])
        && forall j :: 0 <= j < i ==> !Malformed(lines[j])
  {
    ParseLinesFails([], Lines(content));
  }

  /**
   * A parsed log has one game per match-start line, plus one when a kill
   * line comes before the first start; the games are numbered from 1 and
   * their keys in each view all differ.
   */
  lemma LogOfGames(content: string)
    requires |content| > 0 && LogOf(content).Success?
    ensures var lines := Lines(content);
      var view := LogOf(content).value.standard.value;
      && |view| == CountStarts(lines) + (if KillBeforeStart(lines) then 1 else 0)
      && (forall i :: 0 <= i < |view| ==> view[i].key == GameKey("game_", i + 1))
      && (forall i, j :: 0 <= i < j < |view| ==> view[i].key != view[j].key)
  {
    var games := ParseLines([], Lines(content)).value;
    ParseLinesCount([], Lines(content));
    ParseLinesValid([], Lines(content));
    SummarizeShape(games);
    StandardKeysDistinct(games);
  }

  /** A parsed log reports every kill line exactly once among its games' totals. */
  lemma LogOfKills(content: string)
    requires |content| > 0 && LogOf(content).Success?
    ensures ReportedKills(LogOf(content).value.standard.value) == CountKillLines(Lines(content))
  {
    var games := ParseLines([], Lines(content)).value;
    ParseLinesKills([], Lines(content));
    ReportedKillsTotal(games);
  }

  /**
   * In a parsed log every score entry is for a roster player or for
   * `<world>`, no roster holds `<world>`, and a game's score object reads,
   * for each player, the score the parser counted.
   */
  lemma LogOfScores(content: string, i: nat)
    requires |content| > 0 && LogOf(content).Success?
    requires i < |LogOf(content).value.standard.value|
    ensures var games := ParseLines([], Lines(content)).value;
      var block := LogOf(content).value.standard.value[i];
      && i < |games|
      && World !in block.players
      && Distinct(block.players)
      && (forall p :: Lookup(block.kills, p)
                   == if p in Names(games[i].kills) then Some(ScoreOf(games[i].kills, p)) else None)
      && (forall p :: p in Names(games[i].kills) ==> p in block.players || p == World)
  {
    var games := ParseLines([], Lines(content)).value;
    ParseLinesValid([], Lines(content));
    ViewsAt(games, i);
    BlocksOfValid(games[i]);
  }
}
