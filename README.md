# Quake 3 Arena log parser — a Dafny model

This project models `parseLog`, the function at the centre of the
quake-log-parser web application. It takes the text of a Quake 3 Arena
server log and returns two lists of per-game reports:

- a *standard* report per game: its total kill count, the players, and each
  player's score;
- a *by kill method* report per game: how many kills each method of death
  caused.

The parser works line by line:

- A line containing `0:00 -` opens a new game.
- A line matching `\d+:\d{2} Kill: .*` is a kill line. The parser splits it on
  ` killed `. The killer is the left part from the second character after
  its third colon on, whatever the character skipped, and empty when the
  left part has fewer than three colons. The victim is the right part up to
  its last ` by`, and empty when there is none. The method is the text
  after the last space of the whole line, so a line ending in a space has
  the empty method.
- Both names join the current game's roster; `<world>` never does.
- A normal kill gives the killer one point. A kill by `<world>`, or a
  suicide, takes one point from the victim.
- Every kill raises the game's kill total by one, and the count of its method.
- A kill line seen before any game has started opens game 1.
- Empty content gives a log with neither report.

The modules follow the structure of `log_parser.ts`:

| module | file | what it holds |
|---|---|---|
| `Wrappers` | wrappers.dfy | `Option` and `Result` |
| `LogTypes` | log_types.dfy | the records of `types.ts` (`Kills`, `KillsByMethod`, `Game`, `Log`), the kill event and the parse error |
| `JsString` | js_string.dfy | the JavaScript string builtins the parser uses (`includes`, `indexOf`, `lastIndexOf`, `substring` with its clamping, `split` with and without a limit, `join`, number-to-text), with their properties |
| `KillLine` | kill_line.dfy | how a line is classified and taken apart (lines 20-66) |
| `Aggregate` | aggregate.dfy | the per-game bookkeeping of `updatePlayers`, `updateKills` and `updateKillsByMethod` as pure functions on a game; the game invariant; the reference fold `Replay` over a game's kills |
| `Segmenter` | segmenter.dfy | the effect of one line on the game list (`ApplyLine`, the body of the `forEach`) and of all lines (`ParseLines`), with what they promise |
| `GameTable` | game_table.dfy | class `GameList`, the mutable `games` array, with the helpers as methods that reassign it and `ProcessLine`, the loop body |
| `Summary` | summary.dfy | `buildLogSummary`: object spreading as ordered entry lists, the two views and their keys |
| `LogParser` | log_parser.dfy | the method `ParseLog`, the function `LogOf` it is proved equal to, and the end-to-end properties of `LogOf` |

The imperative parts keep their loops: `ParseLog` runs a `while` loop
over the lines against a `GameList`, as the source runs `forEach`.
`BuildLogSummary` runs a loop over the games. Both are proved equal to
pure functions (`LogOf`, `Summarize`), and lemmas prove what those
functions promise.

Two behaviours of the code are worth stating plainly, and the model keeps
both:

- `parseLog` does not skip a kill line that lacks ` killed `: then
  `parsedItem[1]` is `undefined` and `parsedItem[1].substring` throws
  (lines 48 and 57). The model gives the whole parse a
  `Failure(MissingKilledSeparator(line))` for the first such line.
  `StoppedAt` describes the game list at the moment of the throw: the killer
  has already been registered (line 55).
- The kill pattern has no anchors, so `test` matches it anywhere in the line
  (line 20). `KillLine.IsKillLine` looks for a match at any position.

## Model

| member | source | states |
|---|---|---|
| JsString.ContainsIff | src/util/log_parser/log_parser.ts:30 | `includes` holds exactly when the substring occurs at some position |
| JsString.LastIndexOfMissing | src/util/log_parser/log_parser.ts:59 | `lastIndexOf` is -1 exactly when the substring does not occur |
| JsString.LastIndexOfLast | src/util/log_parser/log_parser.ts:59-64 | every occurrence starts at or before the index `lastIndexOf` returns |
| JsString.NoneAfterLast | src/util/log_parser/log_parser.ts:59-64 | nothing occurs after the index `lastIndexOf` returns |
| JsString.Substring | src/util/log_parser/log_parser.ts:51-66 | `substring` is the slice when its bounds are in range, and empty when both bounds are past the end or both are at most zero |
| JsString.SplitJoin | src/util/log_parser/log_parser.ts:23-48 | joining the pieces of a split with its separator restores the string |
| JsString.SplitPartsFree | src/util/log_parser/log_parser.ts:48 | no piece of a split contains the separator |
| JsString.SplitHeadFacts | src/util/log_parser/log_parser.ts:48 | a split has at least two pieces exactly when the separator occurs; then the first two pieces and the separator form a prefix of the string; with one piece, that piece is the string |
| JsString.SplitCount | src/util/log_parser/log_parser.ts:23 | splitting on a character gives one more piece than the character's occurrences |
| KillLine.MarkerAnywhere | src/util/log_parser/log_parser.ts:30 | any line with `0:00 -` in it, anywhere, opens a game |
| KillLine.KillLineMatchesPattern | src/util/log_parser/log_parser.ts:20-35 | a line is a kill line exactly when, at some position, it has one or more digits, a colon, two digits and ` Kill: ` (the unanchored regular expression) |
| KillLine.DocumentedIsKillLine | src/util/log_parser/log_parser.ts:20-47 | any line that begins with the documented prefix `2:22 Kill: 3 2 10` is a kill line |
| KillLine.KilledParts | src/util/log_parser/log_parser.ts:48 | the right part of the split on ` killed ` is missing exactly when the separator is absent, and the left part is then the whole line |
| KillLine.KilledPartsFree | src/util/log_parser/log_parser.ts:48 | neither part contains ` killed `, and left part, separator and right part form a prefix of the line |
| KillLine.KillerOfFewColons | src/util/log_parser/log_parser.ts:50-54 | with fewer than three colons the killer is empty (the limit-3 split rejoins the whole left part) |
| KillLine.KillerAfterThirdColon | src/util/log_parser/log_parser.ts:50-54 | with the third colon at index t, the killer is everything from t + 2 on, or empty when that runs past the end |
| KillLine.KillerOfShape | src/util/log_parser/log_parser.ts:50-54 | after a prefix with exactly two colons, the killer in `prefix: k` is exactly `k` |
| KillLine.VictimOfFacts | src/util/log_parser/log_parser.ts:57-60 | with no ` by` the victim is empty; otherwise it is the prefix of the right part that ends at the last ` by` |
| KillLine.VictimOfShape | src/util/log_parser/log_parser.ts:57-60 | in `v by w`, when `w` has no ` by`, the victim is `v` |
| KillLine.MethodOfFacts | src/util/log_parser/log_parser.ts:63-66 | the method is the suffix of the line after its last space, and holds no space |
| KillLine.MethodOfShape | src/util/log_parser/log_parser.ts:63-66 | in `p m`, when `m` has no space, the method is `m` |
| KillLine.KilledPartsShape | src/util/log_parser/log_parser.ts:48 | `a killed v` splits into `a` and `v` when no ` killed ` starts inside `a` and `v` has none |
| KillLine.Decompose | src/util/log_parser/log_parser.ts:48-66 | a kill event is read off exactly when the line contains ` killed ` |
| KillLine.DecomposeShape | src/util/log_parser/log_parser.ts:47-66 | a line shaped like the documented one reads back as the killer, victim and method it was built from |
| KillLine.DocumentedLine | src/util/log_parser/log_parser.ts:47 | the documented example line `2:22 Kill: 3 2 10: Isgalamido killed Dono da Bola by MOD_RAILGUN` decomposes to killer `Isgalamido`, victim `Dono da Bola` and method `MOD_RAILGUN` |
| Aggregate.FirstIndex | src/util/log_parser/log_parser.ts:113-115 | `findIndex` gives -1 exactly when the value is absent, and otherwise its first position |
| Aggregate.RegisterPlayer | src/util/log_parser/log_parser.ts:109-120 | the roster gains the name unless it is `<world>` or already listed, keeps its order, and stays free of duplicates |
| Aggregate.AddScore | src/util/log_parser/log_parser.ts:128-150 | the names in the score list are unchanged, or gain the new name at the end |
| Aggregate.AddScoreEffect | src/util/log_parser/log_parser.ts:128-150 | the named player's score moves by one, down when subtracting and up otherwise; every other score stays |
| Aggregate.AddMethodKill | src/util/log_parser/log_parser.ts:159-179 | the methods in the count list are unchanged, or gain the new method at the end |
| Aggregate.AddMethodKillEffect | src/util/log_parser/log_parser.ts:159-179 | the method's count rises by one (from 0 when new); every other count stays |
| Aggregate.AddMethodKillSum | src/util/log_parser/log_parser.ts:159-179 | the counts sum to one more, and stay positive |
| Aggregate.EmptyGameValid | src/util/log_parser/log_parser.ts:95-103 | a new empty game keeps the game invariant |
| Aggregate.WithPlayerValid | src/util/log_parser/log_parser.ts:109-120 | registering a name keeps the game invariant, and afterwards the name is listed unless it is `<world>` |
| Aggregate.ApplyKillValid | src/util/log_parser/log_parser.ts:55-85 | one kill keeps the game invariant: distinct roster without `<world>`, distinct score and method entries, every scored player listed or `<world>`, positive counts summing to the total |
| Aggregate.ApplyKillScore | src/util/log_parser/log_parser.ts:68-77 | one kill changes every score by the kill's score rule: the victim -1 for `<world>` or a suicide, otherwise the killer +1 |
| Aggregate.ApplyKillCount | src/util/log_parser/log_parser.ts:85 | one kill raises its method's count by one and leaves every other count |
| Aggregate.ApplyKillRoster | src/util/log_parser/log_parser.ts:55-61 | after a kill the roster is the old one plus killer and victim, except `<world>` |
| Aggregate.ReplayTotal | src/util/log_parser/log_parser.ts:80-83 | a game's id stays and its total rises by the number of kills applied |
| Aggregate.ReplayScore | src/util/log_parser/log_parser.ts:68-77 | after any kills, each score is the old score plus the player's net score under the score rule |
| Aggregate.ReplayCount | src/util/log_parser/log_parser.ts:85 | after any kills, each method's count is the old count plus the kills with that method |
| Aggregate.ReplayRoster | src/util/log_parser/log_parser.ts:55-61 | after any kills, the roster holds exactly the old players and every killer or victim except `<world>` |
| Aggregate.ReplayValid | src/util/log_parser/log_parser.ts:48-85 | any sequence of kills keeps the game invariant |
| Aggregate.GameFromKills | src/util/log_parser/log_parser.ts:48-85 | a game built from empty by a sequence of kills has that many kills, the net scores, the method tallies, a roster of exactly the named players, and is valid |
| Aggregate.ReplayCons | src/util/log_parser/log_parser.ts:27-87 | kills are applied in log order, the first one first |
| Segmenter.ApplyLineQuiet | src/util/log_parser/log_parser.ts:30-35 | a line that is not a kill line only opens games |
| Segmenter.ApplyLineKill | src/util/log_parser/log_parser.ts:35-85 | a well-formed kill line applies its killer, victim and method to the current game |
| Segmenter.StoppedAt | src/util/log_parser/log_parser.ts:48-57 | when a kill line throws, a game is open and only the killer has been added to it |
| Segmenter.ApplyLineStops | src/util/log_parser/log_parser.ts:48-57 | a kill line without ` killed ` fails with an error naming that line, and the killer is then read from the whole line |
| Segmenter.ApplyLineFails | src/util/log_parser/log_parser.ts:35-57 | one line fails exactly when it is a kill line without ` killed `, and the error names that line |
| Segmenter.OpenForValid | src/util/log_parser/log_parser.ts:30-41 | opening games keeps them numbered from 1 and valid |
| Segmenter.OpenForKill | src/util/log_parser/log_parser.ts:39-41 | before a kill is applied, some game is open |
| Segmenter.OpenForAppends | src/util/log_parser/log_parser.ts:30-41 | opening games only appends to the list: the games already there stay as they were |
| Segmenter.KillIntoValid | src/util/log_parser/log_parser.ts:48-85 | a kill on the current game keeps the list numbered and valid |
| Segmenter.ApplyLineValid | src/util/log_parser/log_parser.ts:27-87 | a successful step keeps the games numbered from 1 and valid |
| Segmenter.ApplyLineCount | src/util/log_parser/log_parser.ts:30-41 | one line adds a game for a start marker, and one more for a kill line when there is no game |
| Segmenter.ApplyLineKeepsEarlier | src/util/log_parser/log_parser.ts:27-87 | one line only appends games and changes at most the last game of the list it opened: a kill line adds one to that game's total, any other line changes nothing, and a line that both opens a game and kills leaves every earlier game as it was |
| Segmenter.ApplyLineKills | src/util/log_parser/log_parser.ts:80-83 | the kill totals of all games rise by one exactly for a kill line |
| Segmenter.HasMalformedCons | src/util/log_parser/log_parser.ts:27 | some line is malformed exactly when the first is or some later one is |
| Segmenter.ParseLinesFails | src/util/log_parser/log_parser.ts:27-87 | the line loop fails exactly when some line is malformed, with the error of the first such line |
| Segmenter.ParseLinesValid | src/util/log_parser/log_parser.ts:27-87 | the loop keeps the games numbered from 1 and valid |
| Segmenter.ParseLinesCount | src/util/log_parser/log_parser.ts:30-41 | the loop opens one game per start line, plus one when it starts without games and meets a kill line before any start |
| Segmenter.ParseLinesKills | src/util/log_parser/log_parser.ts:80-83 | the kill totals rise by the number of kill lines |
| Segmenter.ParseLinesKeepsEarlier | src/util/log_parser/log_parser.ts:27-87 | the loop never changes a game before the current one |
| Segmenter.ApplyLineInGame | src/util/log_parser/log_parser.ts:30-85 | inside a game, a line that is neither a start nor malformed applies its kill, if it is one, to the current game |
| Segmenter.KillEventsCons | src/util/log_parser/log_parser.ts:27 | the kills of a run of lines are the first line's kill, if any, followed by the rest |
| Segmenter.ParseLinesReplay | src/util/log_parser/log_parser.ts:27-87 | lines without a start or a malformed kill line turn the current game into the reference `Replay` of their kills and leave the rest of the list |
| GameTable.GameList.constructor | src/util/log_parser/log_parser.ts:25 | the game list starts empty and valid |
| GameTable.GameList.AddEmptyGame | src/util/log_parser/log_parser.ts:95-103 | pushes a game with the next id and nothing in it, keeping the list valid |
| GameTable.GameList.UpdatePlayers | src/util/log_parser/log_parser.ts:109-120 | replaces the current game with the one whose roster has the name registered; earlier games unchanged |
| GameTable.GameList.UpdateKills | src/util/log_parser/log_parser.ts:128-150 | replaces the current game with the one whose score list has the player's score moved by one; earlier games unchanged |
| GameTable.GameList.CountKill | src/util/log_parser/log_parser.ts:80-83 | raises the current game's kill total by one; earlier games unchanged |
| GameTable.GameList.UpdateKillsByMethod | src/util/log_parser/log_parser.ts:159-179 | replaces the current game with the one whose method counts have the method counted once more; earlier games unchanged |
| GameTable.GameList.RecordKill | src/util/log_parser/log_parser.ts:61-85 | registers the victim, moves the score the rule picks, and counts the kill in the total and under its method |
| GameTable.GameList.ProcessKill | src/util/log_parser/log_parser.ts:48-85 | succeeds exactly when the line has ` killed `; then leaves the kill applied to the current game, and otherwise the state at the throw |
| GameTable.GameList.ProcessLine | src/util/log_parser/log_parser.ts:27-87 | succeeds exactly when the pure step does, and then leaves its games, still valid; otherwise leaves the state at the throw |
| Summary.ObjectPut | src/util/log_parser/log_parser.ts:197-212 | a spread with one key keeps the key order and puts a new key last |
| Summary.ObjectPutLookup | src/util/log_parser/log_parser.ts:197-212 | after the spread the key reads the new value and every other key its old one |
| Summary.ObjectOf | src/util/log_parser/log_parser.ts:196-214 | the object a `reduce` builds has distinct keys, exactly the keys of its entries |
| Summary.ObjectOfLookup | src/util/log_parser/log_parser.ts:196-214 | each key of the built object reads the value of the last entry with that key (the reference `LastValue`) |
| Summary.ObjectOfDistinct | src/util/log_parser/log_parser.ts:196-214 | entries with distinct keys build an object equal to the entries, in the same order |
| Summary.ScoresObject | src/util/log_parser/log_parser.ts:196-199 | a score list with distinct players builds an object that reads each listed player's score, and nothing for anyone else |
| Summary.CountsObject | src/util/log_parser/log_parser.ts:211-214 | a count list with distinct methods builds an object that reads each listed method's count, and nothing for any other method |
| Summary.BlocksOfValid | src/util/log_parser/log_parser.ts:189-221 | for a valid game both report blocks read exactly the game's scores and method counts |
| Summary.StandardView | src/util/log_parser/log_parser.ts:189-205 | one standard report per game |
| Summary.MethodView | src/util/log_parser/log_parser.ts:207-220 | one by-kill-method report per game |
| Summary.ViewsAt | src/util/log_parser/log_parser.ts:189-221 | the i-th reports of both views are built from the i-th game |
| Summary.BuildLogSummary | src/util/log_parser/log_parser.ts:185-224 | the loop over the games returns exactly the summary `Summarize` of the games |
| Summary.GameKeyRoundTrip | src/util/log_parser/log_parser.ts:193-210 | a game key is its prefix followed by decimal digits that spell the id back |
| Summary.GameKeyInjective | src/util/log_parser/log_parser.ts:193-210 | two ids give the same key exactly when they are equal |
| Summary.GameKeysDiffer | src/util/log_parser/log_parser.ts:193-210 | distinct ids give distinct keys |
| Summary.SummarizeShape | src/util/log_parser/log_parser.ts:185-224 | for numbered games both views are present, one report per game, keyed `game_i` and `game-i`, with the game's total and roster |
| Summary.StandardKeysDistinct | src/util/log_parser/log_parser.ts:193 | no two standard reports of numbered games share a key |
| Summary.MethodKeysDistinct | src/util/log_parser/log_parser.ts:210 | no two by-kill-method reports of numbered games share a key |
| Summary.ReportedKillsTotal | src/util/log_parser/log_parser.ts:194 | the standard reports add up to the kill totals of the games |
| LogParser.ParseLog | src/util/log_parser/log_parser.ts:13-90 | the method with its class and its loop returns exactly `LogOf` of the content |
| LogParser.LinesNonEmpty | src/util/log_parser/log_parser.ts:23 | the content always has at least one line, and content without a line break is one line |
| LogParser.LogOfViews | src/util/log_parser/log_parser.ts:15 | a successful parse has neither view exactly for empty content, and otherwise both, of equal length |
| LogParser.LogOfFails | src/util/log_parser/log_parser.ts:13-90 | the parse fails exactly when the content is non-empty and a kill line lacks ` killed `, and the error names the first one |
| LogParser.LogOfGames | src/util/log_parser/log_parser.ts:30-41 | a parsed log has one game per start line, plus one for a kill before any start, keyed `game_1`, `game_2`, … with no key repeated |
| LogParser.LogOfKills | src/util/log_parser/log_parser.ts:80-83 | the reported kill totals add up to the number of kill lines |
| LogParser.LogOfScores | src/util/log_parser/log_parser.ts:55-77 | in each report the roster is free of duplicates and of `<world>`, the score object reads the parser's score for each scored player, and every scored player is in the roster or is `<world>` |

## Left out

- The report text: the source turns each report into a string with `JSON.stringify(…, null, 2)`. The model keeps the report as a structured value (`StandardBlock`, `MethodBlock`). Indentation and character escaping are not modelled.
- Object key order for integer-like names: a JavaScript object lists the keys that look like array indices before the others, in numeric order. The model keeps insertion order, so a player or method named like `12` is placed differently.
- Regular expression engine: the kill test is the predicate `IsKillLine`, proved equal to a match of the pattern at some position (`KillLineMatchesPattern`), not an engine.
- Character encoding: strings are sequences of characters. JavaScript strings are UTF-16 code units, so lengths and indices differ for characters outside the Basic Multilingual Plane.
- Number width: kill totals and scores are unbounded integers. JavaScript numbers are doubles and lose precision above 2^53, a bound no log reaches.
- Inner arrays: `players.push` and the pushes on `kills` and `killsByMethod` mutate arrays inside the game record. The model replaces the whole game value in the list. Nothing else holds those arrays, so there is no aliasing to observe.
- The exception: the `TypeError` thrown on a kill line without ` killed ` becomes the `Failure` result of `ParseLog`. The half-updated list at that moment is described by `StoppedAt`, but is not returned.
- Kill method names: the `KillMethod` union in `types.ts` is only a cast (`as KillMethod`) and is never checked at run time, so a method is any string.
- The user interface: `src/pages/index.tsx` and `src/components/` render the reports and are not part of this model. Nor is reading the uploaded file from disk: the content is the method's parameter.
