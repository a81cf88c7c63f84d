/**
 * Classifying a log line (match start, kill line) and taking a kill line
 * apart into killer, victim and method with the same substring arithmetic
 * as the parser: nothing here is a grammar, every piece is defined by the
 * string built-ins the parser calls.
 */
module KillLine {
  import opened Wrappers
  import opened JsString
  import opened LogTypes

  /** A line that contains `0:00 -` starts a new game, wherever the marker stands. */
  predicate IsMatchStart(line: string) {
    Contains(line, "0:00 -")
  }

  /** The marker starts a game wherever it stands, so `10:00 -` and `20:00 -` start games too. */
  lemma MarkerAnywhere(p: string, marker: string, q: string)
    requires marker == "0:00 -"
    ensures IsMatchStart(p + marker + q)
  {
    var line := p + marker + q;
    assert line[|p|..|p| + |marker|] == marker;
    ContainsAt(line, marker, |p|);
  }

  /** One digit, a colon, two digits and ` Kill: ` start at position `i`. */
  predicate KillAt(line: string, i: int) {
    && 0 <= i && i + 11 <= |line|
    && IsDigit(line[i]) && line[i + 1] == ':' && IsDigit(line[i + 2]) && IsDigit(line[i + 3])
    && line[i + 4..i + 11] == " Kill: "
  }

  /** The test of the kill pattern on a line, which may match anywhere in it. */
  predicate IsKillLine(line: string) {
    exists i :: 0 <= i < |line| && KillAt(line, i)
  }

  /**
   * The unanchored pattern `\d+:\d{2} Kill: .*` matched with its digit run
   * at `line[i..j]`; the final `.*` also matches the empty text, so it
   * constrains nothing.
   */
  ghost predicate PatternAt(line: string, i: int, j: int) {
    && 0 <= i < j && j + 10 <= |line|
    && AllDigits(line[i..j])
    && line[j] == ':' && IsDigit(line[j + 1]) && IsDigit(line[j + 2])
    && line[j + 3..j + 10] == " Kill: "
  }

  ghost predicate MatchesPattern(line: string) {
    exists i, j :: PatternAt(line, i, j)
  }

  /** The one-digit test accepts exactly the lines the pattern with a digit run matches. */
  lemma KillLineMatchesPattern(line: string)
    ensures IsKillLine(line) <==> MatchesPattern(line)
  {
    if IsKillLine(line) {
      var i :| 0 <= i < |line| && KillAt(line, i);
      assert PatternAt(line, i, i + 1);
    }
    if MatchesPattern(line) {
      var i, j :| PatternAt(line, i, j);
      assert IsDigit(line[i..j][j - 1 - i]);
      assert KillAt(line, j - 1);
    }
  }

  /**
   * `line.split(" killed ")` read at indexes 0 and 1: the text before the
   * first separator, and the text between it and the next one (absent
   * when the line has no separator at all).
   */
  function KilledParts(line: string): (parts: (string, Option<string>))
    ensures parts.1.None? <==> !Contains(line, " killed ")
    ensures parts.1.None? ==> parts.0 == line
  {
    var pieces := Split(line, " killed ");
    KilledPiecesFacts(line);
    if |pieces| >= 2 then (pieces[0], Some(pieces[1])) else (pieces[0], None)
  }

  /**
   * Neither part holds the separator, and with both parts present the
   * line starts with the first part, the separator and the second part.
   */
  lemma KilledPartsFree(line: string)
    ensures var parts := KilledParts(line);
      && !Contains(parts.0, " killed ")
      && (parts.1.Some? ==>
        && !Contains(parts.1.value, " killed ")
        && |parts.0 + " killed " + parts.1.value| <= |line|
        && line[..|parts.0 + " killed " + parts.1.value|] == parts.0 + " killed " + parts.1.value)
  {
    KilledPiecesFacts(line);
  }

  lemma KilledPiecesFacts(line: string)
    ensures var pieces := Split(line, " killed ");
      && (|pieces| >= 2 <==> Contains(line, " killed "))
      && (|pieces| < 2 ==> pieces[0] == line)
      && !Contains(pieces[0], " killed ")
      && (|pieces| >= 2 ==>
        && !Contains(pieces[1], " killed ")
        && |pieces[0] + " killed " + pieces[1]| <= |line|
        && line[..|pieces[0] + " killed " + pieces[1]|] == pieces[0] + " killed " + pieces[1])
  {
    SplitHeadFacts(line, " killed ");
    SplitPartsFree(line, " killed ", 0);
    if |Split(line, " killed ")| >= 2 {
      SplitPartsFree(line, " killed ", 1);
    }
  }

  lemma ColonBefore(s: string, t: nat, u: nat)
    requires t < u <= |s| && s[t] == ':'
    ensures Count(s[..u], ':') >= Count(s[..t], ':') + 1
  {
    assert s[..u] == s[..t] + [s[t]] + s[t + 1..u];
    assert multiset(s[..u]) == multiset(s[..t]) + multiset([s[t]]) + multiset(s[t + 1..u]);
  }

  /**
   * The killer: the text of the left part from two characters after the
   * end of its first three colon-separated pieces joined back, clamped to
   * the end of the left part.
   */
  function KillerOf(left: string): string {
    Substring(left, |Join(SplitLimit(left, ":", 3), ":")| + 2, |left|)
  }

  /** With fewer than three colons there is no killer. */
  lemma KillerOfFewColons(left: string)
    requires Count(left, ':') < 3
    ensures KillerOf(left) == ""
  {
    JoinedPrefixLength(left, ':', 3);
    assert left[..|left|] == left;
  }

  /**
   * The killer is the text two characters after the third colon, or empty
   * when the left part ends before that.
   */
  lemma KillerAfterThirdColon(left: string, t: nat)
    requires t < |left| && left[t] == ':' && Count(left[..t], ':') == 2
    ensures KillerOf(left) == if t + 2 <= |left| then left[t + 2..] else ""
  {
    var L := |Join(SplitLimit(left, ":", 3), ":")|;
    JoinedPrefixLength(left, ':', 3);
    assert left[..|left|] == left;
    if t < L {
      ColonBefore(left, t, L);
    } else if L < t {
      ColonBefore(left, L, t);
    }
  }

  /** The victim: the right part up to its last ` by`, clamped to empty when it has none. */
  function VictimOf(right: string): string {
    Substring(right, 0, LastIndexOf(right, " by"))
  }

  /**
   * Without ` by` the victim is empty; otherwise it is the text before the
   * last ` by`, and no ` by` starts after it.
   */
  lemma VictimOfFacts(right: string)
    ensures !Contains(right, " by") ==> VictimOf(right) == ""
    ensures Contains(right, " by") ==>
      var victim := VictimOf(right);
      && |victim| <= |right| && right[..|victim|] == victim
      && OccursAt(right, " by", |victim|)
      && forall i :: |victim| < i <= |right| ==> !OccursAt(right, " by", i)
  {
    LastIndexOfMissing(right, " by");
    NoneAfterLast(right, " by");
  }

  /** The method: everything after the last space of the whole line. */
  function MethodOf(line: string): string {
    Substring(line, LastIndexOf(line, " ") + 1, |line|)
  }

  /** The method is a space-free tail of the line, preceded by a space unless it is the whole line. */
  lemma MethodOfFacts(line: string)
    ensures var killMethod := MethodOf(line);
      && (forall i :: 0 <= i < |killMethod| ==> killMethod[i] != ' ')
      && |killMethod| <= |line| && line[|line| - |killMethod|..] == killMethod
      && (|killMethod| < |line| ==> line[|line| - |killMethod| - 1] == ' ')
  {
    LastSpaceFacts(line, LastIndexOf(line, " "));
  }

  lemma LastSpaceFacts(line: string, k: int)
    requires k == LastIndexOf(line, " ")
    ensures forall i :: k + 1 <= i < |line| ==> line[i] != ' '
    ensures k >= 0 ==> line[k] == ' '
  {
    NoSpaceAfter(line, k);
    SpaceAt(line, k);
  }

  lemma NoSpaceAfter(line: string, k: int)
    requires k == LastIndexOf(line, " ")
    ensures forall i :: k + 1 <= i < |line| ==> line[i] != ' '
  {
    NoneAfterLast(line, " ");
    forall i | k + 1 <= i < |line| ensures line[i] != ' ' {
      assert line[i..i + 1] == [line[i]];
      assert !OccursAt(line, " ", i);
    }
  }

  lemma SpaceAt(line: string, k: int)
    requires k == LastIndexOf(line, " ")
    ensures k >= 0 ==> line[k] == ' '
  {
    if k >= 0 {
      assert OccursAt(line, " ", k);
      assert line[k] == line[k..k + 1][0] == " "[0] == ' ';
    }
  }

  /** A kill line's event, or nothing when the line lacks the ` killed ` separator. */
  function Decompose(line: string): (e: Option<KillEvent>)
    ensures e.None? <==> !Contains(line, " killed ")
  {
    var (left, right) := KilledParts(line);
    match right
    case None => None
    case Some(r) => Some(KillEvent(KillerOf(left), VictimOf(r), MethodOf(line)))
  }

  /** With a two-colon prefix, the killer is what follows the third colon and its space. */
  lemma KillerOfShape(x: string, k: string)
    requires Count(x, ':') == 2
    ensures KillerOf(x + ": " + k) == k
  {
    var left := x + ": " + k;
    assert left[|x|] == ':';
    assert left[..|x|] == x;
    assert left[|x| + 2..] == k;
    KillerAfterThirdColon(left, |x|);
  }

  /** The split at ` killed ` when the separator after `a` is the first one and `v` holds none. */
  lemma KilledPartsShape(a: string, v: string)
    requires forall i :: 0 <= i < |a| ==> !OccursAt(a + " killed " + v, " killed ", i)
    requires !Contains(v, " killed ")
    ensures KilledParts(a + " killed " + v) == (a, Some(v))
  {
    SplitTwo(a, " killed ", v);
  }

  /** The victim is the text before ` by` when no later ` by` starts. */
  lemma VictimOfShape(v: string, w: string)
    requires forall q :: |v| < q <= |v + " by" + w| ==> !OccursAt(v + " by" + w, " by", q)
    ensures VictimOf(v + " by" + w) == v
  {
    LastOccurrence(v, " by", w);
    assert (v + " by" + w)[..|v|] == v;
  }

  /** The method is the word after the last space. */
  lemma MethodOfShape(p: string, m: string)
    requires ' ' !in m
    ensures MethodOf(p + " " + m) == m
  {
    LastOccurrenceChar(p, ' ', m);
    assert (p + " " + m)[|p| + 1..] == m;
  }

  /**
   * A line of the documented shape `<prefix>: <killer> killed <victim> by <method>`
   * decomposes into exactly those three names, provided the prefix has two
   * colons, no separator starts before the one after the killer and none
   * follows it, no ` by` starts after the one before the method, and the
   * method is one word.
   */
  lemma DecomposeShape(x: string, k: string, v: string, m: string)
    requires Count(x, ':') == 2
    requires forall i :: 0 <= i < |x + ": " + k| ==>
      !OccursAt(x + ": " + k + " killed " + (v + " by" + (" " + m)), " killed ", i)
    requires !Contains(v + " by" + (" " + m), " killed ")
    requires forall q :: |v| < q <= |v + " by" + (" " + m)| ==> !OccursAt(v + " by" + (" " + m), " by", q)
    requires ' ' !in m
    ensures Decompose(x + ": " + k + " killed " + (v + " by" + (" " + m))) == Some(KillEvent(k, v, m))
  {
    var left, right := x + ": " + k, v + " by" + (" " + m);
    var line := left + " killed " + right;
    KilledPartsShape(left, right);
    KillerOfShape(x, k);
    VictimOfShape(v, " " + m);
    ConcatRegroup(left, " killed ", v, " by", " ", m);
    MethodOfShape(left + " killed " + v + " by", m);
  }

  /** No ` killed ` starts inside a text without the letter `k`. */
  lemma NoEarlyKilled(a: string, rest: string)
    requires 'k' !in a
    ensures forall i :: 0 <= i < |a| ==> !OccursAt(a + " killed " + rest, " killed ", i)
  {
    assert " killed "[1] == 'k' && " killed "[0] != 'k';
    NoEarlyOccurrence(a, " killed ", rest);
  }

  /** A text without the letter `k` holds no ` killed `. */
  lemma NoKilledWithoutK(s: string)
    requires 'k' !in s
    ensures !Contains(s, " killed ")
  {
    assert " killed "[1] == 'k';
    MissingCharNoOccurrence(s, " killed ", 1);
  }

  /** No ` by` starts after the one following `v` when the rest has no `b`. */
  lemma NoLaterBy(v: string, w: string)
    requires 'b' !in w
    ensures forall q :: |v| < q <= |v + " by" + w| ==> !OccursAt(v + " by" + w, " by", q)
  {
    assert " by"[1] == 'b' && " by"[1] != " by"[0];
    NoLaterOccurrence(v, " by", w);
  }

  /** Two colons between three colon-free texts. */
  lemma TwoColons(a: string, b: string, d: string)
    requires ':' !in a && ':' !in b && ':' !in d
    ensures Count(a + ":" + b + ":" + d, ':') == 2
  {
    assert multiset(a + ":" + b + ":" + d) == multiset(a) + multiset(":") + multiset(b) + multiset(":") + multiset(d);
  }

  /** The example kill line the parser documents, in its four parts. */
  const DocumentedPrefix := "2:22 Kill: 3 2 10"
  const DocumentedKiller := "Isgalamido"
  const DocumentedVictim := "Dono da Bola"
  const DocumentedMethod := "MOD_RAILGUN"
  const DocumentedText := DocumentedPrefix + ": " + DocumentedKiller + " killed "
    + (DocumentedVictim + " by" + (" " + DocumentedMethod))

  /** The prefix of the documented line has two colons. */
  lemma DocumentedColons()
    ensures Count(DocumentedPrefix, ':') == 2
  {
    assert DocumentedPrefix == "2" + ":" + "22 Kill" + ":" + " 3 2 10";
    TwoColons("2", "22 Kill", " 3 2 10");
  }

  /** The prefix and killer of the documented line have no `k`. */
  lemma DocumentedHead()
    ensures 'k' !in DocumentedPrefix + ": " + DocumentedKiller
  {
  }

  /** The victim and method of the documented line have no `k`. */
  lemma DocumentedTail()
    ensures 'k' !in DocumentedVictim + " by" + (" " + DocumentedMethod)
  {
  }

  /** The method of the documented line is one word without a `b`. */
  lemma DocumentedWord()
    ensures 'b' !in " " + DocumentedMethod && ' ' !in DocumentedMethod
  {
  }

  /** The documented line decomposes into the names it shows. */
  lemma DocumentedLine()
    ensures Decompose(DocumentedText) == Some(KillEvent(DocumentedKiller, DocumentedVictim, DocumentedMethod))
  {
    var x, k, v, m := DocumentedPrefix, DocumentedKiller, DocumentedVictim, DocumentedMethod;
    DocumentedColons();
    DocumentedHead();
    DocumentedTail();
    DocumentedWord();
    NoEarlyKilled(x + ": " + k, v + " by" + (" " + m));
    NoKilledWithoutK(v + " by" + (" " + m));
    NoLaterBy(v, " " + m);
    DecomposeShape(x, k, v, m);
  }

  /** A line that begins like the documented one is a kill line. */
  lemma DocumentedIsKillLine(rest: string)
    ensures IsKillLine(DocumentedPrefix + rest)
  {
    var line := DocumentedPrefix + rest;
    assert line[..|DocumentedPrefix|] == DocumentedPrefix;
    assert line[4..11] == DocumentedPrefix[4..11] == " Kill: ";
    assert KillAt(line, 0);
  }
}
