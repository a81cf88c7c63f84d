/**
 * The JavaScript string built-ins the log parser relies on
 * (`indexOf`, `lastIndexOf`, `includes`, `substring`, `split`, `join`
 * and number-to-string in a template literal), with the argument clamping
 * and the -1 "not found" convention of the language.
 */
module JsString {

  /** `sub` occurs in `s` starting at position `i`. */
  predicate OccursAt(s: string, sub: string, i: int) {
    0 <= i && i + |sub| <= |s| && s[i..i + |sub|] == sub
  }

  /** An occurrence inside the slice `s[a..b]` is an occurrence in `s` that fits in the slice. */
  lemma OccursInSlice(s: string, sub: string, a: nat, b: nat, i: int)
    requires a <= b <= |s|
    ensures OccursAt(s[a..b], sub, i) <==> i >= 0 && OccursAt(s, sub, a + i) && a + i + |sub| <= b
  {
    if 0 <= i && a + i + |sub| <= b {
      var t := s[a..b];
      var u, v := t[i..i + |sub|], s[a + i..a + i + |sub|];
      assert |u| == |v|;
      forall j | 0 <= j < |sub| ensures u[j] == v[j] {
        assert u[j] == t[i + j] == s[a + i + j];
      }
      assert u == v;
    }
  }

  /** `s.indexOf(sub, from)`: the first position at or after `from` where `sub` occurs, -1 when there is none. */
  function IndexOfFrom(s: string, sub: string, from: nat): (r: int)
    ensures r == -1 || (from <= r && OccursAt(s, sub, r))
    decreases |s| - from
  {
    if from + |sub| > |s| then -1
    else if OccursAt(s, sub, from) then from
    else IndexOfFrom(s, sub, from + 1)
  }

  /** The search from `from` finds an occurrence no later than any occurrence at or after `from`. */
  lemma {:induction false} IndexOfFromFirst(s: string, sub: string, from: nat, i: int)
    requires from <= i
    ensures OccursAt(s, sub, i) ==> 0 <= IndexOfFrom(s, sub, from) <= i
    decreases |s| - from
  {
    if from < i && from + |sub| <= |s| && !OccursAt(s, sub, from) {
      IndexOfFromFirst(s, sub, from + 1, i);
    }
  }

  /** The search from `from` stops at `n` when `n` is the first occurrence from there. */
  lemma FirstOccurrenceFrom(s: string, sub: string, from: nat, n: nat)
    requires from <= n && OccursAt(s, sub, n)
    requires forall i :: from <= i < n ==> !OccursAt(s, sub, i)
    ensures IndexOfFrom(s, sub, from) == n
  {
    IndexOfFromFirst(s, sub, from, n);
  }

  /** The search from `from` fails exactly when no occurrence starts at or after `from`. */
  lemma IndexOfFromMissing(s: string, sub: string, from: nat)
    ensures IndexOfFrom(s, sub, from) == -1 <==> forall i :: from <= i ==> !OccursAt(s, sub, i)
  {
    forall i | from <= i ensures IndexOfFrom(s, sub, from) == -1 ==> !OccursAt(s, sub, i) {
      IndexOfFromFirst(s, sub, from, i);
    }
  }

  /** `s.indexOf(sub)`: the first position where `sub` occurs, -1 when it does not occur. */
  function IndexOf(s: string, sub: string): (r: int)
    ensures r == -1 || OccursAt(s, sub, r)
  {
    IndexOfFrom(s, sub, 0)
  }

  /** `s.includes(sub)`. */
  predicate Contains(s: string, sub: string) {
    IndexOf(s, sub) >= 0
  }

  /** An occurrence anywhere makes `s` contain `sub`, and `indexOf` finds the first one. */
  lemma ContainsAt(s: string, sub: string, i: int)
    ensures OccursAt(s, sub, i) ==> Contains(s, sub) && IndexOf(s, sub) <= i
  {
    if 0 <= i {
      IndexOfFromFirst(s, sub, 0, i);
    }
  }

  /** `includes` holds exactly when `sub` occurs somewhere in `s`. */
  lemma ContainsIff(s: string, sub: string)
    ensures Contains(s, sub) <==> exists i :: OccursAt(s, sub, i)
  {
    IndexOfFromMissing(s, sub, 0);
  }


  /** The last position at or before `upTo` where `sub` occurs, -1 when there is none. */
  function LastIndexOfUpTo(s: string, sub: string, upTo: int): (r: int)
    ensures r == -1 || (r <= upTo && OccursAt(s, sub, r))
    decreases upTo + 1
  {
    if upTo < 0 then -1
    else if OccursAt(s, sub, upTo) then upTo
    else LastIndexOfUpTo(s, sub, upTo - 1)
  }

  /** The backward search from `upTo` finds an occurrence no earlier than any occurrence up to `upTo`. */
  lemma {:induction false} LastIndexOfUpToLast(s: string, sub: string, upTo: int, i: int)
    requires i <= upTo
    ensures OccursAt(s, sub, i) ==> i <= LastIndexOfUpTo(s, sub, upTo)
    decreases upTo + 1
  {
    if i < upTo && 0 <= upTo && !OccursAt(s, sub, upTo) {
      LastIndexOfUpToLast(s, sub, upTo - 1, i);
    }
  }

  /** `s.lastIndexOf(sub)`: the last position where `sub` occurs, -1 when it does not occur. */
  function LastIndexOf(s: string, sub: string): (r: int)
    ensures r == -1 || OccursAt(s, sub, r)
  {
    LastIndexOfUpTo(s, sub, |s|)
  }

  /** `lastIndexOf` finds an occurrence exactly when there is one, and none lies after it. */
  lemma LastIndexOfLast(s: string, sub: string, i: int)
    ensures OccursAt(s, sub, i) ==> 0 <= i <= LastIndexOf(s, sub)
  {
    if i <= |s| {
      LastIndexOfUpToLast(s, sub, |s|, i);
    }
  }

  /** No occurrence starts after the one `lastIndexOf` finds. */
  lemma NoneAfterLast(s: string, sub: string)
    ensures forall i :: LastIndexOf(s, sub) < i ==> !OccursAt(s, sub, i)
  {
    forall i | LastIndexOf(s, sub) < i ensures !OccursAt(s, sub, i) {
      LastIndexOfLast(s, sub, i);
    }
  }

  /** `lastIndexOf` and `includes` agree on whether `sub` occurs. */
  lemma LastIndexOfMissing(s: string, sub: string)
    ensures LastIndexOf(s, sub) == -1 <==> !Contains(s, sub)
  {
    var r := LastIndexOf(s, sub);
    ContainsAt(s, sub, r);
    LastIndexOfLast(s, sub, IndexOf(s, sub));
  }

  /** The argument clamping of `substring`: into the range 0..n. */
  function Clamp(x: int, n: nat): (r: nat)
    ensures r <= n
    ensures 0 <= x <= n ==> r == x
  {
    if x < 0 then 0 else if x > n then n else x
  }

  /**
   * `s.substring(start, end)`: both arguments are clamped into 0..|s|
   * and swapped when the first exceeds the second.
   */
  function Substring(s: string, start: int, end: int): (r: string)
    ensures 0 <= start <= end <= |s| ==> r == s[start..end]
    ensures start >= |s| && end >= |s| ==> r == ""
    ensures start <= 0 && end <= 0 ==> r == ""
  {
    var a, b := Clamp(start, |s|), Clamp(end, |s|);
    if a <= b then s[a..b] else s[b..a]
  }

  /**
   * The pieces of `s[from..]` between the occurrences of the non-empty
   * separator `sep`, found scanning left to right without overlap.
   */
  function SplitFrom(s: string, sep: string, from: nat): (parts: seq<string>)
    requires |sep| > 0 && from <= |s|
    ensures |parts| >= 1
    decreases |s| - from
  {
    var p := IndexOfFrom(s, sep, from);
    if p < 0 then [s[from..]] else [s[from..p]] + SplitFrom(s, sep, p + |sep|)
  }

  /** `s.split(sep)` for a non-empty separator. */
  function Split(s: string, sep: string): (parts: seq<string>)
    requires |sep| > 0
    ensures |parts| >= 1
  {
    SplitFrom(s, sep, 0)
  }

  /** `s.split(sep, limit)`: the first `limit` pieces of the split. */
  function SplitLimit(s: string, sep: string, limit: nat): (parts: seq<string>)
    requires |sep| > 0
  {
    var all := Split(s, sep);
    if |all| <= limit then all else all[..limit]
  }

  /** `parts.join(sep)`. */
  function Join(parts: seq<string>, sep: string): string {
    if |parts| == 0 then ""
    else if |parts| == 1 then parts[0]
    else parts[0] + sep + Join(parts[1..], sep)
  }

  lemma JoinCons(head: string, tail: seq<string>, sep: string)
    requires |tail| >= 1
    ensures Join([head] + tail, sep) == head + sep + Join(tail, sep)
  {
    assert ([head] + tail)[1..] == tail;
  }

  lemma SliceConcat(s: string, a: nat, b: nat, c: nat)
    requires a <= b <= c <= |s|
    ensures s[a..] == s[a..b] + s[b..c] + s[c..]
  {
  }

  lemma {:induction false} SplitFromJoin(s: string, sep: string, from: nat)
    requires |sep| > 0 && from <= |s|
    ensures Join(SplitFrom(s, sep, from), sep) == s[from..]
    decreases |s| - from
  {
    var p := IndexOfFrom(s, sep, from);
    if p >= 0 {
      var tail := SplitFrom(s, sep, p + |sep|);
      SplitFromJoin(s, sep, p + |sep|);
      var parts := [s[from..p]] + tail;
      assert SplitFrom(s, sep, from) == parts;
      assert parts[1..] == tail;
      JoinCons(s[from..p], tail, sep);
      assert s[p..p + |sep|] == sep;
      SliceConcat(s, from, p, p + |sep|);
    }
  }

  /** Splitting and joining again with the same separator gives back the string. */
  lemma SplitJoin(s: string, sep: string)
    requires |sep| > 0
    ensures Join(Split(s, sep), sep) == s
  {
    SplitFromJoin(s, sep, 0);
  }

  /** A slice holds no occurrence when none of `s` starting in it fits inside it. */
  lemma SliceFree(s: string, sub: string, a: nat, b: nat)
    requires a <= b <= |s|
    requires forall i :: a <= i && i + |sub| <= b ==> !OccursAt(s, sub, i)
    ensures !Contains(s[a..b], sub)
  {
    OccursInSlice(s, sub, a, b, IndexOf(s[a..b], sub));
  }

  lemma {:induction false} SplitFromPartsFree(s: string, sep: string, from: nat, k: nat)
    requires |sep| > 0 && from <= |s|
    requires k < |SplitFrom(s, sep, from)|
    ensures !Contains(SplitFrom(s, sep, from)[k], sep)
    decreases |s| - from
  {
    var p := IndexOfFrom(s, sep, from);
    if k == 0 {
      var end := if p < 0 then |s| else p;
      assert SplitFrom(s, sep, from)[0] == s[from..end];
      forall i | from <= i && i + |sep| <= end ensures !OccursAt(s, sep, i) {
        IndexOfFromFirst(s, sep, from, i);
      }
      SliceFree(s, sep, from, end);
    } else {
      SplitFromPartsFree(s, sep, p + |sep|, k - 1);
    }
  }

  /** No piece of a split contains the separator. */
  lemma SplitPartsFree(s: string, sep: string, k: nat)
    requires |sep| > 0
    requires k < |Split(s, sep)|
    ensures !Contains(Split(s, sep)[k], sep)
  {
    SplitFromPartsFree(s, sep, 0, k);
  }

  /** The first two pieces of a split and the separator between them begin the string. */
  lemma SplitHeadFacts(s: string, sep: string)
    requires |sep| > 0
    ensures var parts := Split(s, sep);
      && (|parts| >= 2 <==> Contains(s, sep))
      && (|parts| == 1 ==> parts[0] == s)
      && (|parts| >= 2 ==>
        && |parts[0] + sep + parts[1]| <= |s|
        && s[..|parts[0] + sep + parts[1]|] == parts[0] + sep + parts[1])
  {
    var p := IndexOf(s, sep);
    if p >= 0 {
      var q := p + |sep|;
      var p2 := IndexOfFrom(s, sep, q);
      var r := if p2 < 0 then s[q..] else s[q..p2];
      assert Split(s, sep) == [s[..p]] + SplitFrom(s, sep, q);
      assert SplitFrom(s, sep, q)[0] == r;
      assert s[p..q] == sep;
      assert s[..q + |r|] == s[..p] + s[p..q] + s[q..q + |r|];
    }
  }

  /** `sub` cannot occur in `s` when one of its characters is missing from `s`. */
  lemma MissingCharNoOccurrence(s: string, sub: string, j: nat)
    requires j < |sub| && sub[j] !in s
    ensures !Contains(s, sub)
  {
    forall i | 0 <= i ensures !OccursAt(s, sub, i) {
      if i + |sub| <= |s| {
        assert s[i..i + |sub|][j] == s[i + j];
        assert s[i + j] in s;
      }
    }
  }

  /**
   * In `a + sub + rest`, no occurrence of `sub` starts inside `a` when the
   * second character of `sub` is missing from `a` and differs from its first.
   */
  lemma NoEarlyOccurrence(a: string, sub: string, rest: string)
    requires |sub| >= 2 && sub[1] !in a && sub[0] != sub[1]
    ensures forall i :: 0 <= i < |a| ==> !OccursAt(a + sub + rest, sub, i)
  {
    var s := a + sub + rest;
    forall i | 0 <= i < |a| ensures !OccursAt(s, sub, i) {
      assert s[i..i + |sub|][1] == s[i + 1];
      if i + 1 < |a| {
        assert s[i + 1] == a[i + 1];
        assert a[i + 1] in a;
      } else {
        assert s[i + 1] == sub[0];
      }
    }
  }

  /** The search from `from` fails when the rest of `s` holds no occurrence. */
  lemma NoOccurrenceFrom(s: string, sub: string, from: nat)
    requires from <= |s|
    requires !Contains(s[from..], sub)
    ensures IndexOfFrom(s, sub, from) == -1
  {
    var r := IndexOfFrom(s, sub, from);
    assert s[from..] == s[from..|s|];
    OccursInSlice(s, sub, from, |s|, r - from);
    ContainsAt(s[from..], sub, r - from);
  }

  /**
   * `a + sep + v` splits into `a` and `v` when the separator after `a` is
   * the first occurrence and `v` holds none.
   */
  lemma SplitTwo(a: string, sep: string, v: string)
    requires |sep| > 0
    requires forall i :: 0 <= i < |a| ==> !OccursAt(a + sep + v, sep, i)
    requires !Contains(v, sep)
    ensures Split(a + sep + v, sep) == [a, v]
  {
    var s := a + sep + v;
    var n := |a| + |sep|;
    assert s[|a|..n] == sep;
    FirstOccurrenceFrom(s, sep, 0, |a|);
    assert s[n..] == v;
    NoOccurrenceFrom(s, sep, n);
    assert SplitFrom(s, sep, n) == [v];
    assert s[..|a|] == a;
  }

  /** The last occurrence of `sub` in `v + sub + w` is the one after `v` when no later one starts. */
  lemma LastOccurrence(v: string, sub: string, w: string)
    requires forall q :: |v| < q <= |v + sub + w| ==> !OccursAt(v + sub + w, sub, q)
    ensures LastIndexOf(v + sub + w, sub) == |v|
  {
    var s := v + sub + w;
    assert s[|v|..|v| + |sub|] == sub;
    LastIndexOfLast(s, sub, |v|);
  }

  /**
   * No occurrence of `sub` starts after `v` in `v + sub + w` when the first
   * character of `sub` does not recur in it and its second is missing from `w`.
   */
  lemma NoLaterOccurrence(v: string, sub: string, w: string)
    requires |sub| >= 2
    requires forall t :: 0 < t < |sub| ==> sub[t] != sub[0]
    requires sub[1] !in w
    ensures forall q :: |v| < q <= |v + sub + w| ==> !OccursAt(v + sub + w, sub, q)
  {
    var s := v + sub + w;
    var n := |v| + |sub|;
    forall q | |v| < q <= |s| ensures !OccursAt(s, sub, q) {
      if q + |sub| <= |s| {
        var u := s[q..q + |sub|];
        if q < n {
          assert u[0] == s[q] == sub[q - |v|];
        } else {
          assert u[1] == s[q + 1] == w[q + 1 - n];
          assert w[q + 1 - n] in w;
        }
      }
    }
  }

  /** The last `c` of `p + [c] + m` is the one after `p` when `m` has none. */
  lemma LastOccurrenceChar(p: string, c: char, m: string)
    requires c !in m
    ensures LastIndexOf(p + [c] + m, [c]) == |p|
  {
    var s := p + [c] + m;
    forall q | |p| < q <= |s| ensures !OccursAt(s, [c], q) {
      if q < |s| {
        assert s[q..q + 1][0] == s[q] == m[q - |p| - 1];
        assert m[q - |p| - 1] in m;
      }
    }
    LastOccurrence(p, [c], m);
  }

  /** Regrouping a six-piece concatenation. */
  lemma ConcatRegroup(a: string, b: string, c: string, d: string, e: string, f: string)
    ensures a + b + (c + d + (e + f)) == a + b + c + d + e + f
  {
  }

  /** The number of occurrences of the character `c` in `s`. */
  function Count(s: string, c: char): nat {
    multiset(s)[c]
  }

  lemma NotContainsChar(s: string, c: char)
    requires !Contains(s, [c])
    ensures Count(s, c) == 0
  {
    forall i | 0 <= i < |s| ensures s[i] != c {
      assert s[i..i + 1] == [s[i]];
      ContainsAt(s, [c], i);
    }
    assert c !in s;
  }

  /** Splitting on a one-character separator gives one more piece than it has occurrences. */
  lemma {:induction false} SplitFromCount(s: string, c: char, from: nat)
    requires from <= |s|
    ensures |SplitFrom(s, [c], from)| == Count(s[from..], c) + 1
    decreases |s| - from
  {
    var p := IndexOfFrom(s, [c], from);
    if p < 0 {
      SplitFromPartsFree(s, [c], from, 0);
      NotContainsChar(s[from..], c);
    } else {
      SplitFromCount(s, c, p + 1);
      SplitFromPartsFree(s, [c], from, 0);
      assert SplitFrom(s, [c], from)[0] == s[from..p];
      NotContainsChar(s[from..p], c);
      assert s[p..p + 1] == [c];
      assert s[from..] == s[from..p] + [c] + s[p + 1..];
      assert multiset(s[from..]) == multiset(s[from..p]) + multiset([c]) + multiset(s[p + 1..]);
    }
  }

  lemma SplitCount(s: string, c: char)
    ensures |Split(s, [c])| == Count(s, c) + 1
  {
    SplitFromCount(s, c, 0);
    assert s[0..] == s;
  }

  /** Joining `k` pieces free of `c` with `c` between them puts `k - 1` copies of `c` in the result. */
  lemma {:induction false} JoinCount(parts: seq<string>, c: char)
    requires |parts| >= 1
    requires forall k :: 0 <= k < |parts| ==> Count(parts[k], c) == 0
    ensures Count(Join(parts, [c]), c) == |parts| - 1
  {
    if |parts| > 1 {
      JoinCount(parts[1..], c);
      assert multiset(parts[0] + [c] + Join(parts[1..], [c]))
          == multiset(parts[0]) + multiset([c]) + multiset(Join(parts[1..], [c]));
    }
  }

  /** The join of the first `k` pieces, a separator, and the join of the rest is the join of all. */
  lemma {:induction false} JoinSplitAt(parts: seq<string>, sep: string, k: nat)
    requires 1 <= k < |parts|
    ensures Join(parts[..k], sep) + sep + Join(parts[k..], sep) == Join(parts, sep)
  {
    if k > 1 {
      JoinSplitAt(parts[1..], sep, k - 1);
      assert parts[..k][1..] == parts[1..][..k - 1];
      assert parts[1..][k - 1..] == parts[k..];
    } else {
      assert parts[..1] == [parts[0]];
    }
  }

  /** The first `n` pieces of a split on `c` hold no `c`. */
  lemma HeadPiecesFree(s: string, c: char, n: nat)
    requires n <= |Split(s, [c])|
    ensures forall k :: 0 <= k < n ==> Count(Split(s, [c])[..n][k], c) == 0
  {
    forall k | 0 <= k < n ensures Count(Split(s, [c])[..n][k], c) == 0 {
      SplitPartsFree(s, [c], k);
      NotContainsChar(Split(s, [c])[k], c);
    }
  }

  /** With at least `n` copies of `c`, the join of the first `n` pieces ends just before the n-th `c`. */
  lemma JoinedPrefixAtLeast(s: string, c: char, n: nat)
    requires n >= 1 && Count(s, c) >= n
    ensures var L := |Join(SplitLimit(s, [c], n), [c])|;
      L < |s| && s[L] == c && Count(s[..L], c) == n - 1
  {
    var parts := Split(s, [c]);
    SplitCount(s, c);
    SplitJoin(s, [c]);
    var head := parts[..n];
    assert SplitLimit(s, [c], n) == head;
    JoinSplitAt(parts, [c], n);
    var J := Join(head, [c]);
    var R := Join(parts[n..], [c]);
    assert s == J + [c] + R;
    assert s[|J|] == c;
    assert s[..|J|] == J;
    HeadPiecesFree(s, c, n);
    JoinCount(head, c);
  }

  /**
   * The length of `s.split(c, n).join(c)`: the position of the n-th
   * occurrence of `c` when `s` has at least `n` of them, and `|s|` otherwise.
   */
  lemma JoinedPrefixLength(s: string, c: char, n: nat)
    requires n >= 1
    ensures var L := |Join(SplitLimit(s, [c], n), [c])|;
      && L <= |s|
      && (Count(s, c) < n ==> L == |s|)
      && (Count(s, c) >= n ==> L < |s| && s[L] == c && Count(s[..L], c) == n - 1)
  {
    if Count(s, c) >= n {
      JoinedPrefixAtLeast(s, c, n);
    } else {
      SplitCount(s, c);
      SplitJoin(s, [c]);
    }
  }

  /** The decimal digit character for `d`. */
  function DigitChar(d: nat): (c: char)
    requires d < 10
    ensures '0' <= c <= '9' && c as int - '0' as int == d
  {
    ['0', '1', '2', '3', '4', '5', '6', '7', '8', '9'][d]
  }

  predicate IsDigit(c: char) {
    '0' <= c <= '9'
  }

  predicate AllDigits(s: string) {
    forall i :: 0 <= i < |s| ==> IsDigit(s[i])
  }

  /** The number a string of decimal digits denotes. */
  function DigitsValue(s: string): nat
    requires AllDigits(s)
  {
    if |s| == 0 then 0
    else DigitsValue(s[..|s| - 1]) * 10 + (s[|s| - 1] as int - '0' as int)
  }

  /** The decimal rendering of a natural number, as `${n}` produces it. */
  function NatToString(n: nat): (r: string)
    ensures |r| >= 1 && AllDigits(r)
    ensures r[0] == '0' ==> n == 0
    ensures DigitsValue(r) == n
  {
    if n < 10 then [DigitChar(n)]
    else
      var r := NatToString(n / 10) + [DigitChar(n % 10)];
      assert r[..|r| - 1] == NatToString(n / 10);
      r
  }
}
