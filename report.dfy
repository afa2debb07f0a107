/**
 * The two steps that end the end-to-end test pipeline in Gruntfile.js:
 * `trimJsonOutput`, which cuts the report array out of the raw report text
 * and joins concatenated arrays, and `checkTestFailed`, which fails the
 * build when the report holds a failed status. The file read and write
 * around them are left to the caller: the report text is a parameter and
 * the repaired text is the result.
 */
module Report {
  import opened Wrappers
  import opened Text

  /** The two fatal outcomes of the report steps. */
  datatype ReportError =
    | PatternMismatch  // the report text does not match; `match(...)` is null and `[1]` throws
    | FailuresFound    // `grunt.fail.fatal('Test failures found', 1)`

  /** The literal symbols of the tail `\}\s+\]\s+\}\s+\]\s+\}\s+\]`, in order. */
  const Tail: string := "}]}]}]"

  /** The text whose presence marks a failed test. */
  const FailedMarker: string := "\"status\": \"failed\""

  // ---------------------------------------------------------------------
  // The regular expression /(\[\s+\{[\s\S]*\}\s+\]\s+\}\s+\]\s+\}\s+\])/
  // ---------------------------------------------------------------------

  /** The length of the longest run of whitespace starting at `p`. */
  function WsRun(s: string, p: nat): (n: nat)
    requires p <= |s|
    ensures p + n <= |s|
    ensures forall q :: p <= q < p + n ==> IsWhitespace(s[q])
    ensures p + n == |s| || !IsWhitespace(s[p + n])
    decreases |s| - p
  {
    if p < |s| && IsWhitespace(s[p]) then 1 + WsRun(s, p + 1) else 0
  }

  /** `\[\s+\{` matches `s[i..j + 1]`. */
  ghost predicate OpenShape(s: string, i: nat, j: nat)
  {
    i + 1 < j < |s| && s[i] == '[' && s[j] == '{' && forall q :: i < q < j ==> IsWhitespace(s[q])
  }

  /** Where `\[\s+\{` matched at `i` ends: the index of its `{`. */
  function OpenAt(s: string, i: nat): (r: Option<nat>)
    ensures r.Some? ==> i + 1 < r.value < |s| && s[i] == '[' && s[r.value] == '{'
  {
    if i < |s| && s[i] == '[' then
      var n := WsRun(s, i + 1);
      if n > 0 && i + 1 + n < |s| && s[i + 1 + n] == '{' then Some(i + 1 + n) else None
    else None
  }

  /** `s[a..q]` is a non-empty run of whitespace (one `\s+`). */
  ghost predicate WsGap(s: string, a: nat, q: nat)
  {
    a < q <= |s| && forall t :: a <= t < q ==> IsWhitespace(s[t])
  }

  /**
   * The symbols of `syms` matched from `p` with at least one whitespace
   * character between neighbours: holds when the match ends at `e`.
   */
  ghost predicate SeparatedShape(s: string, p: nat, e: nat, syms: string)
    decreases |syms|
  {
    if |syms| == 0 then false
    else if |syms| == 1 then p < |s| && s[p] == syms[0] && e == p + 1
    else
      p < |s| && s[p] == syms[0] &&
      exists q: nat :: WsGap(s, p + 1, q) && SeparatedShape(s, q, e, syms[1..])
  }

  /** The end of the match of `syms[0] \s+ syms[1] ... \s+ syms[n-1]` from `p`, if any. */
  function Separated(s: string, p: nat, syms: string): (r: Option<nat>)
    requires |syms| > 0
    ensures r.Some? ==> p < r.value <= |s| && s[r.value - 1] == syms[|syms| - 1]
    decreases |syms|
  {
    if p < |s| && s[p] == syms[0] then
      if |syms| == 1 then Some(p + 1)
      else
        var n := WsRun(s, p + 1);
        if n > 0 then Separated(s, p + 1 + n, syms[1..]) else None
    else None
  }

  /** With no whitespace among the symbols, each `\s+` must take the whole run, so the scan finds exactly the regular expression's matches. */
  lemma SeparatedMeaning(s: string, p: nat, e: nat, syms: string)
    requires |syms| > 0 && forall k :: 0 <= k < |syms| ==> !IsWhitespace(syms[k])
    ensures SeparatedShape(s, p, e, syms) <==> Separated(s, p, syms) == Some(e)
  {
    if SeparatedShape(s, p, e, syms) {
      ShapeIsSeparated(s, p, e, syms);
    }
    if Separated(s, p, syms) == Some(e) {
      SeparatedIsShape(s, p, e, syms);
    }
  }

  lemma VisibleRest(syms: string)
    requires |syms| > 1 && forall k :: 0 <= k < |syms| ==> !IsWhitespace(syms[k])
    ensures forall k :: 0 <= k < |syms[1..]| ==> !IsWhitespace(syms[1..][k])
  {
    forall k | 0 <= k < |syms[1..]| ensures !IsWhitespace(syms[1..][k]) { assert syms[1..][k] == syms[k + 1]; }
  }

  lemma {:induction false} ShapeIsSeparated(s: string, p: nat, e: nat, syms: string)
    requires |syms| > 0 && forall k :: 0 <= k < |syms| ==> !IsWhitespace(syms[k])
    requires SeparatedShape(s, p, e, syms)
    ensures Separated(s, p, syms) == Some(e)
    decreases |syms|
  {
    if |syms| > 1 {
      var rest := syms[1..];
      VisibleRest(syms);
      SeparatedShapeGap(s, p, e, syms);
      var q: nat :| WsGap(s, p + 1, q) && SeparatedShape(s, q, e, rest);
      SeparatedStarts(s, q, e, rest);
      assert !IsWhitespace(s[q]) by { assert s[q] == rest[0]; }
      WsRunEndsAt(s, p + 1, q);
      ShapeIsSeparated(s, q, e, rest);
    }
  }

  /** A whitespace run that stops at a visible character is the one `WsRun` measures. */
  lemma WsRunEndsAt(s: string, a: nat, q: nat)
    requires WsGap(s, a, q) && q < |s| && !IsWhitespace(s[q])
    ensures WsRun(s, a) == q - a
  {
  }

  lemma {:induction false} SeparatedIsShape(s: string, p: nat, e: nat, syms: string)
    requires |syms| > 0 && forall k :: 0 <= k < |syms| ==> !IsWhitespace(syms[k])
    requires Separated(s, p, syms) == Some(e)
    ensures SeparatedShape(s, p, e, syms)
    decreases |syms|
  {
    if |syms| > 1 {
      var rest := syms[1..];
      VisibleRest(syms);
      var q := p + 1 + WsRun(s, p + 1);
      SeparatedIsShape(s, q, e, rest);
      assert WsGap(s, p + 1, q) && SeparatedShape(s, q, e, rest);
    }
  }

  lemma SeparatedShapeGap(s: string, p: nat, e: nat, syms: string)
    requires |syms| > 1 && SeparatedShape(s, p, e, syms)
    ensures exists q: nat :: WsGap(s, p + 1, q) && SeparatedShape(s, q, e, syms[1..])
  {
  }

  lemma SeparatedStarts(s: string, p: nat, e: nat, syms: string)
    requires SeparatedShape(s, p, e, syms)
    ensures |syms| > 0 && p < |s| && s[p] == syms[0]
  {
  }

  /** With `{` not whitespace, `\s+` must take the whole run: the scan finds exactly the `\[\s+\{` matches. */
  lemma OpenAtMeaning(s: string, i: nat, j: nat)
    ensures OpenShape(s, i, j) <==> OpenAt(s, i) == Some(j)
  {
  }

  /**
   * The symbols of `tail`, separated by whitespace, match from `k`. The
   * pattern's tail `\}\s+\]\s+\}\s+\]\s+\}\s+\]` is `TailAt(s, k, Tail)`;
   * the scan below is written for any tail so that it stays independent of
   * the literal.
   */
  predicate TailAt(s: string, k: nat, tail: string)
  {
    |tail| > 0 && Separated(s, k, tail).Some?
  }

  /** The pattern matches with its `[` at `i` and its tail's first symbol at `k`. */
  predicate MatchAt(s: string, i: nat, k: nat, tail: string)
  {
    OpenAt(s, i).Some? && OpenAt(s, i).value < k && TailAt(s, k, tail)
  }

  /** `\[\s+\{` matches at `j` and ends before `k`. */
  predicate OpensBefore(s: string, j: nat, k: nat)
  {
    OpenAt(s, j).Some? && OpenAt(s, j).value < k
  }

  /** The greatest index below `k` where the tail matches, scanning down. */
  function LastTail(s: string, k: nat, tail: string): (r: Option<nat>)
    ensures r.Some? ==> r.value < k && TailAt(s, r.value, tail)
  {
    if k == 0 then None
    else if TailAt(s, k - 1, tail) then Some(k - 1)
    else LastTail(s, k - 1, tail)
  }

  /** No tail matches above the one `LastTail` finds, and none at all when it finds none. */
  lemma {:induction false} LastTailGreatest(s: string, k: nat, tail: string)
    ensures LastTail(s, k, tail).Some? ==> forall q: nat :: LastTail(s, k, tail).value < q < k ==> !TailAt(s, q, tail)
    ensures LastTail(s, k, tail).None? ==> forall q: nat :: q < k ==> !TailAt(s, q, tail)
  {
    if k > 0 && !TailAt(s, k - 1, tail) {
      LastTailGreatest(s, k - 1, tail);
    }
  }

  /** The least index from `i` on where `\[\s+\{` matches and ends before `k`, scanning up. */
  function FirstOpen(s: string, i: nat, k: nat): (r: Option<nat>)
    ensures r.Some? ==> i <= r.value && OpensBefore(s, r.value, k)
    decreases |s| - i
  {
    if i >= |s| then None
    else if OpensBefore(s, i, k) then Some(i)
    else FirstOpen(s, i + 1, k)
  }

  /** No opening matches before the one `FirstOpen` finds, and none at all when it finds none. */
  lemma {:induction false} FirstOpenLeast(s: string, i: nat, k: nat)
    ensures FirstOpen(s, i, k).Some? ==> forall j: nat :: i <= j < FirstOpen(s, i, k).value ==> !OpensBefore(s, j, k)
    ensures FirstOpen(s, i, k).None? ==> forall j: nat :: i <= j ==> !OpensBefore(s, j, k)
    decreases |s| - i
  {
    if i < |s| && !OpensBefore(s, i, k) {
      FirstOpenLeast(s, i + 1, k);
    }
  }

  /**
   * Where `String.prototype.match` finds the pattern: the leftmost start,
   * and there the greedy `[\s\S]*` runs to the last tail that fits.
   */
  function MatchSpan(s: string, tail: string): (r: Option<(nat, nat)>)
    ensures r.Some? ==> MatchAt(s, r.value.0, r.value.1, tail)
  {
    match LastTail(s, |s|, tail)
    case None => None
    case Some(k) =>
      match FirstOpen(s, 0, k)
      case None => None
      case Some(i) => Some((i, k))
  }

  /** Every tail lies at or below the one `LastTail` finds from the end of the text. */
  lemma TailsUpToLast(s: string, tail: string)
    ensures LastTail(s, |s|, tail).None? ==> forall q: nat :: !TailAt(s, q, tail)
    ensures LastTail(s, |s|, tail).Some? ==> forall q: nat :: TailAt(s, q, tail) ==> q <= LastTail(s, |s|, tail).value
  {
    LastTailGreatest(s, |s|, tail);
  }

  /** `MatchSpan` finds a match whenever there is one, the leftmost, and there the one with the last tail. */
  lemma MatchSpanChoice(s: string, tail: string)
    ensures MatchSpan(s, tail).None? <==> forall i: nat, k: nat :: !MatchAt(s, i, k, tail)
    ensures MatchSpan(s, tail).Some? ==> forall i: nat, k: nat :: i < MatchSpan(s, tail).value.0 ==> !MatchAt(s, i, k, tail)
    ensures MatchSpan(s, tail).Some? ==> forall k: nat :: MatchSpan(s, tail).value.1 < k ==> !MatchAt(s, MatchSpan(s, tail).value.0, k, tail)
  {
    TailsUpToLast(s, tail);
    var last := LastTail(s, |s|, tail);
    if last.Some? {
      var top := last.value;
      FirstOpenLeast(s, 0, top);
      forall i: nat, k: nat | MatchAt(s, i, k, tail) ensures OpensBefore(s, i, top) {
        assert k <= top;
      }
    }
  }

  /** The text of the match, `testOutput.match(...)[1]`; `None` when `match` returns null. */
  function Extract(s: string, tail: string): (r: Option<string>)
    ensures r.None? <==> MatchSpan(s, tail).None?
    ensures r.Some? ==> |r.value| >= 2 && r.value[0] == '[' && |tail| > 0 && r.value[|r.value| - 1] == tail[|tail| - 1]
  {
    match MatchSpan(s, tail)
    case None => None
    case Some((i, k)) =>
      OpenAtBounds(s, i);
      var e := Separated(s, k, tail).value;
      assert s[i..e][0] == s[i] && s[i..e][e - i - 1] == s[e - 1];
      Some(s[i..e])
  }

  lemma OpenAtBounds(s: string, i: nat)
    ensures OpenAt(s, i).Some? ==> i + 1 < OpenAt(s, i).value < |s| && s[i] == '['
  {
  }

  /** `Extract` fails exactly when the pattern matches nowhere. */
  lemma ExtractMeaning(s: string, tail: string)
    ensures Extract(s, tail).None? <==> forall i: nat, k: nat :: !MatchAt(s, i, k, tail)
  {
    MatchSpanChoice(s, tail);
  }

  /** The pattern as a relation: `\[\s+\{`, any text, then the tail, covering `s[i..e]`. */
  ghost predicate PatternShape(s: string, i: nat, e: nat, tail: string)
  {
    exists j: nat, k: nat :: OpenShape(s, i, j) && j < k && SeparatedShape(s, k, e, tail)
  }

  /** Neither `}` nor `]` is whitespace. */
  lemma TailSymbolsVisible()
    ensures |Tail| > 0 && forall k :: 0 <= k < |Tail| ==> !IsWhitespace(Tail[k])
  {
    assert forall k :: 0 <= k < |Tail| ==> Tail[k] == '}' || Tail[k] == ']';
  }

  /** The pattern's tail ends by closing an array. */
  lemma TailClosesArray()
    ensures |Tail| > 0 && Tail[|Tail| - 1] == ']'
  {
  }

  /** The text the report pattern extracts opens and closes an array. */
  lemma ExtractClosesArray(s: string)
    requires Extract(s, Tail).Some?
    ensures var d := Extract(s, Tail).value; d[0] == '[' && d[|d| - 1] == ']'
  {
    ExtractEnds(s, Tail);
    TailClosesArray();
  }

  /** The extracted text opens with `[` and closes with the tail's last symbol. */
  lemma ExtractEnds(s: string, tail: string)
    requires Extract(s, tail).Some?
    ensures var d := Extract(s, tail).value; |tail| > 0 && d[0] == '[' && d[|d| - 1] == tail[|tail| - 1]
  {
  }

  /** The scan finds exactly the pattern's matches, each with its one end. */
  lemma MatchAtMeaning(s: string, i: nat, e: nat)
    ensures PatternShape(s, i, e, Tail) <==>
      exists k: nat :: MatchAt(s, i, k, Tail) && Separated(s, k, Tail) == Some(e)
  {
    TailSymbolsVisible();
    if PatternShape(s, i, e, Tail) {
      var j: nat, k: nat :| OpenShape(s, i, j) && j < k && SeparatedShape(s, k, e, Tail);
      OpenAtMeaning(s, i, j);
      SeparatedMeaning(s, k, e, Tail);
      assert MatchAt(s, i, k, Tail);
    }
    if exists k: nat :: MatchAt(s, i, k, Tail) && Separated(s, k, Tail) == Some(e) {
      var k: nat :| MatchAt(s, i, k, Tail) && Separated(s, k, Tail) == Some(e);
      SeparatedMeaning(s, k, e, Tail);
      OpenAtMeaning(s, i, OpenAt(s, i).value);
    }
  }

  /**
   * What `match` returns: the text from the leftmost position where the
   * pattern matches to the end of the last tail that fits there.
   */
  lemma ExtractLeftmostGreedy(s: string, tail: string)
    requires Extract(s, tail).Some?
    ensures exists i: nat, k: nat ::
      MatchAt(s, i, k, tail) && Extract(s, tail).value == s[i..Separated(s, k, tail).value] &&
      (forall i': nat, k': nat :: i' < i ==> !MatchAt(s, i', k', tail)) &&
      (forall k': nat :: k < k' ==> !MatchAt(s, i, k', tail))
  {
    MatchSpanChoice(s, tail);
    var i, k := MatchSpan(s, tail).value.0, MatchSpan(s, tail).value.1;
    assert MatchAt(s, i, k, tail) && Extract(s, tail).value == s[i..Separated(s, k, tail).value];
  }

  /** A report with no whitespace at all never matches: the pattern needs whitespace after its first `[`. */
  lemma NoWhitespaceNoMatch(s: string, tail: string)
    requires forall q :: 0 <= q < |s| ==> !IsWhitespace(s[q])
    ensures Extract(s, tail).None?
  {
    forall i: nat, k: nat ensures !MatchAt(s, i, k, tail) {
      if i < |s| && s[i] == '[' {
        assert WsRun(s, i + 1) == 0;
      }
    }
    ExtractMeaning(s, tail);
  }

  // ---------------------------------------------------------------------
  // data.replace(/\]\[/g, ',')
  // ---------------------------------------------------------------------

  /** Every `][` replaced by `,`, scanning left to right. */
  function JoinArrays(d: string): string
    decreases |d|
  {
    if |d| >= 2 && d[0] == ']' && d[1] == '[' then "," + JoinArrays(d[2..])
    else if d == [] then []
    else [d[0]] + JoinArrays(d[1..])
  }

  /** The number of occurrences of `][` in `d`. */
  function CountJoins(d: string): nat
    decreases |d|
  {
    if |d| < 2 then 0
    else (if d[0] == ']' && d[1] == '[' then 1 else 0) + CountJoins(d[1..])
  }

  /** Each `][` shrinks to one character. */
  lemma {:induction false} JoinArraysLength(d: string)
    ensures |JoinArrays(d)| == |d| - CountJoins(d)
    decreases |d|
  {
    if |d| >= 2 && d[0] == ']' && d[1] == '[' {
      JoinArraysLength(d[2..]);
      assert d[1..][1..] == d[2..];
      assert CountJoins(d[1..]) == CountJoins(d[2..]);
    } else if d != [] {
      JoinArraysLength(d[1..]);
    }
  }

  lemma JoinArraysHead(d: string)
    ensures JoinArrays(d) == [] <==> d == []
    ensures d != [] ==> JoinArrays(d)[0] == if |d| >= 2 && d[0] == ']' && d[1] == '[' then ',' else d[0]
  {
  }

  /** The result holds no `][`. */
  lemma {:induction false} JoinArraysNoJoin(d: string)
    ensures !Contains(JoinArrays(d), "][")
    decreases |d|
  {
    var r := JoinArrays(d);
    if |d| >= 2 && d[0] == ']' && d[1] == '[' {
      JoinArraysNoJoin(d[2..]);
      assert r == [','] + JoinArrays(d[2..]);
      ContainsCons(',', JoinArrays(d[2..]), "][");
      assert !OccursAt(r, "][", 0) by {
        if |r| >= 2 { assert r[0..2][0] == r[0] == ','; }
      }
    } else if d != [] {
      JoinArraysNoJoin(d[1..]);
      assert r == [d[0]] + JoinArrays(d[1..]);
      ContainsCons(d[0], JoinArrays(d[1..]), "][");
      if d[0] == ']' && |d| >= 2 {
        JoinArraysHead(d[1..]);
        assert r[1] == JoinArrays(d[1..])[0];
      }
    } else {
      assert !OccursAt(r, "][", 0);
    }
  }

  /** A text with no `][` is left as it is. */
  lemma {:induction false} JoinArraysIdentity(d: string)
    requires !Contains(d, "][")
    ensures JoinArrays(d) == d
    decreases |d|
  {
    if d != [] {
      assert d == [d[0]] + d[1..];
      ContainsCons(d[0], d[1..], "][");
      assert !(|d| >= 2 && d[0] == ']' && d[1] == '[') by {
        if |d| >= 2 { assert d[0..2] == [d[0], d[1]]; }
      }
      JoinArraysIdentity(d[1..]);
    }
  }

  /** Replacing twice is replacing once. */
  lemma JoinArraysIdempotent(d: string)
    ensures JoinArrays(JoinArrays(d)) == JoinArrays(d)
  {
    JoinArraysNoJoin(d);
    JoinArraysIdentity(JoinArrays(d));
  }

  /** A text with none of `[`, `]` and `,`. */
  predicate Plain(p: string)
  {
    forall k :: 0 <= k < |p| ==> p[k] != '[' && p[k] != ']' && p[k] != ','
  }

  lemma OccursAtFrontCons(c: char, x: string, p: string)
    requires p != []
    ensures OccursAt([c] + x, p, 0) <==> c == p[0] && OccursAt(x, p[1..], 0)
  {
    if OccursAt([c] + x, p, 0) {
      assert ([c] + x)[1..|p|] == x[..|p| - 1];
      assert p[1..] == p[..|p|][1..];
    }
    if c == p[0] && OccursAt(x, p[1..], 0) {
      assert ([c] + x)[..|p|] == [c] + x[..|p| - 1];
      assert p == [p[0]] + p[1..];
    }
  }

  /** A plain text starts the repaired text exactly when it starts the original. */
  lemma {:induction false} JoinArraysKeepsPlainPrefix(d: string, p: string)
    requires p != [] && Plain(p)
    ensures OccursAt(JoinArrays(d), p, 0) <==> OccursAt(d, p, 0)
    decreases |d|
  {
    if |d| >= 2 && d[0] == ']' && d[1] == '[' {
      assert JoinArrays(d)[0] == ',';
    } else if d != [] {
      assert JoinArrays(d) == [d[0]] + JoinArrays(d[1..]);
      assert d == [d[0]] + d[1..];
      OccursAtFrontCons(d[0], JoinArrays(d[1..]), p);
      OccursAtFrontCons(d[0], d[1..], p);
      if |p| > 1 {
        assert Plain(p[1..]) by {
          forall k | 0 <= k < |p[1..]| ensures p[1..][k] != '[' && p[1..][k] != ']' && p[1..][k] != ',' {
            assert p[1..][k] == p[k + 1];
          }
        }
        JoinArraysKeepsPlainPrefix(d[1..], p[1..]);
      }
    }
  }

  /** A plain text occurs in the repaired text exactly when it occurs in the original. */
  lemma {:induction false} JoinArraysKeepsPlain(d: string, p: string)
    requires p != [] && Plain(p)
    ensures Contains(JoinArrays(d), p) <==> Contains(d, p)
    decreases |d|
  {
    if |d| >= 2 && d[0] == ']' && d[1] == '[' {
      var r := JoinArrays(d[2..]);
      assert JoinArrays(d) == [','] + r;
      ContainsCons(',', r, p);
      assert d == [']'] + ([d[1]] + d[2..]);
      ContainsCons(']', [d[1]] + d[2..], p);
      ContainsCons(d[1], d[2..], p);
      assert p[0] != ',' && p[0] != ']' && p[0] != '[';
      assert !OccursAt(JoinArrays(d), p, 0) by { assert JoinArrays(d)[0] == ','; }
      assert !OccursAt(d, p, 0) && !OccursAt([d[1]] + d[2..], p, 0) by {
        assert d[0] == ']' && ([d[1]] + d[2..])[0] == '[';
      }
      JoinArraysKeepsPlain(d[2..], p);
    } else if d != [] {
      assert JoinArrays(d) == [d[0]] + JoinArrays(d[1..]);
      assert d == [d[0]] + d[1..];
      ContainsCons(d[0], JoinArrays(d[1..]), p);
      ContainsCons(d[0], d[1..], p);
      JoinArraysKeepsPlainPrefix(d, p);
      JoinArraysKeepsPlain(d[1..], p);
    }
  }

  // ---------------------------------------------------------------------
  // The two grunt tasks
  // ---------------------------------------------------------------------

  /**
   * `trimJsonOutput`: the matched text with every `][` replaced by `,`,
   * which the task writes back over the report; a fatal error when the
   * pattern does not match.
   */
  function TrimJsonOutput(report: string): (r: Result<string, ReportError>)
    ensures r.Failure? <==> Extract(report, Tail).None?
    ensures r.Failure? ==> r.error == PatternMismatch
  {
    match Extract(report, Tail)
    case None => Failure(PatternMismatch)
    case Some(data) => Success(JoinArrays(data))
  }

  /** What a successful trim writes: a text of the report that is shorter by one for each `][` and holds none. */
  lemma TrimJsonOutputResult(report: string)
    requires TrimJsonOutput(report).Success?
    ensures var data, r := Extract(report, Tail).value, TrimJsonOutput(report).value;
      |r| == |data| - CountJoins(data) && !Contains(r, "][") && r == JoinArrays(data)
  {
    JoinArraysLength(Extract(report, Tail).value);
    JoinArraysNoJoin(Extract(report, Tail).value);
  }

  /** `checkTestFailed`: fails exactly when the failed-status text occurs somewhere in the report. */
  function CheckTestFailed(report: string): (r: Outcome<ReportError>)
    ensures r.Fail? <==> Contains(report, FailedMarker)
    ensures r.Fail? ==> r.error == FailuresFound
  {
    if IndexOf(report, FailedMarker) != -1 then Fail(FailuresFound) else Pass
  }

  /**
   * The last two tasks of `test:e2e` run one after the other on the same
   * file: trim the raw report, then check what was written.
   */
  function TrimThenCheck(raw: string): Outcome<ReportError>
  {
    match TrimJsonOutput(raw)
    case Failure(e) => Fail(e)
    case Success(trimmed) => CheckTestFailed(trimmed)
  }

  lemma FailedMarkerPlain()
    ensures FailedMarker != [] && Plain(FailedMarker)
  {
  }

  /**
   * The pipeline passes exactly when the pattern matches and the matched
   * text holds no failed status; the replacement can neither hide nor
   * create one.
   */
  lemma TrimThenCheckVerdict(raw: string)
    ensures TrimThenCheck(raw) == Fail(PatternMismatch) <==> Extract(raw, Tail).None?
    ensures TrimThenCheck(raw) == Fail(FailuresFound) <==>
      Extract(raw, Tail).Some? && Contains(Extract(raw, Tail).value, FailedMarker)
    ensures TrimThenCheck(raw) == Pass <==>
      Extract(raw, Tail).Some? && !Contains(Extract(raw, Tail).value, FailedMarker)
  {
    if Extract(raw, Tail).Some? {
      FailedMarkerPlain();
      JoinArraysKeepsPlain(Extract(raw, Tail).value, FailedMarker);
    }
  }
}
