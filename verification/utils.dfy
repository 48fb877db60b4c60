/** `split_list` and the quote-level bookkeeping of `hun_law/utils.py`. */
module Utils {
  import opened Wrappers
  import opened Text
  import opened Lines

  // ---------------------------------------------------------------------
  // split_list

  function Flatten<T>(groups: seq<seq<T>>): seq<T> {
    if |groups| == 0 then [] else groups[0] + Flatten(groups[1..])
  }

  lemma {:induction false} FlattenAppend<T>(groups: seq<seq<T>>, g: seq<T>)
    ensures Flatten(groups + [g]) == Flatten(groups) + g
  {
    if |groups| == 0 {
      assert groups + [g] == [g];
    } else {
      assert (groups + [g])[1..] == groups[1..] + [g];
      FlattenAppend(groups[1..], g);
    }
  }

  /** The needle occurs in `g` at most as its first element. */
  predicate NeedleOnlyAtHead<T(==)>(g: seq<T>, needle: T) {
    forall j | 1 <= j < |g| :: g[j] != needle
  }

  /** `groups` is the way `split_list` cuts `hay`: the groups concatenate to
      the input, none is empty, every group but the first starts with the
      needle, and the needle starts a group wherever it occurs. */
  predicate IsSplit<T(==)>(groups: seq<seq<T>>, hay: seq<T>, needle: T) {
    && Flatten(groups) == hay
    && (forall i | 0 <= i < |groups| :: |groups[i]| > 0 && NeedleOnlyAtHead(groups[i], needle))
    && (forall i | 1 <= i < |groups| :: groups[i][0] == needle)
  }

  /** `split_list(haystack, needle)`: a new group starts at every occurrence
      of the needle, unless nothing has been collected yet. */
  method SplitList<T(==)>(hay: seq<T>, needle: T) returns (groups: seq<seq<T>>)
    ensures IsSplit(groups, hay, needle)
  {
    groups := [];
    var current: seq<T> := [];
    var i := 0;
    while i < |hay|
      invariant 0 <= i <= |hay|
      invariant Flatten(groups) + current == hay[..i]
      invariant |current| == 0 <==> i == 0
      invariant NeedleOnlyAtHead(current, needle)
      invariant |groups| > 0 ==> |current| > 0 && current[0] == needle
      invariant forall k | 0 <= k < |groups| :: |groups[k]| > 0 && NeedleOnlyAtHead(groups[k], needle)
      invariant forall k | 1 <= k < |groups| :: groups[k][0] == needle
    {
      var e := hay[i];
      if e == needle && current != [] {
        FlattenAppend(groups, current);
        groups := groups + [current];
        current := [];
      }
      current := current + [e];
      i := i + 1;
    }
    assert hay[..i] == hay;
    if current != [] {
      FlattenAppend(groups, current);
      groups := groups + [current];
    }
  }

  /** The cut is determined by the input: two groupings with the properties
      of `IsSplit` are the same, so `IsSplit` is a complete description of
      `split_list`. */
  lemma {:induction false} SplitUnique<T>(a: seq<seq<T>>, b: seq<seq<T>>, hay: seq<T>, needle: T)
    requires IsSplit(a, hay, needle) && IsSplit(b, hay, needle)
    ensures a == b
    decreases |hay|
  {
    FlattenEmpty(a, hay, needle);
    FlattenEmpty(b, hay, needle);
    if |a| == 0 {
    } else {
      var m := |a[0]|;
      HeadLength(a, hay, needle);
      HeadLength(b, hay, needle);
      HeadNotShorter(a, b, hay, needle);
      HeadNotShorter(b, a, hay, needle);
      assert a[0] == hay[..m] == b[0];
      TailIsSplit(a, hay, needle);
      TailIsSplit(b, hay, needle);
      SplitUnique(a[1..], b[1..], hay[m..], needle);
      assert a == [a[0]] + a[1..];
      assert b == [b[0]] + b[1..];
    }
  }

  /** A first group runs up to the next needle, so it is at least as long
      as any other split's first group. */
  lemma HeadNotShorter<T>(a: seq<seq<T>>, b: seq<seq<T>>, hay: seq<T>, needle: T)
    requires IsSplit(a, hay, needle) && IsSplit(b, hay, needle) && |a| > 0 && |b| > 0
    ensures |a[0]| >= |b[0]|
  {
    HeadLength(a, hay, needle);
    HeadLength(b, hay, needle);
    assert forall j | 1 <= j < |b[0]| :: hay[j] == b[0][j] != needle;
  }

  /** Without empty groups, no groups is the same as no elements. */
  lemma FlattenEmpty<T>(a: seq<seq<T>>, hay: seq<T>, needle: T)
    requires IsSplit(a, hay, needle)
    ensures |a| == 0 <==> |hay| == 0
  {
    if |a| > 0 {
      assert hay == a[0] + Flatten(a[1..]);
    }
  }

  /** The first group ends exactly before the next occurrence of the needle
      (or at the end of the input). */
  lemma HeadLength<T>(a: seq<seq<T>>, hay: seq<T>, needle: T)
    requires IsSplit(a, hay, needle) && |a| > 0
    ensures |a[0]| <= |hay| && a[0] == hay[..|a[0]|]
    ensures |a[0]| < |hay| ==> hay[|a[0]|] == needle
  {
    assert hay == a[0] + Flatten(a[1..]);
    if |a[0]| < |hay| {
      assert |a[1..]| > 0 by {
        assert |Flatten(a[1..])| > 0;
      }
      assert Flatten(a[1..]) == a[1] + Flatten(a[2..]) by {
        assert a[1..][1..] == a[2..];
      }
      assert hay[|a[0]|] == a[1][0];
    }
  }

  lemma TailIsSplit<T>(a: seq<seq<T>>, hay: seq<T>, needle: T)
    requires IsSplit(a, hay, needle) && |a| > 0
    ensures IsSplit(a[1..], hay[|a[0]|..], needle)
  {
    assert hay == a[0] + Flatten(a[1..]);
    assert hay[|a[0]|..] == Flatten(a[1..]);
  }

  // ---------------------------------------------------------------------
  // Quote levels

  /** `quote_level_diff`: opening „ and “ marks minus closing ” marks. */
  function QuoteLevelDiff(s: string): int {
    Count(s, '„') + Count(s, '“') - Count(s, '”')
  }

  lemma QuoteLevelDiffAppend(a: string, b: string)
    ensures QuoteLevelDiff(a + b) == QuoteLevelDiff(a) + QuoteLevelDiff(b)
  {
    CountAppend(a, b, '„');
    CountAppend(a, b, '“');
    CountAppend(a, b, '”');
  }

  /** The quote level after the given lines. */
  function LevelAfter(lines: seq<Line>): int {
    if |lines| == 0 then 0
    else LevelAfter(lines[..|lines| - 1]) + QuoteLevelDiff(lines[|lines| - 1].Content())
  }

  /** The level after some lines is the level of their concatenated text. */
  lemma {:induction false} LevelAfterContent(lines: seq<Line>)
    ensures LevelAfter(lines) == QuoteLevelDiff(LinesContent(lines))
  {
    if |lines| > 0 {
      var init := lines[..|lines| - 1];
      LevelAfterContent(init);
      assert lines == init + [lines[|lines| - 1]];
      LinesContentAppend(init, [lines[|lines| - 1]]);
      var last := lines[|lines| - 1];
      assert [last][1..] == [];
      assert LinesContent([last]) == last.Content() + LinesContent([]);
      assert LinesContent(lines) == LinesContent(init) + last.Content();
      QuoteLevelDiffAppend(LinesContent(init), lines[|lines| - 1].Content());
    }
  }

  lemma {:induction false} LinesContentAppend(a: seq<Line>, b: seq<Line>)
    ensures LinesContent(a + b) == LinesContent(a) + LinesContent(b)
  {
    if |a| > 0 {
      assert (a + b)[1..] == a[1..] + b;
      LinesContentAppend(a[1..], b);
    } else {
      assert a + b == b;
    }
  }

  /** The levels `iterate_with_quote_level` yields, one per line: it starts
      at zero, each line moves it by that line's difference, so each level is
      the quote-level change of all the text before its line. */
  method QuoteLevels(lines: seq<Line>) returns (levels: seq<int>)
    ensures |levels| == |lines|
    ensures |lines| > 0 ==> levels[0] == 0
    ensures forall i | 0 <= i < |lines| - 1 :: levels[i + 1] == levels[i] + QuoteLevelDiff(lines[i].Content())
    ensures forall i | 0 <= i < |lines| :: levels[i] == QuoteLevelDiff(LinesContent(lines[..i]))
  {
    levels := [];
    var level := 0;
    for k := 0 to |lines|
      invariant |levels| == k
      invariant level == LevelBefore(lines, k)
      invariant forall i | 0 <= i < k :: levels[i] == LevelBefore(lines, i)
    {
      levels := levels + [level];
      LevelStep(lines, k);
      level := level + QuoteLevelDiff(lines[k].Content());
    }
    forall i | 0 <= i < |lines| - 1
      ensures levels[i + 1] == levels[i] + QuoteLevelDiff(lines[i].Content())
    {
      LevelStep(lines, i);
    }
    forall i | 0 <= i < |lines|
      ensures levels[i] == QuoteLevelDiff(LinesContent(lines[..i]))
    {
      LevelAfterContent(lines[..i]);
    }
  }

  /** The level `iterate_with_quote_level` yields with line `i` of `lines`. */
  function LevelBefore(lines: seq<Line>, i: nat): int
    requires i <= |lines|
  {
    LevelAfter(lines[..i])
  }

  /** Each yielded level is the previous one plus the previous line's
      difference. */
  lemma LevelStep(lines: seq<Line>, i: nat)
    requires i < |lines|
    ensures LevelBefore(lines, i + 1) == LevelBefore(lines, i) + QuoteLevelDiff(lines[i].Content())
  {
    assert lines[..i + 1][..i] == lines[..i];
  }

  /** What `iterate_with_quote_level` raises once all lines have been
      consumed: ValueError exactly when the quoting does not balance. */
  function QuotingCheck(lines: seq<Line>): (r: Result<()>)
    ensures r.Ok? <==> LevelAfter(lines) == 0
    ensures r.Err? ==> r.error == ValueError
  {
    if LevelAfter(lines) != 0 then Err(ValueError) else Ok(())
  }
}
