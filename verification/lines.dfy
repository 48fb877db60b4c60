/** `IndentedLine`: a line of PDF text kept as the positioned parts it was
    assembled from, so that slicing can tell where each piece started.

    In the source an `IndentedLine` is immutable, and the line without parts
    is one shared instance (`EMPTY_LINE`). Every comparison of lines in the
    modelled code is against that instance, and a line has no parts exactly
    when it is that instance, so structural equality on `Line` behaves like
    the source's identity test. */
module Lines {
  import opened Wrappers

  /** A run of characters and the x coordinate where it starts. */
  datatype Part = Part(x: real, content: string)

  datatype Line = Line(parts: seq<Part>) {

    /** The concatenated text of the parts. */
    function Content(): string {
      PartsContent(parts)
    }

    /** The x coordinate of the first part; 0 for the empty line. */
    function Indent(): real {
      if |parts| == 0 then 0.0 else parts[0].x
    }
  }

  const EmptyLine := Line([])

  function PartsContent(ps: seq<Part>): string {
    if |ps| == 0 then "" else ps[0].content + PartsContent(ps[1..])
  }

  lemma {:induction false} PartsContentAppend(a: seq<Part>, b: seq<Part>)
    ensures PartsContent(a + b) == PartsContent(a) + PartsContent(b)
  {
    if |a| > 0 {
      assert (a + b)[1..] == a[1..] + b;
      PartsContentAppend(a[1..], b);
    } else {
      assert a + b == b;
    }
  }

  /** `IndentedLine.from_parts`: no parts gives the shared empty line;
      otherwise the indent is the first part's x and the content the parts'
      text in order. */
  function FromParts(ps: seq<Part>): (r: Line)
    ensures |ps| == 0 ==> r == EmptyLine
    ensures |ps| > 0 ==> r.Indent() == ps[0].x
    ensures r.Content() == PartsContent(ps)
    ensures r.parts == ps
  {
    Line(ps)
  }

  // ---------------------------------------------------------------------
  // Serialisable form: each part's x stored relative to the previous part.

  function ToDeltas(ps: seq<Part>, prev: real): (r: seq<(real, string)>)
    ensures |r| == |ps|
  {
    if |ps| == 0 then []
    else [(ps[0].x - prev, ps[0].content)] + ToDeltas(ps[1..], ps[0].x)
  }

  function FromDeltas(ds: seq<(real, string)>, current: real): (r: seq<Part>)
    ensures |r| == |ds|
  {
    if |ds| == 0 then []
    else
      var x := current + ds[0].0;
      [Part(x, ds[0].1)] + FromDeltas(ds[1..], x)
  }

  /** `to_serializable_form`: (x - previous x, content) pairs, the first
      relative to 0. */
  function ToSerializable(l: Line): (r: seq<(real, string)>)
    ensures |r| == |l.parts|
    ensures forall i | 0 <= i < |r| :: r[i].1 == l.parts[i].content
  {
    ToDeltasContents(l.parts, 0.0);
    ToDeltas(l.parts, 0.0)
  }

  lemma {:induction false} ToDeltasContents(ps: seq<Part>, prev: real)
    ensures forall i | 0 <= i < |ps| :: ToDeltas(ps, prev)[i].1 == ps[i].content
  {
    if |ps| > 0 {
      ToDeltasContents(ps[1..], ps[0].x);
    }
  }

  /** `from_serializable_form`: running sums of the stored deltas. */
  function FromSerializable(form: seq<(real, string)>): (r: Line)
    ensures |r.parts| == |form|
  {
    FromParts(FromDeltas(form, 0.0))
  }

  lemma {:induction false} DeltasRoundTrip(ps: seq<Part>, prev: real)
    ensures FromDeltas(ToDeltas(ps, prev), prev) == ps
  {
    if |ps| > 0 {
      DeltasRoundTrip(ps[1..], ps[0].x);
    }
  }

  /** Serialising and deserialising gives back the same line. */
  lemma SerializableRoundTrip(l: Line)
    ensures FromSerializable(ToSerializable(l)) == l
  {
    DeltasRoundTrip(l.parts, 0.0);
  }

  // ---------------------------------------------------------------------
  // Slicing on part boundaries.

  /** Length of the text of the first `k` parts. */
  function PrefixLen(ps: seq<Part>, k: nat): nat
    requires k <= |ps|
  {
    |PartsContent(ps[..k])|
  }

  lemma PrefixLenStep(ps: seq<Part>, k: nat)
    requires 1 <= k <= |ps|
    ensures PrefixLen(ps, k) == |ps[0].content| + PrefixLen(ps[1..], k - 1)
  {
    assert ps[..k] == [ps[0]] + ps[1..][..k - 1];
    PartsContentAppend([ps[0]], ps[1..][..k - 1]);
  }

  lemma PrefixLenSplit(ps: seq<Part>, k: nat, j: nat)
    requires k <= j <= |ps|
    ensures PrefixLen(ps, j) == PrefixLen(ps, k) + PrefixLen(ps[k..], j - k)
  {
    assert ps[..j] == ps[..k] + ps[k..][..j - k];
    PartsContentAppend(ps[..k], ps[k..][..j - k]);
  }

  /** How many parts `while consumed < target` swallows: the source's two
      slicing loops. */
  function SkipCount(ps: seq<Part>, target: int): (k: nat)
    ensures k <= |ps|
  {
    if target <= 0 || |ps| == 0 then 0
    else 1 + SkipCount(ps[1..], target - |ps[0].content|)
  }

  /** When some part boundary lies exactly at `target`, the loop stops at
      such a boundary, no later than the given one. */
  lemma {:induction false} SkipCountStopsAtBoundary(ps: seq<Part>, target: int, i: nat)
    requires i <= |ps| && PrefixLen(ps, i) == target
    ensures SkipCount(ps, target) <= i
    ensures PrefixLen(ps, SkipCount(ps, target)) == target
  {
    assert PrefixLen(ps, 0) == 0 by {
      assert ps[..0] == [];
    }
    if target > 0 && |ps| > 0 {
      PrefixLenStep(ps, i);
      var t' := target - |ps[0].content|;
      SkipCountStopsAtBoundary(ps[1..], t', i - 1);
      PrefixLenStep(ps, SkipCount(ps, target));
    }
  }

  /** Python slice bounds: negative values count from the end, a missing end
      means the length. */
  function NormalizeBounds(n: nat, start: int, end: Option<int>): (int, int) {
    var s := if start < 0 then n + start else start;
    var e := if end.None? then n else if end.value < 0 then n + end.value else end.value;
    (s, e)
  }

  /** Part boundaries lie at both text offsets `s` and `e`. */
  predicate CutsAt(ps: seq<Part>, i: int, j: int, s: int, e: int) {
    0 <= i < j <= |ps| && PrefixLen(ps, i) == s && PrefixLen(ps, j) == e
  }

  ghost predicate BoundariesAt(ps: seq<Part>, s: int, e: int) {
    exists i, j :: CutsAt(ps, i, j, s, e)
  }

  /** `IndentedLine.slice(start, end)`. The whole line is returned as is, an
      empty or reversed range gives the empty line, and otherwise the result
      is the run of parts between two part boundaries; when the requested
      offsets are not both part boundaries the source raises ValueError, or
      returns the empty line when the start falls in the last part. */
  function Slice(l: Line, start: int, end: Option<int>): (r: Result<Line>)
    ensures var (s, e) := NormalizeBounds(|l.Content()|, start, end);
      && (s == 0 && e == |l.Content()| ==> r == Ok(l))
      && (!(s == 0 && e == |l.Content()|) && e <= s ==> r == Ok(EmptyLine))
      && (!(s == 0 && e == |l.Content()|) && r.Ok? && r.value != EmptyLine ==>
            exists i, j :: CutsAt(l.parts, i, j, s, e) && r.value.parts == l.parts[i..j])
      && (!(s == 0 && e == |l.Content()|) && s < e && BoundariesAt(l.parts, s, e) ==>
            r.Ok? && r.value != EmptyLine)
    ensures r.Err? ==> r.error == ValueError
  {
    var ps := l.parts;
    var (s, e) := NormalizeBounds(|l.Content()|, start, end);
    if s == 0 && e == |l.Content()| then Ok(l)
    else if e <= s then Ok(EmptyLine)
    else
      var k := SkipCount(ps, s);
      if k >= |ps| then
        SliceBoundaryLemma(ps, s, e);
        Ok(EmptyLine)
      else if PrefixLen(ps, k) != s then
        SliceBoundaryLemma(ps, s, e);
        Err(ValueError)
      else
        var m := SkipCount(ps[k..], e - s);
        if PrefixLen(ps[k..], m) != e - s then
          SliceBoundaryLemma(ps, s, e);
          Err(ValueError)
        else
          PrefixLenSplit(ps, k, k + m);
          assert ps[k..][..m] == ps[k..k + m];
          assert m > 0 by {
            assert ps[k..][..0] == [];
          }
          assert CutsAt(ps, k, k + m, s, e);
          Ok(FromParts(ps[k..k + m]))
  }

  /** If both offsets are part boundaries, both loops of the source land on
      them. */
  lemma SliceBoundaryLemma(ps: seq<Part>, s: int, e: int)
    requires s < e
    ensures BoundariesAt(ps, s, e) ==>
      var k := SkipCount(ps, s);
      && k < |ps| && PrefixLen(ps, k) == s
      && PrefixLen(ps[k..], SkipCount(ps[k..], e - s)) == e - s
  {
    if BoundariesAt(ps, s, e) {
      var i, j :| CutsAt(ps, i, j, s, e);
      SkipCountStopsAtBoundary(ps, s, i);
      var k := SkipCount(ps, s);
      PrefixLenSplit(ps, k, j);
      SkipCountStopsAtBoundary(ps[k..], e - s, j - k);
    }
  }

  /** A successful proper slice holds exactly the requested characters and is
      indented like the part it starts with. */
  lemma SliceContent(l: Line, start: int, end: Option<int>)
    requires Slice(l, start, end).Ok?
    ensures var (s, e) := NormalizeBounds(|l.Content()|, start, end);
      var r := Slice(l, start, end).value;
      r != EmptyLine ==>
        && 0 <= s <= e <= |l.Content()|
        && r.Content() == l.Content()[s..e]
        && (exists i | 0 <= i < |l.parts| :: r.Indent() == l.parts[i].x && PrefixLen(l.parts, i) == s)
  {
    var (s, e) := NormalizeBounds(|l.Content()|, start, end);
    var r := Slice(l, start, end).value;
    if r != EmptyLine {
      if s == 0 && e == |l.Content()| {
        assert l.parts[..|l.parts|] == l.parts;
        assert l.Content()[s..e] == l.Content();
        assert r.Indent() == l.parts[0].x && PrefixLen(l.parts, 0) == s by {
          assert l.parts[..0] == [];
        }
      } else {
        var i, j :| CutsAt(l.parts, i, j, s, e) && r.parts == l.parts[i..j];
        CutContent(l.parts, i, j, s, e);
        assert r.Indent() == l.parts[i].x;
      }
    }
  }

  /** A text offset at which some part starts, or the end of the text. */
  ghost predicate Boundary(ps: seq<Part>, k: int) {
    exists i | 0 <= i <= |ps| :: PrefixLen(ps, i) == k
  }

  lemma PrefixLenAll(ps: seq<Part>)
    ensures PrefixLen(ps, |ps|) == |PartsContent(ps)|
    ensures PrefixLen(ps, 0) == 0
  {
    assert ps[..|ps|] == ps;
    assert ps[..0] == [];
  }

  /** A later target never stops the skip loop earlier. */
  lemma {:induction false} SkipCountMonotone(ps: seq<Part>, a: int, b: int)
    requires a <= b
    ensures SkipCount(ps, a) <= SkipCount(ps, b)
  {
    if a > 0 && |ps| > 0 {
      SkipCountMonotone(ps[1..], a - |ps[0].content|, b - |ps[0].content|);
    }
  }

  /** `l.slice(0, p)`: it succeeds exactly when `p` is a part boundary, and
      then holds the parts before that boundary (all of them when `p` is
      the end of the text). */
  lemma SliceHead(l: Line, p: nat)
    requires p <= |l.Content()|
    ensures var i := if p == |l.Content()| then |l.parts| else SkipCount(l.parts, p);
      && (Slice(l, 0, Some(p)).Ok? <==> Boundary(l.parts, p))
      && (Slice(l, 0, Some(p)).Ok? ==>
            i <= |l.parts| && PrefixLen(l.parts, i) == p && Slice(l, 0, Some(p)).value.parts == l.parts[..i])
  {
    var ps, n := l.parts, |l.Content()|;
    PrefixLenAll(ps);
    if p == n {
      assert ps[..|ps|] == ps;
    } else if p == 0 {
      assert ps[..0] == [];
    } else {
      assert |ps| > 0;
      assert ps[0..] == ps;
      if Boundary(ps, p) {
        var b :| 0 <= b <= |ps| && PrefixLen(ps, b) == p;
        SkipCountStopsAtBoundary(ps, p, b);
      }
    }
  }

  /** `l.slice(s)` for an offset inside the text: from a part boundary it
      succeeds with the parts from that boundary up to the end of the
      text. */
  lemma SliceTail(l: Line, start: int, s: nat)
    requires s == (if start < 0 then |l.Content()| + start else start) && s < |l.Content()|
    ensures Boundary(l.parts, s) ==>
      var k := SkipCount(l.parts, s);
      && Slice(l, start, None).Ok? && k < |l.parts| && PrefixLen(l.parts, k) == s
      && exists j | k < j <= |l.parts| ::
           PrefixLen(l.parts, j) == |l.Content()| && Slice(l, start, None).value.parts == l.parts[k..j]
  {
    var ps, n := l.parts, |l.Content()|;
    PrefixLenAll(ps);
    if Boundary(ps, s) {
      var b :| 0 <= b <= |ps| && PrefixLen(ps, b) == s;
      SkipCountStopsAtBoundary(ps, s, b);
      var k := SkipCount(ps, s);
      if s == 0 {
        assert Slice(l, start, None) == Ok(l) by {
          assert NormalizeBounds(n, start, None) == (s, n);
        }
        assert ps[0..|ps|] == ps;
      } else {
        SliceTailInner(ps, s, n);
        var m := SkipCount(ps[k..], n - s);
        SliceTailValue(l, start, s, k, m);
      }
    }
  }

  lemma SliceTailValue(l: Line, start: int, s: nat, k: nat, m: nat)
    requires s == (if start < 0 then |l.Content()| + start else start) && 0 < s < |l.Content()|
    requires k == SkipCount(l.parts, s) && k < |l.parts| && PrefixLen(l.parts, k) == s
    requires m == SkipCount(l.parts[k..], |l.Content()| - s) && PrefixLen(l.parts[k..], m) == |l.Content()| - s
    ensures Slice(l, start, None) == Ok(FromParts(l.parts[k..k + m]))
  {
    assert NormalizeBounds(|l.Content()|, start, None) == (s, |l.Content()|);
  }

  lemma SliceTailInner(ps: seq<Part>, s: nat, n: nat)
    requires 0 < s < n && n == |PartsContent(ps)| && Boundary(ps, s)
    ensures var k := SkipCount(ps, s);
      && k < |ps| && PrefixLen(ps, k) == s
      && var m := SkipCount(ps[k..], n - s);
         m > 0 && PrefixLen(ps[k..], m) == n - s && PrefixLen(ps, k + m) == n
  {
    PrefixLenAll(ps);
    var b :| 0 <= b <= |ps| && PrefixLen(ps, b) == s;
    SkipCountStopsAtBoundary(ps, s, b);
    var k := SkipCount(ps, s);
    assert k < |ps|;
    PrefixLenSplit(ps, k, |ps|);
    SkipCountStopsAtBoundary(ps[k..], n - s, |ps| - k);
    var m := SkipCount(ps[k..], n - s);
    PrefixLenSplit(ps, k, k + m);
    assert m > 0 by {
      assert ps[k..][..0] == [];
    }
  }

  /** `l.slice(s)` from an offset inside the last part, past its start:
      the source returns the empty line rather than raising. */
  lemma SliceTailInsideLastPart(l: Line, start: int, s: nat)
    requires s == (if start < 0 then |l.Content()| + start else start) && 0 < s < |l.Content()|
    requires !Boundary(l.parts, s)
    ensures Slice(l, start, None).Ok? ==> Slice(l, start, None) == Ok(EmptyLine)
  {
    var ps := l.parts;
    var k := SkipCount(ps, s);
    if k < |ps| {
      assert PrefixLen(ps, k) != s;
    }
  }

  /** The parts between two boundaries hold the characters between the
      offsets of those boundaries. */
  lemma CutContent(ps: seq<Part>, i: int, j: int, s: int, e: int)
    requires CutsAt(ps, i, j, s, e)
    ensures 0 <= s <= e <= |PartsContent(ps)|
    ensures PartsContent(ps[i..j]) == PartsContent(ps)[s..e]
  {
    assert ps == ps[..i] + ps[i..j] + ps[j..];
    PartsContentAppend(ps[..i] + ps[i..j], ps[j..]);
    PartsContentAppend(ps[..i], ps[i..j]);
    assert ps[..j] == ps[..i] + ps[i..j];
  }

  /** `IndentedLine.from_multiple`: the parts of all lines, in order. */
  function FromMultiple(ls: seq<Line>): (r: Line)
    ensures r == FromParts(LinesParts(ls))
    ensures r.Content() == LinesContent(ls)
    ensures |ls| > 0 && |ls[0].parts| > 0 ==> r.Indent() == ls[0].Indent()
  {
    if |ls| == 0 then EmptyLine
    else
      var rest := FromMultiple(ls[1..]);
      PartsContentAppend(ls[0].parts, rest.parts);
      FromParts(ls[0].parts + rest.parts)
  }

  /** The parts of several lines, one line's after the other's. */
  function LinesParts(ls: seq<Line>): seq<Part> {
    if |ls| == 0 then [] else ls[0].parts + LinesParts(ls[1..])
  }

  /** The contents of several lines, concatenated without separator. */
  function LinesContent(ls: seq<Line>): string {
    if |ls| == 0 then "" else ls[0].Content() + LinesContent(ls[1..])
  }

  // ---------------------------------------------------------------------
  // Working with lists of lines.

  /** `[l.content for l in lines]`. */
  function Texts(ls: seq<Line>): (r: seq<string>)
    ensures |r| == |ls|
    ensures forall i | 0 <= i < |ls| :: r[i] == ls[i].Content()
  {
    seq(|ls|, i requires 0 <= i < |ls| => ls[i].Content())
  }

  /** `[l for l in lines if l != EMPTY_LINE]`: the lines with text, in order. */
  function DropEmpty(ls: seq<Line>): (r: seq<Line>)
    ensures |r| <= |ls|
    ensures forall i | 0 <= i < |r| :: r[i] != EmptyLine && r[i] in ls
    ensures forall i | 0 <= i < |ls| :: ls[i] != EmptyLine ==> ls[i] in r
  {
    if |ls| == 0 then []
    else
      var rest := DropEmpty(ls[1..]);
      assert forall i | 1 <= i < |ls| :: ls[i] == ls[1..][i - 1];
      if ls[0] == EmptyLine then rest else [ls[0]] + rest
  }

  /** Dropping the empty lines of two lists one after the other is
      dropping them from the joined list: the kept lines stay in order and
      none is repeated or merged. */
  lemma {:induction false} DropEmptyAppend(a: seq<Line>, b: seq<Line>)
    ensures DropEmpty(a + b) == DropEmpty(a) + DropEmpty(b)
  {
    if |a| > 0 {
      assert (a + b)[0] == a[0] && (a + b)[1..] == a[1..] + b;
      DropEmptyAppend(a[1..], b);
    } else {
      assert a + b == b;
    }
  }

  /** One line is dropped exactly when it is the empty line. */
  lemma DropEmptySingle(l: Line)
    ensures DropEmpty([l]) == (if l == EmptyLine then [] else [l])
  {
    assert [l][1..] == [];
  }

  /** Without empty lines, nothing is dropped. */
  lemma {:induction false} DropEmptyNoEmpty(ls: seq<Line>)
    requires forall i | 0 <= i < |ls| :: ls[i] != EmptyLine
    ensures DropEmpty(ls) == ls
  {
    if |ls| > 0 {
      DropEmptyNoEmpty(ls[1..]);
    }
  }

  /** `similar_indent`: indentations closer than one unit. */
  predicate SimilarIndent(a: real, b: real) {
    -1.0 < a - b < 1.0
  }
}
