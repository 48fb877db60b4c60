/** `ActStructureParser` of `hun_law/parsers/structure_parser.py`: an act's
    lines are cut at article headers aligned with the first one; the text
    before the first article is the preamble, and the headings (books,
    parts, titles, chapters, subtitles) found at the end of each block,
    separated by empty lines, become the act's structural children. */
module ActParser {
  import opened Wrappers
  import opened Text
  import opened Lines
  import opened Utils
  import opened Structure
  import opened Headings
  import opened SubArticle
  import opened Articles

  // ---------------------------------------------------------------------
  // Headings at the end of a block

  /** The position of the last occurrence of `x` in `s`. */
  function LastIndex<T(==)>(s: seq<T>, x: T): (i: nat)
    requires x in s
    ensures i < |s| && s[i] == x
    ensures forall j | i < j < |s| :: s[j] != x
  {
    if s[|s| - 1] == x then |s| - 1
    else LastIndex(s[..|s| - 1], x)
  }

  /** The heading kinds among `es`. */
  function Kinds(es: seq<StructuralElement>): set<StructuralKind> {
    set i | 0 <= i < |es| :: es[i].kind
  }

  /** Registering the parsers of newly found headings: a kind gains an
      entry only through a heading of that kind, and the other entries stay
      as they were. */
  predicate Registered(last: LastParsers, last': LastParsers, added: seq<StructuralElement>) {
    && (forall k :: k in last' <==> k in last || k in Kinds(added))
    && (forall k | k in last && k !in Kinds(added) :: last'[k] == last[k])
  }

  /** `parse_structural_elements`. While the block ends in an empty line,
      that line is dropped; if another empty line remains, the lines after
      the last one are tried as a heading, unless their quotes do not
      balance. A recognised heading is put in front of those found so far,
      becomes the last parser of its kind, and is cut off. An empty block
      raises IndexError. The result is the remaining lines, the headings in
      document order, and the updated last parsers. */
  function StructuralElements(lines: seq<Line>, last: LastParsers)
    : (r: Result<(seq<Line>, seq<StructuralElement>, LastParsers)>)
    ensures |lines| == 0 ==> r == Err(IndexError)
    ensures r.Ok? ==> |r.value.0| <= |lines| && r.value.0 == lines[..|r.value.0|]
    ensures r.Ok? ==> (|r.value.0| == |lines| <==> lines[|lines| - 1] != EmptyLine)
    ensures r.Ok? && |r.value.0| == |lines| ==> r.value.1 == [] && r.value.2 == last
    ensures r.Ok? ==> Registered(last, r.value.2, r.value.1)
    ensures r.Err? ==> r.error == IndexError || r.error == ValueError
  {
    if |lines| == 0 then Err(IndexError)
    else if lines[|lines| - 1] != EmptyLine then Ok((lines, [], last))
    else
      var r := PeelHeadings(lines[..|lines| - 1], last);
      if r.Ok? then PrefixOfPrefix(lines, lines[..|lines| - 1], |r.value.0|); r else r
  }

  /** The loop of `parse_structural_elements` once the block's last empty
      line is dropped from `ls`: the heading behind the last remaining
      empty line, if any, is parsed with the last parsers `cur`, and the
      lines before that empty line are peeled further. */
  function PeelHeadings(ls: seq<Line>, cur: LastParsers)
    : (r: Result<(seq<Line>, seq<StructuralElement>, LastParsers)>)
    ensures r.Ok? ==> |r.value.0| <= |ls| && r.value.0 == ls[..|r.value.0|]
    ensures r.Ok? ==> Registered(cur, r.value.2, r.value.1)
    ensures r.Err? ==> r.error == IndexError || r.error == ValueError
    decreases |ls|
  {
    match LastEmpty(ls)
    case None => Ok((ls, [], cur))
    case Some(idx) =>
      match HeadingOf(ls[idx..], cur)
      case Err(e) => Err(e)
      case Ok(None) => Ok((ls, [], cur))
      case Ok(Some(p)) =>
        var rest :- PeelHeadings(ls[..idx - 1], cur[p.kind := p]);
        PrefixOfPrefix(ls, ls[..idx - 1], |rest.0|);
        RegisteredSnoc(cur, p, rest.2, rest.1);
        Ok((rest.0, rest.1 + [ParsedElement(p)], rest.2))
  }

  /** Where the lines after the last empty line of `ls` start, if `ls` has
      an empty line. */
  function LastEmpty(ls: seq<Line>): (r: Option<nat>)
    ensures r.None? <==> EmptyLine !in ls
    ensures r.Some? ==> 0 < r.value <= |ls| && ls[r.value - 1] == EmptyLine && EmptyLine !in ls[r.value..]
  {
    if EmptyLine !in ls then None
    else
      var i := LastIndex(ls, EmptyLine);
      assert EmptyLine !in ls[i + 1..];
      Some(i + 1)
  }

  /** One pass of the loop on the lines `seg` after the last empty line:
      None when their quotes do not balance or no heading matches them,
      otherwise the parser of the heading they hold. */
  function HeadingOf(seg: seq<Line>, cur: LastParsers): (r: Result<Option<HeadingParser>>)
    requires EmptyLine !in seg
    ensures r.Ok? && r.value.Some? ==>
      && Consistent(r.value.value)
      && SegmentHeading<LastParsers>(ParseSingle, Register, seg, ParsedElement(r.value.value), cur, Register(cur, r.value.value))
    ensures r.Err? ==> r.error == IndexError || r.error == ValueError
  {
    if QuoteLevelDiff(Join(Texts(seg), " ")) != 0 then Ok(None)
    else ParseSingle(seg, cur)
  }

  /** A prefix of a prefix is a prefix. */
  lemma PrefixOfPrefix(lines: seq<Line>, ls: seq<Line>, n: nat)
    requires |ls| <= |lines| && ls == lines[..|ls|] && n <= |ls|
    ensures ls[..n] == lines[..n]
  {
  }

  /** Registering the parser of a heading found after the others. */
  lemma RegisteredSnoc(cur: LastParsers, p: HeadingParser, last': LastParsers, found: seq<StructuralElement>)
    requires Consistent(p)
    requires Registered(cur[p.kind := p], last', found)
    ensures Registered(cur, last', found + [ParsedElement(p)])
  {
    var e := ParsedElement(p);
    assert Kinds(found + [e]) == Kinds(found) + {e.kind} by {
      KindsSnoc(found, e);
    }
  }

  lemma KindsSnoc(found: seq<StructuralElement>, e: StructuralElement)
    ensures Kinds(found + [e]) == Kinds(found) + {e.kind}
  {
    var all := found + [e];
    forall k | k in Kinds(all)
      ensures k in Kinds(found) + {e.kind}
    {
      var i :| 0 <= i < |all| && all[i].kind == k;
      if i < |found| {
        assert found[i] == all[i];
      }
    }
    forall k | k in Kinds(found) + {e.kind}
      ensures k in Kinds(all)
    {
      if k == e.kind {
        assert all[|found|] == e;
      } else {
        var i :| 0 <= i < |found| && found[i].kind == k;
        assert all[i] == found[i];
      }
    }
  }

  // The segments the headings came from

  /** Heading segments in document order, each opened by the empty line
      before it. */
  function Opened(segs: seq<seq<Line>>): (r: seq<Line>)
    ensures |segs| == 0 <==> r == []
    decreases |segs|
  {
    if |segs| == 0 then [] else Opened(segs[..|segs| - 1]) + [EmptyLine] + segs[|segs| - 1]
  }

  /** `e` is the heading `parse` finds in `seg`, a run of non-empty lines
      with balanced quotes, given the last parsers `known`; `known'` is
      `known` with its parser registered. Generic in the last-parser map so
      that the segment bookkeeping below does not depend on what a parser
      holds. */
  predicate SegmentHeading<M(==)>(parse: (seq<Line>, M) -> Result<Option<HeadingParser>>,
                                  register: (M, HeadingParser) -> M,
                                  seg: seq<Line>, e: StructuralElement, known: M, known': M) {
    && EmptyLine !in seg
    && QuoteLevelDiff(Join(Texts(seg), " ")) == 0
    && parse(seg, known).Ok? && parse(seg, known).value.Some?
    && e == ParsedElement(parse(seg, known).value.value)
    && known' == register(known, parse(seg, known).value.value)
  }

  /** `found[k]` is the heading parsed from segment `k` with the last
      parsers `maps[k + 1]`, those registered by the headings after it; its
      own parser is registered into `maps[k]`. */
  predicate HeadingSegments<M(==)>(parse: (seq<Line>, M) -> Result<Option<HeadingParser>>,
                                   register: (M, HeadingParser) -> M,
                                   segs: seq<seq<Line>>, found: seq<StructuralElement>, maps: seq<M>)
    decreases |segs|
  {
    && |found| == |segs| && |maps| == |segs| + 1
    && (|segs| > 0 ==>
          var n := |segs| - 1;
          && SegmentHeading(parse, register, segs[n], found[n], maps[n + 1], maps[n])
          && HeadingSegments(parse, register, segs[..n], found[..n], maps[..n + 1]))
  }

  /** Heading `k` was parsed from `segs[k]`. */
  lemma {:induction false} HeadingSegmentsAt<M>(parse: (seq<Line>, M) -> Result<Option<HeadingParser>>,
                                                    register: (M, HeadingParser) -> M,
                                                    segs: seq<seq<Line>>, found: seq<StructuralElement>,
                                                    maps: seq<M>, k: nat)
    requires HeadingSegments(parse, register, segs, found, maps) && k < |segs|
    ensures SegmentHeading(parse, register, segs[k], found[k], maps[k + 1], maps[k])
    decreases |segs|
  {
    var n := |segs| - 1;
    if k < n {
      HeadingSegmentsAt(parse, register, segs[..n], found[..n], maps[..n + 1], k);
      assert segs[..n][k] == segs[k] && found[..n][k] == found[k];
      assert maps[..n + 1][k] == maps[k] && maps[..n + 1][k + 1] == maps[k + 1];
    }
  }

  /** One more segment, after the others. */
  lemma HeadingSegmentsSnoc<M>(parse: (seq<Line>, M) -> Result<Option<HeadingParser>>,
                                   register: (M, HeadingParser) -> M,
                                   segs: seq<seq<Line>>, found: seq<StructuralElement>, maps: seq<M>,
                                   tail: seq<Line>, e: StructuralElement, known: M)
    requires HeadingSegments(parse, register, segs, found, maps)
    requires SegmentHeading(parse, register, tail, e, known, maps[|segs|])
    ensures HeadingSegments(parse, register, segs + [tail], found + [e], maps + [known])
  {
    assert (segs + [tail])[..|segs|] == segs && (found + [e])[..|segs|] == found;
    assert (maps + [known])[..|segs| + 1] == maps;
  }

  /** Registering a parser under its kind; the parsers `ParseSingle` returns
      are always consistent. */
  function Register(m: LastParsers, p: HeadingParser): (r: LastParsers)
    ensures Consistent(p) ==> r == m[p.kind := p]
  {
    if Consistent(p) then m[p.kind := p] else m
  }

  /** The segments the headings found by `PeelHeadings` were parsed from,
      in document order, and the last parsers before each was registered:
      `maps[k + 1]` is what heading `k` was parsed with, `maps[0]` the final
      parsers. */
  ghost function PeelTrace(ls: seq<Line>, cur: LastParsers): (t: (seq<seq<Line>>, seq<LastParsers>))
    requires PeelHeadings(ls, cur).Ok?
    decreases |ls|
  {
    match LastEmpty(ls)
    case None => ([], [cur])
    case Some(idx) =>
      match HeadingOf(ls[idx..], cur)
      case Ok(Some(p)) =>
        var t := PeelTrace(ls[..idx - 1], cur[p.kind := p]);
        (t.0 + [ls[idx..]], t.1 + [cur])
      case _ => ([], [cur])
  }

  /** The lines peeled off are the segments the headings were parsed from,
      each behind an empty line, in document order: the first heading was
      parsed last, with the parsers the later ones registered. */
  lemma {:induction false} PeelHeadingsSegments(ls: seq<Line>, cur: LastParsers)
    requires PeelHeadings(ls, cur).Ok?
    ensures var r, t := PeelHeadings(ls, cur).value, PeelTrace(ls, cur);
      && ls == r.0 + Opened(t.0)
      && HeadingSegments<LastParsers>(ParseSingle, Register, t.0, r.1, t.1)
      && t.1[0] == r.2 && t.1[|t.0|] == cur
    decreases |ls|
  {
    var r, t := PeelHeadings(ls, cur).value, PeelTrace(ls, cur);
    var o := LastEmpty(ls);
    var h := if o.Some? then HeadingOf(ls[o.value..], cur) else Ok(None);
    assert h.Ok?;
    if h.value.None? {
      assert r == (ls, [], cur) && t == ([], [cur]);
    } else {
      var idx, p := o.value, h.value.value;
      var tail, cur', e := ls[idx..], cur[p.kind := p], ParsedElement(p);
      var rest, t' := PeelHeadings(ls[..idx - 1], cur').value, PeelTrace(ls[..idx - 1], cur');
      assert r == (rest.0, rest.1 + [e], rest.2) && t == (t'.0 + [tail], t'.1 + [cur]);
      SplitAtEmpty(ls, idx);
      PeelHeadingsSegments(ls[..idx - 1], cur');
      HeadingSegmentsSnoc<LastParsers>(ParseSingle, Register, t'.0, rest.1, t'.1, tail, e, cur);
      OpenedSnoc(rest.0, t'.0, tail);
    }
  }

  /** A block split at an empty line. */
  lemma SplitAtEmpty(ls: seq<Line>, idx: nat)
    requires 0 < idx <= |ls| && ls[idx - 1] == EmptyLine
    ensures ls == ls[..idx - 1] + [EmptyLine] + ls[idx..]
  {
  }

  /** One more segment behind the kept lines. */
  lemma OpenedSnoc(kept: seq<Line>, segs: seq<seq<Line>>, tail: seq<Line>)
    ensures kept + Opened(segs + [tail]) == kept + Opened(segs) + [EmptyLine] + tail
  {
    assert (segs + [tail])[..|segs|] == segs;
  }

  /** The whole of `parse_structural_elements` on a block ending in an empty
      line: the block is the kept lines, then each heading's segment behind
      an empty line, then the final empty line; `found[k]` was parsed from
      segment `k` with the parsers registered by the headings after it. */
  lemma StructuralElementsSegments(lines: seq<Line>, last: LastParsers)
    requires StructuralElements(lines, last).Ok?
    requires |lines| > 0 && lines[|lines| - 1] == EmptyLine
    ensures PeelHeadings(lines[..|lines| - 1], last).Ok?
    ensures var r, t := StructuralElements(lines, last).value, PeelTrace(lines[..|lines| - 1], last);
      && lines == r.0 + Opened(t.0) + [EmptyLine]
      && HeadingSegments<LastParsers>(ParseSingle, Register, t.0, r.1, t.1)
      && t.1[0] == r.2 && t.1[|t.0|] == last
  {
    var ls := lines[..|lines| - 1];
    assert lines == ls + [EmptyLine];
    PeelHeadingsSegments(ls, last);
  }


  // ---------------------------------------------------------------------
  // Blocks

  /** The identifier in an article header line. */
  function HeaderId(line: Line): string
    requires ArticleHeader(line.Content()).Some?
  {
    ArticleHeader(line.Content()).value.0
  }

  /** The identifiers of the articles among an act's children. */
  function ArticleIds(children: seq<ActChild>): (ids: seq<string>)
    ensures |ids| == |ArticlesOf(children)|
    ensures forall i | 0 <= i < |ids| :: ids[i] == ArticlesOf(children)[i].identifier
  {
    var arts := ArticlesOf(children);
    seq(|arts|, i requires 0 <= i < |arts| => arts[i].identifier)
  }

  /** The structural headings as act children. */
  function HeadingChildren(es: seq<StructuralElement>): (cs: seq<ActChild>)
    ensures |cs| == |es| && forall i | 0 <= i < |es| :: cs[i] == StructuralChild(es[i])
    ensures ArticlesOf(cs) == []
  {
    if |es| == 0 then []
    else
      var rest := HeadingChildren(es[1..]);
      ArticlesOfAppend([StructuralChild(es[0])], rest);
      [StructuralChild(es[0])] + rest
  }

  /** An article as `ArticleParse` delivers it. */
  predicate GoodArticle(a: Article) {
    |a.children| > 0 && AllOfKind(a.children, Paragraph) && IsArticleId(a.identifier)
  }

  /** `parse_text_block`: the headings at the end of the block are split
      off; the first block is the preamble (its non-empty lines joined),
      every later one is an article, placed before the headings. */
  method TextBlock(lines: seq<Line>, preamble: Option<string>, last: LastParsers)
    returns (r: Result<(string, seq<ActChild>, LastParsers)>)
    requires preamble.Some? ==> |lines| > 0 && ArticleHeader(lines[0].Content()).Some?
    ensures |lines| == 0 ==> r == Err(IndexError)
    ensures r.Ok? && preamble.Some? ==> r.value.0 == preamble.value
    ensures r.Ok? ==> ArticleIds(r.value.1) == (if preamble.Some? then [HeaderId(lines[0])] else [])
    ensures r.Ok? ==> GoodArticles(r.value.1)
  {
    var split := StructuralElements(lines, last);
    if split.Err? {
      return Err(split.error);
    }
    var (rest, found, last') := split.value;
    var headings := HeadingChildren(found);
    if preamble.None? {
      HeadingsOnly(found);
      return Ok((Join(Texts(DropEmpty(rest)), " "), headings, last'));
    }
    var a := ArticleParse(rest, None);
    if a.Err? {
      return Err(a.error);
    }
    ArticleThenHeadings(a.value, found);
    return Ok((preamble.value, [ArticleItem(a.value)] + headings, last'));
  }

  /** An article followed by headings: the article is the only one. */
  lemma ArticleThenHeadings(a: Article, found: seq<StructuralElement>)
    requires GoodArticle(a)
    ensures ArticleIds([ArticleItem(a)] + HeadingChildren(found)) == [a.identifier]
    ensures GoodArticles([ArticleItem(a)] + HeadingChildren(found))
  {
    ArticlesOfAppend([ArticleItem(a)], HeadingChildren(found));
    assert ArticlesOf([ArticleItem(a)]) == [a];
  }

  /** Headings alone hold no article. */
  lemma HeadingsOnly(found: seq<StructuralElement>)
    ensures ArticleIds(HeadingChildren(found)) == [] && GoodArticles(HeadingChildren(found))
  {
  }

  // ---------------------------------------------------------------------
  // Cutting an act into blocks

  /** Line `j` is an article header at quote level 0. */
  predicate IsTopHeader(lines: seq<Line>, j: nat) {
    j < |lines| && LevelBefore(lines, j) == 0 && ArticleHeader(lines[j].Content()).Some?
  }

  /** The first article header at quote level 0 from `i` on. */
  function FirstTopHeader(lines: seq<Line>, i: nat): (r: Option<nat>)
    requires i <= |lines|
    ensures r.Some? ==> i <= r.value < |lines| && IsTopHeader(lines, r.value)
    ensures r.Some? ==> forall j | i <= j < r.value :: !IsTopHeader(lines, j)
    ensures r.None? ==> forall j | i <= j < |lines| :: !IsTopHeader(lines, j)
    decreases |lines| - i
  {
    if i == |lines| then None
    else if IsTopHeader(lines, i) then Some(i)
    else FirstTopHeader(lines, i + 1)
  }

  /** Line `j` starts an article: a top-level header aligned with the
      first one. */
  predicate IsCut(lines: seq<Line>, j: nat) {
    && IsTopHeader(lines, j)
    && FirstTopHeader(lines, 0).Some?
    && SimilarIndent(lines[j].Indent(), lines[FirstTopHeader(lines, 0).value].Indent())
  }

  /** The identifiers in the article headers among the first `n` lines. */
  function CutIds(lines: seq<Line>, n: nat): seq<string>
    requires n <= |lines|
  {
    if n == 0 then []
    else CutIds(lines, n - 1) + (if IsCut(lines, n - 1) then [HeaderId(lines[n - 1])] else [])
  }

  /** The variables of `parse_text`. */
  datatype ActState = ActState(
    current: seq<Line>,
    headerIndent: Option<real>,
    preamble: Option<string>,
    elements: seq<ActChild>,
    last: LastParsers)

  /** The article of the open block, once there is one. */
  function Pending(st: ActState): seq<string>
    requires st.preamble.Some? ==> |st.current| > 0 && ArticleHeader(st.current[0].Content()).Some?
  {
    if st.preamble.Some? then [HeaderId(st.current[0])] else []
  }

  /** The header indentation `parse_text` holds after `i` lines: the first
      top-level header's, once that has been read. */
  predicate IndentSeen(lines: seq<Line>, i: nat, headerIndent: Option<real>) {
    var first := FirstTopHeader(lines, 0);
    if first.Some? && first.value < i
    then headerIndent == Some(lines[first.value].Indent())
    else headerIndent.None?
  }

  /** What the loop keeps true after `i` lines: the header indentation; the
      open block starts with an article header once the preamble is done;
      and the articles finished plus the open one are the article headers
      met so far. */
  predicate GoodActState(lines: seq<Line>, i: nat, st: ActState) {
    && i <= |lines|
    && IndentSeen(lines, i, st.headerIndent)
    && (st.preamble.Some? ==> |st.current| > 0 && ArticleHeader(st.current[0].Content()).Some?)
    && ArticleIds(st.elements) + Pending(st) == CutIds(lines, i)
  }

  /** Reading line `i`: at a top-level header the indentation becomes known
      (the first header's, which this one is when none was known) and the
      line cuts exactly when its indentation matches; any other line leaves
      the indentation alone and does not cut. */
  lemma IndentStep(lines: seq<Line>, i: nat, headerIndent: Option<real>)
    requires i < |lines| && IndentSeen(lines, i, headerIndent)
    ensures IsTopHeader(lines, i) ==>
      var indent := if headerIndent.None? then lines[i].Indent() else headerIndent.value;
      && IndentSeen(lines, i + 1, Some(indent))
      && (IsCut(lines, i) <==> SimilarIndent(lines[i].Indent(), indent))
    ensures !IsTopHeader(lines, i) ==> IndentSeen(lines, i + 1, headerIndent) && !IsCut(lines, i)
  {
    var first := FirstTopHeader(lines, 0);
    if IsTopHeader(lines, i) {
      assert first.Some? && first.value <= i;
    } else if first.Some? {
      assert first.value != i;
    }
  }

  /** The identifiers of two runs of children, one after the other. */
  lemma ArticleIdsAppend(a: seq<ActChild>, b: seq<ActChild>)
    ensures ArticleIds(a + b) == ArticleIds(a) + ArticleIds(b)
  {
    ArticlesOfAppend(a, b);
  }

  /** All articles of the children read so far are as `ArticleParse`
      delivers them. */
  predicate GoodArticles(children: seq<ActChild>) {
    forall a | a in ArticlesOf(children) :: GoodArticle(a)
  }

  /** Line `i` joins the open block: the articles met so far stay the
      same, and the indentation becomes `indent`. */
  lemma JoinStep(lines: seq<Line>, i: nat, st: ActState, indent: Option<real>)
    requires i < |lines| && GoodActState(lines, i, st)
    requires !IsCut(lines, i) && IndentSeen(lines, i + 1, indent)
    ensures GoodActState(lines, i + 1, st.(current := st.current + [lines[i]], headerIndent := indent))
  {
    var st' := st.(current := st.current + [lines[i]], headerIndent := indent);
    assert CutIds(lines, i + 1) == CutIds(lines, i);
    assert Pending(st') == Pending(st) by {
      assert st.preamble.Some? ==> st'.current[0] == st.current[0];
    }
  }

  /** Line `i` closes the open block: the block is parsed and appended,
      and a new block opens with the header line. */
  method CutStep(lines: seq<Line>, i: nat, st: ActState, indent: real) returns (r: Result<ActState>)
    requires i < |lines| && GoodActState(lines, i, st) && GoodArticles(st.elements)
    requires IsCut(lines, i) && IndentSeen(lines, i + 1, Some(indent))
    ensures r.Ok? ==> GoodActState(lines, i + 1, r.value) && GoodArticles(r.value.elements)
    ensures r.Ok? ==> r.value.current == [lines[i]]
  {
    var block := TextBlock(st.current, st.preamble, st.last);
    if block.Err? {
      return Err(block.error);
    }
    var (preamble, children, last) := block.value;
    ArticlesOfAppend(st.elements, children);
    ArticleIdsAppend(st.elements, children);
    assert CutIds(lines, i + 1) == CutIds(lines, i) + [HeaderId(lines[i])];
    return Ok(ActState([lines[i]], Some(indent), Some(preamble), st.elements + children, last));
  }

  /** One turn of the loop of `parse_text`: line `i` either closes the open
      block, when it is an article header at quote level 0 aligned with the
      first one, or joins it. The first such header fixes the alignment. */
  method ActStep(lines: seq<Line>, i: nat, st: ActState) returns (r: Result<ActState>)
    requires i < |lines| && GoodActState(lines, i, st) && GoodArticles(st.elements)
    ensures r.Ok? ==> GoodActState(lines, i + 1, r.value) && GoodArticles(r.value.elements)
    ensures r.Ok? ==> |r.value.current| > 0 && r.value.current[|r.value.current| - 1] == lines[i]
  {
    var line := lines[i];
    IndentStep(lines, i, st.headerIndent);
    if LevelBefore(lines, i) == 0 && ArticleHeader(line.Content()).Some? {
      var indent := if st.headerIndent.None? then line.Indent() else st.headerIndent.value;
      if SimilarIndent(line.Indent(), indent) {
        r := CutStep(lines, i, st, indent);
        return;
      }
      JoinStep(lines, i, st, Some(indent));
      r := Ok(st.(current := st.current + [line], headerIndent := Some(indent)));
    } else {
      JoinStep(lines, i, st, st.headerIndent);
      r := Ok(st.(current := st.current + [line], headerIndent := st.headerIndent));
    }
  }

  /** `parse_text`: the preamble and the act's children. Unbalanced quotes
      raise ValueError after the last line is read, before the last block
      is parsed. */
  method ParseText(lines: seq<Line>) returns (r: Result<(string, seq<ActChild>)>)
    ensures r.Ok? ==> ArticleIds(r.value.1) == CutIds(lines, |lines|)
    ensures r.Ok? ==> GoodArticles(r.value.1)
    ensures r.Ok? ==> LevelAfter(lines) == 0
  {
    var st := ActState([], None, None, [], map[]);
    assert ArticleIds([]) == [];
    var i := 0;
    while i < |lines|
      invariant GoodActState(lines, i, st) && GoodArticles(st.elements)
    {
      var next := ActStep(lines, i, st);
      if next.Err? {
        return Err(next.error);
      }
      st, i := next.value, i + 1;
    }
    var quoting := QuotingCheck(lines);
    if quoting.Err? {
      return Err(quoting.error);
    }
    var block := TextBlock(st.current, st.preamble, st.last);
    if block.Err? {
      return Err(block.error);
    }
    var (preamble, children, _) := block.value;
    ArticlesOfAppend(st.elements, children);
    ArticleIdsAppend(st.elements, children);
    return Ok((preamble, st.elements + children));
  }

  /** `ActStructureParser.parse`: any failure is reported as an
      ActParsingError. */
  method ActParse(identifier: string, subject: string, lines: seq<Line>) returns (r: Result<Act>)
    ensures r.Ok? ==> r.value.identifier == identifier && r.value.subject == subject
    ensures r.Ok? ==> ArticleIds(r.value.children) == CutIds(lines, |lines|)
    ensures r.Ok? ==> GoodArticles(r.value.children)
    ensures r.Ok? ==> r.value.actIdAbbreviations.None? && r.value.outgoingReferences.None?
    ensures r.Err? ==> r.error == ActParsing
  {
    var text := ParseText(lines);
    if text.Err? {
      return Err(ActParsing);
    }
    var (preamble, children) := text.value;
    return Ok(Act(identifier, subject, preamble, children, None, None));
  }
}
