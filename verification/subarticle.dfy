/** The sub-article parsers of `hun_law/parsers/structure_parser.py`:
    paragraphs, numeric and alphabetic points, alphabetic subpoints, and the
    quoted-block recogniser.

    A parser cuts a run of lines into elements at header lines ("(2) ",
    "3. ", "c) ") whose identifier is the successor of the previous one, at
    quote level 0 and no further right than the previous header. Each
    element's text is then searched for a lower level of structure. */
module SubArticle {
  import opened Wrappers
  import opened Text
  import opened Lines
  import opened Utils
  import opened Structure

  /** The `SubArticleElementParser` classes. Alphabetic subpoints carry the
      prefix of `PrefixedAlphabeticSubpointParser` ("" for the plain one). */
  datatype SubParser =
    | AlphabeticSubpointParser(prefix: string)
    | NumericPointParser
    | AlphabeticPointParser
    | ParagraphParser

  function KindOf(p: SubParser): (k: ElementKind)
    ensures k != BlockAmendment
  {
    match p
    case AlphabeticSubpointParser(_) => AlphabeticSubpoint
    case NumericPointParser => NumericPoint
    case AlphabeticPointParser => AlphabeticPoint
    case ParagraphParser => Paragraph
  }

  /** `PARENT_MUST_HAVE_INTRO` and `PARENT_MUST_HAVE_MULTIPLE_OF_THIS`. */
  predicate ListLike(p: SubParser) {
    !p.ParagraphParser?
  }

  /** `PARENT_CAN_HAVE_WRAPUP`. */
  predicate CanHaveWrapUp(p: SubParser) {
    p.AlphabeticSubpointParser? || p.AlphabeticPointParser?
  }

  /** `first_identifier`. */
  function FirstIdentifier(p: SubParser): string {
    match p
    case AlphabeticSubpointParser(prefix) => prefix + "a"
    case NumericPointParser => "1"
    case AlphabeticPointParser => "a"
    case ParagraphParser => "1"
  }

  /** Nesting depth: a parser only calls parsers of lower rank. */
  function Rank(p: SubParser): nat {
    match p
    case AlphabeticSubpointParser(_) => 0
    case NumericPointParser => 1
    case AlphabeticPointParser => 1
    case ParagraphParser => 2
  }

  /** The header prefix of the parsed class (never an error for these
      classes). */
  function Prefix(p: SubParser, identifier: Option<string>): string {
    HeaderPrefix(KindOf(p), identifier).value
  }

  /** `is_header`: the line starts with the header of `identifier`. */
  predicate IsHeader(p: SubParser, line: Line, identifier: string) {
    StartsWith(line.Content(), Prefix(p, Some(identifier)))
  }

  /** What `try_parse_subpoints` returns: intro, children, wrap-up. */
  datatype Body = Body(intro: Option<string>, children: seq<Child>, wrapUp: Option<string>)

  /** What `extract_multiple_from_text` returns. */
  datatype Extracted = Extracted(intro: Option<string>, elements: seq<Element>, wrapUp: Option<string>)

  /** The children a parsed element of class `kind` may hold: some, all of
      one allowed type. */
  predicate ChildrenFit(kind: ElementKind, cs: seq<Child>) {
    |cs| > 0 && Allowed(kind, TypeOf(cs[0])) && Homogeneous(cs)
  }

  predicate AllOfKind(es: seq<Element>, kind: ElementKind) {
    forall i | 0 <= i < |es| :: es[i].kind == kind
  }

  function AsChildren(es: seq<Element>): (cs: seq<Child>)
    ensures |cs| == |es| && forall i | 0 <= i < |es| :: cs[i] == SubElement(es[i])
  {
    seq(|es|, i requires 0 <= i < |es| => SubElement(es[i]))
  }

  function Identifiers(es: seq<Element>): (ids: seq<Option<string>>)
    ensures |ids| == |es| && forall i | 0 <= i < |es| :: ids[i] == es[i].identifier
  {
    seq(|es|, i requires 0 <= i < |es| => es[i].identifier)
  }

  /** The identifiers start at `first` and each is the `next_identifier` of
      the one before. */
  predicate Chain(kind: ElementKind, ids: seq<Option<string>>, first: string) {
    && |ids| > 0
    && (forall k | 0 <= k < |ids| :: ids[k].Some?)
    && ids[0] == Some(first)
    && forall k | 0 <= k < |ids| - 1 :: NextIdentifier(kind, ids[k].value) == Ok(ids[k + 1].value)
  }

  /** The element list of one extraction is numbered consecutively, or it is
      the single unnumbered element found when no header matched. */
  predicate Numbered(p: SubParser, es: seq<Element>) {
    Chain(KindOf(p), Identifiers(es), FirstIdentifier(p))
    || (|es| == 1 && es[0].identifier.None?)
  }

  // ---------------------------------------------------------------------
  // Parsing one element

  /** `SubArticleElementParser.parse`: strips the header from the first line,
      then looks for sub-elements; without any, the element's text is the
      non-empty lines joined with spaces. Errors of the sub-element search
      are reported as SubArticleParsingError; a missing first line
      (IndexError) and an imprecise slice (ValueError) pass through. */
  function Parse(p: SubParser, lines: seq<Line>, identifier: Option<string>): (r: Result<Element>)
    ensures r.Ok? ==> r.value.kind == KindOf(p) && r.value.identifier == identifier && ValidElement(r.value)
    ensures |lines| == 0 ==> r == Err(IndexError)
    ensures |lines| > 0 && !StartsWith(lines[0].Content(), Prefix(p, identifier)) ==> r == Err(SubArticleParsing)
    ensures r.Err? && |lines| > 0 ==> r.error == SubArticleParsing || r.error == ValueError
    ensures p.AlphabeticSubpointParser? && r.Ok? ==> r.value.text.Some?
    decreases Rank(p), 2, 0, 0
  {
    var prefix := Prefix(p, identifier);
    if |lines| == 0 then Err(IndexError)
    else if !StartsWith(lines[0].Content(), prefix) then Err(SubArticleParsing)
    else
      var first :- Slice(lines[0], |prefix|, None);
      var ls := [first] + lines[1..];
      var sub := TryParseSubpoints(p, ls, identifier);
      if sub == Err(NoSubpoints) then
        MakeElement(KindOf(p), identifier, Some(Join(Texts(DropEmpty(ls)), " ")), None, None, None)
      else if sub.Err? then Err(SubArticleParsing)
      else
        MakeElement(KindOf(p), identifier, None, sub.value.intro, Some(sub.value.children), sub.value.wrapUp)
  }

  /** `try_parse_subpoints` of each parser. Subpoints have no sub-elements;
      points look for subpoints (alphabetic points for subpoints prefixed
      with their own identifier); paragraphs look for quoted blocks, then,
      ignoring empty lines, for numeric and then alphabetic points. A search
      that finds nothing gives NoSubpointsError. */
  function TryParseSubpoints(p: SubParser, lines: seq<Line>, parentIdentifier: Option<string>): (r: Result<Body>)
    ensures r.Ok? ==> ChildrenFit(KindOf(p), r.value.children)
    ensures p.AlphabeticSubpointParser? ==> r == Err(NoSubpoints)
    ensures r.Err? ==> r.error != NotFound
    decreases Rank(p), 1, 0, 0
  {
    match p
    case AlphabeticSubpointParser(_) => Err(NoSubpoints)
    case NumericPointParser =>
      var x := ExtractMultiple(AlphabeticSubpointParser(""), lines);
      if x == Err(NotFound) then Err(NoSubpoints) else AsBody(x, AlphabeticSubpoint, NumericPoint)
    case AlphabeticPointParser =>
      if parentIdentifier.None? then Err(TypeError)
      else
        var x := ExtractMultiple(AlphabeticSubpointParser(parentIdentifier.value), lines);
        if x == Err(NotFound) then Err(NoSubpoints) else AsBody(x, AlphabeticSubpoint, AlphabeticPoint)
    case ParagraphParser =>
      var q := QuotedBlockParse(lines);
      if q != Err(NotFound) then
        var (intro, blocks, wrapUp) :- q;
        Ok(Body(Some(intro), QuotedChildren(blocks), wrapUp))
      else
        var ls := DropEmpty(lines);
        var n := ExtractMultiple(NumericPointParser, ls);
        if n != Err(NotFound) then AsBody(n, NumericPoint, Paragraph)
        else
          var a := ExtractMultiple(AlphabeticPointParser, ls);
          if a != Err(NotFound) then AsBody(a, AlphabeticPoint, Paragraph)
          else Err(NoSubpoints)
  }

  /** The result of an extraction as the body of a parent of class `parent`. */
  function AsBody(x: Result<Extracted>, kind: ElementKind, parent: ElementKind): (r: Result<Body>)
    requires x.Ok? ==> |x.value.elements| > 0 && AllOfKind(x.value.elements, kind)
    requires Allowed(parent, ElementType(kind))
    requires x != Err(NotFound)
    ensures r.Ok? ==> ChildrenFit(parent, r.value.children)
    ensures r.Err? ==> r.error != NotFound
  {
    var e :- x;
    var cs := AsChildren(e.elements);
    assert TypeOf(cs[0]) == ElementType(kind);
    Ok(Body(e.intro, cs, e.wrapUp))
  }

  function QuotedChildren(blocks: seq<QuotedBlock>): (cs: seq<Child>)
    ensures |cs| == |blocks| && forall i | 0 <= i < |cs| :: TypeOf(cs[i]) == QuotedBlockType
  {
    seq(|blocks|, i requires 0 <= i < |blocks| => Quoted(blocks[i]))
  }

  // ---------------------------------------------------------------------
  // Cutting lines into elements

  /** The loop state of `extract_multiple_from_text`. */
  datatype ExtractState = ExtractState(
    elements: seq<Element>,
    intro: Option<string>,
    currentId: Option<string>,
    nextId: string,
    currentLines: seq<Line>,
    headerIndent: Option<real>,
    heads: seq<int>)

  function InitialState(p: SubParser): ExtractState {
    ExtractState([], None, None, FirstIdentifier(p), [], None, [])
  }

  /** What the loop keeps true: before the first header nothing is
      collected; after it, the parsed elements and the current one are
      numbered consecutively and `nextId` follows the current one. */
  predicate GoodState(p: SubParser, st: ExtractState) {
    && AllOfKind(st.elements, KindOf(p))
    && (st.currentId.Some? ==> |st.currentLines| > 0)
    && (st.currentId.None? ==> st.elements == [] && st.nextId == FirstIdentifier(p) && st.intro.None?)
    && (st.currentId.Some? ==>
          && Chain(KindOf(p), Identifiers(st.elements) + [st.currentId], FirstIdentifier(p))
          && NextIdentifier(KindOf(p), st.currentId.value) == Ok(st.nextId))
    && |st.heads| == |st.elements| + (if st.currentId.Some? then 1 else 0)
  }

  /** The header-position test: the first header anywhere, later ones
      aligned with the previous header or to its left. */
  predicate IndentFits(headerIndent: Option<real>, indent: real) {
    headerIndent.None? || SimilarIndent(headerIndent.value, indent) || indent < headerIndent.value
  }

  /** The indentation a header must fit after the first `k` headers (at the
      line positions `heads`) were found: none before the first one, the
      indentation of the last one found afterwards. */
  function HeadIndent(lines: seq<Line>, heads: seq<int>, k: int): Option<real> {
    if k <= 0 || k > |heads| || !(0 <= heads[k - 1] < |lines|) then None
    else Some(lines[heads[k - 1]].Indent())
  }

  /** Line `j` opens element number `k` (counting from 0), given the headers
      found before it: it is at quote level 0, fits the indentation of the
      previous header, and starts with the header of the `k`-th identifier. */
  predicate OpensAt(p: SubParser, lines: seq<Line>, heads: seq<int>, k: int, j: int) {
    && 0 <= k
    && 0 <= j < |lines|
    && var id := NthIdentifier(KindOf(p), FirstIdentifier(p), k);
    && id.Ok?
    && LevelBefore(lines, j) == 0
    && IndentFits(HeadIndent(lines, heads, k), lines[j].Indent())
    && IsHeader(p, lines[j], id.value)
  }

  /** `OpensAt` as a value, for the header-line lemmas below. */
  function Opener(p: SubParser, lines: seq<Line>): (seq<int>, int, int) -> bool {
    (heads: seq<int>, k: int, j: int) => OpensAt(p, lines, heads, k, j)
  }

  /** Headers found later do not change what the earlier ones fit. */
  lemma OpenerPrefixDetermined(p: SubParser, lines: seq<Line>)
    ensures PrefixDetermined(Opener(p, lines))
  {
    forall heads: seq<int>, x: int, k: int, j: int | 0 <= k <= |heads|
      ensures Opener(p, lines)(heads + [x], k, j) == Opener(p, lines)(heads, k, j)
    {
      assert HeadIndent(lines, heads + [x], k) == HeadIndent(lines, heads, k);
    }
  }

  /** The header lines of an extraction from `lines`. */
  ghost predicate HeaderLines(p: SubParser, lines: seq<Line>, heads: seq<int>) {
    Heads(Opener(p, lines), |lines|, |lines|, heads)
  }

  // The header lines in general: `opens(heads, k, j)` says that line `j`
  // opens element `k` once the headers `heads` were found, and depends
  // only on the first `k` of them.

  ghost predicate PrefixDetermined(opens: (seq<int>, int, int) -> bool) {
    forall heads: seq<int>, x: int, k: int, j: int | 0 <= k <= |heads| ::
      opens(heads + [x], k, j) == opens(heads, k, j)
  }

  /** The lines between header `k - 1` and header `k` (up to `i` after the
      last header). */
  function GapStart(heads: seq<int>, k: int): int {
    if k <= 0 || k > |heads| then 0 else heads[k - 1] + 1
  }

  function GapEnd(heads: seq<int>, k: int, i: int): int {
    if 0 <= k < |heads| then heads[k] else i
  }

  /** Each of `heads`, all before `i`, opens its element. */
  ghost predicate HeadsOpen(opens: (seq<int>, int, int) -> bool, i: int, heads: seq<int>) {
    forall k | 0 <= k < |heads| :: heads[k] < i && opens(heads, k, heads[k])
  }

  predicate Increasing(heads: seq<int>) {
    forall k | 0 <= k < |heads| - 1 :: heads[k] < heads[k + 1]
  }

  /** No line before `i` between two headers would have opened the element
      after the first of them. */
  ghost predicate NoneMissed(opens: (seq<int>, int, int) -> bool, i: int, heads: seq<int>) {
    forall k, j | 0 <= k <= |heads| && GapStart(heads, k) <= j < GapEnd(heads, k, i) ::
      !opens(heads, k, j)
  }

  /** `heads` are exactly the header lines among the first `i` of `n`: they
      come in order, each opens the next element, and no line in between
      would have opened one. */
  ghost predicate Heads(opens: (seq<int>, int, int) -> bool, n: nat, i: int, heads: seq<int>) {
    0 <= i <= n && HeadsOpen(opens, i, heads) && Increasing(heads) && NoneMissed(opens, i, heads)
  }

  /** The header lines among the first `i`, decided line by line in the
      order of the scan. */
  ghost predicate HeadScan(opens: (seq<int>, int, int) -> bool, n: nat, i: int, heads: seq<int>)
    decreases i
  {
    if i <= 0 then i == 0 && heads == []
    else if i > n then false
    else if |heads| > 0 && heads[|heads| - 1] == i - 1 then
      var before := heads[..|heads| - 1];
      HeadScan(opens, n, i - 1, before) && opens(before, |before|, i - 1)
    else
      HeadScan(opens, n, i - 1, heads) && !opens(heads, |heads|, i - 1)
  }

  /** The line-by-line decision finds exactly the header lines. */
  lemma {:induction false} HeadScanHeads(opens: (seq<int>, int, int) -> bool, n: nat, i: int, heads: seq<int>)
    requires PrefixDetermined(opens) && HeadScan(opens, n, i, heads)
    ensures Heads(opens, n, i, heads)
    decreases i
  {
    if i > 0 {
      if |heads| > 0 && heads[|heads| - 1] == i - 1 {
        var before := heads[..|heads| - 1];
        DropLastAppend(heads);
        HeadScanHeads(opens, n, i - 1, before);
        HeadsExtend(opens, n, i, before);
      } else {
        HeadScanHeads(opens, n, i - 1, heads);
        HeadsSkip(opens, n, i, heads);
      }
    }
  }

  lemma DropLastAppend(s: seq<int>)
    requires |s| > 0
    ensures s[..|s| - 1] + [s[|s| - 1]] == s
  {
  }

  /** A line that does not open the next element extends the gap after the
      last header. */
  lemma HeadsSkip(opens: (seq<int>, int, int) -> bool, n: nat, i: int, heads: seq<int>)
    requires 0 < i <= n && Heads(opens, n, i - 1, heads)
    requires !opens(heads, |heads|, i - 1)
    ensures Heads(opens, n, i, heads)
  {
    forall k, j | 0 <= k <= |heads| && GapStart(heads, k) <= j < GapEnd(heads, k, i)
      ensures !opens(heads, k, j)
    {
      if k < |heads| {
        assert GapEnd(heads, k, i) == GapEnd(heads, k, i - 1);
      } else if j < i - 1 {
        assert GapEnd(heads, k, i - 1) == i - 1;
      } else {
        assert k == |heads| && j == i - 1;
      }
    }
  }

  lemma HeadsOpenExtend(opens: (seq<int>, int, int) -> bool, i: int, heads: seq<int>)
    requires PrefixDetermined(opens)
    requires HeadsOpen(opens, i, heads) && opens(heads, |heads|, i)
    ensures HeadsOpen(opens, i + 1, heads + [i])
  {
    forall k | 0 <= k < |heads| + 1
      ensures (heads + [i])[k] < i + 1 && opens(heads + [i], k, (heads + [i])[k])
    {
      assert opens(heads + [i], k, (heads + [i])[k]) == opens(heads, k, (heads + [i])[k]);
    }
  }

  lemma NoneMissedExtend(opens: (seq<int>, int, int) -> bool, i: int, heads: seq<int>)
    requires PrefixDetermined(opens) && NoneMissed(opens, i, heads)
    requires forall k | 0 <= k < |heads| :: heads[k] < i
    ensures NoneMissed(opens, i + 1, heads + [i])
  {
    var hs := heads + [i];
    forall k, j | 0 <= k <= |hs| && GapStart(hs, k) <= j < GapEnd(hs, k, i + 1)
      ensures !opens(hs, k, j)
    {
      if k <= |heads| {
        assert GapStart(hs, k) == GapStart(heads, k) && GapEnd(hs, k, i + 1) == GapEnd(heads, k, i);
        assert opens(hs, k, j) == opens(heads, k, j);
      }
    }
  }

  /** A line that opens the next element becomes the next header. */
  lemma HeadsExtend(opens: (seq<int>, int, int) -> bool, n: nat, i: int, heads: seq<int>)
    requires PrefixDetermined(opens)
    requires 0 < i <= n && Heads(opens, n, i - 1, heads)
    requires opens(heads, |heads|, i - 1)
    ensures Heads(opens, n, i, heads + [i - 1])
  {
    HeadsOpenExtend(opens, i - 1, heads);
    NoneMissedExtend(opens, i - 1, heads);
    if |heads| > 0 {
      assert heads[|heads| - 1] < i - 1;
    }
  }

  /** The scan state after `i` lines agrees with the header lines found. */
  ghost predicate GoodHeads(p: SubParser, lines: seq<Line>, i: int, st: ExtractState) {
    && HeadScan(Opener(p, lines), |lines|, i, st.heads)
    && (|st.heads| > 0 ==> st.heads[|st.heads| - 1] < i)
    && st.headerIndent == HeadIndent(lines, st.heads, |st.heads|)
    && NthIdentifier(KindOf(p), FirstIdentifier(p), |st.heads|) == Ok(st.nextId)
  }

  /** The loop body of `extract_multiple_from_text`, from line `i` on. */
  function ExtractLoop(p: SubParser, lines: seq<Line>, i: nat, st: ExtractState): (r: Result<ExtractState>)
    requires i <= |lines| && GoodState(p, st) && GoodHeads(p, lines, i, st)
    ensures r.Ok? ==> GoodState(p, r.value) && GoodHeads(p, lines, |lines|, r.value)
    ensures r.Ok? ==> |r.value.elements| >= |st.elements|
    decreases Rank(p), 4, |lines| - i, 1
  {
    if i == |lines| then Ok(st)
    else
      var line := lines[i];
      if LevelBefore(lines, i) == 0 && IndentFits(st.headerIndent, line.Indent()) && IsHeader(p, line, st.nextId) then
        var st' :- HeaderStep(p, lines, i, st);
        ExtractLoop(p, lines, i + 1, st')
      else
        SkipHeads(p, lines, i, st);
        ExtractLoop(p, lines, i + 1, st.(currentLines := st.currentLines + [line]))
  }

  /** At header line `i`: the element collected so far becomes an element
      (or the intro), and the header starts the next one. */
  function HeaderStep(p: SubParser, lines: seq<Line>, i: nat, st: ExtractState): (r: Result<ExtractState>)
    requires i < |lines| && GoodState(p, st) && GoodHeads(p, lines, i, st)
    requires LevelBefore(lines, i) == 0 && IndentFits(st.headerIndent, lines[i].Indent()) && IsHeader(p, lines[i], st.nextId)
    ensures r.Ok? ==> GoodState(p, r.value) && GoodHeads(p, lines, i + 1, r.value)
    ensures r.Ok? ==> |r.value.elements| >= |st.elements|
    decreases Rank(p), 4, |lines| - i, 0
  {
    var line := lines[i];
    var elements :- FlushCurrent(p, st);
    var intro := if st.currentId.None? && |st.currentLines| > 0 then Some(Join(Texts(st.currentLines), " ")) else st.intro;
    var next :- NextIdentifier(KindOf(p), st.nextId);
    var st' := ExtractState(elements, intro, Some(st.nextId), next, [line], Some(line.Indent()), st.heads + [i]);
    HeaderState(p, st, st');
    HeaderHeads(p, lines, i, st, st');
    Ok(st')
  }

  /** The state a header starts is consistent again: the flushed elements
      and the header's identifier continue the chain. */
  lemma HeaderState(p: SubParser, st: ExtractState, st': ExtractState)
    requires GoodState(p, st) && AllOfKind(st'.elements, KindOf(p))
    requires st.currentId.None? ==> st'.elements == []
    requires st.currentId.Some? ==> Identifiers(st'.elements) == Identifiers(st.elements) + [st.currentId]
    requires st'.currentId == Some(st.nextId) && NextIdentifier(KindOf(p), st.nextId) == Ok(st'.nextId)
    requires |st'.currentLines| > 0 && |st'.heads| == |st.heads| + 1
    ensures GoodState(p, st')
  {
    ChainStep(KindOf(p), Identifiers(st.elements), st.currentId, st.nextId, FirstIdentifier(p));
  }

  /** A line that is not the next header joins the current element. */
  lemma SkipHeads(p: SubParser, lines: seq<Line>, i: nat, st: ExtractState)
    requires i < |lines| && GoodState(p, st) && GoodHeads(p, lines, i, st)
    requires !(LevelBefore(lines, i) == 0 && IndentFits(st.headerIndent, lines[i].Indent()) && IsHeader(p, lines[i], st.nextId))
    ensures GoodState(p, st.(currentLines := st.currentLines + [lines[i]]))
    ensures GoodHeads(p, lines, i + 1, st.(currentLines := st.currentLines + [lines[i]]))
  {
    assert !Opener(p, lines)(st.heads, |st.heads|, i);
  }

  /** A header line is recorded as the next header. */
  lemma HeaderHeads(p: SubParser, lines: seq<Line>, i: nat, st: ExtractState, st': ExtractState)
    requires i < |lines| && GoodHeads(p, lines, i, st)
    requires LevelBefore(lines, i) == 0 && IndentFits(st.headerIndent, lines[i].Indent()) && IsHeader(p, lines[i], st.nextId)
    requires NextIdentifier(KindOf(p), st.nextId) == Ok(st'.nextId)
    requires st'.heads == st.heads + [i] && st'.headerIndent == Some(lines[i].Indent())
    ensures GoodHeads(p, lines, i + 1, st')
  {
    assert Opener(p, lines)(st.heads, |st.heads|, i);
    assert st'.heads[..|st.heads|] == st.heads;
  }

  /** At a header, the element collected so far (if any) is parsed. */
  function FlushCurrent(p: SubParser, st: ExtractState): (r: Result<seq<Element>>)
    requires GoodState(p, st)
    ensures r.Ok? ==> AllOfKind(r.value, KindOf(p))
    ensures r.Ok? && st.currentId.None? ==> r.value == []
    ensures r.Ok? && st.currentId.Some? ==> Identifiers(r.value) == Identifiers(st.elements) + [st.currentId]
    decreases Rank(p), 3, 0, 0
  {
    if st.currentId.None? then Ok(st.elements)
    else
      var e :- Parse(p, st.currentLines, st.currentId);
      assert Identifiers(st.elements + [e]) == Identifiers(st.elements) + [e.identifier];
      Ok(st.elements + [e])
  }

  /** Extending a chain by the successor of its last identifier (or starting
      one at the first identifier). */
  lemma ChainStep(kind: ElementKind, ids: seq<Option<string>>, current: Option<string>, next: string, first: string)
    requires current.None? ==> ids == [] && next == first
    requires current.Some? ==> Chain(kind, ids + [current], first) && NextIdentifier(kind, current.value) == Ok(next)
    ensures current.None? ==> Chain(kind, [Some(next)], first)
    ensures current.Some? ==> Chain(kind, ids + [current] + [Some(next)], first)
  {
  }

  /** `extract_multiple_from_text`: cuts `lines` into elements of the
      parser's class. List-like parsers need an intro and at least two
      elements (SubArticleElementNotFoundError otherwise); alphabetic ones
      take trailing lines aligned with the last header as wrap-up. */
  function ExtractMultiple(p: SubParser, lines: seq<Line>): (r: Result<Extracted>)
    ensures r.Ok? ==> |r.value.elements| > 0 && AllOfKind(r.value.elements, KindOf(p))
    ensures r.Ok? ==> Numbered(p, r.value.elements)
    ensures r.Ok? && ListLike(p) ==> |r.value.elements| >= 2 && r.value.intro.Some?
    ensures r.Ok? && !CanHaveWrapUp(p) ==> r.value.wrapUp.None?
    ensures r.Ok? ==> LevelAfter(lines) == 0
    decreases Rank(p), 5, 0, 1
  {
    var st :- ExtractLoop(p, lines, 0, InitialState(p));
    var _ :- QuotingCheck(lines);
    FinishExtract(p, lines, st)
  }

  /** After the scan: the element count checks, the wrap-up, and the last
      element. */
  function FinishExtract(p: SubParser, lines: seq<Line>, st: ExtractState): (r: Result<Extracted>)
    requires GoodState(p, st)
    ensures r.Ok? ==> |r.value.elements| > 0 && AllOfKind(r.value.elements, KindOf(p))
    ensures r.Ok? ==> Numbered(p, r.value.elements)
    ensures r.Ok? && ListLike(p) ==> |r.value.elements| >= 2 && r.value.intro.Some?
    ensures r.Ok? && !CanHaveWrapUp(p) ==> r.value.wrapUp.None?
    ensures r.Ok? ==> HeadsNumber(st.heads, r.value.elements)
    decreases Rank(p), 5, 0, 0
  {
    if |st.elements| == 0 && ListLike(p) then Err(NotFound)
    else if st.intro.None? && ListLike(p) then Err(NotFound)
    else
      // The source reads `current_lines[0]` here; a header has been seen, so
      // that list is never empty.
      var (rest, wrapUp) :=
        if CanHaveWrapUp(p) then PopWrapUp(st.currentLines, st.currentLines[0].Indent())
        else (st.currentLines, None);
      var last :- Parse(p, rest, st.currentId);
      var es := st.elements + [last];
      assert Identifiers(es) == Identifiers(st.elements) + [st.currentId];
      Ok(Extracted(st.intro, es, wrapUp))
  }

  /** The elements of an extraction start at exactly the header lines:
      one element per line that opens the next one, or a single unnumbered
      element when no line does. */
  lemma ExtractedHeads(p: SubParser, lines: seq<Line>)
    requires ExtractMultiple(p, lines).Ok?
    ensures exists heads :: HeaderLines(p, lines, heads) && HeadsNumber(heads, ExtractMultiple(p, lines).value.elements)
  {
    var st := ExtractLoop(p, lines, 0, InitialState(p)).value;
    OpenerPrefixDetermined(p, lines);
    HeadScanHeads(Opener(p, lines), |lines|, |lines|, st.heads);
    assert HeadsNumber(st.heads, ExtractMultiple(p, lines).value.elements);
  }

  /** One element per header line, or the single unnumbered element when
      there was none. */
  predicate HeadsNumber(heads: seq<int>, es: seq<Element>) {
    if |heads| == 0 then |es| == 1 && es[0].identifier.None? else |heads| == |es|
  }

  /** The wrap-up heuristic: trailing lines (never the first one) aligned
      with `indent` are removed, and their text, joined with spaces in
      document order, is the wrap-up. */
  function PopWrapUp(lines: seq<Line>, indent: real): (r: (seq<Line>, Option<string>))
    requires |lines| > 0
    ensures WrapUpSplit(lines, indent, r.0, r.1)
  {
    var last := lines[|lines| - 1];
    if |lines| > 1 && SimilarIndent(last.Indent(), indent) then
      var (rest, w) := PopWrapUp(lines[..|lines| - 1], indent);
      var wrapUp := if w.None? then last.Content() else w.value + " " + last.Content();
      WrapUpSplitSnoc(lines, indent, rest, w);
      (rest, Some(wrapUp))
    else
      (lines, None)
  }

  /** `lines` split into the kept lines `rest` and the wrap-up: the removed
      lines are a non-empty suffix (never the first line) aligned with
      `indent`, their texts joined with spaces, and the last kept line
      (unless it is the first) is not aligned. */
  predicate WrapUpSplit(lines: seq<Line>, indent: real, rest: seq<Line>, wrapUp: Option<string>) {
    && 0 < |rest| <= |lines| && rest == lines[..|rest|]
    && (wrapUp.None? <==> |rest| == |lines|)
    && (wrapUp.Some? ==> wrapUp.value == Join(Texts(lines[|rest|..]), " "))
    && (forall j | |rest| <= j < |lines| :: SimilarIndent(lines[j].Indent(), indent))
    && (|rest| > 1 ==> !SimilarIndent(rest[|rest| - 1].Indent(), indent))
  }

  /** An aligned last line joins the wrap-up of the lines before it. */
  lemma WrapUpSplitSnoc(lines: seq<Line>, indent: real, rest: seq<Line>, w: Option<string>)
    requires |lines| > 1 && SimilarIndent(lines[|lines| - 1].Indent(), indent)
    requires WrapUpSplit(lines[..|lines| - 1], indent, rest, w)
    ensures var last := lines[|lines| - 1];
      WrapUpSplit(lines, indent, rest, Some(if w.None? then last.Content() else w.value + " " + last.Content()))
  {
    var init, last := lines[..|lines| - 1], lines[|lines| - 1];
    assert lines[..|rest|] == init[..|rest|];
    assert lines[|rest|..] == init[|rest|..] + [last];
    assert Texts(lines[|rest|..]) == Texts(init[|rest|..]) + [last.Content()];
    if w.None? {
      assert init[|rest|..] == [];
    } else {
      JoinSnoc(Texts(init[|rest|..]), last.Content(), " ");
    }
  }

  // ---------------------------------------------------------------------
  // Quoted blocks

  datatype QuoteState = Start | Intro | InQuote | WrapUpMaybe | WrapUp

  /** The variables of `QuotedBlockParser.try_parse`. */
  datatype QuoteAcc = QuoteAcc(state: QuoteState, intro: string, blocks: seq<QuotedBlock>, quoted: seq<Line>, wrapUp: Option<string>)

  predicate GoodQuoteAcc(a: QuoteAcc) {
    && (a.state == WrapUpMaybe || a.state == WrapUp ==> |a.blocks| > 0)
    && (forall b | b in a.blocks :: |b.lines| > 0)
    && (a.state == InQuote ==> |a.quoted| > 0)
    && (a.state == WrapUp <==> a.wrapUp.Some?)
  }

  /** The opening line of a quotation, as it leaves the intro or the maybe-
      wrap-up state: a one-line quote becomes a block at once, otherwise the
      quotation stays open. */
  function OpenQuote(a: QuoteAcc, line: Line): (r: Result<QuoteAcc>)
    requires GoodQuoteAcc(a) && |line.Content()| > 0 && a.wrapUp.None?
    ensures r.Ok? ==> GoodQuoteAcc(r.value) && (r.value.state == WrapUpMaybe || r.value.state == InQuote)
    ensures r.Ok? ==> |r.value.blocks| >= |a.blocks|
  {
    var c := line.Content();
    if c[|c| - 1] == '”' then
      var s :- Slice(line, 1, Some(-1));
      Ok(a.(blocks := a.blocks + [QuotedBlock([s])], quoted := [], state := WrapUpMaybe))
    else
      var s :- Slice(line, 1, None);
      Ok(a.(quoted := [s], state := InQuote))
  }

  /** One step of the state machine, for a line at quote level `level`.
      Reading the first or last character of a line with parts but no text
      raises IndexError. */
  function QuoteStep(a: QuoteAcc, line: Line, level: int): (r: Result<QuoteAcc>)
    requires GoodQuoteAcc(a)
    ensures r.Ok? ==> GoodQuoteAcc(r.value)
    ensures r.Ok? ==> |r.value.blocks| >= |a.blocks|
  {
    var c := line.Content();
    match a.state
    case Start =>
      if line != EmptyLine then Ok(a.(intro := c, state := Intro)) else Ok(a)
    case Intro =>
      if line == EmptyLine then Ok(a)
      else if |c| == 0 then Err(IndexError)
      else if c[0] == '„' && level == 0 then OpenQuote(a, line)
      else Ok(a.(intro := a.intro + " " + c))
    case InQuote =>
      if line != EmptyLine && |c| == 0 then Err(IndexError)
      else if line != EmptyLine && c[|c| - 1] == '”' && level + QuoteLevelDiff(c) == 0 then
        var s :- Slice(line, 0, Some(-1));
        Ok(a.(blocks := a.blocks + [QuotedBlock(a.quoted + [s])], quoted := [], state := WrapUpMaybe))
      else
        Ok(a.(quoted := a.quoted + [line]))
    case WrapUpMaybe =>
      if line == EmptyLine then Ok(a)
      else if |c| == 0 then Err(IndexError)
      else if c[0] == '„' && level == 0 then OpenQuote(a, line)
      else Ok(a.(wrapUp := Some(c), state := WrapUp))
    case WrapUp =>
      if line != EmptyLine then Ok(a.(wrapUp := Some(a.wrapUp.value + " " + c))) else Ok(a)
  }

  /** The state machine run over the lines from `i` on. */
  function QuoteLoop(lines: seq<Line>, i: nat, a: QuoteAcc): (r: Result<QuoteAcc>)
    requires i <= |lines| && GoodQuoteAcc(a)
    ensures r.Ok? ==> GoodQuoteAcc(r.value) && |r.value.blocks| >= |a.blocks|
    decreases |lines| - i
  {
    if i == |lines| then Ok(a)
    else
      var a' :- QuoteStep(a, lines[i], LevelBefore(lines, i));
      QuoteLoop(lines, i + 1, a')
  }

  /** `QuotedBlockParser.try_parse`: an intro, then one or more quotations
      („...”), then an optional wrap-up. Ending anywhere but after a
      quotation or in the wrap-up is SubArticleElementNotFoundError; the
      unbalanced-quote ValueError comes first. */
  function QuotedBlockParse(lines: seq<Line>): (r: Result<(string, seq<QuotedBlock>, Option<string>)>)
    ensures r.Ok? ==> |r.value.1| > 0 && forall b | b in r.value.1 :: |b.lines| > 0
    ensures r.Ok? ==> LevelAfter(lines) == 0
    ensures |lines| == 0 ==> r == Err(NotFound)
  {
    var a :- QuoteLoop(lines, 0, QuoteAcc(Start, "", [], [], None));
    var _ :- QuotingCheck(lines);
    if a.state != WrapUp && a.state != WrapUpMaybe then Err(NotFound)
    else Ok((a.intro, a.blocks, a.wrapUp))
  }

  /** An intro line and a one-line quotation: the quotation without its
      marks is the only block, and there is no wrap-up. */
  lemma QuotedOneLine(intro: Line, quote: Line, body: string)
    requires intro != EmptyLine && QuoteLevelDiff(intro.Content()) == 0
    requires quote.Content() == "„" + body + "”" && QuoteLevelDiff(body) == 0
    requires Slice(quote, 1, Some(-1)).Ok?
    ensures var s := Slice(quote, 1, Some(-1)).value;
      && QuotedBlockParse([intro, quote]) == Ok((intro.Content(), [QuotedBlock([s])], None))
      && (s != EmptyLine ==> s.Content() == body)
  {
    var lines := [intro, quote];
    var s := Slice(quote, 1, Some(-1)).value;
    var a0 := QuoteAcc(Start, "", [], [], None);
    var a1 := a0.(intro := intro.Content(), state := Intro);
    assert QuoteStep(a0, intro, LevelBefore(lines, 0)) == Ok(a1);
    assert LevelBefore(lines, 1) == 0 by {
      assert lines[..1] == [intro];
    }
    assert quote != EmptyLine by {
      assert |quote.Content()| > 0;
    }
    var c := quote.Content();
    assert c[..1] == "„" && c[|c| - 1..] == "”";
    assert c[0] == '„' && c[|c| - 1] == '”';
    assert a1.blocks + [QuotedBlock([s])] == [QuotedBlock([s])];
    var a2 := a1.(blocks := [QuotedBlock([s])], quoted := [], state := WrapUpMaybe);
    assert OpenQuote(a1, quote) == Ok(a2);
    assert QuoteStep(a1, quote, 0) == Ok(a2);
    assert QuoteLoop(lines, 2, a2) == Ok(a2);
    assert QuoteLoop(lines, 1, a1) == Ok(a2);
    assert QuoteLoop(lines, 0, a0) == Ok(a2);
    assert QuoteLevelDiff(quote.Content()) == 0 by {
      QuoteLevelDiffAppend("„" + body, "”");
      QuoteLevelDiffAppend("„", body);
    }
    assert lines[..1] == [intro];
    SliceContent(quote, 1, Some(-1));
  }

  // ---------------------------------------------------------------------
  // Numbering

  /** The `n`-th identifier after `first`, by repeated `next_identifier`. */
  function NthIdentifier(kind: ElementKind, first: string, n: nat): Result<string> {
    if n == 0 then Ok(first)
    else
      var prev :- NthIdentifier(kind, first, n - 1);
      NextIdentifier(kind, prev)
  }

  /** A chain of identifiers is the sequence of iterated successors of its
      first one: element `k` carries the `k`-th successor. */
  lemma {:induction false} ChainIsIterated(kind: ElementKind, ids: seq<Option<string>>, first: string, k: nat)
    requires Chain(kind, ids, first) && k < |ids|
    ensures NthIdentifier(kind, first, k) == Ok(ids[k].value)
  {
    if k > 0 {
      ChainIsIterated(kind, ids, first, k - 1);
    }
  }

  /** Paragraphs and numeric points count 1, 2, 3, ... */
  lemma {:induction false} NumericChain(kind: ElementKind, ids: seq<Option<string>>, k: nat)
    requires kind == Paragraph || kind == NumericPoint
    requires Chain(kind, ids, "1") && k < |ids|
    ensures ids[k] == Some(NatToString(k + 1))
  {
    if k == 0 {
      assert NatToString(1) == "1";
    } else {
      NumericChain(kind, ids, k - 1);
      NatToStringRoundTrip(k);
      assert NumericNext(NatToString(k)) == Ok(ids[k].value);
    }
  }

  /** Alphabetic points and plain subpoints count a, b, c, ... */
  lemma {:induction false} AlphabeticChain(kind: ElementKind, ids: seq<Option<string>>, k: nat)
    requires kind == AlphabeticPoint || kind == AlphabeticSubpoint
    requires Chain(kind, ids, "a") && k < |ids| && k < 26
    ensures ids[k] == Some([('a' as int + k) as char])
  {
    if k > 0 {
      AlphabeticChain(kind, ids, k - 1);
    }
  }
}
