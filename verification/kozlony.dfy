/** The Magyar Közlöny (Hungarian Official Gazette) extractors of
    `hun_law/extractors/magyar_kozlony.py`: recognising a gazette, cutting the
    running header off every page, grouping the pages into sections by their
    title line, and the line-by-line state machine that cuts the laws section
    into the raw texts of single acts. */
module Kozlony {
  import opened Wrappers
  import opened Text
  import opened Lines
  import opened Utils

  /** A page of a PDF already turned into lines. */
  datatype Page = Page(lines: seq<Line>)

  // ---------------------------------------------------------------------
  // Recognising a gazette

  const GazetteTitle := "MAGYAR KÖZLÖNY"

  /** Whether the first line of the first page carries the gazette's name.
      A PDF without pages, or whose first page has no lines, fails on the
      indexing with `IndexError`. */
  function IsMagyarKozlony(pages: seq<Page>): (r: Result<bool>)
    ensures r.Err? <==> |pages| == 0 || |pages[0].lines| == 0
    ensures r.Err? ==> r.error == IndexError
    ensures r.Ok? ==> (r.value <==> Contains(pages[0].lines[0].Content(), GazetteTitle))
  {
    if |pages| == 0 || |pages[0].lines| == 0 then Err(IndexError)
    else Ok(Contains(pages[0].lines[0].Content(), GazetteTitle))
  }

  // ---------------------------------------------------------------------
  // Header extractor

  datatype PageWithHeader = PageWithHeader(header: seq<Line>, lines: seq<Line>)

  /** `(lines[:n], lines[n:])`: Python slices clip at the end of the list. */
  function Cut(lines: seq<Line>, n: nat): (r: PageWithHeader)
    ensures r.header + r.lines == lines
    ensures |r.header| == if |lines| < n then |lines| else n
  {
    if |lines| < n then PageWithHeader(lines, []) else PageWithHeader(lines[..n], lines[n..])
  }

  /** The lines of the first page come out twice: once with the five-line
      title block as header, and again, like every page, with the two-line
      running header cut off. Not a gazette: nothing is extracted. */
  function ExtractHeaders(pages: seq<Page>): (r: Result<Option<seq<PageWithHeader>>>)
    ensures IsMagyarKozlony(pages).Err? ==> r == Err(IndexError)
    ensures IsMagyarKozlony(pages).Ok? ==> r.Ok? && (r.value.Some? <==> IsMagyarKozlony(pages).value)
    ensures r.Ok? && r.value.Some? ==>
      && |r.value.value| == |pages| + 1
      && r.value.value[0] == Cut(pages[0].lines, 5)
      && forall i | 0 <= i < |pages| :: r.value.value[i + 1] == Cut(pages[i].lines, 2)
  {
    var isKozlony :- IsMagyarKozlony(pages);
    if !isKozlony then Ok(None)
    else Ok(Some([Cut(pages[0].lines, 5)] + seq(|pages|, i requires 0 <= i < |pages| => Cut(pages[i].lines, 2))))
  }

  /** Headers and bodies put back together. */
  function Reassemble(ps: seq<PageWithHeader>): (r: seq<seq<Line>>)
    ensures |r| == |ps|
    ensures forall i | 0 <= i < |ps| :: r[i] == ps[i].header + ps[i].lines
  {
    seq(|ps|, i requires 0 <= i < |ps| => ps[i].header + ps[i].lines)
  }

  /** Cutting the headers loses no line: header and body of the extra first
      page give back the first page, and those of the others give back the
      PDF page by page. */
  lemma ExtractHeadersRoundTrip(pages: seq<Page>)
    requires ExtractHeaders(pages).Ok? && ExtractHeaders(pages).value.Some?
    ensures var out := Reassemble(ExtractHeaders(pages).value.value);
      && |out| == |pages| + 1 && out[0] == pages[0].lines
      && forall i | 0 <= i < |pages| :: out[i + 1] == pages[i].lines
  {
    var ps := ExtractHeaders(pages).value.value;
    var out := Reassemble(ps);
    assert out[0] == ps[0].header + ps[0].lines;
    forall i | 0 <= i < |pages|
      ensures out[i + 1] == pages[i].lines
    {
      assert out[i + 1] == ps[i + 1].header + ps[i + 1].lines;
    }
  }

  // ---------------------------------------------------------------------
  // Section extractor

  /** The section titles the extractor knows, in the order it tries them. */
  const SectionTitles: seq<string> := [
    "Tartalomjegyzék",
    "II. Törvények",
    "III. Kormányrendeletek",
    "IV. A Magyar Nemzeti Bank elnökének rendeletei,",
    "V. A Kormány tagjainak rendeletei",
    "VI.Az Alkotmánybíróság határozatai, teljes ülési",
    "VII. A Kúria határozatai",
    "IX. Határozatok Tára"
  ]

  /** The only title whose section is passed on, to the law extractor. */
  const LawsTitle := "II. Törvények"

  predicate IsTitle(s: string) {
    s in SectionTitles
  }

  datatype Section = Section(title: string, lines: seq<Line>)

  /** The extractor's variables: the title of the section being collected,
      its lines so far, and the sections already closed. */
  datatype Sections = Sections(current: Option<string>, content: seq<Line>, closed: seq<Section>)

  const NoSections := Sections(None, [], [])

  /** What a non-empty page adds to the section it ends up in: its lines
      without the title line if it starts with one, and a closing empty line
      that keeps the page break visible. An empty page adds nothing. */
  function Piece(lines: seq<Line>): seq<Line> {
    if |lines| == 0 then []
    else if IsTitle(lines[0].Content()) then lines[1..] + [EmptyLine]
    else lines + [EmptyLine]
  }

  /** One page: a title line equal to the current title continues the
      section, another title closes it and opens a new one, and a page without
      a title continues the current section, which must exist. */
  function Step(s: Sections, lines: seq<Line>): (r: Result<Sections>)
    ensures r.Err? <==> |lines| > 0 && !IsTitle(lines[0].Content()) && s.current.None?
    ensures r.Err? ==> r.error == ValueError
    ensures r.Ok? && |lines| > 0 ==> r.value.current.Some?
    ensures r.Ok? && |lines| > 0 && IsTitle(lines[0].Content()) ==> r.value.current == Some(lines[0].Content())
    ensures r.Ok? && |lines| > 0 && !IsTitle(lines[0].Content()) ==> r.value.current == s.current
  {
    if |lines| == 0 then Ok(s)
    else if IsTitle(lines[0].Content()) then
      var title := lines[0].Content();
      if s.current == Some(title) then Ok(s.(content := s.content + Piece(lines)))
      else
        var closed := if s.current.Some? then s.closed + [Section(s.current.value, s.content)] else s.closed;
        Ok(Sections(Some(title), Piece(lines), closed))
    else if s.current.None? then Err(ValueError)
    else Ok(s.(content := s.content + Piece(lines)))
  }

  function Fold(s: Sections, pages: seq<PageWithHeader>): Result<Sections>
    decreases |pages|
  {
    if |pages| == 0 then Ok(s)
    else
      var s' :- Step(s, pages[0].lines);
      Fold(s', pages[1..])
  }

  /** Every section of the gazette, in order; the Python generator's yields
      happen only after its one possible `ValueError`, and its closing
      `AssertionError` only when nothing was yielded, so no output is lost by
      returning a whole list or an error. */
  function AllSections(pages: seq<PageWithHeader>): Result<seq<Section>> {
    var s :- Fold(NoSections, pages);
    if s.current.None? then Err(AssertionError)
    else Ok(s.closed + [Section(s.current.value, s.content)])
  }

  /** The sections passed on: the laws sections, in order. */
  function LawsSections(ss: seq<Section>): (r: seq<seq<Line>>)
    ensures |r| <= |ss|
    ensures forall i | 0 <= i < |r| :: exists j | 0 <= j < |ss| :: ss[j].title == LawsTitle && ss[j].lines == r[i]
    ensures r == [] <==> forall j | 0 <= j < |ss| :: ss[j].title != LawsTitle
  {
    if |ss| == 0 then []
    else
      var rest := LawsSections(ss[1..]);
      assert forall j | 1 <= j < |ss| :: ss[1..][j - 1] == ss[j];
      if ss[0].title == LawsTitle then [ss[0].lines] + rest else rest
  }

  function ExtractSections(pages: seq<PageWithHeader>): Result<seq<seq<Line>>> {
    var all :- AllSections(pages);
    Ok(LawsSections(all))
  }

  // Properties of the section extractor

  /** The lines of the first page that has any. */
  function FirstNonEmpty(pages: seq<PageWithHeader>): (r: Option<seq<Line>>)
    ensures r.Some? ==> |r.value| > 0
  {
    if |pages| == 0 then None
    else if |pages[0].lines| > 0 then Some(pages[0].lines)
    else FirstNonEmpty(pages[1..])
  }

  function SectionLines(ss: seq<Section>): (r: seq<seq<Line>>)
    ensures |r| == |ss|
    ensures forall i | 0 <= i < |ss| :: r[i] == ss[i].lines
  {
    seq(|ss|, i requires 0 <= i < |ss| => ss[i].lines)
  }

  function Pieces(pages: seq<PageWithHeader>): (r: seq<seq<Line>>)
    ensures |r| == |pages|
    ensures forall i | 0 <= i < |pages| :: r[i] == Piece(pages[i].lines)
  {
    seq(|pages|, i requires 0 <= i < |pages| => Piece(pages[i].lines))
  }

  /** The closed sections followed by the open one. */
  function Collected(s: Sections): seq<Section> {
    if s.current.Some? then s.closed + [Section(s.current.value, s.content)] else s.closed
  }

  function Titles(ss: seq<Section>): (r: seq<string>)
    ensures |r| == |ss|
    ensures forall i | 0 <= i < |ss| :: r[i] == ss[i].title
  {
    seq(|ss|, i requires 0 <= i < |ss| => ss[i].title)
  }

  /** Known titles, and no two neighbouring sections with the same one. */
  ghost predicate TitlesOk(ts: seq<string>) {
    && (forall i | 0 <= i < |ts| :: IsTitle(ts[i]))
    && (forall i, j | 0 <= i < j < |ts| && j == i + 1 :: ts[i] != ts[j])
  }

  /** What the extractor's variables satisfy between pages. */
  ghost predicate Tidy(s: Sections) {
    && (s.current.None? ==> s.content == [] && s.closed == [])
    && TitlesOk(Titles(Collected(s)))
  }

  /** Appending a section appends its lines and its title. */
  lemma AppendSection(ss: seq<Section>, sec: Section)
    ensures Flatten(SectionLines(ss + [sec])) == Flatten(SectionLines(ss)) + sec.lines
    ensures Titles(ss + [sec]) == Titles(ss) + [sec.title]
  {
    assert SectionLines(ss + [sec]) == SectionLines(ss) + [sec.lines];
    FlattenAppend(SectionLines(ss), sec.lines);
  }

  /** Lines added to the last section come last, and no title changes. */
  lemma ExtendLastSection(ss: seq<Section>, title: string, content: seq<Line>, extra: seq<Line>)
    ensures Flatten(SectionLines(ss + [Section(title, content + extra)]))
         == Flatten(SectionLines(ss + [Section(title, content)])) + extra
    ensures Titles(ss + [Section(title, content + extra)]) == Titles(ss + [Section(title, content)])
  {
    AppendSection(ss, Section(title, content + extra));
    AppendSection(ss, Section(title, content));
  }

  /** One page keeps the variables tidy and appends its piece to the
      collected lines. */
  lemma StepKeeps(s: Sections, lines: seq<Line>)
    requires Tidy(s) && Step(s, lines).Ok?
    ensures Tidy(Step(s, lines).value)
    ensures Flatten(SectionLines(Collected(Step(s, lines).value)))
         == Flatten(SectionLines(Collected(s))) + Piece(lines)
  {
    var s' := Step(s, lines).value;
    if |lines| == 0 {
      assert s' == s;
    } else if s.current.Some? && (!IsTitle(lines[0].Content()) || s.current == Some(lines[0].Content())) {
      assert s' == s.(content := s.content + Piece(lines));
      ExtendLastSection(s.closed, s.current.value, s.content, Piece(lines));
    } else {
      var t := lines[0].Content();
      assert Collected(s') == Collected(s) + [Section(t, Piece(lines))];
      AppendSection(Collected(s), Section(t, Piece(lines)));
    }
  }

  lemma ConcatAssoc(a: seq<Line>, b: seq<Line>, c: seq<Line>)
    ensures (a + b) + c == a + (b + c)
  {
  }

  lemma {:induction false} FoldKeeps(s: Sections, pages: seq<PageWithHeader>)
    requires Tidy(s) && Fold(s, pages).Ok?
    ensures Tidy(Fold(s, pages).value)
    ensures Flatten(SectionLines(Collected(Fold(s, pages).value)))
         == Flatten(SectionLines(Collected(s))) + Flatten(Pieces(pages))
    decreases |pages|
  {
    if |pages| > 0 {
      var s' := Step(s, pages[0].lines).value;
      StepKeeps(s, pages[0].lines);
      FoldKeeps(s', pages[1..]);
      assert Pieces(pages)[1..] == Pieces(pages[1..]);
      var before, piece, after := Flatten(SectionLines(Collected(s))), Piece(pages[0].lines), Flatten(Pieces(pages[1..]));
      assert Flatten(Pieces(pages)) == piece + after;
      ConcatAssoc(before, piece, after);
    } else {
      assert Pieces(pages) == [];
    }
  }

  /** Grouping loses and invents no line: the sections' lines, concatenated,
      are the pages' pieces concatenated; every title is a known one and the
      same title never opens two neighbouring sections. */
  lemma AllSectionsPartition(pages: seq<PageWithHeader>)
    requires AllSections(pages).Ok?
    ensures Flatten(SectionLines(AllSections(pages).value)) == Flatten(Pieces(pages))
    ensures TitlesOk(Titles(AllSections(pages).value))
  {
    FoldKeeps(NoSections, pages);
    var s := Fold(NoSections, pages).value;
    assert AllSections(pages).value == Collected(s);
    assert Collected(NoSections) == [];
  }

  /** Once a section is open, no page can fail. */
  lemma {:induction false} FoldOpen(s: Sections, pages: seq<PageWithHeader>)
    requires s.current.Some?
    ensures Fold(s, pages).Ok? && Fold(s, pages).value.current.Some?
    decreases |pages|
  {
    if |pages| > 0 {
      FoldOpen(Step(s, pages[0].lines).value, pages[1..]);
    }
  }

  /** Before a section is open, the first page with lines decides: it fails
      unless it starts with a title; with no such page nothing opens. */
  lemma {:induction false} FoldClosed(s: Sections, pages: seq<PageWithHeader>)
    requires s.current.None?
    ensures Fold(s, pages).Err? <==> FirstNonEmpty(pages).Some? && !IsTitle(FirstNonEmpty(pages).value[0].Content())
    ensures Fold(s, pages).Err? ==> Fold(s, pages).error == ValueError
    ensures Fold(s, pages).Ok? ==> (Fold(s, pages).value.current.None? <==> FirstNonEmpty(pages).None?)
    decreases |pages|
  {
    if |pages| > 0 {
      if |pages[0].lines| == 0 {
        FoldClosed(s, pages[1..]);
      } else if IsTitle(pages[0].lines[0].Content()) {
        FoldOpen(Step(s, pages[0].lines).value, pages[1..]);
      }
    }
  }

  /** The two exceptions of the section extractor: `ValueError` exactly when
      the first page with lines does not start with a known title, and the
      closing `AssertionError` exactly when no page has lines. */
  lemma AllSectionsErrors(pages: seq<PageWithHeader>)
    ensures AllSections(pages).Err? <==> FirstNonEmpty(pages).None? || !IsTitle(FirstNonEmpty(pages).value[0].Content())
    ensures FirstNonEmpty(pages).None? ==> AllSections(pages) == Err(AssertionError)
    ensures FirstNonEmpty(pages).Some? && !IsTitle(FirstNonEmpty(pages).value[0].Content())
      ==> AllSections(pages) == Err(ValueError)
  {
    FoldClosed(NoSections, pages);
  }

  // ---------------------------------------------------------------------
  // Law extractor state machine

  /** `re.match('^[12][09][0-9][0-9]. évi [IVXLC]+. törvény', s)`; an
      unescaped `.` matches any character except a newline. */
  predicate HeaderStart(s: string) {
    && |s| >= 10
    && (s[0] == '1' || s[0] == '2')
    && (s[1] == '0' || s[1] == '9')
    && IsDigit(s[2]) && IsDigit(s[3])
    && s[4] != '\n'
    && s[5..10] == " évi "
    && RomanThenAct(s, 10)
  }

  predicate IsRomanLetter(c: char) {
    c == 'I' || c == 'V' || c == 'X' || c == 'L' || c == 'C'
  }

  /** `[IVXLC]+. törvény` at `i`, with the backtracking of a greedy `+`: the
      `.` may take any character after at least one numeral letter. */
  predicate RomanThenAct(s: string, i: nat)
    decreases |s| - i
  {
    && i < |s|
    && IsRomanLetter(s[i])
    && (AnyThenAct(s, i + 1) || RomanThenAct(s, i + 1))
  }

  predicate AnyThenAct(s: string, i: nat) {
    i < |s| && s[i] != '\n' && StartsWith(s[i + 1..], " törvény")
  }

  /** `re.match('köztársasági elnök az Országgyűlés (al)?elnöke', s)`. */
  predicate ActFooter(s: string)
    ensures ActFooter(s) ==> s != ""
  {
    || StartsWith(s, "köztársasági elnök az Országgyűlés elnöke")
    || StartsWith(s, "köztársasági elnök az Országgyűlés alelnöke")
  }

  datatype State =
    | WaitingForHeaderNewline
    | WaitingForHeader
    | Header
    | BodyBeforeAsteriskFooter
    | BodyAfterAsteriskFooter
  {
    predicate InBody() {
      this == BodyBeforeAsteriskFooter || this == BodyAfterAsteriskFooter
    }
  }

  datatype Machine = Machine(identifier: string, subject: string, body: seq<Line>, state: State)

  const Initial := Machine("", "", [], WaitingForHeaderNewline)

  /** One act cut out of the laws section. */
  datatype RawText = RawText(identifier: string, subject: string, body: seq<Line>)

  /** The machine after a line, and the act that line completed, if any. */
  datatype Fed = Fed(machine: Machine, result: Option<RawText>)

  /** `BODY_AFTER_ASTERISK_FOOTER`: the line joins the body; a body that now
      ends in an empty line, a signature line and the footer naming the
      President of the Republic and the Speaker completes the act, without
      those three lines, and the machine starts over. */
  function AfterFooter(m: Machine, line: Line): (r: Fed)
    ensures r.result.Some? <==> |m.body| >= 3 && m.body[|m.body| - 2] == EmptyLine && ActFooter(line.Content())
    ensures r.result.Some? ==>
      r.machine == Initial && r.result.value == RawText(m.identifier, m.subject, m.body[..|m.body| - 2])
    ensures r.result.None? ==> r.machine == m.(body := m.body + [line])
  {
    var body := m.body + [line];
    if |body| < 4 then Fed(m.(body := body), None)
    else if body[|body| - 3] == EmptyLine && ActFooter(body[|body| - 1].Content()) then
      assert body[..|body| - 3] == m.body[..|m.body| - 2];
      Fed(Initial, Some(RawText(m.identifier, m.subject, body[..|body| - 3])))
    else Fed(m.(body := body), None)
  }

  /** `WAITING_FOR_HEADER_NEWLINE`: only an empty line moves on. */
  function AwaitNewline(m: Machine, line: Line): (r: Machine)
    requires m.state == WaitingForHeaderNewline
    ensures r.(state := m.state) == m
    ensures r.state == WaitingForHeader <==> line == EmptyLine
    ensures r.state == WaitingForHeaderNewline <==> line != EmptyLine
  {
    if line == EmptyLine then m.(state := WaitingForHeader) else m
  }

  /** `WAITING_FOR_HEADER`: a header line becomes the act's identifier;
      anything else sends the machine back to wait for an empty line. */
  function AwaitHeader(m: Machine, line: Line): (r: Machine)
    requires m.state == WaitingForHeader
    ensures r.state == Header <==> HeaderStart(line.Content())
    ensures r.state == Header ==> r == m.(identifier := line.Content(), state := Header)
    ensures r.state != Header ==> r == m.(state := WaitingForHeaderNewline)
  {
    if HeaderStart(line.Content()) then m.(identifier := line.Content(), state := Header)
    else m.(state := WaitingForHeaderNewline)
  }

  /** `HEADER`: the subject grows line by line, space separated, until it
      ends in an asterisk, which is dropped as the body starts. Indexing the
      last character of an empty subject raises `IndexError`. */
  function InHeader(m: Machine, line: Line): (r: Result<Machine>)
    requires m.state == Header
    ensures r.Err? <==> m.subject == "" && line.Content() == ""
    ensures r.Err? ==> r.error == IndexError
    ensures r.Ok? ==> r.value.identifier == m.identifier && r.value.body == m.body
    ensures r.Ok? && r.value.state == BodyBeforeAsteriskFooter ==>
      r.value.subject + "*" == (if m.subject != "" then m.subject + " " else "") + line.Content()
    ensures r.Ok? && r.value.state != BodyBeforeAsteriskFooter ==>
      && r.value.state == Header
      && r.value.subject == (if m.subject != "" then m.subject + " " else "") + line.Content()
      && !EndsWith(r.value.subject, "*")
  {
    var subject := if m.subject != "" then m.subject + " " + line.Content() else line.Content();
    if |subject| == 0 then Err(IndexError)
    else if subject[|subject| - 1] == '*' then
      assert subject == subject[..|subject| - 1] + "*";
      Ok(m.(subject := subject[..|subject| - 1], state := BodyBeforeAsteriskFooter))
    else
      assert subject[|subject| - 1..] != "*" by {
        assert subject[|subject| - 1..][0] == subject[|subject| - 1];
      }
      Ok(m.(subject := subject))
  }

  /** The asterisk footer of an act's first page: an empty line, a line
      starting with `*`, and the empty line fed now. */
  predicate AsteriskFooter(m: Machine, line: Line) {
    && line == EmptyLine && |m.body| >= 3
    && m.body[|m.body| - 2] == EmptyLine
    && |m.body[|m.body| - 1].Content()| > 0 && m.body[|m.body| - 1].Content()[0] == '*'
  }

  /** `BODY_BEFORE_ASTERISK_FOOTER`: the asterisk footer shrinks to one
      empty line and the machine moves on; any other line is handled as after
      the footer, since an act may have none. An empty line where the
      asterisk should be raises `IndexError`. */
  function BeforeFooter(m: Machine, line: Line): (r: Result<Fed>)
    ensures r.Err? <==>
      line == EmptyLine && |m.body| >= 3 && m.body[|m.body| - 2] == EmptyLine && m.body[|m.body| - 1].Content() == ""
    ensures r.Err? ==> r.error == IndexError
    ensures AsteriskFooter(m, line) ==>
      r == Ok(Fed(m.(body := m.body[..|m.body| - 2] + [EmptyLine], state := BodyAfterAsteriskFooter), None))
    ensures r.Ok? && !AsteriskFooter(m, line) ==> r.value == AfterFooter(m, line)
    ensures r.Ok? && r.value.result.Some? <==>
      |m.body| >= 3 && m.body[|m.body| - 2] == EmptyLine && ActFooter(line.Content())
  {
    var body := m.body + [line];
    if |body| >= 4 && body[|body| - 3] == EmptyLine && body[|body| - 1] == EmptyLine then
      var mark := body[|body| - 2].Content();
      if |mark| == 0 then Err(IndexError)
      else if mark[0] == '*' then
        assert body[..|body| - 3] == m.body[..|m.body| - 2];
        Ok(Fed(m.(body := body[..|body| - 3] + [EmptyLine], state := BodyAfterAsteriskFooter), None))
      else Ok(AfterFooter(m, line))
    else Ok(AfterFooter(m, line))
  }

  /** `feed_line`: one step of the machine, and the act it completes. */
  function FeedLine(m: Machine, line: Line): (r: Result<Fed>)
    // an act is emitted only from a body state, and resets the machine
    ensures r.Ok? && r.value.result.Some? ==> m.state.InBody() && |m.body| >= 3
    ensures r.Ok? && r.value.result.Some? ==>
      r.value.machine == Initial && r.value.result.value == RawText(m.identifier, m.subject, m.body[..|m.body| - 2])
    // the two `IndexError`s: an empty subject, and an empty line inside the asterisk footer
    ensures r.Err? <==>
      || (m.state == Header && m.subject == "" && line.Content() == "")
      || (m.state == BodyBeforeAsteriskFooter && line == EmptyLine && |m.body| >= 3
          && m.body[|m.body| - 2] == EmptyLine && m.body[|m.body| - 1].Content() == "")
    ensures r.Err? ==> r.error == IndexError
  {
    match m.state
    case WaitingForHeaderNewline => Ok(Fed(AwaitNewline(m, line), None))
    case WaitingForHeader => Ok(Fed(AwaitHeader(m, line), None))
    case Header =>
      var m' :- InHeader(m, line);
      Ok(Fed(m', None))
    case BodyBeforeAsteriskFooter => BeforeFooter(m, line)
    case BodyAfterAsteriskFooter => Ok(AfterFooter(m, line))
  }

  /** An act is emitted exactly at its footer, in either body state: the
      body so far ends in an empty line and a signature line, and the line fed
      names the President of the Republic and the Speaker. */
  lemma FeedLineEmits(m: Machine, line: Line)
    ensures FeedLine(m, line).Ok? && FeedLine(m, line).value.result.Some? <==>
      m.state.InBody() && |m.body| >= 3 && m.body[|m.body| - 2] == EmptyLine && ActFooter(line.Content())
  {
    if m.state == BodyAfterAsteriskFooter {
      assert FeedLine(m, line) == Ok(AfterFooter(m, line));
    }
  }

  /** Inside an act's body, a line that neither completes the asterisk
      footer nor is the act's footer just joins the body. */
  lemma FeedBodyLine(m: Machine, line: Line)
    requires m.state.InBody() && !ActFooter(line.Content())
    requires m.state == BodyBeforeAsteriskFooter ==>
      !(line == EmptyLine && |m.body| >= 3 && m.body[|m.body| - 2] == EmptyLine)
    ensures FeedLine(m, line) == Ok(Fed(m.(body := m.body + [line]), None))
  {
    if m.state == BodyBeforeAsteriskFooter {
      assert FeedLine(m, line) == BeforeFooter(m, line);
    } else {
      assert FeedLine(m, line) == Ok(AfterFooter(m, line));
    }
  }

  /** What holds of the machine between lines: outside an act nothing is
      collected, and inside one the identifier is a header line. */
  predicate Consistent(m: Machine) {
    && (m.state == WaitingForHeaderNewline || m.state == WaitingForHeader ==>
          m.identifier == "" && m.subject == "" && m.body == [])
    && (m.state == Header ==> m.body == [] && HeaderStart(m.identifier))
    && (m.state.InBody() ==> HeaderStart(m.identifier))
  }

  lemma FeedLineConsistent(m: Machine, line: Line)
    requires Consistent(m) && FeedLine(m, line).Ok?
    ensures Consistent(FeedLine(m, line).value.machine)
    ensures FeedLine(m, line).value.result.Some? ==> HeaderStart(FeedLine(m, line).value.result.value.identifier)
  {
    match m.state
    case WaitingForHeaderNewline =>
    case WaitingForHeader =>
    case Header =>
    case BodyBeforeAsteriskFooter =>
      assert FeedLine(m, line) == BeforeFooter(m, line);
    case BodyAfterAsteriskFooter =>
      assert FeedLine(m, line) == Ok(AfterFooter(m, line));
  }

  datatype Ran = Ran(machine: Machine, results: seq<RawText>)

  function OptionSeq<T>(o: Option<T>): (r: seq<T>)
    ensures |r| <= 1
  {
    if o.Some? then [o.value] else []
  }

  /** Feeding the lines one by one to a step function, collecting the acts
      they complete. */
  function RunWith(feed: (Machine, Line) -> Result<Fed>, m: Machine, lines: seq<Line>): (r: Result<Ran>)
    ensures r.Ok? ==> |r.value.results| <= |lines|
    decreases |lines|
  {
    if |lines| == 0 then Ok(Ran(m, []))
    else
      var fed :- feed(m, lines[0]);
      var rest :- RunWith(feed, fed.machine, lines[1..]);
      Ok(Ran(rest.machine, OptionSeq(fed.result) + rest.results))
  }

  function Run(m: Machine, lines: seq<Line>): (r: Result<Ran>)
    ensures r.Ok? ==> |r.value.results| <= |lines|
  {
    RunWith(FeedLine, m, lines)
  }

  /** `MagyarKozlonyLawExtractor`: the acts of one laws section, at most one
      per line. */
  function ExtractLaws(section: seq<Line>): (r: Result<seq<RawText>>)
    ensures r.Ok? ==> |r.value| <= |section|
  {
    var ran :- Run(Initial, section);
    Ok(ran.results)
  }

  /** A second run continuing a first one. */
  function Then(ra: Ran, rb: Result<Ran>): Result<Ran> {
    if rb.Err? then rb else Ok(Ran(rb.value.machine, ra.results + rb.value.results))
  }

  lemma {:induction false} RunWithAppend(feed: (Machine, Line) -> Result<Fed>, m: Machine, a: seq<Line>, b: seq<Line>)
    ensures RunWith(feed, m, a).Err? ==> RunWith(feed, m, a + b) == RunWith(feed, m, a)
    ensures RunWith(feed, m, a).Ok? ==>
      RunWith(feed, m, a + b) == Then(RunWith(feed, m, a).value, RunWith(feed, RunWith(feed, m, a).value.machine, b))
    decreases |a|
  {
    if |a| == 0 {
      assert a + b == b;
      if RunWith(feed, m, b).Ok? {
        assert [] + RunWith(feed, m, b).value.results == RunWith(feed, m, b).value.results;
      }
    } else {
      assert (a + b)[0] == a[0];
      assert (a + b)[1..] == a[1..] + b;
      var fed := feed(m, a[0]);
      if fed.Ok? {
        var f := fed.value;
        RunWithAppend(feed, f.machine, a[1..], b);
        var rest := RunWith(feed, f.machine, a[1..]);
        if rest.Ok? && RunWith(feed, rest.value.machine, b).Ok? {
          var rb := RunWith(feed, rest.value.machine, b).value;
          assert OptionSeq(f.result) + (rest.value.results + rb.results)
              == (OptionSeq(f.result) + rest.value.results) + rb.results;
        }
      }
    }
  }

  /** Feeding two runs of lines is feeding the first, then the second from
      where the first left the machine. */
  lemma RunAppend(m: Machine, a: seq<Line>, b: seq<Line>)
    ensures Run(m, a).Err? ==> Run(m, a + b) == Run(m, a)
    ensures Run(m, a).Ok? ==> Run(m, a + b) == Then(Run(m, a).value, Run(Run(m, a).value.machine, b))
  {
    RunWithAppend(FeedLine, m, a, b);
  }

  /** Every act the extractor emits has a header line as its identifier, and
      the machine stays consistent over any run. */
  lemma {:induction false} RunConsistent(m: Machine, lines: seq<Line>)
    requires Consistent(m) && RunWith(FeedLine, m, lines).Ok?
    ensures Consistent(RunWith(FeedLine, m, lines).value.machine)
    ensures forall t | t in RunWith(FeedLine, m, lines).value.results :: HeaderStart(t.identifier)
    decreases |lines|
  {
    if |lines| > 0 {
      FeedLineConsistent(m, lines[0]);
      RunConsistent(FeedLine(m, lines[0]).value.machine, lines[1..]);
    }
  }

  lemma ExtractLawsIdentifiers(section: seq<Line>)
    requires ExtractLaws(section).Ok?
    ensures forall t | t in ExtractLaws(section).value :: HeaderStart(t.identifier)
  {
    RunConsistent(Initial, section);
  }

  /** A line of one text part. */
  function TextLine(s: string): (r: Line)
    ensures r.Content() == s
  {
    assert PartsContent([Part(0.0, s)]) == s + PartsContent([]) == s + "" == s;
    Line([Part(0.0, s)])
  }

  /** A run over a line and the rest: the line's act, then the rest's. */
  lemma RunCons(m: Machine, line: Line, rest: seq<Line>, fed: Fed)
    requires FeedLine(m, line) == Ok(fed)
    ensures RunWith(FeedLine, m, [line] + rest) == Then(Ran(m, OptionSeq(fed.result)), RunWith(FeedLine, fed.machine, rest))
  {
    assert ([line] + rest)[0] == line;
    assert ([line] + rest)[1..] == rest;
  }

  /** An act's first three lines: the empty line before it, the header,
      and a one-line subject ending in an asterisk, which starts the body. */
  lemma RunActHeader(header: string, subject: string)
    requires HeaderStart(header)
    ensures Run(Initial, [EmptyLine, TextLine(header), TextLine(subject + "*")])
         == Ok(Ran(Machine(header, subject, [], BodyBeforeAsteriskFooter), []))
  {
    var l1, l2 := TextLine(header), TextLine(subject + "*");
    var m1 := Initial.(state := WaitingForHeader);
    var m2 := m1.(identifier := header, state := Header);
    var m3 := m2.(subject := subject, state := BodyBeforeAsteriskFooter);
    assert FeedLine(Initial, EmptyLine) == Ok(Fed(m1, None));
    assert FeedLine(m1, l1) == Ok(Fed(m2, None));
    assert (subject + "*")[..|subject + "*"| - 1] == subject;
    assert FeedLine(m2, l2) == Ok(Fed(m3, None));
    RunCons(m2, l2, [], Fed(m3, None));
    RunCons(m1, l1, [l2], Fed(m2, None));
    RunCons(Initial, EmptyLine, [l1, l2], Fed(m1, None));
  }

  /** Two lines that neither end an asterisk footer nor are a footer
      join an empty body. */
  lemma RunTwoBodyLines(m: Machine, first: Line, second: Line)
    requires m.state == BodyBeforeAsteriskFooter && m.body == []
    requires !ActFooter(first.Content()) && !ActFooter(second.Content())
    ensures RunWith(FeedLine, m, [first, second]) == Ok(Ran(m.(body := [first, second]), []))
  {
    var m1 := m.(body := [first]);
    FeedBodyLine(m, first);
    assert [] + [first] == [first];
    FeedBodyLine(m1, second);
    assert [first] + [second] == [first, second];
    RunCons(m1, second, [], Fed(m.(body := [first, second]), None));
    assert [second] + [] == [second];
    RunCons(m, first, [second], Fed(m1, None));
    assert [first] + [second] == [first, second];
  }

  /** The signatures and the footer after a body ending in an empty line
      complete the act. */
  lemma RunActFooter(m: Machine, signature: Line, footer: Line)
    requires m.state == BodyBeforeAsteriskFooter && |m.body| >= 2 && m.body[|m.body| - 1] == EmptyLine
    requires ActFooter(footer.Content()) && !ActFooter(signature.Content()) && signature != EmptyLine
    ensures RunWith(FeedLine, m, [signature, footer])
         == Ok(Ran(Initial, [RawText(m.identifier, m.subject, m.body[..|m.body| - 1])]))
  {
    var m1 := m.(body := m.body + [signature]);
    var act := RawText(m.identifier, m.subject, m.body[..|m.body| - 1]);
    FeedBodyLine(m, signature);
    FeedLineEmits(m1, footer);
    assert m1.body[..|m1.body| - 2] == m.body[..|m.body| - 1];
    assert FeedLine(m1, footer) == Ok(Fed(Initial, Some(act)));
    RunCons(m1, footer, [], Fed(Initial, Some(act)));
    assert [footer] + [] == [footer];
    assert [act] + [] == [act];
    assert RunWith(FeedLine, m1, [footer]) == Ok(Ran(Initial, [act]));
    RunCons(m, signature, [footer], Fed(m1, None));
    assert [signature] + [footer] == [signature, footer];
    assert OptionSeq<RawText>(None) + [act] == [act];
  }

  /** The rest of a one-line act: the body line, the empty line, the
      signatures and the footer complete the act. */
  lemma RunActBody(m: Machine, body: Line, signature: Line, footer: Line)
    requires m.state == BodyBeforeAsteriskFooter && m.body == []
    requires ActFooter(footer.Content())
    requires !ActFooter(body.Content()) && !ActFooter(signature.Content()) && signature != EmptyLine
    ensures Run(m, [body, EmptyLine, signature, footer])
         == Ok(Ran(Initial, [RawText(m.identifier, m.subject, [body])]))
  {
    assert !ActFooter(EmptyLine.Content());
    RunTwoBodyLines(m, body, EmptyLine);
    var m2 := m.(body := [body, EmptyLine]);
    RunActFooter(m2, signature, footer);
    assert m2.body[..|m2.body| - 1] == [body];
    RunWithAppend(FeedLine, m, [body, EmptyLine], [signature, footer]);
    assert [body, EmptyLine] + [signature, footer] == [body, EmptyLine, signature, footer];
    assert [] + [RawText(m.identifier, m.subject, [body])] == [RawText(m.identifier, m.subject, [body])];
  }

  /** The layout of a one-line act in a laws section: an empty line, the
      header, the subject ending in an asterisk, the body line, an empty line,
      the signatures and the footer. The act comes out with the header as
      identifier, the subject without its asterisk, and the body line alone. */
  lemma RunOneLineAct(header: string, subject: string, body: Line, signature: Line, footer: Line)
    requires HeaderStart(header)
    requires ActFooter(footer.Content())
    requires !ActFooter(body.Content()) && !ActFooter(signature.Content()) && signature != EmptyLine
    ensures Run(Initial, [EmptyLine, TextLine(header), TextLine(subject + "*"), body, EmptyLine, signature, footer])
         == Ok(Ran(Initial, [RawText(header, subject, [body])]))
  {
    var front := [EmptyLine, TextLine(header), TextLine(subject + "*")];
    var back := [body, EmptyLine, signature, footer];
    RunActHeader(header, subject);
    RunActBody(Machine(header, subject, [], BodyBeforeAsteriskFooter), body, signature, footer);
    RunAppend(Initial, front, back);
    assert front + back == [EmptyLine, TextLine(header), TextLine(subject + "*"), body, EmptyLine, signature, footer];
    assert [] + [RawText(header, subject, [body])] == [RawText(header, subject, [body])];
  }
}
