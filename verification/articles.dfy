/** `ArticleParser` and `BlockAmendmentStructureParser` of
    `hun_law/parsers/structure_parser.py`: recognising an article header
    ("12. §", "3:15. §", "7/A. §"), parsing an article's optional title and
    paragraphs, and parsing the text of a block amendment as a run of
    articles or sub-article elements. */
module Articles {
  import opened Wrappers
  import opened Text
  import opened Lines
  import opened Utils
  import opened Structure
  import opened SubArticle

  // ---------------------------------------------------------------------
  // The header pattern `^([0-9]+:)?([0-9]+(/[A-Z])?)\. ?§ *(.*)$`

  /** The length of the run of ASCII digits starting at `i`. */
  function DigitRun(c: string, i: nat): (n: nat)
    requires i <= |c|
    ensures i + n <= |c|
    ensures forall j | i <= j < i + n :: IsDigit(c[j])
    ensures i + n == |c| || !IsDigit(c[i + n])
    decreases |c| - i
  {
    if i < |c| && IsDigit(c[i]) then 1 + DigitRun(c, i + 1) else 0
  }

  /** The number of spaces starting at `i`. */
  function SpaceRun(c: string, i: nat): (n: nat)
    requires i <= |c|
    ensures i + n <= |c|
    ensures forall j | i <= j < i + n :: c[j] == ' '
    ensures i + n == |c| || c[i + n] != ' '
    decreases |c| - i
  {
    if i < |c| && c[i] == ' ' then 1 + SpaceRun(c, i + 1) else 0
  }

  predicate IsUpperAscii(c: char) {
    'A' <= c <= 'Z'
  }

  /** An article identifier: an optional book number and colon, a number,
      and an optional "/" and capital letter. */
  predicate IsArticleId(id: string) {
    exists b: nat, n: nat | b <= |id| && n <= |id| :: ArticleIdShape(id, b, n)
  }

  /** `id` is an article identifier whose number starts at `b` and has `n`
      digits. */
  predicate ArticleIdShape(id: string, b: nat, n: nat) {
    && 0 < n && b + n <= |id|
    && (b == 0 || (b >= 2 && id[b - 1] == ':' && forall j | 0 <= j < b - 1 :: IsDigit(id[j])))
    && (forall j | b <= j < b + n :: IsDigit(id[j]))
    && (b + n == |id| || (b + n + 2 == |id| && id[b + n] == '/' && IsUpperAscii(id[b + n + 1])))
  }

  /** The identifier part of the header (groups 1 and 2) starting at `j`:
      digits, then optionally "/" and a capital; its end. */
  function NumberEnd(c: string, j: nat): (k: Option<nat>)
    requires j <= |c|
    ensures k.Some? ==> j < k.value <= |c|
  {
    var d := DigitRun(c, j);
    if d == 0 then None
    else if j + d + 1 < |c| && c[j + d] == '/' && IsUpperAscii(c[j + d + 1]) then Some(j + d + 2)
    else Some(j + d)
  }

  /** After the identifier: ".", an optional space, "§", any spaces; the
      position where group 4 (the body text) starts. */
  function SectionSignEnd(c: string, k: nat): (s: Option<nat>)
    requires k <= |c|
    ensures s.Some? ==> k + 2 <= s.value <= |c|
  {
    if k < |c| && c[k] == '.' then
      var k1 := if k + 1 < |c| && c[k + 1] == ' ' then k + 2 else k + 1;
      if k1 < |c| && c[k1] == '§' then Some(k1 + 1 + SpaceRun(c, k1 + 1)) else None
    else None
  }

  /** Where the identifier ends and the body begins, if the line matches
      `HEADER_RE`. Group 1 is tried greedily; when no colon follows the
      leading digits, the number starts at the beginning. */
  function HeaderSpan(c: string): (r: Option<(nat, nat)>)
    ensures r.Some? ==> 0 < r.value.0 && r.value.0 + 2 <= r.value.1 <= |c|
  {
    var d := DigitRun(c, 0);
    var j := if 0 < d < |c| && c[d] == ':' then d + 1 else 0;
    match NumberEnd(c, j)
    case None => None
    case Some(k) =>
      match SectionSignEnd(c, k)
      case None => None
      case Some(s) => Some((k, s))
  }

  /** `HEADER_RE.match`: the article identifier (groups 1 and 2 joined) and
      where the body text begins. The pattern is anchored at both ends and
      `.` does not match a line break; lines carry no line breaks. */
  function ArticleHeader(c: string): (r: Option<(string, nat)>)
    ensures r.Some? ==>
      var (id, start) := r.value;
      && 0 < |id| < start <= |c| && StartsWith(c, id) && IsArticleId(id)
      && c[|id|] == '.'
      && (start == |c| || c[start] != ' ')
      && '§' in c[|id| + 1..start]
  {
    match HeaderSpan(c)
    case None => None
    case Some((k, s)) =>
      ArticleIdWitness(c, k, s);
      SignIn(c, k, s);
      Some((c[..k], s))
  }

  lemma ArticleIdWitness(c: string, k: nat, s: nat)
    requires HeaderSpan(c) == Some((k, s))
    ensures IsArticleId(c[..k])
  {
    var d := DigitRun(c, 0);
    var j := if 0 < d < |c| && c[d] == ':' then d + 1 else 0;
    assert NumberEnd(c, j) == Some(k);
    var id := c[..k];
    var n := DigitRun(c, j);
    assert ArticleIdShape(id, j, n);
  }

  /** The section sign lies between the identifier and the body. */
  lemma SignIn(c: string, k: nat, s: nat)
    requires HeaderSpan(c) == Some((k, s))
    ensures c[k] == '.' && (s == |c| || c[s] != ' ')
    ensures '§' in c[k + 1..s]
  {
    var d := DigitRun(c, 0);
    var j := if 0 < d < |c| && c[d] == ':' then d + 1 else 0;
    assert NumberEnd(c, j) == Some(k) && SectionSignEnd(c, k) == Some(s);
    var k1 := if k + 1 < |c| && c[k + 1] == ' ' then k + 2 else k + 1;
    assert c[k + 1..s][k1 - k - 1] == '§';
  }

  /** The run of digits from `i` is exactly `n` long when `n` digits are
      followed by a non-digit or the end. */
  lemma {:induction false} DigitRunExact(c: string, i: nat, n: nat)
    requires i + n <= |c|
    requires forall j | i <= j < i + n :: IsDigit(c[j])
    requires i + n == |c| || !IsDigit(c[i + n])
    ensures DigitRun(c, i) == n
    decreases n
  {
    if n > 0 {
      DigitRunExact(c, i + 1, n - 1);
    }
  }

  /** A line printed as an article header, the identifier followed by ". §"
      or ".§", is recognised with exactly that identifier. */
  lemma HeaderRecognised(c: string, id: string, sep: string)
    requires IsArticleId(id)
    requires sep == ". §" || sep == ".§"
    requires |id| + |sep| <= |c| && c[..|id|] == id && c[|id|..|id| + |sep|] == sep
    ensures ArticleHeader(c).Some? && ArticleHeader(c).value.0 == id
  {
    var b: nat, n: nat :| b <= |id| && n <= |id| && ArticleIdShape(id, b, n);
    HeaderFromShape(c, id, sep, b, n);
  }

  lemma HeaderFromShape(c: string, id: string, sep: string, b: nat, n: nat)
    requires ArticleIdShape(id, b, n)
    requires sep == ". §" || sep == ".§"
    requires |id| + |sep| <= |c| && c[..|id|] == id && c[|id|..|id| + |sep|] == sep
    ensures ArticleHeader(c).Some? && ArticleHeader(c).value.0 == id
  {
    PrintedSpan(c, id, sep, b, n);
    ArticleHeaderOfSpan(c, id);
  }

  /** A printed header's identifier ends where the separator begins. */
  lemma PrintedSpan(c: string, id: string, sep: string, b: nat, n: nat)
    requires ArticleIdShape(id, b, n)
    requires sep == ". §" || sep == ".§"
    requires |id| + |sep| <= |c| && c[..|id|] == id && c[|id|..|id| + |sep|] == sep
    ensures HeaderSpan(c).Some? && HeaderSpan(c).value.0 == |id|
  {
    SectionSignAfter(c, |id|, sep);
    IdentifierBeforeSeparator(c, id, sep, b, n);
    HeaderSpanOf(c, b, |id|, SectionSignEnd(c, |id|).value);
  }

  lemma ArticleHeaderOfSpan(c: string, id: string)
    requires |id| <= |c| && c[..|id|] == id
    requires HeaderSpan(c).Some? && HeaderSpan(c).value.0 == |id|
    ensures ArticleHeader(c).Some? && ArticleHeader(c).value.0 == id
  {
  }

  /** An identifier followed by the separator is read as the number that
      ends right before the separator's dot. */
  lemma IdentifierBeforeSeparator(c: string, id: string, sep: string, b: nat, n: nat)
    requires ArticleIdShape(id, b, n)
    requires sep == ". §" || sep == ".§"
    requires |id| + |sep| <= |c| && c[..|id|] == id && c[|id|..|id| + |sep|] == sep
    ensures b == (if 0 < DigitRun(c, 0) < |c| && c[DigitRun(c, 0)] == ':' then DigitRun(c, 0) + 1 else 0)
    ensures NumberEnd(c, b) == Some(|id|)
  {
    assert c[|id|] == sep[0] == '.';
    IdentifierEnd(c, id, b, n);
  }

  /** `HeaderSpan` from its three steps. */
  lemma HeaderSpanOf(c: string, j: nat, k: nat, s: nat)
    requires j == (if 0 < DigitRun(c, 0) < |c| && c[DigitRun(c, 0)] == ':' then DigitRun(c, 0) + 1 else 0)
    requires j <= |c| && NumberEnd(c, j) == Some(k) && SectionSignEnd(c, k) == Some(s)
    ensures HeaderSpan(c) == Some((k, s))
  {
  }

  /** The separator ". §" or ".§" at `k` is read. */
  lemma SectionSignAfter(c: string, k: nat, sep: string)
    requires sep == ". §" || sep == ".§"
    requires k + |sep| <= |c| && c[k..k + |sep|] == sep
    ensures SectionSignEnd(c, k).Some?
  {
    assert c[k] == sep[0];
    if |sep| == 3 {
      assert c[k + 1] == sep[1] == ' ' && c[k + 2] == sep[2] == '§';
    } else {
      assert c[k + 1] == sep[1] == '§';
    }
  }

  /** On a line starting with a well-formed identifier and a full stop, the
      book prefix ends where the identifier's number begins, and the number
      ends where the identifier does. */
  lemma IdentifierEnd(c: string, id: string, b: nat, n: nat)
    requires ArticleIdShape(id, b, n)
    requires |id| < |c| && c[..|id|] == id && c[|id|] == '.'
    ensures b == (if 0 < DigitRun(c, 0) < |c| && c[DigitRun(c, 0)] == ':' then DigitRun(c, 0) + 1 else 0)
    ensures NumberEnd(c, b) == Some(|id|)
  {
    assert forall j | 0 <= j < |id| :: c[j] == id[j];
    DigitRunExact(c, b, n);
    if b > 0 {
      DigitRunExact(c, 0, b - 1);
    }
  }

  // ---------------------------------------------------------------------
  // The article body

  /** The optional bracketed title at the start of an article body: the
      title ("" when there is none) and the lines after it. A title opened
      on the first line must close on it or on the next one (ValueError
      otherwise); reading a missing line or the last character of an empty
      line raises IndexError. */
  function ArticleTitle(lines: seq<Line>): (r: Result<(string, seq<Line>)>)
    ensures |lines| == 0 ==> r == Err(IndexError)
    ensures r.Ok? ==> |lines| - 2 <= |r.value.1| <= |lines| && r.value.1 == lines[|lines| - |r.value.1|..]
    ensures r.Ok? && |r.value.1| == |lines| ==> r.value.0 == ""
    ensures |lines| > 0 && |lines[0].Content()| > 0 && lines[0].Content()[0] != '[' ==> r == Ok(("", lines))
    ensures r.Err? ==> r.error == IndexError || r.error == ValueError
  {
    if |lines| == 0 then Err(IndexError)
    else
      var c0 := lines[0].Content();
      if |c0| == 0 then Err(IndexError)
      else if c0[0] != '[' then Ok(("", lines))
      else if c0[|c0| - 1] == ']' then Ok((c0[1..|c0| - 1], lines[1..]))
      else if |lines| < 2 then Err(IndexError)
      else
        var c1 := lines[1].Content();
        if |c1| == 0 then Err(IndexError)
        else if c1[|c1| - 1] == ']' then Ok((c0[1..] + " " + c1[..|c1| - 1], lines[2..]))
        else Err(ValueError)
  }

  /** A title written on one line in brackets is read back exactly. */
  lemma OneLineTitle(title: string, first: Line, rest: seq<Line>)
    requires first.Content() == "[" + title + "]"
    ensures ArticleTitle([first] + rest) == Ok((title, rest))
  {
    assert ([first] + rest)[1..] == rest;
  }

  /** A title broken over two lines is read back with the line break turned
      into a space. */
  lemma TwoLineTitle(a: string, b: string, first: Line, second: Line, rest: seq<Line>)
    requires first.Content() == "[" + a && (|a| == 0 || a[|a| - 1] != ']')
    requires second.Content() == b + "]"
    ensures ArticleTitle([first, second] + rest) == Ok((a + " " + b, rest))
  {
    assert ([first, second] + rest)[2..] == rest;
    assert ("[" + a)[1..] == a;
    assert (b + "]")[..|b|] == b;
  }

  /** Numbered paragraphs all carry identifiers, so a numbered list always
      makes a valid article. */
  lemma NumberedUnnamedAlone(es: seq<Element>)
    requires Numbered(ParagraphParser, es)
    ensures UnnamedAlone(es)
  {
    if !(|es| == 1 && es[0].identifier.None?) {
      forall i | 0 <= i < |es|
        ensures es[i].identifier.Some?
      {
        assert Identifiers(es)[i] == es[i].identifier;
      }
    }
  }

  /** The shared part of `parse_body`: the title and the paragraphs. After
      the title one empty line is skipped. A body that does not start with
      "(1) " is a single unnumbered paragraph; otherwise it is cut into
      numbered paragraphs, and text before the first one is rejected
      (ValueError). Paragraph lists never have a wrap-up, so the source's
      check for one cannot fire. */
  function ParseBodyParts(lines: seq<Line>): (r: Result<(string, seq<Element>)>)
    ensures r.Ok? ==> |r.value.1| > 0 && AllOfKind(r.value.1, Paragraph)
    ensures r.Ok? ==> Numbered(ParagraphParser, r.value.1) && UnnamedAlone(r.value.1)
    ensures r.Ok? ==> ArticleTitle(lines).Ok? && r.value.0 == ArticleTitle(lines).value.0
    ensures |lines| == 0 ==> r == Err(IndexError)
  {
    var (title, ls) :- ArticleTitle(lines);
    if |ls| == 0 then Err(IndexError)
    else
      var paragraphs :- BodyParagraphs(if ls[0] == EmptyLine then ls[1..] else ls);
      Ok((title, paragraphs))
  }

  /** The paragraphs of the body after the title. */
  function BodyParagraphs(body: seq<Line>): (r: Result<seq<Element>>)
    ensures r.Ok? ==> |r.value| > 0 && AllOfKind(r.value, Paragraph)
    ensures r.Ok? ==> Numbered(ParagraphParser, r.value) && UnnamedAlone(r.value)
    ensures |body| == 0 ==> r == Err(IndexError)
  {
    if |body| == 0 then Err(IndexError)
    else if !IsHeader(ParagraphParser, body[0], FirstIdentifier(ParagraphParser)) then
      var p :- Parse(ParagraphParser, body, None);
      assert Identifiers([p]) == [None];
      Ok([p])
    else
      var x :- ExtractMultiple(ParagraphParser, body);
      if x.intro.Some? then Err(ValueError)
      else
        NumberedUnnamedAlone(x.elements);
        Ok(x.elements)
  }

  /** `parse_body` with the arguments of `Article` in their declared order:
      the paragraphs become the children and the title the title. */
  function ParseBody(identifier: string, lines: seq<Line>): (r: Result<Article>)
    ensures r.Ok? <==> ParseBodyParts(lines).Ok?
    ensures r.Ok? ==>
      && r.value.identifier == identifier
      && r.value.title == Some(ParseBodyParts(lines).value.0)
      && r.value.children == ParseBodyParts(lines).value.1
    ensures r.Err? ==> r.error == ParseBodyParts(lines).error
  {
    var (title, paragraphs) :- ParseBodyParts(lines);
    Ok(MakeArticle(identifier, paragraphs, Some(title)).value)
  }

  /** What `Article(identifier, title, paragraphs)` builds: the title string
      lands in `children` and the paragraphs in `title`. */
  datatype MisorderedArticle = MisorderedArticle(identifier: string, children: string, title: seq<Element>)

  /** `parse_body` as written. The children validator walks the title
      string and asks each character for its `identifier`
      (AttributeError); only an untitled article gets through, with no
      children and its paragraphs in the title slot. */
  function ParseBodyAsWritten(identifier: string, lines: seq<Line>): (r: Result<MisorderedArticle>)
    ensures ParseBodyParts(lines).Ok? ==>
      (r.Ok? <==> ParseBodyParts(lines).value.0 == "")
    ensures r.Ok? ==> r.value.children == "" && |r.value.title| > 0
  {
    var (title, paragraphs) :- ParseBodyParts(lines);
    if |title| > 0 then Err(AttributeError)
    else Ok(MisorderedArticle(identifier, title, paragraphs))
  }

  /** The discrepancy: a titled article is rejected as written, while the
      corrected parser keeps both the title and the paragraphs. */
  lemma TitledArticleRejected(identifier: string, title: string, first: Line, rest: seq<Line>)
    requires |title| > 0 && first.Content() == "[" + title + "]"
    requires ParseBodyParts([first] + rest).Ok?
    ensures ParseBodyAsWritten(identifier, [first] + rest) == Err(AttributeError)
    ensures ParseBody(identifier, [first] + rest).Ok?
    ensures ParseBody(identifier, [first] + rest).value.title == Some(title)
  {
    OneLineTitle(title, first, rest);
  }

  // ---------------------------------------------------------------------
  // Whole articles

  /** `ArticleParser.parse`: the first line must be an article header
      (otherwise the missing match object raises AttributeError); an
      identifier fixed by the caller must agree with it. The header is cut
      off the first line and the rest parsed as the body; failures of the
      body are reported as ArticleParsingError, while a failed cut
      (ValueError) passes through. */
  function ArticleParse(lines: seq<Line>, expected: Option<string>): (r: Result<Article>)
    ensures |lines| == 0 ==> r == Err(IndexError)
    ensures |lines| > 0 && ArticleHeader(lines[0].Content()).None? ==> r == Err(AttributeError)
    ensures r.Ok? ==>
      && |lines| > 0 && ArticleHeader(lines[0].Content()).Some?
      && r.value.identifier == ArticleHeader(lines[0].Content()).value.0
      && IsArticleId(r.value.identifier)
    ensures r.Ok? && expected.Some? && expected.value != "" ==> r.value.identifier == expected.value
    ensures r.Ok? ==>
      && |r.value.children| > 0 && AllOfKind(r.value.children, Paragraph)
      && Numbered(ParagraphParser, r.value.children) && r.value.title.Some?
    ensures |lines| > 0 && r.Err? ==> r.error in {AttributeError, ArticleParsing, ValueError}
  {
    if |lines| == 0 then Err(IndexError)
    else
      var c := lines[0].Content();
      match ArticleHeader(c)
      case None => Err(AttributeError)
      case Some((identifier, start)) =>
        if expected.Some? && expected.value != "" && expected.value != identifier then Err(ArticleParsing)
        else
          var truncated :- Slice(lines[0], start, Some(|c|));
          var body := ParseBody(identifier, [truncated] + lines[1..]);
          if body.Err? then Err(ArticleParsing) else body
  }

  /** `ArticleParser.is_header`: any header, or, with an identifier fixed by
      the caller, a line starting with that identifier and ". §" or ".§". */
  predicate IsArticleHeaderLine(line: Line, expected: Option<string>) {
    if expected.None? then ArticleHeader(line.Content()).Some?
    else StartsWith(line.Content(), expected.value + ". §") || StartsWith(line.Content(), expected.value + ".§")
  }

  /** The two header tests agree: a line announced as the header of a
      well-formed identifier is a header, and it names that identifier. */
  lemma ExpectedHeaderIsHeader(line: Line, id: string)
    requires IsArticleId(id) && IsArticleHeaderLine(line, Some(id))
    ensures IsArticleHeaderLine(line, None)
    ensures ArticleHeader(line.Content()).value.0 == id
  {
    var c := line.Content();
    var sep := if StartsWith(c, id + ". §") then ". §" else ".§";
    assert c[..|id| + |sep|] == id + sep;
    assert c[..|id|] == (id + sep)[..|id|];
    assert c[|id|..|id| + |sep|] == (id + sep)[|id|..];
    HeaderRecognised(c, id, sep);
  }

  // ---------------------------------------------------------------------
  // Block amendments

  /** The parser `BlockAmendmentStructureParser` picks for the amended
      reference: articles, or one of the sub-article parsers. */
  datatype BlockParser = ArticleBlock | ElementBlock(parser: SubParser)

  /** What the chosen parser produces. */
  function BlockType(bp: BlockParser): ChildType {
    match bp
    case ArticleBlock => ArticleType
    case ElementBlock(p) => ElementType(KindOf(p))
  }

  /** The class a reference component addresses, as a child type. */
  function RefChildType(t: RefType): ChildType {
    match t
    case ActRef => ArticleType
    case ArticleRef => ArticleType
    case ElementRef(k) => ElementType(k)
  }

  /** `get_parser_and_id`: the deepest component of the reference decides
      the parser, and its identifier (a range's first one) the first
      expected identifier. A reference with no component, to a whole act or
      to a numeric subpoint has no parser (KeyError); an alphabetic subpoint
      must be a single letter (SubArticleParsingError). An empty point or
      subpoint identifier raises IndexError. */
  function GetParserAndId(ref: Reference): (r: Result<(BlockParser, string)>)
    ensures LastComponentWithType(ref).Err? ==> r == Err(IndexError)
    ensures LastComponentWithType(ref) == Ok(None) ==> r == Err(KeyError)
    ensures LastComponentWithType(ref).Ok? && LastComponentWithType(ref).value.Some? ==>
      var (part, t) := LastComponentWithType(ref).value.value;
      && (t == ElementRef(AlphabeticSubpoint) && |StartId(part)| != 1 ==> r == Err(SubArticleParsing))
      && (t == ActRef || t == ElementRef(NumericSubpoint) ==> r == Err(KeyError))
      && (r.Ok? ==> r.value.1 == StartId(part) && BlockType(r.value.0) == RefChildType(t))
      && ((&& t != ActRef && t != ElementRef(NumericSubpoint)
           && (t == ElementRef(AlphabeticSubpoint) ==> |StartId(part)| == 1)) ==> r.Ok?)
  {
    var c :- LastComponentWithType(ref);
    if c.None? then Err(KeyError)
    else
      var (part, t) := c.value;
      var id := StartId(part);
      if t == ElementRef(AlphabeticSubpoint) && |id| != 1 then Err(SubArticleParsing)
      else
        match t
        case ArticleRef => Ok((ArticleBlock, id))
        case ElementRef(Paragraph) => Ok((ElementBlock(ParagraphParser), id))
        case ElementRef(AlphabeticPoint) => Ok((ElementBlock(AlphabeticPointParser), id))
        case ElementRef(NumericPoint) => Ok((ElementBlock(NumericPointParser), id))
        case ElementRef(AlphabeticSubpoint) => Ok((ElementBlock(AlphabeticSubpointParser("")), id))
        case _ => Err(KeyError)
  }

  /** `parser.is_header(line, expected_id)`. */
  predicate BlockHeader(bp: BlockParser, line: Line, id: string) {
    match bp
    case ArticleBlock => IsArticleHeaderLine(line, Some(id))
    case ElementBlock(p) => IsHeader(p, line, id)
  }

  /** `parser.PARSED_TYPE.next_identifier`. `ArticleParser` has no
      `PARSED_TYPE`, so as written the successor of an article block raises
      AttributeError; the corrected reading uses `Article.next_identifier`. */
  function BlockNext(reading: Reading, bp: BlockParser, id: string): (r: Result<string>)
    ensures bp.ArticleBlock? ==> (r == Err(AttributeError) <==> reading == AsWritten)
  {
    match bp
    case ArticleBlock => if reading == AsWritten then Err(AttributeError) else ArticleNextIdentifier(id)
    case ElementBlock(p) => NextIdentifier(KindOf(p), id)
  }

  /** The identifier expected for the `n`-th block. */
  function BlockNthId(reading: Reading, bp: BlockParser, first: string, n: nat): Result<string> {
    if n == 0 then Ok(first)
    else
      var prev :- BlockNthId(reading, bp, first, n - 1);
      BlockNext(reading, bp, prev)
  }

  /** The identifier a child carries. */
  function ChildId(c: Child): Option<string> {
    match c
    case SubElement(e) => e.identifier
    case Quoted(_) => None
    case ArticleChild(a) => Some(a.identifier)
  }

  /** Every block has the parser's type and carries the identifier expected
      for its position (an empty expected article identifier is not
      checked). */
  predicate BlocksNumbered(reading: Reading, bp: BlockParser, first: string, cs: seq<Child>) {
    forall k | 0 <= k < |cs| ::
      && TypeOf(cs[k]) == BlockType(bp)
      && BlockNthId(reading, bp, first, k).Ok?
      && (BlockNthId(reading, bp, first, k).value != "" ==> ChildId(cs[k]) == Some(BlockNthId(reading, bp, first, k).value))
  }

  /** `parser.parse(current_lines, expected_id)` for one block. */
  function ParseBlock(bp: BlockParser, lines: seq<Line>, id: string): (r: Result<Child>)
    ensures r.Ok? ==> TypeOf(r.value) == BlockType(bp)
    ensures r.Ok? && id != "" ==> ChildId(r.value) == Some(id)
    ensures bp.ElementBlock? && r.Ok? ==> ChildId(r.value) == Some(id)
    ensures |lines| == 0 ==> r == Err(IndexError)
  {
    match bp
    case ArticleBlock =>
      var a :- ArticleParse(lines, Some(id));
      Ok(ArticleChild(a))
    case ElementBlock(p) =>
      var e :- Parse(p, lines, Some(id));
      Ok(SubElement(e))
  }

  /** Appending the block parsed with the expected identifier keeps the
      numbering, and the next expected identifier is its successor. */
  lemma BlocksNumberedSnoc(reading: Reading, bp: BlockParser, first: string, done: seq<Child>, c: Child, id: string)
    requires BlocksNumbered(reading, bp, first, done) && BlockNthId(reading, bp, first, |done|) == Ok(id)
    requires TypeOf(c) == BlockType(bp) && (id != "" ==> ChildId(c) == Some(id))
    ensures BlocksNumbered(reading, bp, first, done + [c])
    ensures BlockNthId(reading, bp, first, |done| + 1) == BlockNext(reading, bp, id)
  {
    var cs := done + [c];
    forall k | 0 <= k < |cs|
      ensures TypeOf(cs[k]) == BlockType(bp) && BlockNthId(reading, bp, first, k).Ok?
      ensures BlockNthId(reading, bp, first, k).value != "" ==> ChildId(cs[k]) == Some(BlockNthId(reading, bp, first, k).value)
    {
      if k < |done| {
        assert cs[k] == done[k];
      } else {
        assert cs[k] == c && k == |done|;
      }
    }
    assert BlockNthId(reading, bp, first, |done| + 1) == BlockNext(reading, bp, BlockNthId(reading, bp, first, |done|).value);
  }

  /** The two readings of `do_parse_block_by_block`. As written
      (`AsWritten`) it cuts at a header of the identifier of the block being
      collected, so a later block starts with the previous block's header
      and is then parsed with the next identifier, and it asks the parser
      for a `PARSED_TYPE` that `ArticleParser` lacks. The evident intent
      (`Corrected`), which the tests of ranges such as "(5)–(8)" expect, is
      to cut at the header of the next identifier, with articles numbered on
      by `Article.next_identifier`. */
  datatype Reading = AsWritten | Corrected

  /** The identifier whose header closes the open block, while `id` is the
      one expected for it. */
  function CutId(reading: Reading, bp: BlockParser, id: string): Result<string> {
    match reading
    case AsWritten => Ok(id)
    case Corrected => BlockNext(reading, bp, id)
  }

  /** The identifier in whose header the `k + 1`-th block starts, counting
      from 0. */
  function CutNthId(reading: Reading, bp: BlockParser, first: string, k: nat): Result<string> {
    match reading
    case AsWritten => BlockNthId(reading, bp, first, k)
    case Corrected => BlockNthId(reading, bp, first, k + 1)
  }

  /** The identifier the reading cuts at for the block expected with `id`. */
  lemma CutNthIdOf(reading: Reading, bp: BlockParser, first: string, n: nat, id: string)
    requires BlockNthId(reading, bp, first, n) == Ok(id)
    ensures CutNthId(reading, bp, first, n) == CutId(reading, bp, id)
  {
  }

  /** What `do_parse_block_by_block` carries from line to line: the
      identifier expected next, the lines of the open block, the blocks
      parsed so far and the lines at which the later blocks start. */
  datatype BlockState = BlockState(id: string, current: seq<Line>, done: seq<Child>, cuts: seq<int>)

  /** The finished blocks are numbered, and `id` is the identifier expected
      for the next one. */
  predicate GoodBlockState(reading: Reading, bp: BlockParser, first: string, st: BlockState) {
    BlockNthId(reading, bp, first, |st.done|) == Ok(st.id) && BlocksNumbered(reading, bp, first, st.done)
  }

  /** Line `j` is where the `k + 1`-th block starts: at quote level 0, a
      header of the identifier the cut reading looks for. */
  predicate CutAt(reading: Reading, bp: BlockParser, first: string, lines: seq<Line>, k: nat, j: int) {
    && 0 <= j < |lines|
    && LevelBefore(lines, j) == 0
    && CutNthId(reading, bp, first, k).Ok?
    && BlockHeader(bp, lines[j], CutNthId(reading, bp, first, k).value)
  }

  /** `CutAt` as a value, so that the bookkeeping of the cuts below does
      not depend on what a header is. */
  function CutTest(reading: Reading, bp: BlockParser, first: string, lines: seq<Line>): (nat, int) -> bool {
    (k: nat, j: int) => CutAt(reading, bp, first, lines, k, j)
  }

  /** Every block after the first starts at a line `at` accepts, in order,
      before line `i`, and the open block starts at the last of them. */
  predicate CutsRecorded(at: (nat, int) -> bool, lines: seq<Line>, i: nat, st: BlockState) {
    && i <= |lines|
    && |st.cuts| == |st.done|
    && (forall k | 0 <= k < |st.cuts| :: 0 <= st.cuts[k] < i && at(k, st.cuts[k]))
    && (|st.cuts| > 0 ==> |st.current| > 0 && st.current[0] == lines[st.cuts[|st.cuts| - 1]])
  }

  /** The cuts recorded so far are all where the reading cuts. */
  predicate GoodCuts(reading: Reading, bp: BlockParser, first: string, lines: seq<Line>, i: nat, st: BlockState) {
    CutsRecorded(CutTest(reading, bp, first, lines), lines, i, st)
  }

  /** Closing the open block at the header line `i`: the collected lines are
      parsed with the expected identifier, which then advances to its
      successor, and the header opens the next block. */
  function CloseBlock(reading: Reading, bp: BlockParser, first: string, lines: seq<Line>, i: nat, st: BlockState): (r: Result<BlockState>)
    requires i < |lines| && GoodBlockState(reading, bp, first, st)
    ensures r.Ok? ==> GoodBlockState(reading, bp, first, r.value) && r.value.current == [lines[i]]
    ensures r.Ok? ==> |r.value.done| == |st.done| + 1 && r.value.done[..|st.done|] == st.done
    ensures r.Ok? ==> r.value.cuts == st.cuts + [i]
    ensures r.Ok? ==> ParseBlock(bp, st.current, st.id) == Ok(r.value.done[|st.done|])
  {
    var c :- ParseBlock(bp, st.current, st.id);
    var next :- BlockNext(reading, bp, st.id);
    BlocksNumberedSnoc(reading, bp, first, st.done, c, st.id);
    assert (st.done + [c])[..|st.done|] == st.done;
    Ok(BlockState(next, [lines[i]], st.done + [c], st.cuts + [i]))
  }

  /** One line of `do_parse_block_by_block`: a header line at quote level 0
      closes the open block, which is parsed with the expected identifier
      before the next one is computed; any other line joins the open
      block. */
  function BlockStep(reading: Reading, bp: BlockParser, lines: seq<Line>, i: nat, first: string, st: BlockState): (r: Result<BlockState>)
    requires i < |lines| && GoodBlockState(reading, bp, first, st) && GoodCuts(reading, bp, first, lines, i, st)
    ensures r.Ok? ==> GoodBlockState(reading, bp, first, r.value) && GoodCuts(reading, bp, first, lines, i + 1, r.value)
    ensures r.Ok? ==> |r.value.current| > 0 && r.value.current[|r.value.current| - 1] == lines[i]
  {
    var cutId := CutId(reading, bp, st.id);
    if |st.current| > 0 && LevelBefore(lines, i) == 0 && cutId.Ok? && BlockHeader(bp, lines[i], cutId.value) then
      var st' :- CloseBlock(reading, bp, first, lines, i, st);
      CutNthIdOf(reading, bp, first, |st.done|, st.id);
      NewCut(reading, bp, first, lines, |st.done|, i, st.id);
      CloseBlockCuts(CutTest(reading, bp, first, lines), lines, i, st, st');
      Ok(st')
    else
      JoinBlockCuts(CutTest(reading, bp, first, lines), lines, i, st);
      Ok(st.(current := st.current + [lines[i]]))
  }

  /** A line that joins the open block leaves the recorded cuts valid. */
  lemma JoinBlockCuts(at: (nat, int) -> bool, lines: seq<Line>, i: nat, st: BlockState)
    requires i < |lines| && CutsRecorded(at, lines, i, st)
    ensures CutsRecorded(at, lines, i + 1, st.(current := st.current + [lines[i]]))
  {
    if |st.cuts| > 0 {
      assert (st.current + [lines[i]])[0] == st.current[0];
    }
  }

  /** A cut recorded at an accepted line `i` keeps the cuts valid. */
  lemma CloseBlockCuts(at: (nat, int) -> bool, lines: seq<Line>, i: nat, st: BlockState, st': BlockState)
    requires i < |lines| && CutsRecorded(at, lines, i, st) && at(|st.cuts|, i)
    requires st'.cuts == st.cuts + [i] && |st'.done| == |st.done| + 1 && st'.current == [lines[i]]
    ensures CutsRecorded(at, lines, i + 1, st')
  {
    assert st'.cuts[|st'.cuts| - 1] == i;
    forall k | 0 <= k < |st'.cuts|
      ensures 0 <= st'.cuts[k] < i + 1 && at(k, st'.cuts[k])
    {
      if k < |st.cuts| {
        assert st'.cuts[k] == st.cuts[k];
      }
    }
  }

  /** A header line of the identifier the reading looks for is a cut. */
  lemma NewCut(reading: Reading, bp: BlockParser, first: string, lines: seq<Line>, n: nat, i: nat, id: string)
    requires i < |lines| && CutNthId(reading, bp, first, n) == CutId(reading, bp, id)
    requires LevelBefore(lines, i) == 0 && CutId(reading, bp, id).Ok? && BlockHeader(bp, lines[i], CutId(reading, bp, id).value)
    ensures CutTest(reading, bp, first, lines)(n, i)
  {
  }

  /** The loop of `do_parse_block_by_block` from line `i` on. */
  function BlockLoop(reading: Reading, bp: BlockParser, lines: seq<Line>, i: nat, first: string, st: BlockState): (r: Result<BlockState>)
    requires i <= |lines| && GoodBlockState(reading, bp, first, st) && GoodCuts(reading, bp, first, lines, i, st)
    ensures r.Ok? ==> GoodBlockState(reading, bp, first, r.value) && GoodCuts(reading, bp, first, lines, |lines|, r.value)
    ensures r.Ok? && (|st.current| > 0 || i < |lines|) ==> |r.value.current| > 0
    decreases |lines| - i
  {
    if i == |lines| then Ok(st)
    else
      var st' :- BlockStep(reading, bp, lines, i, first, st);
      BlockLoop(reading, bp, lines, i + 1, first, st')
  }

  /** The blocks found by the loop under a cut reading, each parsed; unbalanced
      quotes raise ValueError once the lines are used up, before the last
      block is parsed. */
  function BlocksBy(reading: Reading, bp: BlockParser, first: string, lines: seq<Line>): (r: Result<seq<Child>>)
    ensures r.Ok? ==> |r.value| > 0 && BlocksNumbered(reading, bp, first, r.value)
    ensures r.Ok? ==> LevelAfter(lines) == 0 && |lines| > 0
    ensures r.Ok? ==> exists cuts: seq<int> :: |cuts| == |r.value| - 1 && Cuts(reading, bp, first, lines, cuts)
    ensures |lines| == 0 ==> r == Err(IndexError)
  {
    var st :- BlockLoop(reading, bp, lines, 0, first, BlockState(first, [], [], []));
    var _ :- QuotingCheck(lines);
    var last :- ParseBlock(bp, st.current, st.id);
    BlocksNumberedSnoc(reading, bp, first, st.done, last, st.id);
    forall k | 0 <= k < |st.cuts|
      ensures CutAt(reading, bp, first, lines, k, st.cuts[k])
    {
      assert CutTest(reading, bp, first, lines)(k, st.cuts[k]);
    }
    Ok(st.done + [last])
  }

  /** The lines at which the second, third, ... block start. */
  predicate Cuts(reading: Reading, bp: BlockParser, first: string, lines: seq<Line>, cuts: seq<int>) {
    forall k | 0 <= k < |cuts| :: CutAt(reading, bp, first, lines, k, cuts[k])
  }

  /** `do_parse_block_by_block` as written: cut at the header of the
      identifier being collected. */
  function DoParseBlockByBlockAsWritten(bp: BlockParser, first: string, lines: seq<Line>): (r: Result<seq<Child>>)
    ensures r.Ok? ==> exists cuts: seq<int> :: |cuts| == |r.value| - 1 && Cuts(AsWritten, bp, first, lines, cuts)
  {
    BlocksBy(AsWritten, bp, first, lines)
  }

  /** `do_parse_block_by_block` with the cut at the header of the next
      identifier: the lines cut at block headers, each block parsed and
      numbered from `first` on, every later block starting at a header of
      its own identifier. */
  function DoParseBlockByBlock(bp: BlockParser, first: string, lines: seq<Line>): (r: Result<seq<Child>>)
    ensures r.Ok? ==> |r.value| > 0 && BlocksNumbered(Corrected, bp, first, r.value)
    ensures r.Ok? ==> LevelAfter(lines) == 0 && |lines| > 0
    ensures r.Ok? ==> exists cuts: seq<int> ::
      && |cuts| == |r.value| - 1
      && forall k | 0 <= k < |cuts| ::
           && 0 <= cuts[k] < |lines| && LevelBefore(lines, cuts[k]) == 0
           && BlockNthId(Corrected, bp, first, k + 1).Ok? && BlockHeader(bp, lines[cuts[k]], BlockNthId(Corrected, bp, first, k + 1).value)
    ensures |lines| == 0 ==> r == Err(IndexError)
  {
    BlocksBy(Corrected, bp, first, lines)
  }

  /** As written, a block amendment of paragraphs or points never yields
      more than one block: after a cut, the open block starts with the header
      of the previous identifier but is parsed with the next one, whose
      header it cannot also start with. */
  lemma AsWrittenSingleBlock(p: SubParser, first: string, lines: seq<Line>)
    requires DoParseBlockByBlockAsWritten(ElementBlock(p), first, lines).Ok?
    ensures |DoParseBlockByBlockAsWritten(ElementBlock(p), first, lines).value| == 1
  {
    var st := BlocksByLoop(AsWritten, ElementBlock(p), first, lines);
    NoCutAsWritten(p, first, lines, st);
  }

  /** As written, the first cut in an article block raises: the block
      before it is parsed (its error, if any, comes first), and then the
      missing `ArticleParser.PARSED_TYPE` gives AttributeError. */
  lemma ArticleCutRaises(first: string, lines: seq<Line>, i: nat, st: BlockState)
    requires i < |lines| && GoodBlockState(AsWritten, ArticleBlock, first, st) && GoodCuts(AsWritten, ArticleBlock, first, lines, i, st)
    requires |st.current| > 0 && LevelBefore(lines, i) == 0 && BlockHeader(ArticleBlock, lines[i], st.id)
    ensures var c := ParseBlock(ArticleBlock, st.current, st.id);
      BlockStep(AsWritten, ArticleBlock, lines, i, first, st) == Err(if c.Ok? then AttributeError else c.error)
  {
  }

  /** As written, a block amendment of articles never yields more than one
      article: a second one would need the successor the article parser
      does not have. */
  lemma AsWrittenArticleSingleBlock(first: string, lines: seq<Line>)
    requires DoParseBlockByBlockAsWritten(ArticleBlock, first, lines).Ok?
    ensures |DoParseBlockByBlockAsWritten(ArticleBlock, first, lines).value| == 1
  {
    var st := BlocksByLoop(AsWritten, ArticleBlock, first, lines);
    if |st.done| > 0 {
      NthIdNext(AsWritten, ArticleBlock, first, |st.done|, st.id);
    }
  }

  /** As written, no final state of the loop over an element block has a
      cut: the open block would start with the header of the identifier
      before the one it is parsed with. */
  lemma NoCutAsWritten(p: SubParser, first: string, lines: seq<Line>, st: BlockState)
    requires BlockNthId(AsWritten, ElementBlock(p), first, |st.done|) == Ok(st.id)
    requires GoodCuts(AsWritten, ElementBlock(p), first, lines, |lines|, st)
    requires ParseBlock(ElementBlock(p), st.current, st.id).Ok?
    ensures |st.done| == 0
  {
    if |st.done| > 0 {
      var n := |st.cuts|;
      assert n == |st.done|;
      LastCut(AsWritten, ElementBlock(p), first, lines, |lines|, st);
      CutBlockFails(p, first, lines, n, st.cuts[n - 1], st.current, st.id);
    }
  }

  /** As written, a block opened at a cut does not parse with the
      identifier it is expected to carry. */
  lemma CutBlockFails(p: SubParser, first: string, lines: seq<Line>, n: nat, j: int, current: seq<Line>, id: string)
    requires 0 < n && BlockNthId(AsWritten, ElementBlock(p), first, n) == Ok(id)
    requires CutAt(AsWritten, ElementBlock(p), first, lines, n - 1, j)
    requires |current| > 0 && current[0] == lines[j]
    ensures ParseBlock(ElementBlock(p), current, id).Err?
  {
    var prev := AsWrittenCutHeader(p, first, current[0], n - 1);
    NthIdNext(AsWritten, ElementBlock(p), first, n, id);
    HeaderClash(p, prev, id, current[0].Content());
    if ParseBlock(ElementBlock(p), current, id).Ok? {
      ParsedBlockHeader(p, current, id);
    }
  }

  /** As written, the `k + 1`-th block starts with the header of the `k`-th
      identifier. */
  lemma AsWrittenCutHeader(p: SubParser, first: string, line: Line, k: nat) returns (id: string)
    requires CutNthId(AsWritten, ElementBlock(p), first, k).Ok?
    requires BlockHeader(ElementBlock(p), line, CutNthId(AsWritten, ElementBlock(p), first, k).value)
    ensures BlockNthId(AsWritten, ElementBlock(p), first, k) == Ok(id) && StartsWith(line.Content(), Prefix(p, Some(id)))
  {
    id := BlockNthId(AsWritten, ElementBlock(p), first, k).value;
  }

  /** The `n`-th identifier follows the one before it. */
  lemma NthIdNext(reading: Reading, bp: BlockParser, first: string, n: nat, id: string)
    requires 0 < n && BlockNthId(reading, bp, first, n) == Ok(id)
    ensures BlockNthId(reading, bp, first, n - 1).Ok? && BlockNext(reading, bp, BlockNthId(reading, bp, first, n - 1).value) == Ok(id)
  {
  }

  /** An element block parses only when it starts with its header. */
  lemma ParsedBlockHeader(p: SubParser, lines: seq<Line>, id: string)
    requires ParseBlock(ElementBlock(p), lines, id).Ok?
    ensures |lines| > 0 && StartsWith(lines[0].Content(), Prefix(p, Some(id)))
  {
  }

  /** The open block of a state with cuts starts at the last cut. */
  lemma LastCut(reading: Reading, bp: BlockParser, first: string, lines: seq<Line>, i: nat, st: BlockState)
    requires GoodCuts(reading, bp, first, lines, i, st) && |st.cuts| > 0
    ensures var n := |st.cuts|;
      && CutAt(reading, bp, first, lines, n - 1, st.cuts[n - 1]) && |st.current| > 0 && st.current[0] == lines[st.cuts[n - 1]]
  {
    var n := |st.cuts|;
    assert CutTest(reading, bp, first, lines)(n - 1, st.cuts[n - 1]);
  }

  /** The state the loop of a successful `BlocksBy` ends in: its open block
      parses with the expected identifier and becomes the last block. */
  lemma BlocksByLoop(reading: Reading, bp: BlockParser, first: string, lines: seq<Line>) returns (st: BlockState)
    requires BlocksBy(reading, bp, first, lines).Ok?
    ensures GoodBlockState(reading, bp, first, st) && GoodCuts(reading, bp, first, lines, |lines|, st)
    ensures ParseBlock(bp, st.current, st.id).Ok?
    ensures |BlocksBy(reading, bp, first, lines).value| == |st.done| + 1
  {
    st := BlockLoop(reading, bp, lines, 0, first, BlockState(first, [], [], [])).value;
  }

  /** A line cannot start with the headers of an identifier and of its
      successor. */
  lemma HeaderClash(p: SubParser, id: string, next: string, c: string)
    requires NextIdentifier(KindOf(p), id) == Ok(next)
    requires StartsWith(c, Prefix(p, Some(id)))
    ensures !StartsWith(c, Prefix(p, Some(next)))
  {
    var a := Prefix(p, Some(id));
    var b := Prefix(p, Some(next));
    NextDiffers(KindOf(p), id, next);
    if |a| == |b| {
      if a == b {
        HeaderPrefixInjective(KindOf(p), id, next);
      }
    } else {
      var q := HeaderDifference(p, id, next);
      assert c[q] == a[q];
    }
  }

  /** Headers of an identifier and its successor that differ in length
      differ at a position both have. */
  lemma HeaderDifference(p: SubParser, id: string, next: string) returns (q: nat)
    requires NextIdentifier(KindOf(p), id) == Ok(next)
    requires |Prefix(p, Some(id))| != |Prefix(p, Some(next))|
    ensures q < |Prefix(p, Some(id))| && q < |Prefix(p, Some(next))|
    ensures Prefix(p, Some(id))[q] != Prefix(p, Some(next))[q]
  {
    if p.AlphabeticPointParser? {
      q := 0;
    } else if |id| < |next| {
      assert IsDigit(next[|id|]);
      q := DigitAgainstClose(p, id, next);
    } else {
      assert IsDigit(id[|next|]);
      q := DigitAgainstClose(p, next, id);
    }
  }

  /** Where the shorter identifier's header closes, the longer one's header
      still has a digit. */
  lemma DigitAgainstClose(p: SubParser, short: string, long: string) returns (q: nat)
    requires |short| < |long| && IsDigit(long[|short|])
    ensures q < |Prefix(p, Some(short))| && q < |Prefix(p, Some(long))|
    ensures Prefix(p, Some(short))[q] != Prefix(p, Some(long))[q]
  {
    var off := if p.ParagraphParser? then 1 else 0;
    q := off + |short|;
    var a, b := Prefix(p, Some(short)), Prefix(p, Some(long));
    assert b[q] == long[|short|];
    assert a[q] == ')' || a[q] == '.';
  }

  /** `next_identifier` never returns its argument. */
  lemma NextDiffers(kind: ElementKind, id: string, next: string)
    requires NextIdentifier(kind, id) == Ok(next)
    ensures next != id
  {
    if kind != AlphabeticPoint && kind != AlphabeticSubpoint && IsDigits(id) {
      assert ParseNat(next) == Ok(DigitsValue(id) + 1);
    }
  }

  /** `BlockAmendmentStructureParser.parse`: a block amendment element whose
      children are the parsed blocks, all of the type the amended reference
      addresses, the first one carrying its identifier. */
  function BlockAmendmentParse(ref: Reference, intro: Option<string>, wrapUp: Option<string>,
                               lines: seq<Line>): (r: Result<Element>)
    ensures r.Ok? ==>
      && r.value.kind == BlockAmendment && r.value.identifier.None? && r.value.text.None?
      && r.value.intro == intro && r.value.wrapUp == wrapUp
      && ValidElement(r.value) && r.value.children.Some?
    ensures r.Ok? ==> LastComponentWithType(ref).Ok? && LastComponentWithType(ref).value.Some?
    ensures r.Ok? && LastComponentWithType(ref).Ok? && LastComponentWithType(ref).value.Some? ==>
      var (part, t) := LastComponentWithType(ref).value.value;
      var cs := r.value.children.value;
      && TypeOf(cs[0]) == RefChildType(t)
      && (StartId(part) != "" ==> ChildId(cs[0]) == Some(StartId(part)))
    ensures GetParserAndId(ref).Err? ==> r == Err(GetParserAndId(ref).error)
  {
    var (bp, id) :- GetParserAndId(ref);
    var children :- DoParseBlockByBlock(bp, id, lines);
    assert Allowed(BlockAmendment, BlockType(bp));
    MakeElement(BlockAmendment, None, None, intro, Some(children), wrapUp)
  }
}
