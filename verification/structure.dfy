/** The document datatypes of `hun_law/structure.py`: sub-article elements
    (paragraphs, points, subpoints, block amendments), quoted blocks,
    articles, structural headings, acts, and the `Reference` address algebra.

    Every class of the source is immutable and validates itself when built;
    here the datatypes are plain values and the `Make...` functions are the
    validating constructors, failing with the exception class the source
    raises. */
module Structure {
  import opened Wrappers
  import opened Text
  import opened Lines
  import Numerals

  // ---------------------------------------------------------------------
  // Sub-article elements

  /** The concrete `SubArticleElement` classes. */
  datatype ElementKind =
    | AlphabeticSubpoint
    | NumericSubpoint
    | NumericPoint
    | AlphabeticPoint
    | BlockAmendment
    | Paragraph

  /** The exact class of a child, as `type(child)` sees it. */
  datatype ChildType = ElementType(kind: ElementKind) | QuotedBlockType | ArticleType

  datatype QuotedBlock = QuotedBlock(lines: seq<Line>)

  /** A `SubArticleElement`: either `text`, or `intro`/`children`/`wrap_up`. */
  datatype Element = Element(
    kind: ElementKind,
    identifier: Option<string>,
    text: Option<string>,
    intro: Option<string>,
    children: Option<seq<Child>>,
    wrapUp: Option<string>)

  /** `SubArticleChildType`: what a sub-article element may contain. */
  datatype Child = SubElement(element: Element) | Quoted(block: QuotedBlock) | ArticleChild(article: Article)

  /** An article; its children are paragraphs. */
  datatype Article = Article(identifier: string, children: seq<Element>, title: Option<string>)

  function TypeOf(c: Child): ChildType {
    match c
    case SubElement(e) => ElementType(e.kind)
    case Quoted(_) => QuotedBlockType
    case ArticleChild(_) => ArticleType
  }

  /** `ALLOWED_CHILDREN_TYPE` of each element class. */
  predicate Allowed(parent: ElementKind, t: ChildType) {
    match parent
    case AlphabeticSubpoint => false
    case NumericSubpoint => false
    case NumericPoint => t == ElementType(AlphabeticSubpoint)
    case AlphabeticPoint => t == ElementType(AlphabeticSubpoint) || t == ElementType(NumericSubpoint)
    case BlockAmendment =>
      t == ArticleType || (t.ElementType? && t.kind != BlockAmendment)
    case Paragraph =>
      t == ElementType(AlphabeticPoint) || t == ElementType(NumericPoint)
      || t == QuotedBlockType || t == ElementType(BlockAmendment)
  }

  /** All children have exactly the type of the first one. */
  predicate Homogeneous(cs: seq<Child>) {
    forall i | 0 <= i < |cs| :: TypeOf(cs[i]) == TypeOf(cs[0])
  }

  /** The two invariants the source's validators enforce. */
  predicate ValidElement(e: Element) {
    && (e.text.Some? ==> e.intro.None? && e.wrapUp.None? && e.children.None?)
    && (e.children.Some? ==>
          |e.children.value| > 0 && Allowed(e.kind, TypeOf(e.children.value[0]))
          && Homogeneous(e.children.value))
  }

  /** `children_type`: the type of the first child. */
  function ChildrenType(e: Element): Option<ChildType>
    requires e.children.Some? ==> |e.children.value| > 0
  {
    if e.children.None? then None else Some(TypeOf(e.children.value[0]))
  }

  /** Building a sub-article element. The `children_type` default reads the
      first child (IndexError on an empty tuple), then the text validator
      runs (ValueError), then the children validator (TypeError). */
  function MakeElement(kind: ElementKind, identifier: Option<string>, text: Option<string>,
                       intro: Option<string>, children: Option<seq<Child>>, wrapUp: Option<string>): (r: Result<Element>)
    ensures r.Ok? <==> ValidElement(Element(kind, identifier, text, intro, children, wrapUp))
    ensures r.Ok? ==> r.value == Element(kind, identifier, text, intro, children, wrapUp)
    ensures children == Some([]) ==> r == Err(IndexError)
    ensures children != Some([]) && text.Some? && (intro.Some? || wrapUp.Some? || children.Some?) ==> r == Err(ValueError)
    ensures r.Err? ==> r.error in {IndexError, ValueError, TypeError}
  {
    if children.Some? && |children.value| == 0 then Err(IndexError)
    else if text.Some? && (intro.Some? || wrapUp.Some? || children.Some?) then Err(ValueError)
    else if children.Some? && !Allowed(kind, TypeOf(children.value[0])) then Err(TypeError)
    else if children.Some? && !Homogeneous(children.value) then Err(TypeError)
    else Ok(Element(kind, identifier, text, intro, children, wrapUp))
  }

  /** The text rendering of an optional identifier (`"{}".format(None)`). */
  function IdText(identifier: Option<string>): string {
    if identifier.None? then "None" else identifier.value
  }

  /** `header_prefix`: "(id) " for paragraphs ('' without identifier),
      "id) " for alphabetic kinds, "id. " for numeric kinds; block
      amendments have no header (TypeError). */
  function HeaderPrefix(kind: ElementKind, identifier: Option<string>): (r: Result<string>)
    ensures r.Err? <==> kind == BlockAmendment
    ensures r.Err? ==> r.error == TypeError
    ensures kind == Paragraph && identifier.None? ==> r == Ok("")
    ensures r.Ok? && identifier.Some? ==> EndsWith(r.value, ") ") || EndsWith(r.value, ". ")
  {
    match kind
    case AlphabeticSubpoint => Ok(IdText(identifier) + ") ")
    case AlphabeticPoint => Ok(IdText(identifier) + ") ")
    case NumericSubpoint => Ok(IdText(identifier) + ". ")
    case NumericPoint => Ok(IdText(identifier) + ". ")
    case BlockAmendment => Err(TypeError)
    case Paragraph =>
      if identifier.None? then Ok("") else Ok("(" + identifier.value + ") ")
  }

  /** Different identifiers give different headers, so a header names its
      element unambiguously. */
  lemma HeaderPrefixInjective(kind: ElementKind, a: string, b: string)
    requires kind != BlockAmendment
    requires HeaderPrefix(kind, Some(a)) == HeaderPrefix(kind, Some(b))
    ensures a == b
  {
    var pa := HeaderPrefix(kind, Some(a)).value;
    if kind == Paragraph {
      assert a == pa[1..|pa| - 2];
    } else {
      assert a == pa[..|pa| - 2];
    }
  }

  // ---------------------------------------------------------------------
  // next_identifier

  /** `next_identifier` of paragraphs, numeric points and numeric subpoints:
      a number is incremented, otherwise the last character is bumped
      ("3a" to "3b"). */
  function NumericNext(identifier: string): (r: Result<string>)
    ensures IsDigits(identifier) ==> r.Ok? && ParseNat(r.value) == Ok(DigitsValue(identifier) + 1)
    ensures !IsDigits(identifier) && r.Ok? ==>
      && |r.value| == |identifier| > 0
      && r.value[..|identifier| - 1] == identifier[..|identifier| - 1]
      && r.value[|identifier| - 1] as int == identifier[|identifier| - 1] as int + 1
    ensures |identifier| == 0 ==> r == Err(IndexError)
    ensures r.Err? ==> r.error in {IndexError, ValueError}
  {
    if IsDigits(identifier) then
      NatToStringRoundTrip(DigitsValue(identifier) + 1);
      Ok(NatToString(DigitsValue(identifier) + 1))
    else if |identifier| == 0 then Err(IndexError)
    else
      var c :- NextChar(identifier[|identifier| - 1]);
      Ok(identifier[..|identifier| - 1] + [c])
  }

  /** `AlphabeticPoint.next_identifier`: "ny" is followed by "o" and "sz" by
      "t" (Hungarian digraphs), any other letter by the next character;
      `ord` of a longer string is a TypeError. */
  function AlphabeticPointNext(identifier: string): (r: Result<string>)
    ensures identifier == "ny" ==> r == Ok("o")
    ensures identifier == "sz" ==> r == Ok("t")
    ensures identifier != "ny" && identifier != "sz" && |identifier| != 1 ==> r == Err(TypeError)
    ensures |identifier| == 1 && r.Ok? ==> |r.value| == 1 && r.value[0] as int == identifier[0] as int + 1
  {
    if identifier == "ny" then Ok("o")
    else if identifier == "sz" then Ok("t")
    else if |identifier| != 1 then Err(TypeError)
    else
      var c :- NextChar(identifier[0]);
      Ok([c])
  }

  /** `AlphabeticSubpoint.next_identifier`: bumps the last of one or two
      characters ("b" to "c", "ab" to "ac"); longer identifiers raise. */
  function AlphabeticSubpointNext(identifier: string): (r: Result<string>)
    ensures (|identifier| == 0 || |identifier| > 2) ==> r == Err(ValueError)
    ensures r.Ok? ==>
      && |r.value| == |identifier|
      && r.value[..|identifier| - 1] == identifier[..|identifier| - 1]
      && r.value[|identifier| - 1] as int == identifier[|identifier| - 1] as int + 1
  {
    if |identifier| == 1 then
      var c :- NextChar(identifier[0]);
      Ok([c])
    else if |identifier| == 2 then
      var c :- NextChar(identifier[1]);
      Ok([identifier[0], c])
    else Err(ValueError)
  }

  /** `next_identifier` of each element class. */
  function NextIdentifier(kind: ElementKind, identifier: string): (r: Result<string>)
    ensures kind == BlockAmendment ==> r == Err(TypeError)
  {
    match kind
    case AlphabeticSubpoint => AlphabeticSubpointNext(identifier)
    case NumericSubpoint => NumericNext(identifier)
    case NumericPoint => NumericNext(identifier)
    case AlphabeticPoint => AlphabeticPointNext(identifier)
    case BlockAmendment => Err(TypeError)
    case Paragraph => NumericNext(identifier)
  }

  /** `Article.next_identifier`: "12/B" is followed by "12/C", "3:15" by
      "3:16" and "7" by "8". Unpacking a split with the wrong number of
      pieces and `int()` of a non-number raise ValueError; `ord` of more than
      one character raises TypeError. */
  function ArticleNextIdentifier(identifier: string): (r: Result<string>)
    ensures Count(identifier, '/') == 0 && Count(identifier, ':') == 0 ==>
      (r.Ok? <==> IsDigits(identifier))
    ensures Count(identifier, '/') == 0 && Count(identifier, ':') == 0 && r.Ok? ==>
      ParseNat(r.value) == Ok(DigitsValue(identifier) + 1)
    ensures r.Err? ==> r.error in {ValueError, TypeError}
  {
    if Count(identifier, '/') > 0 then
      var (prefix, letter) :- SplitPair(identifier, '/');
      if |letter| != 1 then Err(TypeError)
      else
        var c :- NextChar(letter[0]);
        Ok(prefix + "/" + [c])
    else if Count(identifier, ':') > 0 then
      var (book, num) :- SplitPair(identifier, ':');
      var n :- ParseNat(num);
      Ok(book + ":" + NatToString(n + 1))
    else
      var n :- ParseNat(identifier);
      NatToStringRoundTrip(n + 1);
      Ok(NatToString(n + 1))
  }

  /** A book-qualified article number keeps its book and counts on. */
  lemma ArticleNextInBook(book: string, num: string)
    requires Count(book, ':') == 0 && Count(book, '/') == 0
    requires IsDigits(num)
    ensures ArticleNextIdentifier(book + ":" + num) == Ok(book + ":" + NatToString(DigitsValue(num) + 1))
  {
    var id := book + ":" + num;
    CountAppend(book + ":", num, '/');
    CountAppend(book, ":", '/');
    CountAppend(book + ":", num, ':');
    CountAppend(book, ":", ':');
    CountZero(num, ':');
    CountZero(num, '/');
    var (b, n) := SplitPair(id, ':').value;
    assert id == b + ":" + n;
    SplitPairUnique(book, num, b, n, ':');
  }

  /** An inserted article "n/X" is followed by "n/Y", Y the next letter. */
  lemma ArticleNextInserted(prefix: string, letter: char)
    requires Count(prefix, '/') == 0 && letter != '/' && (letter as int + 1 < 0xD800)
    ensures ArticleNextIdentifier(prefix + "/" + [letter]) == Ok(prefix + "/" + [(letter as int + 1) as char])
  {
    var id := prefix + "/" + [letter];
    CountAppend(prefix + "/", [letter], '/');
    CountAppend(prefix, "/", '/');
    var (p, l) := SplitPair(id, '/').value;
    SplitPairUnique(prefix, [letter], p, l, '/');
  }

  /** A string with one separator splits in only one way. */
  lemma SplitPairUnique(a: string, b: string, a': string, b': string, c: char)
    requires Count(a, c) == 0 && Count(a', c) == 0
    requires a + [c] + b == a' + [c] + b'
    ensures a == a' && b == b'
  {
    CountZero(a, c);
    CountZero(a', c);
    var s := a + [c] + b;
    assert s[|a|] == c && s[|a'|] == c;
    assert forall j | 0 <= j < |a| :: s[j] == a[j];
    assert forall j | 0 <= j < |a'| :: s[j] == a'[j];
    assert |a| == |a'|;
    assert a == s[..|a|] == a';
    assert b == s[|a| + 1..] == b';
  }

  // ---------------------------------------------------------------------
  // Articles

  /** Only a lone paragraph may lack an identifier. */
  predicate UnnamedAlone(children: seq<Element>) {
    forall i | 0 <= i < |children| :: children[i].identifier.None? ==> |children| == 1
  }

  /** Building an `Article`: its validator rejects an unnamed paragraph with
      siblings (ValueError). */
  function MakeArticle(identifier: string, children: seq<Element>, title: Option<string>): (r: Result<Article>)
    ensures r.Ok? <==> UnnamedAlone(children)
    ensures r.Ok? ==> r.value == Article(identifier, children, title)
    ensures r.Err? ==> r.error == ValueError
  {
    if exists i | 0 <= i < |children| :: children[i].identifier.None? && |children| != 1 then Err(ValueError)
    else Ok(Article(identifier, children, title))
  }

  // ---------------------------------------------------------------------
  // Structural elements and acts

  datatype StructuralKind = Book | Part | Title | Chapter | Subtitle

  /** A structural heading. The structure parser gives it its running
      number (a Python int) as identifier. */
  datatype StructuralElement = StructuralElement(kind: StructuralKind, identifier: nat, title: string)

  /** `formatted_identifier`: the heading line as printed. Books and parts
      use the upper-case ordinal word (ValueError outside 1..100), titles and
      chapters the Roman numeral, subtitles "n." (empty without number). */
  function FormattedIdentifier(se: StructuralElement): (r: Result<string>)
    ensures r.Err? <==> (se.kind == Book || se.kind == StructuralKind.Part) && !(1 <= se.identifier <= 100)
    ensures r.Err? ==> r.error == ValueError
    ensures se.kind == Book && r.Ok? ==> EndsWith(r.value, " KÖNYV")
    ensures se.kind == StructuralKind.Part && r.Ok? ==> EndsWith(r.value, " RÉSZ")
    ensures se.kind == Title ==> r.Ok? && EndsWith(r.value, ". CÍM")
    ensures se.kind == Chapter ==> r.Ok? && EndsWith(r.value, ". FEJEZET")
    ensures se.kind == Subtitle ==> r.Ok? && (se.identifier == 0 <==> r.value == "")
  {
    match se.kind
    case Book =>
      var w :- Numerals.IntToTextHun(se.identifier);
      Ok(Upper(w) + " KÖNYV")
    case Part =>
      var w :- Numerals.IntToTextHun(se.identifier);
      Ok(Upper(w) + " RÉSZ")
    case Title => Ok(Upper(Numerals.IntToTextRoman(se.identifier)) + ". CÍM")
    case Chapter => Ok(Upper(Numerals.IntToTextRoman(se.identifier)) + ". FEJEZET")
    case Subtitle => if se.identifier == 0 then Ok("") else Ok(NatToString(se.identifier) + ".")
  }

  datatype ActIdAbbreviation = ActIdAbbreviation(abbreviation: string, act: string)

  /** A child of an act: a structural heading or an article. */
  datatype ActChild = StructuralChild(element: StructuralElement) | ArticleItem(article: Article)

  datatype Act = Act(
    identifier: string,
    subject: string,
    preamble: string,
    children: seq<ActChild>,
    actIdAbbreviations: Option<seq<ActIdAbbreviation>>,
    outgoingReferences: Option<seq<OutgoingReference>>)

  /** `Act.articles`: the article children, in document order. */
  function ArticlesOf(children: seq<ActChild>): (r: seq<Article>)
    ensures |r| <= |children|
    ensures forall a | a in r :: ArticleItem(a) in children
    ensures forall i | 0 <= i < |children| :: children[i].ArticleItem? ==> children[i].article in r
  {
    if |children| == 0 then []
    else
      var rest := ArticlesOf(children[1..]);
      assert forall i | 1 <= i < |children| :: children[i] == children[1..][i - 1];
      if children[0].ArticleItem? then [children[0].article] + rest else rest
  }

  /** Articles are collected piecewise: the articles of a concatenation are
      the concatenation of the articles. */
  lemma {:induction false} ArticlesOfAppend(a: seq<ActChild>, b: seq<ActChild>)
    ensures ArticlesOf(a + b) == ArticlesOf(a) + ArticlesOf(b)
  {
    if |a| > 0 {
      assert (a + b)[1..] == a[1..] + b;
      ArticlesOfAppend(a[1..], b);
    } else {
      assert a + b == b;
    }
  }

  // ---------------------------------------------------------------------
  // References

  /** A field of a reference: absent, one identifier, or a (first, last)
      range. */
  datatype RefPart = NoPart | Single(id: string) | Range(first: string, last: string)

  datatype Reference = Reference(
    act: Option<string>,
    article: RefPart,
    paragraph: RefPart,
    point: RefPart,
    subpoint: RefPart)
  {
    /** `is_relative`: no act is named. */
    predicate IsRelative() {
      act.None?
    }

    /** `is_range`: some field is a range. */
    predicate IsRange() {
      article.Range? || paragraph.Range? || point.Range? || subpoint.Range?
    }
  }

  const EmptyReference := Reference(None, NoPart, NoPart, NoPart, NoPart)

  /** Field `k` of a reference, counting act as 0 and subpoint as 4; the act
      is viewed as a single identifier. */
  function Field(r: Reference, k: nat): RefPart
    requires k < 5
  {
    match k
    case 0 => if r.act.None? then NoPart else Single(r.act.value)
    case 1 => r.article
    case 2 => r.paragraph
    case 3 => r.point
    case _ => r.subpoint
  }

  /** The position of the first field that is set; 5 when none is. */
  function FirstSet(r: Reference): (f: nat)
    ensures f <= 5
    ensures forall k | 0 <= k < f :: Field(r, k) == NoPart
    ensures f < 5 ==> Field(r, f) != NoPart
  {
    if r.act.Some? then 0
    else if r.article != NoPart then 1
    else if r.paragraph != NoPart then 2
    else if r.point != NoPart then 3
    else if r.subpoint != NoPart then 4
    else 5
  }

  /** `relative_to`: the fields up to the first one `self` sets come from
      `other`, the rest from `self`. */
  function RelativeTo(self: Reference, other: Reference): (r: Reference)
    ensures forall k | 0 <= k < 5 :: Field(r, k) == (if k < FirstSet(self) then Field(other, k) else Field(self, k))
  {
    var f := FirstSet(self);
    var r := Reference(
      if f <= 0 then self.act else other.act,
      if f <= 1 then self.article else other.article,
      if f <= 2 then self.paragraph else other.paragraph,
      if f <= 3 then self.point else other.point,
      if f <= 4 then self.subpoint else other.subpoint);
    RelativeToFields(self, other, r);
    r
  }

  lemma RelativeToFields(self: Reference, other: Reference, r: Reference)
    requires var f := FirstSet(self);
      r == Reference(
        if f <= 0 then self.act else other.act,
        if f <= 1 then self.article else other.article,
        if f <= 2 then self.paragraph else other.paragraph,
        if f <= 3 then self.point else other.point,
        if f <= 4 then self.subpoint else other.subpoint)
    ensures forall k | 0 <= k < 5 :: Field(r, k) == (if k < FirstSet(self) then Field(other, k) else Field(self, k))
  {
    forall k | 0 <= k < 5
      ensures Field(r, k) == (if k < FirstSet(self) then Field(other, k) else Field(self, k))
    {
      if k == 0 {
      } else if k == 1 {
      } else if k == 2 {
      } else if k == 3 {
      } else {
      }
    }
  }

  /** Two references with the same fields are the same reference. */
  lemma FieldsDetermine(a: Reference, b: Reference)
    requires forall k | 0 <= k < 5 :: Field(a, k) == Field(b, k)
    ensures a == b
  {
    assert Field(a, 0) == Field(b, 0);
    assert Field(a, 1) == Field(b, 1);
    assert Field(a, 2) == Field(b, 2);
    assert Field(a, 3) == Field(b, 3);
    assert Field(a, 4) == Field(b, 4);
  }

  /** A reference that names its act is unchanged by `relative_to`. */
  lemma RelativeToAbsolute(self: Reference, other: Reference)
    requires !self.IsRelative()
    ensures RelativeTo(self, other) == self
  {
    FieldsDetermine(RelativeTo(self, other), self);
  }

  /** The empty reference resolves to the one it is relative to. */
  lemma RelativeToEmpty(other: Reference)
    ensures RelativeTo(EmptyReference, other) == other
  {
    FieldsDetermine(RelativeTo(EmptyReference, other), other);
  }

  /** Resolving in two steps is the same as resolving against the resolved
      context. */
  lemma RelativeToAssociative(a: Reference, b: Reference, c: Reference)
    ensures RelativeTo(RelativeTo(a, b), c) == RelativeTo(a, RelativeTo(b, c))
  {
    var ab := RelativeTo(a, b);
    assert FirstSet(ab) == if FirstSet(a) < FirstSet(b) then FirstSet(a) else FirstSet(b);
    FieldsDetermine(RelativeTo(ab, c), RelativeTo(a, RelativeTo(b, c)));
  }

  function FirstOf(p: RefPart): (r: RefPart)
    ensures !r.Range?
    ensures p.Range? ==> r == Single(p.first)
    ensures !p.Range? ==> r == p
  {
    if p.Range? then Single(p.first) else p
  }

  /** `first_in_range`: every range field replaced by its first element. */
  function FirstInRange(r: Reference): (f: Reference)
    ensures !f.IsRange()
    ensures !r.IsRange() ==> f == r
    ensures forall k | 0 <= k < 5 :: Field(f, k) == FirstOf(Field(r, k))
  {
    Reference(r.act, FirstOf(r.article), FirstOf(r.paragraph), FirstOf(r.point), FirstOf(r.subpoint))
  }

  /** Taking range starts commutes with resolving a relative reference. */
  lemma FirstInRangeRelativeTo(a: Reference, b: Reference)
    ensures FirstInRange(RelativeTo(a, b)) == RelativeTo(FirstInRange(a), FirstInRange(b))
  {
    assert FirstSet(FirstInRange(a)) == FirstSet(a);
    FieldsDetermine(FirstInRange(RelativeTo(a, b)), RelativeTo(FirstInRange(a), FirstInRange(b)));
  }

  /** The class `last_component_with_type` reports. */
  datatype RefType = ActRef | ArticleRef | ElementRef(kind: ElementKind)

  /** The field position a reported class stands for. */
  function Depth(t: RefType): nat {
    match t
    case ActRef => 0
    case ArticleRef => 1
    case ElementRef(k) =>
      if k == Paragraph then 2 else if k == NumericPoint || k == AlphabeticPoint then 3 else 4
  }

  /** The identifier a field starts with (a range's first one). */
  function StartId(p: RefPart): string
    requires p != NoPart
  {
    if p.Single? then p.id else p.first
  }

  /** The position of the last field that is set; -1 when none is. */
  function LastSet(r: Reference): (d: int)
    ensures -1 <= d < 5
    ensures d >= 0 ==> Field(r, d) != NoPart
    ensures forall k | d < k < 5 :: Field(r, k) == NoPart
  {
    if r.subpoint != NoPart then 4
    else if r.point != NoPart then 3
    else if r.paragraph != NoPart then 2
    else if r.article != NoPart then 1
    else if r.act.Some? then 0
    else -1
  }

  /** `last_component_with_type`: the deepest field that is set, with the
      class it addresses. Points and subpoints starting with a digit are
      numeric; an empty identifier there raises IndexError. None stands for
      `(None, None)`. */
  function LastComponentWithType(r: Reference): (c: Result<Option<(RefPart, RefType)>>)
    ensures c == Ok(None) <==> LastSet(r) == -1
    ensures c.Ok? && c.value.Some? ==>
      && LastSet(r) == Depth(c.value.value.1)
      && c.value.value.0 == Field(r, LastSet(r))
    ensures c.Ok? && c.value.Some? && LastSet(r) >= 3 ==>
      var t := c.value.value.1;
      var first := StartId(c.value.value.0);
      |first| > 0 && t.ElementRef? && (IsDigit(first[0]) <==> t.kind in {NumericPoint, NumericSubpoint})
    ensures c.Err? <==> LastSet(r) >= 3 && StartId(Field(r, LastSet(r))) == ""
    ensures c.Err? ==> c.error == IndexError
  {
    if r.subpoint != NoPart then
      var first := StartId(r.subpoint);
      if |first| == 0 then Err(IndexError)
      else if IsDigit(first[0]) then Ok(Some((r.subpoint, ElementRef(NumericSubpoint))))
      else Ok(Some((r.subpoint, ElementRef(AlphabeticSubpoint))))
    else if r.point != NoPart then
      var first := StartId(r.point);
      if |first| == 0 then Err(IndexError)
      else if IsDigit(first[0]) then Ok(Some((r.point, ElementRef(NumericPoint))))
      else Ok(Some((r.point, ElementRef(AlphabeticPoint))))
    else if r.paragraph != NoPart then Ok(Some((r.paragraph, ElementRef(Paragraph))))
    else if r.article != NoPart then Ok(Some((r.article, ArticleRef)))
    else if r.act.Some? then Ok(Some((Single(r.act.value), ActRef)))
    else Ok(None)
  }

  /** The identifier of an element as a reference field. */
  function IdPart(identifier: Option<string>): RefPart {
    if identifier.None? then NoPart else Single(identifier.value)
  }

  /** `relative_reference` of a sub-article element: the reference naming
      only its own level; block amendments cannot be referred to. */
  function RelativeReference(e: Element): (r: Result<Reference>)
    ensures r.Err? <==> e.kind == BlockAmendment
    ensures r.Ok? ==> r.value.IsRelative() && !r.value.IsRange()
    ensures r.Ok? && e.identifier.Some? ==>
      LastComponentWithType(r.value).Ok? ==>
      LastComponentWithType(r.value).value.Some?
  {
    match e.kind
    case AlphabeticSubpoint => Ok(Reference(None, NoPart, NoPart, NoPart, IdPart(e.identifier)))
    case NumericSubpoint => Ok(Reference(None, NoPart, NoPart, NoPart, IdPart(e.identifier)))
    case NumericPoint => Ok(Reference(None, NoPart, NoPart, IdPart(e.identifier), NoPart))
    case AlphabeticPoint => Ok(Reference(None, NoPart, NoPart, IdPart(e.identifier), NoPart))
    case BlockAmendment => Err(TypeError)
    case Paragraph => Ok(Reference(None, NoPart, IdPart(e.identifier), NoPart, NoPart))
  }

  /** `Article.relative_reference`. */
  function ArticleReference(a: Article): (r: Reference)
    ensures LastSet(r) == 1 && Field(r, 1) == Single(a.identifier) && r.IsRelative()
  {
    Reference(None, Single(a.identifier), NoPart, NoPart, NoPart)
  }

  datatype InTextReference = InTextReference(start: int, end: int, reference: Reference)

  datatype OutgoingReference = OutgoingReference(fromReference: Reference, start: int, end: int, toReference: Reference)

  /** `BlockAmendmentMetadata`: what a block amendment replaces and/or
      inserts. */
  datatype BlockAmendmentMetadata = BlockAmendmentMetadata(amended: Option<Reference>, inserted: Option<Reference>)

  /** Building metadata: at least one of the two references is required
      (ValueError otherwise). */
  function MakeMetadata(amended: Option<Reference>, inserted: Option<Reference>): (r: Result<BlockAmendmentMetadata>)
    ensures r.Ok? <==> amended.Some? || inserted.Some?
    ensures r.Ok? ==> r.value.amended == amended && r.value.inserted == inserted
    ensures r.Err? ==> r.error == ValueError
  {
    if amended.None? && inserted.None? then Err(ValueError)
    else Ok(BlockAmendmentMetadata(amended, inserted))
  }
}
