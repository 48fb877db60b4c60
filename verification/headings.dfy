/** The structural-heading parsers of `hun_law/parsers/structure_parser.py`
    (books, parts, titles, chapters and subtitles). A parser for a heading
    remembers its running number and the exact header line that would start
    the next heading of its kind. */
module Headings {
  import opened Wrappers
  import opened Text
  import opened Lines
  import Numerals
  import opened Structure

  /** A `StructuralElementParser` after construction. For subtitles,
      `headerOfNext` holds the prefix the next subtitle line starts with. */
  datatype HeadingParser = HeadingParser(kind: StructuralKind, number: nat, title: string, headerOfNext: string)

  /** `header_of_next` (or `prefix_of_next`) for the heading numbered
      `number`. Books and parts run out after the hundredth ordinal word
      (ValueError). The source's special part names never take effect, since
      its `special` flag compares the list of lines with a string. */
  function HeaderOfNext(kind: StructuralKind, number: nat): (r: Result<string>)
    ensures r.Err? <==> (kind == Book || kind == StructuralKind.Part) && number + 1 > 100
    ensures r.Err? ==> r.error == ValueError
  {
    match kind
    case Book =>
      var w :- Numerals.IntToTextHun(number + 1);
      Ok(Upper(w) + " KÖNYV")
    case Part =>
      var w :- Numerals.IntToTextHun(number + 1);
      Ok(Upper(w) + " RÉSZ")
    case Title => Ok(Numerals.IntToTextRoman(number + 1) + ". CÍM")
    case Chapter => Ok(Numerals.IntToTextRoman(number + 1) + ". FEJEZET")
    case Subtitle => Ok(NatToString(number + 1) + ". ")
  }

  /** Roman numerals are already upper case. */
  lemma UpperRoman(i: int)
    ensures Upper(Numerals.IntToTextRoman(i)) == Numerals.IntToTextRoman(i)
  {
    UpperOfUppercase(Numerals.IntToTextRoman(i));
  }

  /** A parser waits for exactly the header line that the next heading of its
      kind prints as its formatted identifier (for subtitles, that text
      followed by a space). */
  lemma HeaderOfNextIsFormatted(kind: StructuralKind, number: nat, title: string)
    ensures var f := FormattedIdentifier(StructuralElement(kind, number + 1, title));
      && (HeaderOfNext(kind, number).Ok? <==> f.Ok?)
      && (kind != Subtitle && f.Ok? ==> HeaderOfNext(kind, number) == f)
      && (kind == Subtitle ==> HeaderOfNext(kind, number) == Ok(f.value + " "))
  {
    UpperRoman(number + 1);
    assert (NatToString(number + 1) + ".") + " " == NatToString(number + 1) + ". ";
  }

  /** The title the base class collects: the lines after the header line,
      joined with spaces. */
  function TitleAfterHeader(lines: seq<Line>): string {
    if |lines| == 0 then "" else Join(Texts(lines[1..]), " ")
  }

  /** The subtitle title: everything after the first occurrence of "n. " in
      all lines joined with spaces; `split(...)[1]` raises IndexError when
      the prefix does not occur at all. */
  function SubtitleTitle(number: nat, lines: seq<Line>): (r: Result<string>)
    ensures var full := Join(Texts(lines), " ");
      var prefix := NatToString(number) + ". ";
      && (r.Ok? <==> Contains(full, prefix))
      && (r.Ok? ==> EndsWith(full, prefix + r.value)
                    && forall j | 0 <= j < |full| - |prefix + r.value| :: !OccursAt(full, prefix, j))
    ensures r.Err? ==> r.error == IndexError
  {
    var prefix := NatToString(number) + ". ";
    var full := Join(Texts(lines), " ");
    var found := FindFrom(full, prefix, 0);
    if found.None? then Err(IndexError)
    else
      assert full[found.value..] == prefix + full[found.value + |prefix|..];
      Ok(full[found.value + |prefix|..])
  }

  /** A joined list starts with its first piece. */
  lemma JoinStartsWith(parts: seq<string>, sep: string)
    requires |parts| > 0
    ensures StartsWith(Join(parts, sep), parts[0])
  {
    if |parts| > 1 {
      assert Join(parts, sep) == parts[0] + (sep + Join(parts[1..], sep));
    }
  }

  /** When the header line itself starts with the prefix, the title is the
      rest of the joined text after that prefix. */
  lemma SubtitleTitleOfHeader(number: nat, lines: seq<Line>)
    requires |lines| > 0 && StartsWith(lines[0].Content(), NatToString(number) + ". ")
    ensures var full := Join(Texts(lines), " ");
      var prefix := NatToString(number) + ". ";
      SubtitleTitle(number, lines) == Ok(full[|prefix|..])
  {
    var full := Join(Texts(lines), " ");
    var prefix := NatToString(number) + ". ";
    JoinStartsWith(Texts(lines), " ");
    assert full[..|lines[0].Content()|] == lines[0].Content();
    assert full[0..|prefix|] == lines[0].Content()[..|prefix|];
    assert OccursAt(full, prefix, 0);
  }

  /** Constructing a parser for a new heading, after `previous` of the same
      kind if there was one. Numbers count up from 1. */
  function NewParser(kind: StructuralKind, previous: Option<HeadingParser>, lines: seq<Line>): (r: Result<HeadingParser>)
    requires previous.Some? ==> previous.value.kind == kind
    ensures var n := if previous.None? then 1 else previous.value.number + 1;
      && (r.Ok? ==> r.value.kind == kind && r.value.number == n && Consistent(r.value))
      && (kind != Subtitle ==> (r.Err? <==> HeaderOfNext(kind, n).Err?))
      && (kind != Subtitle && r.Ok? ==> r.value.title == TitleAfterHeader(lines))
      && (kind == Subtitle ==> (r.Err? <==> SubtitleTitle(n, lines).Err?))
      && (kind == Subtitle && r.Ok? ==> Ok(r.value.title) == SubtitleTitle(n, lines))
  {
    var n := if previous.None? then 1 else previous.value.number + 1;
    var title :- if kind == Subtitle then SubtitleTitle(n, lines) else Ok(TitleAfterHeader(lines));
    var next :- HeaderOfNext(kind, n);
    Ok(HeadingParser(kind, n, title, next))
  }

  /** `get_parsed_element`. */
  function ParsedElement(p: HeadingParser): (e: StructuralElement)
    ensures e.kind == p.kind && e.identifier == p.number && e.title == p.title
  {
    StructuralElement(p.kind, p.number, p.title)
  }

  /** Subtitle header test `is_line_correct`: the prefix, then at least one
      more character, which is a Hungarian capital. */
  predicate IsLineCorrect(prefix: string, line: Line) {
    var c := line.Content();
    |c| >= |prefix| + 1 && StartsWith(c, prefix) && IsUppercaseChar(c[|prefix|])
  }

  /** `is_line_header_of_first` of each kind. */
  predicate IsHeaderOfFirst(kind: StructuralKind, line: Line) {
    match kind
    case Book => line.Content() == "ELSŐ KÖNYV"
    case Part => line.Content() == "ELSŐ RÉSZ" || line.Content() == "ÁLTALÁNOS RÉSZ"
    case Title => line.Content() == "I. CÍM"
    case Chapter => Upper(line.Content()) == "I. FEJEZET"
    case Subtitle => IsLineCorrect("1. ", line)
  }

  /** `is_line_header_of_next`: chapters compare case-insensitively. */
  predicate IsHeaderOfNext(p: HeadingParser, line: Line) {
    match p.kind
    case Chapter => Upper(line.Content()) == p.headerOfNext
    case Subtitle => IsLineCorrect(p.headerOfNext, line)
    case _ => line.Content() == p.headerOfNext
  }

  /** No line opens the first heading of two different kinds. */
  lemma FirstHeadersExclusive(a: StructuralKind, b: StructuralKind, line: Line)
    requires IsHeaderOfFirst(a, line) && IsHeaderOfFirst(b, line)
    ensures a == b
  {
    FirstHeaderShape(a, line);
    FirstHeaderShape(b, line);
  }

  /** The first character and length that tell first-heading lines apart. */
  lemma FirstHeaderShape(k: StructuralKind, line: Line)
    requires IsHeaderOfFirst(k, line)
    ensures var c := line.Content();
      && |c| > 1
      && (k == Book ==> c[0] == 'E' && |c| == 10)
      && (k == StructuralKind.Part ==> (c[0] == 'E' && |c| == 9) || c[0] == 'Á')
      && (k == Title ==> c[0] == 'I' && |c| == 6)
      && (k == Chapter ==> (c[0] == 'I' || c[0] == 'i') && |c| == 10)
      && (k == Subtitle ==> c[0] == '1')
  {
    var c := line.Content();
    if k == Chapter {
      assert Upper(c)[0] == 'I';
    } else if k == Subtitle {
      assert c[..3] == "1. ";
    }
  }

  /** A parser as `NewParser` leaves it: it waits for the header of its
      successor. */
  predicate Consistent(p: HeadingParser) {
    HeaderOfNext(p.kind, p.number) == Ok(p.headerOfNext)
  }

  /** The last parser of each kind; every entry is filed under its kind. */
  type LastParsers = m: map<StructuralKind, HeadingParser> | forall k | k in m :: m[k].kind == k && Consistent(m[k])

  /** `STRUCTURE_ELEMENT_PARSERS`, in the order they are tried. */
  const ParseOrder: seq<StructuralKind> := [Subtitle, Chapter, Title, StructuralKind.Part, Book]

  /** A kind's parser accepts `line`: as the kind's first heading, or as
      the heading after the last one of that kind. */
  predicate Accepts(k: StructuralKind, line: Line, last: LastParsers) {
    IsHeaderOfFirst(k, line) || (k in last && IsHeaderOfNext(last[k], line))
  }

  /** The heading kind whose parser accepts `line`, trying the kinds of
      `order` in turn and, for each, the first-heading test before the
      next-heading test. */
  function MatchingKind(line: Line, last: LastParsers, order: seq<StructuralKind>): (r: Option<(StructuralKind, bool)>)
    ensures r.None? <==> forall i | 0 <= i < |order| :: !Accepts(order[i], line, last)
    ensures r.Some? ==> r.value.0 in order
    ensures r.Some? && r.value.1 ==> IsHeaderOfFirst(r.value.0, line)
    ensures r.Some? && !r.value.1 ==> r.value.0 in last && IsHeaderOfNext(last[r.value.0], line)
  {
    if |order| == 0 then None
    else if IsHeaderOfFirst(order[0], line) then Some((order[0], true))
    else if order[0] in last && IsHeaderOfNext(last[order[0]], line) then Some((order[0], false))
    else
      NoneOfTail(line, last, order);
      MatchingKind(line, last, order[1..])
  }

  /** When the first kind does not accept the line, no kind does exactly
      when none of the others does. */
  lemma NoneOfTail(line: Line, last: LastParsers, order: seq<StructuralKind>)
    requires |order| > 0 && !Accepts(order[0], line, last)
    ensures (forall i | 0 <= i < |order| :: !Accepts(order[i], line, last)) <==>
            (forall i | 0 <= i < |order| - 1 :: !Accepts(order[1..][i], line, last))
  {
    assert forall i | 1 <= i < |order| :: order[i] == order[1..][i - 1];
  }

  /** `parse_single_structural_element`: the parser of the first kind whose
      header the first line is, numbered from 1 or after the last one of
      its kind; None when no kind matches. `lines[0]` raises IndexError on
      no lines. */
  function ParseSingle(lines: seq<Line>, last: LastParsers): (r: Result<Option<HeadingParser>>)
    ensures |lines| == 0 ==> r == Err(IndexError)
    ensures |lines| > 0 && r.Err? ==> r.error == ValueError
    ensures r == Ok(None) <==> |lines| > 0 && MatchingKind(lines[0], last, ParseOrder).None?
    ensures r.Ok? && r.value.Some? ==>
      var p := r.value.value;
      && |lines| > 0 && p.kind in ParseOrder && Consistent(p)
      && ((p.number == 1 && IsHeaderOfFirst(p.kind, lines[0]))
          || (p.kind in last && p.number == last[p.kind].number + 1 && IsHeaderOfNext(last[p.kind], lines[0])))
  {
    if |lines| == 0 then Err(IndexError)
    else
      match MatchingKind(lines[0], last, ParseOrder)
      case None => Ok(None)
      case Some((kind, first)) =>
        var previous := if first then None else Some(last[kind]);
        MatchedParserErrors(kind, previous, lines);
        var p :- NewParser(kind, previous, lines);
        Ok(Some(p))
  }

  /** Once a header line is recognised, building its parser can only fail
      for books and parts past the hundredth; in particular a subtitle never
      trips over its own title split, since its header line starts with the
      very prefix the split looks for. */
  lemma MatchedParserErrors(kind: StructuralKind, previous: Option<HeadingParser>, lines: seq<Line>)
    requires |lines| > 0
    requires previous.None? ==> IsHeaderOfFirst(kind, lines[0])
    requires previous.Some? ==>
      previous.value.kind == kind && Consistent(previous.value) && IsHeaderOfNext(previous.value, lines[0])
    ensures var r := NewParser(kind, previous, lines);
      r.Err? ==> r.error == ValueError && (kind == Book || kind == StructuralKind.Part)
  {
    if kind != Subtitle {
    } else if previous.None? {
      assert NatToString(1) == "1";
      SubtitleTitleOfHeader(1, lines);
    } else {
      SubtitleTitleOfHeader(previous.value.number + 1, lines);
    }
  }
}
