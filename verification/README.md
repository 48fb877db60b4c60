# Hun-Law core, modelled in Dafny

Hun-Law turns the text of Hungarian acts, as published in the official gazette
*Magyar Közlöny*, into a structured and cross-referenced document model. This
project models the core of that pipeline as pure Dafny functions, methods and
lemmas. The stages run in this order:

1. **Gazette extraction** (`kozlony.dfy`). Detect a Magyar Közlöny issue.
   Cut the page headers. Split the pages into sections and keep the
   "II. Törvények" (acts) section. A line-by-line state machine then cuts that
   section into raw act texts, each with an identifier, a subject and a body.
2. **Fixups** (`fixups.dfy`). Apply the per-act manual corrections: insert an
   empty line, delete a line, or replace one line's content.
3. **Lines** (`lines.dfy`, `utils.dfy`, `text.dfy`). The `IndentedLine`, made
   of positioned text parts, with `EMPTY_LINE` as a separator. The helpers that
   slice lines, split lists and track quotation levels.
4. **Structure** (`structure.dfy`, `numerals.dfy`). The document model:
   - sub-article elements (paragraph, points, subpoints, block amendment) with
     their validators, header prefixes and identifier successors;
   - articles, acts and structural headings (book, part, title, chapter,
     subtitle);
   - references with relative resolution and ranges;
   - Hungarian ordinal words and Roman numerals.
5. **Structural parsing** (`headings.dfy`, `subarticle.dfy`, `articles.dfy`,
   `actparser.dfy`). Recognise the headings. Split an act into preamble and
   articles, each article into paragraphs, and so on down to subpoints. Keep
   quoted blocks intact. Re-parse the quoted text of a block amendment as
   articles, paragraphs or points.
6. **Grammatical analysis** (`grammar.dfy`, `collector.dfy`, `sorting.dfy`).
   Turn the parse tree of the external grammar into:
   - act references;
   - in-text references, with adjacent identifiers merged into ranges;
   - act-id abbreviations;
   - block amendment metadata.
7. **Semantic parsing** (`semantic.dfy`). Walk the act. Give every text its
   context prefix and postfix. Collect the outgoing references and the
   abbreviations. Rewrite the paragraphs that introduce block amendments.

Python exceptions become a `Result` whose error names the exception class
(`wrappers.dfy`). The class matters because the source catches selectively:
for example, only `SubArticleElementNotFoundError` ends a sub-element search.
The external grammar parser and the abbreviation resolver are function-typed
parameters (`Analyzer`, `Resolver`). `kozlony_examples.dfy` holds concrete
runs of the act extractor.

The first page is cut twice, as written in `MagyarKozlonyHeaderExtractor`.
It appears once with a five-line header and again, in the loop over all
pages, with a two-line header. `Kozlony.ExtractHeaders` keeps this behaviour.

## Model

| member | source | states |
|---|---|---|
| Lines.FromParts | hun_law/utils.py:54-64 | No parts give the empty-line sentinel. Otherwise the indent is the first part's x, the content is the parts' texts concatenated, and the parts are kept. |
| Lines.PartsContentAppend | hun_law/utils.py:63 | The content of concatenated part lists is the concatenation of their contents. |
| Lines.ToSerializable | hun_law/utils.py:66-72 | One (delta, text) pair per part, carrying that part's text. |
| Lines.DeltasRoundTrip | hun_law/utils.py:66-81 | Rebuilding positions from deltas inverts taking deltas, for any start position. |
| Lines.SerializableRoundTrip | hun_law/utils.py:66-81 | Deserialising a serialised line gives back the same line. |
| Lines.SkipCountStopsAtBoundary | hun_law/utils.py:97-105 | If a part boundary lies at the target offset, the skip loop stops exactly at a boundary at that offset. |
| Lines.Slice | hun_law/utils.py:83-116 | The full range returns the line itself. An empty or reversed range gives the empty line. A non-empty result is the run of parts between two part boundaries at the requested offsets. When both offsets are boundaries the slice succeeds. The only error is ValueError. |
| Lines.SliceBoundaryLemma | hun_law/utils.py:97-114 | When both offsets are part boundaries, the skip loop lands on the start boundary and the include loop on the end boundary. |
| Lines.SliceContent | hun_law/utils.py:83-116 | A successful non-empty slice has content `content[s:e]` and the indent of the part that starts at `s`. |
| Lines.FromMultiple | hun_law/utils.py:118-123 | The joined line is built from all the lines' parts concatenated in order, so its content is the lines' contents concatenated and its indent is the first line's when that line has parts. |
| Lines.SliceHead | hun_law/utils.py:83-117 | Cutting before an offset succeeds exactly at a part boundary and keeps the parts before it. |
| Lines.SliceTail | hun_law/utils.py:83-117 | Cutting from an offset on a part boundary keeps the parts from it to the end of the text. |
| Lines.SliceTailInsideLastPart | hun_law/utils.py:83-117 | Cutting from inside the last part gives the empty line rather than an error. |
| Lines.DropEmptyAppend | hun_law/parsers/structure_parser.py:264 | Dropping empty lines distributes over concatenation, keeping order. |
| Lines.DropEmptySingle | hun_law/parsers/structure_parser.py:264 | A single line is dropped exactly when it is the empty line. |
| Lines.DropEmpty | hun_law/parsers/structure_parser.py:264 | Exactly the non-empty lines are kept, and nothing else is added. |
| Lines.DropEmptyNoEmpty | hun_law/parsers/structure_parser.py:264 | A list without empty lines is unchanged. |
| Utils.SplitList | hun_law/utils.py:129-139 | The groups concatenate to the input; none is empty; every group but the first starts with the needle; the needle occurs only at group heads. |
| Utils.SplitUnique | hun_law/utils.py:129-139 | At most one grouping has those properties, so the split is fully determined. |
| Utils.FlattenEmpty | hun_law/utils.py:129-139 | The split has no groups exactly when the input is empty. |
| Utils.QuoteLevelDiffAppend | hun_law/utils.py:261-262 | The quote level change is additive over concatenation. |
| Utils.LevelAfterContent | hun_law/utils.py:265-272 | The level after some lines is the level change of their joined text. |
| Utils.QuoteLevels | hun_law/utils.py:265-269 | The yielded levels start at 0, each line moves the next level by its own quote-level change, and each level is the quote-level change of all the text before its line. |
| Utils.LevelStep | hun_law/utils.py:268-269 | Each line moves the level by its own quote-level change. |
| Utils.QuotingCheck | hun_law/utils.py:271-272 | Succeeds exactly when the quotation marks of all lines balance; otherwise ValueError. |
| Text.SplitPair | hun_law/structure.py:447-451 | Succeeds exactly when the separator occurs once. The two pieces rejoin to the input around the separator and neither contains it. Otherwise ValueError. |
| Text.ParseNat | hun_law/structure.py:453 | Succeeds exactly on non-empty digit strings, with their decimal value. |
| Text.NatToStringRoundTrip | hun_law/structure.py:453 | Parsing the decimal rendering of a number gives the number back. |
| Text.NextChar | hun_law/structure.py:288-289 | The successor has code point one higher. It succeeds below the surrogate block; otherwise ValueError. |
| Text.UpperLowerChar | hun_law/utils.py:239-246 | Upper-casing a lower-cased Hungarian capital gives it back. |
| Text.UpperOfUppercase | hun_law/utils.py:239-246 | A text of Hungarian capitals is its own upper case. |
| Text.FindFrom | hun_law/parsers/structure_parser.py:202-203 | The result is the first occurrence at or after the start, or none when there is no occurrence. |
| Text.CountZero | hun_law/utils.py:261-262 | A character counts zero times exactly when it does not occur. |
| Numerals.IntToTextHun | hun_law/utils.py:212-218 | Succeeds exactly for 1..100; otherwise ValueError. |
| Numerals.TextToIntHun | hun_law/utils.py:203-209 | A success lies in 1..100 and is the number whose ordinal word is the lower-cased input. Otherwise ValueError. |
| Numerals.IntToTextHunRoundTrip | hun_law/utils.py:146-218 | Reading back the ordinal word of any of 1..100 gives the number. |
| Numerals.IntToTextRoman | hun_law/utils.py:221-236 | Only Roman digits appear. The result is empty exactly for zero and negative numbers. |
| Numerals.FirstFitting | hun_law/utils.py:230-235 | The chosen table entry is the largest one not exceeding the number. |
| Numerals.EntryShape | hun_law/utils.py:223-228 | Every table entry is one digit or a subtractive pair, worth the entry's value. |
| Numerals.RomanStep | hun_law/utils.py:229-235 | Each greedy step adds exactly the chosen entry's value to the numeral's reading. |
| Numerals.RomanRoundTrip | hun_law/utils.py:221-236 | The usual reading of the generated numeral is the number itself, for every non-negative number. |
| Structure.MakeElement | hun_law/structure.py:204-235 | Built exactly when text excludes intro, children and wrap-up, and children are non-empty, allowed for the class and all of one type. No children gives IndexError; text with other parts gives ValueError. |
| Structure.HeaderPrefix | hun_law/structure.py:258-375 | Only block amendments lack a header (TypeError). An unnumbered paragraph has the empty header. Every numbered header ends in ") " or ". ". |
| Structure.HeaderPrefixInjective | hun_law/structure.py:258-375 | Different identifiers of one class get different headers. |
| Structure.NumericNext | hun_law/structure.py:283-289 | A number's successor parses to the number plus one. Otherwise the last character is advanced by one code point. An empty identifier gives IndexError. |
| Structure.AlphabeticPointNext | hun_law/structure.py:335-341 | The digraphs "ny" and "sz" go to "o" and "t". A single letter advances by one code point. Anything else gives TypeError. |
| Structure.AlphabeticSubpointNext | hun_law/structure.py:264-270 | Identifiers of one or two characters advance their last character. Other lengths give ValueError. |
| Structure.ArticleNextIdentifier | hun_law/structure.py:444-453 | A plain identifier succeeds exactly when it is a number, and its successor parses to the number plus one. Errors are ValueError or TypeError. |
| Structure.ArticleNextInBook | hun_law/structure.py:449-452 | "book:n" goes to "book:n+1". |
| Structure.ArticleNextInserted | hun_law/structure.py:446-448 | "n/X" goes to "n/" followed by the next letter. |
| Structure.MakeArticle | hun_law/structure.py:421-428 | Built exactly when an unnumbered paragraph has no siblings; otherwise ValueError. |
| Structure.FormattedIdentifier | hun_law/structure.py:95-155 | Books and parts take an ordinal word and fail outside 1..100. Titles and chapters take a Roman numeral, with the right kind word. Subtitle 0 has the empty header. |
| Structure.ArticlesOf | hun_law/structure.py:476-478 | Exactly the articles among the act's children. |
| Structure.ArticlesOfAppend | hun_law/structure.py:476-478 | Taking articles distributes over concatenation of children. |
| Structure.RelativeTo | hun_law/structure.py:514-521 | Fields before the first one set in the reference come from the other; the rest are its own. |
| Structure.RelativeToAbsolute | hun_law/structure.py:514-521 | A reference with an act is unchanged by resolution. |
| Structure.RelativeToEmpty | hun_law/structure.py:514-521 | Resolving the empty reference gives the context itself. |
| Structure.RelativeToAssociative | hun_law/structure.py:514-521 | Resolving step by step equals resolving against the already resolved context. |
| Structure.FirstInRange | hun_law/structure.py:534-544 | No field is a range, each range is replaced by its start, and a reference without ranges is unchanged. |
| Structure.FirstInRangeRelativeTo | hun_law/structure.py:514-544 | Taking range starts commutes with relative resolution. |
| Structure.LastComponentWithType | hun_law/structure.py:546-567 | The deepest set field with its class. For points and subpoints the class follows the first character: digit means numeric. Nothing set gives none; an empty point or subpoint identifier gives IndexError. |
| Structure.RelativeReference | hun_law/structure.py:272-410 | A relative, non-range reference naming only the element's own level. Block amendments have none. |
| Structure.ArticleReference | hun_law/structure.py:455-457 | A relative reference whose deepest field is the article's identifier. |
| Structure.MakeMetadata | hun_law/structure.py:576-583 | Built exactly when the amended or the inserted reference is present; otherwise ValueError. |
| SubArticle.Parse | hun_law/parsers/structure_parser.py:247-267 | A parsed element has the parser's class and the given identifier and passes the validators. A line without the expected header gives SubArticleParsingError; no lines give IndexError. Subpoints always end up as text. |
| SubArticle.TryParseSubpoints | hun_law/parsers/structure_parser.py:338-450 | Found children are non-empty, allowed for the class and of one type. Subpoints never have children. The internal not-found error never escapes. |
| SubArticle.ExtractLoop | hun_law/parsers/structure_parser.py:293-314 | The scan keeps the collected elements numbered consecutively from the first identifier. The header lines it has taken are exactly the lines that open the next element: at quote level 0, fitting the last header's indent, and starting with the next identifier's header. |
| SubArticle.HeaderStep | hun_law/parsers/structure_parser.py:297-312 | A header line closes the open element (or makes the lines so far the intro), and is recorded as the next header line with its indent. |
| SubArticle.FinishExtract | hun_law/parsers/structure_parser.py:313-335 | The elements are of the parser's class and numbered, one per header line found (or one unnumbered element when there were none). List-like classes need two elements and an intro; only alphabetic classes keep a wrap-up. |
| SubArticle.HeadScanHeads | hun_law/parsers/structure_parser.py:293-312 | A line-by-line scan finds exactly the header lines: increasing, each opening its element, and no line between two of them that would have opened the next one. |
| SubArticle.ExtractedHeads | hun_law/parsers/structure_parser.py:284-335 | Each extracted element starts at a header line of the input, in order, and no skipped line would have been a header. |
| SubArticle.FlushCurrent | hun_law/parsers/structure_parser.py:333-334 | The open element is appended after the finished ones, keeping their order. |
| SubArticle.ExtractMultiple | hun_law/parsers/structure_parser.py:284-335 | The elements are of the parser's class. They are numbered consecutively from the first identifier, or there is one unnumbered element. List-like classes need two elements and an intro. Only alphabetic classes may have a wrap-up. Quotes balance. |
| SubArticle.PopWrapUp | hun_law/parsers/structure_parser.py:324-331 | The trailing lines aligned with the header become the wrap-up, joined with spaces. The last kept line is not aligned. |
| SubArticle.OpenQuote | hun_law/parsers/structure_parser.py:471-479 | Opening a quotation keeps the collected blocks and either closes a one-line quote or stays inside the quote. |
| SubArticle.QuoteStep | hun_law/parsers/structure_parser.py:464-510 | Each line keeps the state machine's invariants: blocks are non-empty, and a wrap-up exists exactly in the wrap-up state. |
| SubArticle.QuoteLoop | hun_law/parsers/structure_parser.py:461-510 | Over all lines, the invariants hold and blocks are never lost. |
| SubArticle.QuotedBlockParse | hun_law/parsers/structure_parser.py:453-518 | A success has at least one non-empty block and balanced quotes. No lines give the not-found error. |
| SubArticle.QuotedOneLine | hun_law/parsers/structure_parser.py:469-476 | An intro and a one-line quotation give the intro and one block, the quotation without its marks, and no wrap-up. |
| SubArticle.ChainIsIterated | hun_law/parsers/structure_parser.py:290-312 | The k-th collected element carries the k-th successor of the first identifier. |
| SubArticle.NumericChain | hun_law/parsers/structure_parser.py:290-312 | Paragraphs and numeric points are numbered 1, 2, 3, and so on. |
| SubArticle.AlphabeticChain | hun_law/parsers/structure_parser.py:290-312 | Alphabetic points and subpoints are lettered a, b, c, and so on. |
| Headings.HeaderOfNext | hun_law/parsers/structure_parser.py:105-206 | The next header fails only for books and parts past 100 (ValueError). |
| Headings.UpperRoman | hun_law/parsers/structure_parser.py:182-193 | Roman numerals are already upper case. |
| Headings.HeaderOfNextIsFormatted | hun_law/parsers/structure_parser.py:105-206 | The expected next header is exactly the formatted identifier of the next element. For subtitles a space follows it. |
| Headings.SubtitleTitle | hun_law/parsers/structure_parser.py:200-203 | The title is whatever follows the first "n. " in the joined lines. It fails with IndexError exactly when "n. " does not occur. |
| Headings.SubtitleTitleOfHeader | hun_law/parsers/structure_parser.py:200-203 | When the first line starts with "n. ", the title is everything after that prefix. |
| Headings.NewParser | hun_law/parsers/structure_parser.py:84-206 | The parser has the kind and the next number. Its title is the following lines (or the subtitle title). Its expected next header is consistent. It fails exactly when the next header or the subtitle title fails. |
| Headings.ParsedElement | hun_law/parsers/structure_parser.py:101-102 | The element carries the parser's kind, number and title. |
| Headings.FirstHeadersExclusive | hun_law/parsers/structure_parser.py:116-219 | No line opens the first heading of two different kinds. |
| Headings.MatchingKind | hun_law/parsers/structure_parser.py:670-681 | Finds a kind whose first heading, or whose next heading after the last one seen, matches the line. None is found exactly when no kind matches either way. |
| Headings.ParseSingle | hun_law/parsers/structure_parser.py:670-681 | No match gives none. A found heading is the first of its kind and numbered 1, or the next after the last one and numbered one higher. No lines give IndexError. |
| Headings.MatchedParserErrors | hun_law/parsers/structure_parser.py:670-681 | A matched heading fails only for books and parts, with ValueError. |
| Articles.ArticleHeader | hun_law/parsers/structure_parser.py:526 | A recognised header starts with a well-formed article identifier followed by "." and then "§". |
| Articles.HeaderRecognised | hun_law/parsers/structure_parser.py:526-558 | Every well-formed identifier followed by ". §" or ".§" is recognised, with that identifier. |
| Articles.ArticleTitle | hun_law/parsers/structure_parser.py:564-576 | A title takes at most two leading lines, and the rest is a suffix of the input. A first line not starting with "[" means no title. |
| Articles.OneLineTitle | hun_law/parsers/structure_parser.py:569-571 | "[title]" on one line gives that title. |
| Articles.TwoLineTitle | hun_law/parsers/structure_parser.py:572-574 | A title opened on one line and closed on the next is joined with a space. |
| Articles.NumberedUnnamedAlone | hun_law/parsers/structure_parser.py:586-596 | Parsed paragraphs always pass the article validator: an unnumbered one is alone. |
| Articles.ParseBodyParts | hun_law/parsers/structure_parser.py:560-595 | The paragraphs are numbered 1, 2, ... or there is one unnumbered paragraph, and the title is the article title. |
| Articles.ParseBody | hun_law/parsers/structure_parser.py:560-596 | Corrected construction: the article has the identifier, the parsed title and the parsed paragraphs. |
| Articles.ParseBodyAsWritten | hun_law/parsers/structure_parser.py:596 | The construction as written swaps title and children. It succeeds only for an empty title, giving an article with no paragraphs. |
| Articles.TitledArticleRejected | hun_law/parsers/structure_parser.py:596 | A titled article fails as written (AttributeError) but parses with its title when corrected. |
| Articles.ArticleParse | hun_law/parsers/structure_parser.py:528-548 | The identifier comes from the header line and matches the expected one. The paragraphs are numbered. A non-header first line gives AttributeError. |
| Articles.ExpectedHeaderIsHeader | hun_law/parsers/structure_parser.py:550-558 | A line announced as the header of a well-formed identifier is a header, and it names that identifier. |
| Articles.GetParserAndId | hun_law/parsers/structure_parser.py:716-727 | The deepest reference field picks the parser of its class and the first expected identifier (a range's start). Acts and numeric subpoints give KeyError. Multi-letter subpoints give SubArticleParsingError. |
| Articles.ParseBlock | hun_law/parsers/structure_parser.py:705-714 | One block has the parser's class and the expected identifier. |
| Articles.BlockStep | hun_law/parsers/structure_parser.py:708-713 | Each line keeps the finished blocks numbered and ends up as the last line of the open block. Every block after the first starts at a line at quote level 0 that is the header of the identifier the rule cuts at. |
| Articles.BlockLoop | hun_law/parsers/structure_parser.py:705-714 | The blocks carry the successive expected identifiers, in order, and each later block starts at a cut line. |
| Articles.DoParseBlockByBlock | hun_law/parsers/structure_parser.py:705-714 | Corrected: at least one block, numbered from the expected identifier on (articles by `Article.next_identifier`), and balanced quotes. Block k+1 starts at a line at quote level 0 that is the header of the (k+1)-th identifier. No lines give IndexError. |
| Articles.CloseBlock | hun_law/parsers/structure_parser.py:709-712 | Closing a block appends one child, parsed from the open lines with the expected identifier, which advances to its successor (under either reading; as written an article block has none and the step raises AttributeError); the header line opens the next block and is recorded as a cut. |
| Articles.CloseBlockCuts | hun_law/parsers/structure_parser.py:708-713 | A cut at a header line of the identifier the rule names keeps every recorded cut valid. |
| Articles.BlocksBy | hun_law/parsers/structure_parser.py:705-714 | Under either cut rule: at least one numbered block, balanced quotes, one cut per later block, and IndexError for no lines. |
| Articles.DoParseBlockByBlockAsWritten | hun_law/parsers/structure_parser.py:708-711 | As written, a block is cut only at the header of the identifier still being collected, and the successor of an article identifier is an AttributeError. |
| Articles.ArticleCutRaises | hun_law/parsers/structure_parser.py:707-711 | As written, the first cut in an article block amendment raises the parse error of the block before it, or else AttributeError. |
| Articles.AsWrittenArticleSingleBlock | hun_law/parsers/structure_parser.py:705-714 | As written, a successful article block amendment always has exactly one article. |
| Articles.AsWrittenSingleBlock | hun_law/parsers/structure_parser.py:705-714 | As written, a successful element block amendment always has exactly one child. |
| Articles.HeaderClash | hun_law/parsers/structure_parser.py:280-282 | A line that starts with the header of an identifier does not start with the header of its successor. |
| Articles.NextDiffers | hun_law/structure.py:249-445 | An identifier's successor is a different identifier. |
| Articles.BlockAmendmentParse | hun_law/parsers/structure_parser.py:693-703 | A valid unnumbered block amendment carrying the context intro and wrap-up. Its first child has the referenced class and identifier. It fails as the parser lookup fails. It splits blocks by the corrected reading of the two structure_parser.py findings below. |
| ActParser.StructuralElements | hun_law/parsers/structure_parser.py:645-668 | A block not ending in an empty line is returned whole with no headings. Otherwise the rest is a prefix without that line, and the last-parser map changes exactly for the kinds of the headings found, each to the last one found. No lines give IndexError. |
| ActParser.StructuralElementsSegments | hun_law/parsers/structure_parser.py:645-668 | The block is the rest, then the heading segments each opened by an empty line, then the final empty line. Each segment has no empty line, balanced quotes, and parses as the heading found there, with the last-parser map threaded from the first heading to the last. |
| ActParser.TextBlock | hun_law/parsers/structure_parser.py:636-643 | The first block is the preamble. A later block is exactly one article, with the header's identifier, followed by the headings. |
| ActParser.FirstTopHeader | hun_law/parsers/structure_parser.py:620-621 | The first article header at quote level 0 from a given line on. |
| ActParser.IndentStep | hun_law/parsers/structure_parser.py:615-634 | A top-level header cuts exactly when it is aligned with the first one. |
| ActParser.ActStep | hun_law/parsers/structure_parser.py:615-634 | One line either closes the open block at an aligned top-level header or joins it. The articles match the headers seen so far. |
| ActParser.ParseText | hun_law/parsers/structure_parser.py:615-634 | The act's articles are exactly the aligned top-level article headers, in order. Every article is well formed, and the quotes balance. |
| ActParser.ActParse | hun_law/parsers/structure_parser.py:606-613 | The act keeps its identifier and subject and has the articles of the text. Abbreviations and references are not yet set. Every error becomes ActParsingError. |
| Sorting.SortCorrect | hun_law/parsers/semantic_parser.py:152 | Sorting gives a sorted permutation under any total preorder. |
| Sorting.SortSorted | hun_law/parsers/semantic_parser.py:152 | A sorted list is left unchanged. |
| Sorting.InsertCorrect | hun_law/parsers/semantic_parser.py:152 | Insertion into a sorted list keeps it sorted and adds exactly the one item. |
| Collector.Initial | hun_law/parsers/grammatical_analyzer.py:66-76 | A fresh collector holds no committed items and nothing deferred. |
| Collector.Commit | hun_law/parsers/grammatical_analyzer.py:103-116 | The deferred item, if any, is appended to its own level; other levels are unchanged. |
| Collector.Mergeable | hun_law/parsers/grammatical_analyzer.py:86-96 | A piece merges exactly when a single one of the same level is deferred and its successor is the new identifier. |
| Collector.AddItem | hun_law/parsers/grammatical_analyzer.py:78-101 | A merge commits the range (previous, new) spanning both. Otherwise the deferred piece is committed and the new one deferred. It fails exactly when the successor fails. |
| Collector.AddAll | hun_law/parsers/grammatical_analyzer.py:200-214 | Adding pieces keeps the collector well formed, and the last piece stays deferred. |
| Collector.AddAllHeld | hun_law/parsers/grammatical_analyzer.py:78-116 | Each piece adds at most one item, and at most every other piece merges. |
| Collector.AddItemHeld | hun_law/parsers/grammatical_analyzer.py:78-101 | A merge keeps the item count and consumes the pending piece. |
| Collector.SortByStartCorrect | hun_law/parsers/grammatical_analyzer.py:127 | The items of a level are sorted by start as a permutation. |
| Collector.MakeRef | hun_law/parsers/grammatical_analyzer.py:120-137 | The reference has the collector's act and the given fields, with the rest unset. |
| Collector.LevelRefs | hun_law/parsers/grammatical_analyzer.py:127-133 | All but the last item of a level give a reference ending at that level; the first one starts where the whole match starts. |
| Collector.IterFrom | hun_law/parsers/grammatical_analyzer.py:118-137 | The references together span the match: the first starts at its start and the last ends at its end. |
| Collector.IterFromFields | hun_law/parsers/grammatical_analyzer.py:118-137 | Every reference keeps the act and the fields fixed by the outer levels. |
| Collector.Iter | hun_law/parsers/grammatical_analyzer.py:118-137 | The references span the match and all belong to the collector's act. |
| Collector.IterSingle | hun_law/parsers/grammatical_analyzer.py:118-137 | Exactly one reference comes out when no level holds more than one item. |
| Collector.IterSingleFields | hun_law/parsers/grammatical_analyzer.py:118-137 | That single reference combines the one item of every level. |
| Collector.IterFromLevel | hun_law/parsers/grammatical_analyzer.py:127-134 | The earlier items of a level each give a reference stopping at that level. |
| Grammar.PostOrder | hun_law/parsers/grammatical_analyzer.py:32-46 | The node itself comes last. |
| Grammar.PostOrderChildrenFirst | hun_law/parsers/grammatical_analyzer.py:32-46 | Every node comes after all of its sub-nodes. |
| Grammar.ActRefsIn | hun_law/parsers/grammatical_analyzer.py:45-46 | Exactly the act-reference leaves. |
| Grammar.RefsIn | hun_law/parsers/grammatical_analyzer.py:45-46 | Exactly the reference leaves. |
| Grammar.CompoundsIn | hun_law/parsers/grammatical_analyzer.py:45-46 | Exactly the compound-reference nodes. |
| Grammar.ActIdText | hun_law/parsers/grammatical_analyzer.py:235-241 | "YYYY. évi N. törvény" when the act id is given, else the abbreviation. Neither gives ValueError. |
| Grammar.ActIdStringInjective | hun_law/parsers/grammatical_analyzer.py:238 | Different dot-free year and number pairs give different act ids. |
| Grammar.ActReference | hun_law/parsers/grammatical_analyzer.py:219-232 | A named act gives a reference to the whole act, spanning the act mention. |
| Grammar.ActReferencesOf | hun_law/parsers/grammatical_analyzer.py:216-233 | One reference per act mention, in order. It fails exactly when some mention is unnamed. |
| Grammar.ActReferences | hun_law/parsers/grammatical_analyzer.py:216-233 | One reference per act-reference leaf of the tree. |
| Grammar.AbbreviationsOf | hun_law/parsers/grammatical_analyzer.py:247-259 | Exactly the "from now on" abbreviations, each bound to its act's id. |
| Grammar.ConvertSingle | hun_law/parsers/grammatical_analyzer.py:190-198 | A parsed reference yields at least one in-text reference. |
| Grammar.ConvertSingleSpan | hun_law/parsers/grammatical_analyzer.py:190-198 | They span the parsed reference and all belong to the given act. |
| Grammar.ConvertSingleCount | hun_law/parsers/grammatical_analyzer.py:190-214 | No more references come out than pieces went in. |
| Grammar.CompoundAct | hun_law/parsers/grammatical_analyzer.py:177-179 | An act is needed only when it is mentioned, and then it must be named. |
| Grammar.CompoundTargets | hun_law/parsers/grammatical_analyzer.py:173-181 | Compound references are handled in their own act. It fails exactly when a non-empty compound names an unnamed act. |
| Grammar.AmendmentTargets | hun_law/parsers/grammatical_analyzer.py:183-188 | The amended and inserted references are handled in the amended act, which must be named. |
| Grammar.Leftover | hun_law/parsers/grammatical_analyzer.py:162-166 | Exactly the references not yet handled, without an act. |
| Grammar.LeftoverAfter | hun_law/parsers/grammatical_analyzer.py:153-166 | Handled plus leftover references cover all references, add none, and repeat none. |
| Grammar.ToParseCovers | hun_law/parsers/grammatical_analyzer.py:153-166 | Every reference of the tree is converted once: either inside its compound or alone. |
| Grammar.HandledInTree | hun_law/parsers/grammatical_analyzer.py:173-181 | Handled references are references of the tree. |
| Grammar.ConvertAll | hun_law/parsers/grammatical_analyzer.py:168-171 | All targets are converted, with at least one reference each. |
| Grammar.ConvertTarget | hun_law/parsers/grammatical_analyzer.py:272-294 | A target that does not come out as exactly one reference makes the sentence not a block amendment. Otherwise it gives the reference, in the amended act. |
| Grammar.CombineTargets | hun_law/parsers/grammatical_analyzer.py:296-303 | Metadata is built when some target is present. An insertion alone stays as is. |
| Grammar.CombineBoth | hun_law/parsers/grammatical_analyzer.py:296-299 | With both present, the inserted reference is resolved relative to the amended one. |
| Grammar.ConvertBlockAmendment | hun_law/parsers/grammatical_analyzer.py:267-303 | The metadata has an amended or inserted reference exactly when the sentence has one, in the amended act. Neither gives an error. |
| Grammar.SpecialExpression | hun_law/parsers/grammatical_analyzer.py:261-265 | Only block amendment sentences have metadata. |
| Grammar.Analyze | hun_law/parsers/grammatical_analyzer.py:140-265 | The analysis succeeds exactly when all four of its parts do. It keeps the tree and reports the act-reference error first. |
| Grammar.ActsNamedSuffice | hun_law/parsers/grammatical_analyzer.py:140-265 | Once every act mention is named, abbreviations, compound handling and the amended act cannot fail. |
| Semantic.AnalyzerOf | hun_law/parsers/grammatical_analyzer.py:336-342 | The analyzer fails as the grammar fails and keeps its parse tree. |
| Semantic.AbbreviationMap | hun_law/parsers/semantic_parser.py:136 | The map's keys are exactly the abbreviations. |
| Semantic.AbbreviationMapLastWins | hun_law/parsers/semantic_parser.py:136 | The last definition of an abbreviation wins. |
| Semantic.Inside | hun_law/parsers/semantic_parser.py:137-151 | Exactly the references ending inside the element's own text are kept, shifted into it. |
| Semantic.ConvertParsedReferencesCorrect | hun_law/parsers/semantic_parser.py:124-153 | The result is the kept references, sorted by position, as a permutation, and within the text. |
| Semantic.ParseText | hun_law/parsers/semantic_parser.py:101-122 | Short uninteresting texts leave the state alone, and analyzer errors pass through. Otherwise the state only grows, with sorted references within the text. |
| Semantic.ElementReferenceInParent | hun_law/parsers/semantic_parser.py:68 | An element's resolved reference keeps the parent's act and article. |
| Semantic.RecursiveParse | hun_law/parsers/semantic_parser.py:56-99 | Quoted blocks, articles and block amendments are skipped. An element without text or intro fails with AssertionError. New references come from the enclosing article. |
| Semantic.ParseChildren | hun_law/parsers/semantic_parser.py:97-99 | Every child's references come from the enclosing article. |
| Semantic.WalkParagraphs | hun_law/parsers/semantic_parser.py:48-49 | An article's references come from that article. |
| Semantic.WalkArticles | hun_law/parsers/semantic_parser.py:47-49 | Every new reference comes from one of the act's articles. |
| Semantic.ActSemanticsParse | hun_law/parsers/semantic_parser.py:42-54 | Only abbreviations and references are set, and every reference comes from an article of the act. |
| Semantic.RunTasks | hun_law/parsers/semantic_parser.py:101-122 | The texts are analysed one after another, each from the state the previous left; an element without text or intro makes the walk fail. |
| Semantic.RunTasksAppend | hun_law/parsers/semantic_parser.py:56-99 | Analysing two lists of texts is analysing the first and then, unless it failed, the second. |
| Semantic.ElementTasks | hun_law/parsers/semantic_parser.py:56-99 | An element's texts in document order: its text, or its intro, its children's texts and its wrap-up. Each has at least the given prefix and comes from the parent's act and article. |
| Semantic.ChildrenTasks | hun_law/parsers/semantic_parser.py:97-99 | The children's texts, child by child, each from the parent's act and article. |
| Semantic.RecursiveParseRuns | hun_law/parsers/semantic_parser.py:56-99 | The recursive walk of an element is exactly the analysis of its texts in document order. |
| Semantic.ParseChildrenRuns | hun_law/parsers/semantic_parser.py:97-99 | The walk of the children is exactly the analysis of their texts in order. |
| Semantic.ParagraphTasks | hun_law/parsers/semantic_parser.py:47-49 | The texts of an article's paragraphs all come from that article. |
| Semantic.ArticleTasks | hun_law/parsers/semantic_parser.py:47-49 | The texts of the act's articles each come from one of its articles. |
| Semantic.WalkParagraphsRuns | hun_law/parsers/semantic_parser.py:48-49 | Walking an article's paragraphs is analysing their texts in order. |
| Semantic.WalkArticlesRuns | hun_law/parsers/semantic_parser.py:47-49 | Walking the articles is analysing their texts in order. |
| Semantic.ActSemanticsParseRuns | hun_law/parsers/semantic_parser.py:42-54 | The act is its input with the abbreviations and references gathered by analysing every article text in order, starting from nothing; the first failure is the act's error. |
| Semantic.QuietUnchanged | hun_law/parsers/semantic_parser.py:101-109 | A subtree with no analysed text leaves the state unchanged. |
| Semantic.ContextGroup | hun_law/parsers/semantic_parser.py:190 | The rest after the colon is an optional space and one bracketed group, or there is no match. |
| Semantic.SplitPoint | hun_law/parsers/semantic_parser.py:190 | The last colon followed by a context group, as the greedy pattern finds it. |
| Semantic.SplitIntro | hun_law/parsers/semantic_parser.py:190-199 | Without a context group the intro is kept. Otherwise the actual intro is a prefix of the intro ending at the last qualifying colon, and the context outro is the wrap-up without its brackets. |
| Semantic.SplitIntroRebuilds | hun_law/parsers/semantic_parser.py:190-199 | The actual intro plus the bracketed context intro is the original intro. |
| Semantic.BlocksPosition | hun_law/parsers/semantic_parser.py:208-213 | Corrected: the reference handed to the block parser is the amended one, else the inserted one. |
| Semantic.ParseParagraph | hun_law/parsers/semantic_parser.py:173-219 | A paragraph without quoted blocks, or with a long intro, is unchanged. Otherwise it is unchanged or rewritten into one valid block amendment with the split intro. A missing intro gives AssertionError. |
| Semantic.ParseParagraphAsWritten | hun_law/parsers/semantic_parser.py:208-213 | As written, it never changes a paragraph. |
| Semantic.AsWrittenFails | hun_law/parsers/semantic_parser.py:208-213 | As written, every paragraph that reaches the block parser fails with AttributeError. |
| Semantic.ParseParagraphRewrites | hun_law/parsers/semantic_parser.py:208-219 | Corrected, such a paragraph becomes the split intro, an empty wrap-up and the parsed block amendment with the context intro and outro. |
| Semantic.ParseParagraphIdempotent | hun_law/parsers/semantic_parser.py:173-219 | Parsing a parsed paragraph again changes nothing. |
| Semantic.ParseParagraphs | hun_law/parsers/semantic_parser.py:166-171 | Every paragraph is kept or rewritten in place, and stays valid. |
| Semantic.ParseArticle | hun_law/parsers/semantic_parser.py:166-171 | The identifier, title and paragraph count are kept, and each paragraph is kept or rewritten. |
| Semantic.ParseActChild | hun_law/parsers/semantic_parser.py:160-162 | An article child is parsed and keeps its identifier, title and paragraph count; any other child is kept as it is. |
| Semantic.ParseActChildren | hun_law/parsers/semantic_parser.py:157-164 | The same number of children, in order; articles keep their identifiers, titles and paragraph counts, and every other child is kept as it is. |
| Semantic.ActBlockAmendmentParse | hun_law/parsers/semantic_parser.py:157-164 | Only the children change, and structural headings are kept. |
| Fixups.AddFixup | hun_law/fixups/common.py:30-35 | The fixup is appended to its act's list, and other acts are untouched. |
| Fixups.InsertAfterMatches | hun_law/fixups/common.py:53-60 | One empty line is inserted per matching line. |
| Fixups.InsertAfterSingle | hun_law/fixups/common.py:53-60 | With one match, the empty line comes right after it. |
| Fixups.AddEmptyLine | hun_law/fixups/common.py:52-66 | Succeeds exactly when one line matches, inserting an empty line after it; otherwise ValueError. |
| Fixups.WithoutMatches | hun_law/fixups/common.py:70-77 | Exactly the matching lines are removed. |
| Fixups.Delete | hun_law/fixups/common.py:69-83 | Succeeds exactly when one line matches, removing only it; otherwise ValueError. |
| Fixups.AddThenDelete | hun_law/fixups/common.py:52-83 | Deleting the inserted empty line undoes the insertion. |
| Fixups.CommonPrefixLen | hun_law/fixups/common.py:87-91 | The longest common prefix. |
| Fixups.CommonPostfixLen | hun_law/fixups/common.py:93-98 | The longest common postfix that does not overlap the prefix. |
| Fixups.CommonAffixes | hun_law/fixups/common.py:86-98 | A common prefix and a non-overlapping common postfix, the prefix maximal. |
| Fixups.Spliced | hun_law/fixups/common.py:113-131 | A cut inside a part gives ValueError. With the prefix and postfix on part boundaries, the line keeps its indent and the parts around the changed middle, and its text is the spliced one. A postfix starting inside the last part comes back empty and is lost from the text. |
| Fixups.SplicedTextIsReplacement | hun_law/fixups/common.py:86-131 | Splicing the middle of the replacement between the common affixes gives the replacement. |
| Fixups.EndsWithContentsTexts | hun_law/fixups/common.py:104-108 | The previous-lines gate holds exactly when the last lines have the expected contents. |
| Fixups.ReplaceFrom | hun_law/fixups/common.py:100-133 | Lines are replaced one for one, and earlier lines are untouched. |
| Fixups.ReplaceFromAt | hun_law/fixups/common.py:100-133 | A line is replaced exactly when it matches and its gate holds on the already processed lines. |
| Fixups.ReplaceFromCount | hun_law/fixups/common.py:100-133 | Without a gate, the replacements are exactly the matching lines. |
| Fixups.Replace | hun_law/fixups/common.py:86-139 | Corrected: exactly one line is replaced. It is the first gated match, keeps its indent and the parts around the changed middle, and gets the replacement as text (less a postfix lost inside the last part). Every other line is unchanged and is not a gated match. Otherwise ValueError. |
| Fixups.ReplaceUngated | hun_law/fixups/common.py:86-139 | Without a gate it succeeds exactly when one line matches. |
| Fixups.ReplaceFromFails | hun_law/fixups/common.py:100-133 | Without a gate, the loop fails exactly when splicing some matching line fails. |
| Fixups.SpliceFor | hun_law/fixups/common.py:86-131 | Every matching line is spliced with the needle's and replacement's common prefix and postfix lengths. |
| Fixups.SplicedReplaced | hun_law/fixups/common.py:86-131 | A successful splice of a matching line keeps its indent and, when the postfix starts on a part boundary, its outer parts, and has the replacement as text. |
| Fixups.ReplaceGated | hun_law/fixups/common.py:100-139 | When line i is the only gated hit and splices, replacing puts the spliced line at i and keeps every other line. |
| Fixups.ReplaceAsWritten | hun_law/fixups/common.py:117-139 | As written, replacing always fails with ValueError: a hit raises in the IndentedLine constructor, and no hit raises "not found". |
| Fixups.ReplaceWrittenVersusCorrected | hun_law/fixups/common.py:117-139 | A two-part line whose second part changes is replaced when corrected and fails as written. |
| Fixups.SplicedKeepsPostfix | hun_law/fixups/common.py:117-125 | With the postfix on a part boundary, the assembled line has prefix, middle and postfix text, and keeps the outer parts. |
| Fixups.SplicedLosesPostfix | hun_law/fixups/common.py:117-125 | With the postfix starting inside a part, the assembled line loses it: its text is the prefix and the middle only. |
| Fixups.ApplyAll | hun_law/fixups/common.py:42-48 | No fixups leave the body unchanged; errors are ValueError. |
| Fixups.ApplyAllAppend | hun_law/fixups/common.py:42-48 | Applying two lists is applying one after the other, stopping at the first error. |
| Fixups.DoAllFixups | hun_law/fixups/common.py:38-49 | An act without fixups is unchanged. |
| Fixups.AddFixupThen | hun_law/fixups/common.py:30-49 | A registered fixup runs after the earlier ones of its act and affects no other act. |
| Kozlony.IsMagyarKozlony | hun_law/extractors/magyar_kozlony.py:27-32 | The first line names the gazette. No page or no first line gives IndexError. |
| Kozlony.Cut | hun_law/extractors/magyar_kozlony.py:60-65 | Header and rest rejoin to the page, with the header at most n lines long. |
| Kozlony.ExtractHeaders | hun_law/extractors/magyar_kozlony.py:46-66 | Non-gazettes give nothing. Otherwise the first page is cut at 5 lines, and then every page, the first included, at 2. |
| Kozlony.ExtractHeadersRoundTrip | hun_law/extractors/magyar_kozlony.py:46-66 | Rejoining each header with its page gives the original pages back. |
| Kozlony.Step | hun_law/extractors/magyar_kozlony.py:95-119 | A title continues or opens a section; a page without a title continues the current section. With no section yet it gives ValueError. |
| Kozlony.LawsSections | hun_law/extractors/magyar_kozlony.py:121-123 | Exactly the acts sections are passed on. |
| Kozlony.StepKeeps | hun_law/extractors/magyar_kozlony.py:95-119 | One page appends its lines and a page break to the collected lines. |
| Kozlony.FoldKeeps | hun_law/extractors/magyar_kozlony.py:95-119 | The pages' lines are appended in order, and neighbouring sections have different titles. |
| Kozlony.AllSectionsPartition | hun_law/extractors/magyar_kozlony.py:90-123 | The sections partition the pages' lines. Every title is a known section title, and neighbouring titles differ. |
| Kozlony.FoldClosed | hun_law/extractors/magyar_kozlony.py:95-116 | The first non-empty page must open with a section title. |
| Kozlony.AllSectionsErrors | hun_law/extractors/magyar_kozlony.py:113-120 | No lines at all give AssertionError. A first non-empty page without a title gives ValueError. Nothing else fails. |
| Kozlony.AfterFooter | hun_law/extractors/magyar_kozlony.py:196-217 | An act is completed exactly at the footer two lines after an empty line, dropping those lines. The machine restarts. |
| Kozlony.AwaitNewline | hun_law/extractors/magyar_kozlony.py:152-155 | Only an empty line moves on to waiting for a header. |
| Kozlony.AwaitHeader | hun_law/extractors/magyar_kozlony.py:157-162 | An act title line becomes the identifier; anything else goes back to waiting. |
| Kozlony.InHeader | hun_law/extractors/magyar_kozlony.py:164-174 | Subject lines are joined with spaces until one ends in "*", which is dropped. An empty first subject line gives IndexError. |
| Kozlony.BeforeFooter | hun_law/extractors/magyar_kozlony.py:176-194 | The asterisk footer shrinks to one empty line. Any other line is handled as after the footer. An empty asterisk line gives IndexError. |
| Kozlony.FeedLine | hun_law/extractors/magyar_kozlony.py:147-217 | An act is emitted only from the body states, and then the machine restarts. The errors are exactly the two IndexError cases. |
| Kozlony.FeedLineEmits | hun_law/extractors/magyar_kozlony.py:147-217 | An act is emitted exactly at a footer line in the body after an empty line and a signature. |
| Kozlony.FeedBodyLine | hun_law/extractors/magyar_kozlony.py:176-217 | Ordinary body lines are appended. |
| Kozlony.FeedLineConsistent | hun_law/extractors/magyar_kozlony.py:147-217 | The machine stays consistent, and emitted acts have a well-formed act title. |
| Kozlony.ExtractLaws | hun_law/extractors/magyar_kozlony.py:220-226 | No more acts than lines. |
| Kozlony.RunAppend | hun_law/extractors/magyar_kozlony.py:220-226 | Running over two chunks is running over one, then the other. |
| Kozlony.RunConsistent | hun_law/extractors/magyar_kozlony.py:220-226 | Over any input the machine stays consistent. |
| Kozlony.ExtractLawsIdentifiers | hun_law/extractors/magyar_kozlony.py:220-226 | Every extracted act's identifier is a well-formed act title. |
| Kozlony.RunOneLineAct | hun_law/extractors/magyar_kozlony.py:147-217 | Empty line, title, subject, body, empty line, signature and footer give exactly that act. |
| KozlonyExamples.HeaderStartExample | hun_law/extractors/magyar_kozlony.py:137 | "2011. évi CLI. törvény" is an act title. |
| KozlonyExamples.HeaderStartNeedsNumber | hun_law/extractors/magyar_kozlony.py:137 | A title without a Roman number is not. |
| KozlonyExamples.ExtractLawsExample | hun_law/extractors/magyar_kozlony.py:220-226 | A concrete gazette excerpt gives its one act. |

## Left out

- PDF reading, the command-line tools, output writing, caching and the extractor registry are left out: they are I/O or orchestration.
- The citation grammar and its generated parser are external. They are the `Analyzer` parameter, and a parse tree's position info is the span fields of its nodes.
- Reference.resolve_abbreviations is not part of this model. It is the `Resolver` parameter.
- ptke_article_header_fixer is left out: it is an act-specific regular expression rewrite.
- The fixups module imports `IndentedLinePart`, which hun_law/utils.py does not define. The model reads it as the part constructor (x, content) of `IndentedLine`.
- Indentation is a `real`. Float rounding is left out, so the serialisation round trip is exact.
- Upper and lower case cover only the Hungarian alphabet.
- Semantic.RecursiveParse: requires the tree to pass the element validators, which every parsed tree does; that requirement bounds the recursion.
- Generators are modelled as all-or-nothing `Result`s. Items yielded before an exception are not modelled.
- The tie order of the reference sorts is only partly modelled. Elements' references are sorted by start and then end position, and collected items by start alone, both stably. The final tie-break on the referenced element is left out.
- The element accessors (child, point, subpoint, quoted_block, block_amendment, paragraph, article) and relative_id_string are left out: they are lookups that nothing in the modelled core depends on.
- The regular expressions are written as explicit predicates over the text.
- chr_latin2 and indented_line_wrapped_print are left out: they are output helpers.
- Text.NextChar: fails on the surrogate block as well, where Python only fails past 0x10FFFF, because Dafny characters exclude surrogates.
- Text.ParseNat: accepts ASCII digits only. Python's int() also takes signs, whitespace, underscores and non-ASCII digits, which the identifiers never carry.
- SubArticle.QuotedBlockParse: mark stripping is stated only for the one-line case (SubArticle.QuotedOneLine).
- Structure.NextIdentifier: only dispatches by class; the properties are on the per-class successors.
- Articles.AsWrittenSingleBlock: covers element blocks only; for article blocks the same consequence has another cause (the missing successor) and is Articles.AsWrittenArticleSingleBlock.

## Findings

| source | as written | input that shows it | evidently intended | confidence | as-written member | corrected member |
|---|---|---|---|---|---|---|
| hun_law/parsers/structure_parser.py:596 | `Article(identifier, title, paragraphs)` passes the title as the children and the paragraphs as the title | an article whose first line after the header is "[Title]" | `Article(identifier=identifier, title=title, children=paragraphs)` | not executed | Articles.ParseBodyAsWritten, Articles.TitledArticleRejected | Articles.ParseBody |
| hun_law/parsers/semantic_parser.py:208-213 | the block amendment metadata is passed where a reference is expected, and `.last_component_with_type()` raises an uncaught AttributeError | any paragraph whose intro the grammar reads as a block amendment | hand the block parser the amended reference, or the inserted one when nothing is amended | not executed | Semantic.ParseParagraphAsWritten, Semantic.AsWrittenFails | Semantic.BlocksPosition, Semantic.ParseParagraph |
| hun_law/fixups/common.py:117-131 | the spliced line is built with `IndentedLine((IndentedLinePart(...),))`, and that constructor raises ValueError for any argument but its private key (hun_law/utils.py:32-35) | any replace_line_content fixup whose needle is found | build the replacement part with `IndentedLine.from_parts` | not executed | Fixups.ReplaceAsWritten, Fixups.ReplaceWrittenVersusCorrected | Fixups.Replace |
| hun_law/parsers/structure_parser.py:709 | a block is cut at a header of `expected_id`, the identifier still being collected, so the header of the next element never cuts | the paragraphs (5) to (8) of the range amendment in test/cheap/test_block_amendment_parsing.py:249-275 are expected from "5": the header "(6)" does not cut, so they come back as one block where the test expects four | cut at the header of the successor identifier | not executed | Articles.DoParseBlockByBlockAsWritten, Articles.AsWrittenSingleBlock | Articles.DoParseBlockByBlock |
| hun_law/parsers/structure_parser.py:711 | after a cut the next identifier is taken from `parser.PARSED_TYPE`, which `ArticleParser` (hun_law/parsers/structure_parser.py:525-596) does not define | a block amendment of article "13" whose lines hold a second line at quote level 0 starting "13. §" raises AttributeError at the first cut | number articles on by `Article.next_identifier` (hun_law/structure.py:445) | not executed | Articles.DoParseBlockByBlockAsWritten, Articles.ArticleCutRaises, Articles.AsWrittenArticleSingleBlock | Articles.DoParseBlockByBlock |
