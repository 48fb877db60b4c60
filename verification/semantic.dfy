/** `hun_law/parsers/semantic_parser.py`: the two passes that run after the
    structure of an act is known.

    `ActSemanticsParser` walks every paragraph of every article, hands the
    sentences that may hold references to the grammatical analyzer, and
    collects the act id abbreviations and the outgoing references, with
    positions relative to the element's own text.

    `ActBlockAmendmentParser` looks at every paragraph whose children are
    quoted blocks; when the paragraph's intro is a block amendment
    sentence, the quoted lines are parsed into a block amendment element.

    The analyzer is a parameter (`Analyzer`): `AnalyzerOf` builds it from
    the grammar's parser, which is not part of this model; so is
    `Reference.resolve_abbreviations` (`Resolver`). */
module Semantic {
  import opened Wrappers
  import opened Text
  import opened Lines
  import opened Structure
  import opened Sorting
  import Grammar
  import Articles

  /** `GrammaticalAnalyzer.analyze`. */
  type Analyzer = string -> Result<Grammar.Analysis>

  /** `Reference.resolve_abbreviations`. */
  type Resolver = (Reference, map<string, string>) -> Reference

  /** The analyzer built from the grammar's parser: a parse error is the
      analyzer's error, and a parse tree is analysed. */
  function AnalyzerOf(parse: string -> Result<Grammar.Node>): (analyze: Analyzer)
    ensures forall text :: parse(text).Err? ==> analyze(text) == Err(parse(text).error)
    ensures forall text :: analyze(text).Ok? ==> parse(text).Ok? && analyze(text).value.tree == parse(text).value
  {
    (text: string) => (var tree :- parse(text); Grammar.Analyze(tree))
  }

  /** Longer texts are not analysed (`len(text) > 10000`). */
  const MaxTextLength := 10000

  /** `INTERESTING_SUBSTRINGS`: a text without any of these holds no
      reference. */
  predicate Interesting(text: string) {
    Contains(text, ")") || Contains(text, "§") || Contains(text, "törvén")
  }

  /** Whether `parse_text` hands a text to the analyzer. */
  predicate Analysed(text: string) {
    |text| <= MaxTextLength && Interesting(text)
  }

  // ---------------------------------------------------------------------
  // ActSemanticsParser

  /** `SemanticParseState`: what the walk has collected so far. */
  datatype WalkState = WalkState(abbreviations: seq<ActIdAbbreviation>, outgoing: seq<OutgoingReference>)

  /** The walk only ever appends. */
  predicate Grows(s: WalkState, s': WalkState) {
    s.abbreviations <= s'.abbreviations && s.outgoing <= s'.outgoing
  }

  /** The abbreviation dictionary: for an abbreviation defined more than
      once, the last definition wins. */
  function AbbreviationMap(abbreviations: seq<ActIdAbbreviation>): (m: map<string, string>)
    ensures forall k :: k in m <==> exists i | 0 <= i < |abbreviations| :: abbreviations[i].abbreviation == k
  {
    if |abbreviations| == 0 then map[]
    else
      var last := abbreviations[|abbreviations| - 1];
      var m := AbbreviationMap(abbreviations[..|abbreviations| - 1])[last.abbreviation := last.act];
      assert forall i | 0 <= i < |abbreviations| - 1 ::
        abbreviations[..|abbreviations| - 1][i] == abbreviations[i];
      m
  }

  /** An abbreviation maps to the act of its last definition. */
  lemma {:induction false} AbbreviationMapLastWins(abbreviations: seq<ActIdAbbreviation>, i: nat)
    requires i < |abbreviations|
    requires forall j | i < j < |abbreviations| :: abbreviations[j].abbreviation != abbreviations[i].abbreviation
    ensures abbreviations[i].abbreviation in AbbreviationMap(abbreviations)
    ensures AbbreviationMap(abbreviations)[abbreviations[i].abbreviation] == abbreviations[i].act
  {
    if i < |abbreviations| - 1 {
      var init := abbreviations[..|abbreviations| - 1];
      assert init[i] == abbreviations[i];
      AbbreviationMapLastWins(init, i);
    }
  }

  /** The reference's end lies within the element's own text, which spans
      `(prefixLen, textLen]` of the analysed string. */
  predicate EndsInside(x: InTextReference, prefixLen: int, textLen: int) {
    prefixLen < x.end <= textLen
  }

  /** An in-text reference moved to the element's own text, its start
      clipped to 0, its abbreviations resolved. */
  function Outgoing(x: InTextReference, from: Reference, prefixLen: int,
                    abbreviations: map<string, string>, resolve: Resolver): OutgoingReference
  {
    OutgoingReference(from, if x.start - prefixLen > 0 then x.start - prefixLen else 0,
                      x.end - prefixLen, resolve(x.reference, abbreviations))
  }

  /** A reference found in the element's own text of length `width`. */
  predicate Within(o: OutgoingReference, from: Reference, width: int) {
    o.fromReference == from && 0 <= o.start && 0 < o.end <= width
  }

  /** The kept references, moved, in the analyzer's order. */
  function Inside(refs: seq<InTextReference>, from: Reference, prefixLen: int, textLen: int,
                  abbreviations: map<string, string>, resolve: Resolver): (r: seq<OutgoingReference>)
    ensures |r| <= |refs|
    ensures forall o | o in r :: Within(o, from, textLen - prefixLen)
    ensures forall o | o in r ::
      exists x | x in refs :: EndsInside(x, prefixLen, textLen) && o == Outgoing(x, from, prefixLen, abbreviations, resolve)
    ensures forall x | x in refs && EndsInside(x, prefixLen, textLen) ::
      Outgoing(x, from, prefixLen, abbreviations, resolve) in r
  {
    if |refs| == 0 then []
    else
      var rest := Inside(refs[1..], from, prefixLen, textLen, abbreviations, resolve);
      assert forall x | x in refs[1..] :: x in refs;
      assert forall x | x in refs :: x == refs[0] || x in refs[1..];
      if EndsInside(refs[0], prefixLen, textLen)
      then [Outgoing(refs[0], from, prefixLen, abbreviations, resolve)] + rest
      else rest
  }

  /** The order of `result.sort()` among references of one element: by
      start, then by end. */
  function ByPosition(a: OutgoingReference, b: OutgoingReference): bool {
    a.start < b.start || (a.start == b.start && a.end <= b.end)
  }

  /** `convert_parsed_references`. */
  function ConvertParsedReferences(refs: seq<InTextReference>, from: Reference, prefixLen: int, textLen: int,
                                   abbreviations: map<string, string>, resolve: Resolver): (r: seq<OutgoingReference>)
    ensures |r| <= |refs|
  {
    Sort(Inside(refs, from, prefixLen, textLen, abbreviations, resolve), ByPosition)
  }

  /** The converted references are ordered by position, are exactly the
      references that end inside the element's text (moved and resolved),
      and lie within that text. */
  lemma ConvertParsedReferencesCorrect(refs: seq<InTextReference>, from: Reference, prefixLen: int, textLen: int,
                                       abbreviations: map<string, string>, resolve: Resolver)
    ensures var r := ConvertParsedReferences(refs, from, prefixLen, textLen, abbreviations, resolve);
      && Sorted(r, ByPosition)
      && multiset(r) == multiset(Inside(refs, from, prefixLen, textLen, abbreviations, resolve))
      && (forall o | o in r :: Within(o, from, textLen - prefixLen))
      && (forall x | x in refs && EndsInside(x, prefixLen, textLen) ::
            Outgoing(x, from, prefixLen, abbreviations, resolve) in r)
  {
    var kept := Inside(refs, from, prefixLen, textLen, abbreviations, resolve);
    assert TotalPreorder(ByPosition);
    SortCorrect(kept, ByPosition);
    var r := Sort(kept, ByPosition);
    forall o | o in r ensures o in kept {
      assert o in multiset(r);
    }
    forall o | o in kept ensures o in r {
      assert o in multiset(kept);
    }
  }

  /** `parse_text`: an analysed text adds the analysis's abbreviations,
      then the references that end inside `middle`; the dictionary that
      resolves them already holds the new abbreviations. */
  function ParseText(analyze: Analyzer, resolve: Resolver, middle: string, prefix: string, postfix: string,
                     from: Reference, state: WalkState): (r: Result<WalkState>)
    ensures !Analysed(prefix + middle + postfix) ==> r == Ok(state)
    ensures Analysed(prefix + middle + postfix) && analyze(prefix + middle + postfix).Err? ==>
      r == Err(analyze(prefix + middle + postfix).error)
    ensures r.Ok? ==> Grows(state, r.value)
    ensures r.Ok? ==> forall i | |state.outgoing| <= i < |r.value.outgoing| :: Within(r.value.outgoing[i], from, |middle|)
    ensures r.Ok? ==> Sorted(r.value.outgoing[|state.outgoing|..], ByPosition)
  {
    var text := prefix + middle + postfix;
    if !Analysed(text) then Ok(state)
    else
      var analysis :- analyze(text);
      var abbreviations := state.abbreviations + analysis.actIdAbbreviations;
      var added := ConvertParsedReferences(analysis.AllReferences(), from, |prefix|, |text| - |postfix|,
                                           AbbreviationMap(abbreviations), resolve);
      ConvertParsedReferencesCorrect(analysis.AllReferences(), from, |prefix|, |text| - |postfix|,
                                     AbbreviationMap(abbreviations), resolve);
      var s' := WalkState(abbreviations, state.outgoing + added);
      assert s'.outgoing[|state.outgoing|..] == added;
      assert forall i | |state.outgoing| <= i < |s'.outgoing| :: s'.outgoing[i] in added;
      Ok(s')
  }

  /** The new outgoing references come from an element of the article
      `article` of act `act`, and have a position inside its text. */
  predicate Carries(s: WalkState, s': WalkState, act: Option<string>, article: RefPart) {
    && Grows(s, s')
    && forall i | |s.outgoing| <= i < |s'.outgoing| ::
         && s'.outgoing[i].fromReference.act == act
         && s'.outgoing[i].fromReference.article == article
         && 0 <= s'.outgoing[i].start && 0 < s'.outgoing[i].end
  }

  lemma CarriesTrans(s1: WalkState, s2: WalkState, s3: WalkState, act: Option<string>, article: RefPart)
    requires Carries(s1, s2, act, article) && Carries(s2, s3, act, article)
    ensures Carries(s1, s3, act, article)
  {
    forall i | |s1.outgoing| <= i < |s2.outgoing| ensures s3.outgoing[i] == s2.outgoing[i] {
      assert s2.outgoing <= s3.outgoing;
    }
  }

  /** An element's reference lies in the act and article of its parent. */
  lemma ElementReferenceInParent(e: Element, parent: Reference)
    requires e.kind != BlockAmendment
    ensures RelativeTo(RelativeReference(e).value, parent).act == parent.act
    ensures RelativeTo(RelativeReference(e).value, parent).article == parent.article
  {
    var rel := RelativeReference(e).value;
    assert rel.act.None? && rel.article == NoPart;
    assert FirstSet(rel) >= 2;
    var r := RelativeTo(rel, parent);
    assert Field(r, 0) == Field(parent, 0) && Field(r, 1) == Field(parent, 1);
  }

  /** How deep a child can nest: a paragraph holds points, a point holds
      subpoints, a subpoint holds nothing; the walk does not enter block
      amendments, quoted blocks or articles. */
  function Depth(c: Child): nat {
    if !c.SubElement? then 0
    else match c.element.kind
      case Paragraph => 3
      case AlphabeticPoint => 2
      case NumericPoint => 2
      case AlphabeticSubpoint => 1
      case NumericSubpoint => 1
      case BlockAmendment => 0
  }

  /** Every element the walk enters satisfies the element validators, so
      the children of each are shallower than it. */
  predicate WellFormed(c: Child)
    decreases Depth(c)
  {
    !c.SubElement? || c.element.kind == BlockAmendment ||
    (&& ValidElement(c.element)
     && (c.element.children.Some? ==>
           forall i | 0 <= i < |c.element.children.value| :: WellFormed(c.element.children.value[i])))
  }

  /** The children of a well-formed element are well-formed and
      shallower. */
  lemma ChildrenShallower(c: Child)
    requires WellFormed(c) && c.SubElement? && c.element.kind != BlockAmendment && c.element.children.Some?
    ensures forall i | 0 <= i < |c.element.children.value| ::
      WellFormed(c.element.children.value[i]) && Depth(c.element.children.value[i]) < Depth(c)
  {
  }

  /** `recursive_parse`: quoted blocks, block amendments and articles are
      skipped; an element with text has it analysed; otherwise the intro
      is analysed alone, then the children with the intro before them and
      the wrap-up after them. */
  function RecursiveParse(analyze: Analyzer, resolve: Resolver, child: Child, parent: Reference,
                          prefix: string, postfix: string, state: WalkState): (r: Result<WalkState>)
    requires WellFormed(child)
    ensures !child.SubElement? || child.element.kind == BlockAmendment ==> r == Ok(state)
    ensures (child.SubElement? && child.element.kind != BlockAmendment &&
             child.element.text.None? && child.element.intro.None?) ==> r == Err(AssertionError)
    ensures r.Ok? ==> Carries(state, r.value, parent.act, parent.article)
    decreases Depth(child), 1, 0
  {
    if !child.SubElement? || child.element.kind == BlockAmendment then Ok(state)
    else
      var e := child.element;
      var ref := RelativeTo(RelativeReference(e).value, parent);
      ElementReferenceInParent(e, parent);
      if e.text.Some? then
        var s' :- ParseText(analyze, resolve, e.text.value, prefix, postfix, ref, state);
        assert Carries(state, s', parent.act, parent.article);
        Ok(s')
      else if e.intro.None? then Err(AssertionError)
      else
        var s1 :- ParseText(analyze, resolve, e.intro.value, prefix, "", ref, state);
        assert Carries(state, s1, parent.act, parent.article);
        var prefix' := prefix + e.intro.value + " ";
        var postfix' := if e.wrapUp.Some? then " " + e.wrapUp.value + postfix else postfix;
        if e.children.None? then Err(AssertionError)
        else
          ChildrenShallower(child);
          var s2 :- ParseChildren(analyze, resolve, e.children.value, Depth(child), ref, prefix', postfix', s1);
          CarriesTrans(state, s1, s2, parent.act, parent.article);
          Ok(s2)
  }

  /** The children in order, each from the state the previous one left;
      `depth` bounds how deep they nest. */
  function ParseChildren(analyze: Analyzer, resolve: Resolver, cs: seq<Child>, depth: nat, parent: Reference,
                         prefix: string, postfix: string, state: WalkState): (r: Result<WalkState>)
    requires forall i | 0 <= i < |cs| :: WellFormed(cs[i]) && Depth(cs[i]) < depth
    ensures r.Ok? ==> Carries(state, r.value, parent.act, parent.article)
    decreases depth, 0, |cs|
  {
    if |cs| == 0 then Ok(state)
    else
      var s1 :- RecursiveParse(analyze, resolve, cs[0], parent, prefix, postfix, state);
      var s2 :- ParseChildren(analyze, resolve, cs[1..], depth, parent, prefix, postfix, s1);
      CarriesTrans(state, s1, s2, parent.act, parent.article);
      Ok(s2)
  }

  /** The paragraphs the walk enters are well-formed. */
  predicate WellFormedParagraphs(ps: seq<Element>) {
    forall i | 0 <= i < |ps| :: WellFormed(SubElement(ps[i]))
  }

  /** The paragraphs of one article, relative to the article. */
  function WalkParagraphs(analyze: Analyzer, resolve: Resolver, a: Article, ps: seq<Element>,
                          state: WalkState): (r: Result<WalkState>)
    requires WellFormedParagraphs(ps)
    ensures r.Ok? ==> Carries(state, r.value, None, Single(a.identifier))
  {
    if |ps| == 0 then Ok(state)
    else
      var s1 :- RecursiveParse(analyze, resolve, SubElement(ps[0]), ArticleReference(a), "", "", state);
      assert WellFormedParagraphs(ps[1..]) by {
        forall i | 0 <= i < |ps| - 1 ensures ps[1..][i] == ps[i + 1] { }
      }
      var s2 :- WalkParagraphs(analyze, resolve, a, ps[1..], s1);
      CarriesTrans(state, s1, s2, None, Single(a.identifier));
      Ok(s2)
  }

  function ArticleIds(articles: seq<Article>): (r: seq<string>)
    ensures forall i | 0 <= i < |articles| :: articles[i].identifier in r
    ensures forall id | id in r :: exists i | 0 <= i < |articles| :: articles[i].identifier == id
  {
    if |articles| == 0 then []
    else
      assert forall i | 1 <= i < |articles| :: articles[1..][i - 1] == articles[i];
      [articles[0].identifier] + ArticleIds(articles[1..])
  }

  /** An outgoing reference made from inside one of the articles named
      `ids`. */
  predicate FromArticleIn(o: OutgoingReference, ids: seq<string>) {
    && o.fromReference.act.None?
    && o.fromReference.article.Single? && o.fromReference.article.id in ids
    && 0 <= o.start && 0 < o.end
  }

  predicate WellFormedArticles(articles: seq<Article>) {
    forall i | 0 <= i < |articles| :: WellFormedParagraphs(articles[i].children)
  }

  /** Every article's paragraphs, in order. */
  function WalkArticles(analyze: Analyzer, resolve: Resolver, articles: seq<Article>,
                        state: WalkState): (r: Result<WalkState>)
    requires WellFormedArticles(articles)
    ensures r.Ok? ==> Grows(state, r.value)
    ensures r.Ok? ==> forall i | |state.outgoing| <= i < |r.value.outgoing| ::
      FromArticleIn(r.value.outgoing[i], ArticleIds(articles))
  {
    if |articles| == 0 then Ok(state)
    else
      var s1 :- WalkParagraphs(analyze, resolve, articles[0], articles[0].children, state);
      assert WellFormedArticles(articles[1..]) by {
        forall i | 0 <= i < |articles| - 1 ensures articles[1..][i] == articles[i + 1] { }
      }
      var s2 :- WalkArticles(analyze, resolve, articles[1..], s1);
      assert ArticleIds(articles) == [articles[0].identifier] + ArticleIds(articles[1..]);
      assert forall i | |state.outgoing| <= i < |s1.outgoing| :: s2.outgoing[i] == s1.outgoing[i];
      Ok(s2)
  }

  /** `ActSemanticsParser.parse`: the act with its abbreviations and
      outgoing references filled in, and nothing else changed; every
      reference is made from one of the act's articles. */
  function ActSemanticsParse(analyze: Analyzer, resolve: Resolver, act: Act): (r: Result<Act>)
    requires WellFormedArticles(ArticlesOf(act.children))
    ensures r.Ok? ==>
      r.value.(actIdAbbreviations := act.actIdAbbreviations, outgoingReferences := act.outgoingReferences) == act
    ensures r.Ok? ==> r.value.actIdAbbreviations.Some? && r.value.outgoingReferences.Some?
    ensures r.Ok? ==> forall o | o in r.value.outgoingReferences.value ::
      FromArticleIn(o, ArticleIds(ArticlesOf(act.children)))
    ensures ArticlesOf(act.children) == [] ==>
      r == Ok(act.(actIdAbbreviations := Some([]), outgoingReferences := Some([])))
  {
    var s :- WalkArticles(analyze, resolve, ArticlesOf(act.children), WalkState([], []));
    Ok(act.(actIdAbbreviations := Some(s.abbreviations), outgoingReferences := Some(s.outgoing)))
  }

  // ---------------------------------------------------------------------
  // The walk as a list of texts

  /** One step of the walk in document order: a `parse_text` call, or the
      AssertionError of an element with neither text nor intro, or with an
      intro but no children. */
  datatype Task = Analyse(middle: string, prefix: string, postfix: string, from: Reference) | Fail

  function RunTask(analyze: Analyzer, resolve: Resolver, t: Task, state: WalkState): Result<WalkState> {
    match t
    case Fail => Err(AssertionError)
    case Analyse(middle, prefix, postfix, from) => ParseText(analyze, resolve, middle, prefix, postfix, from, state)
  }

  /** The steps one after another, each from the state the previous one
      left; the first failure ends the walk. */
  function RunTasks(analyze: Analyzer, resolve: Resolver, ts: seq<Task>, state: WalkState): (r: Result<WalkState>)
    ensures Fail in ts ==> r.Err?
    decreases |ts|
  {
    if |ts| == 0 then Ok(state)
    else
      var s1 :- RunTask(analyze, resolve, ts[0], state);
      assert Fail in ts ==> ts[0] == Fail || Fail in ts[1..];
      RunTasks(analyze, resolve, ts[1..], s1)
  }

  /** Running two lists of steps is running the first, then the second
      from where the first left off. */
  lemma {:induction false} RunTasksAppend(analyze: Analyzer, resolve: Resolver, a: seq<Task>, b: seq<Task>,
                                          state: WalkState)
    ensures var r := RunTasks(analyze, resolve, a, state);
      RunTasks(analyze, resolve, a + b, state) == if r.Err? then r else RunTasks(analyze, resolve, b, r.value)
    decreases |a|
  {
    if |a| > 0 {
      assert (a + b)[0] == a[0] && (a + b)[1..] == a[1..] + b;
      var s1 := RunTask(analyze, resolve, a[0], state);
      if s1.Ok? {
        RunTasksAppend(analyze, resolve, a[1..], b, s1.value);
      }
    } else {
      assert a + b == b;
    }
  }

  /** The texts `recursive_parse` hands to `parse_text` under `child`, in
      document order: every one is read with `prefix` in front, and is
      attributed to an element of the parent's act and article. */
  function ElementTasks(child: Child, parent: Reference, prefix: string, postfix: string): (r: seq<Task>)
    requires WellFormed(child)
    ensures forall i | 0 <= i < |r| :: r[i].Analyse? ==>
      && prefix <= r[i].prefix
      && r[i].from.act == parent.act && r[i].from.article == parent.article
    ensures child.SubElement? && child.element.kind != BlockAmendment && child.element.text.Some? ==>
      r == [Analyse(child.element.text.value, prefix, postfix, RelativeTo(RelativeReference(child.element).value, parent))]
    decreases Depth(child), 1, 0
  {
    if !child.SubElement? || child.element.kind == BlockAmendment then []
    else
      var e := child.element;
      var ref := RelativeTo(RelativeReference(e).value, parent);
      ElementReferenceInParent(e, parent);
      if e.text.Some? then [Analyse(e.text.value, prefix, postfix, ref)]
      else if e.intro.None? then [Fail]
      else
        var prefix' := prefix + e.intro.value + " ";
        var postfix' := if e.wrapUp.Some? then " " + e.wrapUp.value + postfix else postfix;
        var head := Analyse(e.intro.value, prefix, "", ref);
        if e.children.None? then [head, Fail]
        else
          ChildrenShallower(child);
          var rest := ChildrenTasks(e.children.value, Depth(child), ref, prefix', postfix');
          assert prefix <= prefix';
          [head] + rest
  }

  /** The texts under each child in turn, all read with the same `prefix`
      and `postfix`. */
  function ChildrenTasks(cs: seq<Child>, depth: nat, parent: Reference, prefix: string, postfix: string)
    : (r: seq<Task>)
    requires forall i | 0 <= i < |cs| :: WellFormed(cs[i]) && Depth(cs[i]) < depth
    ensures forall i | 0 <= i < |r| :: r[i].Analyse? ==>
      && prefix <= r[i].prefix
      && r[i].from.act == parent.act && r[i].from.article == parent.article
    decreases depth, 0, |cs|
  {
    if |cs| == 0 then []
    else ElementTasks(cs[0], parent, prefix, postfix) + ChildrenTasks(cs[1..], depth, parent, prefix, postfix)
  }

  /** `recursive_parse` runs exactly the texts of `ElementTasks`, in
      order. */
  lemma {:induction false} RecursiveParseRuns(analyze: Analyzer, resolve: Resolver, child: Child, parent: Reference,
                                              prefix: string, postfix: string, state: WalkState)
    requires WellFormed(child)
    ensures RecursiveParse(analyze, resolve, child, parent, prefix, postfix, state)
         == RunTasks(analyze, resolve, ElementTasks(child, parent, prefix, postfix), state)
    decreases Depth(child), 1, 0
  {
    if child.SubElement? && child.element.kind != BlockAmendment {
      var e := child.element;
      var ref := RelativeTo(RelativeReference(e).value, parent);
      if e.text.None? && e.intro.Some? {
        var head := Analyse(e.intro.value, prefix, "", ref);
        var s1 := ParseText(analyze, resolve, e.intro.value, prefix, "", ref, state);
        if e.children.None? {
          assert ElementTasks(child, parent, prefix, postfix) == [head, Fail];
          assert [head, Fail][1..] == [Fail];
        } else {
          var prefix' := prefix + e.intro.value + " ";
          var postfix' := if e.wrapUp.Some? then " " + e.wrapUp.value + postfix else postfix;
          ChildrenShallower(child);
          var rest := ChildrenTasks(e.children.value, Depth(child), ref, prefix', postfix');
          assert ElementTasks(child, parent, prefix, postfix) == [head] + rest;
          assert ([head] + rest)[1..] == rest;
          if s1.Ok? {
            ParseChildrenRuns(analyze, resolve, e.children.value, Depth(child), ref, prefix', postfix', s1.value);
          }
        }
      }
    }
  }

  /** The children in order run exactly the texts of `ChildrenTasks`. */
  lemma {:induction false} ParseChildrenRuns(analyze: Analyzer, resolve: Resolver, cs: seq<Child>, depth: nat,
                                             parent: Reference, prefix: string, postfix: string, state: WalkState)
    requires forall i | 0 <= i < |cs| :: WellFormed(cs[i]) && Depth(cs[i]) < depth
    ensures ParseChildren(analyze, resolve, cs, depth, parent, prefix, postfix, state)
         == RunTasks(analyze, resolve, ChildrenTasks(cs, depth, parent, prefix, postfix), state)
    decreases depth, 0, |cs|
  {
    if |cs| > 0 {
      var a := ElementTasks(cs[0], parent, prefix, postfix);
      var b := ChildrenTasks(cs[1..], depth, parent, prefix, postfix);
      RecursiveParseRuns(analyze, resolve, cs[0], parent, prefix, postfix, state);
      RunTasksAppend(analyze, resolve, a, b, state);
      var s1 := RecursiveParse(analyze, resolve, cs[0], parent, prefix, postfix, state);
      if s1.Ok? {
        ParseChildrenRuns(analyze, resolve, cs[1..], depth, parent, prefix, postfix, s1.value);
      }
    }
  }

  /** The texts under the paragraphs of article `a`, each paragraph read
      relative to the article with nothing around it. */
  function ParagraphTasks(a: Article, ps: seq<Element>): (r: seq<Task>)
    requires WellFormedParagraphs(ps)
    ensures forall i | 0 <= i < |r| :: r[i].Analyse? ==>
      r[i].from.act.None? && r[i].from.article == Single(a.identifier)
  {
    if |ps| == 0 then []
    else
      assert WellFormedParagraphs(ps[1..]) by {
        forall i | 0 <= i < |ps| - 1 ensures ps[1..][i] == ps[i + 1] { }
      }
      ElementTasks(SubElement(ps[0]), ArticleReference(a), "", "") + ParagraphTasks(a, ps[1..])
  }

  /** The texts of every article in document order. */
  function ArticleTasks(articles: seq<Article>): (r: seq<Task>)
    requires WellFormedArticles(articles)
    ensures forall i | 0 <= i < |r| :: r[i].Analyse? ==>
      r[i].from.act.None? && r[i].from.article.Single? && r[i].from.article.id in ArticleIds(articles)
  {
    if |articles| == 0 then []
    else
      assert WellFormedArticles(articles[1..]) by {
        forall i | 0 <= i < |articles| - 1 ensures articles[1..][i] == articles[i + 1] { }
      }
      ParagraphTasks(articles[0], articles[0].children) + ArticleTasks(articles[1..])
  }

  lemma {:induction false} WalkParagraphsRuns(analyze: Analyzer, resolve: Resolver, a: Article, ps: seq<Element>,
                                              state: WalkState)
    requires WellFormedParagraphs(ps)
    ensures WalkParagraphs(analyze, resolve, a, ps, state) == RunTasks(analyze, resolve, ParagraphTasks(a, ps), state)
  {
    if |ps| > 0 {
      assert WellFormedParagraphs(ps[1..]) by {
        forall i | 0 <= i < |ps| - 1 ensures ps[1..][i] == ps[i + 1] { }
      }
      var head := ElementTasks(SubElement(ps[0]), ArticleReference(a), "", "");
      RecursiveParseRuns(analyze, resolve, SubElement(ps[0]), ArticleReference(a), "", "", state);
      RunTasksAppend(analyze, resolve, head, ParagraphTasks(a, ps[1..]), state);
      var s1 := RecursiveParse(analyze, resolve, SubElement(ps[0]), ArticleReference(a), "", "", state);
      if s1.Ok? {
        WalkParagraphsRuns(analyze, resolve, a, ps[1..], s1.value);
      }
    }
  }

  lemma {:induction false} WalkArticlesRuns(analyze: Analyzer, resolve: Resolver, articles: seq<Article>,
                                            state: WalkState)
    requires WellFormedArticles(articles)
    ensures WalkArticles(analyze, resolve, articles, state) == RunTasks(analyze, resolve, ArticleTasks(articles), state)
  {
    if |articles| > 0 {
      assert WellFormedArticles(articles[1..]) by {
        forall i | 0 <= i < |articles| - 1 ensures articles[1..][i] == articles[i + 1] { }
      }
      var head := ParagraphTasks(articles[0], articles[0].children);
      WalkParagraphsRuns(analyze, resolve, articles[0], articles[0].children, state);
      RunTasksAppend(analyze, resolve, head, ArticleTasks(articles[1..]), state);
      var s1 := WalkParagraphs(analyze, resolve, articles[0], articles[0].children, state);
      if s1.Ok? {
        WalkArticlesRuns(analyze, resolve, articles[1..], s1.value);
      }
    }
  }

  /** `ActSemanticsParser.parse` fills in exactly what running the act's
      texts in document order, from nothing, collects. */
  lemma ActSemanticsParseRuns(analyze: Analyzer, resolve: Resolver, act: Act)
    requires WellFormedArticles(ArticlesOf(act.children))
    ensures var run := RunTasks(analyze, resolve, ArticleTasks(ArticlesOf(act.children)), WalkState([], []));
      ActSemanticsParse(analyze, resolve, act)
        == if run.Err? then Err(run.error)
           else Ok(act.(actIdAbbreviations := Some(run.value.abbreviations),
                        outgoingReferences := Some(run.value.outgoing)))
  {
    WalkArticlesRuns(analyze, resolve, ArticlesOf(act.children), WalkState([], []));
  }

  /** An element none of whose texts is analysed. */
  predicate Quiet(child: Child, prefix: string, postfix: string)
    requires WellFormed(child)
    decreases Depth(child), 1, 0
  {
    if !child.SubElement? || child.element.kind == BlockAmendment then true
    else
      var e := child.element;
      if e.text.Some? then !Analysed(prefix + e.text.value + postfix)
      else
        && e.intro.Some? && !Analysed(prefix + e.intro.value)
        && e.children.Some?
        && (ChildrenShallower(child);
            QuietAll(e.children.value, Depth(child), prefix + e.intro.value + " ",
                     if e.wrapUp.Some? then " " + e.wrapUp.value + postfix else postfix))
  }

  predicate QuietAll(cs: seq<Child>, depth: nat, prefix: string, postfix: string)
    requires forall i | 0 <= i < |cs| :: WellFormed(cs[i]) && Depth(cs[i]) < depth
    decreases depth, 0, |cs|
  {
    forall i | 0 <= i < |cs| :: Quiet(cs[i], prefix, postfix)
  }

  /** Text that the analyzer never sees cannot produce abbreviations or
      references: the walk over it leaves the state unchanged, whatever
      the analyzer. */
  lemma {:induction false} QuietUnchanged(analyze: Analyzer, resolve: Resolver, child: Child, parent: Reference,
                                          prefix: string, postfix: string, state: WalkState)
    requires WellFormed(child) && Quiet(child, prefix, postfix)
    ensures RecursiveParse(analyze, resolve, child, parent, prefix, postfix, state) == Ok(state)
    decreases Depth(child), 1, 0
  {
    if child.SubElement? && child.element.kind != BlockAmendment && child.element.text.None? {
      var e := child.element;
      var ref := RelativeTo(RelativeReference(e).value, parent);
      assert prefix + e.intro.value + "" == prefix + e.intro.value;
      ChildrenShallower(child);
      QuietAllUnchanged(analyze, resolve, e.children.value, Depth(child), ref, prefix + e.intro.value + " ",
                        if e.wrapUp.Some? then " " + e.wrapUp.value + postfix else postfix, state);
    }
  }

  lemma {:induction false} QuietAllUnchanged(analyze: Analyzer, resolve: Resolver, cs: seq<Child>, depth: nat,
                                             parent: Reference, prefix: string, postfix: string, state: WalkState)
    requires forall i | 0 <= i < |cs| :: WellFormed(cs[i]) && Depth(cs[i]) < depth
    requires QuietAll(cs, depth, prefix, postfix)
    ensures ParseChildren(analyze, resolve, cs, depth, parent, prefix, postfix, state) == Ok(state)
    decreases depth, 0, |cs|
  {
    if |cs| > 0 {
      QuietUnchanged(analyze, resolve, cs[0], parent, prefix, postfix, state);
      assert QuietAll(cs[1..], depth, prefix, postfix) by {
        forall i | 0 <= i < |cs| - 1 ensures cs[1..][i] == cs[i + 1] { }
      }
      QuietAllUnchanged(analyze, resolve, cs[1..], depth, parent, prefix, postfix, state);
    }
  }

  // ---------------------------------------------------------------------
  // ActBlockAmendmentParser

  /** `\(.*\)|\[.*\]`: a bracketed group (line breaks are left out). */
  predicate BracketGroup(g: string) {
    |g| >= 2 && ((g[0] == '(' && g[|g| - 1] == ')') || (g[0] == '[' && g[|g| - 1] == ']'))
  }

  /** ` ?(group)$` after the colon: an optional space, taken when it can
      be, then a bracketed group reaching to the end. */
  function ContextGroup(rest: string): (r: Option<string>)
    ensures r.Some? ==> BracketGroup(r.value) && (rest == " " + r.value || rest == r.value)
    ensures r.None? ==> !BracketGroup(rest) && !(|rest| > 0 && rest[0] == ' ' && BracketGroup(rest[1..]))
  {
    if |rest| > 0 && rest[0] == ' ' && BracketGroup(rest[1..]) then
      assert rest == " " + rest[1..];
      Some(rest[1..])
    else if BracketGroup(rest) then Some(rest)
    else None
  }

  /** The intro can be split after its `p`-th character, a colon. */
  predicate SplitsAt(intro: string, p: int) {
    0 <= p < |intro| && intro[p] == ':' && ContextGroup(intro[p + 1..]).Some?
  }

  /** `^(.*:)`, greedy: the last colon after which the rest is a context
      group. */
  function SplitPoint(intro: string, from: int): (r: Option<nat>)
    requires -1 <= from < |intro|
    ensures r.Some? ==> r.value <= from && SplitsAt(intro, r.value)
    ensures r.Some? ==> forall q | r.value < q <= from :: !SplitsAt(intro, q)
    ensures r.None? ==> forall q | 0 <= q <= from :: !SplitsAt(intro, q)
    decreases from + 1
  {
    if from < 0 then None
    else if SplitsAt(intro, from) then Some(from)
    else SplitPoint(intro, from - 1)
  }

  /** The three parts of a block amendment paragraph's intro. */
  datatype IntroParts = IntroParts(actual: string, contextIntro: Option<string>, contextOutro: Option<string>)

  /** The intro split into the sentence that ends with the colon and the
      bracketed context that repeats the amended text's surroundings; the
      wrap-up, without its first and last characters, is the context that
      follows. */
  function SplitIntro(intro: string, wrapUp: Option<string>): (r: IntroParts)
    ensures |r.actual| <= |intro| && r.actual == intro[..|r.actual|]
    ensures (forall q | 0 <= q < |intro| :: !SplitsAt(intro, q)) <==> r.contextIntro.None?
    ensures r.contextIntro.None? ==> r == IntroParts(intro, None, None)
    ensures r.contextIntro.Some? ==>
      && EndsWith(r.actual, ":") && SplitsAt(intro, |r.actual| - 1)
      && (forall q | |r.actual| - 1 < q < |intro| :: !SplitsAt(intro, q))
    ensures r.contextIntro.Some? ==> (r.contextOutro.Some? <==> wrapUp.Some?)
    ensures r.contextIntro.Some? && wrapUp.Some? && |wrapUp.value| >= 2 ==>
      r.contextOutro == Some(wrapUp.value[1..|wrapUp.value| - 1])
  {
    match SplitPoint(intro, |intro| - 1)
    case None => IntroParts(intro, None, None)
    case Some(p) => SplitAtPoint(intro, p, wrapUp)
  }

  /** The intro split after its `p`-th character. */
  function SplitAtPoint(intro: string, p: nat, wrapUp: Option<string>): (r: IntroParts)
    requires SplitsAt(intro, p)
    ensures |r.actual| == p + 1 && r.actual == intro[..p + 1] && EndsWith(r.actual, ":")
    ensures var g := ContextGroup(intro[p + 1..]).value; r.contextIntro == Some(g[1..|g| - 1])
    ensures r.contextOutro == Outro(wrapUp)
  {
    var g := ContextGroup(intro[p + 1..]).value;
    SentenceEndsInColon(intro, p);
    IntroParts(intro[..p + 1], Some(g[1..|g| - 1]), Outro(wrapUp))
  }

  /** The sentence cut at a split point ends with its colon. */
  lemma SentenceEndsInColon(intro: string, p: int)
    requires SplitsAt(intro, p)
    ensures EndsWith(intro[..p + 1], ":") && |intro[..p + 1]| - 1 == p
  {
    assert intro[..p + 1][p] == ':';
  }

  /** The context after the amended text: the wrap-up without its first
      and last characters. */
  function Outro(wrapUp: Option<string>): (r: Option<string>)
    ensures r.Some? <==> wrapUp.Some?
    ensures wrapUp.Some? && |wrapUp.value| >= 2 ==> r == Some(wrapUp.value[1..|wrapUp.value| - 1])
  {
    if wrapUp.None? then None
    else if |wrapUp.value| >= 2 then Some(wrapUp.value[1..|wrapUp.value| - 1])
    else Some("")
  }

  /** A split intro is cut after its split point, and its context is the
      group that follows, without the brackets. */
  lemma SplitIntroAt(intro: string, wrapUp: Option<string>)
    requires SplitIntro(intro, wrapUp).contextIntro.Some?
    ensures SplitPoint(intro, |intro| - 1).Some?
    ensures var p := SplitPoint(intro, |intro| - 1).value;
      var g := ContextGroup(intro[p + 1..]).value;
      && SplitIntro(intro, wrapUp).actual == intro[..p + 1]
      && SplitIntro(intro, wrapUp).contextIntro == Some(g[1..|g| - 1])
  {
  }

  /** The split loses nothing: the intro is the sentence, an optional
      space and the bracketed context. */
  lemma SplitIntroRebuilds(intro: string, wrapUp: Option<string>)
    requires SplitIntro(intro, wrapUp).contextIntro.Some?
    ensures var r := SplitIntro(intro, wrapUp);
      var c := r.contextIntro.value;
      || intro == r.actual + "(" + c + ")" || intro == r.actual + " (" + c + ")"
      || intro == r.actual + "[" + c + "]" || intro == r.actual + " [" + c + "]"
  {
    SplitIntroAt(intro, wrapUp);
    RebuildAt(intro, SplitPoint(intro, |intro| - 1).value, SplitIntro(intro, wrapUp));
  }

  /** An intro cut at a split point is the sentence, then the context
      group. */
  lemma RebuildAt(intro: string, p: nat, r: IntroParts)
    requires SplitsAt(intro, p) && r.actual == intro[..p + 1]
    requires var g := ContextGroup(intro[p + 1..]).value; r.contextIntro == Some(g[1..|g| - 1])
    ensures var c := r.contextIntro.value;
      || intro == r.actual + "(" + c + ")" || intro == r.actual + " (" + c + ")"
      || intro == r.actual + "[" + c + "]" || intro == r.actual + " [" + c + "]"
  {
    var rest := intro[p + 1..];
    assert intro == r.actual + rest;
    GroupRebuilds(intro, r.actual, rest, ContextGroup(rest).value, r.contextIntro.value);
  }

  lemma GroupRebuilds(intro: string, actual: string, rest: string, g: string, c: string)
    requires intro == actual + rest
    requires BracketGroup(g) && (rest == " " + g || rest == g) && c == g[1..|g| - 1]
    ensures || intro == actual + "(" + c + ")" || intro == actual + " (" + c + ")"
            || intro == actual + "[" + c + "]" || intro == actual + " [" + c + "]"
  {
    assert g == [g[0]] + c + [g[|g| - 1]];
    if rest == g {
      assert actual + rest == actual + [g[0]] + c + [g[|g| - 1]];
    } else {
      assert actual + rest == actual + ([' '] + [g[0]]) + c + [g[|g| - 1]];
    }
  }

  /** Where the quoted blocks go: `BlockAmendmentStructureParser.parse`
      wants the reference whose last component says the blocks' type. The
      blocks start at the amended element when there is one, at the
      inserted one otherwise. */
  function BlocksPosition(m: BlockAmendmentMetadata): (r: Result<Reference>)
    ensures r.Ok? <==> m.amended.Some? || m.inserted.Some?
    ensures m.amended.Some? ==> r == Ok(m.amended.value)
    ensures m.amended.None? && m.inserted.Some? ==> r == Ok(m.inserted.value)
  {
    if m.amended.Some? then Ok(m.amended.value)
    else if m.inserted.Some? then Ok(m.inserted.value)
    else Err(ValueError)
  }

  /** A paragraph whose quoted block was parsed into a block amendment:
      intro and wrap-up replaced, one block amendment child, everything
      else kept. */
  predicate Rewritten(p: Element, p': Element) {
    && p'.kind == p.kind && p'.identifier == p.identifier && p'.text == p.text
    && p'.intro.Some? && p.intro.Some? && |p'.intro.value| <= |p.intro.value|
    && p'.wrapUp == Some("")
    && p'.children.Some? && |p'.children.value| == 1
    && p'.children.value[0].SubElement? && p'.children.value[0].element.kind == BlockAmendment
    && ValidElement(p'.children.value[0].element)
  }

  /** Whether a paragraph is one `parse_paragraph` looks at: its children
      are quoted blocks. */
  predicate HasQuotedBlocks(p: Element)
    requires p.children.Some? ==> |p.children.value| > 0
  {
    ChildrenType(p) == Some(QuotedBlockType)
  }

  /** `parse_paragraph`, with the block position chosen by
      `BlocksPosition`. A paragraph without quoted blocks, with an overly
      long intro, or whose intro the analyzer does not find to be a block
      amendment, is kept; one whose blocks the structure parser cannot
      parse is kept too; any other error stops the parse. */
  function ParseParagraph(analyze: Analyzer, p: Element): (r: Result<Element>)
    requires ValidElement(p)
    ensures !HasQuotedBlocks(p) ==> r == Ok(p)
    ensures HasQuotedBlocks(p) && p.intro.None? ==> r == Err(AssertionError)
    ensures HasQuotedBlocks(p) && p.intro.Some? && |p.intro.value| > MaxTextLength ==> r == Ok(p)
    ensures r.Ok? ==> r.value == p || Rewritten(p, r.value)
    ensures r.Ok? ==> ValidElement(r.value)
    ensures r.Ok? && r.value != p ==> r.value.intro == Some(SplitIntro(p.intro.value, p.wrapUp).actual)
  {
    if !HasQuotedBlocks(p) then Ok(p)
    else if p.intro.None? then Err(AssertionError)
    else if |p.intro.value| > MaxTextLength then Ok(p)
    else
      var parts := SplitIntro(p.intro.value, p.wrapUp);
      var analysis :- analyze(parts.actual);
      if analysis.specialExpression.None? then Ok(p)
      else if |p.children.value| != 1 then Err(AssertionError)
      else
        var position :- BlocksPosition(analysis.specialExpression.value);
        var block := Articles.BlockAmendmentParse(position, parts.contextIntro, parts.contextOutro,
                                                  p.children.value[0].block.lines);
        if block.Err? && block.error == SubArticleParsing then Ok(p)
        else
          var b :- block;
          Ok(WithBlockAmendment(p, parts.actual, b))
  }

  /** The paragraph rewritten around its parsed block amendment: the
      sentence as intro, an empty wrap-up, and the amendment as the only
      child. */
  function WithBlockAmendment(p: Element, actual: string, b: Element): (r: Element)
    requires ValidElement(p) && HasQuotedBlocks(p) && p.intro.Some? && |actual| <= |p.intro.value|
    requires b.kind == BlockAmendment && ValidElement(b)
    ensures Rewritten(p, r) && ValidElement(r) && r.intro == Some(actual)
  {
    var p' := p.(intro := Some(actual), wrapUp := Some(""), children := Some([SubElement(b)]));
    assert TypeOf(p'.children.value[0]) == ElementType(BlockAmendment);
    p'
  }

  /** `parse_paragraph` as written: the block amendment metadata itself is
      handed to the structure parser, which asks it for
      `last_component_with_type` and fails with an AttributeError that
      nothing catches. */
  function ParseParagraphAsWritten(analyze: Analyzer, p: Element): (r: Result<Element>)
    requires ValidElement(p)
    ensures !HasQuotedBlocks(p) ==> r == Ok(p)
    ensures r.Ok? ==> r.value == p
  {
    if !HasQuotedBlocks(p) then Ok(p)
    else if p.intro.None? then Err(AssertionError)
    else if |p.intro.value| > MaxTextLength then Ok(p)
    else
      var parts := SplitIntro(p.intro.value, p.wrapUp);
      var analysis :- analyze(parts.actual);
      if analysis.specialExpression.None? then Ok(p)
      else if |p.children.value| != 1 then Err(AssertionError)
      else Err(AttributeError)
  }

  /** The paragraphs `parse_paragraph` hands to the structure parser: one
      quoted block after an intro the analyzer reads as a block
      amendment. */
  predicate ReachesStructureParser(analyze: Analyzer, p: Element)
    requires ValidElement(p)
  {
    && HasQuotedBlocks(p) && p.intro.Some? && |p.intro.value| <= MaxTextLength
    && analyze(SplitIntro(p.intro.value, p.wrapUp).actual).Ok?
    && analyze(SplitIntro(p.intro.value, p.wrapUp).actual).value.specialExpression.Some?
    && |p.children.value| == 1
  }

  /** As written, every block amendment paragraph makes the whole pass
      fail: for example "Az Ftv. 3. § (2) bekezdése helyébe a következő
      rendelkezés lép:" followed by one quoted block. */
  lemma AsWrittenFails(analyze: Analyzer, p: Element)
    requires ValidElement(p) && ReachesStructureParser(analyze, p)
    ensures ParseParagraphAsWritten(analyze, p) == Err(AttributeError)
  {
  }

  /** With the position chosen, a block amendment paragraph whose blocks
      parse is rewritten to hold the parsed block amendment, whose first
      block has the type and identifier the position names. */
  lemma ParseParagraphRewrites(analyze: Analyzer, p: Element)
    requires ValidElement(p) && ReachesStructureParser(analyze, p)
    requires var m := analyze(SplitIntro(p.intro.value, p.wrapUp).actual).value.specialExpression.value;
      BlocksPosition(m).Ok? &&
      var parts := SplitIntro(p.intro.value, p.wrapUp);
      Articles.BlockAmendmentParse(BlocksPosition(m).value, parts.contextIntro, parts.contextOutro,
                                   p.children.value[0].block.lines).Ok?
    ensures var m := analyze(SplitIntro(p.intro.value, p.wrapUp).actual).value.specialExpression.value;
      var parts := SplitIntro(p.intro.value, p.wrapUp);
      var b := Articles.BlockAmendmentParse(BlocksPosition(m).value, parts.contextIntro, parts.contextOutro,
                                            p.children.value[0].block.lines).value;
      && ParseParagraph(analyze, p) == Ok(p.(intro := Some(parts.actual), wrapUp := Some(""),
                                             children := Some([SubElement(b)])))
      && b.intro == parts.contextIntro && b.wrapUp == parts.contextOutro
  {
  }

  /** Parsing a paragraph a second time changes nothing: a rewritten
      paragraph no longer holds quoted blocks. */
  lemma ParseParagraphIdempotent(analyze: Analyzer, p: Element)
    requires ValidElement(p) && ParseParagraph(analyze, p).Ok?
    ensures ParseParagraph(analyze, ParseParagraph(analyze, p).value) == ParseParagraph(analyze, p)
  {
  }

  /** The paragraphs, each parsed, in order; the first error stops. */
  function ParseParagraphs(analyze: Analyzer, ps: seq<Element>): (r: Result<seq<Element>>)
    requires forall i | 0 <= i < |ps| :: ValidElement(ps[i])
    ensures r.Ok? ==> |r.value| == |ps|
    ensures r.Ok? ==> forall i | 0 <= i < |ps| :: r.value[i] == ps[i] || Rewritten(ps[i], r.value[i])
    ensures r.Ok? ==> forall i | 0 <= i < |ps| :: ValidElement(r.value[i])
    ensures r.Ok? ==> forall i | 0 <= i < |ps| && ValidElement(ps[i]) && !HasQuotedBlocks(ps[i]) :: r.value[i] == ps[i]
  {
    if |ps| == 0 then Ok([])
    else
      var first :- ParseParagraph(analyze, ps[0]);
      var rest :- ParseParagraphs(analyze, ps[1..]);
      assert forall i | 1 <= i < |ps| :: ps[1..][i - 1] == ps[i];
      Ok([first] + rest)
  }

  /** `parse_article`: the paragraphs replaced, identifier and title
      kept. */
  function ParseArticle(analyze: Analyzer, a: Article): (r: Result<Article>)
    requires forall i | 0 <= i < |a.children| :: ValidElement(a.children[i])
    ensures r.Ok? ==> r.value.identifier == a.identifier && r.value.title == a.title
    ensures r.Ok? ==> |r.value.children| == |a.children|
    ensures r.Ok? ==> forall i | 0 <= i < |a.children| ::
      r.value.children[i] == a.children[i] || Rewritten(a.children[i], r.value.children[i])
  {
    var ps :- ParseParagraphs(analyze, a.children);
    Ok(a.(children := ps))
  }

  /** Every paragraph of the act's articles is a valid element. */
  predicate ValidArticles(children: seq<ActChild>) {
    forall i, j | 0 <= i < |children| && children[i].ArticleItem? && 0 <= j < |children[i].article.children| ::
      ValidElement(children[i].article.children[j])
  }

  /** A parsed child against the one it came from: an article keeps its
      identifier, title and number of paragraphs, anything else is kept. */
  predicate ChildParsed(c: ActChild, d: ActChild) {
    if c.ArticleItem? then
      && d.ArticleItem?
      && d.article.identifier == c.article.identifier
      && d.article.title == c.article.title
      && |d.article.children| == |c.article.children|
    else d == c
  }

  /** One child of the act: an article is parsed, anything else kept. */
  function ParseActChild(analyze: Analyzer, c: ActChild): (r: Result<ActChild>)
    requires ValidArticles([c])
    ensures r.Ok? ==> ChildParsed(c, r.value)
  {
    if c.ArticleItem? then
      assert forall j | 0 <= j < |c.article.children| :: [c][0].article.children[j] == c.article.children[j];
      var a :- ParseArticle(analyze, c.article);
      Ok(ArticleItem(a))
    else Ok(c)
  }

  /** The act's children: articles parsed, structural elements kept. */
  function ParseActChildren(analyze: Analyzer, children: seq<ActChild>): (r: Result<seq<ActChild>>)
    requires ValidArticles(children)
    ensures r.Ok? ==> |r.value| == |children|
    ensures r.Ok? ==> forall i | 0 <= i < |children| :: ChildParsed(children[i], r.value[i])
  {
    if |children| == 0 then Ok([])
    else
      assert ValidArticles([children[0]]) by {
        assert [children[0]][0] == children[0];
      }
      var first :- ParseActChild(analyze, children[0]);
      assert ValidArticles(children[1..]) by {
        forall i | 0 <= i < |children| - 1 ensures children[1..][i] == children[i + 1] { }
      }
      var rest :- ParseActChildren(analyze, children[1..]);
      assert forall i | 1 <= i < |children| :: children[1..][i - 1] == children[i];
      Ok([first] + rest)
  }

  /** `ActBlockAmendmentParser.parse`: only the children change, article
      for article. */
  function ActBlockAmendmentParse(analyze: Analyzer, act: Act): (r: Result<Act>)
    requires ValidArticles(act.children)
    ensures r.Ok? ==> r.value.(children := act.children) == act
    ensures r.Ok? ==> |r.value.children| == |act.children|
    ensures r.Ok? ==> forall i | 0 <= i < |act.children| ::
      act.children[i].StructuralChild? ==> r.value.children[i] == act.children[i]
  {
    var children :- ParseActChildren(analyze, act.children);
    Ok(act.(children := children))
  }
}
