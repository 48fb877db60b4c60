/** `GrammaticalAnalysisResult` of `hun_law/parsers/grammatical_analyzer.py`:
    what the analysis of one sentence reports, computed from the parse tree
    the act grammar produces. The grammar itself is not modelled; its trees
    are the `Node` values below, each node with the span of text it covers. */
module Grammar {
  import opened Wrappers
  import opened Structure
  import opened Collector
  import opened Utils

  // ---------------------------------------------------------------------
  // The parse tree

  /** `parseinfo.pos`, `parseinfo.endpos`: the covered text positions. */
  datatype Span = Span(pos: int, endpos: int)

  /** `<year>. évi <number>. törvény`, with the two numbers as written. */
  datatype ActIdNode = ActIdNode(year: string, number: string, span: Span)

  datatype AbbreviationNode = AbbreviationNode(s: string, span: Span)

  /** An act, named by its id and/or an abbreviation, possibly introducing
      a new abbreviation ("a továbbiakban: ..."). */
  datatype ActRefNode = ActRefNode(
    actId: Option<ActIdNode>,
    abbreviation: Option<AbbreviationNode>,
    fromNowOn: Option<AbbreviationNode>)

  /** An identifier is written as several tokens (`3`, `:`, `319`). */
  datatype SingleNode = SingleNode(id: seq<string>, span: Span)

  datatype RangeNode = RangeNode(first: seq<string>, last: seq<string>, span: Span)

  /** The identifiers of one level: single ones, then ranges. */
  datatype RefPartNode = RefPartNode(level: RefLevel, singles: seq<SingleNode>, ranges: seq<RangeNode>)

  /** `model.Reference`: the levels of one reference, outermost first. */
  datatype RefNode = RefNode(parts: seq<RefPartNode>, span: Span)

  /** The node kinds the analysis looks for; every other grammar node is
      `Other`, holding its sub-nodes in order. A compound reference and a
      block amendment hold their act reference first, then their
      references. */
  datatype Node =
    | Other(children: seq<Node>)
    | ActRefLeaf(actRef: ActRefNode)
    | RefLeaf(ref: RefNode)
    | Compound(compoundAct: Option<ActRefNode>, refs: seq<RefNode>)
    | Amendment(amendmentAct: ActRefNode, amended: Option<RefNode>, inserted: Option<RefNode>)

  function OptionalActRef(a: Option<ActRefNode>): seq<Node> {
    if a.Some? then [ActRefLeaf(a.value)] else []
  }

  function OptionalRef(r: Option<RefNode>): seq<Node> {
    if r.Some? then [RefLeaf(r.value)] else []
  }

  function RefLeaves(refs: seq<RefNode>): (r: seq<Node>)
    ensures |r| == |refs| && forall i | 0 <= i < |refs| :: r[i] == RefLeaf(refs[i])
  {
    seq(|refs|, i requires 0 <= i < |refs| => RefLeaf(refs[i]))
  }

  /** The sub-nodes of a node, in the order the traversal visits them. */
  function Children(n: Node): seq<Node> {
    match n
    case Other(cs) => cs
    case ActRefLeaf(_) => []
    case RefLeaf(_) => []
    case Compound(a, refs) => OptionalActRef(a) + RefLeaves(refs)
    case Amendment(a, am, ins) => [ActRefLeaf(a)] + OptionalRef(am) + OptionalRef(ins)
  }

  /** `iterate_depth_first`: every node after all of its sub-nodes. */
  function PostOrder(n: Node): (r: seq<Node>)
    ensures |r| > 0 && r[|r| - 1] == n
    decreases n
  {
    match n
    case Other(cs) => PostOrderAll(cs) + [n]
    case _ => Children(n) + [n]
  }

  function PostOrderAll(ns: seq<Node>): (r: seq<Node>)
    decreases ns
  {
    if |ns| == 0 then [] else PostOrder(ns[0]) + PostOrderAll(ns[1..])
  }

  /** Each node of `s` comes after its sub-nodes. */
  predicate ChildrenFirst(s: seq<Node>) {
    forall i | 0 <= i < |s| :: forall c | c in Children(s[i]) :: c in s[..i]
  }

  lemma ChildrenFirstAppend(a: seq<Node>, b: seq<Node>)
    requires ChildrenFirst(a) && ChildrenFirst(b)
    ensures ChildrenFirst(a + b)
  {
    var s := a + b;
    forall i | 0 <= i < |s|
      ensures forall c | c in Children(s[i]) :: c in s[..i]
    {
      if i < |a| {
        assert s[..i] == a[..i];
      } else {
        assert s[i] == b[i - |a|];
        assert s[..i] == a + b[..i - |a|];
      }
    }
  }

  /** The traversal visits every node after its sub-nodes, so (by
      induction) after all of its descendants. */
  lemma {:induction false} PostOrderChildrenFirst(n: Node)
    ensures ChildrenFirst(PostOrder(n))
    decreases n
  {
    var r := PostOrder(n);
    if n.Other? {
      PostOrderAllChildrenFirst(n.children);
      ChildrenFirstSnoc(PostOrderAll(n.children), n);
    } else {
      var cs := Children(n);
      forall i | 0 <= i < |cs|
        ensures Children(cs[i]) == []
      {
        if n.Compound? && i >= |OptionalActRef(n.compoundAct)| {
          assert cs[i] == RefLeaves(n.refs)[i - |OptionalActRef(n.compoundAct)|];
        }
      }
      ChildrenFirstSnoc(cs, n);
    }
  }

  lemma ChildrenFirstSnoc(s: seq<Node>, n: Node)
    requires ChildrenFirst(s)
    requires forall c | c in Children(n) :: c in s
    ensures ChildrenFirst(s + [n])
  {
    var t := s + [n];
    assert t[..|s|] == s;
    forall i | 0 <= i < |s|
      ensures t[..i] == s[..i]
    {
    }
  }

  lemma {:induction false} PostOrderAllChildrenFirst(ns: seq<Node>)
    ensures ChildrenFirst(PostOrderAll(ns))
    ensures forall c | c in ns :: c in PostOrderAll(ns)
    decreases ns
  {
    if |ns| > 0 {
      PostOrderChildrenFirst(ns[0]);
      PostOrderAllChildrenFirst(ns[1..]);
      ChildrenFirstAppend(PostOrder(ns[0]), PostOrderAll(ns[1..]));
      forall c | c in ns
        ensures c in PostOrderAll(ns)
      {
        if c != ns[0] {
          assert c in ns[1..];
        }
      }
    }
  }

  /** The act references among `ns`, in order. */
  function ActRefsIn(ns: seq<Node>): (r: seq<ActRefNode>)
    ensures forall a :: a in r <==> ActRefLeaf(a) in ns
  {
    if |ns| == 0 then []
    else (if ns[0].ActRefLeaf? then [ns[0].actRef] else []) + ActRefsIn(ns[1..])
  }

  /** The references among `ns`, in order. */
  function RefsIn(ns: seq<Node>): (r: seq<RefNode>)
    ensures forall x :: x in r <==> RefLeaf(x) in ns
  {
    if |ns| == 0 then []
    else (if ns[0].RefLeaf? then [ns[0].ref] else []) + RefsIn(ns[1..])
  }

  /** The compound references among `ns`, in order. */
  function CompoundsIn(ns: seq<Node>): (r: seq<Node>)
    ensures forall x :: x in r <==> x in ns && x.Compound?
  {
    if |ns| == 0 then []
    else (if ns[0].Compound? then [ns[0]] else []) + CompoundsIn(ns[1..])
  }

  // ---------------------------------------------------------------------
  // Acts

  predicate Named(a: ActRefNode) {
    a.actId.Some? || a.abbreviation.Some?
  }

  function ActIdString(id: ActIdNode): string {
    id.year + ". évi " + id.number + ". törvény"
  }

  /** `_get_act_id_from_parse_result`: the act's id when it is given,
      otherwise its abbreviation. */
  function ActIdText(a: ActRefNode): (r: Result<string>)
    ensures r.Ok? <==> Named(a)
    ensures r.Err? ==> r.error == ValueError
    ensures a.actId.Some? ==> r == Ok(ActIdString(a.actId.value))
    ensures a.actId.None? && a.abbreviation.Some? ==> r == Ok(a.abbreviation.value.s)
  {
    if a.actId.Some? then Ok(ActIdString(a.actId.value))
    else if a.abbreviation.Some? then Ok(a.abbreviation.value.s)
    else Err(ValueError)
  }

  predicate NoDot(s: string) {
    forall i | 0 <= i < |s| :: s[i] != '.'
  }

  /** Two act ids with numbers written without dots render differently. */
  lemma ActIdStringInjective(a: ActIdNode, b: ActIdNode)
    requires NoDot(a.year) && NoDot(a.number) && NoDot(b.year) && NoDot(b.number)
    requires ActIdString(a) == ActIdString(b)
    ensures a.year == b.year && a.number == b.number
  {
    var mid, tail := ". évi ", ". törvény";
    var ma, mb := mid + (a.number + tail), mid + (b.number + tail);
    assert ActIdString(a) == a.year + ma;
    assert ActIdString(b) == b.year + mb;
    PrefixBeforeDot(a.year, ma, b.year, mb);
    SamePrefix(mid, a.number + tail, b.number + tail);
    PrefixBeforeDot(a.number, tail, b.number, tail);
  }

  lemma SamePrefix(p: string, u: string, v: string)
    requires p + u == p + v
    ensures u == v
  {
    assert u == (p + u)[|p|..];
    assert v == (p + v)[|p|..];
  }

  /** The part before the first dot of a string is determined by it. */
  lemma PrefixBeforeDot(x: string, xs: string, y: string, ys: string)
    requires NoDot(x) && NoDot(y) && |xs| > 0 && |ys| > 0 && xs[0] == '.' && ys[0] == '.'
    requires x + xs == y + ys
    ensures x == y && xs == ys
  {
    var s := x + xs;
    assert forall k | 0 <= k < |x| :: s[k] == x[k];
    assert forall k | 0 <= k < |y| :: s[k] == y[k];
    assert s[|x|] == '.' && s[|y|] == '.';
    assert x == s[..|x|] && xs == s[|x|..];
    assert y == s[..|y|] && ys == s[|y|..];
  }

  /** The span an act reference reports: its abbreviation's if it has one,
      otherwise its id's. */
  function ActSpan(a: ActRefNode): Span
    requires Named(a)
  {
    if a.abbreviation.Some? then a.abbreviation.value.span else a.actId.value.span
  }

  function ActOnly(act: string): (r: Reference)
    ensures r.act == Some(act) && FirstSet(r) == 0 && LastSet(r) == 0
  {
    Reference(Some(act), NoPart, NoPart, NoPart, NoPart)
  }

  /** One entry of `act_references`. */
  function ActReference(a: ActRefNode): (r: Result<InTextReference>)
    ensures r.Ok? <==> Named(a)
    ensures r.Err? ==> r.error == ValueError
    ensures r.Ok? ==>
      && r.value.reference == ActOnly(ActIdText(a).value)
      && r.value.start == ActSpan(a).pos && r.value.end == ActSpan(a).endpos
  {
    if !Named(a) then Err(ValueError)
    else
      var span := ActSpan(a);
      Ok(InTextReference(span.pos, span.endpos, ActOnly(ActIdText(a).value)))
  }

  /** The act references of a list of act reference nodes, one each;
      the first unnamed one raises. */
  function ActReferencesOf(acts: seq<ActRefNode>): (r: Result<seq<InTextReference>>)
    ensures r.Ok? <==> forall i | 0 <= i < |acts| :: Named(acts[i])
    ensures r.Err? ==> r.error == ValueError
    ensures r.Ok? ==> |r.value| == |acts|
    ensures r.Ok? ==> forall i | 0 <= i < |acts| :: Ok(r.value[i]) == ActReference(acts[i])
  {
    if |acts| == 0 then Ok([])
    else
      var x :- ActReference(acts[0]);
      var rest :- ActReferencesOf(acts[1..]);
      Ok([x] + rest)
  }

  /** `act_references`: one entry per act reference of the tree, in
      traversal order. */
  function ActReferences(tree: Node): (r: Result<seq<InTextReference>>)
    ensures r.Ok? <==> forall a | a in ActRefsIn(PostOrder(tree)) :: Named(a)
    ensures r.Ok? ==> |r.value| == |ActRefsIn(PostOrder(tree))|
  {
    var acts := ActRefsIn(PostOrder(tree));
    assert forall a | a in acts :: exists i | 0 <= i < |acts| :: acts[i] == a;
    ActReferencesOf(acts)
  }

  /** The abbreviations a list of act reference nodes introduces, each
      standing for its act. */
  function AbbreviationsOf(acts: seq<ActRefNode>): (r: Result<seq<ActIdAbbreviation>>)
    ensures r.Ok? <==> forall i | 0 <= i < |acts| && acts[i].fromNowOn.Some? :: Named(acts[i])
    ensures r.Err? ==> r.error == ValueError
    ensures r.Ok? ==> forall x | x in r.value :: exists i | 0 <= i < |acts| ::
      && acts[i].fromNowOn.Some?
      && x == ActIdAbbreviation(acts[i].fromNowOn.value.s, ActIdText(acts[i]).value)
    ensures r.Ok? ==> forall i | 0 <= i < |acts| && acts[i].fromNowOn.Some? ::
      ActIdAbbreviation(acts[i].fromNowOn.value.s, ActIdText(acts[i]).value) in r.value
  {
    if |acts| == 0 then Ok([])
    else
      var a := acts[0];
      if a.fromNowOn.None? then
        AbbreviationsOf(acts[1..])
      else
        var act :- ActIdText(a);
        var rest :- AbbreviationsOf(acts[1..]);
        Ok([ActIdAbbreviation(a.fromNowOn.value.s, act)] + rest)
  }

  /** `act_id_abbreviations`. */
  function ActIdAbbreviations(tree: Node): Result<seq<ActIdAbbreviation>> {
    AbbreviationsOf(ActRefsIn(PostOrder(tree)))
  }

  // ---------------------------------------------------------------------
  // Element references

  /** `"".join(...)` of an identifier's tokens. */
  function JoinTokens(tokens: seq<string>): string {
    Flatten(tokens)
  }

  function SinglePieces(level: RefLevel, singles: seq<SingleNode>): (r: seq<Piece>)
    ensures |r| == |singles|
  {
    seq(|singles|, i requires 0 <= i < |singles| =>
      Piece(level, One(JoinTokens(singles[i].id)), singles[i].span.pos, singles[i].span.endpos))
  }

  function RangePieces(level: RefLevel, ranges: seq<RangeNode>): (r: seq<Piece>)
    ensures |r| == |ranges|
  {
    seq(|ranges|, i requires 0 <= i < |ranges| =>
      Piece(level, Pair(JoinTokens(ranges[i].first), JoinTokens(ranges[i].last)), ranges[i].span.pos, ranges[i].span.endpos))
  }

  /** `_fill_reference_collector`: level by level, the single identifiers
      and then the ranges, each with its own span. */
  function Pieces(parts: seq<RefPartNode>): seq<Piece> {
    if |parts| == 0 then []
    else SinglePieces(parts[0].level, parts[0].singles) + RangePieces(parts[0].level, parts[0].ranges) + Pieces(parts[1..])
  }

  /** `_convert_single_reference`: the in-text references one parsed
      reference stands for, all in the given act, together spanning the
      parsed reference. */
  function ConvertSingle(act: Option<string>, ref: RefNode): (r: Result<seq<InTextReference>>)
    ensures r.Ok? ==> |r.value| > 0
  {
    var c :- AddAll(Initial(act), Pieces(ref.parts));
    Ok(Iter(c, ref.span.pos, ref.span.endpos))
  }

  /** The references together span the parsed reference, and all are in
      the given act. */
  lemma ConvertSingleSpan(act: Option<string>, ref: RefNode)
    requires ConvertSingle(act, ref).Ok?
    ensures var rs := ConvertSingle(act, ref).value;
      && rs[0].start == ref.span.pos && rs[|rs| - 1].end == ref.span.endpos
      && forall i | 0 <= i < |rs| :: rs[i].reference.act == act
  {
    var c := AddAll(Initial(act), Pieces(ref.parts)).value;
    var rs := Iter(c, ref.span.pos, ref.span.endpos);
    assert forall i | 0 <= i < |rs| :: Carries(rs[i].reference, act, []);
  }

  /** The collector never emits more references than it was given pieces
      (but always at least one). */
  lemma ConvertSingleCount(act: Option<string>, ref: RefNode)
    requires ConvertSingle(act, ref).Ok?
    ensures |ConvertSingle(act, ref).value| <= if |Pieces(ref.parts)| == 0 then 1 else |Pieces(ref.parts)|
  {
    var pieces := Pieces(ref.parts);
    var c := AddAll(Initial(act), pieces).value;
    AddAllHeld(Initial(act), pieces);
    HeldBoundsExtra(c);
  }

  /** Committing keeps every held piece, and the levels emit at most one
      reference per held piece. */
  lemma HeldBoundsExtra(c: Collector)
    requires Good(c)
    ensures var slots := Commit(c).slots;
      1 + Extra(slots, 0) <= if Held(c) == 0 then 1 else Held(c)
  {
    var cc := Commit(c);
    assert Held(cc) == Held(c);
    var slots := cc.slots;
    assert Extra(slots, 0) == |slots[0]| - 1 + |slots[1]| - 1 + |slots[2]| - 1 + |slots[3]| - 1;
    forall s | 0 <= s < 4
      ensures |Committed(slots[s])| == 0 ==> |slots[s]| == 1
      ensures |Committed(slots[s])| > 0 ==> |Committed(slots[s])| == |slots[s]|
    {
    }
  }

  /** A reference to convert, with the act it is in. */
  datatype Target = Target(act: Option<string>, ref: RefNode)

  function TargetRefs(ts: seq<Target>): (r: seq<RefNode>)
    ensures |r| == |ts| && forall i | 0 <= i < |ts| :: r[i] == ts[i].ref
  {
    seq(|ts|, i requires 0 <= i < |ts| => ts[i].ref)
  }

  /** The act a compound reference names, if it names one. */
  function CompoundAct(a: Option<ActRefNode>): (r: Result<Option<string>>)
    ensures r.Ok? <==> a.None? || Named(a.value)
    ensures r.Err? ==> r.error == ValueError
  {
    if a.None? then Ok(None)
    else
      var act :- ActIdText(a.value);
      Ok(Some(act))
  }

  function TargetsIn(act: Option<string>, refs: seq<RefNode>): (r: seq<Target>)
    ensures TargetRefs(r) == refs
    ensures forall i | 0 <= i < |refs| :: r[i].act == act
  {
    seq(|refs|, i requires 0 <= i < |refs| => Target(act, refs[i]))
  }

  /** `_iterate_references_in_compound_references`: the references of each
      compound reference that has any, in the act it names. */
  function CompoundTargets(cs: seq<Node>): (r: Result<seq<Target>>)
    requires forall i | 0 <= i < |cs| :: cs[i].Compound?
    ensures r.Err? ==> r.error == ValueError
    ensures r.Ok? <==> forall i | 0 <= i < |cs| && |cs[i].refs| > 0 :: CompoundAct(cs[i].compoundAct).Ok?
  {
    if |cs| == 0 then Ok([])
    else
      var c := cs[0];
      if |c.refs| == 0 then CompoundTargets(cs[1..])
      else
        var act :- CompoundAct(c.compoundAct);
        var rest :- CompoundTargets(cs[1..]);
        Ok(TargetsIn(act, c.refs) + rest)
  }

  function OptionalTarget(act: string, ref: Option<RefNode>): seq<Target> {
    if ref.Some? then [Target(Some(act), ref.value)] else []
  }

  /** `_iterate_references_in_block_amendment`: the amended and the inserted
      reference, in the amended act. */
  function AmendmentTargets(tree: Node): (r: Result<seq<Target>>)
    requires tree.Amendment?
    ensures r.Ok? <==> Named(tree.amendmentAct)
    ensures r.Err? ==> r.error == ValueError
  {
    var act :- ActIdText(tree.amendmentAct);
    Ok(OptionalTarget(act, tree.amended) + OptionalTarget(act, tree.inserted))
  }

  /** The references the tree's structure places in an act. */
  function Handled(tree: Node): Result<seq<Target>> {
    if tree.Amendment? then AmendmentTargets(tree)
    else
      var cs := CompoundsIn(PostOrder(tree));
      assert forall i | 0 <= i < |cs| :: cs[i] in cs;
      CompoundTargets(cs)
  }

  /** The references not among `found`, without an act, in order. */
  function Leftover(refs: seq<RefNode>, found: seq<RefNode>): (r: seq<Target>)
    ensures forall t | t in r :: t.act.None? && t.ref in refs && t.ref !in found
    ensures forall x | x in refs && x !in found :: Target(None, x) in r
  {
    if |refs| == 0 then []
    else (if refs[0] in found then [] else [Target(None, refs[0])]) + Leftover(refs[1..], found)
  }

  /** `refs_to_parse`: the handled references, then every other reference
      node of the tree. */
  function ToParse(tree: Node): Result<seq<Target>> {
    var handled :- Handled(tree);
    Ok(handled + Leftover(RefsIn(PostOrder(tree)), TargetRefs(handled)))
  }

  /** The handled targets followed by the leftover references: all of
      `refs` is covered, nothing else is added, and no leftover repeats a
      handled reference. */
  lemma LeftoverAfter(handled: seq<Target>, refs: seq<RefNode>)
    ensures var ts := handled + Leftover(refs, TargetRefs(handled));
      && (forall x | x in refs :: x in TargetRefs(ts))
      && (forall x | x in TargetRefs(ts) :: x in refs || x in TargetRefs(handled))
      && (forall i, j | 0 <= i < |handled| <= j < |ts| :: ts[i].ref != ts[j].ref && ts[j].act.None?)
  {
    var rest := Leftover(refs, TargetRefs(handled));
    var ts := handled + rest;
    forall x | x in refs
      ensures x in TargetRefs(ts)
    {
      if x in TargetRefs(handled) {
        var i :| 0 <= i < |handled| && TargetRefs(handled)[i] == x;
        assert TargetRefs(ts)[i] == x;
      } else {
        var k :| 0 <= k < |rest| && rest[k] == Target(None, x);
        assert TargetRefs(ts)[|handled| + k] == x;
      }
    }
    forall x | x in TargetRefs(ts)
      ensures x in refs || x in TargetRefs(handled)
    {
      var i :| 0 <= i < |ts| && ts[i].ref == x;
      if i < |handled| {
        assert x == TargetRefs(handled)[i];
      } else {
        assert ts[i] == rest[i - |handled|];
      }
    }
    forall i, j | 0 <= i < |handled| <= j < |ts|
      ensures ts[i].ref != ts[j].ref && ts[j].act.None?
    {
      assert ts[i].ref == TargetRefs(handled)[i];
      assert ts[j] == rest[j - |handled|];
    }
  }

  /** The references converted are exactly the reference nodes of the
      tree; one the structure already placed in an act is not converted a
      second time without it. */
  lemma ToParseCovers(tree: Node)
    requires ToParse(tree).Ok?
    ensures var ts := ToParse(tree).value;
      forall x :: x in TargetRefs(ts) <==> x in RefsIn(PostOrder(tree))
    ensures var ts := ToParse(tree).value;
      var h := |Handled(tree).value|;
      && h <= |ts|
      && forall i, j | 0 <= i < h <= j < |ts| :: ts[i].ref != ts[j].ref && ts[j].act.None?
  {
    var handled := Handled(tree).value;
    var refs := RefsIn(PostOrder(tree));
    HandledInTree(tree);
    LeftoverAfter(handled, refs);
  }

  /** The references the structure places are reference nodes of the
      tree. */
  lemma HandledInTree(tree: Node)
    requires Handled(tree).Ok?
    ensures forall x | x in TargetRefs(Handled(tree).value) :: x in RefsIn(PostOrder(tree))
  {
    var all := PostOrder(tree);
    if tree.Amendment? {
      assert all == Children(tree) + [tree];
      forall x | x in TargetRefs(Handled(tree).value)
        ensures RefLeaf(x) in all
      {
        assert RefLeaf(x) in Children(tree);
      }
    } else {
      PostOrderChildrenFirst(tree);
      var cs := CompoundsIn(all);
      assert forall i | 0 <= i < |cs| :: cs[i] in cs;
      CompoundTargetsInTree(cs, all);
    }
  }

  lemma {:induction false} CompoundTargetsInTree(cs: seq<Node>, all: seq<Node>)
    requires forall i | 0 <= i < |cs| :: cs[i].Compound? && cs[i] in all
    requires ChildrenFirst(all)
    requires CompoundTargets(cs).Ok?
    ensures forall x | x in TargetRefs(CompoundTargets(cs).value) :: x in RefsIn(all)
  {
    if |cs| > 0 {
      var c := cs[0];
      CompoundTargetsInTree(cs[1..], all);
      if |c.refs| > 0 {
        var act := CompoundAct(c.compoundAct).value;
        var rest := CompoundTargets(cs[1..]).value;
        assert CompoundTargets(cs).value == TargetsIn(act, c.refs) + rest;
        forall x | x in c.refs
          ensures RefLeaf(x) in all
        {
          var k :| 0 <= k < |all| && all[k] == c;
          var j :| 0 <= j < |c.refs| && c.refs[j] == x;
          assert RefLeaf(x) == RefLeaves(c.refs)[j];
          assert RefLeaf(x) in Children(c);
          assert RefLeaf(x) in all[..k];
        }
        forall x | x in TargetRefs(CompoundTargets(cs).value)
          ensures x in RefsIn(all)
        {
          var i :| 0 <= i < |TargetsIn(act, c.refs) + rest| && (TargetsIn(act, c.refs) + rest)[i].ref == x;
          if i < |c.refs| {
            assert x == c.refs[i];
          } else {
            assert x in TargetRefs(rest);
          }
        }
      }
    }
  }

  /** The in-text references of a list of targets, one after the other. */
  function ConvertAll(ts: seq<Target>): (r: Result<seq<InTextReference>>)
    ensures r.Ok? <==> forall i | 0 <= i < |ts| :: ConvertSingle(ts[i].act, ts[i].ref).Ok?
    ensures r.Ok? ==> |r.value| >= |ts|
  {
    if |ts| == 0 then Ok([])
    else
      var first :- ConvertSingle(ts[0].act, ts[0].ref);
      var rest :- ConvertAll(ts[1..]);
      Ok(first + rest)
  }

  /** `element_references`. */
  function ElementReferences(tree: Node): Result<seq<InTextReference>> {
    var ts :- ToParse(tree);
    ConvertAll(ts)
  }

  // ---------------------------------------------------------------------
  // Block amendments

  /** One target of a block amendment converted: `None` when it does not
      come out as exactly one reference, so the sentence is not treated as
      a block amendment; otherwise the reference, if the target is there. */
  function ConvertTarget(act: string, ref: Option<RefNode>): (r: Result<Option<Option<Reference>>>)
    ensures ref.None? ==> r == Ok(Some(None))
    ensures ref.Some? ==> (r.Ok? <==> ConvertSingle(Some(act), ref.value).Ok?)
    ensures ref.Some? ==> (r == Ok(None) <==>
      ConvertSingle(Some(act), ref.value).Ok? && |ConvertSingle(Some(act), ref.value).value| != 1)
    ensures ref.Some? && r.Ok? && r.value.Some? ==>
      r.value.value.Some? && r.value.value.value.act == Some(act)
  {
    if ref.None? then Ok(Some(None))
    else
      var refs :- ConvertSingle(Some(act), ref.value);
      ConvertSingleSpan(Some(act), ref.value);
      if |refs| != 1 then Ok(None) else Ok(Some(Some(refs[0].reference)))
  }

  /** The metadata from the converted targets, once the amended one came
      out as at most one reference: an inserted reference given next to an
      amended one is read relative to it, without its own act. */
  function CombineTargets(amended: Option<Reference>, inserted: Option<Option<Reference>>): (r: Result<Option<BlockAmendmentMetadata>>)
    ensures inserted.None? ==> r == Ok(None)
    ensures inserted.Some? ==> (r.Ok? <==> amended.Some? || inserted.value.Some?)
    ensures r.Err? ==> r.error == ValueError
    ensures r.Ok? && r.value.Some? ==>
      && r.value.value.amended == amended
      && (r.value.value.inserted.Some? <==> inserted.value.Some?)
    ensures amended.None? && inserted.Some? && inserted.value.Some? ==>
      r == Ok(Some(BlockAmendmentMetadata(None, inserted.value)))
  {
    if inserted.None? then Ok(None)
    else
      var ins :=
        if amended.Some? && inserted.value.Some?
        then Some(RelativeTo(inserted.value.value.(act := None), amended.value))
        else inserted.value;
      var m :- MakeMetadata(amended, ins);
      Ok(Some(m))
  }

  /** With both targets, the inserted reference takes the amended one's
      act and its fields down to where its own start, and its own from
      there on. */
  lemma CombineBoth(a: Reference, i: Reference)
    ensures CombineTargets(Some(a), Some(Some(i))).Ok?
    ensures var m := CombineTargets(Some(a), Some(Some(i))).value;
      && m.Some? && m.value.amended == Some(a) && m.value.inserted.Some?
      && m.value.inserted.value.act == a.act
      && forall k | 1 <= k < 5 ::
        Field(m.value.inserted.value, k) == (if k < FirstSet(i.(act := None)) then Field(a, k) else Field(i, k))
  {
    var i' := i.(act := None);
    var r := RelativeTo(i', a);
    assert FirstSet(i') > 0;
    assert Field(r, 0) == Field(a, 0);
    assert CombineTargets(Some(a), Some(Some(i))) == Ok(Some(BlockAmendmentMetadata(Some(a), Some(r))));
    forall k | 1 <= k < 5
      ensures Field(i', k) == Field(i, k)
    {
    }
  }

  /** `_convert_block_amendment`: `None` when a target present does not
      come out as exactly one reference; the inserted target is converted
      only when the amended one passed. */
  function ConvertBlockAmendment(tree: Node): (r: Result<Option<BlockAmendmentMetadata>>)
    requires tree.Amendment?
    ensures r.Ok? && r.value.Some? ==>
      && (r.value.value.amended.Some? <==> tree.amended.Some?)
      && (r.value.value.inserted.Some? <==> tree.inserted.Some?)
    ensures r.Ok? && r.value.Some? && r.value.value.amended.Some? ==>
      Named(tree.amendmentAct) && r.value.value.amended.value.act == Some(ActIdText(tree.amendmentAct).value)
    ensures r.Ok? && r.value.Some? && r.value.value.inserted.Some? ==>
      Named(tree.amendmentAct) && r.value.value.inserted.value.act == Some(ActIdText(tree.amendmentAct).value)
    ensures tree.amended.None? && tree.inserted.None? ==> r.Err?
  {
    var act :- ActIdText(tree.amendmentAct);
    var amended :- ConvertTarget(act, tree.amended);
    if amended.None? then Ok(None)
    else
      var inserted :- ConvertTarget(act, tree.inserted);
      if amended.value.Some? && inserted.Some? && inserted.value.Some? then
        CombineBoth(amended.value.value, inserted.value.value);
        CombineTargets(amended.value, inserted)
      else
        CombineTargets(amended.value, inserted)
  }

  // ---------------------------------------------------------------------
  // The analysis result

  /** `GrammaticalAnalysisResult` with its attributes computed. */
  datatype Analysis = Analysis(
    tree: Node,
    actReferences: seq<InTextReference>,
    elementReferences: seq<InTextReference>,
    actIdAbbreviations: seq<ActIdAbbreviation>,
    specialExpression: Option<BlockAmendmentMetadata>)
  {
    /** `all_references`. */
    function AllReferences(): seq<InTextReference> {
      actReferences + elementReferences
    }
  }

  /** `special_expression`: block amendment metadata, for a block
      amendment sentence only. */
  function SpecialExpression(tree: Node): (r: Result<Option<BlockAmendmentMetadata>>)
    ensures !tree.Amendment? ==> r == Ok(None)
  {
    if tree.Amendment? then ConvertBlockAmendment(tree) else Ok(None)
  }

  /** The attributes, computed in the order they are declared; the first
      that raises decides the error. */
  function Analyze(tree: Node): (r: Result<Analysis>)
    ensures r.Ok? <==>
      && ActReferences(tree).Ok? && ElementReferences(tree).Ok?
      && ActIdAbbreviations(tree).Ok? && SpecialExpression(tree).Ok?
    ensures r.Ok? ==> r.value.tree == tree
    ensures ActReferences(tree).Err? ==> r == Err(ActReferences(tree).error)
  {
    var acts :- ActReferences(tree);
    var elements :- ElementReferences(tree);
    var abbreviations :- ActIdAbbreviations(tree);
    var special :- SpecialExpression(tree);
    Ok(Analysis(tree, acts, elements, abbreviations, special))
  }

  /** Once every act reference is named, no other attribute fails on an
      act: the abbreviations are computed, and the acts the structure
      places references in are known. */
  lemma ActsNamedSuffice(tree: Node)
    requires ActReferences(tree).Ok?
    ensures ActIdAbbreviations(tree).Ok?
    ensures Handled(tree).Ok?
    ensures tree.Amendment? ==> ActIdText(tree.amendmentAct).Ok?
  {
    AbbreviationsNamed(tree);
    if tree.Amendment? {
      AmendmentActNamed(tree);
    } else {
      CompoundActsNamed(tree);
    }
  }

  lemma AbbreviationsNamed(tree: Node)
    requires ActReferences(tree).Ok?
    ensures ActIdAbbreviations(tree).Ok?
  {
    var acts := ActRefsIn(PostOrder(tree));
    assert forall i | 0 <= i < |acts| :: acts[i] in acts;
  }

  lemma AmendmentActNamed(tree: Node)
    requires tree.Amendment? && ActReferences(tree).Ok?
    ensures Handled(tree).Ok? && ActIdText(tree.amendmentAct).Ok?
  {
    assert ActRefLeaf(tree.amendmentAct) in PostOrder(tree);
  }

  lemma CompoundActsNamed(tree: Node)
    requires !tree.Amendment? && ActReferences(tree).Ok?
    ensures Handled(tree).Ok?
  {
    var all := PostOrder(tree);
    PostOrderChildrenFirst(tree);
    var cs := CompoundsIn(all);
    forall i | 0 <= i < |cs| && |cs[i].refs| > 0
      ensures CompoundAct(cs[i].compoundAct).Ok?
    {
      assert cs[i] in cs;
      if cs[i].compoundAct.Some? {
        var k :| 0 <= k < |all| && all[k] == cs[i];
        assert ActRefLeaf(cs[i].compoundAct.value) in Children(cs[i]);
        assert ActRefLeaf(cs[i].compoundAct.value) in all[..k];
      }
    }
  }
}
