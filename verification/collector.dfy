/** `ReferenceCollector` of `hun_law/parsers/grammatical_analyzer.py`: the
    pieces of one parsed reference arrive one by one, each tagged with its
    level and position in the text. A piece that continues the pending one
    (same level, the next identifier) merges with it into a range; every
    other piece first commits the pending one. At the end the levels are
    emitted, deepest last, as a list of in-text references. */
module Collector {
  import opened Wrappers
  import opened Structure
  import opened Sorting

  /** The level of a reference piece, as the grammar class names it. */
  datatype RefLevel =
    | ArticleLevel
    | ParagraphLevel
    | AlphabeticPointLevel
    | NumericPointLevel
    | AlphabeticSubpointLevel
    | NumericSubpointLevel

  /** The list a level is committed to: articles, paragraphs, points (both
      kinds share it) and subpoints (likewise). */
  function Slot(l: RefLevel): (s: nat)
    ensures s < 4
  {
    match l
    case ArticleLevel => 0
    case ParagraphLevel => 1
    case AlphabeticPointLevel => 2
    case NumericPointLevel => 2
    case AlphabeticSubpointLevel => 3
    case NumericSubpointLevel => 3
  }

  /** `NAME_TO_STRUCTURE[level].next_identifier`; numeric subpoints have no
      entry in that table. */
  function LevelNext(l: RefLevel, identifier: string): Option<Result<string>> {
    match l
    case ArticleLevel => Some(ArticleNextIdentifier(identifier))
    case ParagraphLevel => Some(NextIdentifier(Paragraph, identifier))
    case AlphabeticPointLevel => Some(NextIdentifier(AlphabeticPoint, identifier))
    case NumericPointLevel => Some(NextIdentifier(NumericPoint, identifier))
    case AlphabeticSubpointLevel => Some(NextIdentifier(AlphabeticSubpoint, identifier))
    case NumericSubpointLevel => None
  }

  /** A piece's identifier: one, or a (first, last) pair. */
  datatype RefData = One(id: string) | Pair(first: string, last: string)

  function AsPart(d: Option<RefData>): (p: RefPart)
    ensures d.None? <==> p == NoPart
  {
    match d
    case None => NoPart
    case Some(One(id)) => Single(id)
    case Some(Pair(first, last)) => Range(first, last)
  }

  /** A committed piece; `Item(None, 0, 0)` is the placeholder a level
      starts with. */
  datatype Item = Item(data: Option<RefData>, start: int, end: int)

  const Placeholder := Item(None, 0, 0)

  /** `ReferenceCollectorDeferredItem`: the piece not yet committed. */
  datatype Deferred = Deferred(level: RefLevel, data: RefData, start: int, end: int)

  datatype Collector = Collector(act: Option<string>, slots: seq<seq<Item>>, deferred: Option<Deferred>)

  /** Four lists, each either the lone placeholder or committed pieces only. */
  predicate Good(c: Collector) {
    && |c.slots| == 4
    && (forall s | 0 <= s < 4 :: |c.slots[s]| > 0)
    && (forall s | 0 <= s < 4 :: c.slots[s][0].data.None? ==> |c.slots[s]| == 1)
    && (forall s, i | 0 <= s < 4 && 1 <= i < |c.slots[s]| :: c.slots[s][i].data.Some?)
  }

  /** A fresh collector, with the act its references belong to. */
  function Initial(act: Option<string>): (c: Collector)
    ensures Good(c) && c.deferred.None?
    ensures forall s | 0 <= s < 4 :: Committed(c.slots[s]) == []
  {
    Collector(act, [[Placeholder], [Placeholder], [Placeholder], [Placeholder]], None)
  }

  /** The pieces committed to a level, without the placeholder. */
  function Committed(slot: seq<Item>): seq<Item>
    requires |slot| > 0
  {
    if slot[0].data.None? then [] else slot
  }

  /** `commit_deferred_item`: the pending piece joins its level's list,
      taking the placeholder's place if that is still there. */
  function Commit(c: Collector): (r: Collector)
    requires Good(c)
    ensures Good(r) && r.deferred.None? && r.act == c.act
    ensures forall s | 0 <= s < 4 ::
      Committed(r.slots[s]) == Committed(c.slots[s]) +
        (if c.deferred.Some? && Slot(c.deferred.value.level) == s
         then [Item(Some(c.deferred.value.data), c.deferred.value.start, c.deferred.value.end)]
         else [])
  {
    match c.deferred
    case None => c
    case Some(d) =>
      var s := Slot(d.level);
      var item := Item(Some(d.data), d.start, d.end);
      var slot := c.slots[s];
      var slot' := if slot[0].data.None? then [item] else slot + [item];
      Collector(c.act, c.slots[s := slot'], None)
  }

  /** `mergeable_into_deferred`: the new piece continues the pending one.
      Computing the successor may raise. */
  function Mergeable(c: Collector, level: RefLevel, data: RefData): (r: Result<bool>)
    ensures r == Ok(true) <==>
      && c.deferred.Some? && c.deferred.value.level == level
      && c.deferred.value.data.One? && data.One?
      && LevelNext(level, c.deferred.value.data.id) == Some(Ok(data.id))
    ensures r.Err? <==>
      && c.deferred.Some? && c.deferred.value.level == level
      && c.deferred.value.data.One? && data.One?
      && LevelNext(level, c.deferred.value.data.id).Some?
      && LevelNext(level, c.deferred.value.data.id).value.Err?
  {
    match c.deferred
    case None => Ok(false)
    case Some(d) =>
      if d.level != level then Ok(false)
      else if data.Pair? || d.data.Pair? then Ok(false)
      else
        match LevelNext(level, d.data.id)
        case None => Ok(false)
        case Some(next) =>
          var n :- next;
          Ok(n == data.id)
  }

  /** `add_item`: a continuing piece turns the pending one into a range
      that is committed at once, so a range never grows further; any other
      piece commits the pending one and waits in its place. */
  function AddItem(c: Collector, level: RefLevel, data: RefData, start: int, end: int): (r: Result<Collector>)
    requires Good(c)
    ensures r.Ok? ==> Good(r.value) && r.value.act == c.act
    ensures r.Err? <==> Mergeable(c, level, data).Err?
    ensures r.Ok? && Mergeable(c, level, data) == Ok(true) ==>
      var d := c.deferred.value;
      && r.value.deferred.None?
      && forall s | 0 <= s < 4 ::
        Committed(r.value.slots[s]) == Committed(c.slots[s]) +
          (if Slot(level) == s then [Item(Some(Pair(d.data.id, data.id)), d.start, end)] else [])
    ensures r.Ok? && Mergeable(c, level, data) == Ok(false) ==>
      && r.value.deferred == Some(Deferred(level, data, start, end))
      && r.value.slots == Commit(c).slots
  {
    var m :- Mergeable(c, level, data);
    if m then
      var d := c.deferred.value;
      Ok(Commit(c.(deferred := Some(Deferred(level, Pair(d.data.id, data.id), d.start, end)))))
    else
      Ok(Commit(c).(deferred := Some(Deferred(level, data, start, end))))
  }

  /** A piece of a reference as the grammar reports it. */
  datatype Piece = Piece(level: RefLevel, data: RefData, start: int, end: int)

  /** Adding pieces one after the other. */
  function AddAll(c: Collector, pieces: seq<Piece>): (r: Result<Collector>)
    requires Good(c)
    ensures r.Ok? ==> Good(r.value) && r.value.act == c.act
    ensures r.Ok? && |pieces| > 0 && r.value.deferred.Some? ==>
      r.value.deferred.value.data == pieces[|pieces| - 1].data
    decreases |pieces|
  {
    if |pieces| == 0 then Ok(c)
    else
      var p := pieces[0];
      var c' :- AddItem(c, p.level, p.data, p.start, p.end);
      AddAll(c', pieces[1..])
  }

  /** Pieces held by a collector: committed ones and the pending one. */
  function Held(c: Collector): nat
    requires Good(c)
  {
    |Committed(c.slots[0])| + |Committed(c.slots[1])| + |Committed(c.slots[2])| + |Committed(c.slots[3])|
      + (if c.deferred.Some? then 1 else 0)
  }

  function Pending(c: Collector): nat {
    if c.deferred.Some? then 1 else 0
  }

  /** Every piece is held once, except that a merge turns two into one; and
      a merge needs a pending piece that is not itself a merge, so at most
      every other piece merges. */
  lemma {:induction false} AddAllHeld(c: Collector, pieces: seq<Piece>)
    requires Good(c)
    requires AddAll(c, pieces).Ok?
    ensures var r := AddAll(c, pieces).value;
      && Held(c) <= Held(r) <= Held(c) + |pieces|
      && |pieces| + Pending(r) <= 2 * (Held(r) - Held(c)) + Pending(c)
    decreases |pieces|
  {
    if |pieces| > 0 {
      var p := pieces[0];
      var c' := AddItem(c, p.level, p.data, p.start, p.end).value;
      AddItemHeld(c, p);
      AddAllHeld(c', pieces[1..]);
    }
  }

  /** A merging piece leaves the count alone and needs a pending piece; any
      other adds one and is left pending. */
  lemma AddItemHeld(c: Collector, p: Piece)
    requires Good(c)
    requires AddItem(c, p.level, p.data, p.start, p.end).Ok?
    ensures var c' := AddItem(c, p.level, p.data, p.start, p.end).value;
      if Mergeable(c, p.level, p.data) == Ok(true)
      then Held(c') == Held(c) && Pending(c) == 1 && Pending(c') == 0
      else Held(c') == Held(c) + 1 && Pending(c') == 1
  {
    var cc := Commit(c);
    assert Held(cc) == Held(c);
    if Mergeable(c, p.level, p.data) == Ok(true) {
      var d := c.deferred.value;
      var merged := c.(deferred := Some(Deferred(p.level, Pair(d.data.id, p.data.id), d.start, p.end)));
      assert Held(merged) == Held(c);
      assert Held(Commit(merged)) == Held(merged);
    }
  }

  // ---------------------------------------------------------------------
  // Emitting the references

  /** The key of `level_vals.sort(key=lambda x: x[1])`. */
  function ByStart(a: Item, b: Item): bool {
    a.start <= b.start
  }

  predicate SortedByStart(s: seq<Item>) {
    forall i, j | 0 <= i < j < |s| :: s[i].start <= s[j].start
  }

  /** `level_vals.sort(key=lambda x: x[1])`: a stable sort by start. */
  function SortByStart(s: seq<Item>): (r: seq<Item>)
    ensures |r| == |s|
  {
    Sort(s, ByStart)
  }

  /** The sorted items are those of the level, ordered by start. */
  lemma SortByStartCorrect(s: seq<Item>)
    ensures SortedByStart(SortByStart(s)) && multiset(SortByStart(s)) == multiset(s)
  {
    assert TotalPreorder(ByStart);
    SortCorrect(s, ByStart);
  }

  /** The reference with the act and the given leading fields, the rest
      unset. */
  function MakeRef(act: Option<string>, fields: seq<RefPart>): (r: Reference)
    requires |fields| <= 4
    ensures r.act == act
    ensures forall k | 0 <= k < |fields| :: Field(r, k + 1) == fields[k]
    ensures forall k | |fields| < k < 5 :: Field(r, k) == NoPart
  {
    Reference(
      act,
      if |fields| > 0 then fields[0] else NoPart,
      if |fields| > 1 then fields[1] else NoPart,
      if |fields| > 2 then fields[2] else NoPart,
      if |fields| > 3 then fields[3] else NoPart)
  }

  /** The references a level emits for all but its last piece; the first
      one takes over the start carried in. */
  function LevelRefs(act: Option<string>, fields: seq<RefPart>, init: seq<Item>, start: int): (r: seq<InTextReference>)
    requires |fields| < 4
    ensures |r| == |init|
    ensures forall i | 0 <= i < |init| ::
      && r[i].start == (if i == 0 then start else init[i].start)
      && r[i].end == init[i].end
      && r[i].reference == MakeRef(act, fields + [AsPart(init[i].data)])
  {
    seq(|init|, i requires 0 <= i < |init| =>
      InTextReference(if i == 0 then start else init[i].start, init[i].end, MakeRef(act, fields + [AsPart(init[i].data)])))
  }

  /** How many references the levels from `k` on add beyond one. */
  function Extra(slots: seq<seq<Item>>, k: nat): nat
    requires |slots| == 4 && k <= 4
    requires forall s | 0 <= s < 4 :: |slots[s]| > 0
    decreases 4 - k
  {
    if k == 4 then 0 else |slots[k]| - 1 + Extra(slots, k + 1)
  }

  /** The loop of `iter` from level `k` on. A level with one entry only
      fills its field; a longer one is sorted and emits a reference for
      every piece but the last, whose identifier then fills the field and
      whose start is carried on. The last reference ends at `end`. */
  function IterFrom(act: Option<string>, slots: seq<seq<Item>>, k: nat, fields: seq<RefPart>, start: int, end: int)
    : (r: seq<InTextReference>)
    requires |slots| == 4 && k <= 4 && |fields| == k
    requires forall s | 0 <= s < 4 :: |slots[s]| > 0
    ensures |r| == 1 + Extra(slots, k)
    ensures r[0].start == start && r[|r| - 1].end == end
    decreases 4 - k
  {
    if k == 4 then [InTextReference(start, end, MakeRef(act, fields))]
    else
      var level := slots[k];
      if |level| == 1 then IterFrom(act, slots, k + 1, fields + [AsPart(level[0].data)], start, end)
      else
        var sorted := SortByStart(level);
        var last := sorted[|sorted| - 1];
        var rest := IterFrom(act, slots, k + 1, fields + [AsPart(last.data)], last.start, end);
        LevelRefs(act, fields, sorted[..|sorted| - 1], start) + rest
  }

  /** A reference names `act` and, below it, the fields `fields`. */
  predicate Carries(r: Reference, act: Option<string>, fields: seq<RefPart>) {
    r.act == act && forall j | 0 <= j < |fields| && j < 4 :: Field(r, j + 1) == fields[j]
  }

  lemma CarriesPrefix(r: Reference, act: Option<string>, fields: seq<RefPart>, x: RefPart)
    requires Carries(r, act, fields + [x])
    ensures Carries(r, act, fields)
  {
    forall j | 0 <= j < |fields| && j < 4
      ensures Field(r, j + 1) == fields[j]
    {
      assert (fields + [x])[j] == fields[j];
    }
  }

  /** Every reference of `rs` carries `act` and `fields`. */
  predicate AllCarry(rs: seq<InTextReference>, act: Option<string>, fields: seq<RefPart>) {
    forall i | 0 <= i < |rs| :: Carries(rs[i].reference, act, fields)
  }

  lemma AllCarryAppend(a: seq<InTextReference>, b: seq<InTextReference>, act: Option<string>, fields: seq<RefPart>)
    requires AllCarry(a, act, fields) && AllCarry(b, act, fields)
    ensures AllCarry(a + b, act, fields)
  {
    forall i | 0 <= i < |a + b|
      ensures Carries((a + b)[i].reference, act, fields)
    {
      if i >= |a| {
        assert (a + b)[i] == b[i - |a|];
      }
    }
  }

  lemma AllCarryPrefix(rs: seq<InTextReference>, act: Option<string>, fields: seq<RefPart>, x: RefPart)
    requires AllCarry(rs, act, fields + [x])
    ensures AllCarry(rs, act, fields)
  {
    forall i | 0 <= i < |rs|
      ensures Carries(rs[i].reference, act, fields)
    {
      CarriesPrefix(rs[i].reference, act, fields, x);
    }
  }

  /** The references a level emits carry the fields fixed above it. */
  lemma LevelRefsCarry(act: Option<string>, fields: seq<RefPart>, init: seq<Item>, start: int)
    requires |fields| < 4
    ensures AllCarry(LevelRefs(act, fields, init, start), act, fields)
  {
    var rs := LevelRefs(act, fields, init, start);
    forall i | 0 <= i < |rs|
      ensures Carries(rs[i].reference, act, fields)
    {
      var y := AsPart(init[i].data);
      MakeRefCarries(act, fields + [y]);
      CarriesPrefix(rs[i].reference, act, fields, y);
    }
  }

  /** Every emitted reference names the collector's act and the fields
      fixed before level `k`. */
  lemma {:induction false} IterFromFields(act: Option<string>, slots: seq<seq<Item>>, k: nat, fields: seq<RefPart>, start: int, end: int)
    requires |slots| == 4 && k <= 4 && |fields| == k
    requires forall s | 0 <= s < 4 :: |slots[s]| > 0
    ensures AllCarry(IterFrom(act, slots, k, fields, start, end), act, fields)
    decreases 4 - k
  {
    if k < 4 {
      var level := slots[k];
      if |level| == 1 {
        var x := AsPart(level[0].data);
        IterFromFields(act, slots, k + 1, fields + [x], start, end);
        AllCarryPrefix(IterFrom(act, slots, k + 1, fields + [x], start, end), act, fields, x);
      } else {
        var sorted := SortByStart(level);
        var last := sorted[|sorted| - 1];
        var x := AsPart(last.data);
        var rest := IterFrom(act, slots, k + 1, fields + [x], last.start, end);
        IterFromFields(act, slots, k + 1, fields + [x], last.start, end);
        AllCarryPrefix(rest, act, fields, x);
        LevelRefsCarry(act, fields, sorted[..|sorted| - 1], start);
        AllCarryAppend(LevelRefs(act, fields, sorted[..|sorted| - 1], start), rest, act, fields);
      }
    } else {
      MakeRefCarries(act, fields);
    }
  }

  lemma MakeRefCarries(act: Option<string>, fields: seq<RefPart>)
    requires |fields| <= 4
    ensures Carries(MakeRef(act, fields), act, fields)
  {
  }

  /** `iter`: commits the pending piece and emits the references; the
      first starts at `start` and the last ends at `end`. */
  function Iter(c: Collector, start: int, end: int): (r: seq<InTextReference>)
    requires Good(c)
    ensures |r| == 1 + Extra(Commit(c).slots, 0)
    ensures r[0].start == start && r[|r| - 1].end == end
    ensures AllCarry(r, c.act, [])
  {
    var c' := Commit(c);
    IterFromFields(c'.act, c'.slots, 0, [], start, end);
    IterFrom(c'.act, c'.slots, 0, [], start, end)
  }

  /** A single reference comes out exactly when no level received more
      than one piece. */
  lemma IterSingle(c: Collector, start: int, end: int)
    requires Good(c)
    ensures |Iter(c, start, end)| == 1 <==> forall s | 0 <= s < 4 :: |Committed(Commit(c).slots[s])| <= 1
  {
    var slots := Commit(c).slots;
    ExtraZero(slots);
    forall s | 0 <= s < 4
      ensures |Committed(slots[s])| <= 1 <==> |slots[s]| == 1
    {
      CommittedAtMostOne(slots[s]);
    }
  }

  /** No level holds more than one entry exactly when nothing is extra. */
  lemma ExtraZero(slots: seq<seq<Item>>)
    requires |slots| == 4 && forall s | 0 <= s < 4 :: |slots[s]| > 0
    ensures Extra(slots, 0) == 0 <==> forall s | 0 <= s < 4 :: |slots[s]| == 1
  {
    assert Extra(slots, 0) == |slots[0]| - 1 + |slots[1]| - 1 + |slots[2]| - 1 + |slots[3]| - 1;
  }

  /** A level holds at most one committed entry exactly when it has one
      entry, the placeholder standing alone. */
  lemma CommittedAtMostOne(slot: seq<Item>)
    requires |slot| > 0 && (slot[0].data.None? ==> |slot| == 1)
    ensures |Committed(slot)| <= 1 <==> |slot| == 1
  {
  }

  /** The identifier each level holds first. */
  function Heads(slots: seq<seq<Item>>): (fs: seq<RefPart>)
    requires |slots| == 4 && forall s | 0 <= s < 4 :: |slots[s]| > 0
    ensures |fs| == 4 && forall s | 0 <= s < 4 :: fs[s] == AsPart(slots[s][0].data)
  {
    [AsPart(slots[0][0].data), AsPart(slots[1][0].data), AsPart(slots[2][0].data), AsPart(slots[3][0].data)]
  }

  /** When every level has one entry, the single reference carries each
      level's identifier. */
  lemma IterSingleFields(c: Collector, start: int, end: int)
    requires Good(c)
    requires forall s | 0 <= s < 4 :: |Commit(c).slots[s]| == 1
    ensures Iter(c, start, end) == [InTextReference(start, end, MakeRef(c.act, Heads(Commit(c).slots)))]
  {
    var fs := Heads(Commit(c).slots);
    assert [] + [fs[0]] == fs[..1];
    assert fs[..1] + [fs[1]] == fs[..2];
    assert fs[..2] + [fs[2]] == fs[..3];
    assert fs[..3] + [fs[3]] == fs;
  }

  /** A non-final reference at level `k` names the last identifier of every
      shallower level and nothing deeper. */
  lemma IterFromLevel(act: Option<string>, slots: seq<seq<Item>>, k: nat, fields: seq<RefPart>, start: int, end: int)
    requires |slots| == 4 && k < 4 && |fields| == k
    requires forall s | 0 <= s < 4 :: |slots[s]| > 0
    requires |slots[k]| > 1
    ensures var r := IterFrom(act, slots, k, fields, start, end);
      var sorted := SortByStart(slots[k]);
      forall i | 0 <= i < |slots[k]| - 1 ::
        && r[i].reference == MakeRef(act, fields + [AsPart(sorted[i].data)])
        && LastSet(r[i].reference) <= k + 1
  {
  }
}
