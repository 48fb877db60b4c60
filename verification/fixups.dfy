/** `hun_law/fixups/common.py`: hand-written corrections to the extracted
    lines of acts the parser cannot take as they are. Each fixup finds
    exactly one line by its content and inserts a line after it, deletes
    it, or replaces its text; finding the line zero times or more than
    once is an error.

    A fixup is named by a `Fixup` value rather than a closure; the
    registry of fixups is a map from act id to the fixups registered for
    it, in registration order. */
module Fixups {
  import opened Wrappers
  import opened Lines

  datatype Fixup =
    | AddEmptyLineAfter(needle: string)
    | DeleteLine(needle: string)
    | ReplaceLineContent(needle: string, replacement: string, needlePrevLines: Option<seq<string>>)

  type Registry = map<string, seq<Fixup>>

  /** `add_fixup`: appended to the act's list, which is created when
      missing. */
  function AddFixup(registry: Registry, id: string, f: Fixup): (r: Registry)
    ensures id in r && r[id] == (if id in registry then registry[id] else []) + [f]
    ensures forall k | k in registry && k != id :: k in r && r[k] == registry[k]
    ensures r.Keys == registry.Keys + {id}
  {
    if id in registry then registry[id := registry[id] + [f]] else registry[id := [f]]
  }

  /** The number of lines whose content is `needle`. */
  function MatchCount(body: seq<Line>, needle: string): nat {
    if |body| == 0 then 0
    else (if body[0].Content() == needle then 1 else 0) + MatchCount(body[1..], needle)
  }

  /** The only line with content `needle`. */
  predicate OnlyMatch(body: seq<Line>, needle: string, i: int) {
    && 0 <= i < |body| && body[i].Content() == needle
    && forall j | 0 <= j < |body| && j != i :: body[j].Content() != needle
  }

  /** One match means exactly one index holds the needle. */
  lemma {:induction false} SingleMatch(body: seq<Line>, needle: string)
    requires MatchCount(body, needle) == 1
    ensures exists i :: OnlyMatch(body, needle, i)
  {
    if body[0].Content() == needle {
      NoMatch(body[1..], needle);
      assert OnlyMatch(body, needle, 0) by {
        forall j | 0 < j < |body| ensures body[j].Content() != needle {
          assert body[j] == body[1..][j - 1];
        }
      }
    } else {
      SingleMatch(body[1..], needle);
      var i :| OnlyMatch(body[1..], needle, i);
      assert OnlyMatch(body, needle, i + 1) by {
        forall j | 0 < j < |body| ensures body[j] == body[1..][j - 1] { }
      }
    }
  }

  lemma {:induction false} NoMatch(body: seq<Line>, needle: string)
    requires MatchCount(body, needle) == 0
    ensures forall j | 0 <= j < |body| :: body[j].Content() != needle
  {
    if |body| > 0 {
      NoMatch(body[1..], needle);
      assert forall j | 1 <= j < |body| :: body[j] == body[1..][j - 1];
    }
  }

  // ---------------------------------------------------------------------
  // add_empty_line_after

  /** Every line, with an empty line after each one that matches. */
  function InsertAfterMatches(body: seq<Line>, needle: string): (r: seq<Line>)
    ensures |r| == |body| + MatchCount(body, needle)
  {
    if |body| == 0 then []
    else if body[0].Content() == needle then [body[0], EmptyLine] + InsertAfterMatches(body[1..], needle)
    else [body[0]] + InsertAfterMatches(body[1..], needle)
  }

  /** Without a match nothing is inserted. */
  lemma {:induction false} InsertAfterNoMatch(body: seq<Line>, needle: string)
    requires MatchCount(body, needle) == 0
    ensures InsertAfterMatches(body, needle) == body
  {
    if |body| > 0 {
      InsertAfterNoMatch(body[1..], needle);
      assert body == [body[0]] + body[1..];
    }
  }

  /** With one match, exactly one empty line goes right after it. */
  lemma {:induction false} InsertAfterSingle(body: seq<Line>, needle: string, i: int)
    requires OnlyMatch(body, needle, i)
    ensures InsertAfterMatches(body, needle) == body[..i + 1] + [EmptyLine] + body[i + 1..]
  {
    var rest := body[1..];
    if i == 0 {
      assert MatchCount(rest, needle) == 0 by {
        forall j | 0 <= j < |rest| ensures rest[j].Content() != needle {
          assert rest[j] == body[j + 1];
        }
        NoMatchCount(rest, needle);
      }
      InsertAfterNoMatch(rest, needle);
      assert body[..1] == [body[0]] && body[1..] == rest;
    } else {
      assert OnlyMatch(rest, needle, i - 1) by {
        forall j | 0 <= j < |rest| ensures rest[j] == body[j + 1] { }
      }
      InsertAfterSingle(rest, needle, i - 1);
      assert body[..i + 1] == [body[0]] + rest[..i];
      assert body[i + 1..] == rest[i..];
    }
  }

  lemma {:induction false} NoMatchCount(body: seq<Line>, needle: string)
    requires forall j | 0 <= j < |body| :: body[j].Content() != needle
    ensures MatchCount(body, needle) == 0
  {
    if |body| > 0 {
      assert forall j | 0 <= j < |body| - 1 :: body[1..][j] == body[j + 1];
      NoMatchCount(body[1..], needle);
    }
  }

  /** `add_empty_line_after(needle)`. */
  function AddEmptyLine(needle: string, body: seq<Line>): (r: Result<seq<Line>>)
    ensures r.Ok? <==> MatchCount(body, needle) == 1
    ensures r.Err? ==> r.error == ValueError
    ensures r.Ok? ==> exists i :: OnlyMatch(body, needle, i) && r.value == body[..i + 1] + [EmptyLine] + body[i + 1..]
  {
    var count := MatchCount(body, needle);
    if count != 1 then Err(ValueError)
    else
      InsertAfterOne(body, needle);
      Ok(InsertAfterMatches(body, needle))
  }

  lemma InsertAfterOne(body: seq<Line>, needle: string)
    requires MatchCount(body, needle) == 1
    ensures exists i ::
      OnlyMatch(body, needle, i) && InsertAfterMatches(body, needle) == body[..i + 1] + [EmptyLine] + body[i + 1..]
  {
    SingleMatch(body, needle);
    var i :| OnlyMatch(body, needle, i);
    InsertAfterSingle(body, needle, i);
  }

  // ---------------------------------------------------------------------
  // delete_line

  /** The lines that do not match, in order. */
  function WithoutMatches(body: seq<Line>, needle: string): (r: seq<Line>)
    ensures |r| + MatchCount(body, needle) == |body|
    ensures forall j | 0 <= j < |r| :: r[j].Content() != needle
  {
    if |body| == 0 then []
    else if body[0].Content() == needle then WithoutMatches(body[1..], needle)
    else [body[0]] + WithoutMatches(body[1..], needle)
  }

  lemma {:induction false} WithoutNoMatch(body: seq<Line>, needle: string)
    requires MatchCount(body, needle) == 0
    ensures WithoutMatches(body, needle) == body
  {
    if |body| > 0 {
      WithoutNoMatch(body[1..], needle);
      assert body == [body[0]] + body[1..];
    }
  }

  lemma {:induction false} WithoutSingle(body: seq<Line>, needle: string, i: int)
    requires OnlyMatch(body, needle, i)
    ensures WithoutMatches(body, needle) == body[..i] + body[i + 1..]
  {
    if i == 0 {
      WithoutFirstOnly(body, needle);
    } else {
      OnlyMatchTail(body, needle, i);
      WithoutSingle(body[1..], needle, i - 1);
      WithoutKeepsHead(body, needle, i);
    }
  }

  /** A head that does not match stays in front of the tail's result. */
  lemma WithoutKeepsHead(body: seq<Line>, needle: string, i: int)
    requires 0 < i < |body| && body[0].Content() != needle
    requires WithoutMatches(body[1..], needle) == body[1..][..i - 1] + body[1..][i..]
    ensures WithoutMatches(body, needle) == body[..i] + body[i + 1..]
  {
    var rest := body[1..];
    assert body[..i] == [body[0]] + rest[..i - 1];
    assert body[i + 1..] == rest[i..];
  }

  /** A lone match at the head leaves the tail. */
  lemma WithoutFirstOnly(body: seq<Line>, needle: string)
    requires OnlyMatch(body, needle, 0)
    ensures WithoutMatches(body, needle) == body[..0] + body[1..]
  {
    assert body[..0] + body[1..] == body[1..];
    var rest := body[1..];
    assert MatchCount(rest, needle) == 0 by {
      forall j | 0 <= j < |rest| ensures rest[j].Content() != needle {
        assert rest[j] == body[j + 1];
      }
      NoMatchCount(rest, needle);
    }
    WithoutNoMatch(rest, needle);
  }

  /** A lone match past the head is a lone match of the tail. */
  lemma OnlyMatchTail(body: seq<Line>, needle: string, i: int)
    requires OnlyMatch(body, needle, i) && i > 0
    ensures OnlyMatch(body[1..], needle, i - 1)
  {
    var rest := body[1..];
    forall j | 0 <= j < |rest| ensures rest[j] == body[j + 1] { }
  }

  /** `delete_line(needle)`. */
  function Delete(needle: string, body: seq<Line>): (r: Result<seq<Line>>)
    ensures r.Ok? <==> MatchCount(body, needle) == 1
    ensures r.Err? ==> r.error == ValueError
    ensures r.Ok? ==> |r.value| == |body| - 1
    ensures r.Ok? ==> exists i :: OnlyMatch(body, needle, i) && r.value == body[..i] + body[i + 1..]
  {
    var count := MatchCount(body, needle);
    if count != 1 then Err(ValueError)
    else
      WithoutOne(body, needle);
      Ok(WithoutMatches(body, needle))
  }

  lemma WithoutOne(body: seq<Line>, needle: string)
    requires MatchCount(body, needle) == 1
    ensures exists i :: OnlyMatch(body, needle, i) && WithoutMatches(body, needle) == body[..i] + body[i + 1..]
  {
    SingleMatch(body, needle);
    var i :| OnlyMatch(body, needle, i);
    WithoutSingle(body, needle, i);
  }

  /** Deleting the empty line just added gives the body back, when the
      body had no other line with empty content. */
  lemma AddThenDelete(needle: string, body: seq<Line>)
    requires AddEmptyLine(needle, body).Ok? && MatchCount(body, "") == 0
    ensures Delete("", AddEmptyLine(needle, body).value) == Ok(body)
  {
    var added := AddEmptyLine(needle, body).value;
    var i :| OnlyMatch(body, needle, i) && added == body[..i + 1] + [EmptyLine] + body[i + 1..];
    NoMatch(body, "");
    InsertedIsOnlyEmpty(body, i, added);
    OnlyMatchCount(added, "", i + 1);
    WithoutSingle(added, "", i + 1);
    InsertedRemoved(body, i, added);
  }

  /** In a body without empty contents, the inserted empty line is the only
      one. */
  lemma InsertedIsOnlyEmpty(body: seq<Line>, i: int, added: seq<Line>)
    requires 0 <= i < |body| && forall j | 0 <= j < |body| :: body[j].Content() != ""
    requires added == body[..i + 1] + [EmptyLine] + body[i + 1..]
    ensures OnlyMatch(added, "", i + 1)
  {
    forall j | 0 <= j < |added| && j != i + 1 ensures added[j].Content() != "" {
      if j <= i {
        assert added[j] == body[j];
      } else {
        assert added[j] == body[j - 1];
      }
    }
  }

  /** Cutting the inserted line out again gives the body. */
  lemma InsertedRemoved(body: seq<Line>, i: int, added: seq<Line>)
    requires 0 <= i < |body| && added == body[..i + 1] + [EmptyLine] + body[i + 1..]
    ensures added[..i + 1] + added[i + 2..] == body
  {
    assert added[..i + 1] == body[..i + 1];
    assert added[i + 2..] == body[i + 1..];
    assert body[..i + 1] + body[i + 1..] == body;
  }

  lemma {:induction false} OnlyMatchCount(body: seq<Line>, needle: string, i: int)
    requires OnlyMatch(body, needle, i)
    ensures MatchCount(body, needle) == 1
  {
    if i == 0 {
      assert forall j | 0 <= j < |body| - 1 :: body[1..][j] == body[j + 1];
      NoMatchCount(body[1..], needle);
    } else {
      assert OnlyMatch(body[1..], needle, i - 1) by {
        forall j | 0 <= j < |body| - 1 ensures body[1..][j] == body[j + 1] { }
      }
      OnlyMatchCount(body[1..], needle, i - 1);
    }
  }

  // ---------------------------------------------------------------------
  // replace_line_content

  /** The first loop: how many leading characters agree. */
  function CommonPrefixLen(needle: string, replacement: string, k: nat): (n: nat)
    requires k <= |needle| && k <= |replacement| && needle[..k] == replacement[..k]
    ensures k <= n <= |needle| && n <= |replacement|
    ensures needle[..n] == replacement[..n]
    ensures n == |needle| || n == |replacement| || needle[n] != replacement[n]
    decreases |needle| - k
  {
    if k < |needle| && k < |replacement| && needle[k] == replacement[k] then
      PrefixGrows(needle, replacement, k);
      CommonPrefixLen(needle, replacement, k + 1)
    else k
  }

  /** The second loop: how many trailing characters agree, without
      reaching into the common prefix. */
  function CommonPostfixLen(needle: string, replacement: string, prefix: nat, k: nat): (n: nat)
    requires prefix + k <= |needle| && prefix + k <= |replacement|
    requires needle[|needle| - k..] == replacement[|replacement| - k..]
    ensures k <= n && prefix + n <= |needle| && prefix + n <= |replacement|
    ensures needle[|needle| - n..] == replacement[|replacement| - n..]
    ensures prefix + n == |needle| || prefix + n == |replacement| ||
            needle[|needle| - n - 1] != replacement[|replacement| - n - 1]
    decreases |needle| - k
  {
    if PostfixAgrees(needle, replacement, prefix, k) then
      PostfixGrows(needle, replacement, k);
      CommonPostfixLen(needle, replacement, prefix, k + 1)
    else k
  }

  /** The character before a common postfix of length `k` agrees, outside
      the common prefix. */
  predicate PostfixAgrees(a: string, b: string, prefix: nat, k: nat) {
    && prefix + k + 1 <= |a| && prefix + k + 1 <= |b|
    && a[|a| - k - 1] == b[|b| - k - 1]
  }

  /** A common prefix grows by one agreeing character. */
  lemma PrefixGrows(a: string, b: string, k: nat)
    requires k < |a| && k < |b| && a[..k] == b[..k] && a[k] == b[k]
    ensures a[..k + 1] == b[..k + 1]
  {
    assert a[..k + 1] == a[..k] + [a[k]];
    assert b[..k + 1] == b[..k] + [b[k]];
  }

  /** A common postfix grows by one agreeing character. */
  lemma PostfixGrows(a: string, b: string, k: nat)
    requires k < |a| && k < |b| && a[|a| - k..] == b[|b| - k..] && a[|a| - k - 1] == b[|b| - k - 1]
    ensures a[|a| - k - 1..] == b[|b| - k - 1..]
  {
    assert a[|a| - k - 1..] == [a[|a| - k - 1]] + a[|a| - k..];
    assert b[|b| - k - 1..] == [b[|b| - k - 1]] + b[|b| - k..];
  }

  /** The common prefix and postfix of the two texts: maximal, agreeing,
      and never overlapping in either text. */
  function CommonAffixes(needle: string, replacement: string): (r: (nat, nat))
    ensures r.0 + r.1 <= |needle| && r.0 + r.1 <= |replacement|
    ensures needle[..r.0] == replacement[..r.0]
    ensures needle[|needle| - r.1..] == replacement[|replacement| - r.1..]
    ensures r.0 == |needle| || r.0 == |replacement| || needle[r.0] != replacement[r.0]
  {
    var p := CommonPrefixLen(needle, replacement, 0);
    (p, CommonPostfixLen(needle, replacement, p, 0))
  }

  /** The text of the matching line spliced: common prefix, the differing
      middle of the replacement, common postfix. */
  function SplicedText(c: string, replacement: string, prefix: nat, postfix: nat): string
    requires prefix + postfix <= |c| && prefix + postfix <= |replacement|
  {
    c[..prefix] + replacement[prefix..|replacement| - postfix] + c[|c| - postfix..]
  }

  /** `m` is `l` with the text between offsets `p` and `e` replaced by one
      part holding `middle`: the parts before offset `p`, and those from
      offset `e` to the end of the text, are `l`'s own, and the new part
      starts where the part at offset `p` started. */
  ghost predicate SplicedParts(l: Line, m: Line, p: nat, e: nat, middle: string) {
    exists i: nat, k: nat, j: nat | i <= k <= j <= |l.parts| ::
      && PrefixLen(l.parts, i) == p && PrefixLen(l.parts, k) == e && PrefixLen(l.parts, j) == |l.Content()|
      && |m.parts| == i + 1 + (j - k)
      && m.parts[..i] == l.parts[..i] && m.parts[i].content == middle && m.parts[i + 1..] == l.parts[k..j]
      && (p < |l.Content()| ==> i < |l.parts| && m.parts[i].x == l.parts[i].x)
  }

  /** The splice of `line_content_replacer` for the matching line: the line
      cut before offset `prefix`, one part holding the replacement's
      differing middle at the indent of the line cut from `prefix` on, and
      the line's last `postfix` characters. A cut inside a part raises
      ValueError, except that a postfix starting inside the last part
      comes back as the empty line and is lost. */
  function Spliced(l: Line, replacement: string, prefix: nat, postfix: nat): (r: Result<Line>)
    requires prefix + postfix <= |l.Content()| && prefix + postfix <= |replacement|
    ensures r.Err? ==> r.error == ValueError
    ensures r.Ok? ==> Boundary(l.parts, prefix) && r.value.Indent() == l.Indent()
    ensures Boundary(l.parts, prefix) && Boundary(l.parts, |l.Content()| - postfix) ==>
      && r.Ok? && r.value.Content() == SplicedText(l.Content(), replacement, prefix, postfix)
      && SplicedParts(l, r.value, prefix, |l.Content()| - postfix, replacement[prefix..|replacement| - postfix])
    ensures r.Ok? && postfix > 0 && !Boundary(l.parts, |l.Content()| - postfix) ==>
      r.value.Content() == l.Content()[..prefix] + replacement[prefix..|replacement| - postfix]
  {
    SpliceSlicesOk(l, prefix, postfix);
    var head :- Slice(l, 0, Some(prefix));
    var from :- Slice(l, prefix, None);
    var middle := replacement[prefix..|replacement| - postfix];
    var tail :- if postfix != 0 then Slice(l, -(postfix as int), None) else Ok(EmptyLine);
    SplicedProps(l, replacement, prefix, postfix, head, from, tail);
    Ok(Assemble(head, from, middle, tail, postfix))
  }

  /** What the assembled pieces of a splice are. */
  lemma SplicedProps(l: Line, replacement: string, prefix: nat, postfix: nat, head: Line, from: Line, tail: Line)
    requires prefix + postfix <= |replacement| && Cuts(l, prefix, postfix, head, from, tail)
    ensures var middle := replacement[prefix..|replacement| - postfix];
      var m := Assemble(head, from, middle, tail, postfix);
      && Boundary(l.parts, prefix) && m.Indent() == l.Indent()
      && (Boundary(l.parts, |l.Content()| - postfix) ==>
            && m.Content() == SplicedText(l.Content(), replacement, prefix, postfix)
            && SplicedParts(l, m, prefix, |l.Content()| - postfix, middle))
      && (postfix > 0 && !Boundary(l.parts, |l.Content()| - postfix) ==> m.Content() == l.Content()[..prefix] + middle)
  {
    var middle := replacement[prefix..|replacement| - postfix];
    SplicedShape(l, prefix, postfix, head, from, middle, tail);
    SplicedKeepsPostfix(l, replacement, prefix, postfix, head, from, tail);
    SplicedLosesPostfix(l, replacement, prefix, postfix, head, from, tail);
  }

  /** The spliced line from its pieces: the head, one part holding the new
      middle at the indent of `from`, and the tail when there is a common
      postfix. */
  function Assemble(head: Line, from: Line, middle: string, tail: Line, postfix: nat): Line {
    var part := Line([Part(from.Indent(), middle)]);
    if postfix != 0 then FromMultiple([head, part, tail]) else FromMultiple([head, part])
  }

  /** The cuts a splice makes of line `l`. */
  ghost predicate Cuts(l: Line, prefix: nat, postfix: nat, head: Line, from: Line, tail: Line) {
    && prefix + postfix <= |l.Content()|
    && Slice(l, 0, Some(prefix)) == Ok(head) && Slice(l, prefix, None) == Ok(from)
    && (postfix > 0 ==> Slice(l, -(postfix as int), None) == Ok(tail))
    && (postfix == 0 ==> tail == EmptyLine)
  }

  /** The three cuts of a splice succeed when the common affixes start at
      part boundaries. */
  lemma SpliceSlicesOk(l: Line, prefix: nat, postfix: nat)
    requires prefix + postfix <= |l.Content()|
    ensures Boundary(l.parts, prefix) ==> Slice(l, 0, Some(prefix)).Ok? && Slice(l, prefix, None).Ok?
    ensures postfix > 0 && Boundary(l.parts, |l.Content()| - postfix) ==> Slice(l, -(postfix as int), None).Ok?
  {
    SliceHead(l, prefix);
    if prefix < |l.Content()| {
      SliceTail(l, prefix, prefix);
    }
    if postfix > 0 {
      SliceTail(l, -(postfix as int), |l.Content()| - postfix);
    }
  }

  /** The parts of an assembled line. */
  lemma AssembleParts(head: Line, from: Line, middle: string, tail: Line, postfix: nat)
    requires postfix == 0 ==> tail == EmptyLine
    ensures Assemble(head, from, middle, tail, postfix).parts == head.parts + [Part(from.Indent(), middle)] + tail.parts
  {
    LinesPartsThree(head, Line([Part(from.Indent(), middle)]), tail);
    LinesPartsTwo(head, Line([Part(from.Indent(), middle)]));
  }

  /** A splice starts at a part boundary and keeps the line's indent. */
  lemma SplicedShape(l: Line, prefix: nat, postfix: nat, head: Line, from: Line, middle: string, tail: Line)
    requires Cuts(l, prefix, postfix, head, from, tail)
    ensures Boundary(l.parts, prefix) && Assemble(head, from, middle, tail, postfix).Indent() == l.Indent()
  {
    var i := HeadCut(l, prefix, head);
    AssembleParts(head, from, middle, tail, postfix);
    SplicedIndent(l, prefix, from, i, Assemble(head, from, middle, tail, postfix), Part(from.Indent(), middle));
  }

  /** A splice whose postfix starts at a part boundary keeps the whole
      common postfix. */
  lemma SplicedKeepsPostfix(l: Line, replacement: string, prefix: nat, postfix: nat, head: Line, from: Line, tail: Line)
    requires prefix + postfix <= |replacement| && Cuts(l, prefix, postfix, head, from, tail)
    ensures var middle := replacement[prefix..|replacement| - postfix];
      var m := Assemble(head, from, middle, tail, postfix);
      Boundary(l.parts, |l.Content()| - postfix) ==>
        && m.Content() == l.Content()[..prefix] + middle + l.Content()[|l.Content()| - postfix..]
        && SplicedParts(l, m, prefix, |l.Content()| - postfix, middle)
  {
    var ps, n := l.parts, |l.Content()|;
    var middle := replacement[prefix..|replacement| - postfix];
    if Boundary(ps, n - postfix) {
      var i := HeadCut(l, prefix, head);
      FromIndent(l, prefix, from, i);
      var k, j := TailCut(l, postfix, tail);
      AssembleParts(head, from, middle, tail, postfix);
      CutsOrdered(l, prefix, postfix, i, k);
      AssembledAt(l, Assemble(head, from, middle, tail, postfix), prefix, postfix, Part(from.Indent(), middle), i, k, j);
    }
  }

  /** A line made of the parts before boundary `i`, a new part and the
      parts from boundary `k` to the end of the text: `l` spliced at the
      common affixes. */
  lemma AssembledAt(l: Line, m: Line, prefix: nat, postfix: nat, part: Part, i: nat, k: nat, j: nat)
    requires prefix + postfix <= |l.Content()|
    requires i <= k <= j <= |l.parts| && m.parts == l.parts[..i] + [part] + l.parts[k..j]
    requires PrefixLen(l.parts, i) == prefix
    requires PrefixLen(l.parts, k) == |l.Content()| - postfix && PrefixLen(l.parts, j) == |l.Content()|
    requires prefix < |l.Content()| ==> i < |l.parts| && part.x == l.parts[i].x
    ensures m.Content() == l.Content()[..prefix] + part.content + l.Content()[|l.Content()| - postfix..]
    ensures SplicedParts(l, m, prefix, |l.Content()| - postfix, part.content)
  {
    SplicedAtBoundariesContent(l, m, prefix, |l.Content()| - postfix, part, i, k, j);
    SplicedAtBoundariesParts(l, m, prefix, |l.Content()| - postfix, part, i, k, j);
  }

  /** The part boundary of the prefix is no later than that of the
      postfix. */
  lemma CutsOrdered(l: Line, prefix: nat, postfix: nat, i: nat, k: nat)
    requires prefix + postfix <= |l.Content()|
    requires i == (if prefix == |l.Content()| then |l.parts| else SkipCount(l.parts, prefix))
    requires k == (if postfix == 0 then |l.parts| else SkipCount(l.parts, |l.Content()| - postfix))
    ensures i <= k
  {
    if prefix < |l.Content()| && postfix > 0 {
      SkipCountMonotone(l.parts, prefix, |l.Content()| - postfix);
    }
  }

  /** Where the line is cut from the prefix on, the cut starts with the
      part at the prefix boundary. */
  lemma FromIndent(l: Line, prefix: nat, from: Line, i: nat)
    requires prefix <= |l.Content()| && Boundary(l.parts, prefix)
    requires i == (if prefix == |l.Content()| then |l.parts| else SkipCount(l.parts, prefix))
    requires Slice(l, prefix, None) == Ok(from)
    ensures i == 0 ==> from.Indent() == l.Indent()
    ensures prefix < |l.Content()| ==> i < |l.parts| && from.Indent() == l.parts[i].x
  {
    var ps, n := l.parts, |l.Content()|;
    PrefixLenAll(ps);
    if prefix == 0 {
      assert NormalizeBounds(n, prefix, None) == (0, n);
      assert from == l;
    } else if prefix == n {
      assert from == EmptyLine;
    } else {
      SliceTail(l, prefix, prefix);
    }
  }

  /** A common postfix that starts inside the last part comes back from
      the cut as the empty line, so the splice loses it. */
  lemma SplicedLosesPostfix(l: Line, replacement: string, prefix: nat, postfix: nat, head: Line, from: Line, tail: Line)
    requires prefix + postfix <= |replacement| && Cuts(l, prefix, postfix, head, from, tail)
    ensures var middle := replacement[prefix..|replacement| - postfix];
      postfix > 0 && !Boundary(l.parts, |l.Content()| - postfix) ==>
        Assemble(head, from, middle, tail, postfix).Content() == l.Content()[..prefix] + middle
  {
    var ps, n := l.parts, |l.Content()|;
    var middle := replacement[prefix..|replacement| - postfix];
    if postfix > 0 && !Boundary(ps, n - postfix) {
      PrefixLenAll(ps);
      SliceTailInsideLastPart(l, -(postfix as int), n - postfix);
      var i := HeadCut(l, prefix, head);
      AssembleParts(head, from, middle, tail, postfix);
      CutPrefixContent(ps, i);
      PartsAroundContent(ps[..i], Part(from.Indent(), middle), []);
      assert ps[..i] + [Part(from.Indent(), middle)] + [] == ps[..i] + [Part(from.Indent(), middle)] + tail.parts;
    }
  }

  /** The head of a splice: the parts before the prefix boundary. */
  lemma HeadCut(l: Line, prefix: nat, head: Line) returns (i: nat)
    requires prefix <= |l.Content()| && Slice(l, 0, Some(prefix)) == Ok(head)
    ensures i == (if prefix == |l.Content()| then |l.parts| else SkipCount(l.parts, prefix))
    ensures i <= |l.parts| && PrefixLen(l.parts, i) == prefix && head.parts == l.parts[..i]
    ensures Boundary(l.parts, prefix)
  {
    SliceHead(l, prefix);
    i := if prefix == |l.Content()| then |l.parts| else SkipCount(l.parts, prefix);
  }

  /** The tail of a splice: the parts from the postfix boundary to the end
      of the text. */
  lemma TailCut(l: Line, postfix: nat, tail: Line) returns (k: nat, j: nat)
    requires postfix <= |l.Content()|
    requires postfix > 0 ==> Boundary(l.parts, |l.Content()| - postfix) && Slice(l, -(postfix as int), None) == Ok(tail)
    requires postfix == 0 ==> tail == EmptyLine
    ensures k <= j <= |l.parts| && tail.parts == l.parts[k..j]
    ensures PrefixLen(l.parts, k) == |l.Content()| - postfix && PrefixLen(l.parts, j) == |l.Content()|
    ensures k == (if postfix == 0 then |l.parts| else SkipCount(l.parts, |l.Content()| - postfix))
  {
    var ps, n := l.parts, |l.Content()|;
    PrefixLenAll(ps);
    if postfix == 0 {
      k, j := |ps|, |ps|;
    } else {
      SliceTail(l, -(postfix as int), n - postfix);
      k := SkipCount(ps, n - postfix);
      j :| k < j <= |ps| && PrefixLen(ps, j) == n && tail.parts == ps[k..j];
    }
  }

  /** A line built from the parts before boundary `i`, a new part, and the
      parts from boundary `k` to the end of the text holds the text around
      the new part. */
  lemma SplicedAtBoundariesContent(l: Line, m: Line, p: nat, e: nat, part: Part, i: nat, k: nat, j: nat)
    requires i <= k <= j <= |l.parts|
    requires PrefixLen(l.parts, i) == p && PrefixLen(l.parts, k) == e && PrefixLen(l.parts, j) == |l.Content()|
    requires m.parts == l.parts[..i] + [part] + l.parts[k..j]
    ensures p <= e <= |l.Content()|
    ensures m.Content() == l.Content()[..p] + part.content + l.Content()[e..]
  {
    var ps := l.parts;
    PrefixLenOrder(ps, i, k);
    CutPrefixContent(ps, i);
    CutSuffixContent(ps, k, j);
    PartsAroundContent(ps[..i], part, ps[k..j]);
  }

  /** Such a line is `l` spliced between offsets `p` and `e`. */
  lemma SplicedAtBoundariesParts(l: Line, m: Line, p: nat, e: nat, part: Part, i: nat, k: nat, j: nat)
    requires i <= k <= j <= |l.parts|
    requires PrefixLen(l.parts, i) == p && PrefixLen(l.parts, k) == e && PrefixLen(l.parts, j) == |l.Content()|
    requires m.parts == l.parts[..i] + [part] + l.parts[k..j]
    requires p < |l.Content()| ==> i < |l.parts| && part.x == l.parts[i].x
    ensures SplicedParts(l, m, p, e, part.content)
  {
    assert m.parts[..i] == l.parts[..i] && m.parts[i] == part && m.parts[i + 1..] == l.parts[k..j];
  }

  /** Boundaries further right lie at larger offsets. */
  lemma PrefixLenOrder(ps: seq<Part>, i: nat, k: nat)
    requires i <= k <= |ps|
    ensures PrefixLen(ps, i) <= PrefixLen(ps, k) <= |PartsContent(ps)|
  {
    PrefixLenAll(ps);
    PrefixLenSplit(ps, i, k);
    PrefixLenSplit(ps, k, |ps|);
  }

  /** The parts from a boundary to the end of the text hold the text from
      that boundary's offset on. */
  lemma CutSuffixContent(ps: seq<Part>, k: nat, j: nat)
    requires k <= j <= |ps| && PrefixLen(ps, j) == |PartsContent(ps)|
    ensures PrefixLen(ps, k) <= |PartsContent(ps)|
    ensures PartsContent(ps[k..j]) == PartsContent(ps)[PrefixLen(ps, k)..]
  {
    PrefixLenOrder(ps, k, j);
    if k < j {
      CutContent(ps, k, j, PrefixLen(ps, k), PrefixLen(ps, j));
    } else {
      assert ps[k..j] == [];
    }
  }

  /** The text of parts around one more part. */
  lemma PartsAroundContent(a: seq<Part>, part: Part, b: seq<Part>)
    ensures PartsContent(a + [part] + b) == PartsContent(a) + part.content + PartsContent(b)
  {
    PartsContentAppend(a + [part], b);
    PartsContentAppend(a, [part]);
    assert PartsContent([part]) == part.content + PartsContent([]);
  }

  lemma LinesPartsTwo(a: Line, b: Line)
    ensures LinesParts([a, b]) == a.parts + b.parts
  {
    assert [a, b][1..] == [b];
    assert [b][1..] == [];
    assert LinesParts([b]) == b.parts + LinesParts([]) == b.parts;
  }

  lemma LinesPartsThree(a: Line, b: Line, c: Line)
    ensures LinesParts([a, b, c]) == a.parts + b.parts + c.parts
  {
    assert [a, b, c][1..] == [b, c];
    LinesPartsTwo(b, c);
  }

  /** The parts before a boundary hold the text before it. */
  lemma CutPrefixContent(ps: seq<Part>, i: nat)
    requires i <= |ps|
    ensures PrefixLen(ps, i) <= |PartsContent(ps)|
    ensures PartsContent(ps[..i]) == PartsContent(ps)[..PrefixLen(ps, i)]
  {
    assert ps == ps[..i] + ps[i..];
    PartsContentAppend(ps[..i], ps[i..]);
  }

  /** The spliced line starts where the original did: with its first part
      when the common prefix is not empty, else with the new part, placed
      at the line's own indent. */
  lemma SplicedIndent(l: Line, prefix: nat, from: Line, i: nat, m: Line, part: Part)
    requires prefix <= |l.Content()| && Boundary(l.parts, prefix)
    requires i == (if prefix == |l.Content()| then |l.parts| else SkipCount(l.parts, prefix))
    requires Slice(l, prefix, None) == Ok(from) && part.x == from.Indent()
    requires |m.parts| > i && m.parts[..i] == l.parts[..i] && m.parts[i] == part
    ensures m.Indent() == l.Indent()
  {
    FromIndent(l, prefix, from, i);
    if i > 0 {
      assert m.parts[0] == m.parts[..i][0] == l.parts[..i][0] == l.parts[0];
    }
  }


  /** Splicing the needle with its common affixes gives the
      replacement. */
  lemma SplicedTextIsReplacement(needle: string, replacement: string)
    ensures var (p, q) := CommonAffixes(needle, replacement);
      SplicedText(needle, replacement, p, q) == replacement
  {
    var affixes := CommonAffixes(needle, replacement);
    Recombine(needle, replacement, affixes.0, affixes.1);
  }

  lemma Recombine(c: string, r: string, p: nat, q: nat)
    requires p + q <= |c| && p + q <= |r|
    requires c[..p] == r[..p] && c[|c| - q..] == r[|r| - q..]
    ensures SplicedText(c, r, p, q) == r
  {
    assert r == r[..p] + r[p..|r| - q] + r[|r| - q..];
  }

  /** `needle_prev_lines_are_same`: the lines already emitted end with the
      given contents. */
  predicate PrevLinesMatch(done: seq<Line>, prevLines: Option<seq<string>>) {
    prevLines.None? || EndsWithContents(done, prevLines.value)
  }

  /** The last lines of `done` have the contents `expected`, the last
      one last. */
  predicate EndsWithContents(done: seq<Line>, expected: seq<string>) {
    if |expected| == 0 then true
    else
      && |done| > 0 && done[|done| - 1].Content() == expected[|expected| - 1]
      && EndsWithContents(done[..|done| - 1], expected[..|expected| - 1])
  }

  /** The lines end with the expected contents exactly when the contents
      of the last `|expected|` lines are `expected`. */
  lemma {:induction false} EndsWithContentsTexts(done: seq<Line>, expected: seq<string>)
    ensures EndsWithContents(done, expected) <==>
      |done| >= |expected| && Texts(done[|done| - |expected|..]) == expected
  {
    if |expected| > 0 && |done| > 0 {
      var d', e' := done[..|done| - 1], expected[..|expected| - 1];
      EndsWithContentsTexts(d', e');
      if |done| >= |expected| {
        TextsOfLastLines(done, |expected|);
        assert expected == e' + [expected[|expected| - 1]];
      }
    } else if |expected| == 0 {
      assert Texts(done[|done|..]) == [];
    }
  }

  /** The contents of the last `n` lines: those of the `n - 1` before the
      last one, then the last one's. */
  lemma TextsOfLastLines(done: seq<Line>, n: nat)
    requires 0 < n <= |done|
    ensures Texts(done[|done| - n..]) ==
      Texts(done[..|done| - 1][|done| - n..]) + [done[|done| - 1].Content()]
  {
    var a := Texts(done[|done| - n..]);
    var b := Texts(done[..|done| - 1][|done| - n..]) + [done[|done| - 1].Content()];
    assert |a| == |b|;
    forall i | 0 <= i < |a|
      ensures a[i] == b[i]
    {
      if i < n - 1 {
        assert done[..|done| - 1][|done| - n..][i] == done[|done| - n + i];
      }
    }
  }

  /** Whether the replacing loop splices line `l`, given what it has
      emitted before. */
  predicate Hit(f: Fixup, done: seq<Line>, l: Line)
    requires f.ReplaceLineContent?
  {
    l.Content() == f.needle && PrevLinesMatch(done, f.needlePrevLines)
  }

  /** What the replacing loop produces: the lines, and the positions it
      spliced, in order. */
  datatype Pass = Pass(lines: seq<Line>, hits: seq<nat>)

  /** The replacing loop from `done` on: each remaining line is kept, or
      passed to `splice` when it is a hit; the first splice that fails
      ends the loop with its error. */
  function ReplaceFrom(done: seq<Line>, rest: seq<Line>, f: Fixup, splice: Line -> Result<Line>): (r: Result<Pass>)
    requires f.ReplaceLineContent?
    ensures r.Err? ==> exists j | 0 <= j < |rest| :: splice(rest[j]) == Err(r.error)
    ensures r.Ok? ==> |r.value.lines| == |done| + |rest| && r.value.lines[..|done|] == done
    ensures r.Ok? ==> forall k | k in r.value.hits :: |done| <= k < |done| + |rest|
    decreases |rest|
  {
    if |rest| == 0 then Ok(Pass(done, []))
    else
      var l := rest[0];
      var hit := Hit(f, done, l);
      var next :- if hit then splice(l) else Ok(l);
      var r :- ReplaceFrom(done + [next], rest[1..], f, splice);
      assert r.lines[..|done|] == done by {
        assert r.lines[..|done|] == r.lines[..|done| + 1][..|done|];
      }
      Ok(Pass(r.lines, if hit then [|done|] + r.hits else r.hits))
  }

  /** What the loop emits at one position: a line is spliced exactly when
      it is a hit given the lines emitted before it. */
  lemma {:induction false} ReplaceFromAt(done: seq<Line>, rest: seq<Line>, f: Fixup, splice: Line -> Result<Line>, j: nat)
    requires f.ReplaceLineContent?
    requires j < |rest| && ReplaceFrom(done, rest, f, splice).Ok?
    ensures var r := ReplaceFrom(done, rest, f, splice).value;
      && (|done| + j in r.hits <==> Hit(f, r.lines[..|done| + j], rest[j]))
      && (if |done| + j in r.hits then splice(rest[j]) == Ok(r.lines[|done| + j]) else r.lines[|done| + j] == rest[j])
    decreases |rest|
  {
    var l := rest[0];
    var hit := Hit(f, done, l);
    var next := if hit then splice(l).value else l;
    if j == 0 {
      ReplaceFromHead(done, rest, f, splice);
    } else {
      ReplaceFromAt(done + [next], rest[1..], f, splice, j - 1);
      ReplaceFromShift(done, rest, f, splice, j);
    }
  }

  /** The first line of the rest is spliced exactly when it is a hit. */
  lemma ReplaceFromHead(done: seq<Line>, rest: seq<Line>, f: Fixup, splice: Line -> Result<Line>)
    requires f.ReplaceLineContent?
    requires 0 < |rest| && ReplaceFrom(done, rest, f, splice).Ok?
    ensures var r := ReplaceFrom(done, rest, f, splice).value;
      && (|done| in r.hits <==> Hit(f, r.lines[..|done|], rest[0]))
      && (if |done| in r.hits then splice(rest[0]) == Ok(r.lines[|done|]) else r.lines[|done|] == rest[0])
  {
    var l := rest[0];
    var hit := Hit(f, done, l);
    var next := if hit then splice(l).value else l;
    var r := ReplaceFrom(done + [next], rest[1..], f, splice).value;
    assert r.lines[..|done| + 1] == done + [next];
    assert r.lines[..|done|] == done by {
      assert r.lines[..|done|] == r.lines[..|done| + 1][..|done|];
    }
    assert |done| !in r.hits;
  }

  /** What the loop emits at a later line is what the rest of the loop
      emits there. */
  lemma ReplaceFromShift(done: seq<Line>, rest: seq<Line>, f: Fixup, splice: Line -> Result<Line>, j: nat)
    requires f.ReplaceLineContent?
    requires 0 < j < |rest| && ReplaceFrom(done, rest, f, splice).Ok?
    requires var next := if Hit(f, done, rest[0]) then splice(rest[0]).value else rest[0];
      var r := ReplaceFrom(done + [next], rest[1..], f, splice).value;
      && (|done| + j in r.hits <==> Hit(f, r.lines[..|done| + j], rest[1..][j - 1]))
      && (if |done| + j in r.hits then splice(rest[1..][j - 1]) == Ok(r.lines[|done| + j]) else r.lines[|done| + j] == rest[1..][j - 1])
    ensures var r := ReplaceFrom(done, rest, f, splice).value;
      && (|done| + j in r.hits <==> Hit(f, r.lines[..|done| + j], rest[j]))
      && (if |done| + j in r.hits then splice(rest[j]) == Ok(r.lines[|done| + j]) else r.lines[|done| + j] == rest[j])
  {
    assert rest[1..][j - 1] == rest[j];
  }

  /** Without the gate, the loop splices every line that matches. */
  lemma {:induction false} ReplaceFromCount(done: seq<Line>, rest: seq<Line>, f: Fixup, splice: Line -> Result<Line>)
    requires f.ReplaceLineContent? && f.needlePrevLines.None?
    requires ReplaceFrom(done, rest, f, splice).Ok?
    ensures |ReplaceFrom(done, rest, f, splice).value.hits| == MatchCount(rest, f.needle)
    decreases |rest|
  {
    if |rest| > 0 {
      var l := rest[0];
      var next := if Hit(f, done, l) then splice(l).value else l;
      ReplaceFromCount(done + [next], rest[1..], f, splice);
    }
  }

  /** Without the gate, the loop fails exactly when some matching line
      cannot be spliced. */
  lemma {:induction false} ReplaceFromFails(done: seq<Line>, rest: seq<Line>, f: Fixup, splice: Line -> Result<Line>)
    requires f.ReplaceLineContent? && f.needlePrevLines.None?
    ensures ReplaceFrom(done, rest, f, splice).Ok? <==>
      forall j | 0 <= j < |rest| && rest[j].Content() == f.needle :: splice(rest[j]).Ok?
    decreases |rest|
  {
    if |rest| > 0 {
      var l := rest[0];
      var next := if Hit(f, done, l) then splice(l) else Ok(l);
      if next.Ok? {
        ReplaceFromFails(done + [next.value], rest[1..], f, splice);
        assert forall j | 1 <= j < |rest| :: rest[j] == rest[1..][j - 1];
      }
    }
  }

  /** The splice of the matching lines for a fixup, with its common
      affixes. */
  function SpliceFor(f: Fixup): (splice: Line -> Result<Line>)
    requires f.ReplaceLineContent?
    ensures forall l: Line | l.Content() == f.needle ::
      var a := CommonAffixes(f.needle, f.replacement); splice(l) == Spliced(l, f.replacement, a.0, a.1)
  {
    var a := CommonAffixes(f.needle, f.replacement);
    (l: Line) => if a.0 + a.1 <= |l.Content()| then Spliced(l, f.replacement, a.0, a.1) else Err(ValueError)
  }

  /** `replace_line_content(needle, replacement, needle_prev_lines=...)`:
      exactly one line is a hit and is spliced, every other line is kept.
      The spliced line keeps the line's indent; its text is the
      replacement, except that a common postfix starting inside the line's
      last part is lost. */
  function Replace(f: Fixup, body: seq<Line>): (r: Result<seq<Line>>)
    requires f.ReplaceLineContent?
    ensures r.Err? ==> r.error == ValueError
    ensures r.Ok? ==> |r.value| == |body|
    ensures r.Ok? ==> exists i | 0 <= i < |body| ::
      && Hit(f, r.value[..i], body[i]) && Replaced(f, body[i], r.value[i])
      && (forall j | 0 <= j < |body| && j != i :: r.value[j] == body[j] && !Hit(f, r.value[..j], body[j]))
  {
    var pass :- ReplaceFrom([], body, f, SpliceFor(f));
    if |pass.hits| != 1 then Err(ValueError)
    else
      ReplaceOne(f, body, SpliceFor(f), pass);
      Ok(pass.lines)
  }

  /** Line `m` is what replacing turns the matching line `l` into: it keeps
      `l`'s indent and the parts around the changed middle, and its text is
      the replacement whenever the common postfix starts at a part
      boundary. */
  ghost predicate Replaced(f: Fixup, l: Line, m: Line)
    requires f.ReplaceLineContent?
  {
    var a := CommonAffixes(f.needle, f.replacement);
    var n := |l.Content()|;
    && l.Content() == f.needle
    && m.Indent() == l.Indent()
    && Boundary(l.parts, a.0)
    && (Boundary(l.parts, n - a.1) ==>
          m.Content() == f.replacement && SplicedParts(l, m, a.0, n - a.1, f.replacement[a.0..|f.replacement| - a.1]))
    && (!Boundary(l.parts, n - a.1) ==> m.Content() == f.needle[..a.0] + f.replacement[a.0..|f.replacement| - a.1])
  }

  /** A successful splice of a matching line is a replacement. */
  lemma SplicedReplaced(f: Fixup, l: Line, m: Line)
    requires f.ReplaceLineContent? && l.Content() == f.needle
    requires var a := CommonAffixes(f.needle, f.replacement); Spliced(l, f.replacement, a.0, a.1) == Ok(m)
    ensures Replaced(f, l, m)
  {
    var a := CommonAffixes(f.needle, f.replacement);
    SplicedTextIsReplacement(f.needle, f.replacement);
    var n := |l.Content()|;
    if a.1 == 0 {
      PrefixLenAll(l.parts);
      assert PrefixLen(l.parts, |l.parts|) == n - a.1;
    }
  }

  lemma ReplaceOne(f: Fixup, body: seq<Line>, splice: Line -> Result<Line>, pass: Pass)
    requires f.ReplaceLineContent?
    requires forall l: Line | l.Content() == f.needle ::
      var a := CommonAffixes(f.needle, f.replacement); splice(l) == Spliced(l, f.replacement, a.0, a.1)
    requires ReplaceFrom([], body, f, splice) == Ok(pass) && |pass.hits| == 1
    ensures exists i | 0 <= i < |body| ::
      && Hit(f, pass.lines[..i], body[i]) && Replaced(f, body[i], pass.lines[i])
      && (forall j | 0 <= j < |body| && j != i :: pass.lines[j] == body[j] && !Hit(f, pass.lines[..j], body[j]))
  {
    var i := OneHit(f, body, splice, pass);
    var a := CommonAffixes(f.needle, f.replacement);
    assert Spliced(body[i], f.replacement, a.0, a.1) == Ok(pass.lines[i]);
    SplicedReplaced(f, body[i], pass.lines[i]);
  }

  /** A loop with one hit: that line is spliced, every other line is kept
      and is no hit. */
  lemma OneHit(f: Fixup, body: seq<Line>, splice: Line -> Result<Line>, pass: Pass) returns (i: nat)
    requires f.ReplaceLineContent?
    requires ReplaceFrom([], body, f, splice) == Ok(pass) && |pass.hits| == 1
    ensures i < |body| && |pass.lines| == |body|
    ensures Hit(f, pass.lines[..i], body[i]) && splice(body[i]) == Ok(pass.lines[i])
    ensures forall j | 0 <= j < |body| && j != i :: pass.lines[j] == body[j] && !Hit(f, pass.lines[..j], body[j])
  {
    i := pass.hits[0];
    assert pass.hits == [i] && i in pass.hits && i < |body|;
    ReplaceFromAt([], body, f, splice, i);
    forall j | 0 <= j < |body| && j != i
      ensures pass.lines[j] == body[j] && !Hit(f, pass.lines[..j], body[j])
    {
      ReplaceFromAt([], body, f, splice, j);
    }
  }

  /** Without the gate, replacing fails exactly when the needle's line is
      missing or repeated, or cannot be cut at the common affixes. */
  lemma ReplaceUngated(f: Fixup, body: seq<Line>)
    requires f.ReplaceLineContent? && f.needlePrevLines.None?
    ensures var a := CommonAffixes(f.needle, f.replacement);
      Replace(f, body).Ok? <==>
        && MatchCount(body, f.needle) == 1
        && forall j | 0 <= j < |body| && body[j].Content() == f.needle :: Spliced(body[j], f.replacement, a.0, a.1).Ok?
  {
    ReplaceFromFails([], body, f, SpliceFor(f));
    if ReplaceFrom([], body, f, SpliceFor(f)).Ok? {
      ReplaceFromCount([], body, f, SpliceFor(f));
    }
  }

  /** With the gate: when line `i` is the first hit, it can be spliced and
      no later line is a hit, replacing succeeds with line `i` spliced and
      every other line kept. */
  lemma ReplaceGated(f: Fixup, body: seq<Line>, i: nat, m: Line)
    requires f.ReplaceLineContent? && i < |body|
    requires var a := CommonAffixes(f.needle, f.replacement);
      a.0 + a.1 <= |body[i].Content()| && Spliced(body[i], f.replacement, a.0, a.1) == Ok(m)
    requires Hit(f, body[..i], body[i])
    requires forall j | 0 <= j < i :: !Hit(f, body[..j], body[j])
    requires forall j | i < j < |body| :: !Hit(f, body[..i] + [m] + body[i + 1..j], body[j])
    ensures Replace(f, body) == Ok(body[..i] + [m] + body[i + 1..])
  {
    SpliceForAt(f, body[i], m);
    ReplaceGatedBy(f, body, SpliceFor(f), i, m);
    ReplaceOfPass(f, body, body[..i] + [m] + body[i + 1..], i);
  }

  /** A loop that recorded one hit makes `Replace` succeed with its lines. */
  lemma ReplaceOfPass(f: Fixup, body: seq<Line>, lines: seq<Line>, i: nat)
    requires f.ReplaceLineContent? && ReplaceFrom([], body, f, SpliceFor(f)) == Ok(Pass(lines, [i]))
    ensures Replace(f, body) == Ok(lines)
  {
  }

  /** The splice `Replace` uses, on a line whose splice succeeds. */
  lemma SpliceForAt(f: Fixup, l: Line, m: Line)
    requires f.ReplaceLineContent?
    requires var a := CommonAffixes(f.needle, f.replacement);
      a.0 + a.1 <= |l.Content()| && Spliced(l, f.replacement, a.0, a.1) == Ok(m)
    ensures SpliceFor(f)(l) == Ok(m)
  {
  }

  /** The loop under any splice: with one gated hit, at `i`, the hit is
      spliced and recorded and every other line is kept. */
  lemma ReplaceGatedBy(f: Fixup, body: seq<Line>, splice: Line -> Result<Line>, i: nat, m: Line)
    requires f.ReplaceLineContent? && i < |body| && splice(body[i]) == Ok(m)
    requires Hit(f, body[..i], body[i])
    requires forall j | 0 <= j < i :: !Hit(f, body[..j], body[j])
    requires forall j | i < j < |body| :: !Hit(f, body[..i] + [m] + body[i + 1..j], body[j])
    ensures ReplaceFrom([], body, f, splice) == Ok(Pass(body[..i] + [m] + body[i + 1..], [i]))
  {
    var head, tail := body[..i], body[i + 1..];
    forall j | 0 <= j < |tail|
      ensures !Hit(f, head + [m] + tail[..j], tail[j])
    {
      assert tail[..j] == body[i + 1..i + 1 + j] && tail[j] == body[i + 1 + j];
    }
    KeepAll(f, head + [m], tail, splice);
    assert body[i..][0] == body[i] && body[i..][1..] == tail;
    SpliceStep(f, head, body[i..], splice, m, head + [m] + tail);
    forall j | 0 <= j < i
      ensures !Hit(f, [] + body[..j], body[j])
    {
      assert [] + body[..j] == body[..j];
    }
    assert [] + body[..i] == head && body[i..] == body[i..];
    KeepPrefix(f, [], body, i, splice, Pass(head + [m] + tail, [i]));
  }

  /** Lines of which none is a hit are all kept, and nothing is spliced. */
  lemma {:induction false} KeepAll(f: Fixup, done: seq<Line>, rest: seq<Line>, splice: Line -> Result<Line>)
    requires f.ReplaceLineContent?
    requires forall j | 0 <= j < |rest| :: !Hit(f, done + rest[..j], rest[j])
    ensures ReplaceFrom(done, rest, f, splice) == Ok(Pass(done + rest, []))
    decreases |rest|
  {
    if |rest| > 0 {
      var done', rest' := done + [rest[0]], rest[1..];
      forall j | 0 <= j < |rest'|
        ensures !Hit(f, done' + rest'[..j], rest'[j])
      {
        assert done' + rest'[..j] == done + rest[..j + 1] && rest'[j] == rest[j + 1];
      }
      KeepAll(f, done', rest', splice);
      assert done + rest[..0] == done;
      assert done' + rest' == done + rest;
      KeepStep(f, done, rest, splice, Pass(done + rest, []));
    } else {
      assert done + rest == done;
    }
  }

  /** A first stretch of `n` lines of which none is a hit is kept, and the
      loop carries on after it. */
  lemma {:induction false} KeepPrefix(f: Fixup, done: seq<Line>, rest: seq<Line>, n: nat, splice: Line -> Result<Line>, p: Pass)
    requires f.ReplaceLineContent? && n <= |rest|
    requires forall j | 0 <= j < n :: !Hit(f, done + rest[..j], rest[j])
    requires ReplaceFrom(done + rest[..n], rest[n..], f, splice) == Ok(p)
    ensures ReplaceFrom(done, rest, f, splice) == Ok(p)
    decreases n
  {
    if n == 0 {
      assert done + rest[..0] == done && rest[0..] == rest;
    } else {
      var done', rest' := done + [rest[0]], rest[1..];
      forall j | 0 <= j < n - 1
        ensures !Hit(f, done' + rest'[..j], rest'[j])
      {
        assert done' + rest'[..j] == done + rest[..j + 1] && rest'[j] == rest[j + 1];
      }
      assert done' + rest'[..n - 1] == done + rest[..n] && rest'[n - 1..] == rest[n..];
      KeepPrefix(f, done', rest', n - 1, splice, p);
      assert done + rest[..0] == done;
      KeepStep(f, done, rest, splice, p);
    }
  }

  /** A line that is no hit is kept as it is. */
  lemma KeepStep(f: Fixup, done: seq<Line>, rest: seq<Line>, splice: Line -> Result<Line>, p: Pass)
    requires f.ReplaceLineContent? && |rest| > 0 && !Hit(f, done, rest[0])
    requires ReplaceFrom(done + [rest[0]], rest[1..], f, splice) == Ok(p)
    ensures ReplaceFrom(done, rest, f, splice) == Ok(p)
  {
  }

  /** The one hit is spliced and its position recorded. */
  lemma SpliceStep(f: Fixup, done: seq<Line>, rest: seq<Line>, splice: Line -> Result<Line>, m: Line, lines: seq<Line>)
    requires f.ReplaceLineContent? && |rest| > 0 && Hit(f, done, rest[0]) && splice(rest[0]) == Ok(m)
    requires ReplaceFrom(done + [m], rest[1..], f, splice) == Ok(Pass(lines, []))
    ensures ReplaceFrom(done, rest, f, splice) == Ok(Pass(lines, [|done|]))
  {
    assert [|done|] + [] == [|done|];
  }

  /** The loop as written: the spliced line is built with the
      `IndentedLine` constructor, which always raises ValueError, so the
      first hit ends the loop with that error and a finished loop has
      counted no hit. */
  function ReplaceAsWrittenFrom(done: seq<Line>, rest: seq<Line>, f: Fixup): (r: Result<Pass>)
    requires f.ReplaceLineContent?
    ensures r.Err? ==> r.error == ValueError
    ensures r.Ok? ==> r.value == Pass(done + rest, [])
    decreases |rest|
  {
    if |rest| == 0 then Ok(Pass(done, []))
    else if Hit(f, done, rest[0]) then Err(ValueError)
    else
      var r :- ReplaceAsWrittenFrom(done + [rest[0]], rest[1..], f);
      assert done + rest == done + [rest[0]] + rest[1..];
      Ok(Pass(r.lines, r.hits))
  }

  /** `replace_line_content` as written: a hit raises in the constructor,
      and without a hit the count is zero and "not found" is raised. */
  function ReplaceAsWritten(f: Fixup, body: seq<Line>): (r: Result<seq<Line>>)
    requires f.ReplaceLineContent?
    ensures r == Err(ValueError)
  {
    var pass :- ReplaceAsWrittenFrom([], body, f);
    if |pass.hits| != 1 then Err(ValueError) else Ok(pass.lines)
  }

  /** A line of two parts where the change falls exactly on the second:
      the corrected replacement succeeds, the code as written raises. */
  lemma ReplaceWrittenVersusCorrected(f: Fixup, l: Line)
    requires f == ReplaceLineContent("ab", "ac", None)
    requires l == Line([Part(1.0, "a"), Part(2.0, "b")])
    ensures Replace(f, [l]) == Ok([Line([Part(1.0, "a"), Part(2.0, "c")])])
    ensures ReplaceAsWritten(f, [l]) == Err(ValueError)
  {
    var m := Line([Part(1.0, "a"), Part(2.0, "c")]);
    assert CommonAffixes(f.needle, f.replacement) == (1, 0) by {
      assert CommonPrefixLen("ab", "ac", 1) == 1;
      assert CommonPrefixLen("ab", "ac", 0) == 1;
    }
    SplicedTwoParts(l, f.replacement);
    ReplaceSingleLine(f, l, m);
  }

  /** Replacing in a one-line body whose line matches and splices. */
  lemma ReplaceSingleLine(f: Fixup, l: Line, m: Line)
    requires f.ReplaceLineContent? && f.needlePrevLines.None? && l.Content() == f.needle
    requires var a := CommonAffixes(f.needle, f.replacement); Spliced(l, f.replacement, a.0, a.1) == Ok(m)
    ensures Replace(f, [l]) == Ok([m])
  {
    var splice := SpliceFor(f);
    assert splice(l) == Ok(m);
    assert Hit(f, [], l);
    assert [l][1..] == [] && [] + [m] == [m];
    SpliceStep(f, [], [l], splice, m, [m]);
    ReplaceOfPass(f, [l], [m], 0);
  }

  /** The splice of the example line: its first part is kept and the
      second gets the new text at its own x. */
  lemma SplicedTwoParts(l: Line, replacement: string)
    requires l == Line([Part(1.0, "a"), Part(2.0, "b")]) && replacement == "ac"
    ensures l.Content() == "ab" && Spliced(l, replacement, 1, 0) == Ok(Line([Part(1.0, "a"), Part(2.0, "c")]))
  {
    var head, from := Line([Part(1.0, "a")]), Line([Part(2.0, "b")]);
    TwoPartsCuts(l);
    var middle := replacement[1..|replacement| - 0];
    assert middle == "c" by {
      assert |replacement| == 2 && replacement[1] == 'c';
    }
    assert Assemble(head, from, middle, EmptyLine, 0) == Line([Part(1.0, "a"), Part(2.0, "c")]) by {
      LinesPartsTwo(head, Line([Part(from.Indent(), middle)]));
    }
    SplicedWithoutPostfix(l, replacement, 1, head, from);
  }

  /** The cuts of the example line at offset 1. */
  lemma TwoPartsCuts(l: Line)
    requires l == Line([Part(1.0, "a"), Part(2.0, "b")])
    ensures l.Content() == "ab"
    ensures Slice(l, 0, Some(1)) == Ok(Line([Part(1.0, "a")])) && Slice(l, 1, None) == Ok(Line([Part(2.0, "b")]))
  {
    assert l.Content() == "ab" by {
      assert l.parts[1..] == [Part(2.0, "b")] && l.parts[1..][1..] == [];
    }
    assert PrefixLen(l.parts, 1) == 1 by {
      assert l.parts[..1] == [Part(1.0, "a")] && l.parts[..1][1..] == [];
    }
    assert SkipCount(l.parts, 1) == 1 by {
      assert SkipCount(l.parts[1..], 0) == 0;
    }
    assert Slice(l, 0, Some(1)) == Ok(Line([Part(1.0, "a")])) by {
      SliceHead(l, 1);
      assert l.parts[..1] == [Part(1.0, "a")];
    }
    assert Slice(l, 1, None) == Ok(Line([Part(2.0, "b")])) by {
      PrefixLenAll(l.parts);
      SliceTail(l, 1, 1);
      assert l.parts[1..2] == [Part(2.0, "b")];
    }
  }

  /** A splice without a common postfix is the head and the new part. */
  lemma SplicedWithoutPostfix(l: Line, replacement: string, prefix: nat, head: Line, from: Line)
    requires prefix <= |l.Content()| && prefix <= |replacement|
    requires Slice(l, 0, Some(prefix)) == Ok(head) && Slice(l, prefix, None) == Ok(from)
    ensures Spliced(l, replacement, prefix, 0) == Ok(Assemble(head, from, replacement[prefix..|replacement| - 0], EmptyLine, 0))
  {
  }

  // ---------------------------------------------------------------------
  // Applying the fixups

  /** One fixup on a body. */
  function Apply(f: Fixup, body: seq<Line>): (r: Result<seq<Line>>)
    ensures r.Err? ==> r.error == ValueError
  {
    match f
    case AddEmptyLineAfter(needle) => AddEmptyLine(needle, body)
    case DeleteLine(needle) => Delete(needle, body)
    case ReplaceLineContent(_, _, _) => Replace(f, body)
  }

  /** The fixups in order, each on the previous one's result; the first
      failure is reported as a ValueError. */
  function ApplyAll(fs: seq<Fixup>, body: seq<Line>): (r: Result<seq<Line>>)
    ensures r.Err? ==> r.error == ValueError
    ensures |fs| == 0 ==> r == Ok(body)
  {
    if |fs| == 0 then Ok(body)
    else
      var next := Apply(fs[0], body);
      if next.Err? then Err(ValueError) else ApplyAll(fs[1..], next.value)
  }

  /** Running two lists of fixups one after the other is running their
      concatenation. */
  lemma {:induction false} ApplyAllAppend(fs: seq<Fixup>, gs: seq<Fixup>, body: seq<Line>)
    ensures ApplyAll(fs + gs, body) ==
      (if ApplyAll(fs, body).Err? then ApplyAll(fs, body) else ApplyAll(gs, ApplyAll(fs, body).value))
  {
    if |fs| > 0 {
      assert (fs + gs)[0] == fs[0] && (fs + gs)[1..] == fs[1..] + gs;
      var next := Apply(fs[0], body);
      if next.Ok? {
        ApplyAllAppend(fs[1..], gs, next.value);
      }
    } else {
      assert fs + gs == gs;
    }
  }

  /** `do_all_fixups`: an act without registered fixups keeps its body. */
  function DoAllFixups(registry: Registry, id: string, body: seq<Line>): (r: Result<seq<Line>>)
    ensures id !in registry ==> r == Ok(body)
    ensures r.Err? ==> r.error == ValueError
  {
    if id !in registry then Ok(body) else ApplyAll(registry[id], body)
  }

  /** Registering a fixup runs it after the ones registered before, and
      changes nothing for other acts. */
  lemma AddFixupThen(registry: Registry, id: string, f: Fixup, other: string, body: seq<Line>)
    ensures var r := AddFixup(registry, id, f);
      && DoAllFixups(r, id, body) ==
           (var before := DoAllFixups(registry, id, body);
            if before.Err? then before
            else var after := Apply(f, before.value); if after.Err? then Err(ValueError) else after)
      && (other != id ==> DoAllFixups(r, other, body) == DoAllFixups(registry, other, body))
  {
    var fs := if id in registry then registry[id] else [];
    ApplyAllAppend(fs, [f], body);
    var before := ApplyAll(fs, body);
    if before.Ok? {
      assert [f][1..] == [];
    }
  }
}
