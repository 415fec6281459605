/** The conversion service of text-conversion.ts as an object: the namespace it
    keys under, the edits planned by `processConversions`, and
    `applyConversionFromPreview`, which sorts the planned edits from the end of
    the document backwards and runs both context fix-ups on each. The editor
    itself is left out: its presence is a flag, the document is its text and
    the result is the list of edits handed to the editor, in order. */
module ConversionService {
  import opened Wrappers
  import opened Seqs
  import opened Interpolation
  import opened KeyGeneration
  import opened Conversion
  import opened ContextFixups

  /** The ranges whose text is `text`, in their order (`ranges.filter`). */
  function MatchingRanges(ranges: seq<TextRange>, text: string): (rs: seq<TextRange>)
    ensures forall k :: 0 <= k < |rs| ==> rs[k] in ranges && rs[k].text == text
    ensures forall r :: r in ranges && r.text == text ==> r in rs
    decreases |ranges|
  {
    if ranges == [] then []
    else if ranges[0].text == text then [ranges[0]] + MatchingRanges(ranges[1..], text)
    else MatchingRanges(ranges[1..], text)
  }

  /** The ranges in the order the planner visits them: for each text in
      turn, the ranges that hold it. */
  function Candidates(texts: seq<string>, ranges: seq<TextRange>): (cs: seq<TextRange>)
    ensures forall k :: 0 <= k < |cs| ==> cs[k] in ranges && cs[k].text in texts
    ensures forall r :: r in ranges && r.text in texts ==> r in cs
    decreases |texts|
  {
    if texts == [] then []
    else
      var init := texts[..|texts| - 1];
      var cs := Candidates(init, ranges);
      assert forall t :: t in init ==> t in texts;
      assert forall t :: t in texts ==> t in init || t == texts[|texts| - 1] by {
        assert texts == init + [texts[|texts| - 1]];
      }
      cs + MatchingRanges(ranges, texts[|texts| - 1])
  }

  /** The conversion the planner applies to a text: `convertTextWithVariables`
      under a namespace and a file type. */
  type Converter = string -> string

  function ConverterOf(h: Hooks, namespace: string, ft: FileType): Converter {
    text => ConvertTextWithVariables(h, namespace, ft, text)
  }

  /** The edit planned for a range. */
  function Convert(conv: Converter, r: TextRange): Modification {
    Modification(r.start, r.end, conv(r.text))
  }

  /** The overlap test of the planner against one processed range. */
  predicate Overlaps(r: TextRange, span: (nat, nat)) {
    r.start < span.1 && r.end > span.0
  }

  /** The test `processedRanges.some(…)`. */
  predicate AnyOverlap(spans: seq<(nat, nat)>, r: TextRange) {
    exists k :: 0 <= k < |spans| && Overlaps(r, spans[k])
  }

  /** The ranges of the planned edits: `processedRanges`. */
  function Spans(mods: seq<Modification>): (spans: seq<(nat, nat)>)
    ensures |spans| == |mods|
    ensures forall k :: 0 <= k < |mods| ==> spans[k] == (mods[k].start, mods[k].end)
  {
    seq(|mods|, k requires 0 <= k < |mods| => (mods[k].start, mods[k].end))
  }

  /** One step of the planner: a range that overlaps no planned edit is planned. */
  function Step(conv: Converter, saved: seq<Modification>, r: TextRange): seq<Modification> {
    if AnyOverlap(Spans(saved), r) then saved else saved + [Convert(conv, r)]
  }

  /** The first-accepted-wins plan over the candidates in order. */
  function Plan(conv: Converter, cands: seq<TextRange>): seq<Modification>
    decreases |cands|
  {
    if cands == [] then []
    else Step(conv, Plan(conv, cands[..|cands| - 1]), cands[|cands| - 1])
  }

  /** No two edits overlap, in the planner's own sense. */
  predicate Disjoint(mods: seq<Modification>) {
    forall a, b :: 0 <= a < b < |mods| ==> !(mods[a].start < mods[b].end && mods[a].end > mods[b].start)
  }

  /** The planned edits never overlap each other. */
  lemma {:induction false} PlanDisjoint(conv: Converter, cands: seq<TextRange>)
    ensures Disjoint(Plan(conv, cands))
    decreases |cands|
  {
    if cands != [] {
      var init := cands[..|cands| - 1];
      var r := cands[|cands| - 1];
      var p := Plan(conv, init);
      PlanDisjoint(conv, init);
      assert Plan(conv, cands) == Step(conv, p, r);
      if !AnyOverlap(Spans(p), r) {
        var q := p + [Convert(conv, r)];
        forall a, b | 0 <= a < b < |q| ensures !(q[a].start < q[b].end && q[a].end > q[b].start) {
          if b == |p| {
            assert !Overlaps(r, Spans(p)[a]);
            assert q[a] == p[a] && q[b] == Convert(conv, r);
          } else {
            assert q[a] == p[a] && q[b] == p[b];
          }
        }
      }
    }
  }

  /** The plan of a longer prefix is one step of the planner after the plan of
      the shorter one. */
  lemma PlanSnoc(conv: Converter, cands: seq<TextRange>, j: nat)
    requires j < |cands|
    ensures Plan(conv, cands[..j + 1]) == Step(conv, Plan(conv, cands[..j]), cands[j])
  {
    assert cands[..j + 1][..j] == cands[..j];
  }

  lemma PlanExtend(conv: Converter, before: seq<TextRange>, more: seq<TextRange>, j: nat)
    requires j < |more|
    ensures Plan(conv, before + more[..j + 1]) == Step(conv, Plan(conv, before + more[..j]), more[j])
  {
    var c := before + more[..j + 1];
    assert c[..|c| - 1] == before + more[..j];
  }

  lemma CandidatesSnoc(texts: seq<string>, ranges: seq<TextRange>, i: nat)
    requires i < |texts|
    ensures Candidates(texts[..i + 1], ranges) == Candidates(texts[..i], ranges) + MatchingRanges(ranges, texts[i])
  {
    assert texts[..i + 1][..i] == texts[..i];
  }

  /** Planning never takes an edit back: the plan of a prefix of the
      candidates is a prefix of the whole plan. */
  lemma {:induction false} PlanPrefix(conv: Converter, cands: seq<TextRange>, j: nat)
    requires j <= |cands|
    ensures Plan(conv, cands[..j]) <= Plan(conv, cands)
    decreases |cands| - j
  {
    if j == |cands| {
      assert cands[..j] == cands;
    } else {
      PlanSnoc(conv, cands, j);
      PlanPrefix(conv, cands, j + 1);
    }
  }

  /** A candidate is left out of the plan only when it overlaps a planned edit
      that was accepted before it. */
  lemma PlanMaximal(conv: Converter, cands: seq<TextRange>)
    ensures forall j :: 0 <= j < |cands| ==>
      Convert(conv, cands[j]) in Plan(conv, cands)
      || AnyOverlap(Spans(Plan(conv, cands[..j])), cands[j])
  {
    var q := Plan(conv, cands);
    forall j | 0 <= j < |cands|
      ensures Convert(conv, cands[j]) in q || AnyOverlap(Spans(Plan(conv, cands[..j])), cands[j])
    {
      var p := Plan(conv, cands[..j]);
      PlanSnoc(conv, cands, j);
      PlanPrefix(conv, cands, j + 1);
      if !AnyOverlap(Spans(p), cands[j]) {
        var p' := Plan(conv, cands[..j + 1]);
        assert p'[|p|] == Convert(conv, cands[j]);
        assert q[|p|] == p'[|p|];
      }
    }
  }

  /** Every planned edit is the conversion of one of the candidates. */
  lemma {:induction false} PlanProvenance(conv: Converter, cands: seq<TextRange>)
    ensures forall m :: m in Plan(conv, cands) ==> exists r :: r in cands && m == Convert(conv, r)
    decreases |cands|
  {
    if cands != [] {
      var init := cands[..|cands| - 1];
      var last := cands[|cands| - 1];
      var p := Plan(conv, init);
      PlanProvenance(conv, init);
      assert Plan(conv, cands) == Step(conv, p, last);
      forall m | m in Plan(conv, cands) ensures exists r :: r in cands && m == Convert(conv, r) {
        if m in p {
          var r :| r in init && m == Convert(conv, r);
          assert r in cands;
        } else {
          assert m == Convert(conv, last) && last in cands;
        }
      }
    }
  }

  /** Every planned edit is the conversion of a range of the document that
      holds one of the texts. */
  lemma PlanFromRanges(conv: Converter, texts: seq<string>, ranges: seq<TextRange>)
    ensures forall m :: m in Plan(conv, Candidates(texts, ranges)) ==>
      exists r :: r in ranges && r.text in texts && m == Convert(conv, r)
  {
    var cands := Candidates(texts, ranges);
    PlanProvenance(conv, cands);
    forall m | m in Plan(conv, cands) ensures exists r :: r in ranges && r.text in texts && m == Convert(conv, r) {
      var r :| r in cands && m == Convert(conv, r);
      assert r in ranges && r.text in texts;
    }
  }

  /** Insert an edit before the first one that does not start after it: the
      order of a stable sort by descending start. */
  function InsertDesc(m: Modification, sorted: seq<Modification>): (r: seq<Modification>)
    ensures multiset(r) == multiset(sorted) + multiset{m}
    decreases |sorted|
  {
    if sorted == [] || sorted[0].start <= m.start then [m] + sorted
    else
      assert sorted == [sorted[0]] + sorted[1..];
      [sorted[0]] + InsertDesc(m, sorted[1..])
  }

  /** `mods.sort((a, b) => b.start - a.start)`, a stable sort. */
  function SortDesc(mods: seq<Modification>): (r: seq<Modification>)
    ensures multiset(r) == multiset(mods)
    decreases |mods|
  {
    if mods == [] then []
    else
      assert mods == [mods[0]] + mods[1..];
      InsertDesc(mods[0], SortDesc(mods[1..]))
  }

  predicate SortedDesc(mods: seq<Modification>) {
    forall a, b :: 0 <= a < b < |mods| ==> mods[a].start >= mods[b].start
  }

  lemma {:induction false} InsertDescSorted(m: Modification, sorted: seq<Modification>)
    requires SortedDesc(sorted)
    ensures SortedDesc(InsertDesc(m, sorted))
    decreases |sorted|
  {
    if !(sorted == [] || sorted[0].start <= m.start) {
      var h := sorted[0];
      var tail := sorted[1..];
      assert SortedDesc(tail) by {
        forall a, b | 0 <= a < b < |tail| ensures tail[a].start >= tail[b].start {
          assert tail[a] == sorted[a + 1] && tail[b] == sorted[b + 1];
        }
      }
      InsertDescSorted(m, tail);
      var rest := InsertDesc(m, tail);
      forall x | x in rest ensures h.start >= x.start {
        assert x in multiset(rest);
        if x != m {
          assert x in multiset(tail);
          var k :| 0 <= k < |tail| && tail[k] == x;
          assert sorted[k + 1] == x;
        }
      }
      ConsSorted(h, rest);
    }
  }

  /** An edit that starts no earlier than every one of a sorted list can
      go in front of it. */
  lemma ConsSorted(h: Modification, rest: seq<Modification>)
    requires SortedDesc(rest)
    requires forall x :: x in rest ==> h.start >= x.start
    ensures SortedDesc([h] + rest)
  {
    var r := [h] + rest;
    forall a, b | 0 <= a < b < |r| ensures r[a].start >= r[b].start {
      if a > 0 {
        assert r[a] == rest[a - 1] && r[b] == rest[b - 1];
      } else {
        assert r[b] in rest;
      }
    }
  }

  /** The sorted edits run from the end of the document backwards. */
  lemma {:induction false} SortDescSorted(mods: seq<Modification>)
    ensures SortedDesc(SortDesc(mods))
    decreases |mods|
  {
    if mods != [] {
      SortDescSorted(mods[1..]);
      InsertDescSorted(mods[0], SortDesc(mods[1..]));
    }
  }

  /** The edits that start at `v`, in order. */
  function WithStart(mods: seq<Modification>, v: nat): seq<Modification>
    decreases |mods|
  {
    if mods == [] then []
    else (if mods[0].start == v then [mods[0]] else []) + WithStart(mods[1..], v)
  }

  lemma {:induction false} InsertDescStable(m: Modification, sorted: seq<Modification>, v: nat)
    ensures WithStart(InsertDesc(m, sorted), v) == (if m.start == v then [m] else []) + WithStart(sorted, v)
    decreases |sorted|
  {
    if sorted == [] || sorted[0].start <= m.start {
      assert ([m] + sorted)[1..] == sorted;
    } else {
      var rest := InsertDesc(m, sorted[1..]);
      InsertDescStable(m, sorted[1..], v);
      assert ([sorted[0]] + rest)[1..] == rest;
      if sorted[0].start == v {
        assert m.start != v;
      }
    }
  }

  /** The sort is stable: the edits with the same start keep their order. */
  lemma {:induction false} SortDescStable(mods: seq<Modification>, v: nat)
    ensures WithStart(SortDesc(mods), v) == WithStart(mods, v)
    decreases |mods|
  {
    if mods != [] {
      SortDescStable(mods[1..], v);
      InsertDescStable(mods[0], SortDesc(mods[1..]), v);
    }
  }

  /** Both fix-ups, in the order `applyConversionFromPreview` runs them. */
  function FixUp(ft: FileType, mod: Modification, content: string): Modification {
    StringificationFix(ft, PropsBindingFix(ft, mod, content), content)
  }

  /** Both fix-ups, as a function of the edit alone. */
  function FixUpIn(ft: FileType, content: string): Modification -> Modification {
    (mod: Modification) => FixUp(ft, mod, content)
  }

  /** Both fix-ups on each edit, in order: the edits handed to the editor
      correspond one for one to the planned edits. */
  function FixAll(ft: FileType, mods: seq<Modification>, content: string): seq<Modification> {
    Map(mods, FixUpIn(ft, content))
  }

  /** In a `ts` document both fix-ups leave every edit as planned. */
  lemma FixAllTs(mods: seq<Modification>, content: string)
    ensures FixAll(Ts, mods, content) == mods
  {
    var r := FixAll(Ts, mods, content);
    forall k | 0 <= k < |mods| ensures r[k] == mods[k] {
      FixUpTs(mods[k], content);
    }
  }

  lemma FixUpTs(mod: Modification, content: string)
    ensures FixUp(Ts, mod, content) == mod
  {
  }

  /** The loop of `applyConversionFromPreview` over the sorted edits: both
      fix-ups on each, in order. */
  method FixEdits(ft: FileType, sorted: seq<Modification>, content: string) returns (edits: seq<Modification>)
    ensures edits == FixAll(ft, sorted, content)
  {
    edits := [];
    for k := 0 to |sorted|
      invariant edits == Map(sorted[..k], FixUpIn(ft, content))
    {
      var finalMod := FixOne(ft, sorted[k], content);
      MapStep(sorted, k, edits, FixUpIn(ft, content), finalMod);
      edits := edits + [finalMod];
    }
    assert sorted[..|sorted|] == sorted;
  }

  /** One turn of that loop: the attribute-binding fix-up, then the
      stringification fix-up on its result. */
  method FixOne(ft: FileType, mod: Modification, content: string) returns (finalMod: Modification)
    ensures finalMod == FixUpIn(ft, content)(mod)
  {
    finalMod := CheckAndFixPropsBinding(ft, mod, content);
    finalMod := StringificationFix(ft, finalMod, content);
  }

  class TextConversionService {
    var savedModifications: seq<Modification>
    var currentNamespace: string

    constructor()
      ensures savedModifications == [] && currentNamespace == ""
    {
      savedModifications := [];
      currentNamespace := "";
    }

    method SetNamespace(namespace: string)
      modifies this
      ensures currentNamespace == namespace
      ensures savedModifications == old(savedModifications)
    {
      currentNamespace := namespace;
    }

    function GetNamespace(): string
      reads this
    {
      currentNamespace
    }

    /** `processConversions`: without an editor nothing happens; otherwise
        the saved edits are reset and rebuilt by the first-accepted-wins plan. */
    method ProcessConversions(h: Hooks, ft: FileType, texts: seq<string>, ranges: seq<TextRange>, hasEditor: bool)
      modifies this
      ensures currentNamespace == old(currentNamespace)
      ensures hasEditor ==> savedModifications == Plan(ConverterOf(h, currentNamespace, ft), Candidates(texts, ranges))
      ensures !hasEditor ==> savedModifications == old(savedModifications)
    {
      if !hasEditor {
        return;
      }
      savedModifications := [];
      var processedRanges: seq<(nat, nat)> := [];
      var conv := ConverterOf(h, currentNamespace, ft);
      for i := 0 to |texts|
        invariant currentNamespace == old(currentNamespace)
        invariant savedModifications == Plan(conv, Candidates(texts[..i], ranges))
        invariant processedRanges == Spans(savedModifications)
      {
        var text := texts[i];
        var matchingRanges := MatchingRanges(ranges, text);
        CandidatesSnoc(texts, ranges, i);
        processedRanges := PlanRanges(conv, text, matchingRanges, Candidates(texts[..i], ranges), processedRanges);
      }
      assert texts[..|texts|] == texts;
    }

    /** The inner loop of `processConversions` over the ranges of one text:
        each range that overlaps no processed range is converted, saved and
        marked as processed. */
    method PlanRanges(conv: Converter, text: string, matchingRanges: seq<TextRange>, ghost before: seq<TextRange>,
                      processedRanges: seq<(nat, nat)>)
      returns (processed: seq<(nat, nat)>)
      modifies this
      requires savedModifications == Plan(conv, before) && processedRanges == Spans(savedModifications)
      requires forall k :: 0 <= k < |matchingRanges| ==> matchingRanges[k].text == text
      ensures savedModifications == Plan(conv, before + matchingRanges) && processed == Spans(savedModifications)
      ensures currentNamespace == old(currentNamespace)
    {
      processed := processedRanges;
      assert before + matchingRanges[..0] == before;
      for j := 0 to |matchingRanges|
        invariant currentNamespace == old(currentNamespace)
        invariant savedModifications == Plan(conv, before + matchingRanges[..j])
        invariant processed == Spans(savedModifications)
      {
        var range := matchingRanges[j];
        var isOverlapping := AnyOverlap(processed, range);
        PlanExtend(conv, before, matchingRanges, j);
        if !isOverlapping {
          var conversionPreview := conv(text);
          savedModifications := savedModifications + [Modification(range.start, range.end, conversionPreview)];
          processed := processed + [(range.start, range.end)];
        }
      }
      assert matchingRanges[..|matchingRanges|] == matchingRanges;
    }

    /** `applyConversionFromPreview`: nothing without texts, an editor or a
        known file type; otherwise the plan is computed, sorted in place by
        descending start, and each edit is fixed up in that order. */
    method ApplyConversionFromPreview(h: Hooks, fileType: Option<FileType>, texts: seq<string>, ranges: seq<TextRange>,
                                      content: string, hasEditor: bool)
      returns (edits: seq<Modification>)
      modifies this
      ensures currentNamespace == old(currentNamespace)
      ensures texts == [] || !hasEditor || fileType.None? ==>
        edits == [] && savedModifications == old(savedModifications)
      ensures texts != [] && hasEditor && fileType.Some? ==>
        var plan := Plan(ConverterOf(h, currentNamespace, fileType.value), Candidates(texts, ranges));
        savedModifications == SortDesc(plan) && edits == FixAll(fileType.value, savedModifications, content)
    {
      edits := [];
      if texts == [] || !hasEditor || fileType.None? {
        return;
      }
      var ft := fileType.value;
      ProcessConversions(h, ft, texts, ranges, true);
      if savedModifications == [] {
        return;
      }
      savedModifications := SortDesc(savedModifications);
      edits := FixEdits(ft, savedModifications, content);
    }
  }
}
