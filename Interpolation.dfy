/** The three interpolation syntaxes the extension recognises inside a piece of
    text, each written as an explicit left-to-right scanner of its regular
    expression, and the two ways the code numbers them: `extractVariables`
    (text-conversion.ts), which records variables and rewrites a template with
    first-occurrence replacement, and the value builder of the locale
    generator, which replaces every match in place. */
module Interpolation {
  import opened Wrappers
  import opened JsStrings

  /** The kinds of source file the extension converts. */
  datatype FileType = Ts | Tsx | Vue

  /** `${ … }` (every file type), `{{ … }}` (Vue) and `{ … }` not preceded by
      `$` (TSX). */
  datatype Syntax = Dollar | DoubleBrace | SingleBrace

  /** The pass that runs after the `${ … }` pass, by file type. */
  function FamilySyntax(ft: FileType): Option<Syntax> {
    match ft
    case Ts => None
    case Tsx => Some(SingleBrace)
    case Vue => Some(DoubleBrace)
  }

  function OpenLength(x: Syntax): nat {
    if x == SingleBrace then 1 else 2
  }

  function CloseLength(x: Syntax): nat {
    if x == DoubleBrace then 2 else 1
  }

  /** The opening delimiter of `x` is at `i`; for `{ … }` the look-behind
      `(?<!\$)` inspects the scanned string itself. */
  predicate OpensAt(x: Syntax, s: string, i: nat) {
    match x
    case Dollar => IsAt(s, i, "${")
    case DoubleBrace => IsAt(s, i, "{{")
    case SingleBrace => IsAt(s, i, "{") && (i == 0 || s[i - 1] != '$')
  }

  /** The regular expression of `x` (`\$\{\s*([^}]+)\s*\}`,
      `\{\{\s*([^}]+)\s*\}\}`, `(?<!\$)\{\s*([^}]+)\s*\}`) matches at `i`, and
      `j` is the closing `}`: the first one after the opening delimiter, with
      at least one character before it, followed by a second `}` for `{{ … }}`. */
  predicate ClosesAt(x: Syntax, s: string, i: nat, j: nat) {
    OpensAt(x, s, i) && i + OpenLength(x) < j < |s| && s[j] == '}'
    && (forall k :: i + OpenLength(x) <= k < j ==> s[k] != '}')
    && (x == DoubleBrace ==> j + 1 < |s| && s[j + 1] == '}')
  }

  /** One match: where it starts, the matched text and the captured group
      before trimming (leading white space that `\s*` takes is cut by the
      trimming that every caller applies). */
  datatype Occurrence = Occurrence(start: nat, whole: string, inner: string) {
    function End(): nat { start + |whole| }
  }

  /** The match of `x` at `i`, if any. */
  function MatchAt(x: Syntax, s: string, i: nat): (r: Option<Occurrence>)
    ensures r.Some? ==>
      var o := r.value;
      OpensAt(x, s, i) && o.start == i && i + OpenLength(x) + CloseLength(x) < o.End() <= |s| && o.whole == s[i..o.End()]
      && o.inner == s[i + OpenLength(x)..o.End() - CloseLength(x)] && '}' !in o.inner
  {
    if !OpensAt(x, s, i) then None
    else
      match FindFrom(s, '}', i + OpenLength(x))
      case None => None
      case Some(j) =>
        if j == i + OpenLength(x) then None
        else if x == DoubleBrace && !(j + 1 < |s| && s[j + 1] == '}') then None
        else
          var e := j + CloseLength(x);
          Some(Occurrence(i, s[i..e], s[i + OpenLength(x)..j]))
  }

  /** `MatchAt` finds a match exactly when the regular expression matches,
      and it ends just after the closing brace. */
  lemma MatchAtIsRegex(x: Syntax, s: string, i: nat)
    ensures MatchAt(x, s, i).Some? ==>
      var o := MatchAt(x, s, i).value;
      ClosesAt(x, s, i, o.End() - CloseLength(x))
    ensures MatchAt(x, s, i).None? ==> forall j :: !ClosesAt(x, s, i, j)
  {
    if OpensAt(x, s, i) {
      match FindFrom(s, '}', i + OpenLength(x))
      case None =>
      case Some(j) =>
        forall j' | ClosesAt(x, s, i, j') ensures j' == j {
        }
    }
  }

  /** `matchAll` from index `i`: the leftmost match, then the scan resumes
      where it ended; without a match at `i` the scan moves one character on. */
  function ScanFrom(x: Syntax, s: string, i: nat): (occs: seq<Occurrence>)
    requires i <= |s|
    ensures Arranged(s, i, occs)
    decreases |s| - i
  {
    if i == |s| then []
    else
      match MatchAt(x, s, i)
      case Some(o) => [o] + ScanFrom(x, s, o.End())
      case None => ScanFrom(x, s, i + 1)
  }

  function Scan(x: Syntax, s: string): seq<Occurrence> {
    ScanFrom(x, s, 0)
  }

  /** The reference reading of "leftmost, non-overlapping": no match starts
      before the first occurrence, and the rest are leftmost from where it ends;
      with no occurrences left, no match starts anywhere from `i` on. */
  predicate Leftmost(x: Syntax, s: string, i: nat, occs: seq<Occurrence>)
    decreases |occs|
  {
    if occs == [] then forall p :: i <= p < |s| ==> MatchAt(x, s, p).None?
    else
      (forall p :: i <= p < occs[0].start ==> MatchAt(x, s, p).None?)
      && Leftmost(x, s, occs[0].End(), occs[1..])
  }

  /** The scan finds the leftmost non-overlapping matches. */
  lemma {:induction false} ScanFromIsLeftmost(x: Syntax, s: string, i: nat)
    requires i <= |s|
    ensures Leftmost(x, s, i, ScanFrom(x, s, i))
    decreases |s| - i, 1
  {
    if i < |s| {
      if MatchAt(x, s, i).Some? {
        ScanAtMatchIsLeftmost(x, s, i);
      } else {
        ScanFromIsLeftmost(x, s, i + 1);
        ScanFromAtMiss(x, s, i);
        LeftmostExtend(x, s, i, ScanFrom(x, s, i + 1));
      }
    }
  }

  lemma {:induction false} ScanAtMatchIsLeftmost(x: Syntax, s: string, i: nat)
    requires i < |s| && MatchAt(x, s, i).Some?
    ensures Leftmost(x, s, i, ScanFrom(x, s, i))
    decreases |s| - i, 0
  {
    var o := MatchAt(x, s, i).value;
    ScanFromIsLeftmost(x, s, o.End());
    ScanFromAtMatch(x, s, i);
    var occs := [o] + ScanFrom(x, s, o.End());
    assert occs[0] == o && occs[1..] == ScanFrom(x, s, o.End());
  }

  lemma LeftmostExtend(x: Syntax, s: string, i: nat, occs: seq<Occurrence>)
    requires MatchAt(x, s, i).None? && Leftmost(x, s, i + 1, occs)
    ensures Leftmost(x, s, i, occs)
  {
  }

  /** Conversely, genuine matches in leftmost order from `i` are exactly what
      the scan finds: the scan is the unique such sequence. */
  lemma {:induction false} LeftmostIsScanFrom(x: Syntax, s: string, i: nat, occs: seq<Occurrence>)
    requires i <= |s|
    requires Genuine(x, s, i, occs)
    requires Leftmost(x, s, i, occs)
    ensures occs == ScanFrom(x, s, i)
    decreases |s| - i, 1
  {
    if i == |s| {
      GenuineAtEnd(x, s, i, occs);
    } else if MatchAt(x, s, i).Some? {
      LeftmostAtMatch(x, s, i, occs);
    } else {
      MissShift(x, s, i, occs);
      LeftmostIsScanFrom(x, s, i + 1, occs);
      ScanFromAtMiss(x, s, i);
    }
  }

  /** With a match at `i`, it is the first occurrence and the rest follow it. */
  lemma {:induction false} LeftmostAtMatch(x: Syntax, s: string, i: nat, occs: seq<Occurrence>)
    requires i < |s| && MatchAt(x, s, i).Some?
    requires Genuine(x, s, i, occs)
    requires Leftmost(x, s, i, occs)
    ensures occs == ScanFrom(x, s, i)
    decreases |s| - i, 0
  {
    LeftmostHead(x, s, i, occs);
    GenuineTail(x, s, i, occs);
    LeftmostIsScanFrom(x, s, occs[0].End(), occs[1..]);
    ScanFromAtMatch(x, s, i);
    assert occs == [occs[0]] + occs[1..];
  }

  /** The occurrences lie in `s` from `i` on, in order and without overlap. */
  predicate Arranged(s: string, i: nat, occs: seq<Occurrence>)
    decreases |occs|
  {
    if occs == [] then i <= |s|
    else i <= occs[0].start && occs[0].End() <= |s| && Arranged(s, occs[0].End(), occs[1..])
  }

  /** Arranged occurrences, each a match of `x` found at its start. */
  predicate Genuine(x: Syntax, s: string, i: nat, occs: seq<Occurrence>) {
    Arranged(s, i, occs) && forall k :: 0 <= k < |occs| ==> MatchAt(x, s, occs[k].start) == Some(occs[k])
  }

  /** Each occurrence the scan reports is the match at its start. */
  lemma {:induction false} ScanFromIsGenuine(x: Syntax, s: string, i: nat)
    requires i <= |s|
    ensures Genuine(x, s, i, ScanFrom(x, s, i))
    decreases |s| - i
  {
    if i < |s| {
      var m := MatchAt(x, s, i);
      if m.Some? {
        ScanFromIsGenuine(x, s, m.value.End());
        ScanFromAtMatch(x, s, i);
        GenuineCons(x, s, i, m.value, ScanFrom(x, s, m.value.End()));
      } else {
        ScanFromIsGenuine(x, s, i + 1);
        ScanFromAtMiss(x, s, i);
      }
    }
  }

  lemma GenuineCons(x: Syntax, s: string, i: nat, o: Occurrence, rest: seq<Occurrence>)
    requires MatchAt(x, s, i) == Some(o) && Genuine(x, s, o.End(), rest)
    ensures Genuine(x, s, i, [o] + rest)
  {
    var occs := [o] + rest;
    assert occs[1..] == rest;
    forall k | 0 <= k < |occs| ensures MatchAt(x, s, occs[k].start) == Some(occs[k]) {
      if k > 0 {
        assert occs[k] == rest[k - 1];
      }
    }
  }

  lemma ScanFromAtMatch(x: Syntax, s: string, i: nat)
    requires i < |s| && MatchAt(x, s, i).Some?
    ensures ScanFrom(x, s, i) == [MatchAt(x, s, i).value] + ScanFrom(x, s, MatchAt(x, s, i).value.End())
  {
  }

  lemma ScanFromAtMiss(x: Syntax, s: string, i: nat)
    requires i < |s| && MatchAt(x, s, i).None?
    ensures ScanFrom(x, s, i) == ScanFrom(x, s, i + 1)
  {
  }

  lemma LeftmostHead(x: Syntax, s: string, i: nat, occs: seq<Occurrence>)
    requires MatchAt(x, s, i).Some? && Genuine(x, s, i, occs) && Leftmost(x, s, i, occs)
    ensures occs != [] && occs[0] == MatchAt(x, s, i).value
  {
  }

  lemma GenuineTail(x: Syntax, s: string, i: nat, occs: seq<Occurrence>)
    requires occs != [] && Genuine(x, s, i, occs)
    ensures Genuine(x, s, occs[0].End(), occs[1..])
  {
  }

  /** Without a match at `i`, genuine leftmost matches from `i` are genuine
      leftmost matches from the next character. */
  lemma MissShift(x: Syntax, s: string, i: nat, occs: seq<Occurrence>)
    requires i < |s| && MatchAt(x, s, i).None?
    requires Genuine(x, s, i, occs) && Leftmost(x, s, i, occs)
    ensures Genuine(x, s, i + 1, occs) && Leftmost(x, s, i + 1, occs)
  {
    if occs != [] {
      assert MatchAt(x, s, occs[0].start) == Some(occs[0]);
    }
  }

  lemma GenuineAtEnd(x: Syntax, s: string, i: nat, occs: seq<Occurrence>)
    requires i >= |s| && Genuine(x, s, i, occs)
    ensures occs == []
  {
    if occs != [] {
      GenuineStartsInside(x, s, i, occs);
      assert false;
    }
  }

  lemma GenuineStartsInside(x: Syntax, s: string, i: nat, occs: seq<Occurrence>)
    requires occs != [] && Genuine(x, s, i, occs)
    ensures occs[0].start < |s|
  {
    assert MatchAt(x, s, occs[0].start) == Some(occs[0]);
  }

  lemma NoBraceNoOpening(x: Syntax, s: string, i: nat)
    requires '{' !in s
    ensures !OpensAt(x, s, i)
  {
    if i + OpenLength(x) <= |s| {
      var k := i + OpenLength(x) - 1;
      assert s[i..i + OpenLength(x)][OpenLength(x) - 1] == s[k];
    }
  }

  /** Without an opening brace nothing matches. */
  lemma {:induction false} NoBraceNoMatch(x: Syntax, s: string, i: nat)
    requires i <= |s| && '{' !in s
    ensures ScanFrom(x, s, i) == []
    decreases |s| - i
  {
    if i < |s| {
      NoBraceNoOpening(x, s, i);
      NoBraceNoMatch(x, s, i + 1);
    }
  }

  /** The `{N}` placeholder. */
  function Placeholder(n: nat): string {
    "{" + NatToString(n) + "}"
  }

  /** The matches `extractVariables` records, in recording order: the
      `${ … }` pass, then the pass of the file type, both over the original text. */
  function Matches(ft: FileType, text: string): seq<Occurrence> {
    Scan(Dollar, text) + FamilyMatches(ft, text)
  }

  /** The matches of the pass that depends on the file type; none for `ts`. */
  function FamilyMatches(ft: FileType, text: string): seq<Occurrence> {
    match FamilySyntax(ft)
    case None => []
    case Some(x) => Scan(x, text)
  }

  /** The trimmed captures. */
  function Names(occs: seq<Occurrence>): (names: seq<string>)
    ensures |names| == |occs|
    ensures forall k :: 0 <= k < |occs| ==> names[k] == Trim(occs[k].inner)
  {
    seq(|occs|, k requires 0 <= k < |occs| => Trim(occs[k].inner))
  }

  /** The template update of `extractVariables`: each matched text in turn is
      replaced, at its first occurrence in the template as it stands, by the
      next placeholder. */
  function SubstituteFrom(template: string, occs: seq<Occurrence>, index: nat): string
    decreases |occs|
  {
    if occs == [] then template
    else SubstituteFrom(ReplaceFirst(template, occs[0].whole, Placeholder(index)), occs[1..], index + 1)
  }

  datatype VariableInfo = VariableInfo(originalText: string, variables: seq<string>, template: string)

  /** What `extractVariables` returns. */
  function VariablesOf(ft: FileType, text: string): VariableInfo {
    var occs := Matches(ft, text);
    VariableInfo(text, Names(occs), SubstituteFrom(text, occs, 0))
  }

  lemma SubstituteStep(template: string, occs: seq<Occurrence>, k: nat, index: nat)
    requires k < |occs|
    ensures SubstituteFrom(template, occs[k..], index)
         == SubstituteFrom(ReplaceFirst(template, occs[k].whole, Placeholder(index)), occs[k + 1..], index + 1)
  {
    assert occs[k..][1..] == occs[k + 1..];
  }

  lemma NamesSnoc(occs: seq<Occurrence>, k: nat)
    requires k < |occs|
    ensures Names(occs[..k + 1]) == Names(occs[..k]) + [Trim(occs[k].inner)]
  {
  }

  /** Steps `f` over `occs` in order, counting from `index`; with the
      replacement step this is `SubstituteFrom`. */
  function Steps(f: (string, Occurrence, nat) -> string, acc: string, occs: seq<Occurrence>, index: nat): string
    decreases |occs|
  {
    if occs == [] then acc else Steps(f, f(acc, occs[0], index), occs[1..], index + 1)
  }

  function Replacer(): (string, Occurrence, nat) -> string {
    (t: string, o: Occurrence, n: nat) => ReplaceFirst(t, o.whole, Placeholder(n))
  }

  lemma {:induction false} SubstituteIsSteps(template: string, occs: seq<Occurrence>, index: nat)
    ensures SubstituteFrom(template, occs, index) == Steps(Replacer(), template, occs, index)
    decreases |occs|
  {
    if occs != [] {
      SubstituteIsSteps(ReplaceFirst(template, occs[0].whole, Placeholder(index)), occs[1..], index + 1);
    }
  }

  lemma {:induction false} StepsAppend(f: (string, Occurrence, nat) -> string, acc: string, a: seq<Occurrence>,
                                       b: seq<Occurrence>, index: nat)
    ensures Steps(f, acc, a + b, index) == Steps(f, Steps(f, acc, a, index), b, index + |a|)
    decreases |a|
  {
    if a != [] {
      assert (a + b)[1..] == a[1..] + b;
      StepsAppend(f, f(acc, a[0], index), a[1..], b, index + 1);
    } else {
      assert a + b == b;
    }
  }

  /** Substituting over two runs of matches is substituting over the first,
      then over the second with the counter carried on. */
  lemma SubstituteAppend(template: string, a: seq<Occurrence>, b: seq<Occurrence>, index: nat)
    ensures SubstituteFrom(template, a + b, index) == SubstituteFrom(SubstituteFrom(template, a, index), b, index + |a|)
  {
    SubstituteIsSteps(template, a + b, index);
    SubstituteIsSteps(template, a, index);
    SubstituteIsSteps(SubstituteFrom(template, a, index), b, index + |a|);
    StepsAppend(Replacer(), template, a, b, index);
  }

  lemma NamesAppend(a: seq<Occurrence>, b: seq<Occurrence>)
    ensures Names(a + b) == Names(a) + Names(b)
  {
  }

  /** The body shared by both passes of `extractVariables`: for each match in
      turn, record its trimmed capture, replace its first occurrence in the
      template by the next placeholder and advance the counter. */
  method RecordMatches(occs: seq<Occurrence>, variables: seq<string>, template: string, index: nat)
    returns (variables': seq<string>, template': string, index': nat)
    ensures variables' == variables + Names(occs)
    ensures template' == SubstituteFrom(template, occs, index)
    ensures index' == index + |occs|
  {
    variables', template', index' := variables, template, index;
    for k := 0 to |occs|
      invariant index' == index + k
      invariant variables' == variables + Names(occs[..k])
      invariant SubstituteFrom(template', occs[k..], index') == SubstituteFrom(template, occs, index)
    {
      SubstituteStep(template', occs, k, index');
      NamesSnoc(occs, k);
      variables' := variables' + [Trim(occs[k].inner)];
      template' := ReplaceFirst(template', occs[k].whole, Placeholder(index'));
      index' := index' + 1;
    }
    assert occs[..|occs|] == occs;
    assert occs[|occs|..] == [];
  }

  /** `extractVariables`: the `${ … }` pass, then the pass of the file type,
      with one counter across both. */
  method ExtractVariables(ft: FileType, text: string) returns (info: VariableInfo)
    ensures info == VariablesOf(ft, text)
  {
    var dollar := Scan(Dollar, text);
    var family := FamilyMatches(ft, text);
    var variables, template, index := RecordMatches(dollar, [], text, 0);
    assert variables == Names(dollar);
    variables, template, index := RecordMatches(family, variables, template, index);
    assert Matches(ft, text) == dollar + family;
    SubstituteAppend(text, dollar, family, 0);
    NamesAppend(dollar, family);
    info := VariableInfo(text, variables, template);
  }

  /** The variables are the trimmed captures of the `${ … }` matches and then
      of the file type's matches, each a genuine leftmost match in the text;
      `ts` runs only the first pass, and the count equals the number of matches. */
  lemma VariablesAreCaptures(ft: FileType, text: string)
    ensures
      var info := VariablesOf(ft, text);
      var dollar := Scan(Dollar, text);
      |info.variables| == |Matches(ft, text)|
      && (ft == Ts ==> |info.variables| == |dollar|)
      && (forall k :: 0 <= k < |dollar| ==>
            info.variables[k] == Trim(dollar[k].inner) && MatchAt(Dollar, text, dollar[k].start) == Some(dollar[k]))
      && (forall x, k :: FamilySyntax(ft) == Some(x) && 0 <= k < |Scan(x, text)| ==>
            info.variables[|dollar| + k] == Trim(Scan(x, text)[k].inner)
            && MatchAt(x, text, Scan(x, text)[k].start) == Some(Scan(x, text)[k]))
  {
    var names := Names(Matches(ft, text));
    assert VariablesOf(ft, text).variables == names;
    DollarCaptures(ft, text);
    FamilyCaptures(ft, text);
  }

  lemma DollarCaptures(ft: FileType, text: string)
    ensures forall k :: 0 <= k < |Scan(Dollar, text)| ==>
      Names(Matches(ft, text))[k] == Trim(Scan(Dollar, text)[k].inner)
      && MatchAt(Dollar, text, Scan(Dollar, text)[k].start) == Some(Scan(Dollar, text)[k])
  {
    var dollar := Scan(Dollar, text);
    ScanFromIsGenuine(Dollar, text, 0);
    forall k | 0 <= k < |dollar|
      ensures Names(Matches(ft, text))[k] == Trim(dollar[k].inner)
    {
      NamesFront(dollar, FamilyMatches(ft, text), k);
    }
  }

  lemma FamilyCaptures(ft: FileType, text: string)
    ensures forall x, k :: FamilySyntax(ft) == Some(x) && 0 <= k < |Scan(x, text)| ==>
      Names(Matches(ft, text))[|Scan(Dollar, text)| + k] == Trim(Scan(x, text)[k].inner)
      && MatchAt(x, text, Scan(x, text)[k].start) == Some(Scan(x, text)[k])
  {
    if FamilySyntax(ft).Some? {
      var x := FamilySyntax(ft).value;
      var dollar := Scan(Dollar, text);
      var family := Scan(x, text);
      assert Matches(ft, text) == dollar + family;
      ScanFromIsGenuine(x, text, 0);
      forall k | 0 <= k < |family|
        ensures Names(Matches(ft, text))[|dollar| + k] == Trim(family[k].inner)
      {
        NamesBack(dollar, family, k);
      }
    }
  }

  lemma NamesFront(a: seq<Occurrence>, b: seq<Occurrence>, k: nat)
    requires k < |a|
    ensures Names(a + b)[k] == Trim(a[k].inner)
  {
    assert (a + b)[k] == a[k];
  }

  lemma NamesBack(a: seq<Occurrence>, b: seq<Occurrence>, k: nat)
    requires k < |b|
    ensures Names(a + b)[|a| + k] == Trim(b[k].inner)
  {
    assert (a + b)[|a| + k] == b[k];
  }

  /** A capture without `}` keeps none after trimming, and has no white space
      left at either end. */
  lemma TrimmedCapture(inner: string)
    requires '}' !in inner
    ensures var v := Trim(inner); '}' !in v && (v != [] ==> !IsJsSpace(v[0]) && !IsJsSpace(v[|v| - 1]))
  {
    TrimIsInfix(inner);
    var a := |inner| - |TrimStart(inner)|;
    assert Trim(inner) == inner[a..a + |Trim(inner)|];
  }

  lemma CapturesHaveNoClose(ft: FileType, text: string)
    ensures forall k :: 0 <= k < |Matches(ft, text)| ==> '}' !in Matches(ft, text)[k].inner
  {
    ScanFromIsGenuine(Dollar, text, 0);
    ScanFromIsGenuine(DoubleBrace, text, 0);
    ScanFromIsGenuine(SingleBrace, text, 0);
    var dollar: seq<Occurrence> := Scan(Dollar, text);
    var family: seq<Occurrence> := FamilyMatches(ft, text);
    var all: seq<Occurrence> := dollar + family;
    forall k | 0 <= k < |all| ensures '}' !in all[k].inner {
      if k < |dollar| {
        assert MatchAt(Dollar, text, dollar[k].start) == Some(dollar[k]);
      } else {
        var x := FamilySyntax(ft).value;
        assert MatchAt(x, text, family[k - |dollar|].start) == Some(family[k - |dollar|]);
      }
    }
  }

  /** A recorded variable has no `}` and no white space at either end. */
  lemma VariablesAreTrimmed(ft: FileType, text: string)
    ensures forall k :: 0 <= k < |VariablesOf(ft, text).variables| ==>
      var v := VariablesOf(ft, text).variables[k];
      '}' !in v && (v != [] ==> !IsJsSpace(v[0]) && !IsJsSpace(v[|v| - 1]))
  {
    var occs := Matches(ft, text);
    var names := VariablesOf(ft, text).variables;
    assert names == Names(occs);
    CapturesHaveNoClose(ft, text);
    forall k | 0 <= k < |names| ensures
      var v := names[k];
      '}' !in v && (v != [] ==> !IsJsSpace(v[0]) && !IsJsSpace(v[|v| - 1]))
    {
      assert names[k] == Trim(occs[k].inner);
      TrimmedCapture(occs[k].inner);
    }
  }

  /** Text without interpolation gives no variables and is its own template. */
  lemma NoInterpolation(ft: FileType, text: string)
    requires '{' !in text
    ensures VariablesOf(ft, text).variables == []
    ensures VariablesOf(ft, text).template == text
  {
    NoBraceNoMatch(Dollar, text, 0);
    NoBraceNoMatch(DoubleBrace, text, 0);
    NoBraceNoMatch(SingleBrace, text, 0);
  }

  /** In TSX, a single character other than `}` between braces is one
      `{ … }` match and no `${ … }` match. */
  lemma TsxScanOfOne(c: char)
    requires c != '}'
    ensures Scan(SingleBrace, ['{', c, '}']) == [Occurrence(0, ['{', c, '}'], [c])]
    ensures Scan(Dollar, ['{', c, '}']) == []
  {
    var s := ['{', c, '}'];
    assert s[0..1] == "{";
    assert s[0..3] == s;
    assert s[1..2] == [c];
    assert FindFrom(s, '}', 1) == Some(2);
    assert MatchAt(SingleBrace, s, 0) == Some(Occurrence(0, s, [c]));
    assert ScanFrom(SingleBrace, s, 3) == [];
    assert ScanFrom(Dollar, s, 2) == [];
    assert ScanFrom(Dollar, s, 1) == [];
  }

  /** TSX templates are not idempotent: the template of `{x}` is `{0}`, ... */
  lemma TemplateOfX()
    ensures VariablesOf(Tsx, "{x}").template == "{0}"
  {
    assert "{x}" == ['{', 'x', '}'];
    TsxScanOfOne('x');
    var occs := Matches(Tsx, "{x}");
    assert occs == [Occurrence(0, "{x}", "x")];
    assert "{x}"[0..3] == "{x}";
    assert IndexOf("{x}", "{x}") == Some(0);
    assert Placeholder(0) == "{0}";
    assert ReplaceFirst("{x}", "{x}", Placeholder(0)) == "{0}";
    assert SubstituteFrom("{x}", occs, 0) == SubstituteFrom("{0}", [], 1);
  }

  /** ... and a template of one such character is itself read as a
      variable: the variable `0` for the template `{0}`. */
  lemma VariablesOfOne(c: char)
    requires c != '}' && !IsJsSpace(c)
    ensures VariablesOf(Tsx, ['{', c, '}']).variables == [[c]]
  {
    TsxScanOfOne(c);
    var occs := Matches(Tsx, ['{', c, '}']);
    assert occs == [Occurrence(0, ['{', c, '}'], [c])];
    assert TrimStart([c]) == [c];
    assert Trim([c]) == [c];
  }

  lemma VariablesOfZero()
    ensures VariablesOf(Tsx, "{0}").variables == ["0"]
  {
    assert "{0}" == ['{', '0', '}'];
    VariablesOfOne('0');
  }

  /** `String.prototype.replace` with a global regular expression and a
      counting callback: every leftmost non-overlapping match from `i` on is
      replaced by the next placeholder, starting with `{n}`. */
  function ReplaceAllFrom(x: Syntax, s: string, i: nat, n: nat): string
    requires i <= |s|
    decreases |s| - i
  {
    if i == |s| then ""
    else
      match MatchAt(x, s, i)
      case Some(o) => Placeholder(n) + ReplaceAllFrom(x, s, o.End(), n + 1)
      case None => [s[i]] + ReplaceAllFrom(x, s, i + 1, n)
  }

  /** The text between and around the given matches, with the matches replaced
      by consecutive placeholders from `{n}`. */
  function Rebuild(s: string, occs: seq<Occurrence>, i: nat, n: nat): string
    requires i <= |s| && Arranged(s, i, occs)
    decreases |occs|
  {
    if occs == [] then s[i..]
    else s[i..occs[0].start] + Placeholder(n) + Rebuild(s, occs[1..], occs[0].End(), n + 1)
  }

  /** The global replacement keeps the text outside the matched spans and puts
      `{n}`, `{n+1}`, … in place of the matches that `ScanFrom` finds. */
  lemma {:induction false} ReplaceAllIsRebuild(x: Syntax, s: string, i: nat, n: nat)
    requires i <= |s|
    ensures ReplaceAllFrom(x, s, i, n) == Rebuild(s, ScanFrom(x, s, i), i, n)
    decreases |s| - i
  {
    if i < |s| {
      var m := MatchAt(x, s, i);
      if m.Some? {
        ReplaceAllIsRebuild(x, s, m.value.End(), n + 1);
        ScanFromAtMatch(x, s, i);
        var rest := ScanFrom(x, s, m.value.End());
        ArrangedCons(s, m.value, rest);
        RebuildAtMatch(s, [m.value] + rest, n);
        assert ([m.value] + rest)[1..] == rest;
      } else {
        ReplaceAllIsRebuild(x, s, i + 1, n);
        ScanFromAtMiss(x, s, i);
        RebuildSkip(s, ScanFrom(x, s, i + 1), i, n);
      }
    }
  }

  lemma RebuildAtMatch(s: string, occs: seq<Occurrence>, n: nat)
    requires occs != [] && Arranged(s, occs[0].start, occs)
    ensures Rebuild(s, occs, occs[0].start, n) == Placeholder(n) + Rebuild(s, occs[1..], occs[0].End(), n + 1)
  {
    var st := occs[0].start;
    assert s[st..st] == [];
  }

  lemma ArrangedCons(s: string, o: Occurrence, rest: seq<Occurrence>)
    requires o.End() <= |s| && Arranged(s, o.End(), rest)
    ensures Arranged(s, o.start, [o] + rest)
  {
    assert ([o] + rest)[1..] == rest;
  }

  lemma RebuildSkip(s: string, occs: seq<Occurrence>, i: nat, n: nat)
    requires i < |s| && Arranged(s, i + 1, occs)
    ensures Arranged(s, i, occs)
    ensures Rebuild(s, occs, i, n) == [s[i]] + Rebuild(s, occs, i + 1, n)
  {
    assert Arranged(s, i, occs);
    if occs != [] {
      var st := occs[0].start;
      var tail := Placeholder(n) + Rebuild(s, occs[1..], occs[0].End(), n + 1);
      assert Rebuild(s, occs, i, n) == s[i..st] + tail;
      assert Rebuild(s, occs, i + 1, n) == s[i + 1..st] + tail;
      assert s[i..st] == [s[i]] + s[i + 1..st];
      assert s[i..st] + tail == [s[i]] + (s[i + 1..st] + tail);
    } else {
      assert s[i..] == [s[i]] + s[i + 1..];
    }
  }

  /** The value a locale entry gets for a text with variables: the pass of the
      file type runs first, then the `${ … }` pass over its result, with one
      counter across both (the reverse of the recording order). */
  function PlaceholderValue(ft: FileType, text: string): string {
    match FamilySyntax(ft)
    case None => ReplaceAllFrom(Dollar, text, 0, 0)
    case Some(x) =>
      var first := ReplaceAllFrom(x, text, 0, 0);
      ReplaceAllFrom(Dollar, first, 0, |Scan(x, text)|)
  }

  /** Text without interpolation is its own placeholder value. */
  lemma PlaceholderValueWithoutInterpolation(ft: FileType, text: string)
    requires '{' !in text
    ensures PlaceholderValue(ft, text) == text
  {
    NoBraceNoMatch(Dollar, text, 0);
    NoBraceNoMatch(DoubleBrace, text, 0);
    NoBraceNoMatch(SingleBrace, text, 0);
    ReplaceAllIsRebuild(Dollar, text, 0, 0);
    ReplaceAllIsRebuild(DoubleBrace, text, 0, 0);
    ReplaceAllIsRebuild(SingleBrace, text, 0, 0);
  }

  /** The `${ … }` pass over `${a}{b}` matches `${a}` at its start ... */
  lemma MixedDollarAtStart()
    ensures MatchAt(Dollar, "${a}{b}", 0) == Some(Occurrence(0, "${a}", "a"))
  {
    var s := "${a}{b}";
    assert s[0..2] == "${" && s[0..4] == "${a}" && s[2..3] == "a";
    assert FindFrom(s, '}', 2) == Some(3);
  }

  /** ... and nothing after it. */
  lemma MixedDollarRest()
    ensures ScanFrom(Dollar, "${a}{b}", 4) == []
  {
    var s := "${a}{b}";
    assert s[4..6] == "{b" && s[5..7] == "b}";
    assert ScanFrom(Dollar, s, 6) == [];
  }

  lemma MixedDollarScan()
    ensures Scan(Dollar, "${a}{b}") == [Occurrence(0, "${a}", "a")]
  {
    MixedDollarAtStart();
    MixedDollarRest();
  }

  /** The `{ … }` pass skips `${a}`: its `{` follows a `$` ... */
  lemma MixedBraceSkips()
    ensures ScanFrom(SingleBrace, "${a}{b}", 0) == ScanFrom(SingleBrace, "${a}{b}", 4)
  {
    var s := "${a}{b}";
    assert s[0..1] == "$" && s[0] == '$' && s[2..3] == "a" && s[3..4] == "}";
  }

  /** ... and matches `{b}`. */
  lemma MixedBraceAt()
    ensures MatchAt(SingleBrace, "${a}{b}", 4) == Some(Occurrence(4, "{b}", "b"))
  {
    var s := "${a}{b}";
    assert s[3] == '}' && s[4..5] == "{" && s[4..7] == "{b}" && s[5..6] == "b";
    assert FindFrom(s, '}', 5) == Some(6);
  }

  lemma MixedBraceScan()
    ensures Scan(SingleBrace, "${a}{b}") == [Occurrence(4, "{b}", "b")]
  {
    MixedBraceSkips();
    MixedBraceAt();
    assert |"${a}{b}"| == 7;
  }

  /** The two template updates for `${a}{b}`. */
  lemma MixedFirstReplace()
    ensures ReplaceFirst("${a}{b}", "${a}", Placeholder(0)) == "{0}{b}"
  {
    var s := "${a}{b}";
    assert s[0..4] == "${a}" && s[4..] == "{b}";
    assert IndexOf(s, "${a}") == Some(0);
    assert Placeholder(0) == "{0}";
  }

  lemma MixedSecondReplace()
    ensures ReplaceFirst("{0}{b}", "{b}", Placeholder(1)) == "{0}{1}"
  {
    var t := "{0}{b}";
    assert t[0..3] == "{0}" && t[1..4] == "0}{" && t[2..5] == "}{b" && t[3..6] == "{b}";
    assert IndexOf(t, "{b}") == Some(3);
    assert t[..3] == "{0}" && t[6..] == "";
    assert Placeholder(1) == "{1}";
  }

  /** A single letter is its own trim. */
  lemma TrimLetter(c: char)
    requires 'a' <= c <= 'z'
    ensures Trim([c]) == [c]
  {
    assert !IsJsSpace(c);
    var s := [c];
    assert s != [] && s[0] == c && s[|s| - 1] == c;
    assert TrimStart(s) == s;
    assert TrimEnd(s) == s;
  }

  lemma MixedMatches()
    ensures Matches(Tsx, "${a}{b}") == [Occurrence(0, "${a}", "a"), Occurrence(4, "{b}", "b")]
  {
    MixedDollarScan();
    MixedBraceScan();
  }

  /** Two matches have two names, in order. */
  lemma NamesOfPair(o1: Occurrence, o2: Occurrence)
    ensures Names([o1, o2]) == [Trim(o1.inner), Trim(o2.inner)]
  {
  }

  /** The trimmed captures of the two matches of `${a}{b}`. */
  lemma MixedNames()
    ensures Names([Occurrence(0, "${a}", "a"), Occurrence(4, "{b}", "b")]) == ["a", "b"]
  {
    var o1, o2 := Occurrence(0, "${a}", "a"), Occurrence(4, "{b}", "b");
    NamesOfPair(o1, o2);
    TrimLetter('a');
    TrimLetter('b');
  }

  /** The key side numbers `${a}` first: the variables of `${a}{b}` are
      `a, b` ... */
  lemma MixedVariables()
    ensures VariablesOf(Tsx, "${a}{b}").variables == ["a", "b"]
  {
    MixedMatches();
    MixedNames();
  }

  /** ... and its template is `{0}{1}`. */
  lemma MixedTemplate()
    ensures VariablesOf(Tsx, "${a}{b}").template == "{0}{1}"
  {
    var o1, o2 := Occurrence(0, "${a}", "a"), Occurrence(4, "{b}", "b");
    MixedMatches();
    MixedFirstReplace();
    MixedSecondReplace();
    assert SubstituteFrom("${a}{b}", [o1, o2], 0) == SubstituteFrom("{0}{b}", [o2], 1);
    assert [o2][1..] == [];
  }

  /** The `{ … }` pass of the value turns `${a}{b}` into `${a}{0}` ... */
  lemma MixedBraceValue()
    ensures ReplaceAllFrom(SingleBrace, "${a}{b}", 0, 0) == "${a}{0}"
  {
    var s := "${a}{b}";
    MixedBraceAt();
    assert s[0..1] == "$" && s[0] == '$' && s[2..3] == "a" && s[3..4] == "}";
    assert Placeholder(0) == "{0}";
    assert ReplaceAllFrom(SingleBrace, s, 4, 0) == "{0}";
  }

  /** ... and its `${ … }` pass, counting on from 1, gives `{1}{0}`. */
  lemma MixedDollarValue()
    ensures ReplaceAllFrom(Dollar, "${a}{0}", 0, 1) == "{1}{0}"
  {
    var f := "${a}{0}";
    MixedDollarValueRest();
    assert f[0..2] == "${" && f[0..4] == "${a}" && f[2..3] == "a";
    assert FindFrom(f, '}', 2) == Some(3);
    assert Placeholder(1) == "{1}";
  }

  lemma MixedDollarValueRest()
    ensures ReplaceAllFrom(Dollar, "${a}{0}", 4, 2) == "{0}"
  {
    var f := "${a}{0}";
    assert f[4..6] == "{0" && f[5..7] == "0}";
    assert f[4] == '{' && f[5] == '0' && f[6] == '}';
  }

  /** The value side numbers `{b}` first: the value of `${a}{b}` is `{1}{0}`,
      so the placeholders of key and value name the variables in opposite order. */
  lemma MixedValue()
    ensures PlaceholderValue(Tsx, "${a}{b}") == "{1}{0}"
  {
    MixedBraceScan();
    MixedBraceValue();
    MixedDollarValue();
  }

  /** For the TSX text `${a}{b}` the key template `{0}{1}` puts `a` at `{0}`,
      while the stored value `{1}{0}` puts the placeholder `{1}` where `a` was. */
  lemma PlaceholderOrderDiffers()
    ensures VariablesOf(Tsx, "${a}{b}").variables == ["a", "b"]
    ensures VariablesOf(Tsx, "${a}{b}").template == "{0}{1}"
    ensures PlaceholderValue(Tsx, "${a}{b}") == "{1}{0}"
  {
    MixedVariables();
    MixedTemplate();
    MixedValue();
  }
}
