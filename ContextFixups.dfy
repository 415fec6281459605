/** The two fix-ups `applyConversionFromPreview` runs on each planned edit
    (text-conversion.ts): `checkAndFixPropsBinding`, which turns a call placed
    inside a quoted attribute into an attribute binding, and
    `checkAndFixUnnecessaryStringification`, which drops a call's wrapper when
    the call sits between two quote characters. Both look at the document text
    around the edit; each regular expression is an explicit scanner. */
module ContextFixups {
  import opened Wrappers
  import opened JsStrings
  import opened Interpolation
  import opened Conversion

  /** `/\s/.test(content[k])`: an index outside the text reads `undefined`,
      which is not white space. */
  predicate SpaceAt(content: string, k: int) {
    0 <= k < |content| && IsJsSpace(content[k])
  }

  /** Where the backward scan from `i` stops: just after a white-space
      character, or at the start of the text. */
  function ContextStart(content: string, i: nat): (r: nat)
    ensures r <= i
    ensures r == 0 || SpaceAt(content, r - 1)
    ensures forall k :: r <= k < i ==> !SpaceAt(content, k)
    decreases i
  {
    if i == 0 || SpaceAt(content, i - 1) then i else ContextStart(content, i - 1)
  }

  /** Where the forward scan from `j` stops: at a space or `>`, or at the end
      of the text. */
  function ContextEnd(content: string, j: nat): (r: nat)
    ensures j <= r
    ensures j <= |content| ==> r <= |content|
    ensures r < |content| ==> content[r] == ' ' || content[r] == '>'
    ensures forall k :: j <= k < r ==> k < |content| && content[k] != ' ' && content[k] != '>'
    decreases |content| - j
  {
    if j >= |content| || content[j] == ' ' || content[j] == '>' then j else ContextEnd(content, j + 1)
  }

  /** The text an edit would leave around itself: the context before it, the
      replacement and the context after it. */
  function FullContext(content: string, mod: Modification, cs: nat, ce: nat): string {
    JsSubstring(content, cs, mod.start) + mod.replacement + JsSubstring(content, mod.end, ce)
  }

  /** The character at `k` can stand in a name that ends before `r`: a word
      character, or a hyphen with a word character after it. */
  predicate NameCharAt(s: string, k: nat, r: nat)
    requires k < |s|
  {
    IsWordChar(s[k]) || (s[k] == '-' && k + 1 < r && k + 1 < |s| && IsWordChar(s[k + 1]))
  }

  /** `n` as a whole matches `\w+(?:-\w+)*`: it starts with a word character,
      and every other character is a word character or a hyphen followed by one. */
  predicate IsName(n: string) {
    |n| >= 1 && IsWordChar(n[0]) && forall k :: 0 <= k < |n| ==> NameCharAt(n, k, |n|)
  }

  /** The end of the longest match of `\w+(?:-\w+)*` that continues from `e`:
      word characters, and a hyphen only when a word character follows it. */
  function NameEnd(s: string, e: nat): (r: nat)
    requires e <= |s|
    ensures e <= r <= |s|
    decreases |s| - e
  {
    if e < |s| && IsWordChar(s[e]) then NameEnd(s, e + 1)
    else if e + 1 < |s| && s[e] == '-' && IsWordChar(s[e + 1]) then NameEnd(s, e + 2)
    else e
  }

  /** The scan passes only characters that can stand in a name, and stops
      where neither a word character nor a hyphen before one follows. */
  lemma {:induction false} NameEndSpec(s: string, e: nat)
    requires e <= |s|
    ensures forall k :: e <= k < NameEnd(s, e) ==> NameCharAt(s, k, NameEnd(s, e))
    ensures NameEnd(s, e) < |s| ==>
      !IsWordChar(s[NameEnd(s, e)]) && !(s[NameEnd(s, e)] == '-' && NameEnd(s, e) + 1 < |s| && IsWordChar(s[NameEnd(s, e) + 1]))
    decreases |s| - e
  {
    if e < |s| && IsWordChar(s[e]) {
      NameEndSpec(s, e + 1);
    } else if e + 1 < |s| && s[e] == '-' && IsWordChar(s[e + 1]) {
      NameEndSpec(s, e + 2);
    }
  }

  /** A name that starts at `p` and is followed by `=` ends where the greedy
      scan from any index inside it stops: no shorter name is followed by `=`. */
  lemma {:induction false} NameEndAt(s: string, p: nat, n: string, x: nat)
    requires IsName(n) && IsAt(s, p, n) && p + |n| < |s| && s[p + |n|] == '='
    requires p < x <= p + |n|
    ensures NameEnd(s, x) == p + |n|
    decreases p + |n| - x
  {
    if x < p + |n| {
      assert s[x] == n[x - p] && NameCharAt(n, x - p, |n|);
      if IsWordChar(s[x]) {
        NameEndAt(s, p, n, x + 1);
      } else {
        assert s[x + 1] == n[x + 1 - p];
        NameEndAt(s, p, n, x + 2);
      }
    }
  }

  /** The text from `p` to where the greedy scan stops is a name. */
  lemma NameFromScan(s: string, p: nat)
    requires p < |s| && IsWordChar(s[p])
    ensures IsName(s[p..NameEnd(s, p + 1)])
  {
    var n := s[p..NameEnd(s, p + 1)];
    NameEndSpec(s, p + 1);
    forall k | 0 <= k < |n| ensures NameCharAt(n, k, |n|) {
      if k > 0 {
        assert n[k] == s[p + k] && NameCharAt(s, p + k, NameEnd(s, p + 1));
        if !IsWordChar(n[k]) {
          assert n[k + 1] == s[p + k + 1];
        }
      }
    }
  }

  /** The first index from `i` at which `close` occurs, provided no line
      terminator comes before it: the lazy `.*?` followed by `close`. */
  function LazyClose(s: string, i: nat, close: string): (r: Option<nat>)
    ensures r.Some? ==> i <= r.value && IsAt(s, r.value, close)
    ensures r.Some? ==> forall k :: i <= k < r.value ==> k < |s| && !IsLineTerminator(s[k]) && !IsAt(s, k, close)
    decreases |s| - i
  {
    if IsAt(s, i, close) then Some(i)
    else if i >= |s| || IsLineTerminator(s[i]) then None
    else LazyClose(s, i + 1, close)
  }

  /** The three attribute patterns: `name="{{t(…)}}"` (Vue),
      `name="{t(…)}"` and ``name={`{t(…)}`}`` (TSX). */
  datatype PropsPattern = VueQuoted | TsxQuoted | TsxTemplate

  /** A match of an attribute pattern: the attribute name and the call. */
  datatype PropsMatch = PropsMatch(propName: string, call: string)

  /** `c` has the shape of the call group: `t(`, a middle, then `)`. */
  predicate CallShape(c: string) {
    |c| >= 3 && c[..2] == "t(" && c[|c| - 1] == ')'
  }

  /** `c` can be the call group of `="\{\{(t\(.*?\))\}\}"` after a name
      ending at `e`: no line terminator in the middle. */
  predicate VueCallAfter(s: string, e: nat, c: string) {
    CallShape(c) && IsAt(s, e, "=\"{{") && IsAt(s, e + 4, c) && IsAt(s, e + 4 + |c|, "}}\"")
    && forall k :: 2 <= k < |c| - 1 ==> !IsLineTerminator(c[k])
  }

  /** `c` can be the call group of `="\{(t\([^}]*\))\}"`: no `}` in the middle. */
  predicate TsxQuotedCallAfter(s: string, e: nat, c: string) {
    CallShape(c) && IsAt(s, e, "=\"{") && IsAt(s, e + 3, c) && IsAt(s, e + 3 + |c|, "}\"")
    && forall k :: 2 <= k < |c| - 1 ==> c[k] != '}'
  }

  /** `c` can be the call group of ``=\{`\{(t\([^`]*\))\}`\}``: no backtick in the middle. */
  predicate TsxTemplateCallAfter(s: string, e: nat, c: string) {
    CallShape(c) && IsAt(s, e, "={`{") && IsAt(s, e + 4, c) && IsAt(s, e + 4 + |c|, "}`}")
    && forall k :: 2 <= k < |c| - 1 ==> c[k] != '`'
  }

  /** `c` can be the call group of a match of `pat` whose name ends at `e`. */
  predicate CallAfter(pat: PropsPattern, s: string, e: nat, c: string) {
    match pat
    case VueQuoted => VueCallAfter(s, e, c)
    case TsxQuoted => TsxQuotedCallAfter(s, e, c)
    case TsxTemplate => TsxTemplateCallAfter(s, e, c)
  }

  /** `pm` is a match of `pat` whose name starts at `p`. */
  predicate PropsMatchAt(pat: PropsPattern, s: string, p: nat, pm: PropsMatch) {
    IsName(pm.propName) && IsAt(s, p, pm.propName) && CallAfter(pat, s, p + |pm.propName|, pm.call)
  }

  /** What `s.match(pattern)` reports: a match at the leftmost index where
      any match starts, with the shortest call there (the lazy `.*?`). */
  ghost predicate FirstMatch(pat: PropsPattern, s: string, pm: PropsMatch) {
    exists q: nat :: FirstMatchAt(pat, s, q, pm)
  }

  /** `pm` is the match `s.match(pattern)` reports, and it starts at `q`. */
  ghost predicate FirstMatchAt(pat: PropsPattern, s: string, q: nat, pm: PropsMatch) {
    PropsMatchAt(pat, s, q, pm)
    && (forall pm' :: PropsMatchAt(pat, s, q, pm') ==> |pm.call| <= |pm'.call|)
    && (forall q': nat, pm' :: q' < q ==> !PropsMatchAt(pat, s, q', pm'))
  }

  /** `s.match(pattern)` returns `null`. */
  ghost predicate NoMatch(pat: PropsPattern, s: string) {
    forall q: nat, pm :: !PropsMatchAt(pat, s, q, pm)
  }

  lemma CallAfterStartsAtEquals(pat: PropsPattern, s: string, e: nat, c: string)
    requires CallAfter(pat, s, e, c)
    ensures e < |s| && s[e] == '='
  {
    match pat
    case VueQuoted => assert s[e] == s[e..e + 4][0];
    case TsxQuoted => assert s[e] == s[e..e + 3][0];
    case TsxTemplate => assert s[e] == s[e..e + 4][0];
  }

  /** The name of a match at `p` ends where the greedy scan from `p + 1` stops. */
  lemma MatchNameEnd(pat: PropsPattern, s: string, p: nat, pm: PropsMatch)
    requires PropsMatchAt(pat, s, p, pm)
    ensures p + |pm.propName| == NameEnd(s, p + 1)
  {
    CallAfterStartsAtEquals(pat, s, p + |pm.propName|, pm.call);
    NameEndAt(s, p, pm.propName, p + 1);
  }

  /** A match at `p` has the name the greedy scan delimits. */
  lemma MatchName(pat: PropsPattern, s: string, p: nat, pm: PropsMatch)
    requires PropsMatchAt(pat, s, p, pm)
    ensures p < |s| && IsWordChar(s[p]) && p + |pm.propName| == NameEnd(s, p + 1)
    ensures pm.propName == s[p..NameEnd(s, p + 1)] && CallAfter(pat, s, NameEnd(s, p + 1), pm.call)
  {
    MatchNameEnd(pat, s, p, pm);
    assert IsWordChar(s[p]) by { assert s[p] == pm.propName[0]; }
  }

  /** Where a call group of `pat` starts after a name that ends at `e`. */
  function CallStart(pat: PropsPattern, e: nat): nat {
    if pat == TsxQuoted then e + 3 else e + 4
  }

  /** Two texts of one length at one index are equal. */
  lemma SameText(s: string, i: nat, w: string, w': string)
    requires IsAt(s, i, w) && IsAt(s, i, w') && |w| == |w'|
    ensures w == w'
  {
  }

  /** Two matches at one index have names of one length. */
  lemma NameLengths(pat: PropsPattern, s: string, p: nat, pm: PropsMatch, pm': PropsMatch)
    requires PropsMatchAt(pat, s, p, pm) && PropsMatchAt(pat, s, p, pm')
    ensures |pm.propName| == |pm'.propName|
  {
    MatchNameEnd(pat, s, p, pm);
    MatchNameEnd(pat, s, p, pm');
  }

  /** The call of a match is the text where its call group starts. */
  lemma MatchCallText(pat: PropsPattern, s: string, p: nat, pm: PropsMatch)
    requires PropsMatchAt(pat, s, p, pm)
    ensures IsAt(s, CallStart(pat, p + |pm.propName|), pm.call)
  {
  }

  /** Two matches at one index with calls of one length are the same match. */
  lemma SameMatch(pat: PropsPattern, s: string, p: nat, pm: PropsMatch, pm': PropsMatch)
    requires PropsMatchAt(pat, s, p, pm) && PropsMatchAt(pat, s, p, pm')
    requires |pm.call| == |pm'.call|
    ensures pm == pm'
  {
    NameLengths(pat, s, p, pm, pm');
    MatchCallText(pat, s, p, pm);
    MatchCallText(pat, s, p, pm');
    SameText(s, p, pm.propName, pm'.propName);
    SameText(s, CallStart(pat, p + |pm.propName|), pm.call, pm'.call);
  }

  /** A Vue call group at `e` ends at or after the first `)}}"` of the lazy scan. */
  lemma VueCallFound(s: string, e: nat, c: string)
    requires VueCallAfter(s, e, c)
    ensures IsAt(s, e, "=\"{{t(") && LazyClose(s, e + 6, ")}}\"").Some?
    ensures LazyClose(s, e + 6, ")}}\"").value <= e + 3 + |c|
  {
    var k := e + 3 + |c|;
    IsAtPart(s, e + 4, c, 0, 2);
    assert s[e..e + 6] == s[e..e + 4] + s[e + 4..e + 6];
    assert s[k] == c[|c| - 1];
    assert s[k..k + 4] == [s[k]] + s[k + 1..k + 4];
    forall j | e + 6 <= j < k ensures !IsLineTerminator(s[j]) {
      assert s[j] == c[j - (e + 4)];
    }
    LazyCloseFinds(s, e + 6, k, ")}}\"");
  }

  /** The call up to the first `)}}"` on the line is a Vue call group. */
  lemma VueCallAt(s: string, e: nat, k: nat)
    requires IsAt(s, e, "=\"{{t(") && LazyClose(s, e + 6, ")}}\"") == Some(k)
    ensures VueCallAfter(s, e, s[e + 4..k + 1])
  {
    var c := s[e + 4..k + 1];
    IsAtPart(s, e, "=\"{{t(", 4, 6);
    IsAtPart(s, e, "=\"{{t(", 0, 4);
    IsAtPart(s, k, ")}}\"", 1, 4);
    assert c[..2] == s[e + 4..e + 6];
    assert s[k] == s[k..k + 4][0];
    forall j | 2 <= j < |c| - 1 ensures !IsLineTerminator(c[j]) {
      assert c[j] == s[e + 4 + j];
    }
  }

  /** The rest of `name="{{t(…)}}"` after a name ending at `e`. */
  function VueQuotedCall(s: string, e: nat): Option<string> {
    if !IsAt(s, e, "=\"{{t(") then None
    else
      match LazyClose(s, e + 6, ")}}\"")
      case None => None
      case Some(k) => Some(s[e + 4..k + 1])
  }

  /** The Vue scan finds a call group exactly when there is one, and then the
      shortest. */
  lemma VueQuotedCallSpec(s: string, e: nat)
    ensures VueQuotedCall(s, e).Some? ==> VueCallAfter(s, e, VueQuotedCall(s, e).value)
    ensures forall c :: VueCallAfter(s, e, c) ==>
      VueQuotedCall(s, e).Some? && |VueQuotedCall(s, e).value| <= |c|
  {
    var r := VueQuotedCall(s, e);
    var close := ")}}\"";
    if IsAt(s, e, "=\"{{t(") && LazyClose(s, e + 6, close).Some? {
      var k := LazyClose(s, e + 6, close).value;
      assert r == Some(s[e + 4..k + 1]);
      VueCallAt(s, e, k);
    }
    forall c | VueCallAfter(s, e, c) ensures r.Some? && |r.value| <= |c| {
      VueCallFound(s, e, c);
      var k := LazyClose(s, e + 6, close).value;
      assert r == Some(s[e + 4..k + 1]);
    }
  }

  /** A `c` at `q` with none between `from` and `q` is the first one from `from`. */
  lemma FindFromAt(s: string, c: char, from: nat, q: nat)
    requires from <= q < |s| && s[q] == c
    requires forall j :: from <= j < q ==> s[j] != c
    ensures FindFrom(s, c, from) == Some(q)
  {
    var r := FindFrom(s, c, from);
    assert r.Some? && r.value >= q;
  }

  /** A TSX quoted call group at `e` ends at the first `}` the scan finds. */
  lemma TsxQuotedFound(s: string, e: nat, c: string)
    requires TsxQuotedCallAfter(s, e, c)
    ensures TsxQuotedCall(s, e) == Some(c)
  {
    var q := e + 3 + |c|;
    IsAtPart(s, e + 3, c, 0, 2);
    assert s[e..e + 5] == s[e..e + 3] + s[e + 3..e + 5];
    assert s[q] == s[q..q + 2][0] && s[q + 1] == s[q..q + 2][1];
    forall j | e + 5 <= j < q ensures s[j] != '}' {
      assert s[j] == c[j - (e + 3)];
    }
    assert s[q - 1] == c[|c| - 1];
    FindFromAt(s, '}', e + 5, q);
  }

  /** The call up to the first `}` is a TSX quoted call group when `)` comes
      before that `}` and `"` after it. */
  lemma TsxQuotedAt(s: string, e: nat, q: nat)
    requires IsAt(s, e, "=\"{t(") && FindFrom(s, '}', e + 5) == Some(q)
    requires q >= e + 6 && s[q - 1] == ')' && q + 1 < |s| && s[q + 1] == '"'
    ensures TsxQuotedCallAfter(s, e, s[e + 3..q])
  {
    var c := s[e + 3..q];
    IsAtPart(s, e, "=\"{t(", 3, 5);
    IsAtPart(s, e, "=\"{t(", 0, 3);
    assert c[..2] == s[e + 3..e + 5];
    assert s[q..q + 2] == [s[q], s[q + 1]];
    forall j | 2 <= j < |c| - 1 ensures c[j] != '}' {
      assert c[j] == s[e + 3 + j];
    }
  }

  /** The rest of `name="{t(…)}"` after a name ending at `e`. */
  function TsxQuotedCall(s: string, e: nat): Option<string> {
    if !IsAt(s, e, "=\"{t(") then None
    else
      match FindFrom(s, '}', e + 5)
      case None => None
      case Some(q) =>
        if q >= e + 6 && s[q - 1] == ')' && q + 1 < |s| && s[q + 1] == '"' then Some(s[e + 3..q])
        else None
  }

  /** The TSX quoted scan finds a call group exactly when there is one, and
      there is at most one. */
  lemma TsxQuotedCallSpec(s: string, e: nat)
    ensures TsxQuotedCall(s, e).Some? ==> TsxQuotedCallAfter(s, e, TsxQuotedCall(s, e).value)
    ensures forall c :: TsxQuotedCallAfter(s, e, c) ==> TsxQuotedCall(s, e) == Some(c)
  {
    if TsxQuotedCall(s, e).Some? {
      TsxQuotedAt(s, e, FindFrom(s, '}', e + 5).value);
    }
    forall c | TsxQuotedCallAfter(s, e, c) ensures TsxQuotedCall(s, e) == Some(c) {
      TsxQuotedFound(s, e, c);
    }
  }

  /** A TSX template call group at `e` ends at the first backtick the scan finds. */
  lemma TsxTemplateFound(s: string, e: nat, c: string)
    requires TsxTemplateCallAfter(s, e, c)
    ensures TsxTemplateCall(s, e) == Some(c)
  {
    var q := e + 5 + |c|;
    IsAtPart(s, e + 4, c, 0, 2);
    assert s[e..e + 6] == s[e..e + 4] + s[e + 4..e + 6];
    IsAtPart(s, q - 1, "}`}", 0, 1);
    IsAtPart(s, q - 1, "}`}", 1, 2);
    IsAtPart(s, q - 1, "}`}", 2, 3);
    assert s[q - 1] == s[q - 1..q][0] && s[q] == s[q..q + 1][0] && s[q + 1] == s[q + 1..q + 2][0];
    forall j | e + 6 <= j < q - 2 ensures s[j] != '`' {
      assert s[j] == c[j - (e + 4)];
    }
    assert s[q - 2] == c[|c| - 1];
    FindFromAt(s, '`', e + 6, q);
  }

  /** The call up to the first backtick is a TSX template call group when
      `)}` comes before that backtick and `}` after it. */
  lemma TsxTemplateAt(s: string, e: nat, q: nat)
    requires IsAt(s, e, "={`{t(") && FindFrom(s, '`', e + 6) == Some(q)
    requires q >= e + 8 && s[q - 2] == ')' && s[q - 1] == '}' && q + 1 < |s| && s[q + 1] == '}'
    ensures TsxTemplateCallAfter(s, e, s[e + 4..q - 1])
  {
    var c := s[e + 4..q - 1];
    IsAtPart(s, e, "={`{t(", 4, 6);
    IsAtPart(s, e, "={`{t(", 0, 4);
    assert c[..2] == s[e + 4..e + 6];
    assert s[q - 1..q + 2] == [s[q - 1], s[q], s[q + 1]];
    forall j | 2 <= j < |c| - 1 ensures c[j] != '`' {
      assert c[j] == s[e + 4 + j];
    }
  }

  /** The rest of ``name={`{t(…)}`}`` after a name ending at `e`. */
  function TsxTemplateCall(s: string, e: nat): Option<string> {
    if !IsAt(s, e, "={`{t(") then None
    else
      match FindFrom(s, '`', e + 6)
      case None => None
      case Some(q) =>
        if q >= e + 8 && s[q - 2] == ')' && s[q - 1] == '}' && q + 1 < |s| && s[q + 1] == '}' then Some(s[e + 4..q - 1])
        else None
  }

  /** The TSX template scan finds a call group exactly when there is one, and
      there is at most one. */
  lemma TsxTemplateCallSpec(s: string, e: nat)
    ensures TsxTemplateCall(s, e).Some? ==> TsxTemplateCallAfter(s, e, TsxTemplateCall(s, e).value)
    ensures forall c :: TsxTemplateCallAfter(s, e, c) ==> TsxTemplateCall(s, e) == Some(c)
  {
    if TsxTemplateCall(s, e).Some? {
      TsxTemplateAt(s, e, FindFrom(s, '`', e + 6).value);
    }
    forall c | TsxTemplateCallAfter(s, e, c) ensures TsxTemplateCall(s, e) == Some(c) {
      TsxTemplateFound(s, e, c);
    }
  }

  /** The call group of `pat` after a name ending at `e`. */
  function CallOf(pat: PropsPattern, s: string, e: nat): Option<string> {
    match pat
    case VueQuoted => VueQuotedCall(s, e)
    case TsxQuoted => TsxQuotedCall(s, e)
    case TsxTemplate => TsxTemplateCall(s, e)
  }

  /** What the scan of `pat` finds is a call group. */
  lemma CallOfFound(pat: PropsPattern, s: string, e: nat)
    requires CallOf(pat, s, e).Some?
    ensures CallAfter(pat, s, e, CallOf(pat, s, e).value)
  {
    CallOfSpec(pat, s, e);
  }

  /** The scan of `pat` finds a call group exactly when there is one, and
      then the shortest. */
  lemma CallOfSpec(pat: PropsPattern, s: string, e: nat)
    ensures CallOf(pat, s, e).Some? ==> CallAfter(pat, s, e, CallOf(pat, s, e).value)
    ensures forall c :: CallAfter(pat, s, e, c) ==> CallOf(pat, s, e).Some? && |CallOf(pat, s, e).value| <= |c|
  {
    match pat
    case VueQuoted => VueQuotedCallSpec(s, e);
    case TsxQuoted => TsxQuotedCallSpec(s, e);
    case TsxTemplate => TsxTemplateCallSpec(s, e);
  }

  /** The match of `pat` whose name starts at `p`: the greedy name, then the
      call group of the pattern. */
  function PropsAt(pat: PropsPattern, s: string, p: nat): Option<PropsMatch>
    requires p <= |s|
  {
    if p == |s| || !IsWordChar(s[p]) then None
    else
      var e := NameEnd(s, p + 1);
      match CallOf(pat, s, e)
      case None => None
      case Some(c) => Some(PropsMatch(s[p..e], c))
  }

  /** A name from `p` to `e` followed by a call group is a match at `p`. */
  lemma MatchOf(pat: PropsPattern, s: string, p: nat, e: nat, c: string)
    requires p <= e <= |s| && IsName(s[p..e]) && CallAfter(pat, s, e, c)
    ensures PropsMatchAt(pat, s, p, PropsMatch(s[p..e], c))
  {
  }

  /** The greedy name followed by a call group of `pat` is a match. */
  lemma MatchFromScan(pat: PropsPattern, s: string, p: nat)
    requires p < |s| && IsWordChar(s[p]) && CallOf(pat, s, NameEnd(s, p + 1)).Some?
    ensures PropsMatchAt(pat, s, p, PropsMatch(s[p..NameEnd(s, p + 1)], CallOf(pat, s, NameEnd(s, p + 1)).value))
  {
    var e := NameEnd(s, p + 1);
    var c := CallOf(pat, s, e).value;
    assert IsName(s[p..e]) by { NameFromScan(s, p); }
    assert CallAfter(pat, s, e, c) by { CallOfFound(pat, s, e); }
    MatchOf(pat, s, p, e, c);
  }

  /** `PropsAt` finds a match at `p` exactly when one starts there, and then
      the one the pattern prefers: the only name, with the shortest call. */
  lemma PropsAtSpec(pat: PropsPattern, s: string, p: nat)
    requires p <= |s|
    ensures PropsAt(pat, s, p).Some? ==> PropsMatchAt(pat, s, p, PropsAt(pat, s, p).value)
    ensures forall pm :: PropsMatchAt(pat, s, p, pm) ==>
      PropsAt(pat, s, p).Some? && pm.propName == PropsAt(pat, s, p).value.propName
      && |PropsAt(pat, s, p).value.call| <= |pm.call|
  {
    var r := PropsAt(pat, s, p);
    if p < |s| && IsWordChar(s[p]) {
      var e := NameEnd(s, p + 1);
      CallOfSpec(pat, s, e);
      if CallOf(pat, s, e).Some? {
        assert r == Some(PropsMatch(s[p..e], CallOf(pat, s, e).value));
        MatchFromScan(pat, s, p);
      } else {
        assert r.None?;
      }
      forall pm | PropsMatchAt(pat, s, p, pm)
        ensures r.Some? && pm.propName == r.value.propName && |r.value.call| <= |pm.call|
      {
        MatchName(pat, s, p, pm);
      }
    } else {
      forall pm | PropsMatchAt(pat, s, p, pm) ensures false {
        MatchName(pat, s, p, pm);
      }
    }
  }

  /** `String.prototype.match` without the global flag: the match at the
      leftmost index from `p` on where one starts. */
  function SearchProps(pat: PropsPattern, s: string, p: nat): Option<PropsMatch>
    requires p <= |s|
    decreases |s| - p
  {
    var m := PropsAt(pat, s, p);
    if m.Some? then m
    else if p == |s| then None
    else SearchProps(pat, s, p + 1)
  }

  /** The search returns the match at the first index from `p` that has one,
      or nothing when no index has one. */
  lemma {:induction false} SearchPropsSpec(pat: PropsPattern, s: string, p: nat)
    requires p <= |s|
    ensures SearchProps(pat, s, p).Some? ==>
      exists q :: p <= q <= |s| && PropsAt(pat, s, q) == SearchProps(pat, s, p)
        && forall q' :: p <= q' < q ==> PropsAt(pat, s, q').None?
    ensures SearchProps(pat, s, p).None? ==> forall q :: p <= q <= |s| ==> PropsAt(pat, s, q).None?
    decreases |s| - p
  {
    var r := SearchProps(pat, s, p);
    if PropsAt(pat, s, p).Some? {
      assert r == PropsAt(pat, s, p);
    } else if p < |s| {
      SearchPropsSpec(pat, s, p + 1);
      assert r == SearchProps(pat, s, p + 1);
      if r.Some? {
        var q :| p + 1 <= q <= |s| && PropsAt(pat, s, q) == r && forall q' :: p + 1 <= q' < q ==> PropsAt(pat, s, q').None?;
        assert forall q' :: p <= q' < q ==> PropsAt(pat, s, q').None?;
      }
    }
  }

  /** What the search from 0 finds is the match `s.match(pattern)` reports. */
  lemma SearchFirst(pat: PropsPattern, s: string)
    requires SearchProps(pat, s, 0).Some?
    ensures FirstMatch(pat, s, SearchProps(pat, s, 0).value)
  {
    SearchPropsSpec(pat, s, 0);
    var pm := SearchProps(pat, s, 0).value;
    var q0 :| 0 <= q0 <= |s| && PropsAt(pat, s, q0) == Some(pm) && forall q' :: 0 <= q' < q0 ==> PropsAt(pat, s, q').None?;
    PropsAtSpec(pat, s, q0);
    forall q': nat, pm' | q' < q0 ensures !PropsMatchAt(pat, s, q', pm') {
      PropsAtSpec(pat, s, q');
    }
    assert FirstMatchAt(pat, s, q0, pm);
  }

  /** Two reported matches start at one index and have calls of one length. */
  lemma FirstMatchAtSame(pat: PropsPattern, s: string, q1: nat, q2: nat, pm1: PropsMatch, pm2: PropsMatch)
    requires FirstMatchAt(pat, s, q1, pm1) && FirstMatchAt(pat, s, q2, pm2)
    ensures q1 == q2 && PropsMatchAt(pat, s, q1, pm2) && |pm1.call| == |pm2.call|
  {
  }

  /** `s.match(pattern)` reports at most one match. */
  lemma FirstMatchUnique(pat: PropsPattern, s: string, pm1: PropsMatch, pm2: PropsMatch)
    requires FirstMatch(pat, s, pm1) && FirstMatch(pat, s, pm2)
    ensures pm1 == pm2
  {
    var q1: nat :| FirstMatchAt(pat, s, q1, pm1);
    var q2: nat :| FirstMatchAt(pat, s, q2, pm2);
    FirstMatchAtSame(pat, s, q1, q2, pm1, pm2);
    SameMatch(pat, s, q1, pm1, pm2);
  }

  /** The search from 0 finds nothing exactly when nothing matches. */
  lemma SearchNone(pat: PropsPattern, s: string)
    ensures SearchProps(pat, s, 0).None? <==> NoMatch(pat, s)
  {
    SearchPropsSpec(pat, s, 0);
    if SearchProps(pat, s, 0).None? {
      forall q: nat, pm ensures !PropsMatchAt(pat, s, q, pm) {
        if q <= |s| { PropsAtSpec(pat, s, q); }
      }
    } else {
      SearchFirst(pat, s);
    }
  }

  /** The search from 0 finds nothing exactly when nothing matches, and
      otherwise finds exactly the match `s.match(pattern)` reports. */
  lemma SearchFinds(pat: PropsPattern, s: string)
    ensures SearchProps(pat, s, 0).None? <==> NoMatch(pat, s)
    ensures forall pm :: FirstMatch(pat, s, pm) <==> SearchProps(pat, s, 0) == Some(pm)
  {
    SearchNone(pat, s);
    forall pm ensures FirstMatch(pat, s, pm) <==> SearchProps(pat, s, 0) == Some(pm) {
      if SearchProps(pat, s, 0).Some? {
        SearchFirst(pat, s);
        if FirstMatch(pat, s, pm) {
          FirstMatchUnique(pat, s, pm, SearchProps(pat, s, 0).value);
        }
      }
    }
  }

  /** What `checkAndFixPropsBinding` returns once the context is `[cs, ce)`
      and `full` is the text there after the edit: for `vue`, a replacement
      wrapped in `{{ }}` inside a match becomes `:name="call"` over the
      context; for `tsx`, one wrapped in `{ }` becomes `name={call}` using the
      quoted pattern first, then the template pattern; anything else leaves
      the edit as it is. */
  ghost predicate IsPropsFix(ft: FileType, mod: Modification, full: string, cs: nat, ce: nat, r: Modification) {
    var rep := mod.replacement;
    match ft
    case Ts => r == mod
    case Vue =>
      if StartsWith(rep, "{{") && EndsWith(rep, "}}") && !NoMatch(VueQuoted, full) then
        exists pm :: FirstMatch(VueQuoted, full, pm) && r == Modification(cs, ce, ":" + pm.propName + "=\"" + pm.call + "\"")
      else r == mod
    case Tsx =>
      if !(StartsWith(rep, "{") && EndsWith(rep, "}")) || (NoMatch(TsxQuoted, full) && NoMatch(TsxTemplate, full)) then
        r == mod
      else if !NoMatch(TsxQuoted, full) then
        exists pm :: FirstMatch(TsxQuoted, full, pm) && r == Modification(cs, ce, pm.propName + "={" + pm.call + "}")
      else
        exists pm :: FirstMatch(TsxTemplate, full, pm) && r == Modification(cs, ce, pm.propName + "={" + pm.call + "}")
  }

  /** The result of `checkAndFixPropsBinding` once the context `[cs, ce)` is known. */
  function PropsFixInContext(ft: FileType, mod: Modification, content: string, cs: nat, ce: nat): (r: Modification)
    ensures IsPropsFix(ft, mod, FullContext(content, mod, cs, ce), cs, ce, r)
    ensures r == mod || (r.start == cs && r.end == ce)
  {
    var full := FullContext(content, mod, cs, ce);
    var rep := mod.replacement;
    match ft
    case Ts => mod
    case Vue =>
      SearchFinds(VueQuoted, full);
      if !(StartsWith(rep, "{{") && EndsWith(rep, "}}")) then mod
      else
        (match SearchProps(VueQuoted, full, 0)
         case Some(pm) => Modification(cs, ce, ":" + pm.propName + "=\"" + pm.call + "\"")
         case None => mod)
    case Tsx =>
      SearchFinds(TsxQuoted, full);
      SearchFinds(TsxTemplate, full);
      if !(StartsWith(rep, "{") && EndsWith(rep, "}")) then mod
      else
        var m := SearchProps(TsxQuoted, full, 0);
        match if m.Some? then m else SearchProps(TsxTemplate, full, 0)
        case Some(pm) => Modification(cs, ce, pm.propName + "={" + pm.call + "}")
        case None => mod
  }

  /** `checkAndFixPropsBinding` as a function of its inputs: the rewrite
      `IsPropsFix` describes, over the context from just after white space to
      a space or `>`. */
  function PropsBindingFix(ft: FileType, mod: Modification, content: string): (r: Modification)
    ensures IsPropsFix(ft, mod, FullContext(content, mod, ContextStart(content, mod.start), ContextEnd(content, mod.end)),
      ContextStart(content, mod.start), ContextEnd(content, mod.end), r)
    ensures r != mod ==>
      r.start == ContextStart(content, mod.start) && r.end == ContextEnd(content, mod.end)
      && r.start <= mod.start && mod.end <= r.end && (mod.end <= |content| ==> r.end <= |content|)
      && (r.start == 0 || SpaceAt(content, r.start - 1))
      && (r.end < |content| ==> content[r.end] == ' ' || content[r.end] == '>')
  {
    if ft == Ts then mod
    else
      var cs := ContextStart(content, mod.start);
      var ce := ContextEnd(content, mod.end);
      PropsFixInContext(ft, mod, content, cs, ce)
  }

  /** The backward scan from `i` stops at `j` when white space or the start
      of the text comes just before `j` and none lies in `[j, i)`. */
  lemma ContextStartIs(content: string, i: nat, j: nat)
    requires j <= i && (j == 0 || SpaceAt(content, j - 1))
    requires forall k :: j <= k < i ==> !SpaceAt(content, k)
    ensures ContextStart(content, i) == j
  {
  }

  /** The forward scan from `j` stops at `t` when a space, `>` or the end of
      the text comes at `t` and neither lies in `[j, t)`. */
  lemma ContextEndIs(content: string, j: nat, t: nat)
    requires j <= t <= |content| && (t == |content| || content[t] == ' ' || content[t] == '>')
    requires forall k :: j <= k < t ==> content[k] != ' ' && content[k] != '>'
    ensures ContextEnd(content, j) == t
  {
  }

  /** Where the context is `[cs, ce)`, `PropsBindingFix` is the rewrite for it. */
  lemma PropsBindingFixIn(ft: FileType, mod: Modification, content: string, cs: nat, ce: nat)
    requires ContextStart(content, mod.start) == cs && ContextEnd(content, mod.end) == ce
    ensures IsPropsFix(ft, mod, FullContext(content, mod, cs, ce), cs, ce, PropsBindingFix(ft, mod, content))
  {
  }

  /** For `vue`, a wrapped replacement and a match `pm` fix the rewrite. */
  lemma VueFixOfMatch(mod: Modification, full: string, cs: nat, ce: nat, r: Modification, pm: PropsMatch)
    requires IsPropsFix(Vue, mod, full, cs, ce, r)
    requires StartsWith(mod.replacement, "{{") && EndsWith(mod.replacement, "}}")
    requires FirstMatch(VueQuoted, full, pm)
    ensures r == Modification(cs, ce, ":" + pm.propName + "=\"" + pm.call + "\"")
  {
    var q: nat :| PropsMatchAt(VueQuoted, full, q, pm);
    var pm' :| FirstMatch(VueQuoted, full, pm') && r == Modification(cs, ce, ":" + pm'.propName + "=\"" + pm'.call + "\"");
    FirstMatchUnique(VueQuoted, full, pm, pm');
  }

  /** For `tsx`, a wrapped replacement and a match `pm` of the quoted pattern
      fix the rewrite. */
  lemma TsxFixOfMatch(mod: Modification, full: string, cs: nat, ce: nat, r: Modification, pm: PropsMatch)
    requires IsPropsFix(Tsx, mod, full, cs, ce, r)
    requires StartsWith(mod.replacement, "{") && EndsWith(mod.replacement, "}")
    requires FirstMatch(TsxQuoted, full, pm)
    ensures r == Modification(cs, ce, pm.propName + "={" + pm.call + "}")
  {
    var q: nat :| PropsMatchAt(TsxQuoted, full, q, pm);
    var pm' :| FirstMatch(TsxQuoted, full, pm') && r == Modification(cs, ce, pm'.propName + "={" + pm'.call + "}");
    FirstMatchUnique(TsxQuoted, full, pm, pm');
  }

  /** An edit of the whole value of the attribute `name="x"`, which white
      space or the start of the text comes before and a space, `>` or the
      end after: its context is the attribute, and the text there after the
      edit is `name="rep"`. */
  lemma AttributeContext(content: string, a: string, name: string, x: string, b: string, rep: string)
    requires content == a + name + "=\"" + x + "\"" + b
    requires a == [] || IsJsSpace(a[|a| - 1])
    requires b == [] || b[0] == ' ' || b[0] == '>'
    requires IsName(name)
    ensures ContextStart(content, |a| + |name| + 2) == |a|
    ensures ContextEnd(content, |a| + |name| + 2 + |x|) == |a| + |name| + 3 + |x|
    ensures FullContext(content, Modification(|a| + |name| + 2, |a| + |name| + 2 + |x|, rep), |a|, |a| + |name| + 3 + |x|)
      == name + "=\"" + rep + "\""
  {
    AttributeStart(content, a, name, x, b);
    AttributeEnd(content, a, name, x, b);
    AttributeFull(content, a, name, x, b, rep);
  }

  /** For `vue`, where the context is `[cs, ce)` and `pm` is the first
      match there, a wrapped replacement becomes the binding of `pm`. */
  lemma VueFixIs(mod: Modification, content: string, cs: nat, ce: nat, pm: PropsMatch)
    requires ContextStart(content, mod.start) == cs && ContextEnd(content, mod.end) == ce
    requires StartsWith(mod.replacement, "{{") && EndsWith(mod.replacement, "}}")
    requires FirstMatch(VueQuoted, FullContext(content, mod, cs, ce), pm)
    ensures PropsBindingFix(Vue, mod, content) == Modification(cs, ce, ":" + pm.propName + "=\"" + pm.call + "\"")
  {
    PropsBindingFixIn(Vue, mod, content, cs, ce);
    VueFixOfMatch(mod, FullContext(content, mod, cs, ce), cs, ce, PropsBindingFix(Vue, mod, content), pm);
  }

  /** For `tsx`, the same with the quoted pattern and `name={call}`. */
  lemma TsxFixIs(mod: Modification, content: string, cs: nat, ce: nat, pm: PropsMatch)
    requires ContextStart(content, mod.start) == cs && ContextEnd(content, mod.end) == ce
    requires StartsWith(mod.replacement, "{") && EndsWith(mod.replacement, "}")
    requires FirstMatch(TsxQuoted, FullContext(content, mod, cs, ce), pm)
    ensures PropsBindingFix(Tsx, mod, content) == Modification(cs, ce, pm.propName + "={" + pm.call + "}")
  {
    PropsBindingFixIn(Tsx, mod, content, cs, ce);
    TsxFixOfMatch(mod, FullContext(content, mod, cs, ce), cs, ce, PropsBindingFix(Tsx, mod, content), pm);
  }

  /** For `vue`, where the context is `[cs, ce)` and holds the attribute
      `name="{{call}}"` after the edit, the edit becomes `:name="call"`. */
  lemma VueBindingOf(mod: Modification, content: string, cs: nat, ce: nat, name: string, call: string)
    requires ContextStart(content, mod.start) == cs && ContextEnd(content, mod.end) == ce
    requires mod.replacement == "{{" + call + "}}"
    requires FullContext(content, mod, cs, ce) == name + "=\"" + mod.replacement + "\""
    requires IsName(name) && CallShape(call)
    requires forall k :: 0 <= k < |call| ==> !IsLineTerminator(call[k]) && call[k] != '"'
    ensures PropsBindingFix(Vue, mod, content) == Modification(cs, ce, ":" + name + "=\"" + call + "\"")
  {
    assert name + "=\"" + mod.replacement + "\"" == name + "=\"{{" + call + "}}\"";
    assert StartsWith(mod.replacement, "{{") && EndsWith(mod.replacement, "}}");
    VueFirstMatch(name, call);
    VueFixIs(mod, content, cs, ce, PropsMatch(name, call));
  }

  /** For `tsx`, where the context holds `name="{call}"` after the edit, the
      edit becomes `name={call}`. */
  lemma TsxBindingOf(mod: Modification, content: string, cs: nat, ce: nat, name: string, call: string)
    requires ContextStart(content, mod.start) == cs && ContextEnd(content, mod.end) == ce
    requires mod.replacement == "{" + call + "}"
    requires FullContext(content, mod, cs, ce) == name + "=\"" + mod.replacement + "\""
    requires IsName(name) && CallShape(call)
    requires forall k :: 0 <= k < |call| ==> call[k] != '}'
    ensures PropsBindingFix(Tsx, mod, content) == Modification(cs, ce, name + "={" + call + "}")
  {
    assert name + "=\"" + mod.replacement + "\"" == name + "=\"{" + call + "}\"";
    assert StartsWith(mod.replacement, "{") && EndsWith(mod.replacement, "}");
    TsxFirstMatch(name, call);
    TsxFixIs(mod, content, cs, ce, PropsMatch(name, call));
  }

  /** The backward scan from the value of the attribute `name="x"`, which
      white space or the start of the text comes before, stops at the start
      of the attribute. */
  lemma AttributeStart(content: string, a: string, name: string, x: string, b: string)
    requires content == a + name + "=\"" + x + "\"" + b
    requires a == [] || IsJsSpace(a[|a| - 1])
    requires IsName(name)
    ensures ContextStart(content, |a| + |name| + 2) == |a|
  {
    var start := |a| + |name| + 2;
    forall k | |a| <= k < start ensures !SpaceAt(content, k) {
      if k < |a| + |name| {
        assert content[k] == name[k - |a|] && NameCharAt(name, k - |a|, |name|);
      } else {
        assert content[k] == "=\""[k - |a| - |name|];
      }
    }
    if a != [] { assert content[|a| - 1] == a[|a| - 1]; }
    ContextStartIs(content, start, |a|);
  }

  /** The forward scan from the end of the value of `name="x"`, which a
      space, `>` or the end of the text comes after, stops just after the
      closing quote. */
  lemma AttributeEnd(content: string, a: string, name: string, x: string, b: string)
    requires content == a + name + "=\"" + x + "\"" + b
    requires b == [] || b[0] == ' ' || b[0] == '>'
    ensures ContextEnd(content, |a| + |name| + 2 + |x|) == |a| + |name| + 3 + |x|
  {
    var end := |a| + |name| + 2 + |x|;
    assert content[end] == '"';
    if b != [] { assert content[end + 1] == b[0]; }
    ContextEndIs(content, end, end + 1);
  }

  /** Over the whole attribute `name="x"`, the text after an edit of its
      value to `rep` is `name="rep"`. */
  lemma AttributeFull(content: string, a: string, name: string, x: string, b: string, rep: string)
    requires content == a + name + "=\"" + x + "\"" + b
    ensures FullContext(content, Modification(|a| + |name| + 2, |a| + |name| + 2 + |x|, rep), |a|, |a| + |name| + 3 + |x|)
      == name + "=\"" + rep + "\""
  {
    var start := |a| + |name| + 2;
    var end := start + |x|;
    assert content[|a|..start] == name + "=\"";
    assert content[end..end + 1] == "\"";
  }

  /** In `name="{{call}}"`, a call group that ends earlier than `call` would
      need a `"` inside `call`. */
  lemma VueCallLongest(name: string, call: string, c: string)
    requires CallShape(call) && forall k :: 0 <= k < |call| ==> call[k] != '"'
    requires VueCallAfter(name + "=\"{{" + call + "}}\"", |name|, c)
    ensures |call| <= |c|
  {
    var full := name + "=\"{{" + call + "}}\"";
    var g := |name| + 4;
    assert full[g..] == call + "}}\"";
    forall j | g <= j < g + |call| + 2 ensures full[j] != '"' {
      assert full[j] == (call + "}}\"")[j - g];
    }
    assert full[g + |c| + 2] == full[g + |c|..g + |c| + 3][2];
  }

  /** `name="{{call}}"`, with `call` on one line, is a match of the Vue
      pattern at its start with `name` and `call`. */
  lemma VueAttributeMatch(name: string, call: string)
    requires IsName(name) && CallShape(call)
    requires forall k :: 0 <= k < |call| ==> !IsLineTerminator(call[k])
    ensures PropsMatchAt(VueQuoted, name + "=\"{{" + call + "}}\"", 0, PropsMatch(name, call))
  {
    var full := name + "=\"{{" + call + "}}\"";
    var e := |name|;
    assert VueCallAfter(full, e, call) by {
      assert full[e..e + 4] == "=\"{{" && full[e + 4..e + 4 + |call|] == call;
      assert full[e + 4 + |call|..e + 7 + |call|] == "}}\"";
    }
    assert full[..e] == name;
  }

  /** The name of any match at the start of `name="…` is `name`. */
  lemma AttributeNameEnd(pat: PropsPattern, full: string, name: string, pm: PropsMatch)
    requires IsName(name) && IsAt(full, 0, name) && |name| < |full| && full[|name|] == '='
    requires PropsMatchAt(pat, full, 0, pm)
    ensures |pm.propName| == |name|
  {
    NameEndAt(full, 0, name, 1);
    MatchNameEnd(pat, full, 0, pm);
  }

  /** No match at the start of `name="{{call}}"` has a shorter call than
      `call`, when `call` is free of `"`. */
  lemma VueAttributeShortest(name: string, call: string, pm: PropsMatch)
    requires IsName(name) && CallShape(call)
    requires forall k :: 0 <= k < |call| ==> call[k] != '"'
    requires PropsMatchAt(VueQuoted, name + "=\"{{" + call + "}}\"", 0, pm)
    ensures |call| <= |pm.call|
  {
    var full := name + "=\"{{" + call + "}}\"";
    assert IsAt(full, 0, name) && full[|name|] == '=' by { assert full[..|name|] == name; }
    AttributeNameEnd(VueQuoted, full, name, pm);
    VueCallLongest(name, call, pm.call);
  }

  /** `name="{{call}}"`, with `call` on one line and free of `"`, matches
      the Vue pattern at its start with `name` and `call`. */
  lemma VueFirstMatch(name: string, call: string)
    requires IsName(name) && CallShape(call)
    requires forall k :: 0 <= k < |call| ==> !IsLineTerminator(call[k]) && call[k] != '"'
    ensures FirstMatch(VueQuoted, name + "=\"{{" + call + "}}\"", PropsMatch(name, call))
  {
    var full := name + "=\"{{" + call + "}}\"";
    VueAttributeMatch(name, call);
    forall pm' | PropsMatchAt(VueQuoted, full, 0, pm') ensures |call| <= |pm'.call| {
      VueAttributeShortest(name, call, pm');
    }
    assert FirstMatchAt(VueQuoted, full, 0, PropsMatch(name, call));
  }

  /** `name="{call}"`, with no `}` in `call`, is a match of the quoted TSX
      pattern at its start with `name` and `call`. */
  lemma TsxAttributeMatch(name: string, call: string)
    requires IsName(name) && CallShape(call)
    requires forall k :: 0 <= k < |call| ==> call[k] != '}'
    ensures PropsMatchAt(TsxQuoted, name + "=\"{" + call + "}\"", 0, PropsMatch(name, call))
  {
    var full := name + "=\"{" + call + "}\"";
    var e := |name|;
    assert TsxQuotedCallAfter(full, e, call) by {
      assert full[e..e + 3] == "=\"{" && full[e + 3..e + 3 + |call|] == call;
      assert full[e + 3 + |call|..e + 5 + |call|] == "}\"";
    }
    assert full[..e] == name;
  }

  /** Every match at the start of `name="{call}"` has the call `call`. */
  lemma TsxAttributeShortest(name: string, call: string, pm: PropsMatch)
    requires IsName(name) && CallShape(call)
    requires forall k :: 0 <= k < |call| ==> call[k] != '}'
    requires PropsMatchAt(TsxQuoted, name + "=\"{" + call + "}\"", 0, pm)
    ensures |call| <= |pm.call|
  {
    var full := name + "=\"{" + call + "}\"";
    TsxAttributeMatch(name, call);
    assert IsAt(full, 0, name) && full[|name|] == '=' by { assert full[..|name|] == name; }
    AttributeNameEnd(TsxQuoted, full, name, pm);
    TsxQuotedCallSpec(full, |name|);
  }

  /** `name="{call}"`, with no `}` in `call`, matches the quoted TSX pattern
      at its start with `name` and `call`. */
  lemma TsxFirstMatch(name: string, call: string)
    requires IsName(name) && CallShape(call)
    requires forall k :: 0 <= k < |call| ==> call[k] != '}'
    ensures FirstMatch(TsxQuoted, name + "=\"{" + call + "}\"", PropsMatch(name, call))
  {
    var full := name + "=\"{" + call + "}\"";
    TsxAttributeMatch(name, call);
    forall pm' | PropsMatchAt(TsxQuoted, full, 0, pm') ensures |call| <= |pm'.call| {
      TsxAttributeShortest(name, call, pm');
    }
    assert FirstMatchAt(TsxQuoted, full, 0, PropsMatch(name, call));
  }

  /** In a `vue` document, an edit that replaces the whole value of the
      attribute `name="…"` by `{{call}}` becomes the binding `:name="call"`
      over the whole attribute, when white space or the start of the text
      comes before the attribute and a space, `>` or the end after it, and
      `call` is on one line and free of `"`. */
  lemma VueAttributeBinding(content: string, a: string, name: string, x: string, b: string, call: string)
    requires content == a + name + "=\"" + x + "\"" + b
    requires a == [] || IsJsSpace(a[|a| - 1])
    requires b == [] || b[0] == ' ' || b[0] == '>'
    requires IsName(name) && CallShape(call)
    requires forall k :: 0 <= k < |call| ==> !IsLineTerminator(call[k]) && call[k] != '"'
    ensures PropsBindingFix(Vue, Modification(|a| + |name| + 2, |a| + |name| + 2 + |x|, "{{" + call + "}}"), content)
      == Modification(|a|, |a| + |name| + 3 + |x|, ":" + name + "=\"" + call + "\"")
  {
    var mod := Modification(|a| + |name| + 2, |a| + |name| + 2 + |x|, "{{" + call + "}}");
    AttributeContext(content, a, name, x, b, mod.replacement);
    VueBindingOf(mod, content, |a|, |a| + |name| + 3 + |x|, name, call);
  }

  /** In a `tsx` document, an edit that replaces the whole value of the
      attribute `name="…"` by `{call}` becomes `name={call}` over the whole
      attribute, under the same conditions on its surroundings, when `call`
      has no `}`. */
  lemma TsxAttributeBinding(content: string, a: string, name: string, x: string, b: string, call: string)
    requires content == a + name + "=\"" + x + "\"" + b
    requires a == [] || IsJsSpace(a[|a| - 1])
    requires b == [] || b[0] == ' ' || b[0] == '>'
    requires IsName(name) && CallShape(call)
    requires forall k :: 0 <= k < |call| ==> call[k] != '}'
    ensures PropsBindingFix(Tsx, Modification(|a| + |name| + 2, |a| + |name| + 2 + |x|, "{" + call + "}"), content)
      == Modification(|a|, |a| + |name| + 3 + |x|, name + "={" + call + "}")
  {
    var mod := Modification(|a| + |name| + 2, |a| + |name| + 2 + |x|, "{" + call + "}");
    AttributeContext(content, a, name, x, b, mod.replacement);
    TsxBindingOf(mod, content, |a|, |a| + |name| + 3 + |x|, name, call);
  }

  /** `title="X"` in `<a title="X">`, its value replaced by `{{t('k')}}` in
      a `vue` document, becomes `:title="t('k')"` over offsets 3 to 12. */
  lemma VueTitleBinding(content: string, mod: Modification)
    requires content == "<a title=\"X\">" && mod == Modification(10, 11, "{{t('k')}}")
    ensures PropsBindingFix(Vue, mod, content) == Modification(3, 12, ":title=\"t('k')\"")
  {
    var a, name, x, b, call := "<a ", "title", "X", ">", "t('k')";
    assert forall k :: 0 <= k < |name| ==> NameCharAt(name, k, |name|);
    assert content == a + name + "=\"" + x + "\"" + b;
    assert mod == Modification(|a| + |name| + 2, |a| + |name| + 2 + |x|, "{{" + call + "}}");
    assert |a| == 3 && |a| + |name| + 3 + |x| == 12;
    assert ":" + name + "=\"" + call + "\"" == ":title=\"t('k')\"";
    VueAttributeBinding(content, a, name, x, b, call);
  }

  /** `checkAndFixPropsBinding`: the two scans move the context bounds a
      character at a time, then the patterns are tried on the full context. */
  method CheckAndFixPropsBinding(ft: FileType, mod: Modification, content: string) returns (r: Modification)
    ensures r == PropsBindingFix(ft, mod, content)
  {
    if ft == Ts {
      return mod;
    }
    var contextStart: nat := mod.start;
    while contextStart > 0 && !SpaceAt(content, contextStart - 1)
      invariant contextStart <= mod.start
      invariant ContextStart(content, contextStart) == ContextStart(content, mod.start)
      decreases contextStart
    {
      contextStart := contextStart - 1;
    }
    var contextEnd: nat := mod.end;
    while contextEnd < |content| && content[contextEnd] != ' ' && content[contextEnd] != '>'
      invariant mod.end <= contextEnd
      invariant ContextEnd(content, contextEnd) == ContextEnd(content, mod.end)
      decreases |content| - contextEnd
    {
      contextEnd := contextEnd + 1;
    }
    r := PropsFixInContext(ft, mod, content, contextStart, contextEnd);
  }

  /** `open`, then anything without a line terminator, then `close`,
      somewhere in `s` from `p` on. */
  function ContainsLazy(s: string, p: nat, open: string, close: string): bool
    decreases |s| - p
  {
    if p > |s| then false
    else (IsAt(s, p, open) && LazyClose(s, p + |open|, close).Some?) || ContainsLazy(s, p + 1, open, close)
  }

  /** One of the six patterns of redundant stringification occurs: a quote
      character (`"`, `'` or a backtick), `{{t(` or `{t(`, anything on one
      line, then `)}}` or `)}` and the same quote character. */
  predicate Stringified(s: string) {
    ContainsLazy(s, 0, "\"{{t(", ")}}\"") || ContainsLazy(s, 0, "'{{t(", ")}}'") || ContainsLazy(s, 0, "`{{t(", ")}}`")
    || ContainsLazy(s, 0, "\"{t(", ")}\"") || ContainsLazy(s, 0, "'{t(", ")}'") || ContainsLazy(s, 0, "`{t(", ")}`")
  }

  /** `checkAndFixUnnecessaryStringification`: with one character of context on
      each side, a stringified call widens the edit over those characters and
      loses its wrapper (two characters at each end for `vue`, one for `tsx`). */
  function StringificationFix(ft: FileType, mod: Modification, content: string): (r: Modification)
    ensures ft == Ts ==> r == mod
    ensures ft != Ts && Stringified(FullContext(content, mod, if mod.start >= 1 then mod.start - 1 else 0, Min(|content|, mod.end + 1))) ==>
      r.start == (if mod.start >= 1 then mod.start - 1 else 0) && r.end == Min(|content|, mod.end + 1)
      && r.replacement == SliceInner(mod.replacement, if ft == Vue then 2 else 1)
    ensures ft != Ts && !Stringified(FullContext(content, mod, if mod.start >= 1 then mod.start - 1 else 0, Min(|content|, mod.end + 1))) ==>
      r == mod
  {
    if ft == Ts then mod
    else
      var cs := if mod.start >= 1 then mod.start - 1 else 0;
      var ce := Min(|content|, mod.end + 1);
      if Stringified(FullContext(content, mod, cs, ce)) then
        Modification(cs, ce, Unwrap(ft, mod.replacement))
      else mod
  }

  /** The lazy scan succeeds when `close` occurs with no line terminator before it. */
  lemma {:induction false} LazyCloseFinds(s: string, i: nat, k: nat, close: string)
    requires i <= k && IsAt(s, k, close)
    requires forall j :: i <= j < k ==> !IsLineTerminator(s[j])
    ensures LazyClose(s, i, close).Some?
    decreases k - i
  {
    if !IsAt(s, i, close) {
      LazyCloseFinds(s, i + 1, k, close);
    }
  }

  /** A call on one line, wrapped and placed between two double quotes in a
      `tsx` or `vue` document, is stringified: the fix-up widens the edit over
      both quotes and emits the bare call, so the quotes disappear. */
  lemma QuotesRemoved(ft: FileType, mod: Modification, content: string, call: string)
    requires ft != Ts
    requires StartsWith(call, "t(") && EndsWith(call, ")")
    requires forall j :: 0 <= j < |call| ==> !IsLineTerminator(call[j])
    requires mod.replacement == Wrap(ft, false, call)
    requires 1 <= mod.start <= mod.end < |content|
    requires content[mod.start - 1] == '"' && content[mod.end] == '"'
    ensures StringificationFix(ft, mod, content) == Modification(mod.start - 1, mod.end + 1, call)
  {
    QuotedContext(mod, content);
    WrappedIsStringified(ft, call);
    StringifiedFix(ft, mod, content);
    UnwrapWrap(ft, false, call);
  }

  /** A stringified call in the one-character context of an edit widens the
      edit over that context and unwraps it. */
  lemma StringifiedFix(ft: FileType, mod: Modification, content: string)
    requires ft != Ts && 1 <= mod.start && mod.end < |content|
    requires Stringified(FullContext(content, mod, mod.start - 1, Min(|content|, mod.end + 1)))
    ensures StringificationFix(ft, mod, content) == Modification(mod.start - 1, mod.end + 1, Unwrap(ft, mod.replacement))
  {
    var r := StringificationFix(ft, mod, content);
    assert r.replacement == Unwrap(ft, mod.replacement) by {
      if ft == Vue { } else { assert ft == Tsx; }
    }
  }

  lemma QuotedContext(mod: Modification, content: string)
    requires 1 <= mod.start <= mod.end < |content|
    requires content[mod.start - 1] == '"' && content[mod.end] == '"'
    ensures FullContext(content, mod, mod.start - 1, Min(|content|, mod.end + 1)) == "\"" + mod.replacement + "\""
  {
    assert JsSubstring(content, mod.start - 1, mod.start) == "\"";
    assert JsSubstring(content, mod.end, mod.end + 1) == "\"";
  }

  lemma WrappedIsStringified(ft: FileType, call: string)
    requires ft != Ts
    requires StartsWith(call, "t(") && EndsWith(call, ")")
    requires forall j :: 0 <= j < |call| ==> !IsLineTerminator(call[j])
    ensures Stringified("\"" + Wrap(ft, false, call) + "\"")
  {
    var full := "\"" + Wrap(ft, false, call) + "\"";
    assert call[1] == '(';
    var rest := call[2..|call| - 1];
    assert call == "t(" + rest + ")";
    forall j | 0 <= j < |rest| ensures !IsLineTerminator(rest[j]) {
      assert rest[j] == call[j + 2];
    }
    if ft == Vue {
      assert full == "\"{{t(" + rest + ")}}\"";
      StringifiedFrom(full, "\"{{t(", rest, ")}}\"");
    } else {
      assert full == "\"{t(" + rest + ")}\"";
      StringifiedFrom(full, "\"{t(", rest, ")}\"");
    }
  }

  /** `open + middle + close` contains the lazy pattern when `middle` is on one line. */
  lemma StringifiedFrom(s: string, open: string, middle: string, close: string)
    requires s == open + middle + close
    requires forall j :: 0 <= j < |middle| ==> !IsLineTerminator(middle[j])
    ensures ContainsLazy(s, 0, open, close)
  {
    var k := |open| + |middle|;
    assert s[k..k + |close|] == close;
    assert s[0..|open|] == open;
    forall j | |open| <= j < k ensures !IsLineTerminator(s[j]) {
      assert s[j] == middle[j - |open|];
    }
    LazyCloseFinds(s, |open|, k, close);
  }
}
