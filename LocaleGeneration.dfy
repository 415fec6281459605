/** The locale merge engine of locale-generation.ts: which texts still need a
    translation, the entries built for them, their merge into the existing
    flat store, the shape of the nested store written back, and the file name
    of the locale file. */
module LocaleGeneration {
  import opened Wrappers
  import opened JsStrings
  import opened Seqs
  import opened Interpolation
  import opened KeyGeneration
  import opened Conversion
  import opened FlatJson

  // ---------------------------------------------------------------------
  // Runs of one character

  /** `.replace(/c{2,}/g, c)`: each run of two or more `c` becomes one `c`. */
  function CollapseRuns(s: string, c: char): string
    decreases |s|
  {
    if s == [] then []
    else if |s| >= 2 && s[0] == c && s[1] == c then CollapseRuns(s[1..], c)
    else [s[0]] + CollapseRuns(s[1..], c)
  }

  /** No two neighbouring characters are both `c`. */
  predicate NoDoubled(s: string, c: char) {
    forall i :: 0 <= i < |s| - 1 ==> !(s[i] == c && s[i + 1] == c)
  }

  /** `s` with every `c` deleted. */
  function Without(s: string, c: char): string
    decreases |s|
  {
    if s == [] then []
    else if s[0] == c then Without(s[1..], c)
    else [s[0]] + Without(s[1..], c)
  }

  /** The collapse leaves no doubled `c`, deletes nothing but copies of `c`,
      keeps the first character and keeps `c` present when it was. */
  lemma {:induction false} CollapseRunsFacts(s: string, c: char)
    ensures var r := CollapseRuns(s, c);
      NoDoubled(r, c) && Without(r, c) == Without(s, c) && (c in r <==> c in s)
      && |r| <= |s| && (s != [] ==> r != [] && r[0] == s[0])
    decreases |s|
  {
    if s != [] {
      CollapseRunsFacts(s[1..], c);
      var rest := CollapseRuns(s[1..], c);
      if !(|s| >= 2 && s[0] == c && s[1] == c) {
        var r := [s[0]] + rest;
        assert r == CollapseRuns(s, c);
        forall i | 0 <= i < |r| - 1 ensures !(r[i] == c && r[i + 1] == c) {
          if i > 0 {
            assert r[i] == rest[i - 1] && r[i + 1] == rest[i];
          }
        }
        assert c in s <==> s[0] == c || c in s[1..] by {
          assert s == [s[0]] + s[1..];
        }
      } else {
        assert c in s;
      }
    }
  }

  /** Text without a doubled `c` is left as it is, so the collapse is idempotent. */
  lemma {:induction false} CollapseRunsFixed(s: string, c: char)
    ensures CollapseRuns(s, c) == s <==> NoDoubled(s, c)
    ensures CollapseRuns(CollapseRuns(s, c), c) == CollapseRuns(s, c)
    decreases |s|
  {
    CollapseRunsFacts(s, c);
    if NoDoubled(s, c) {
      CollapseRunsNoDoubled(s, c);
    }
    CollapseRunsNoDoubled(CollapseRuns(s, c), c);
  }

  lemma {:induction false} CollapseRunsNoDoubled(s: string, c: char)
    requires NoDoubled(s, c)
    ensures CollapseRuns(s, c) == s
    decreases |s|
  {
    if s != [] {
      assert NoDoubled(s[1..], c) by {
        forall i | 0 <= i < |s[1..]| - 1 ensures !(s[1..][i] == c && s[1..][i + 1] == c) {
          assert s[1..][i] == s[i + 1] && s[1..][i + 1] == s[i + 2];
        }
      }
      CollapseRunsNoDoubled(s[1..], c);
      assert !(|s| >= 2 && s[0] == c && s[1] == c);
    }
  }

  /** Collapsing the runs of `c` creates no doubled `d`. */
  lemma {:induction false} CollapseKeepsNoDoubled(s: string, c: char, d: char)
    requires NoDoubled(s, d)
    ensures NoDoubled(CollapseRuns(s, c), d)
    decreases |s|
  {
    if s != [] {
      assert NoDoubled(s[1..], d) by {
        forall i | 0 <= i < |s[1..]| - 1 ensures !(s[1..][i] == d && s[1..][i + 1] == d) {
          assert s[1..][i] == s[i + 1] && s[1..][i + 1] == s[i + 2];
        }
      }
      CollapseKeepsNoDoubled(s[1..], c, d);
      CollapseRunsFacts(s[1..], c);
      var rest := CollapseRuns(s[1..], c);
      if !(|s| >= 2 && s[0] == c && s[1] == c) {
        var r := [s[0]] + rest;
        assert r == CollapseRuns(s, c);
        forall i | 0 <= i < |r| - 1 ensures !(r[i] == d && r[i + 1] == d) {
          if i > 0 {
            assert r[i] == rest[i - 1] && r[i + 1] == rest[i];
          } else {
            assert r[1] == s[1];
          }
        }
      }
    }
  }

  // ---------------------------------------------------------------------
  // Keys

  /** The key `filterTextsForTranslation` looks up: the key of the text (of its
      template when it has variables) with backslash runs collapsed, under the
      namespace. */
  function FilterKey(h: Hooks, ft: FileType, namespace: string, text: string): string {
    FullKey(namespace, CollapseRuns(TextKey(h, ft, text), '\\'))
  }

  /** The key `processTextsToLocaleEntries` gives the entry of a text: the same
      key without the collapse. */
  function EntryKey(h: Hooks, ft: FileType, namespace: string, text: string): string {
    FullKey(namespace, TextKey(h, ft, text))
  }

  /** The two keys of a text agree exactly when its key holds no doubled
      backslash, so a text whose key has one is looked up under a key other
      than the one its entry is stored under. */
  lemma FilterKeyIsEntryKey(h: Hooks, ft: FileType, namespace: string, text: string)
    ensures FilterKey(h, ft, namespace, text) == EntryKey(h, ft, namespace, text)
        <==> NoDoubled(TextKey(h, ft, text), '\\')
  {
    var k := TextKey(h, ft, text);
    FullKeyInjective(namespace, CollapseRuns(k, '\\'), k);
    CollapseRunsFixed(k, '\\');
  }

  /** The entry key is the key the converted source refers to: read back from
      the call `convertTextWithVariables` writes under the same namespace,
      when that key is safe to quote. */
  lemma ConvertedCallNamesEntry(h: Hooks, namespace: string, ft: FileType, text: string)
    requires '\'' !in namespace
    requires forall i :: 0 <= i < |TextKey(h, ft, text)| ==> KeySafe(TextKey(h, ft, text)[i])
    ensures ReadKey(Unwrap(if h.isQuotedText(text) then Ts else ft, ConvertTextWithVariables(h, namespace, ft, text)))
         == Some(EntryKey(h, ft, namespace, text))
  {
    WrappedKeyReadBack(ft, h.isQuotedText(text), namespace, TextKey(h, ft, text), VariablesOf(ft, text).variables);
  }

  // ---------------------------------------------------------------------
  // The filter

  /** The filter key as a function of the text. */
  function FilterKeyOf(h: Hooks, ft: FileType, namespace: string): string -> string {
    t => FilterKey(h, ft, namespace, t)
  }

  lemma FilterKeyOfApply(h: Hooks, ft: FileType, namespace: string, t: string)
    ensures FilterKeyOf(h, ft, namespace)(t) == FilterKey(h, ft, namespace, t)
  {
  }

  /** The texts whose key is not among the existing keys. */
  function IsNew(keyOf: string -> string, existingKeys: set<string>): string -> bool {
    t => keyOf(t) !in existingKeys
  }

  datatype FilterResult = FilterResult(textsToTranslate: seq<string>, skippedTexts: seq<string>, skippedKeys: seq<string>)

  /** One more text extends exactly one side of the filter. */
  lemma FilterSnoc(keyOf: string -> string, existingKeys: set<string>, xs: seq<string>, x: string)
    ensures var p := IsNew(keyOf, existingKeys);
      Keep(xs + [x], p) == (if keyOf(x) in existingKeys then Keep(xs, p) else Keep(xs, p) + [x])
      && Keep(xs + [x], Not(p)) == (if keyOf(x) in existingKeys then Keep(xs, Not(p)) + [x] else Keep(xs, Not(p)))
  {
    var p := IsNew(keyOf, existingKeys);
    KeepSnoc(xs, x, p);
    KeepSnoc(xs, x, Not(p));
  }

  /** The classification the filter makes: the texts are split in order into
      those to translate and those skipped, which together are all of them; each
      skipped key is the key of its skipped text and exists, no text to
      translate has an existing key, and every text whose key is new is kept. */
  lemma FilterClassifies(keyOf: string -> string, existingKeys: set<string>, texts: seq<string>)
    ensures var p := IsNew(keyOf, existingKeys);
      var translate := Keep(texts, p);
      var skipped := Keep(texts, Not(p));
      |translate| + |skipped| == |texts|
      && multiset(translate) + multiset(skipped) == multiset(texts)
      && Subsequence(translate, texts) && Subsequence(skipped, texts)
      && (forall k :: 0 <= k < |skipped| ==> Map(skipped, keyOf)[k] in existingKeys)
      && (forall t :: t in translate ==> keyOf(t) !in existingKeys)
      && (forall t :: t in texts && keyOf(t) !in existingKeys ==> t in translate)
  {
    var p := IsNew(keyOf, existingKeys);
    KeepSplits(texts, p);
    KeepIsSubsequence(texts, p);
    KeepIsSubsequence(texts, Not(p));
    KeepMembers(texts, p);
    KeepMembers(texts, Not(p));
    var skipped := Keep(texts, Not(p));
    forall k | 0 <= k < |skipped| ensures Map(skipped, keyOf)[k] in existingKeys {
      assert skipped[k] in skipped;
    }
  }

  // ---------------------------------------------------------------------
  // Locale entries

  datatype LocaleEntry = LocaleEntry(key: string, value: string, variables: Option<seq<string>>)

  datatype EntriesResult = EntriesResult(localeEntries: seq<LocaleEntry>, newKeys: seq<string>, skippedKeys: seq<string>)

  /** The value of the entry of `text` when `use` is the text to use (its
      translation, or the text itself): without variables `use` itself, with
      them `use` with its interpolations numbered; then the quotes stripped. */
  function EntryValue(h: Hooks, ft: FileType, text: string, use: string): string {
    h.removeQuotes(if VariablesOf(ft, text).variables == [] then use else PlaceholderValue(ft, use))
  }

  /** The entry the loop would push for `text`. */
  function Candidate(h: Hooks, ft: FileType, namespace: string, text: string, use: string): LocaleEntry {
    var vars := VariablesOf(ft, text).variables;
    LocaleEntry(EntryKey(h, ft, namespace, text), EntryValue(h, ft, text, use), if vars == [] then None else Some(vars))
  }

  /** The text to use for each text: its translation when there are any. */
  function Uses(texts: seq<string>, translated: Option<seq<string>>): seq<string> {
    if translated.Some? then translated.value else texts
  }

  /** The entry of a text as a function of the text and the text to use. */
  function CandidateOf(h: Hooks, ft: FileType, namespace: string): (string, string) -> LocaleEntry {
    (t, u) => Candidate(h, ft, namespace, t, u)
  }

  lemma CandidateOfApply(h: Hooks, ft: FileType, namespace: string, t: string, u: string)
    ensures CandidateOf(h, ft, namespace)(t, u) == Candidate(h, ft, namespace, t, u)
  {
  }

  /** The entries the loop would push, one per text, before deduplication. */
  function Candidates(candidateOf: (string, string) -> LocaleEntry, texts: seq<string>, uses: seq<string>): (cs: seq<LocaleEntry>)
    requires |uses| == |texts|
    ensures |cs| == |texts|
    ensures forall i :: 0 <= i < |texts| ==> cs[i] == candidateOf(texts[i], uses[i])
  {
    seq(|texts|, i requires 0 <= i < |texts| => candidateOf(texts[i], uses[i]))
  }

  /** The in-batch deduplication: a candidate whose key exists or was already
      used this batch is skipped, otherwise it becomes an entry. */
  function Dedup(existingKeys: set<string>, cands: seq<LocaleEntry>): EntriesResult
    decreases |cands|
  {
    if cands == [] then EntriesResult([], [], [])
    else
      var r := Dedup(existingKeys, cands[..|cands| - 1]);
      var c := cands[|cands| - 1];
      if c.key in existingKeys || c.key in r.newKeys then r.(skippedKeys := r.skippedKeys + [c.key])
      else EntriesResult(r.localeEntries + [c], r.newKeys + [c.key], r.skippedKeys)
  }

  /** The deduplication of one more candidate. */
  lemma DedupSnoc(existingKeys: set<string>, cands: seq<LocaleEntry>, i: nat, entry: LocaleEntry)
    requires i < |cands| && cands[i] == entry
    ensures var r := Dedup(existingKeys, cands[..i]);
      Dedup(existingKeys, cands[..i + 1])
        == if entry.key in existingKeys || entry.key in r.newKeys then r.(skippedKeys := r.skippedKeys + [entry.key])
           else EntriesResult(r.localeEntries + [entry], r.newKeys + [entry.key], r.skippedKeys)
  {
    assert cands[..i + 1][..i] == cands[..i];
  }

  /** Candidate `i` is the first one with its key, and that key does not exist. */
  ghost predicate FirstNew(existingKeys: set<string>, cands: seq<LocaleEntry>, i: int) {
    0 <= i < |cands| && cands[i].key !in existingKeys
    && forall j :: 0 <= j < i ==> cands[j].key != cands[i].key
  }

  /** The entries have pairwise distinct keys, none of them existing; `newKeys`
      lists the entry keys in order, and every candidate is either an entry or
      a skipped key. */
  lemma {:induction false} DedupShape(existingKeys: set<string>, cands: seq<LocaleEntry>)
    ensures var r := Dedup(existingKeys, cands);
      |r.localeEntries| + |r.skippedKeys| == |cands|
      && |r.newKeys| == |r.localeEntries|
      && (forall k :: 0 <= k < |r.newKeys| ==> r.newKeys[k] == r.localeEntries[k].key)
      && (forall k :: 0 <= k < |r.localeEntries| ==> r.localeEntries[k].key !in existingKeys)
      && (forall k, l :: 0 <= k < l < |r.localeEntries| ==> r.localeEntries[k].key != r.localeEntries[l].key)
    decreases |cands|
  {
    if cands != [] {
      DedupShape(existingKeys, cands[..|cands| - 1]);
    }
  }

  /** First wins: the entries are exactly the candidates that come first with
      a key that does not exist. */
  lemma {:induction false} DedupFirstWins(existingKeys: set<string>, cands: seq<LocaleEntry>)
    ensures var r := Dedup(existingKeys, cands);
      (forall e :: e in r.localeEntries ==> exists i :: FirstNew(existingKeys, cands, i) && e == cands[i])
      && (forall i :: 0 <= i < |cands| ==> FirstNew(existingKeys, cands, i) ==> cands[i] in r.localeEntries)
    decreases |cands|
  {
    if cands != [] {
      DedupFirstWins(existingKeys, cands[..|cands| - 1]);
      FirstWinsStep(existingKeys, cands);
    }
  }

  /** The two halves of `DedupFirstWins` for one list of candidates. */
  ghost predicate FirstWins(existingKeys: set<string>, cands: seq<LocaleEntry>) {
    var r := Dedup(existingKeys, cands);
    (forall e :: e in r.localeEntries ==> exists i :: FirstNew(existingKeys, cands, i) && e == cands[i])
    && (forall i :: 0 <= i < |cands| ==> FirstNew(existingKeys, cands, i) ==> cands[i] in r.localeEntries)
  }

  /** `FirstWins` carries over to one more candidate. */
  lemma FirstWinsStep(existingKeys: set<string>, cands: seq<LocaleEntry>)
    requires cands != [] && FirstWins(existingKeys, cands[..|cands| - 1])
    ensures FirstWins(existingKeys, cands)
  {
    EntriesStep(existingKeys, cands);
    KeptStep(existingKeys, cands);
  }

  /** Every entry after one more candidate comes first with a new key. */
  lemma EntriesStep(existingKeys: set<string>, cands: seq<LocaleEntry>)
    requires cands != [] && FirstWins(existingKeys, cands[..|cands| - 1])
    ensures forall e :: e in Dedup(existingKeys, cands).localeEntries ==> exists i :: FirstNew(existingKeys, cands, i) && e == cands[i]
  {
    var n := |cands| - 1;
    var init := cands[..n];
    var r := Dedup(existingKeys, init);
    var r' := Dedup(existingKeys, cands);
    FirstNewPrefix(existingKeys, cands, n);
    assert r'.localeEntries == r.localeEntries || r'.localeEntries == r.localeEntries + [cands[n]];
    forall e | e in r'.localeEntries
      ensures exists i :: FirstNew(existingKeys, cands, i) && e == cands[i]
    {
      if e in r.localeEntries {
        var i :| FirstNew(existingKeys, init, i) && e == init[i];
        assert FirstNew(existingKeys, cands, i) && e == cands[i];
      } else {
        LastIsFirstNew(existingKeys, cands);
        assert FirstNew(existingKeys, cands, n) && e == cands[n];
      }
    }
  }

  /** A last candidate that the deduplication adds comes first with a new key. */
  lemma LastIsFirstNew(existingKeys: set<string>, cands: seq<LocaleEntry>)
    requires cands != [] && FirstWins(existingKeys, cands[..|cands| - 1])
    requires cands[|cands| - 1] !in Dedup(existingKeys, cands[..|cands| - 1]).localeEntries
    requires cands[|cands| - 1] in Dedup(existingKeys, cands).localeEntries
    ensures FirstNew(existingKeys, cands, |cands| - 1)
  {
    var n := |cands| - 1;
    var init := cands[..n];
    var c := cands[n];
    DedupShape(existingKeys, init);
    EarlierKeyIsUsed(existingKeys, init, c.key);
    assert c.key !in existingKeys && c.key !in Dedup(existingKeys, init).newKeys;
    forall j | 0 <= j < n
      ensures cands[j].key != c.key
    {
      assert init[j] == cands[j];
    }
  }

  /** Every candidate that comes first with a new key is kept, after one more. */
  lemma KeptStep(existingKeys: set<string>, cands: seq<LocaleEntry>)
    requires cands != [] && FirstWins(existingKeys, cands[..|cands| - 1])
    ensures forall i :: 0 <= i < |cands| ==> FirstNew(existingKeys, cands, i) ==> cands[i] in Dedup(existingKeys, cands).localeEntries
  {
    var n := |cands| - 1;
    var init := cands[..n];
    var r := Dedup(existingKeys, init);
    var r' := Dedup(existingKeys, cands);
    FirstNewPrefix(existingKeys, cands, n);
    if FirstNew(existingKeys, cands, n) {
      LastFirstNewKept(existingKeys, cands);
    }
    assert r'.localeEntries == r.localeEntries || r'.localeEntries == r.localeEntries + [cands[n]];
    forall i | 0 <= i < n && FirstNew(existingKeys, cands, i)
      ensures cands[i] in r'.localeEntries
    {
      assert init[i] == cands[i];
    }
  }

  /** The last candidate, when it comes first with a new key, is kept. */
  lemma LastFirstNewKept(existingKeys: set<string>, cands: seq<LocaleEntry>)
    requires cands != [] && FirstWins(existingKeys, cands[..|cands| - 1])
    requires FirstNew(existingKeys, cands, |cands| - 1)
    ensures cands[|cands| - 1] in Dedup(existingKeys, cands).localeEntries
  {
    var n := |cands| - 1;
    var init := cands[..n];
    var c := cands[n];
    DedupShape(existingKeys, init);
    EarlierKeyIsUsed(existingKeys, init, c.key);
    forall j | 0 <= j < |init|
      ensures init[j].key != c.key
    {
      assert init[j] == cands[j];
    }
  }

  /** Whether a candidate comes first with a new key depends only on the
      candidates up to it. */
  lemma FirstNewPrefix(existingKeys: set<string>, cands: seq<LocaleEntry>, n: nat)
    requires n <= |cands|
    ensures forall i :: 0 <= i < n ==> (FirstNew(existingKeys, cands[..n], i) <==> FirstNew(existingKeys, cands, i))
  {
  }

  /** A key used by an earlier candidate is among the new keys unless it exists. */
  lemma EarlierKeyIsUsed(existingKeys: set<string>, init: seq<LocaleEntry>, key: string)
    requires var r := Dedup(existingKeys, init);
      (forall e :: e in r.localeEntries ==> exists i :: FirstNew(existingKeys, init, i) && e == init[i])
      && (forall i :: 0 <= i < |init| ==> FirstNew(existingKeys, init, i) ==> init[i] in r.localeEntries)
      && |r.newKeys| == |r.localeEntries|
      && (forall k :: 0 <= k < |r.newKeys| ==> r.newKeys[k] == r.localeEntries[k].key)
    ensures key !in existingKeys ==>
      (key in Dedup(existingKeys, init).newKeys <==> exists j :: 0 <= j < |init| && init[j].key == key)
  {
    var r := Dedup(existingKeys, init);
    if key !in existingKeys {
      if key in r.newKeys {
        var k :| 0 <= k < |r.newKeys| && r.newKeys[k] == key;
        assert r.localeEntries[k] in r.localeEntries;
        var i :| FirstNew(existingKeys, init, i) && r.localeEntries[k] == init[i];
        assert init[i].key == key;
      }
      if exists j :: 0 <= j < |init| && init[j].key == key {
        var j :| 0 <= j < |init| && init[j].key == key;
        var i := FirstOfKey(existingKeys, init, j);
        assert init[i] in r.localeEntries;
        var k :| 0 <= k < |r.localeEntries| && r.localeEntries[k] == init[i];
        assert r.newKeys[k] == key;
      }
    }
  }

  /** The first candidate with the key of candidate `j`. */
  lemma FirstOfKey(existingKeys: set<string>, cands: seq<LocaleEntry>, j: nat) returns (i: nat)
    requires j < |cands| && cands[j].key !in existingKeys
    ensures i <= j && FirstNew(existingKeys, cands, i) && cands[i].key == cands[j].key
    decreases j
  {
    if forall k :: 0 <= k < j ==> cands[k].key != cands[j].key {
      i := j;
    } else {
      var k :| 0 <= k < j && cands[k].key == cands[j].key;
      i := FirstOfKey(existingKeys, cands, k);
    }
  }

  /** The entry built for a text records its variables exactly when it has
      any, and without variables, or without interpolation in the text to use,
      its value is that text with its quotes stripped. */
  lemma CandidateFacts(h: Hooks, ft: FileType, namespace: string, text: string, use: string)
    ensures var e := Candidate(h, ft, namespace, text, use);
      var vars := VariablesOf(ft, text).variables;
      (e.variables.Some? <==> vars != [])
      && (e.variables.Some? ==> e.variables.value == vars && |vars| == |Matches(ft, text)|)
      && (vars == [] || '{' !in use ==> e.value == h.removeQuotes(use))
  {
    if '{' !in use {
      PlaceholderValueWithoutInterpolation(ft, use);
    }
  }

  // ---------------------------------------------------------------------
  // The merge and the nested store

  /** The entries as key/value pairs. */
  function Pairs(entries: seq<LocaleEntry>): (ps: FlatMap)
    ensures |ps| == |entries|
    ensures forall k :: 0 <= k < |entries| ==> ps[k] == (entries[k].key, entries[k].value)
  {
    seq(|entries|, k requires 0 <= k < |entries| => (entries[k].key, entries[k].value))
  }

  /** `{...existing}` with each entry assigned in turn. */
  function Merge(existing: FlatMap, entries: seq<LocaleEntry>): FlatMap {
    Assign(existing, Pairs(entries))
  }

  /** With distinct entry keys, the merged map has each entry's value under its
      key and keeps every other key with its existing value, so its keys are
      the existing ones and the entry keys. */
  lemma MergeGet(existing: FlatMap, entries: seq<LocaleEntry>, key: string)
    requires forall k, l :: 0 <= k < l < |entries| ==> entries[k].key != entries[l].key
    ensures forall k :: 0 <= k < |entries| && entries[k].key == key ==> Get(Merge(existing, entries), key) == Some(entries[k].value)
    ensures (forall k :: 0 <= k < |entries| ==> entries[k].key != key) ==> Get(Merge(existing, entries), key) == Get(existing, key)
  {
    var ps := Pairs(entries);
    AssignGet(existing, ps, key);
    GetFacts(ps, key);
    forall k | 0 <= k < |entries| && entries[k].key == key ensures Get(ps, key) == Some(entries[k].value) {
      GetDistinct(ps, k);
    }
  }

  /** The nested store `saveAndNotifyResults` writes: the merged map unflattened,
      or the error unflattening throws. */
  function SavedLocales(existing: FlatMap, entries: seq<LocaleEntry>): Result<Json> {
    Unflatten(Merge(existing, entries))
  }

  /** When the merged keys can be nested, the store is written, and reading it
      back gives each entry's value under its key and the existing value under
      every other existing key. */
  lemma SavedEntries(existing: FlatMap, entries: seq<LocaleEntry>)
    requires forall k, l :: 0 <= k < l < |entries| ==> entries[k].key != entries[l].key
    requires Rebuildable(Merge(existing, entries))
    ensures SavedLocales(existing, entries).Ok?
    ensures var f := Flatten(SavedLocales(existing, entries).value, "");
      (forall k :: 0 <= k < |entries| ==> Get(f, entries[k].key) == Some(entries[k].value))
      && (forall key :: (forall k :: 0 <= k < |entries| ==> entries[k].key != key) ==> Get(f, key) == Get(existing, key))
  {
    var merged := Merge(existing, entries);
    RoundTrip(merged);
    var f := Flatten(SavedLocales(existing, entries).value, "");
    forall k | 0 <= k < |entries| ensures Get(f, entries[k].key) == Some(entries[k].value) {
      MergeGet(existing, entries, entries[k].key);
    }
    forall key ensures (forall k :: 0 <= k < |entries| ==> entries[k].key != key) ==> Get(f, key) == Get(existing, key) {
      MergeGet(existing, entries, key);
    }
  }

  // ---------------------------------------------------------------------
  // Aligning the translations with the texts kept

  /** The last index at which `t` occurs in `xs`. */
  function LastIndex(xs: seq<string>, t: string): (r: Option<nat>)
    ensures r.Some? ==> r.value < |xs| && xs[r.value] == t && forall j :: r.value < j < |xs| ==> xs[j] != t
    ensures r.None? ==> t !in xs
    decreases |xs|
  {
    if xs == [] then None
    else if xs[|xs| - 1] == t then Some(|xs| - 1)
    else
      assert xs == xs[..|xs| - 1] + [xs[|xs| - 1]];
      LastIndex(xs[..|xs| - 1], t)
  }

  /** The map `set(text, index)` builds over `xs`, later indexes overwriting. */
  function IndexMap(xs: seq<string>): map<string, nat>
    decreases |xs|
  {
    if xs == [] then map[] else IndexMap(xs[..|xs| - 1])[xs[|xs| - 1] := |xs| - 1]
  }

  /** The map holds each text of `xs`, under its last index. */
  lemma {:induction false} IndexMapIsLastIndex(xs: seq<string>)
    ensures forall t :: (t in IndexMap(xs) <==> LastIndex(xs, t).Some?)
    ensures forall t :: t in IndexMap(xs) ==> IndexMap(xs)[t] == LastIndex(xs, t).value
    decreases |xs|
  {
    if xs != [] {
      IndexMapIsLastIndex(xs[..|xs| - 1]);
    }
  }

  /** The translations the entries use: for each text kept, the translation at
      its last index among the original texts, or the text itself when absent. */
  function Aligned(originalTexts: seq<string>, translatedTexts: seq<string>, textsToTranslate: seq<string>): (r: seq<string>)
    requires |translatedTexts| == |originalTexts|
    ensures |r| == |textsToTranslate|
  {
    seq(|textsToTranslate|, j requires 0 <= j < |textsToTranslate| =>
      match LastIndex(originalTexts, textsToTranslate[j])
      case Some(i) => translatedTexts[i]
      case None => textsToTranslate[j])
  }

  /** For the texts the filter keeps, each aligned translation is the one at
      the last index of its text among the original texts. */
  lemma AlignedFiltered(originalTexts: seq<string>, translatedTexts: seq<string>, p: string -> bool)
    requires |translatedTexts| == |originalTexts|
    ensures var kept := Keep(originalTexts, p);
      forall j :: 0 <= j < |kept| ==> exists i ::
        0 <= i < |originalTexts| && originalTexts[i] == kept[j]
        && (forall k :: i < k < |originalTexts| ==> originalTexts[k] != kept[j])
        && Aligned(originalTexts, translatedTexts, kept)[j] == translatedTexts[i]
  {
    var kept := Keep(originalTexts, p);
    KeepMembers(originalTexts, p);
    forall j | 0 <= j < |kept| ensures exists i ::
        0 <= i < |originalTexts| && originalTexts[i] == kept[j]
        && (forall k :: i < k < |originalTexts| ==> originalTexts[k] != kept[j])
        && Aligned(originalTexts, translatedTexts, kept)[j] == translatedTexts[i]
    {
      assert kept[j] in kept;
      var i := LastIndex(originalTexts, kept[j]).value;
      assert Aligned(originalTexts, translatedTexts, kept)[j] == translatedTexts[i];
    }
  }

  // ---------------------------------------------------------------------
  // processLocaleGeneration

  /** How a generation run ends: nothing to generate, every text already
      present (with the number skipped), or the nested store to write (or the
      error building it throws) with the new and the skipped keys. */
  datatype Outcome =
    | NoTexts
    | NothingToTranslate(skippedCount: nat)
    | Generated(locales: Result<Json>, newKeys: seq<string>, skippedKeys: seq<string>)

  /** The keys of a flat map. */
  function KeySet(m: FlatMap): set<string> {
    set p | p in m :: p.0
  }

  /** The run for the existing flat store `existing` and, when given, the
      translations of the texts. */
  function Generation(h: Hooks, ft: FileType, namespace: string, originalTexts: seq<string>,
                      translatedTexts: Option<seq<string>>, existing: FlatMap): Outcome
    requires translatedTexts.Some? ==> |translatedTexts.value| == |originalTexts|
  {
    if originalTexts == [] then NoTexts
    else
      var keys := KeySet(existing);
      var keyOf := FilterKeyOf(h, ft, namespace);
      var p := IsNew(keyOf, keys);
      var translate := Keep(originalTexts, p);
      var skipped := Keep(originalTexts, Not(p));
      if translate == [] then NothingToTranslate(|skipped|)
      else
        var adjusted := if translatedTexts.Some? then Some(Aligned(originalTexts, translatedTexts.value, translate)) else None;
        var r := Dedup(keys, Candidates(CandidateOf(h, ft, namespace), translate, Uses(translate, adjusted)));
        Generated(SavedLocales(existing, r.localeEntries), r.newKeys, Map(skipped, keyOf) + r.skippedKeys)
  }

  /** The run stops early exactly when there is no text, or when every text's
      key already exists, and then it reports all texts as skipped. */
  lemma GenerationEarlyExits(h: Hooks, ft: FileType, namespace: string, originalTexts: seq<string>,
                             translatedTexts: Option<seq<string>>, existing: FlatMap)
    requires translatedTexts.Some? ==> |translatedTexts.value| == |originalTexts|
    ensures var o := Generation(h, ft, namespace, originalTexts, translatedTexts, existing);
      (o.NoTexts? <==> originalTexts == [])
      && (o.NothingToTranslate? <==> originalTexts != [] && forall t :: t in originalTexts ==> FilterKey(h, ft, namespace, t) in KeySet(existing))
      && (o.NothingToTranslate? ==> o.skippedCount == |originalTexts|)
  {
    var p := IsNew(FilterKeyOf(h, ft, namespace), KeySet(existing));
    KeepMembers(originalTexts, p);
    KeepSplits(originalTexts, p);
    if Keep(originalTexts, p) != [] {
      assert Keep(originalTexts, p)[0] in Keep(originalTexts, p);
    }
  }

  /** A run that writes adds pairwise distinct keys, none of them existing,
      and accounts for every text as a new or a skipped key. */
  lemma GenerationKeys(h: Hooks, ft: FileType, namespace: string, originalTexts: seq<string>,
                       translatedTexts: Option<seq<string>>, existing: FlatMap)
    requires translatedTexts.Some? ==> |translatedTexts.value| == |originalTexts|
    ensures var o := Generation(h, ft, namespace, originalTexts, translatedTexts, existing);
      o.Generated? ==>
        |o.newKeys| + |o.skippedKeys| == |originalTexts|
        && (forall k :: 0 <= k < |o.newKeys| ==> o.newKeys[k] !in KeySet(existing))
        && (forall k, l :: 0 <= k < l < |o.newKeys| ==> o.newKeys[k] != o.newKeys[l])
  {
    if originalTexts != [] {
      var keys := KeySet(existing);
      var p := IsNew(FilterKeyOf(h, ft, namespace), keys);
      var translate := Keep(originalTexts, p);
      KeepSplits(originalTexts, p);
      if translate != [] {
        var adjusted := if translatedTexts.Some? then Some(Aligned(originalTexts, translatedTexts.value, translate)) else None;
        DedupShape(keys, Candidates(CandidateOf(h, ft, namespace), translate, Uses(translate, adjusted)));
      }
    }
  }

  // ---------------------------------------------------------------------
  // The file name

  /** `s` without a leading `c`. */
  function DropFirst(s: string, c: char): (r: string)
    ensures r == s || (s != [] && s[0] == c && r == s[1..])
  {
    if s != [] && s[0] == c then s[1..] else s
  }

  /** `s` without a trailing `c`. */
  function DropLast(s: string, c: char): (r: string)
    ensures r == s || (s != [] && s[|s| - 1] == c && r == s[..|s| - 1])
  {
    if s != [] && s[|s| - 1] == c then s[..|s| - 1] else s
  }

  /** The file name `resolveOutputPath` builds from the pattern: the first
      `{language}` and `{namespace}` substituted, runs of dots and of slashes
      collapsed, one leading dot, leading slash, trailing dot and trailing slash
      removed in that order, and `locales.<language>.json` when nothing is left. */
  function CleanFileName(pattern: string, language: string, namespace: string): string {
    var named := ReplaceFirst(ReplaceFirst(pattern, "{language}", language), "{namespace}", namespace);
    var collapsed := CollapseRuns(CollapseRuns(named, '.'), '/');
    var trimmed := DropLast(DropLast(DropFirst(DropFirst(collapsed, '.'), '/'), '.'), '/');
    if trimmed == [] then "locales." + language + ".json" else trimmed
  }

  /** Cutting a character off either end keeps a string free of doubles. */
  lemma DropKeepsNoDoubled(s: string, c: char, d: char)
    requires NoDoubled(s, d)
    ensures NoDoubled(DropFirst(s, c), d) && NoDoubled(DropLast(s, c), d)
  {
    if s != [] {
      forall i | 0 <= i < |s[1..]| - 1 ensures !(s[1..][i] == d && s[1..][i + 1] == d) {
        assert s[1..][i] == s[i + 1] && s[1..][i + 1] == s[i + 2];
      }
    }
  }

  /** The cleaned name is never empty, and unless the fallback is taken it has
      no `..` and no `//`. */
  lemma CleanFileNameFacts(pattern: string, language: string, namespace: string)
    ensures var name := CleanFileName(pattern, language, namespace);
      name != []
      && (name != "locales." + language + ".json" ==> NoDoubled(name, '.') && NoDoubled(name, '/'))
  {
    var named := ReplaceFirst(ReplaceFirst(pattern, "{language}", language), "{namespace}", namespace);
    var dots := CollapseRuns(named, '.');
    var collapsed := CollapseRuns(dots, '/');
    CollapseRunsFacts(named, '.');
    CollapseRunsFacts(dots, '/');
    CollapseKeepsNoDoubled(dots, '/', '.');
    var s1 := DropFirst(collapsed, '.');
    DropKeepsNoDoubled(collapsed, '.', '.');
    DropKeepsNoDoubled(collapsed, '.', '/');
    var s2 := DropFirst(s1, '/');
    DropKeepsNoDoubled(s1, '/', '.');
    DropKeepsNoDoubled(s1, '/', '/');
    var s3 := DropLast(s2, '.');
    DropKeepsNoDoubled(s2, '.', '.');
    DropKeepsNoDoubled(s2, '.', '/');
    DropKeepsNoDoubled(s3, '/', '.');
    DropKeepsNoDoubled(s3, '/', '/');
  }

  /** A name without doubled dots or slashes is left alone by the collapses. */
  lemma CollapsesKeep(named: string)
    requires NoDoubled(named, '.') && NoDoubled(named, '/')
    ensures CollapseRuns(CollapseRuns(named, '.'), '/') == named
  {
    CollapseRunsNoDoubled(named, '.');
    CollapseRunsNoDoubled(named, '/');
  }

  // ---------------------------------------------------------------------
  // The service

  class LocalesGenerationService {
    var currentNamespace: string

    constructor()
      ensures currentNamespace == ""
    {
      currentNamespace := "";
    }

    method SetNamespace(namespace: string)
      modifies this
      ensures currentNamespace == namespace
    {
      currentNamespace := namespace;
    }

    function GetNamespace(): string
      reads this
    {
      currentNamespace
    }

    /** `filterTextsForTranslation`: the texts whose filter key is new, those
        whose key exists, and the keys of the latter. */
    method FilterTextsForTranslation(h: Hooks, ft: FileType, originalTexts: seq<string>, existingKeys: set<string>)
      returns (r: FilterResult)
      ensures r.textsToTranslate == Keep(originalTexts, IsNew(FilterKeyOf(h, ft, currentNamespace), existingKeys))
      ensures r.skippedTexts == Keep(originalTexts, Not(IsNew(FilterKeyOf(h, ft, currentNamespace), existingKeys)))
      ensures r.skippedKeys == Map(r.skippedTexts, FilterKeyOf(h, ft, currentNamespace))
    {
      ghost var keyOf := FilterKeyOf(h, ft, currentNamespace);
      ghost var p := IsNew(keyOf, existingKeys);
      var textsToTranslate, skippedTexts, skippedKeys := [], [], [];
      for i := 0 to |originalTexts|
        invariant textsToTranslate == Keep(originalTexts[..i], p)
        invariant skippedTexts == Keep(originalTexts[..i], Not(p))
        invariant skippedKeys == Map(skippedTexts, keyOf)
      {
        var originalText := originalTexts[i];
        TakeSnoc(originalTexts, i);
        var fullKey := LookupKey(h, ft, originalText);
        FilterSnoc(keyOf, existingKeys, originalTexts[..i], originalText);
        if fullKey in existingKeys {
          MapSnoc(skippedTexts, originalText, keyOf);
          skippedTexts := skippedTexts + [originalText];
          skippedKeys := skippedKeys + [fullKey];
        } else {
          textsToTranslate := textsToTranslate + [originalText];
        }
      }
      assert originalTexts[..|originalTexts|] == originalTexts;
      r := FilterResult(textsToTranslate, skippedTexts, skippedKeys);
    }

    /** The key the filter computes for one text. */
    method LookupKey(h: Hooks, ft: FileType, originalText: string) returns (fullKey: string)
      ensures fullKey == FilterKeyOf(h, ft, currentNamespace)(originalText)
    {
      var variableInfo := ExtractVariables(ft, originalText);
      var key;
      if variableInfo.variables == [] {
        key := ConvertToI18nKey(h, originalText);
      } else {
        key := ConvertToI18nKey(h, variableInfo.template);
      }
      key := CollapseRuns(key, '\\');
      fullKey := FullKey(currentNamespace, key);
      FilterKeyOfApply(h, ft, currentNamespace, originalText);
    }

    /** `processTextsToLocaleEntries`; the translations, when given, are one
        per text. */
    method ProcessTextsToLocaleEntries(h: Hooks, ft: FileType, originalTexts: seq<string>,
                                       translatedTexts: Option<seq<string>>, existingKeys: set<string>)
      returns (r: EntriesResult)
      requires translatedTexts.Some? ==> |translatedTexts.value| == |originalTexts|
      ensures r == Dedup(existingKeys, Candidates(CandidateOf(h, ft, currentNamespace), originalTexts, Uses(originalTexts, translatedTexts)))
    {
      ghost var candidateOf := CandidateOf(h, ft, currentNamespace);
      ghost var cands := Candidates(candidateOf, originalTexts, Uses(originalTexts, translatedTexts));
      var localeEntries, newKeys, skippedKeys := [], [], [];
      var usedKeys: set<string> := {};
      for i := 0 to |originalTexts|
        invariant EntriesResult(localeEntries, newKeys, skippedKeys) == Dedup(existingKeys, cands[..i])
        invariant usedKeys == set k | k in newKeys
      {
        var originalText := originalTexts[i];
        var textToUse := if translatedTexts.Some? then translatedTexts.value[i] else originalText;
        var entry := BuildEntry(h, ft, originalText, textToUse);
        var fullKey := entry.key;
        assert cands[i] == entry;
        DedupSnoc(existingKeys, cands, i, entry);
        if fullKey in existingKeys || fullKey in usedKeys {
          skippedKeys := skippedKeys + [fullKey];
          continue;
        }
        usedKeys := usedKeys + {fullKey};
        newKeys := newKeys + [fullKey];
        localeEntries := localeEntries + [entry];
      }
      TakeAll(cands);
      r := EntriesResult(localeEntries, newKeys, skippedKeys);
    }

    /** The key, the value and the variables of one entry. */
    method BuildEntry(h: Hooks, ft: FileType, originalText: string, textToUse: string)
      returns (entry: LocaleEntry)
      ensures entry == CandidateOf(h, ft, currentNamespace)(originalText, textToUse)
    {
      var variableInfo := ExtractVariables(ft, originalText);
      var key, value;
      if variableInfo.variables == [] {
        key := ConvertToI18nKey(h, originalText);
        value := textToUse;
      } else {
        key := ConvertToI18nKey(h, variableInfo.template);
        value := PlaceholderValue(ft, textToUse);
      }
      var fullKey := FullKey(currentNamespace, key);
      value := h.removeQuotes(value);
      entry := LocaleEntry(fullKey, value, if variableInfo.variables != [] then Some(variableInfo.variables) else None);
      CandidateOfApply(h, ft, currentNamespace, originalText, textToUse);
    }

    /** The merge of `saveAndNotifyResults`, then the nesting of the merged map. */
    method SaveLocales(existingLocales: FlatMap, localeEntries: seq<LocaleEntry>) returns (nested: Result<Json>)
      ensures nested == SavedLocales(existingLocales, localeEntries)
    {
      var mergedLocales := existingLocales;
      ghost var ps := Pairs(localeEntries);
      for i := 0 to |localeEntries|
        invariant mergedLocales == Assign(existingLocales, ps[..i])
      {
        assert ps[..i + 1][..i] == ps[..i];
        mergedLocales := Put(mergedLocales, localeEntries[i].key, localeEntries[i].value);
      }
      assert ps[..|localeEntries|] == ps;
      nested := UnflattenJson(mergedLocales);
    }

    /** `processLocaleGeneration` once the existing locale file has been read
        into `existingLocales` (an empty map when it could not be). */
    method ProcessLocaleGeneration(h: Hooks, ft: FileType, originalTexts: seq<string>,
                                   translatedTexts: Option<seq<string>>, existingLocales: FlatMap)
      returns (outcome: Outcome)
      requires translatedTexts.Some? ==> |translatedTexts.value| == |originalTexts|
      ensures outcome == Generation(h, ft, currentNamespace, originalTexts, translatedTexts, existingLocales)
    {
      if originalTexts == [] {
        return NoTexts;
      }
      var existingKeys := set p | p in existingLocales :: p.0;
      var filtered := FilterTextsForTranslation(h, ft, originalTexts, existingKeys);
      if filtered.textsToTranslate == [] {
        return NothingToTranslate(|filtered.skippedTexts|);
      }
      var adjusted: Option<seq<string>> := None;
      if translatedTexts.Some? {
        var a := AlignTranslations(originalTexts, translatedTexts.value, filtered.textsToTranslate);
        adjusted := Some(a);
      }
      var entries := ProcessTextsToLocaleEntries(h, ft, filtered.textsToTranslate, adjusted, existingKeys);
      var nested := SaveLocales(existingLocales, entries.localeEntries);
      outcome := Generated(nested, entries.newKeys, filtered.skippedKeys + entries.skippedKeys);
    }

    /** The index map over the original texts, then each kept text looked up. */
    method AlignTranslations(originalTexts: seq<string>, translatedTexts: seq<string>, textsToTranslate: seq<string>)
      returns (adjusted: seq<string>)
      requires |translatedTexts| == |originalTexts|
      ensures adjusted == Aligned(originalTexts, translatedTexts, textsToTranslate)
    {
      var textIndexMap: map<string, nat> := map[];
      for index := 0 to |originalTexts|
        invariant textIndexMap == IndexMap(originalTexts[..index])
      {
        assert originalTexts[..index + 1][..index] == originalTexts[..index];
        textIndexMap := textIndexMap[originalTexts[index] := index];
      }
      assert originalTexts[..|originalTexts|] == originalTexts;
      IndexMapIsLastIndex(originalTexts);
      adjusted := [];
      for j := 0 to |textsToTranslate|
        invariant |adjusted| == j
        invariant forall k :: 0 <= k < j ==> adjusted[k] == Aligned(originalTexts, translatedTexts, textsToTranslate)[k]
      {
        var text := textsToTranslate[j];
        if text in textIndexMap {
          adjusted := adjusted + [translatedTexts[textIndexMap[text]]];
        } else {
          adjusted := adjusted + [text];
        }
      }
    }
  }
}
