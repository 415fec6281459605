/** How an i18n key is made from a piece of text (text-conversion.ts): the
    surrounding quotes are stripped, then the user's key function runs, and the
    default transform takes over when that function throws or does not return
    a string. The helpers of the utility module, whose code is not part of this
    model, and the user's function are parameters. */
module KeyGeneration {
  import opened Wrappers
  import opened JsStrings

  /** The helpers the conversion relies on but whose code is not modelled:
      `removeQuotes`, `isQuotedText` and the user's key function, which yields
      `None` when it throws or returns something other than a string. */
  datatype Hooks = Hooks(
    removeQuotes: string -> string,
    isQuotedText: string -> bool,
    customKey: string -> Option<string>)

  /** A character that may appear in a key made by the default transform. */
  predicate KeySafe(c: char) {
    !IsJsSpace(c) && c != '.' && c != '[' && c != ']' && c != '\'' && c != '"'
  }

  /** `.replace(/\s+/g, '_')`: each run of white space becomes one `_`. */
  function CollapseSpaces(s: string): string {
    CollapseSpacesFrom(s, false)
  }

  /** The scan of `CollapseSpaces`; `inRun` says that the previous character
      was white space, whose run already produced its `_`. */
  function CollapseSpacesFrom(s: string, inRun: bool): string
    decreases |s|
  {
    if s == [] then []
    else if IsJsSpace(s[0]) then
      if inRun then CollapseSpacesFrom(s[1..], true) else "_" + CollapseSpacesFrom(s[1..], true)
    else [s[0]] + CollapseSpacesFrom(s[1..], false)
  }

  /** `.replace(/c/g, rep)` for a single character `c`: every other character
      is kept, and each `c` becomes `rep`. */
  function ReplaceChar(s: string, c: char, rep: string): string
    decreases |s|
  {
    if s == [] then []
    else if s[0] == c then rep + ReplaceChar(s[1..], c, rep)
    else [s[0]] + ReplaceChar(s[1..], c, rep)
  }

  /** `.replace(/\\(.)/g, '\\\\$1')`: a backslash followed by a character other
      than a line terminator becomes two backslashes and that character; the
      scan resumes after the pair. */
  function DoubleEscapes(s: string): string
    decreases |s|
  {
    if s == [] then []
    else if |s| >= 2 && s[0] == '\\' && !IsLineTerminator(s[1]) then ['\\', '\\', s[1]] + DoubleEscapes(s[2..])
    else [s[0]] + DoubleEscapes(s[1..])
  }

  /** The collapse leaves no white space and brings in no character but `_`. */
  lemma {:induction false} CollapseSpacesFromChars(s: string, inRun: bool)
    ensures forall c :: c in CollapseSpacesFrom(s, inRun) ==> !IsJsSpace(c) && (c in s || c == '_')
    decreases |s|
  {
    if s != [] {
      CollapseSpacesFromChars(s[1..], IsJsSpace(s[0]));
    }
  }

  /** A text without white space is left as it is. */
  lemma {:induction false} CollapseSpacesFromPlain(s: string, inRun: bool)
    requires forall c :: c in s ==> !IsJsSpace(c)
    ensures CollapseSpacesFrom(s, inRun) == s
    decreases |s|
  {
    if s != [] {
      assert s[0] in s;
      assert forall c :: c in s[1..] ==> c in s;
      CollapseSpacesFromPlain(s[1..], false);
      assert s == [s[0]] + s[1..];
    }
  }

  /** `CollapseSpaces` leaves no white space, brings in only `_`, and keeps a
      text without white space as it is. */
  lemma CollapseSpacesChars(s: string)
    ensures forall c :: c in CollapseSpaces(s) ==> !IsJsSpace(c) && (c in s || c == '_')
    ensures (forall c :: c in s ==> !IsJsSpace(c)) ==> CollapseSpaces(s) == s
  {
    CollapseSpacesFromChars(s, false);
    if forall c :: c in s ==> !IsJsSpace(c) {
      CollapseSpacesFromPlain(s, false);
    }
  }

  /** After the replacement no `c` is left that was not in `rep`, and every
      character comes from the text or from `rep`. */
  lemma {:induction false} ReplaceCharChars(s: string, c: char, rep: string)
    ensures forall d :: d in ReplaceChar(s, c, rep) ==> (d in s && d != c) || d in rep
    decreases |s|
  {
    if s != [] {
      ReplaceCharChars(s[1..], c, rep);
    }
  }

  /** A text without `c` is left as it is. */
  lemma {:induction false} ReplaceCharUnchanged(s: string, c: char, rep: string)
    requires c !in s
    ensures ReplaceChar(s, c, rep) == s
    decreases |s|
  {
    if s != [] {
      assert s[0] in s;
      ReplaceCharUnchanged(s[1..], c, rep);
      assert s == [s[0]] + s[1..];
    }
  }

  /** The doubling brings in no new kind of character. */
  lemma {:induction false} DoubleEscapesChars(s: string)
    ensures forall d :: d in DoubleEscapes(s) ==> d in s
    decreases |s|
  {
    if s == [] {
    } else if |s| >= 2 && s[0] == '\\' && !IsLineTerminator(s[1]) {
      DoubleEscapesChars(s[2..]);
    } else {
      DoubleEscapesChars(s[1..]);
    }
  }

  /** A text without a backslash is left as it is. */
  lemma {:induction false} DoubleEscapesUnchanged(s: string)
    requires '\\' !in s
    ensures DoubleEscapes(s) == s
    decreases |s|
  {
    if s != [] {
      assert s[0] in s;
      DoubleEscapesUnchanged(s[1..]);
      assert s == [s[0]] + s[1..];
    }
  }

  /** Every character of `w` is white space. */
  predicate AllSpace(w: string) {
    forall k :: 0 <= k < |w| ==> IsJsSpace(w[k])
  }

  /** The scan of a text that ends in a character other than white space
      leaves no run open for what follows. */
  lemma {:induction false} CollapseFromAppend(a: string, x: string, inRun: bool)
    requires a != [] && !IsJsSpace(a[|a| - 1])
    ensures CollapseSpacesFrom(a + x, inRun) == CollapseSpacesFrom(a, inRun) + CollapseSpacesFrom(x, false)
    decreases |a|
  {
    var ax := a + x;
    assert ax[0] == a[0] && ax[1..] == a[1..] + x;
    var run := IsJsSpace(a[0]);
    var head := if !run then [a[0]] else if inRun then [] else "_";
    assert CollapseSpacesFrom(ax, inRun) == head + CollapseSpacesFrom(a[1..] + x, run);
    assert CollapseSpacesFrom(a, inRun) == head + CollapseSpacesFrom(a[1..], run);
    if |a| == 1 {
      assert a[1..] + x == x && CollapseSpacesFrom(a[1..], run) == [];
    } else {
      CollapseFromAppend(a[1..], x, run);
    }
  }

  /** Inside a run, more white space produces nothing. */
  lemma {:induction false} CollapseFromRun(w: string, b: string)
    requires AllSpace(w)
    ensures CollapseSpacesFrom(w + b, true) == CollapseSpacesFrom(b, true)
    decreases |w|
  {
    if w == [] {
      assert w + b == b;
    } else {
      assert (w + b)[1..] == w[1..] + b;
      CollapseFromRun(w[1..], b);
    }
  }

  /** The collapse works piece by piece, cut after a character other than
      white space. */
  lemma CollapseSpacesAppend(a: string, b: string)
    requires a == [] || !IsJsSpace(a[|a| - 1])
    ensures CollapseSpaces(a + b) == CollapseSpaces(a) + CollapseSpaces(b)
  {
    if a == [] {
      assert a + b == b;
    } else {
      CollapseFromAppend(a, b, false);
    }
  }

  /** A whole run of white space, with no white space on either side of it,
      becomes one `_` between the collapses of the two sides. */
  lemma CollapseSpacesRun(a: string, w: string, b: string)
    requires |w| >= 1 && AllSpace(w)
    requires a == [] || !IsJsSpace(a[|a| - 1])
    requires b == [] || !IsJsSpace(b[0])
    ensures CollapseSpaces(a + w + b) == CollapseSpaces(a) + "_" + CollapseSpaces(b)
  {
    assert (w + b)[1..] == w[1..] + b;
    CollapseFromRun(w[1..], b);
    assert CollapseSpacesFrom(b, true) == CollapseSpacesFrom(b, false);
    assert CollapseSpaces(w + b) == "_" + CollapseSpaces(b);
    assert a + w + b == a + (w + b);
    CollapseSpacesAppend(a, w + b);
  }

  /** The replacement works piece by piece. */
  lemma {:induction false} ReplaceCharAppend(a: string, b: string, c: char, rep: string)
    ensures ReplaceChar(a + b, c, rep) == ReplaceChar(a, c, rep) + ReplaceChar(b, c, rep)
    decreases |a|
  {
    if a == [] {
      assert a + b == b;
    } else {
      var ab := a + b;
      assert ab[0] == a[0] && ab[1..] == a[1..] + b;
      var head := if a[0] == c then rep else [a[0]];
      assert ReplaceChar(ab, c, rep) == head + ReplaceChar(a[1..] + b, c, rep);
      assert ReplaceChar(a, c, rep) == head + ReplaceChar(a[1..], c, rep);
      ReplaceCharAppend(a[1..], b, c, rep);
    }
  }

  /** One occurrence of `c` becomes `rep` between the replacements on its two
      sides. */
  lemma ReplaceCharAt(s: string, i: nat, c: char, rep: string)
    requires i < |s| && s[i] == c
    ensures ReplaceChar(s, c, rep) == ReplaceChar(s[..i], c, rep) + rep + ReplaceChar(s[i + 1..], c, rep)
  {
    var rest := s[i + 1..];
    assert s == s[..i] + ([c] + rest);
    ReplaceCharAppend(s[..i], [c] + rest, c, rep);
    assert ([c] + rest)[1..] == rest;
    assert ReplaceChar([c] + rest, c, rep) == rep + ReplaceChar(rest, c, rep);
  }

  /** `.replace(/c/g, rep)` is `s.split(c).join(rep)`. */
  lemma {:induction false} ReplaceCharIsSplitJoin(s: string, c: char, rep: string)
    ensures ReplaceChar(s, c, rep) == Join(Split(s, c), rep)
    decreases |s|
  {
    IndexOfCharFacts(s, c);
    match IndexOf(s, [c])
    case None =>
      SplitNone(s, c);
      ReplaceCharUnchanged(s, c, rep);
    case Some(i) =>
      var pre, rest := s[..i], s[i + 1..];
      assert Split(s, c) == [pre] + Split(rest, c);
      ReplaceCharAt(s, i, c, rep);
      ReplaceCharUnchanged(pre, c, rep);
      ReplaceCharIsSplitJoin(rest, c, rep);
      JoinCons(pre, Split(rest, c), rep);
  }

  /** The inverse of `DoubleEscapes`: a doubled backslash before a character
      other than a line terminator becomes one backslash again. */
  function UndoubleEscapes(r: string): string
    decreases |r|
  {
    if r == [] then []
    else if |r| >= 3 && r[0] == '\\' && r[1] == '\\' && !IsLineTerminator(r[2]) then ['\\', r[2]] + UndoubleEscapes(r[3..])
    else [r[0]] + UndoubleEscapes(r[1..])
  }

  /** The doubling keeps the first character. */
  lemma DoubleEscapesHead(s: string)
    requires s != []
    ensures DoubleEscapes(s) != [] && DoubleEscapes(s)[0] == s[0]
  {
  }

  /** Undoing the doubling gives the text back, so no two texts have one
      doubled form: exactly the escaped pairs were doubled. */
  lemma {:induction false} UndoubleDoubleEscapes(s: string)
    ensures UndoubleEscapes(DoubleEscapes(s)) == s
    decreases |s|
  {
    if s == [] {
    } else if |s| >= 2 && s[0] == '\\' && !IsLineTerminator(s[1]) {
      var r := DoubleEscapes(s);
      assert r == ['\\', '\\', s[1]] + DoubleEscapes(s[2..]);
      assert r[3..] == DoubleEscapes(s[2..]);
      UndoubleDoubleEscapes(s[2..]);
      assert s == ['\\', s[1]] + s[2..];
    } else {
      var r := DoubleEscapes(s);
      assert r == [s[0]] + DoubleEscapes(s[1..]);
      if |s| >= 2 {
        DoubleEscapesHead(s[1..]);
        assert r[1] == s[1];
      }
      assert r[1..] == DoubleEscapes(s[1..]);
      UndoubleDoubleEscapes(s[1..]);
      assert s == [s[0]] + s[1..];
    }
  }

  /** The default key transform: white space runs to `_`, then `.`, escaped
      characters, `[`, `]`, `'` and `"` in that order. */
  function DefaultTransform(text: string): string {
    var s1 := CollapseSpaces(text);
    var s2 := ReplaceChar(s1, '.', "#dot#");
    var s3 := DoubleEscapes(s2);
    var s4 := ReplaceChar(s3, '[', "#lb#");
    var s5 := ReplaceChar(s4, ']', "#rb#");
    var s6 := ReplaceChar(s5, '\'', "#sq#");
    ReplaceChar(s6, '"', "#dq#")
  }

  predicate NoSpace(c: char) { !IsJsSpace(c) }
  predicate NoDot(c: char) { NoSpace(c) && c != '.' }
  predicate NoOpenBracket(c: char) { NoDot(c) && c != '[' }
  predicate NoBracket(c: char) { NoOpenBracket(c) && c != ']' }
  predicate NoSingleQuote(c: char) { NoBracket(c) && c != '\'' }

  lemma DotStep(s: string)
    requires forall d :: d in s ==> NoSpace(d)
    ensures forall d :: d in ReplaceChar(s, '.', "#dot#") ==> NoDot(d)
  {
    ReplaceCharChars(s, '.', "#dot#");
  }

  lemma EscapeStep(s: string)
    requires forall d :: d in s ==> NoDot(d)
    ensures forall d :: d in DoubleEscapes(s) ==> NoDot(d)
  {
    DoubleEscapesChars(s);
  }

  lemma OpenBracketStep(s: string)
    requires forall d :: d in s ==> NoDot(d)
    ensures forall d :: d in ReplaceChar(s, '[', "#lb#") ==> NoOpenBracket(d)
  {
    ReplaceCharChars(s, '[', "#lb#");
  }

  lemma CloseBracketStep(s: string)
    requires forall d :: d in s ==> NoOpenBracket(d)
    ensures forall d :: d in ReplaceChar(s, ']', "#rb#") ==> NoBracket(d)
  {
    ReplaceCharChars(s, ']', "#rb#");
  }

  lemma SingleQuoteStep(s: string)
    requires forall d :: d in s ==> NoBracket(d)
    ensures forall d :: d in ReplaceChar(s, '\'', "#sq#") ==> NoSingleQuote(d)
  {
    ReplaceCharChars(s, '\'', "#sq#");
  }

  lemma DoubleQuoteStep(s: string)
    requires forall d :: d in s ==> NoSingleQuote(d)
    ensures forall d :: d in ReplaceChar(s, '"', "#dq#") ==> KeySafe(d)
  {
    ReplaceCharChars(s, '"', "#dq#");
  }

  /** A key made by the default transform holds no white space, `.`, `[`, `]`,
      `'` or `"`. */
  lemma DefaultTransformIsKeySafe(text: string)
    ensures forall i :: 0 <= i < |DefaultTransform(text)| ==> KeySafe(DefaultTransform(text)[i])
  {
    var s1 := CollapseSpaces(text);
    var s2 := ReplaceChar(s1, '.', "#dot#");
    var s3 := DoubleEscapes(s2);
    var s4 := ReplaceChar(s3, '[', "#lb#");
    var s5 := ReplaceChar(s4, ']', "#rb#");
    var s6 := ReplaceChar(s5, '\'', "#sq#");
    CollapseSpacesChars(text);
    DotStep(s1);
    EscapeStep(s2);
    OpenBracketStep(s3);
    CloseBracketStep(s4);
    SingleQuoteStep(s5);
    DoubleQuoteStep(s6);
  }

  /** Text made only of key-safe characters and without a backslash is its own
      default key. */
  lemma DefaultTransformKeepsPlainText(text: string)
    requires forall i :: 0 <= i < |text| ==> KeySafe(text[i]) && text[i] != '\\'
    ensures DefaultTransform(text) == text
  {
    assert forall c :: c in text ==> KeySafe(c) && c != '\\';
    CollapseSpacesChars(text);
    ReplaceCharUnchanged(text, '.', "#dot#");
    DoubleEscapesUnchanged(text);
    ReplaceCharUnchanged(text, '[', "#lb#");
    ReplaceCharUnchanged(text, ']', "#rb#");
    ReplaceCharUnchanged(text, '\'', "#sq#");
    ReplaceCharUnchanged(text, '"', "#dq#");
  }

  /** The user's key function, or the default transform when it fails. */
  function ApplyKeyFunction(custom: string -> Option<string>, s: string): (r: string)
    ensures custom(s).Some? ==> r == custom(s).value
    ensures custom(s).None? ==> r == DefaultTransform(s) && forall i :: 0 <= i < |r| ==> KeySafe(r[i])
  {
    DefaultTransformIsKeySafe(s);
    match custom(s)
    case Some(k) => k
    case None => DefaultTransform(s)
  }

  /** `convertToI18nKey`: strip the quotes, then apply the key function. */
  function ConvertToI18nKey(h: Hooks, text: string): string {
    ApplyKeyFunction(h.customKey, h.removeQuotes(text))
  }

  /** The key of a text is what the user's function makes of the text without
      its quotes, or, when that function fails, a key-safe default. */
  lemma ConvertToI18nKeyFacts(h: Hooks, text: string)
    ensures var r := ConvertToI18nKey(h, text);
      (h.customKey(h.removeQuotes(text)).None? ==> r == DefaultTransform(h.removeQuotes(text)) && forall i :: 0 <= i < |r| ==> KeySafe(r[i]))
      && (h.customKey(h.removeQuotes(text)).Some? ==> r == h.customKey(h.removeQuotes(text)).value)
  {
  }

  /** The key with the namespace in front, joined by a dot, unless the
      namespace is empty. */
  function FullKey(namespace: string, key: string): (r: string)
    ensures namespace == "" ==> r == key
    ensures namespace != "" ==> |r| == |namespace| + 1 + |key| && StartsWith(r, namespace + ".") && EndsWith(r, key)
  {
    if namespace == "" then key else namespace + "." + key
  }

  /** Within one non-empty namespace, full keys are equal exactly when the keys are. */
  lemma FullKeyInjective(namespace: string, a: string, b: string)
    ensures FullKey(namespace, a) == FullKey(namespace, b) <==> a == b
  {
    if namespace != "" && FullKey(namespace, a) == FullKey(namespace, b) {
      var n := |namespace| + 1;
      assert FullKey(namespace, a)[n..] == a;
      assert FullKey(namespace, b)[n..] == b;
    }
  }
}
