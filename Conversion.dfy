/** `convertTextWithVariables` (text-conversion.ts): the translation call that
    replaces a piece of text, `t('key')` or `t('key', [v0, v1, …])`, wrapped
    as the file type needs it. */
module Conversion {
  import opened Wrappers
  import opened JsStrings
  import opened Interpolation
  import opened KeyGeneration

  /** A planned edit of the document: replace the characters from `start` up
      to `end` by `replacement`. */
  datatype Modification = Modification(start: nat, end: nat, replacement: string)

  /** A span of the document that holds the given text. */
  datatype TextRange = TextRange(start: nat, end: nat, text: string)

  /** The call: the full key in single quotes, then the variables, when there
      are any, as an array literal joined by `, `. */
  function CallString(fullKey: string, variables: seq<string>): string {
    if variables == [] then "t('" + fullKey + "')"
    else "t('" + fullKey + "', [" + Join(variables, ", ") + "])"
  }

  /** The wrapper the file type needs: none for quoted text and for `ts`,
      `{call}` for `tsx`, `{{call}}` for `vue`. */
  function Wrap(ft: FileType, quoted: bool, call: string): string {
    if quoted then call
    else
      match ft
      case Tsx => "{" + call + "}"
      case Vue => "{{" + call + "}}"
      case Ts => call
  }

  /** The key of a text: of the text itself without variables, of its
      template with them. */
  function TextKey(h: Hooks, ft: FileType, text: string): string {
    var info := VariablesOf(ft, text);
    if info.variables == [] then ConvertToI18nKey(h, text) else ConvertToI18nKey(h, info.template)
  }

  /** `convertTextWithVariables` under the namespace `namespace`. */
  function ConvertTextWithVariables(h: Hooks, namespace: string, ft: FileType, text: string): string {
    Wrap(ft, h.isQuotedText(text), CallString(FullKey(namespace, TextKey(h, ft, text)), VariablesOf(ft, text).variables))
  }

  /** The key read back from a call: what lies between `t('` and the next `'`. */
  function ReadKey(call: string): (r: Option<string>)
    ensures r.Some? ==> StartsWith(call, "t('") && '\'' !in r.value
  {
    if !StartsWith(call, "t('") then None
    else
      IndexOfCharFacts(call[3..], '\'');
      match IndexOf(call[3..], ['\''])
      case None => None
      case Some(j) => Some(call[3..][..j])
  }

  /** The wrapper removed by the slicing of the stringification fix-up. */
  function Unwrap(ft: FileType, s: string): string {
    match ft
    case Tsx => SliceInner(s, 1)
    case Vue => SliceInner(s, 2)
    case Ts => s
  }

  /** The call has the shape the source builds: it starts with `t('` and the
      full key, the key is closed by a quote, and the variables, when there
      are any, follow joined by `, ` inside brackets. */
  lemma CallShape(fullKey: string, variables: seq<string>)
    ensures var c := CallString(fullKey, variables);
      StartsWith(c, "t('" + fullKey + "'") && EndsWith(c, ")")
      && (variables == [] <==> c == "t('" + fullKey + "')")
      && (variables != [] ==> EndsWith(c, ", [" + Join(variables, ", ") + "])"))
  {
    var c := CallString(fullKey, variables);
    var p := "t('" + fullKey + "'";
    if variables == [] {
      assert c == p + ")";
    } else {
      var tail := ", [" + Join(variables, ", ") + "])";
      assert c == p + tail;
      assert c[|c| - |tail|..] == tail;
      assert c[..|p|] == p;
      assert |c| > |"t('" + fullKey + "')"|;
    }
  }

  /** A full key without a single quote is read back from its call. */
  lemma {:induction false} ReadKeyOfCall(fullKey: string, variables: seq<string>)
    requires '\'' !in fullKey
    ensures ReadKey(CallString(fullKey, variables)) == Some(fullKey)
  {
    var c := CallString(fullKey, variables);
    var rest := fullKey + "'" + c[|fullKey| + 4..];
    assert c[..3] == "t('";
    assert c[3..] == rest;
    assert rest[|fullKey|] == '\'';
    assert rest[..|fullKey|] == fullKey;
    IndexOfCharIs(rest, '\'', |fullKey|);
  }

  /** The wrapper is exactly what the fix-up's slicing cuts away again. */
  lemma UnwrapWrap(ft: FileType, quoted: bool, call: string)
    ensures !quoted ==> Unwrap(ft, Wrap(ft, quoted, call)) == call
    ensures quoted || ft == Ts ==> Wrap(ft, quoted, call) == call
  {
    if !quoted {
      match ft
      case Tsx =>
        var w := "{" + call + "}";
        assert w[1..|w| - 1] == call;
      case Vue =>
        var w := "{{" + call + "}}";
        assert w[2..|w| - 2] == call;
      case Ts =>
    }
  }

  /** A call built from a key-safe key under a namespace without a single
      quote gives its full key back once unwrapped. */
  lemma WrappedKeyReadBack(ft: FileType, quoted: bool, namespace: string, key: string, variables: seq<string>)
    requires '\'' !in namespace
    requires forall i :: 0 <= i < |key| ==> KeySafe(key[i])
    ensures ReadKey(Unwrap(if quoted then Ts else ft, Wrap(ft, quoted, CallString(FullKey(namespace, key), variables))))
         == Some(FullKey(namespace, key))
  {
    var fk := FullKey(namespace, key);
    assert forall i :: 0 <= i < |key| ==> key[i] != '\'';
    assert '\'' !in fk by {
      if namespace != "" {
        assert fk == namespace + "." + key;
      }
    }
    ReadKeyOfCall(fk, variables);
    UnwrapWrap(ft, quoted, CallString(fk, variables));
  }

  /** With the default transform and a namespace without a single quote, the
      key of the converted text is read back from its call: `namespace.` in
      front of the default key of the text, or of its template when it has
      variables. */
  lemma ConvertedKeyReadBack(h: Hooks, namespace: string, ft: FileType, text: string)
    requires '\'' !in namespace
    requires h.customKey(h.removeQuotes(text)).None?
    requires h.customKey(h.removeQuotes(VariablesOf(ft, text).template)).None?
    ensures
      var info := VariablesOf(ft, text);
      var source := if info.variables == [] then text else info.template;
      var r := ConvertTextWithVariables(h, namespace, ft, text);
      ReadKey(Unwrap(if h.isQuotedText(text) then Ts else ft, r))
        == Some(FullKey(namespace, DefaultTransform(h.removeQuotes(source))))
  {
    var info := VariablesOf(ft, text);
    ConvertToI18nKeyFacts(h, text);
    ConvertToI18nKeyFacts(h, info.template);
    WrappedKeyReadBack(ft, h.isQuotedText(text), namespace, TextKey(h, ft, text), info.variables);
  }
}
