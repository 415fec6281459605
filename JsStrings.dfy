/** The parts of ECMAScript string semantics that the extension relies on:
    the `\s` and `\w` classes, `trim`, first-occurrence `replace` with a
    string pattern, `split` on one character, `substring`, `slice` and the
    decimal rendering of a non-negative integer. Strings are sequences of
    Dafny characters; the UTF-16 code-unit view of JavaScript is not modelled. */
module JsStrings {
  import opened Wrappers

  /** The ECMAScript WhiteSpace and LineTerminator code points: the class `\s`
      and exactly what `String.prototype.trim` removes. */
  predicate IsJsSpace(c: char) {
    c == '\t' || c == '\n' || c == '\U{B}' || c == '\U{C}' || c == '\r' || c == ' '
    || c == '\U{A0}' || c == '\U{1680}' || ('\U{2000}' <= c <= '\U{200A}')
    || c == '\U{2028}' || c == '\U{2029}' || c == '\U{202F}' || c == '\U{205F}'
    || c == '\U{3000}' || c == '\U{FEFF}'
  }

  /** The characters that `.` in a regular expression without the `s` flag does not match. */
  predicate IsLineTerminator(c: char) {
    c == '\n' || c == '\r' || c == '\U{2028}' || c == '\U{2029}'
  }

  lemma LineTerminatorIsSpace(c: char)
    ensures IsLineTerminator(c) ==> IsJsSpace(c)
  {
  }

  /** The class `\w`: ASCII letters, digits and the underscore. */
  predicate IsWordChar(c: char) {
    ('a' <= c <= 'z') || ('A' <= c <= 'Z') || ('0' <= c <= '9') || c == '_'
  }

  /** `w` occurs in `s` starting at index `i`. */
  predicate IsAt(s: string, i: nat, w: string) {
    i + |w| <= |s| && s[i..i + |w|] == w
  }

  predicate StartsWith(s: string, w: string) { IsAt(s, 0, w) }

  /** Where `w` occurs, each part of `w` occurs at the matching offset. */
  lemma IsAtPart(s: string, i: nat, w: string, a: nat, b: nat)
    requires IsAt(s, i, w) && a <= b <= |w|
    ensures s[i + a..i + b] == w[a..b]
  {
    forall j | 0 <= j < b - a ensures s[i + a..i + b][j] == w[a..b][j] {
      assert w[a + j] == s[i..i + |w|][a + j];
    }
  }

  predicate EndsWith(s: string, w: string) {
    |w| <= |s| && s[|s| - |w|..] == w
  }

  function Min(a: nat, b: nat): nat { if a <= b then a else b }

  /** The first index at or after `from` where `w` occurs (`indexOf`). */
  function IndexOfFrom(s: string, w: string, from: nat): (r: Option<nat>)
    ensures r.Some? ==> from <= r.value && IsAt(s, r.value, w)
    ensures r.Some? ==> forall j :: from <= j < r.value ==> !IsAt(s, j, w)
    ensures r.None? ==> forall j :: from <= j ==> !IsAt(s, j, w)
    decreases |s| - from
  {
    if from + |w| > |s| then None
    else if IsAt(s, from, w) then Some(from)
    else IndexOfFrom(s, w, from + 1)
  }

  /** The first index at or after `from` that holds the character `c`. */
  function FindFrom(s: string, c: char, from: nat): (r: Option<nat>)
    ensures r.Some? ==> from <= r.value < |s| && s[r.value] == c
    ensures r.Some? ==> forall j :: from <= j < r.value ==> s[j] != c
    ensures r.None? ==> forall j :: from <= j < |s| ==> s[j] != c
    decreases |s| - from
  {
    if from >= |s| then None
    else if s[from] == c then Some(from)
    else FindFrom(s, c, from + 1)
  }

  function IndexOf(s: string, w: string): Option<nat> {
    IndexOfFrom(s, w, 0)
  }

  /** `s.replace(w, rep)` with a string pattern: only the first occurrence is
      replaced, and `s` is returned unchanged when `w` does not occur. */
  function ReplaceFirst(s: string, w: string, rep: string): (r: string)
    ensures IndexOf(s, w).None? ==> r == s
    ensures IndexOf(s, w).Some? ==>
      var i := IndexOf(s, w).value;
      r == s[..i] + rep + s[i + |w|..]
  {
    match IndexOf(s, w)
    case None => s
    case Some(i) => s[..i] + rep + s[i + |w|..]
  }

  /** `s` without its leading white space. */
  function TrimStart(s: string): (r: string)
    ensures |r| <= |s| && r == s[|s| - |r|..]
    ensures r != [] ==> !IsJsSpace(r[0])
  {
    if s != [] && IsJsSpace(s[0]) then TrimStart(s[1..]) else s
  }

  /** `s` without its trailing white space. */
  function TrimEnd(s: string): (r: string)
    ensures |r| <= |s| && r == s[..|r|]
    ensures r != [] ==> !IsJsSpace(r[|r| - 1])
  {
    if s != [] && IsJsSpace(s[|s| - 1]) then TrimEnd(s[..|s| - 1]) else s
  }

  /** `String.prototype.trim`. */
  function Trim(s: string): string {
    TrimEnd(TrimStart(s))
  }

  /** `Trim(s)` keeps a contiguous part of `s`: it is `s` from the offset of
      `TrimStart(s)` on, cut to its own length, and neither of its ends is white space. */
  lemma TrimIsInfix(s: string)
    ensures
      var a := |s| - |TrimStart(s)|;
      a + |Trim(s)| <= |s| && Trim(s) == s[a..a + |Trim(s)|]
    ensures Trim(s) != [] ==> !IsJsSpace(Trim(s)[0]) && !IsJsSpace(Trim(s)[|Trim(s)| - 1])
  {
    var t := TrimStart(s);
    var r := TrimEnd(t);
    var a := |s| - |t|;
    assert Trim(s) == r;
    assert t == s[a..] && r == t[..|r|];
    assert s[a..][..|r|] == s[a..a + |r|];
    if r != [] {
      TrimEnds(t, r);
    }
  }

  /** Trimming the end of a text that starts without white space leaves
      white space at neither end. */
  lemma TrimEnds(t: string, r: string)
    requires t != [] ==> !IsJsSpace(t[0])
    requires r != [] && r == TrimEnd(t)
    ensures !IsJsSpace(r[0]) && !IsJsSpace(r[|r| - 1])
  {
    assert r == t[..|r|];
    assert r[0] == t[0];
  }

  function Digit(d: nat): (c: char)
    requires d < 10
    ensures '0' <= c <= '9'
  {
    (48 + d) as char
  }

  /** The decimal rendering of `n` (`String(n)` and template interpolation). */
  function NatToString(n: nat): (r: string)
    ensures |r| >= 1
    ensures forall i :: 0 <= i < |r| ==> '0' <= r[i] <= '9'
    decreases n
  {
    if n < 10 then [Digit(n)] else NatToString(n / 10) + [Digit(n % 10)]
  }

  /** `xs.join(sep)`. */
  function Join(xs: seq<string>, sep: string): string
    decreases |xs|
  {
    if |xs| == 0 then ""
    else if |xs| == 1 then xs[0]
    else Join(xs[..|xs| - 1], sep) + sep + xs[|xs| - 1]
  }

  /** What `IndexOf` says about a one-character pattern. */
  lemma IndexOfCharFacts(s: string, c: char)
    ensures IndexOf(s, [c]).None? ==> c !in s
    ensures IndexOf(s, [c]).Some? ==>
      var i := IndexOf(s, [c]).value;
      i < |s| && s[i] == c && c !in s[..i]
  {
    match IndexOf(s, [c])
    case None =>
      forall j | 0 <= j < |s| ensures s[j] != c {
        assert !IsAt(s, j, [c]);
        assert s[j..j + 1] == [s[j]];
      }
    case Some(i) =>
      assert s[i..i + 1] == [c];
      forall j | 0 <= j < i ensures s[..i][j] != c {
        assert !IsAt(s, j, [c]);
        assert s[j..j + 1] == [s[j]];
      }
  }

  /** The first occurrence of a character is at `i` when it is there and not before. */
  lemma IndexOfCharIs(s: string, c: char, i: nat)
    requires i < |s| && s[i] == c && c !in s[..i]
    ensures IndexOf(s, [c]) == Some(i)
  {
    assert IsAt(s, i, [c]);
    IndexOfCharFacts(s, c);
  }

  /** `s.split(c)` for a one-character separator: the separator never occurs
      in a part, and there is always at least one part. */
  function Split(s: string, c: char): (parts: seq<string>)
    ensures |parts| >= 1
    ensures forall i :: 0 <= i < |parts| ==> c !in parts[i]
    decreases |s|
  {
    IndexOfCharFacts(s, c);
    match IndexOf(s, [c])
    case None => [s]
    case Some(i) => [s[..i]] + Split(s[i + 1..], c)
  }

  /** Joining with a separator character that occurs in no part, and then
      splitting, gives the parts back. */
  lemma {:induction false} SplitJoin(parts: seq<string>, c: char)
    requires |parts| >= 1
    requires forall i :: 0 <= i < |parts| ==> c !in parts[i]
    ensures Split(Join(parts, [c]), c) == parts
    decreases |parts|
  {
    if |parts| == 1 {
      SplitNone(parts[0], c);
    } else {
      var init := parts[..|parts| - 1];
      SplitJoin(init, c);
      SplitSnoc(Join(init, [c]), parts[|parts| - 1], c);
      assert init + [parts[|parts| - 1]] == parts;
    }
  }

  lemma SplitNone(s: string, c: char)
    requires c !in s
    ensures Split(s, c) == [s]
  {
    IndexOfCharFacts(s, c);
  }

  /** Splitting `a + c + k`, where `k` holds no `c`, ends with the part `k`. */
  lemma {:induction false} SplitSnoc(a: string, k: string, c: char)
    requires c !in k
    ensures Split(a + [c] + k, c) == Split(a, c) + [k]
    decreases |a|
  {
    var s := a + [c] + k;
    IndexOfCharFacts(a, c);
    match IndexOf(a, [c])
    case None =>
      assert s[..|a|] == a;
      IndexOfCharIs(s, c, |a|);
      assert s[|a| + 1..] == k;
      SplitNone(k, c);
      SplitNone(a, c);
    case Some(i) =>
      assert s[..i] == a[..i];
      IndexOfCharIs(s, c, i);
      assert s[i + 1..] == a[i + 1..] + [c] + k;
      SplitSnoc(a[i + 1..], k, c);
  }

  /** Splitting `a + c + b` splits `a` and `b` apart at that `c`. */
  lemma {:induction false} SplitAppend(a: string, b: string, c: char)
    ensures Split(a + [c] + b, c) == Split(a, c) + Split(b, c)
    decreases |a|
  {
    var s := a + [c] + b;
    IndexOfCharFacts(a, c);
    match IndexOf(a, [c])
    case None =>
      assert s[..|a|] == a;
      IndexOfCharIs(s, c, |a|);
      assert s[|a| + 1..] == b;
      SplitNone(a, c);
    case Some(i) =>
      assert s[..i] == a[..i];
      IndexOfCharIs(s, c, i);
      assert s[i + 1..] == a[i + 1..] + [c] + b;
      SplitAppend(a[i + 1..], b, c);
  }

  /** Splitting and then joining with the same separator gives the string back. */
  lemma {:induction false} JoinSplit(s: string, c: char)
    ensures Join(Split(s, c), [c]) == s
    decreases |s|
  {
    IndexOfCharFacts(s, c);
    match IndexOf(s, [c])
    case None =>
      SplitNone(s, c);
    case Some(i) =>
      var rest := Split(s[i + 1..], c);
      JoinSplit(s[i + 1..], c);
      JoinCons(s[..i], rest, [c]);
      assert s == s[..i] + [c] + s[i + 1..];
  }

  /** Joining two non-empty lists is joining each and putting the separator between. */
  lemma {:induction false} JoinAppend(a: seq<string>, b: seq<string>, sep: string)
    requires |a| >= 1 && |b| >= 1
    ensures Join(a + b, sep) == Join(a, sep) + sep + Join(b, sep)
    decreases |b|
  {
    var ab := a + b;
    if |b| == 1 {
      assert ab[..|ab| - 1] == a;
    } else {
      var b' := b[..|b| - 1];
      assert ab[..|ab| - 1] == a + b';
      JoinAppend(a, b', sep);
    }
  }

  /** `Join` read from the front. */
  lemma {:induction false} JoinCons(x: string, rest: seq<string>, sep: string)
    requires |rest| >= 1
    ensures Join([x] + rest, sep) == x + sep + Join(rest, sep)
    decreases |rest|
  {
    if |rest| == 1 {
      assert [x] + rest == [x, rest[0]];
    } else {
      var xs := [x] + rest;
      assert xs[..|xs| - 1] == [x] + rest[..|rest| - 1];
      JoinCons(x, rest[..|rest| - 1], sep);
    }
  }

  /** `s.substring(a, b)`: both indices are clamped to the length and swapped
      when the first exceeds the second. */
  function JsSubstring(s: string, a: nat, b: nat): (r: string)
    ensures a <= b <= |s| ==> r == s[a..b]
  {
    var a', b' := Min(a, |s|), Min(b, |s|);
    if a' <= b' then s[a'..b'] else s[b'..a']
  }

  /** `s.slice(k, -k)`: `s` without `k` characters at each end, or the empty
      string when `s` is too short for that. */
  function SliceInner(s: string, k: nat): (r: string)
    requires k >= 1
    ensures |s| >= 2 * k ==> r == s[k..|s| - k] && |r| == |s| - 2 * k
    ensures |s| < 2 * k ==> r == ""
  {
    if |s| >= 2 * k then s[k..|s| - k] else ""
  }
}
