/** The JavaScript string operations the pull-request handler relies on:
    `endsWith`, `Array.prototype.join`, the two global regular-expression
    replacements and `trim`, each over `seq<char>`.  Beside them stand
    their partners: `Split` (the inverse of joining with a one-character
    separator) and `EscapeNewlines` (the transport encoding that the
    newline replacement undoes). */
module JsStrings {

  /** `s.endsWith(suffix)` */
  predicate EndsWith(s: string, suffix: string) {
    |suffix| <= |s| && s[|s| - |suffix|..] == suffix
  }

  // ---------------------------------------------------------------------
  // Array.prototype.join and its inverse

  /** `parts.join(sep)`: the separator goes between parts, never after the last. */
  function Join(parts: seq<string>, sep: string): (r: string)
    ensures parts == [] ==> r == []
    ensures parts != [] ==> |parts[0]| <= |r| && r[..|parts[0]|] == parts[0]
    ensures parts != [] ==> EndsWith(r, parts[|parts| - 1])
  {
    if |parts| == 0 then []
    else if |parts| == 1 then parts[0]
    else parts[0] + sep + Join(parts[1..], sep)
  }

  /** Joining one more part adds the separator and that part, whatever the
      parts contain. */
  lemma {:induction false} JoinSnoc(parts: seq<string>, p: string, sep: string)
    requires parts != []
    ensures Join(parts + [p], sep) == Join(parts, sep) + sep + p
  {
    if |parts| > 1 {
      assert (parts + [p])[1..] == parts[1..] + [p];
      JoinSnoc(parts[1..], p, sep);
    }
  }

  /** `s.split(sep)` for a one-character separator: the pieces between
      separators, always at least one (the empty string gives `[""]`). */
  function Split(s: string, sep: char): (r: seq<string>)
    ensures |r| >= 1
    ensures forall k :: 0 <= k < |r| ==> sep !in r[k]
  {
    if s == [] then [[]]
    else
      var rest := Split(s[1..], sep);
      if s[0] == sep then [[]] + rest
      else [[s[0]] + rest[0]] + rest[1..]
  }

  /** Splitting text that starts with a separator-free run glues the run to the first piece. */
  lemma {:induction false} SplitPrefix(a: string, t: string, sep: char)
    requires sep !in a
    ensures Split(a + t, sep) == [a + Split(t, sep)[0]] + Split(t, sep)[1..]
  {
    if a != [] {
      assert (a + t)[1..] == a[1..] + t;
      SplitPrefix(a[1..], t, sep);
      assert [a[0]] + (a[1..] + Split(t, sep)[0]) == a + Split(t, sep)[0];
    } else {
      assert a + t == t;
      assert a + Split(t, sep)[0] == Split(t, sep)[0];
      assert Split(t, sep) == [Split(t, sep)[0]] + Split(t, sep)[1..];
    }
  }

  /** Splitting undoes joining when no part contains the separator. */
  lemma {:induction false} SplitJoin(parts: seq<string>, sep: char)
    requires parts != []
    requires forall k :: 0 <= k < |parts| ==> sep !in parts[k]
    ensures Split(Join(parts, [sep]), sep) == parts
  {
    if |parts| == 1 {
      SplitPrefix(parts[0], [], sep);
      assert parts[0] + [] == parts[0];
    } else {
      var tail := Join(parts[1..], [sep]);
      SplitJoin(parts[1..], sep);
      assert Join(parts, [sep]) == parts[0] + ([sep] + tail);
      SplitPrefix(parts[0], [sep] + tail, sep);
      assert ([sep] + tail)[1..] == tail;
      assert Split([sep] + tail, sep) == [[]] + parts[1..];
      assert parts[0] + [] == parts[0];
    }
  }

  // ---------------------------------------------------------------------
  // .replace(/\\n/g, "\n"): a backslash followed by `n` becomes a newline

  /** `s` has a backslash immediately followed by the letter `n` at position `k`. */
  predicate EscapedNewlineAt(s: string, k: int) {
    0 <= k && k + 1 < |s| && s[k] == '\\' && s[k + 1] == 'n'
  }

  predicate HasEscapedNewline(s: string) {
    exists k | 0 <= k < |s| :: EscapedNewlineAt(s, k)
  }

  /** The global replacement scans left to right and does not revisit what it
      produced, so "\\\\n" (two backslashes, then n) keeps its first backslash. */
  function UnescapeNewlines(s: string): (r: string)
    ensures |r| <= |s|
    ensures s != [] ==> r != [] && r[0] == (if EscapedNewlineAt(s, 0) then '\n' else s[0])
    ensures !HasEscapedNewline(r)
  {
    if EscapedNewlineAt(s, 0) then
      var rest := UnescapeNewlines(s[2..]);
      assert forall k :: EscapedNewlineAt(s, k) && k > 1 ==> EscapedNewlineAt(s[2..], k - 2);
      assert forall k :: EscapedNewlineAt("\n" + rest, k) ==> EscapedNewlineAt(rest, k - 1);
      assert s == s[..2] + s[2..];
      "\n" + rest
    else if s == [] then []
    else
      var rest := UnescapeNewlines(s[1..]);
      assert forall k :: EscapedNewlineAt(s, k) && k > 0 ==> EscapedNewlineAt(s[1..], k - 1);
      assert forall k :: EscapedNewlineAt([s[0]] + rest, k) && k > 0 ==> EscapedNewlineAt(rest, k - 1);
      assert s == [s[0]] + s[1..];
      [s[0]] + rest
  }

  /** The replacement changes the text exactly when it holds a backslash-n:
      without one it is the identity, with one the text gets shorter. */
  lemma {:induction false} UnescapeChangesIff(s: string)
    ensures !HasEscapedNewline(s) ==> UnescapeNewlines(s) == s
    ensures HasEscapedNewline(s) ==> |UnescapeNewlines(s)| < |s|
  {
    if s != [] && !EscapedNewlineAt(s, 0) {
      UnescapeChangesIff(s[1..]);
      assert !HasEscapedNewline(s) ==> !HasEscapedNewline(s[1..]) by {
        forall k | EscapedNewlineAt(s[1..], k) ensures EscapedNewlineAt(s, k + 1) { }
      }
      assert HasEscapedNewline(s) ==> HasEscapedNewline(s[1..]) by {
        if HasEscapedNewline(s) {
          var k :| 0 <= k < |s| && EscapedNewlineAt(s, k);
          assert EscapedNewlineAt(s[1..], k - 1);
        }
      }
      assert s == [s[0]] + s[1..];
    } else if s != [] {
      assert HasEscapedNewline(s);
    }
  }

  /** The transport encoding the replacement undoes: every newline written as
      a backslash followed by `n`. */
  function EscapeNewlines(t: string): (r: string)
    ensures '\n' !in r
    ensures t != [] ==> r != [] && r[0] == (if t[0] == '\n' then '\\' else t[0])
  {
    if t == [] then []
    else (if t[0] == '\n' then "\\n" else [t[0]]) + EscapeNewlines(t[1..])
  }

  /** Unescaping keeps the escaped form: each backslash-n becomes a newline,
      which escapes back to backslash-n, and every other character, a real
      newline included, is kept. */
  lemma {:induction false} EscapeUnescape(s: string)
    ensures EscapeNewlines(UnescapeNewlines(s)) == EscapeNewlines(s)
  {
    if EscapedNewlineAt(s, 0) {
      var rest := UnescapeNewlines(s[2..]);
      EscapeUnescape(s[2..]);
      EscapeCons('\n', rest);
      EscapeCons('n', s[2..]);
      EscapeCons('\\', ['n'] + s[2..]);
      assert s == ['\\'] + (['n'] + s[2..]);
    } else if s != [] {
      var rest := UnescapeNewlines(s[1..]);
      EscapeUnescape(s[1..]);
      EscapeCons(s[0], rest);
      EscapeCons(s[0], s[1..]);
      assert s == [s[0]] + s[1..];
    }
  }

  /** Escaping a text one character longer at the front. */
  lemma EscapeCons(c: char, x: string)
    ensures EscapeNewlines([c] + x) == (if c == '\n' then "\\n" else [c]) + EscapeNewlines(x)
  {
    assert ([c] + x)[1..] == x;
  }

  /** The replacement's result is the only text that holds no backslash-n
      and escapes to what the input escapes to. */
  lemma UnescapeUnique(s: string, r: string)
    requires !HasEscapedNewline(r) && EscapeNewlines(r) == EscapeNewlines(s)
    ensures r == UnescapeNewlines(s)
  {
    EscapeUnescape(s);
    UnescapeEscape(r);
    UnescapeEscape(UnescapeNewlines(s));
  }

  /** Unescaping recovers the text that was escaped, provided the text did not
      itself contain a literal backslash-n (which the encoding cannot tell
      from an escaped newline). */
  lemma {:induction false} UnescapeEscape(t: string)
    requires !HasEscapedNewline(t)
    ensures UnescapeNewlines(EscapeNewlines(t)) == t
  {
    if t != [] {
      var e := EscapeNewlines(t[1..]);
      assert !HasEscapedNewline(t[1..]) by {
        forall k | EscapedNewlineAt(t[1..], k) ensures EscapedNewlineAt(t, k + 1) { }
      }
      UnescapeEscape(t[1..]);
      if t[0] == '\n' {
        assert EscapeNewlines(t) == "\\n" + e;
        assert ("\\n" + e)[2..] == e;
      } else {
        assert EscapeNewlines(t) == [t[0]] + e;
        if t[0] == '\\' && e != [] {
          assert !EscapedNewlineAt(t, 0);
          assert e[0] != 'n';
        }
        assert ([t[0]] + e)[1..] == e;
      }
    }
  }

  // ---------------------------------------------------------------------
  // .replace(/\t/g, "")

  function RemoveTabs(s: string): (r: string)
    ensures '\t' !in r
    ensures |r| <= |s|
    ensures forall c :: c != '\t' ==> multiset(r)[c] == multiset(s)[c]
  {
    if s == [] then []
    else
      assert s == [s[0]] + s[1..];
      (if s[0] == '\t' then [] else [s[0]]) + RemoveTabs(s[1..])
  }

  /** Tab removal works piecewise, so the order of the other characters is kept. */
  lemma {:induction false} RemoveTabsAppend(a: string, b: string)
    ensures RemoveTabs(a + b) == RemoveTabs(a) + RemoveTabs(b)
  {
    if a != [] {
      assert (a + b)[1..] == a[1..] + b;
      RemoveTabsAppend(a[1..], b);
    } else {
      assert a + b == b;
    }
  }

  /** Text without tabs is left as it is. */
  lemma {:induction false} RemoveTabsNoTab(s: string)
    requires '\t' !in s
    ensures RemoveTabs(s) == s
  {
    if s != [] {
      RemoveTabsNoTab(s[1..]);
      assert s == [s[0]] + s[1..];
    }
  }

  // ---------------------------------------------------------------------
  // String.prototype.trim

  /** WhiteSpace and LineTerminator of ECMAScript: tab, vertical tab, form
      feed, space, no-break space, the zero-width no-break space, the
      space separators (category Zs as of Unicode 15) and the four line
      terminators. */
  predicate IsWhiteSpace(c: char) {
    || c == '\t' || c == '\n' || c == '\U{000B}' || c == '\U{000C}' || c == '\r'
    || c == ' ' || c == '\U{00A0}' || c == '\U{1680}'
    || ('\U{2000}' <= c <= '\U{200A}')
    || c == '\U{2028}' || c == '\U{2029}' || c == '\U{202F}' || c == '\U{205F}'
    || c == '\U{3000}' || c == '\U{FEFF}'
  }

  /** The first position at or after `from` that does not hold white space
      (`|s|` when there is none). */
  function SkipWhiteSpace(s: string, from: nat): (i: nat)
    requires from <= |s|
    ensures from <= i <= |s|
    ensures forall k :: from <= k < i ==> IsWhiteSpace(s[k])
    ensures i < |s| ==> !IsWhiteSpace(s[i])
    decreases |s| - from
  {
    if from < |s| && IsWhiteSpace(s[from]) then SkipWhiteSpace(s, from + 1) else from
  }

  /** The end of `s[..to]` once its trailing white space is dropped. */
  function SkipWhiteSpaceBack(s: string, to: nat): (j: nat)
    requires to <= |s|
    ensures j <= to
    ensures forall k :: j <= k < to ==> IsWhiteSpace(s[k])
    ensures 0 < j ==> !IsWhiteSpace(s[j - 1])
  {
    if 0 < to && IsWhiteSpace(s[to - 1]) then SkipWhiteSpaceBack(s, to - 1) else to
  }

  /** `r` is the slice of `s` at `i` with only white space around it. */
  predicate TrimmedAt(s: string, r: string, i: int) {
    && 0 <= i && i + |r| <= |s| && r == s[i..i + |r|]
    && (forall k :: 0 <= k < i ==> IsWhiteSpace(s[k]))
    && (forall k :: i + |r| <= k < |s| ==> IsWhiteSpace(s[k]))
  }

  /** `s.trim()`: white space dropped at both ends. */
  function Trim(s: string): (r: string)
    ensures r == [] || (!IsWhiteSpace(r[0]) && !IsWhiteSpace(r[|r| - 1]))
    ensures TrimmedAt(s, r, SkipWhiteSpace(s, 0))
  {
    var t := s[SkipWhiteSpace(s, 0)..];
    t[..SkipWhiteSpaceBack(t, |t|)]
  }

  /** Trimming twice is trimming once. */
  lemma TrimIdempotent(s: string)
    ensures Trim(Trim(s)) == Trim(s)
  {
    var r := Trim(s);
    assert SkipWhiteSpace(r, 0) == 0;
    assert SkipWhiteSpaceBack(r, |r|) == |r|;
  }
}
