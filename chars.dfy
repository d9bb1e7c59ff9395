/** Option type shared by the scanners. */
module Wrappers {
  datatype Option<+T> = None | Some(value: T)
}

/**
 Character classes and small scanners standing in for the pieces of Python's
 regular-expression syntax that app.py uses: `\s`, `\S`, `\d`, `\w`, `.`, `^`
 (in MULTILINE mode), and `str.strip()` / `str.lower()`.
 */
module Chars {

  /** Python's `str.isspace()`, which is also what `\s` matches in a `str` pattern
      and what `str.strip()` removes: the Unicode characters of category Zs or of
      bidirectional class WS, B or S. */
  predicate IsWs(c: char) {
    ('\t' <= c <= '\r') || ('\U{1C}' <= c <= ' ') || c == '\U{85}' || c == '\U{A0}'
    || c == '\U{1680}' || ('\U{2000}' <= c <= '\U{200A}') || c == '\U{2028}' || c == '\U{2029}'
    || c == '\U{202F}' || c == '\U{205F}' || c == '\U{3000}'
  }

  /** `\d`, restricted to ASCII digits. */
  predicate IsDigit(c: char) {
    '0' <= c <= '9'
  }

  /** `\w`, restricted to ASCII letters, digits and the underscore. */
  predicate IsWordChar(c: char) {
    ('a' <= c <= 'z') || ('A' <= c <= 'Z') || IsDigit(c) || c == '_'
  }

  /** The character classes the patterns repeat with a greedy `+`. */
  datatype CharClass =
    | Space       // \s
    | NonSpace    // \S  (also [\S,])
    | Digit       // \d
    | ValueChar   // [\w\d.?\-]
    | NotNewline  // .

  predicate In(c: char, k: CharClass) {
    match k
    case Space => IsWs(c)
    case NonSpace => !IsWs(c)
    case Digit => IsDigit(c)
    case ValueChar => IsWordChar(c) || c == '.' || c == '?' || c == '-'
    case NotNewline => c != '\n'
  }

  /** Every character of s[i..j] is in class k. */
  predicate AllIn(s: string, i: nat, j: nat, k: CharClass)
    requires i <= j <= |s|
  {
    forall q :: i <= q < j ==> In(s[q], k)
  }

  /** End of the longest run of class-k characters starting at i: what a greedy
      `k+` (or `k*`) consumes when nothing after it forces backtracking. */
  function Span(s: string, i: nat, k: CharClass): (j: nat)
    requires i <= |s|
    ensures i <= j <= |s|
    ensures AllIn(s, i, j, k)
    ensures j == |s| || !In(s[j], k)
    decreases |s| - i
  {
    if i == |s| || !In(s[i], k) then i else Span(s, i + 1, k)
  }

  /** A maximal run is unique: any end j with the two properties of Span is Span's. */
  lemma SpanUnique(s: string, i: nat, j: nat, k: CharClass)
    requires i <= j <= |s|
    requires AllIn(s, i, j, k)
    requires j == |s| || !In(s[j], k)
    ensures Span(s, i, k) == j
  {
  }

  /** `^` in MULTILINE mode: the start of the text or just after a line feed. */
  predicate AtLineStart(s: string, p: nat) {
    p == 0 || (0 < p <= |s| && s[p - 1] == '\n')
  }

  /** The literal w occurs in s at position p. */
  predicate LiteralAt(s: string, p: nat, w: string) {
    p + |w| <= |s| && s[p..p + |w|] == w
  }

  /** No whitespace anywhere in t. */
  predicate NoWs(t: string) {
    forall q :: 0 <= q < |t| ==> !IsWs(t[q])
  }

  /** Every character of t is whitespace. */
  predicate OnlyWs(t: string) {
    forall q :: 0 <= q < |t| ==> IsWs(t[q])
  }

  /** t with its trailing whitespace removed (`str.rstrip()`). */
  function StripEnd(t: string): (r: string)
    ensures |r| <= |t| && r == t[..|r|]
    ensures OnlyWs(t[|r|..])
    ensures r == [] || !IsWs(r[|r| - 1])
  {
    if t != [] && IsWs(t[|t| - 1]) then
      var init := t[..|t| - 1];
      var r := StripEnd(init);
      assert init[..|r|] == t[..|r|];
      assert t[|r|..] == init[|r|..] + [t[|t| - 1]];
      r
    else t
  }

  /** `str.strip()`: t without its leading and trailing whitespace. */
  function Strip(t: string): (r: string)
    ensures r == [] || (!IsWs(r[0]) && !IsWs(r[|r| - 1]))
  {
    StripEnd(t[Span(t, 0, Space)..])
  }

  /** Strip removes only leading and trailing whitespace: its result is a
      slice of t with nothing but whitespace on either side. */
  lemma StripSpec(t: string)
    ensures var r := Strip(t);
      exists i :: 0 <= i && i + |r| <= |t| && t[i..i + |r|] == r && OnlyWs(t[..i]) && OnlyWs(t[i + |r|..])
  {
    var i := Span(t, 0, Space);
    var r := StripEnd(t[i..]);
    assert t[i..i + |r|] == r;
    assert t[i + |r|..] == t[i..][|r|..];
    assert OnlyWs(t[..i]) by {
      forall q | 0 <= q < i ensures IsWs(t[..i][q]) {
        assert In(t[q], Space);
      }
    }
  }

  /** Strip leaves a whitespace-free string alone. */
  lemma StripNoWs(t: string)
    requires NoWs(t)
    ensures Strip(t) == t
  {
    assert Span(t, 0, Space) == 0 by {
      if t != [] { assert !IsWs(t[0]); }
    }
    assert t[0..] == t;
    if t != [] { assert !IsWs(t[|t| - 1]); }
  }

  /** Strip only removes characters: one that t lacks, its result lacks. */
  lemma StripKeeps(t: string, c: char)
    requires c !in t
    ensures c !in Strip(t)
  {
    var r := Strip(t);
    StripSpec(t);
    var i :| 0 <= i && i + |r| <= |t| && t[i..i + |r|] == r && OnlyWs(t[..i]) && OnlyWs(t[i + |r|..]);
    forall k | 0 <= k < |r| ensures r[k] != c {
      assert r[k] == t[i + k];
    }
  }

  /** ASCII case folding of `str.lower()`. */
  function LowerChar(c: char): (d: char)
    ensures 'A' <= c <= 'Z' ==> 'a' <= d <= 'z'
    ensures !('A' <= c <= 'Z') ==> d == c
  {
    if 'A' <= c <= 'Z' then (c as int - 'A' as int + 'a' as int) as char else c
  }

  function Lower(t: string): (r: string)
    ensures |r| == |t|
    ensures forall q :: 0 <= q < |t| ==> r[q] == LowerChar(t[q])
  {
    if t == [] then [] else [LowerChar(t[0])] + Lower(t[1..])
  }
}
