/**
 The five regular expressions of app.py, each written out as the one match
 attempt the `re` engine makes at a given position, and `re.search` /
 `re.findall` on top of them. Every pattern is built from greedy runs whose
 maximal extent is the only one that can succeed, so no backtracking needs to
 be modelled beyond what the comments point out.
 */
module Regex {
  import opened Wrappers
  import opened Chars

  datatype Pattern =
    | LabelLine                   // ^LABEL:\s+(\S+)                         MULTILINE
    | FruRef                      // FRU:\s+(\S+)\s+(\S+)
    | KeyValueLine(key: string)   // ^<key>\s+([\S,]+)\s                      MULTILINE
    | Sys0Line                    // ^sys0!system:(.+)$                        MULTILINE
    | ComponentLine               // ^(sissas\d+|fcs\d+|ent\d+|pdisk\d+|hdisk\d+)!([\w\d.?\-]+)  MULTILINE

  /** A successful match: where it starts, its capture groups, where it ends. */
  datatype Hit = Hit(start: nat, groups: seq<string>, end: nat)

  function GroupCount(pat: Pattern): nat {
    match pat
    case FruRef => 2
    case ComponentLine => 2
    case _ => 1
  }

  /** The component alternatives, in the order the alternation tries them. */
  const ComponentKinds: seq<string> := ["sissas", "fcs", "ent", "pdisk", "hdisk"]

  /** The match of pat that starts exactly at position p, if there is one. */
  function MatchAt(s: string, p: nat, pat: Pattern): (m: Option<Hit>)
    requires p <= |s|
    ensures m.Some? ==> m.value.start == p && p < m.value.end <= |s|
    ensures m.Some? ==> |m.value.groups| == GroupCount(pat)
  {
    match pat
    case LabelLine => LabelAt(s, p)
    case FruRef => FruAt(s, p)
    case KeyValueLine(key) => KeyValueAt(s, p, key)
    case Sys0Line => Sys0At(s, p)
    case ComponentLine => if AtLineStart(s, p) then AlternativeAt(s, p, ComponentKinds) else None
  }

  /** `^LABEL:\s+(\S+)`: the whitespace run may cross line feeds. */
  function LabelAt(s: string, p: nat): (m: Option<Hit>)
    requires p <= |s|
    ensures m.Some? ==> m.value.start == p && p < m.value.end <= |s| && |m.value.groups| == 1
  {
    if AtLineStart(s, p) && LiteralAt(s, p, "LABEL:") then
      var b := Span(s, p + 6, Space);
      if p + 6 < b < |s| then
        var e := Span(s, b, NonSpace);
        Some(Hit(p, [s[b..e]], e))
      else None
    else None
  }

  /** `FRU:\s+(\S+)\s+(\S+)`, anywhere in the text. */
  function FruAt(s: string, p: nat): (m: Option<Hit>)
    requires p <= |s|
    ensures m.Some? ==> m.value.start == p && p < m.value.end <= |s| && |m.value.groups| == 2
  {
    if LiteralAt(s, p, "FRU:") then
      var b := Span(s, p + 4, Space);
      if p + 4 < b < |s| then
        var c := Span(s, b, NonSpace);
        var d := Span(s, c, Space);
        if c < d < |s| then
          var e := Span(s, d, NonSpace);
          Some(Hit(p, [s[b..c], s[d..e]], e))
        else None
      else None
    else None
  }

  /** `^<key>\s+([\S,]+)\s`: the value must be followed by one more whitespace
      character, which the match consumes. */
  function KeyValueAt(s: string, p: nat, key: string): (m: Option<Hit>)
    requires p <= |s|
    ensures m.Some? ==> m.value.start == p && p < m.value.end <= |s| && |m.value.groups| == 1
  {
    if AtLineStart(s, p) && LiteralAt(s, p, key) then
      var b := Span(s, p + |key|, Space);
      if p + |key| < b < |s| then
        var c := Span(s, b, NonSpace);
        if c < |s| then Some(Hit(p, [s[b..c]], c + 1)) else None
      else None
    else None
  }

  /** `^sys0!system:(.+)$`: the rest of the line, at least one character. */
  function Sys0At(s: string, p: nat): (m: Option<Hit>)
    requires p <= |s|
    ensures m.Some? ==> m.value.start == p && p < m.value.end <= |s| && |m.value.groups| == 1
  {
    if AtLineStart(s, p) && LiteralAt(s, p, "sys0!system:") then
      var e := Span(s, p + 12, NotNewline);
      if p + 12 < e then Some(Hit(p, [s[p + 12..e]], e)) else None
    else None
  }

  /** The alternation `(w1\d+|w2\d+|...)!([\w\d.?\-]+)`, trying kinds in order. */
  function AlternativeAt(s: string, p: nat, kinds: seq<string>): (m: Option<Hit>)
    requires p <= |s|
    ensures m.Some? ==> m.value.start == p && p < m.value.end <= |s| && |m.value.groups| == 2
  {
    if kinds == [] then None
    else match KindAt(s, p, kinds[0])
      case Some(h) => Some(h)
      case None => AlternativeAt(s, p, kinds[1..])
  }

  /** One alternative `w\d+!([\w\d.?\-]+)`; group 1 is w with its digits. */
  function KindAt(s: string, p: nat, w: string): (m: Option<Hit>)
    requires p <= |s|
    ensures m.Some? ==> m.value.start == p && p < m.value.end <= |s| && |m.value.groups| == 2
  {
    if LiteralAt(s, p, w) then
      var d := Span(s, p + |w|, Digit);
      if p + |w| < d < |s| && s[d] == '!' then
        var v := Span(s, d + 1, ValueChar);
        if d + 1 < v then Some(Hit(p, [s[p..d], s[d + 1..v]], v)) else None
      else None
    else None
  }

  /** The outcome of the match attempt at every position 0..|s|, the positions
      at which the engine's scan can try the pattern. */
  function Attempts(s: string, pat: Pattern): (t: seq<Option<Hit>>)
    ensures |t| == |s| + 1
    ensures forall q {:trigger MatchAt(s, q, pat)} :: 0 <= q <= |s| ==> t[q] == MatchAt(s, q, pat)
  {
    AttemptsBelow(s, pat, |s| + 1)
  }

  /** The outcomes of the attempts at the positions 0..k - 1. */
  function AttemptsBelow(s: string, pat: Pattern, k: nat): (t: seq<Option<Hit>>)
    requires k <= |s| + 1
    ensures |t| == k
    ensures forall q {:trigger MatchAt(s, q, pat)} :: 0 <= q < k ==> t[q] == MatchAt(s, q, pat)
  {
    if k == 0 then [] else AttemptsBelow(s, pat, k - 1) + [MatchAt(s, k - 1, pat)]
  }

  /** What every table of attempts satisfies: an attempt at q that succeeds
      starts at q, ends after q within the text, and has n groups. */
  ghost predicate Proper(t: seq<Option<Hit>>, n: nat) {
    forall q :: 0 <= q < |t| && t[q].Some? ==> t[q].value.start == q < t[q].value.end < |t| && |t[q].value.groups| == n
  }

  lemma AttemptsProper(s: string, pat: Pattern)
    ensures Proper(Attempts(s, pat), GroupCount(pat))
  {
    var t := Attempts(s, pat);
    forall q | 0 <= q < |t| ensures t[q] == MatchAt(s, q, pat) {
    }
  }

  /** No attempt in [lo, hi) succeeds. */
  ghost predicate NoneIn(t: seq<Option<Hit>>, lo: nat, hi: nat)
    requires hi <= |t|
  {
    forall q :: lo <= q < hi ==> t[q].None?
  }

  /** The scan of `search` over a table of attempts: the first success at or after from. */
  function SearchIn(t: seq<Option<Hit>>, n: nat, from: nat): (m: Option<Hit>)
    requires Proper(t, n) && from < |t|
    ensures m.Some? ==> from <= m.value.start < m.value.end < |t| && |m.value.groups| == n
    decreases |t| - from
  {
    match t[from]
    case Some(h) => Some(h)
    case None => if from == |t| - 1 then None else SearchIn(t, n, from + 1)
  }

  /** The scan of `findall` over a table of attempts: repeated search, each one
      resuming where the previous match ended. */
  function FindAllIn(t: seq<Option<Hit>>, n: nat, from: nat): (hits: seq<Hit>)
    requires Proper(t, n) && from < |t|
    ensures forall i :: 0 <= i < |hits| ==> from <= hits[i].start < hits[i].end < |t| && |hits[i].groups| == n
    ensures forall i :: 0 <= i < |hits| - 1 ==> hits[i].end <= hits[i + 1].start
    decreases |t| - from
  {
    match SearchIn(t, n, from)
    case None => []
    case Some(h) => [h] + FindAllIn(t, n, h.end)
  }

  /** SearchIn returns the leftmost success, and nothing exactly when all fail. */
  lemma {:induction false} SearchInLeftmost(t: seq<Option<Hit>>, n: nat, from: nat)
    requires Proper(t, n) && from < |t|
    ensures var m := SearchIn(t, n, from);
      && (m.Some? ==> t[m.value.start] == m && NoneIn(t, from, m.value.start))
      && (m.None? <==> NoneIn(t, from, |t|))
    decreases |t| - from
  {
    if t[from].None? && from < |t| - 1 {
      SearchInLeftmost(t, n, from + 1);
    }
  }

  /** FindAllIn returns the leftmost non-overlapping successes: each hit is a
      success, none starts before the first, between two consecutive ones or
      after the last, and the result is empty iff every attempt fails. */
  lemma {:induction false} FindAllInLeftmost(t: seq<Option<Hit>>, n: nat, from: nat)
    requires Proper(t, n) && from < |t|
    ensures var hits := FindAllIn(t, n, from);
      && (forall i :: 0 <= i < |hits| ==> t[hits[i].start] == Some(hits[i]))
      && (hits == [] <==> NoneIn(t, from, |t|))
      && (hits != [] ==> NoneIn(t, from, hits[0].start))
      && (forall i :: 0 <= i < |hits| - 1 ==> NoneIn(t, hits[i].end, hits[i + 1].start))
      && (hits != [] ==> NoneIn(t, hits[|hits| - 1].end, |t|))
    decreases |t| - from
  {
    var hits := FindAllIn(t, n, from);
    SearchInLeftmost(t, n, from);
    match SearchIn(t, n, from)
    case None =>
    case Some(h) =>
      FindAllInLeftmost(t, n, h.end);
      var rest := FindAllIn(t, n, h.end);
      assert hits == [h] + rest;
      assert forall i :: 1 <= i < |hits| ==> hits[i] == rest[i - 1];
  }

  /** `pattern.search(s, from)`. */
  function Search(s: string, from: nat, pat: Pattern): (m: Option<Hit>)
    requires from <= |s|
    ensures m.Some? ==> from <= m.value.start < m.value.end <= |s| && |m.value.groups| == GroupCount(pat)
  {
    AttemptsProper(s, pat);
    SearchIn(Attempts(s, pat), GroupCount(pat), from)
  }

  /** `pattern.findall(s)` (from position from), keeping each match's extent. */
  function FindAll(s: string, from: nat, pat: Pattern): (hits: seq<Hit>)
    requires from <= |s|
    ensures forall i :: 0 <= i < |hits| ==> from <= hits[i].start < hits[i].end <= |s|
    ensures forall i :: 0 <= i < |hits| ==> |hits[i].groups| == GroupCount(pat)
    ensures forall i :: 0 <= i < |hits| - 1 ==> hits[i].end <= hits[i + 1].start
  {
    AttemptsProper(s, pat);
    FindAllIn(Attempts(s, pat), GroupCount(pat), from)
  }

  /** No match of pat starts in [lo, hi): every attempt there fails. */
  ghost predicate NoMatchIn(s: string, lo: nat, hi: nat, pat: Pattern)
    requires hi <= |s| + 1
  {
    NoneIn(Attempts(s, pat), lo, hi)
  }

  /** What NoMatchIn means in terms of the match attempts themselves. The
      contracts of SearchLeftmost, FindAllEmpty and Snap.SnapEmpty are stated
      with NoMatchIn, which keeps their proofs cheap; this lemma turns any of
      them into a statement about MatchAt. */
  lemma NoMatchInMeans(s: string, lo: nat, hi: nat, pat: Pattern)
    requires hi <= |s| + 1
    ensures NoMatchIn(s, lo, hi, pat) <==> forall q :: lo <= q < hi ==> MatchAt(s, q, pat).None?
  {
    var t := Attempts(s, pat);
    forall q | lo <= q < hi ensures t[q] == MatchAt(s, q, pat) {
    }
  }

  /** Search finds the leftmost match of pat at or after from, and finds nothing
      exactly when no match of pat starts there. */
  lemma SearchLeftmost(s: string, from: nat, pat: Pattern)
    requires from <= |s|
    ensures var m := Search(s, from, pat);
      && (m.Some? ==> MatchAt(s, m.value.start, pat) == m && NoMatchIn(s, from, m.value.start, pat))
      && (m.None? <==> NoMatchIn(s, from, |s| + 1, pat))
  {
    AttemptsProper(s, pat);
    var t, n := Attempts(s, pat), GroupCount(pat);
    SearchInLeftmost(t, n, from);
  }

  /** Every hit findall returns is the match of pat at its start. */
  lemma FindAllHits(s: string, from: nat, pat: Pattern)
    requires from <= |s|
    ensures var hits := FindAll(s, from, pat);
      forall i :: 0 <= i < |hits| ==> MatchAt(s, hits[i].start, pat) == Some(hits[i])
  {
    AttemptsProper(s, pat);
    FindAllInLeftmost(Attempts(s, pat), GroupCount(pat), from);
  }

  /** A success whose start is the start of a hit is that hit. */
  lemma FindAllInHitAt(t: seq<Option<Hit>>, n: nat, from: nat, h: Hit)
    requires Proper(t, n) && from < |t| && h.start < |t| && t[h.start] == Some(h)
    requires h.start in Starts(FindAllIn(t, n, from))
    ensures h in FindAllIn(t, n, from)
  {
    var hits := FindAllIn(t, n, from);
    FindAllInLeftmost(t, n, from);
    var j :| 0 <= j < |hits| && Starts(hits)[j] == h.start;
    assert t[hits[j].start] == Some(hits[j]);
  }

  /** A match whose start is the start of a hit is that hit. */
  lemma FindAllHitAt(s: string, from: nat, pat: Pattern, h: Hit)
    requires from <= h.start <= |s| && MatchAt(s, h.start, pat) == Some(h) && h.start in Starts(FindAll(s, from, pat))
    ensures h in FindAll(s, from, pat)
  {
    AttemptsProper(s, pat);
    FindAllInHitAt(Attempts(s, pat), GroupCount(pat), from, h);
  }

  /** findall returns nothing exactly when no match of pat starts at or after from. */
  lemma FindAllEmpty(s: string, from: nat, pat: Pattern)
    requires from <= |s|
    ensures FindAll(s, from, pat) == [] <==> NoMatchIn(s, from, |s| + 1, pat)
  {
    AttemptsProper(s, pat);
    FindAllInLeftmost(Attempts(s, pat), GroupCount(pat), from);
  }

  /** findall returns the leftmost non-overlapping matches of pat, and nothing
      exactly when no match of pat starts at or after from. */
  lemma FindAllLeftmost(s: string, from: nat, pat: Pattern)
    requires from <= |s|
    ensures var hits := FindAll(s, from, pat);
      && (forall i :: 0 <= i < |hits| ==> MatchAt(s, hits[i].start, pat) == Some(hits[i]))
      && (hits == [] <==> NoMatchIn(s, from, |s| + 1, pat))
      && (hits != [] ==> NoMatchIn(s, from, hits[0].start, pat))
      && (forall i :: 0 <= i < |hits| - 1 ==> NoMatchIn(s, hits[i].end, hits[i + 1].start, pat))
      && (hits != [] ==> NoMatchIn(s, hits[|hits| - 1].end, |s| + 1, pat))
  {
    AttemptsProper(s, pat);
    FindAllInLeftmost(Attempts(s, pat), GroupCount(pat), from);
  }

  /** The start positions of hits, in order. */
  function Starts(hits: seq<Hit>): (r: seq<nat>)
    ensures |r| == |hits| && forall i :: 0 <= i < |hits| ==> r[i] == hits[i].start
  {
    if hits == [] then [] else [hits[0].start] + Starts(hits[1..])
  }

  /** No success starts strictly inside another one. */
  ghost predicate UnnestedIn(t: seq<Option<Hit>>) {
    forall q, q' :: 0 <= q < q' < |t| && t[q].Some? && q' < t[q].value.end ==> t[q'].None?
  }

  /** Where successes cannot nest, the only success inside a success is itself. */
  lemma OnlyStartInside(t: seq<Option<Hit>>, p: nat, q: nat)
    requires UnnestedIn(t) && p <= q < |t| && t[p].Some? && t[q].Some? && q < t[p].value.end
    ensures q == p
  {
  }

  /** When successes cannot nest, FindAllIn misses none of them: every success
      at or after from starts a hit. */
  lemma {:induction false} FindAllInComplete(t: seq<Option<Hit>>, n: nat, from: nat, q: nat)
    requires Proper(t, n) && from <= q < |t| && t[q].Some? && UnnestedIn(t)
    ensures q in Starts(FindAllIn(t, n, from))
    decreases |t| - from
  {
    SearchInLeftmost(t, n, from);
    var m := SearchIn(t, n, from);
    if m.Some? {
      var h := m.value;
      var rest := FindAllIn(t, n, h.end);
      assert FindAllIn(t, n, from) == [h] + rest;
      assert ([h] + rest)[1..] == rest;
      if h.end <= q {
        FindAllInComplete(t, n, h.end, q);
      } else if h.start <= q {
        OnlyStartInside(t, h.start, q);
      }
    }
  }

  /** No match of pat starts strictly inside another match of pat. */
  ghost predicate Unnested(s: string, pat: Pattern) {
    forall p, q :: 0 <= p < q <= |s| && MatchAt(s, p, pat).Some? && q < MatchAt(s, p, pat).value.end ==> MatchAt(s, q, pat).None?
  }

  /** When matches of pat cannot nest, findall returns every one of them. */
  lemma FindAllComplete(s: string, from: nat, pat: Pattern)
    requires from <= |s| && Unnested(s, pat)
    ensures forall q :: from <= q <= |s| && MatchAt(s, q, pat).Some? ==> q in Starts(FindAll(s, from, pat))
  {
    AttemptsProper(s, pat);
    var t, n := Attempts(s, pat), GroupCount(pat);
    assert UnnestedIn(t) by {
      forall q, q' | 0 <= q < q' < |t| && t[q].Some? && q' < t[q].value.end ensures t[q'].None? {
        assert t[q] == MatchAt(s, q, pat) && t[q'] == MatchAt(s, q', pat);
      }
    }
    forall q | from <= q <= |s| && MatchAt(s, q, pat).Some? ensures q in Starts(FindAll(s, from, pat)) {
      FindAllInComplete(t, n, from, q);
    }
  }

  /** The groups of hits, one projected value per match. */
  function Groups(hits: seq<Hit>, k: nat): (r: seq<string>)
    requires forall i :: 0 <= i < |hits| ==> k < |hits[i].groups|
    ensures |r| == |hits|
    ensures forall i :: 0 <= i < |hits| ==> r[i] == hits[i].groups[k]
  {
    if hits == [] then [] else [hits[0].groups[k]] + Groups(hits[1..], k)
  }
}
