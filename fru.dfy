/**
 `extract_possible_fru`: every `FRU:\s+(\S+)\s+(\S+)` match of the content,
 anywhere on a line, counted per (FRU, location) pair like `value_counts()`.
 */
module Fru {
  import opened Wrappers
  import opened Chars
  import opened Regex
  import opened Tally

  /** One row of the data frame built from the matches. */
  datatype FruLocation = FruLocation(fru: string, location: string)

  /** s has a FRU match at p with FRU s[b..c] and location s[d..e], stated
      without the scanner: `FRU:`, whitespace, a maximal non-whitespace run,
      whitespace, and another maximal non-whitespace run. */
  predicate IsFruMatch(s: string, p: nat, b: nat, c: nat, d: nat, e: nat) {
    && p + 4 < b < c < d < e <= |s|
    && s[p..p + 4] == "FRU:"
    && AllIn(s, p + 4, b, Space) && AllIn(s, b, c, NonSpace)
    && AllIn(s, c, d, Space) && AllIn(s, d, e, NonSpace)
    && (e == |s| || IsWs(s[e]))
  }

  /** The (FRU, location) pair of each match. */
  function Pairs(hits: seq<Hit>): (r: seq<FruLocation>)
    requires forall i :: 0 <= i < |hits| ==> |hits[i].groups| == 2
    ensures |r| == |hits|
    ensures forall i :: 0 <= i < |hits| ==> r[i] == FruLocation(hits[i].groups[0], hits[i].groups[1])
  {
    if hits == [] then [] else [FruLocation(hits[0].groups[0], hits[0].groups[1])] + Pairs(hits[1..])
  }

  /** `fru_location_pattern.findall(content)`, in text order. */
  function FruMatches(content: string): seq<FruLocation> {
    Pairs(FindAll(content, 0, FruRef))
  }

  /** `extract_possible_fru` on the content of the file: (FRU, location, count)
      rows, by count descending. */
  function ExtractPossibleFru(content: string): seq<Tallied<FruLocation>> {
    var data := FruMatches(content);
    if data == [] then [] else SortByCount(Counter(data))
  }

  /** The scanner's match is the one the predicate describes. */
  lemma FruAtSound(s: string, p: nat)
    requires p <= |s|
    ensures var m := MatchAt(s, p, FruRef);
      m.Some? ==> exists b: nat, c: nat, d: nat ::
        IsFruMatch(s, p, b, c, d, m.value.end) && m.value.groups == [s[b..c], s[d..m.value.end]]
  {
    var m := MatchAt(s, p, FruRef);
    if m.Some? {
      var b := Span(s, p + 4, Space);
      var c := Span(s, b, NonSpace);
      var d := Span(s, c, Space);
      assert IsFruMatch(s, p, b, c, d, m.value.end);
    }
  }

  /** Every FRU match the predicate describes is found by the scanner. */
  lemma FruAtComplete(s: string, p: nat, b: nat, c: nat, d: nat, e: nat)
    requires IsFruMatch(s, p, b, c, d, e)
    ensures MatchAt(s, p, FruRef) == Some(Hit(p, [s[b..c], s[d..e]], e))
  {
    assert !In(s[b], Space) && !In(s[c], NonSpace) && !In(s[d], Space);
    SpanUnique(s, p + 4, b, Space);
    SpanUnique(s, b, c, NonSpace);
    SpanUnique(s, c, d, Space);
    SpanUnique(s, d, e, NonSpace);
  }

  /** `FRU:` followed by fewer than two tokens before the end of the text does
      not match there. */
  lemma FruNeedsTwoTokens(pre: string, w1: string, tok: string, w2: string)
    requires OnlyWs(w1) && NoWs(tok) && OnlyWs(w2)
    ensures MatchAt(pre + "FRU:" + w1 + tok + w2, |pre|, FruRef).None?
  {
    var s := pre + "FRU:" + w1 + tok + w2;
    var p := |pre|;
    var lo := p + 4 + |w1|;
    var hi := lo + |tok|;
    assert forall q :: p + 4 <= q < lo ==> s[q] == w1[q - p - 4];
    assert forall q :: lo <= q < hi ==> s[q] == tok[q - lo];
    assert forall q :: hi <= q < |s| ==> s[q] == w2[q - hi];
    FruAtSound(s, p);
  }

  lemma FruHitTokens(s: string, h: Hit)
    requires h.start <= |s| && MatchAt(s, h.start, FruRef) == Some(h)
    ensures h.groups[0] != [] && NoWs(h.groups[0]) && h.groups[1] != [] && NoWs(h.groups[1])
  {
    var b := Span(s, h.start + 4, Space);
    var c := Span(s, b, NonSpace);
    var d := Span(s, c, Space);
    assert h.groups == [s[b..c], s[d..h.end]];
  }

  /** Every FRU and every location is a non-empty run of non-whitespace. */
  lemma FruTokens(content: string)
    ensures forall x :: x in FruMatches(content) ==> x.fru != [] && NoWs(x.fru) && x.location != [] && NoWs(x.location)
  {
    var hits := FindAll(content, 0, FruRef);
    FindAllHits(content, 0, FruRef);
    forall i | 0 <= i < |hits|
      ensures hits[i].groups[0] != [] && NoWs(hits[i].groups[0]) && hits[i].groups[1] != [] && NoWs(hits[i].groups[1])
    {
      FruHitTokens(content, hits[i]);
    }
  }

  /** The FRU table: distinct (FRU, location) pairs, each counted exactly as
      often as it was matched (so at least once), exactly the matched pairs,
      counts adding up to the number of matches, by count descending. */
  lemma ExtractPossibleFruSpec(content: string)
    ensures var r, data := ExtractPossibleFru(content), FruMatches(content);
      && |data| == |FindAll(content, 0, FruRef)|
      && DistinctKeys(r)
      && (forall i :: 0 <= i < |r| ==> 1 <= r[i].count == multiset(data)[r[i].key])
      && (forall x :: x in Keys(r) <==> x in data)
      && Total(r) == |data|
      && NonIncreasing(r)
  {
    SortedCounterSpec(FruMatches(content));
  }

  /** The table is empty exactly when the text holds no `FRU:` followed by two
      whitespace-separated tokens. */
  lemma NoFru(content: string)
    ensures ExtractPossibleFru(content) == [] <==> forall p, b, c, d, e :: !IsFruMatch(content, p, b, c, d, e)
  {
    var hits := FindAll(content, 0, FruRef);
    FindAllHits(content, 0, FruRef);
    FindAllEmpty(content, 0, FruRef);
    ExtractPossibleFruSpec(content);
    if hits == [] {
      forall p, b, c, d, e | IsFruMatch(content, p, b, c, d, e) ensures false {
        FruAtComplete(content, p, b, c, d, e);
      }
    } else {
      FruAtSound(content, hits[0].start);
      assert Total(ExtractPossibleFru(content)) > 0;
    }
  }
}
