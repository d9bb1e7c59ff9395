/**
 `extract_labels`: every `^LABEL:\s+(\S+)` match of the content (MULTILINE),
 counted with a Counter and sorted by count, descending.
 */
module Labels {
  import opened Wrappers
  import opened Chars
  import opened Regex
  import opened Tally

  /** s has a label match at p whose label is s[b..e], stated without the
      scanner: `LABEL:` at the start of a line, at least one whitespace character
      (line feeds included), then a maximal run of non-whitespace. */
  predicate IsLabelMatch(s: string, p: nat, b: nat, e: nat) {
    && p + 6 < b < e <= |s|
    && AtLineStart(s, p) && s[p..p + 6] == "LABEL:"
    && AllIn(s, p + 6, b, Space) && AllIn(s, b, e, NonSpace)
    && (e == |s| || IsWs(s[e]))
  }

  /** `label_pattern.findall(content)`: the captured labels in text order. */
  function LabelMatches(content: string): seq<string> {
    Groups(FindAll(content, 0, LabelLine), 0)
  }

  /** `extract_labels` on the content of the file: (label, count) rows. */
  function ExtractLabels(content: string): seq<Tallied<string>> {
    var labels := LabelMatches(content);
    if labels == [] then [] else SortByCount(Counter(labels))
  }

  /** The scanner's match is the one the predicate describes. */
  lemma LabelAtSound(s: string, p: nat)
    requires p <= |s|
    ensures var m := MatchAt(s, p, LabelLine);
      m.Some? ==> exists b: nat :: IsLabelMatch(s, p, b, m.value.end) && m.value.groups == [s[b..m.value.end]]
  {
    var m := MatchAt(s, p, LabelLine);
    if m.Some? {
      var b := Span(s, p + 6, Space);
      assert IsLabelMatch(s, p, b, m.value.end);
    }
  }

  /** Every label match the predicate describes is found by the scanner. */
  lemma LabelAtComplete(s: string, p: nat, b: nat, e: nat)
    requires IsLabelMatch(s, p, b, e)
    ensures MatchAt(s, p, LabelLine) == Some(Hit(p, [s[b..e]], e))
  {
    assert !In(s[b], Space);
    SpanUnique(s, p + 6, b, Space);
    SpanUnique(s, b, e, NonSpace);
  }

  lemma LabelHitToken(s: string, h: Hit)
    requires h.start <= |s| && MatchAt(s, h.start, LabelLine) == Some(h)
    ensures h.groups[0] != [] && NoWs(h.groups[0])
  {
    var b := Span(s, h.start + 6, Space);
    assert h.groups[0] == s[b..h.end];
  }

  /** Every captured label is a non-empty run of non-whitespace characters. */
  lemma LabelTokens(content: string)
    ensures forall l :: l in LabelMatches(content) ==> l != [] && NoWs(l)
  {
    var hits := FindAll(content, 0, LabelLine);
    FindAllHits(content, 0, LabelLine);
    forall i | 0 <= i < |hits| ensures hits[i].groups[0] != [] && NoWs(hits[i].groups[0]) {
      LabelHitToken(content, hits[i]);
    }
  }

  /** The label table: distinct labels, each counted exactly as often as it
      was matched (so at least once), exactly the matched labels, counts adding
      up to the number of matches, counts non-increasing, and equal counts in
      the order in which the labels were first matched. */
  lemma ExtractLabelsSpec(content: string)
    ensures var r, labels := ExtractLabels(content), LabelMatches(content);
      && |labels| == |FindAll(content, 0, LabelLine)|
      && DistinctKeys(r)
      && (forall i :: 0 <= i < |r| ==> 1 <= r[i].count == multiset(labels)[r[i].key])
      && (forall l :: l in Keys(r) <==> l in labels)
      && Total(r) == |labels|
      && NonIncreasing(r)
      && TiesByFirst(labels, r)
  {
    SortedCounterSpec(LabelMatches(content));
  }

  /** The table is empty exactly when no line starts with `LABEL:` followed by
      whitespace and a label. */
  lemma NoLabels(content: string)
    ensures ExtractLabels(content) == [] <==> forall p, b, e :: !IsLabelMatch(content, p, b, e)
  {
    var hits := FindAll(content, 0, LabelLine);
    FindAllHits(content, 0, LabelLine);
    FindAllEmpty(content, 0, LabelLine);
    ExtractLabelsSpec(content);
    if hits == [] {
      forall p, b, e | IsLabelMatch(content, p, b, e) ensures false {
        LabelAtComplete(content, p, b, e);
      }
    } else {
      LabelAtSound(content, hits[0].start);
      assert Total(ExtractLabels(content)) > 0;
    }
  }

  /** `\s+` may cross a line feed: the label is taken from the next line. */
  lemma LabelOnNextLine()
    ensures LabelMatches("LABEL:\nfoo") == ["foo"]
  {
    var s := "LABEL:\nfoo";
    assert IsLabelMatch(s, 0, 7, 10);
    LabelAtComplete(s, 0, 7, 10);
    var hits := FindAll(s, 0, LabelLine);
    FindAllLeftmost(s, 0, LabelLine);
    assert s[7..10] == "foo";
    assert hits != [] && hits[0].start == 0;
    assert hits[0] == Hit(0, ["foo"], 10);
    assert |hits| == 1;
  }
}
