/**
 `extract_general_snap_info`: the firmware version, model name, system id and
 sys0 entry of a `general.snap` file (each from its first match, if any), then
 one row per component line, in text order.
 */
module Snap {
  import opened Wrappers
  import opened Chars
  import opened Regex

  /** One row of the result: its `Catégorie` and its `Valeur`. */
  datatype SnapRecord = SnapRecord(category: string, value: string)

  /** The entries of the `patterns` dictionary, in insertion order. */
  datatype SingleField = FwVersion | ModelName | SystemId | Sys0

  const SingleFields: seq<SingleField> := [FwVersion, ModelName, SystemId, Sys0]

  /** The dictionary key, used as the row's category. */
  function FieldName(f: SingleField): string {
    match f
    case FwVersion => "Version Firmware"
    case ModelName => "Nom du Modèle"
    case SystemId => "ID Système"
    case Sys0 => "Entrées Système (sys0)"
  }

  /** c is the category of one of the fields. */
  predicate IsFieldCategory(c: string) {
    exists f :: FieldName(f) == c
  }

  /** The dictionary value: the pattern searched for. */
  function FieldPattern(f: SingleField): Pattern {
    match f
    case FwVersion => KeyValueLine("fwversion")
    case ModelName => KeyValueLine("modelname")
    case SystemId => KeyValueLine("systemid")
    case Sys0 => Sys0Line
  }

  /** What searching the pattern of f gives: group 1 of its first match,
      stripped, or nothing when the pattern does not occur. */
  function FieldValue(content: string, f: SingleField): Option<string> {
    match Search(content, 0, FieldPattern(f))
    case None => None
    case Some(h) => Some(Strip(h.groups[0]))
  }

  /** The search results of all four fields in one content. */
  function Values(content: string): SingleField -> Option<string> {
    f => FieldValue(content, f)
  }

  /** The row f contributes when its search gave v. */
  function FieldRow(f: SingleField, v: Option<string>): seq<SnapRecord> {
    match v
    case None => []
    case Some(x) => [SnapRecord(FieldName(f), x)]
  }

  /** The rows of the entries fs, in order, when the search of each field g
      gives vals(g). */
  function FieldRows(fs: seq<SingleField>, vals: SingleField -> Option<string>): seq<SnapRecord> {
    if fs == [] then [] else FieldRows(fs[..|fs| - 1], vals) + FieldRow(fs[|fs| - 1], vals(fs[|fs| - 1]))
  }

  lemma FieldRowsStep(fs: seq<SingleField>, vals: SingleField -> Option<string>, i: nat)
    requires i < |fs|
    ensures FieldRows(fs[..i + 1], vals) == FieldRows(fs[..i], vals) + FieldRow(fs[i], vals(fs[i]))
  {
    assert fs[..i + 1][..i] == fs[..i];
  }

  /** The row of f as the loop of the source appends it. */
  lemma FieldRowOfSearch(content: string, f: SingleField)
    ensures var m := Search(content, 0, FieldPattern(f));
      FieldRow(f, Values(content)(f)) == if m.Some? then [SnapRecord(FieldName(f), Strip(m.value.groups[0]))] else []
  {
    assert Values(content)(f) == FieldValue(content, f);
  }

  /** The row of one component match: `Composant (<type>)` and the value. */
  function ComponentRecord(h: Hit): SnapRecord
    requires |h.groups| == 2
  {
    SnapRecord("Composant (" + h.groups[0] + ")", h.groups[1])
  }

  function ComponentRecords(hits: seq<Hit>): (r: seq<SnapRecord>)
    requires forall i :: 0 <= i < |hits| ==> |hits[i].groups| == 2
    ensures |r| == |hits|
    ensures forall i :: 0 <= i < |hits| ==> r[i] == ComponentRecord(hits[i])
  {
    if hits == [] then [] else ComponentRecords(hits[..|hits| - 1]) + [ComponentRecord(hits[|hits| - 1])]
  }

  lemma ComponentRecordsStep(hits: seq<Hit>, j: nat)
    requires j < |hits| && forall i :: 0 <= i < |hits| ==> |hits[i].groups| == 2
    ensures ComponentRecords(hits[..j + 1]) == ComponentRecords(hits[..j]) + [ComponentRecord(hits[j])]
  {
    assert hits[..j + 1][..j] == hits[..j];
  }

  /** The rows `extract_general_snap_info` builds from the content of the file. */
  function SnapInfo(content: string): seq<SnapRecord> {
    FieldRows(SingleFields, Values(content)) + ComponentRecords(FindAll(content, 0, ComponentLine))
  }

  /** `extract_general_snap_info` on the content of the file: the rows of
      `all_info`, appended one at a time as the two loops of the source do. */
  method ExtractGeneralSnapInfo(fileContent: string) returns (allInfo: seq<SnapRecord>)
    ensures allInfo == SnapInfo(fileContent)
  {
    allInfo := [];
    for i := 0 to |SingleFields|
      invariant allInfo == FieldRows(SingleFields[..i], Values(fileContent))
    {
      var f := SingleFields[i];
      var m := Search(fileContent, 0, FieldPattern(f));
      if m.Some? {
        allInfo := allInfo + [SnapRecord(FieldName(f), Strip(m.value.groups[0]))];
      }
      FieldRowsStep(SingleFields, Values(fileContent), i);
      FieldRowOfSearch(fileContent, f);
    }
    assert SingleFields[..|SingleFields|] == SingleFields;
    var singles := allInfo;
    var components := FindAll(fileContent, 0, ComponentLine);
    for j := 0 to |components|
      invariant allInfo == singles + ComponentRecords(components[..j])
    {
      var componentType, componentValue := components[j].groups[0], components[j].groups[1];
      allInfo := allInfo + [SnapRecord("Composant (" + componentType + ")", componentValue)];
      ComponentRecordsStep(components, j);
    }
    assert components[..|components|] == components;
  }

  // ---------------------------------------------------------------------------
  // The shapes of the three kinds of match, stated without the scanner.

  /** `^<key>\s+([\S,]+)\s` matches at p with value s[b..c]: the key at the
      start of a line, whitespace, a maximal non-whitespace run, and one more
      whitespace character at c, which the match needs. */
  predicate IsKeyValueMatch(s: string, p: nat, key: string, b: nat, c: nat) {
    && p + |key| < b < c < |s|
    && AtLineStart(s, p) && s[p..p + |key|] == key
    && AllIn(s, p + |key|, b, Space) && AllIn(s, b, c, NonSpace)
    && IsWs(s[c])
  }

  lemma KeyValueAtSound(s: string, p: nat, key: string)
    requires p <= |s|
    ensures var m := MatchAt(s, p, KeyValueLine(key));
      m.Some? ==> exists b: nat, c: nat :: IsKeyValueMatch(s, p, key, b, c) && m.value == Hit(p, [s[b..c]], c + 1)
  {
    var m := MatchAt(s, p, KeyValueLine(key));
    if m.Some? {
      var b := Span(s, p + |key|, Space);
      var c := Span(s, b, NonSpace);
      assert IsKeyValueMatch(s, p, key, b, c);
    }
  }

  lemma KeyValueAtComplete(s: string, p: nat, key: string, b: nat, c: nat)
    requires IsKeyValueMatch(s, p, key, b, c)
    ensures MatchAt(s, p, KeyValueLine(key)) == Some(Hit(p, [s[b..c]], c + 1))
  {
    assert !In(s[b], Space) && !In(s[c], NonSpace);
    SpanUnique(s, p + |key|, b, Space);
    SpanUnique(s, b, c, NonSpace);
  }

  /** `^sys0!system:(.+)$` matches at p with group s[p + 12..e]: the rest of
      the line, at least one character. */
  predicate IsSys0Match(s: string, p: nat, e: nat) {
    && p + 12 < e <= |s|
    && AtLineStart(s, p) && s[p..p + 12] == "sys0!system:"
    && AllIn(s, p + 12, e, NotNewline)
    && (e == |s| || s[e] == '\n')
  }

  lemma Sys0AtSound(s: string, p: nat)
    requires p <= |s|
    ensures var m := MatchAt(s, p, Sys0Line);
      m.Some? ==> IsSys0Match(s, p, m.value.end) && m.value.groups == [s[p + 12..m.value.end]]
  {
  }

  lemma Sys0AtComplete(s: string, p: nat, e: nat)
    requires IsSys0Match(s, p, e)
    ensures MatchAt(s, p, Sys0Line) == Some(Hit(p, [s[p + 12..e]], e))
  {
    SpanUnique(s, p + 12, e, NotNewline);
  }

  /** The component pattern matches at p with type s[p..d] and value
      s[d + 1..v]: one of the kinds at the start of a line, digits, `!`, and a
      maximal run of value characters. */
  predicate IsComponentMatch(s: string, p: nat, w: string, d: nat, v: nat) {
    && w in ComponentKinds
    && p + |w| < d < v <= |s|
    && AtLineStart(s, p) && s[p..p + |w|] == w
    && AllIn(s, p + |w|, d, Digit) && s[d] == '!'
    && d + 1 < v && AllIn(s, d + 1, v, ValueChar)
    && (v == |s| || !In(s[v], ValueChar))
  }

  lemma AlternativeSound(s: string, p: nat, kinds: seq<string>)
    requires p <= |s|
    ensures var m := AlternativeAt(s, p, kinds);
      m.Some? ==> exists w :: w in kinds && KindAt(s, p, w) == m
  {
    if kinds != [] && KindAt(s, p, kinds[0]).None? {
      AlternativeSound(s, p, kinds[1..]);
    }
  }

  /** When the kinds start with different letters, the alternation takes the
      one kind whose literal is at p. */
  lemma AlternativeTakes(s: string, p: nat, kinds: seq<string>, w: string)
    requires p <= |s| && w in kinds && w != [] && LiteralAt(s, p, w) && KindAt(s, p, w).Some?
    requires forall k :: k in kinds && k != w ==> k != [] && k[0] != w[0]
    ensures AlternativeAt(s, p, kinds) == KindAt(s, p, w)
  {
    assert kinds[0] in kinds;
    if kinds[0] != w {
      assert forall k :: k in kinds[1..] ==> k in kinds;
      assert s[p..p + |w|][0] == s[p];
      AlternativeTakes(s, p, kinds[1..], w);
    }
  }

  lemma ComponentAtSound(s: string, p: nat)
    requires p <= |s|
    ensures var m := MatchAt(s, p, ComponentLine);
      m.Some? ==> exists w, d: nat :: IsComponentMatch(s, p, w, d, m.value.end) && m.value.groups == [s[p..d], s[d + 1..m.value.end]]
  {
    var m := MatchAt(s, p, ComponentLine);
    if m.Some? {
      AlternativeSound(s, p, ComponentKinds);
      var w :| w in ComponentKinds && KindAt(s, p, w) == m;
      var d := Span(s, p + |w|, Digit);
      assert IsComponentMatch(s, p, w, d, m.value.end);
    }
  }

  /** The one alternative w matches where the shape says it does. */
  lemma KindAtComplete(s: string, p: nat, w: string, d: nat, v: nat)
    requires IsComponentMatch(s, p, w, d, v)
    ensures KindAt(s, p, w) == Some(Hit(p, [s[p..d], s[d + 1..v]], v))
  {
    assert !In(s[d], Digit);
    SpanUnique(s, p + |w|, d, Digit);
    SpanUnique(s, d + 1, v, ValueChar);
  }

  /** The component kinds start with five different letters. */
  lemma KindsFirstLetters(w: string)
    requires w in ComponentKinds
    ensures w != [] && forall k :: k in ComponentKinds && k != w ==> k != [] && k[0] != w[0]
  {
  }

  lemma ComponentAtComplete(s: string, p: nat, w: string, d: nat, v: nat)
    requires IsComponentMatch(s, p, w, d, v)
    ensures MatchAt(s, p, ComponentLine) == Some(Hit(p, [s[p..d], s[d + 1..v]], v))
  {
    KindAtComplete(s, p, w, d, v);
    KindsFirstLetters(w);
    AlternativeTakes(s, p, ComponentKinds, w);
  }

  /** A component match lies within one line. */
  lemma ComponentNoNewline(s: string, p: nat, w: string, d: nat, v: nat)
    requires IsComponentMatch(s, p, w, d, v)
    ensures forall q :: p <= q < v ==> s[q] != '\n'
  {
    assert forall q :: 0 <= q < |w| ==> w[q] != '\n';
    forall q | p <= q < p + |w| ensures s[q] != '\n' {
      assert s[q] == s[p..p + |w|][q - p];
    }
    forall q | p + |w| <= q < d ensures s[q] != '\n' {
      assert In(s[q], Digit);
    }
    forall q | d + 1 <= q < v ensures s[q] != '\n' {
      assert In(s[q], ValueChar);
    }
  }

  /** Component matches never nest, so findall returns every one of them. */
  lemma ComponentsUnnested(s: string)
    ensures Unnested(s, ComponentLine)
  {
    forall p, q | 0 <= p < q <= |s| && MatchAt(s, p, ComponentLine).Some? && q < MatchAt(s, p, ComponentLine).value.end
      ensures MatchAt(s, q, ComponentLine).None?
    {
      ComponentAtSound(s, p);
      var m := MatchAt(s, p, ComponentLine);
      var w, d: nat :| IsComponentMatch(s, p, w, d, m.value.end);
      ComponentNoNewline(s, p, w, d, m.value.end);
      assert s[q - 1] != '\n';
    }
  }

  // ---------------------------------------------------------------------------
  // Properties of the rows.

  /** The number of rows of r whose category is c. */
  function CountCategory(r: seq<SnapRecord>, c: string): nat {
    if r == [] then 0 else (if r[0].category == c then 1 else 0) + CountCategory(r[1..], c)
  }

  lemma {:induction false} CountCategoryAppend(a: seq<SnapRecord>, b: seq<SnapRecord>, c: string)
    ensures CountCategory(a + b, c) == CountCategory(a, c) + CountCategory(b, c)
  {
    if a != [] {
      assert (a + b)[1..] == a[1..] + b;
      CountCategoryAppend(a[1..], b, c);
    } else {
      assert a + b == b;
    }
  }

  /** No component row has the category of a field. */
  lemma {:induction false} ComponentCategories(hits: seq<Hit>, f: SingleField)
    requires forall i :: 0 <= i < |hits| ==> |hits[i].groups| == 2
    ensures CountCategory(ComponentRecords(hits), FieldName(f)) == 0
  {
    if hits != [] {
      var init, last := hits[..|hits| - 1], hits[|hits| - 1];
      ComponentCategories(init, f);
      CountCategoryAppend(ComponentRecords(init), [ComponentRecord(last)], FieldName(f));
      assert ComponentRecord(last).category[0] == 'C';
      assert FieldName(f)[0] != 'C';
    }
  }

  /** The categories of distinct fields differ. */
  lemma FieldRowCount(g: SingleField, v: Option<string>, f: SingleField)
    ensures CountCategory(FieldRow(g, v), FieldName(f)) == (if g == f && v.Some? then 1 else 0)
  {
    assert FieldName(g) == FieldName(f) ==> g == f by {
      if g != f {
        assert FieldName(g)[0] != FieldName(f)[0];
      }
    }
  }

  /** Over distinct fields fs, the rows with f's category: one if f is among fs
      and its search found something, none otherwise. */
  lemma {:induction false} FieldRowsCount(fs: seq<SingleField>, vals: SingleField -> Option<string>, f: SingleField)
    requires forall i, j :: 0 <= i < j < |fs| ==> fs[i] != fs[j]
    ensures CountCategory(FieldRows(fs, vals), FieldName(f)) == (if f in fs && vals(f).Some? then 1 else 0)
  {
    if fs != [] {
      var init, last := fs[..|fs| - 1], fs[|fs| - 1];
      FieldRowsCount(init, vals, f);
      FieldRowCount(last, vals(last), f);
      CountCategoryAppend(FieldRows(init, vals), FieldRow(last, vals(last)), FieldName(f));
      assert f in fs <==> f in init || f == last;
      assert last in init ==> false;
    }
  }

  /** The row of a field f is among the rows of any fs that holds f. */
  lemma {:induction false} FieldRowsHold(fs: seq<SingleField>, vals: SingleField -> Option<string>, f: SingleField)
    requires f in fs
    ensures forall x :: x in FieldRow(f, vals(f)) ==> x in FieldRows(fs, vals)
  {
    var init, last := fs[..|fs| - 1], fs[|fs| - 1];
    if last != f {
      assert f in init;
      FieldRowsHold(init, vals, f);
    }
  }

  /** The rows of distinct fields fs followed by rows of other categories hold
      field f once if its search found a value, and not at all otherwise. */
  lemma FieldOnceAmong(fs: seq<SingleField>, vals: SingleField -> Option<string>, rows: seq<SnapRecord>, f: SingleField)
    requires forall i, j :: 0 <= i < j < |fs| ==> fs[i] != fs[j]
    requires f in fs && CountCategory(rows, FieldName(f)) == 0
    ensures var r := FieldRows(fs, vals) + rows;
      && CountCategory(r, FieldName(f)) == (if vals(f).Some? then 1 else 0)
      && (vals(f).Some? ==> SnapRecord(FieldName(f), vals(f).value) in r)
  {
    FieldRowsCount(fs, vals, f);
    FieldRowsHold(fs, vals, f);
    CountCategoryAppend(FieldRows(fs, vals), rows, FieldName(f));
  }

  /** Each field gives at most one row: exactly one when its pattern occurs in
      the content, none otherwise; the row's value is group 1 of the first
      match (Regex.SearchLeftmost), stripped. */
  lemma FieldOnce(content: string, f: SingleField)
    ensures var m, r := Search(content, 0, FieldPattern(f)), SnapInfo(content);
      && CountCategory(r, FieldName(f)) == (if m.Some? then 1 else 0)
      && (m.Some? ==> SnapRecord(FieldName(f), Strip(m.value.groups[0])) in r)
  {
    var comps := FindAll(content, 0, ComponentLine);
    AllFields(f);
    SingleFieldsDistinct();
    assert Values(content)(f) == FieldValue(content, f);
    ComponentCategories(comps, f);
    FieldOnceAmong(SingleFields, Values(content), ComponentRecords(comps), f);
  }

  /** The first line that starts with the key and has the key-value shape is
      the one search finds; no such line means no match. */
  lemma KeyValueFound(content: string, key: string)
    ensures var m := Search(content, 0, KeyValueLine(key));
      && (m.None? <==> forall p, b, c :: !IsKeyValueMatch(content, p, key, b, c))
      && (m.Some? ==> forall p: nat, b: nat, c: nat :: p < m.value.start ==> !IsKeyValueMatch(content, p, key, b, c))
  {
    var m := Search(content, 0, KeyValueLine(key));
    SearchLeftmost(content, 0, KeyValueLine(key));
    forall p: nat, b: nat, c: nat | IsKeyValueMatch(content, p, key, b, c) && (m.None? || p < m.value.start) ensures false {
      KeyValueAtComplete(content, p, key, b, c);
    }
    if m.Some? {
      KeyValueAtSound(content, m.value.start, key);
    }
  }

  /** The value of a key-value match is its whitespace-free token, which strip
      leaves alone. */
  lemma KeyValueValue(content: string, key: string, p: nat)
    requires p <= |content| && MatchAt(content, p, KeyValueLine(key)).Some?
    ensures var h := MatchAt(content, p, KeyValueLine(key)).value;
      exists b: nat, c: nat ::
        && IsKeyValueMatch(content, p, key, b, c)
        && Strip(h.groups[0]) == content[b..c]
        && content[b..c] != [] && NoWs(content[b..c])
  {
    KeyValueAtSound(content, p, key);
    var h := MatchAt(content, p, KeyValueLine(key)).value;
    var b: nat, c: nat :| IsKeyValueMatch(content, p, key, b, c) && h == Hit(p, [content[b..c]], c + 1);
    assert NoWs(content[b..c]) by {
      forall q | 0 <= q < c - b ensures !IsWs(content[b..c][q]) {
        assert In(content[b + q], NonSpace);
      }
    }
    StripNoWs(content[b..c]);
  }

  /** The value of the firmware version, model name or system id: the
      whitespace-free token of the first line that starts with the key, which
      must be followed by a whitespace character; and there is a row exactly
      when some line has that shape. */
  lemma KeyValueFieldSpec(content: string, f: SingleField)
    requires f != Sys0
    ensures var key, m := FieldPattern(f).key, Search(content, 0, FieldPattern(f));
      && (m.None? <==> forall p, b, c :: !IsKeyValueMatch(content, p, key, b, c))
      && (m.Some? ==>
            && (forall p: nat, b: nat, c: nat :: p < m.value.start ==> !IsKeyValueMatch(content, p, key, b, c))
            && exists b: nat, c: nat ::
                 && IsKeyValueMatch(content, m.value.start, key, b, c)
                 && Strip(m.value.groups[0]) == content[b..c]
                 && content[b..c] != [] && NoWs(content[b..c]))
  {
    var key := FieldPattern(f).key;
    assert FieldPattern(f) == KeyValueLine(key);
    var m := Search(content, 0, KeyValueLine(key));
    KeyValueFound(content, key);
    if m.Some? {
      SearchLeftmost(content, 0, KeyValueLine(key));
      KeyValueValue(content, key, m.value.start);
    }
  }

  /** The first line that starts with `sys0!system:` and holds at least one
      more character is the one search finds; no such line means no match. */
  lemma Sys0Found(content: string)
    ensures var m := Search(content, 0, Sys0Line);
      && (m.None? <==> forall p, e :: !IsSys0Match(content, p, e))
      && (m.Some? ==> forall p: nat, e: nat :: p < m.value.start ==> !IsSys0Match(content, p, e))
  {
    var m := Search(content, 0, Sys0Line);
    SearchLeftmost(content, 0, Sys0Line);
    forall p: nat, e: nat | IsSys0Match(content, p, e) && (m.None? || p < m.value.start) ensures false {
      Sys0AtComplete(content, p, e);
    }
    if m.Some? {
      Sys0AtSound(content, m.value.start);
    }
  }

  /** The value of a sys0 match is the rest of its line, stripped, and holds no
      line feed. */
  lemma Sys0Value(content: string, p: nat)
    requires p <= |content| && MatchAt(content, p, Sys0Line).Some?
    ensures var h := MatchAt(content, p, Sys0Line).value;
      && IsSys0Match(content, p, h.end)
      && Strip(h.groups[0]) == Strip(content[p + 12..h.end])
      && '\n' !in Strip(h.groups[0])
  {
    var h := MatchAt(content, p, Sys0Line).value;
    Sys0AtSound(content, p);
    var t := content[p + 12..h.end];
    assert forall k :: 0 <= k < |t| ==> t[k] != '\n' by {
      forall k | 0 <= k < |t| ensures t[k] != '\n' {
        assert In(content[p + 12 + k], NotNewline);
      }
    }
    StripKeeps(t, '\n');
  }

  /** The value of the sys0 entry: the rest of the first line that starts with
      `sys0!system:`, stripped, which never holds a line feed; and there is a
      row exactly when some line has that shape. */
  lemma Sys0FieldSpec(content: string)
    ensures var m := Search(content, 0, Sys0Line);
      && (m.None? <==> forall p, e :: !IsSys0Match(content, p, e))
      && (m.Some? ==>
            && (forall p: nat, e: nat :: p < m.value.start ==> !IsSys0Match(content, p, e))
            && IsSys0Match(content, m.value.start, m.value.end)
            && Strip(m.value.groups[0]) == Strip(content[m.value.start + 12..m.value.end])
            && '\n' !in Strip(m.value.groups[0]))
  {
    var m := Search(content, 0, Sys0Line);
    Sys0Found(content);
    if m.Some? {
      SearchLeftmost(content, 0, Sys0Line);
      Sys0Value(content, m.value.start);
    }
  }

  /** The rows of the fields fs: at most one per field, each with the
      category of a field. */
  lemma {:induction false} FieldRowsShape(fs: seq<SingleField>, vals: SingleField -> Option<string>)
    ensures var r := FieldRows(fs, vals);
      |r| <= |fs| && forall i :: 0 <= i < |r| ==> IsFieldCategory(r[i].category)
  {
    if fs != [] {
      var init, last := fs[..|fs| - 1], fs[|fs| - 1];
      FieldRowsShape(init, vals);
      var a, b := FieldRows(init, vals), FieldRow(last, vals(last));
      assert b == [] || (|b| == 1 && b[0].category == FieldName(last));
      forall i | 0 <= i < |a + b| ensures IsFieldCategory((a + b)[i].category) {
        if i < |a| {
          assert (a + b)[i] == a[i];
        } else {
          assert (a + b)[i].category == FieldName(last);
        }
      }
    }
  }

  /** The rows of fs are empty exactly when no field of fs found a value. */
  lemma {:induction false} FieldRowsEmpty(fs: seq<SingleField>, vals: SingleField -> Option<string>)
    ensures FieldRows(fs, vals) == [] <==> forall f :: f in fs ==> vals(f).None?
  {
    if fs != [] {
      var init, last := fs[..|fs| - 1], fs[|fs| - 1];
      FieldRowsEmpty(init, vals);
      assert forall f :: f in fs <==> f in init || f == last;
    }
  }

  lemma RowsLayout(fields: seq<SnapRecord>, rows: seq<SnapRecord>)
    requires |fields| <= |SingleFields| && forall i :: 0 <= i < |fields| ==> IsFieldCategory(fields[i].category)
    ensures var r := fields + rows;
      var k := |r| - |rows|;
      && 0 <= k <= |SingleFields|
      && (forall i :: 0 <= i < k ==> IsFieldCategory(r[i].category))
      && r[k..] == rows
  {
    var r := fields + rows;
    forall i | 0 <= i < |fields| ensures r[i] == fields[i] { }
  }

  /** The model's layout: first at most one row per field, each with a field's
      category, then exactly the component rows, one per match findall returns. */
  lemma SnapLayout(content: string)
    ensures var r, rows := SnapInfo(content), ComponentRecords(FindAll(content, 0, ComponentLine));
      var k := |r| - |rows|;
      && 0 <= k <= |SingleFields|
      && (forall i :: 0 <= i < k ==> IsFieldCategory(r[i].category))
      && r[k..] == rows
  {
    FieldRowsShape(SingleFields, Values(content));
    RowsLayout(FieldRows(SingleFields, Values(content)), ComponentRecords(FindAll(content, 0, ComponentLine)));
  }

  /** h is a component match of s starting at h.start: group 1 is the kind
      with its digits, group 2 the value run. */
  ghost predicate IsComponentHit(s: string, h: Hit) {
    exists w, d: nat :: IsComponentMatch(s, h.start, w, d, h.end) && h.groups == [s[h.start..d], s[d + 1..h.end]]
  }

  /** Every component match findall returns is a line-start component match
      of the text. */
  lemma ComponentHitsSound(content: string)
    ensures var comps := FindAll(content, 0, ComponentLine);
      forall j :: 0 <= j < |comps| ==> IsComponentHit(content, comps[j])
  {
    var comps := FindAll(content, 0, ComponentLine);
    FindAllHits(content, 0, ComponentLine);
    forall j | 0 <= j < |comps| ensures IsComponentHit(content, comps[j]) {
      var h := comps[j];
      assert MatchAt(content, h.start, ComponentLine) == Some(h);
      ComponentAtSound(content, h.start);
    }
  }

  /** Every position where a component match starts is the start of a hit. */
  lemma ComponentStarts(content: string)
    ensures forall q :: 0 <= q <= |content| && MatchAt(content, q, ComponentLine).Some? ==> q in Starts(FindAll(content, 0, ComponentLine))
  {
    ComponentsUnnested(content);
    FindAllComplete(content, 0, ComponentLine);
  }

  /** Every component match of the text is among those findall returns. */
  lemma ComponentHitsComplete(content: string, p: nat, w: string, d: nat, v: nat)
    requires IsComponentMatch(content, p, w, d, v)
    ensures Hit(p, [content[p..d], content[d + 1..v]], v) in FindAll(content, 0, ComponentLine)
  {
    ComponentAtComplete(content, p, w, d, v);
    ComponentStarts(content);
    FindAllHitAt(content, 0, ComponentLine, Hit(p, [content[p..d], content[d + 1..v]], v));
  }

  /** row is the row the source builds for the component match h of s:
      category `Composant (<kind and digits>)`, value the value run. */
  ghost predicate IsComponentRow(s: string, h: Hit, row: SnapRecord) {
    exists w, d: nat :: IsComponentMatch(s, h.start, w, d, h.end)
      && row == SnapRecord("Composant (" + s[h.start..d] + ")", s[d + 1..h.end])
  }

  /** The component rows: row j comes from the j-th component match findall
      returns, a line-start match, with category `Composant (<type>)` and the
      value run; the matches are in text order without overlap. */
  lemma ComponentsSpec(content: string)
    ensures var comps := FindAll(content, 0, ComponentLine);
      var rows := ComponentRecords(comps);
      && |rows| == |comps|
      && (forall j :: 0 <= j < |comps| ==> IsComponentRow(content, comps[j], rows[j]))
      && (forall j :: 0 <= j < |comps| - 1 ==> comps[j].end <= comps[j + 1].start)
  {
    var comps := FindAll(content, 0, ComponentLine);
    ComponentHitsSound(content);
    forall j | 0 <= j < |comps| ensures IsComponentRow(content, comps[j], ComponentRecords(comps)[j]) {
      ComponentRowOf(content, comps[j]);
    }
  }

  lemma ComponentRowOf(s: string, h: Hit)
    requires IsComponentHit(s, h)
    ensures IsComponentRow(s, h, ComponentRecord(h))
  {
    var w, d: nat :| IsComponentMatch(s, h.start, w, d, h.end) && h.groups == [s[h.start..d], s[d + 1..h.end]];
    assert ComponentRecord(h) == SnapRecord("Composant (" + s[h.start..d] + ")", s[d + 1..h.end]);
  }

  /** Every component match of the text has its row. */
  lemma ComponentRowComplete(content: string, p: nat, w: string, d: nat, v: nat)
    requires IsComponentMatch(content, p, w, d, v)
    ensures SnapRecord("Composant (" + content[p..d] + ")", content[d + 1..v]) in ComponentRecords(FindAll(content, 0, ComponentLine))
  {
    var comps := FindAll(content, 0, ComponentLine);
    ComponentHitsComplete(content, p, w, d, v);
    var j :| 0 <= j < |comps| && comps[j] == Hit(p, [content[p..d], content[d + 1..v]], v);
    assert ComponentRecords(comps)[j] == SnapRecord("Composant (" + content[p..d] + ")", content[d + 1..v]);
  }

  /** Every field is one of the four entries of the dictionary. */
  lemma AllFields(f: SingleField)
    ensures f in SingleFields
  {
  }

  /** The four entries of the dictionary are different fields. */
  lemma SingleFieldsDistinct()
    ensures forall i, j :: 0 <= i < j < |SingleFields| ==> SingleFields[i] != SingleFields[j]
  {
  }

  /** A field gives no value exactly when its pattern matches nowhere. */
  lemma FieldValueNone(content: string, f: SingleField)
    ensures Values(content)(f).None? <==> NoMatchIn(content, 0, |content| + 1, FieldPattern(f))
  {
    SearchLeftmost(content, 0, FieldPattern(f));
  }

  /** No rows exactly when none of the four field patterns and no component
      line occurs in the content. */
  lemma SnapEmpty(content: string)
    ensures SnapInfo(content) == [] <==>
      && (forall f :: NoMatchIn(content, 0, |content| + 1, FieldPattern(f)))
      && NoMatchIn(content, 0, |content| + 1, ComponentLine)
  {
    var fields, rows := FieldRows(SingleFields, Values(content)), ComponentRecords(FindAll(content, 0, ComponentLine));
    assert fields == [] <==> forall f :: NoMatchIn(content, 0, |content| + 1, FieldPattern(f)) by {
      FieldRowsEmpty(SingleFields, Values(content));
      forall f ensures f in SingleFields && (Values(content)(f).None? <==> NoMatchIn(content, 0, |content| + 1, FieldPattern(f))) {
        AllFields(f);
        FieldValueNone(content, f);
      }
    }
    assert rows == [] <==> NoMatchIn(content, 0, |content| + 1, ComponentLine) by {
      FindAllEmpty(content, 0, ComponentLine);
    }
    assert SnapInfo(content) == fields + rows;
  }
}
