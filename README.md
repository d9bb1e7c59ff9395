# Escala log analyzer: extraction core

This project models the extraction core of the Escala log analyzer, a small
web application (`app.py`). It takes the text of an uploaded system log and
builds three tables from it:

- the error labels (the token after each line-start `LABEL:`) with their counts;
- the field-replaceable units (`FRU:` references) with their location and count;
- the general information of a `general.snap` hardware dump: firmware version,
  model name, system id, the `sys0` entry, and one row per component line.

It also models the file-name filter that decides which uploads are accepted.

Each extractor is modelled on the decoded content of the file, a `string`.
The five regular expressions are written out as one match attempt at a
position (`Regex.MatchAt`). Python's `re.search` and `re.findall` are built on
top of that attempt. `collections.Counter` and the stable
`sorted(..., reverse=True)` become `Tally.Counter` and `Tally.SortByCount`.
The snap extractor appends to `all_info` in two loops. It is modelled as the
method `Snap.ExtractGeneralSnapInfo`, which has the same two loops and is
proved equal to the function `Snap.SnapInfo`. The lemmas reason about that
function.

Files:

- `chars.dfy`: `Option`, Python's whitespace set (`str.isspace`), the
  character classes, greedy runs, `strip` and `lower`.
- `regex.dfy`: the patterns, `search` and `findall`, and what they find.
- `tally.dfy`: `Counter` and the sort by count.
- `labels.dfy`: `extract_labels`.
- `fru.dfy`: `extract_possible_fru`.
- `snap.dfy`: `extract_general_snap_info`.
- `upload.dfy`: `allowed_file`.

Two facts about `app.py` fix the scope:

- `ALLOWED_EXTENSIONS` is `{'txt', 'out', 'snap'}` (app.py:13), so these are
  the only extensions `Upload.AllowedFile` accepts.
- `app.py` contains no log cleaner, so the model has none.

## Model

| member | source | states |
|---|---|---|
| Upload.AllowedFile | app.py:36-39 | No contract of its own; specified by Upload.AllowedFileIff and the example lemmas below |
| Labels.LabelMatches | app.py:47-48 | No contract of its own; `label_pattern.findall(content)`, specified by Labels.LabelTokens and Regex.FindAllLeftmost |
| Labels.ExtractLabels | app.py:41-55 | No contract of its own; specified by Labels.ExtractLabelsSpec and Labels.NoLabels |
| Fru.FruMatches | app.py:67-68 | No contract of its own; `fru_location_pattern.findall(content)`, specified by Fru.FruTokens and Regex.FindAllLeftmost |
| Fru.Pairs | app.py:73 | One (FRU, location) row per match, in match order, holding the match's two groups |
| Fru.ExtractPossibleFru | app.py:61-75 | No contract of its own; specified by Fru.ExtractPossibleFruSpec and Fru.NoFru |
| Snap.SnapInfo | app.py:87-102 | No contract of its own; the method Snap.ExtractGeneralSnapInfo is proved equal to it, and Snap.FieldOnce, Snap.SnapLayout, Snap.ComponentsSpec, Snap.ComponentRowComplete and Snap.SnapEmpty specify it |
| Snap.ComponentRecords | app.py:101-102 | One row per component match, in match order, each with category `Composant (` + group 1 + `)` and group 2 as value |
| Tally.Counter | app.py:53 | No contract of its own; specified by Tally.CounterSpec |
| Tally.SortByCount | app.py:54 | No contract of its own; specified by Tally.SortSpec and Tally.SortStable |
| Regex.MatchAt | app.py:47 | A match found at p starts at p, ends after p within the text, and has as many groups as the pattern; the shapes are given by the `*AtSound` / `*AtComplete` lemmas |
| Regex.LabelAt | app.py:47 | A match starts at p, is non-empty, and has one group; specified by Labels.LabelAtSound and Labels.LabelAtComplete |
| Regex.FruAt | app.py:67 | A match starts at p, is non-empty, and has two groups; specified by Fru.FruAtSound and Fru.FruAtComplete |
| Regex.KeyValueAt | app.py:89-91 | A match starts at p, is non-empty, and has one group; specified by Snap.KeyValueAtSound and Snap.KeyValueAtComplete |
| Regex.Sys0At | app.py:92 | A match starts at p, is non-empty, and has one group; specified by Snap.Sys0AtSound and Snap.Sys0AtComplete |
| Regex.AlternativeAt | app.py:99 | A match starts at p, is non-empty, and has two groups; specified by Snap.ComponentAtSound and Snap.ComponentAtComplete |
| Regex.KindAt | app.py:99 | A match of one alternative starts at p, is non-empty, and has two groups; specified by Snap.ComponentAtSound and Snap.ComponentAtComplete |
| Regex.Search | app.py:95 | A match found lies at or after the start position within the text and has the pattern's groups; specified by Regex.SearchLeftmost |
| Regex.FindAll | app.py:100 | The hits lie at or after the start position, have the pattern's groups, and do not overlap, in text order; specified by Regex.FindAllLeftmost, Regex.FindAllEmpty and Regex.FindAllComplete |
| Regex.NoMatchInMeans | app.py:48 | "No match in [lo, hi)", used in the ensures of Regex.FindAllEmpty, Regex.SearchLeftmost and Snap.SnapEmpty, means that the match attempt at every position of that range fails |
| Chars.IsWs | app.py:47 | No contract of its own; Python's `str.isspace()` set, which `\s` matches and `strip()` removes |
| Chars.Span | app.py:47 | A greedy run of a class: every character up to its end is in the class and the character at its end is not |
| Chars.Strip | app.py:97 | The result neither starts nor ends with whitespace; Chars.StripSpec says it is the argument's slice between whitespace-only ends |
| Chars.Lower | app.py:39 | Same length, each character lower-cased (ASCII) |
| Upload.AllowedFileIff | app.py:36-39 | A name is accepted exactly when it is some base name, a dot, and an extension with no dot in it that lower-cases to `txt`, `out` or `snap`; both directions |
| Upload.LastDot | app.py:39 | The cut `rsplit('.', 1)` makes is at a dot with no dot after it |
| Upload.ExtensionAfter | app.py:38-39 | Whether a name is accepted depends only on the text after its last dot |
| Upload.UpperCaseAccepted | app.py:39 | `a.TXT` is accepted: the extension is compared without regard to case |
| Upload.InnerExtensionIgnored | app.py:39 | `a.snap.exe` is refused: an allowed extension before the last one does not count |
| Upload.LastExtensionCounts | app.py:39 | `errlog.exe.out` is accepted: only the last extension is checked |
| Upload.NoDotRefused | app.py:38 | `txt` is refused: a name without a dot has no extension |
| Labels.ExtractLabelsSpec | app.py:47-54 | The label table has distinct labels. Each is counted exactly as often as it was matched, so at least once. Its labels are exactly the matched ones, and the counts add up to the number of matches. Counts never increase, and equal counts keep the order in which their labels were first matched |
| Labels.NoLabels | app.py:47-51 | The label table is empty exactly when no line starts with `LABEL:` followed by whitespace and a token |
| Labels.LabelTokens | app.py:47-48 | Every captured label is a non-empty run of non-whitespace characters |
| Labels.LabelOnNextLine | app.py:47-48 | `\s+` may cross a line feed: `"LABEL:\nfoo"` yields the single label `foo` |
| Labels.LabelAtSound | app.py:47 | A match the scanner reports is `LABEL:` at a line start, whitespace, and a maximal token, which is the group |
| Labels.LabelAtComplete | app.py:47 | Every occurrence of that shape is matched by the scanner, with that token as its group |
| Fru.ExtractPossibleFruSpec | app.py:67-74 | The FRU table has distinct (FRU, location) pairs. Each is counted exactly as often as it was matched, so at least once. Its pairs are exactly the matched ones, the counts add up to the number of matches, and counts never increase |
| Fru.NoFru | app.py:67-71 | The FRU table is empty exactly when the text has no `FRU:`, whitespace, token, whitespace, token |
| Fru.FruTokens | app.py:67-68 | Every FRU and every location is a non-empty run of non-whitespace characters |
| Fru.FruNeedsTwoTokens | app.py:67 | `FRU:` followed by only one token before the end of the text does not match |
| Fru.FruAtSound | app.py:67 | A match the scanner reports is `FRU:`, whitespace, a maximal token, whitespace, and a maximal token; the two tokens are the groups |
| Fru.FruAtComplete | app.py:67 | Every occurrence of that shape is matched by the scanner, with those tokens as its groups |
| Snap.ExtractGeneralSnapInfo | app.py:87-102 | The two loops build exactly the rows of `Snap.SnapInfo`: first the field rows in dictionary order, then the component rows in `findall` order |
| Snap.FieldOnce | app.py:88-97 | Each of the four fields has exactly one row when its pattern occurs in the text and none otherwise. That row holds group 1 of the field's first match, stripped |
| Snap.KeyValueFieldSpec | app.py:89-97 | For the firmware version, model name and system id, the row exists exactly when some line starts with the key, whitespace, a token and one more whitespace character. The value is the token of the first such line, which is non-empty and holds no whitespace |
| Snap.Sys0FieldSpec | app.py:92-97 | The `sys0` row exists exactly when some line starts with `sys0!system:` and holds at least one more character. The value is the stripped rest of the first such line and holds no line feed |
| Snap.SnapLayout | app.py:94-102 | The rows are at most four rows with field categories, followed by exactly the component rows |
| Snap.ComponentsSpec | app.py:99-102 | The j-th component row comes from the j-th component match, a line-start match of a kind, digits, `!` and a maximal value run. Its category is `Composant (` + kind and digits + `)` and its value is the value run. The matches are in text order without overlap |
| Snap.ComponentRowComplete | app.py:99-102 | Every component line of the text has its row |
| Snap.ComponentsUnnested | app.py:99-100 | No component match starts inside another, since each lies within one line and needs a line start |
| Snap.SnapEmpty | app.py:104-105 | No rows exactly when none of the four field patterns and no component pattern matches anywhere |
| Snap.KeyValueAtSound | app.py:89-91 | A key-value match the scanner reports has the shape: key at a line start, whitespace, a maximal token, one whitespace character |
| Snap.KeyValueAtComplete | app.py:89-91 | Every occurrence of the key-value shape is matched, with the token as its group |
| Snap.Sys0AtSound | app.py:92 | A `sys0` match the scanner reports is `sys0!system:` at a line start and the rest of that line |
| Snap.Sys0AtComplete | app.py:92 | Every such line is matched, with the rest of the line as its group |
| Snap.ComponentAtSound | app.py:99 | A component match the scanner reports is one of the five kinds at a line start, digits, `!` and a maximal value run |
| Snap.ComponentAtComplete | app.py:99 | Every occurrence of that shape is matched by the alternation, whichever kind it is |
| Regex.SearchLeftmost | app.py:95 | `search` returns the leftmost match at or after the start position. It returns nothing exactly when no match starts there |
| Regex.FindAllLeftmost | app.py:48 | `findall` returns real matches, each the leftmost one after the end of the previous match. It returns nothing exactly when the pattern matches nowhere |
| Regex.FindAllHits | app.py:68 | Every hit `findall` returns is the match of the pattern at its start |
| Regex.FindAllEmpty | app.py:100 | `findall` returns nothing exactly when no match of the pattern starts at or after the start position |
| Regex.FindAllComplete | app.py:100 | When matches cannot nest, every match of the pattern starts one of the hits `findall` returns |
| Tally.SortedCounterSpec | app.py:53-54 | The sorted Counter has one entry per distinct value and no other, each with its number of occurrences. The counts add up to the length of the input. They are non-increasing, and ties are in order of first occurrence |
| Tally.CounterSpec | app.py:53 | `Counter(xs).items()` has distinct keys, which are exactly the values of xs, in order of first occurrence. Each carries its multiplicity, and the counts add up to the length of xs |
| Tally.SortSpec | app.py:54 | The sort by count returns a permutation of its input, non-increasing by count |
| Tally.SortStable | app.py:54 | The sort is stable: entries with equal counts keep their input order |
| Chars.StripSpec | app.py:97 | `strip()` returns a slice of its argument with only whitespace on either side |
| Chars.StripNoWs | app.py:97 | `strip()` leaves a whitespace-free string unchanged |
| Chars.StripKeeps | app.py:97 | `strip()` introduces no character its argument lacks |
| Chars.SpanUnique | app.py:47 | A greedy run has one possible extent: the longest run of the class |

## Left out

- The Flask route `upload_file` (app.py:118-161) is web I/O and is not modelled. This covers request handling, `secure_filename`, saving the file, flash messages and templates. The route's choice of extractor uses a case-sensitive `endswith('.snap')`. So a name like `a.SNAP` passes the filter and is then analysed as a plain log.
- Module-level configuration (app.py:9-31, 165-166) is not modelled: upload folder, secret key, logging, `app.run`. It is process setup.
- Reading the file (app.py:44-45, 64-65, 84-85) is I/O. Each extractor takes as its parameter the text `read()` returns: decoded with invalid bytes dropped, and opened in text mode, so `\r\n` and a lone `\r` have already become `\n`. The model's `^`, `$` and `.` therefore never see a `\r`, as in the program; raw carriage-return text passed to the model has fewer line starts than the program sees.
- The exception handlers that return empty tables are not modelled. They only fire on I/O failures.
- pandas DataFrames and column renaming are not modelled. Results are sequences of rows with the same content, in the same order.
- Fru.ExtractPossibleFruSpec: gives no order among pairs with equal counts. That order comes from pandas `value_counts` internals. The model's stable order for ties is not claimed to be pandas'.
- Chars.IsWordChar: covers only ASCII letters, digits and `_`, while Python's `\w` also matches Unicode letters and digits.
- Chars.IsDigit: covers only ASCII digits, while Python's `\d` also matches other Unicode decimal digits.
- Chars.LowerChar: lower-cases only ASCII letters. No non-ASCII character lower-cases to a letter of `txt`, `out` or `snap`, so `Upload.AllowedFile` is unaffected.
- `app.py` contains no log cleaner, so none is modelled.
