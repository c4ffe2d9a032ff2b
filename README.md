# Resume parser: section segmentation and field extraction in Dafny

This project models the core of a small résumé parser. The parser turns a
résumé's text into a spaCy document. It splits the document into titled
sections, using header phrases found by a phrase matcher, and then pulls
three things out of those sections:

- the candidate's details (name, e-mail, address, phone, GitHub and LinkedIn
  URLs), from token-pattern matches;
- a whitespace-normalised summary;
- a list of work-experience entries.

The model takes the spaCy results as inputs:

- the annotated document, as a sequence of tokens, each a text plus whether a
  space follows it;
- the header matches, as `(section, start, end)` triples;
- the field matches found on the re-annotated candidate section.

Around those inputs the model rebuilds what the Python code does. It covers:

- the Python/spaCy slicing rules: negative indices wrap, ends are clamped,
  and `stop` is never below `start`;
- span text;
- dictionary overwrite and list append;
- the literal `'Null'` sentinel;
- the matcher's callback pass;
- `str.strip`, `re.sub(r"\s+", " ", …)`, `str.split` and `filter(None, …)`.

Modules:

- `Wrappers`: `Option`, `Result` and the two exceptions the modelled core can raise.
- `Tokens`: tokens, span text, and slice normalisation.
- `Sections`: the section titles, and the span each header owns. It also
  holds the specification of both segmentation loops:
  - `SectionMap`, the dictionary that `load_data` builds;
  - `SectionList`, the list that `get_section_data` in `test.py` builds.
- `TestModule`: the list-building loop of `get_section_data`.
- `MatchEvent`: the token patterns (as data only), and `full_name_event`,
  which rewrites the match array in place.
- `CandidateInfo`: the rule table, the callback pass, and the
  first-match-wins record.
- `PostProcessors`: the summary normaliser, and the work-experience split and
  filter.
- `Parser`: the `ResumeParser` class. Building it runs `load_data`; its
  methods are `get_candidate_info`, `get_summary_text`,
  `get_work_experience` and `parse_information`.
- `Scenarios`: worked examples on concrete documents and strings.

## Model

| member | source | states |
|---|---|---|
| Tokens.Text | ResumeParser.py:149-162 | a span's text starts with its first token's text, and an empty span has empty text |
| Tokens.TextEndsWithLast | ResumeParser.py:149-162 | a span's text ends with its last token's text, without that token's trailing space |
| Tokens.TextEmptyIff | ResumeParser.py:161-162 | for tokens with non-empty text, a span's text is empty exactly when the span has no tokens, so the `!= ''` test drops exactly the empty spans |
| Tokens.TextAgrees | ResumeParser.py:184-186 | two token runs with equal texts, and equal trailing spaces except on the last token, have the same span text |
| Tokens.NormalizeSlice | ResumeParser.py:156-159 | the normalised bounds satisfy `lo <= hi <= len`; an in-range slice keeps its bounds |
| Tokens.Slice | ResumeParser.py:149-159 | `doc[start:stop]` has at most `len(doc)` tokens; an in-range slice is the tokens from `start` up to `stop`; a non-negative `stop` not after `start` gives no tokens |
| Tokens.SliceNegativeStop | ResumeParser.py:150 | `doc[:stop]` with a negative `stop` is every token except the last `-stop` tokens |
| Tokens.SliceTextOnAgreeingPrefix | ResumeParser.py:184-186 | slicing `self.doc` with indices found on a re-annotated prefix gives that prefix's text, as long as the two agree token by token |
| Sections.TitlesDistinct | ResumeParser.py:75-76 | the seven titles are pairwise distinct; only the titles after `CandidateInformation` are header sections |
| Sections.PrefixTokens | ResumeParser.py:149-150 | the prefix is `doc[:s0-1]`, which drops the token just before the first header; a header at token 0 wraps to every token but the last |
| Sections.BodyTokens | ResumeParser.py:156-159 | the last header owns `doc[end:]`; any other header owns `doc[end:next.start-1]` |
| Sections.SingleHeaderPartition | ResumeParser.py:149-159 | with one header at `s >= 1`: the prefix, the dropped token, the header and its body put back together give the whole document |
| Sections.NoHeadersNoSections | ResumeParser.py:146-166 | no header match gives an empty dictionary |
| Sections.CandidateInformationKept | ResumeParser.py:142-150 | with at least one header, `CandidateInformation` is a key, holds the prefix text (even when empty) and is never overwritten |
| Sections.FilledEntry | ResumeParser.py:152-162 | a section is a key exactly when one of its spans has non-empty text, and it then holds the text of the last such span |
| Sections.HeaderEntry | ResumeParser.py:152-162 | the same, for the dictionary `load_data` returns: a later match of a section overwrites an earlier one, and empty spans write nothing |
| Sections.NonEmptyIndicesSelect | test.py:37-45 | the appended entries are the spans at the recorded indices, one each, and there are at most as many of them as there are spans |
| Sections.NonEmptyIndicesIncrease | test.py:37-45 | the recorded indices strictly increase, so entries keep match order |
| Sections.NonEmptyIndicesComplete | test.py:44-45 | an index is recorded exactly when its span's text is non-empty |
| Sections.KeptAfterHead | test.py:44-45 | behind the head entries, entry `j` is the non-empty span at the `j`-th recorded index |
| Sections.SectionListShape | test.py:33-46 | no match gives an empty list; otherwise the first entry is the prefix text, even when empty; the list has at most one entry more than there are matches |
| Sections.SectionListEntries | test.py:37-45 | after the prefix comes exactly one entry per header whose body text is non-empty: its section and that text, with repeated sections kept |
| Sections.SectionListComplete | test.py:44-45 | every header with a non-empty body has an entry, and the entries are in match order |
| Sections.FillIsDict | ResumeParser.py:152-162 | filling the dictionary span by span equals reading the kept entries as a dictionary, where later pairs overwrite earlier ones |
| Sections.SectionMapIsDictOfList | ResumeParser.py:146-166 | the dictionary of `load_data` is the list of `get_section_data` read as a dictionary |
| TestModule.GetSectionData | test.py:33-46 | the loop builds exactly `SectionList` (prefix first, then the non-empty bodies in match order) |
| Parser.ResumeParser.constructor | ResumeParser.py:82-86 | the parser keeps the document, and its section data is what `load_data` computes from it |
| Parser.ResumeParser.LoadData | ResumeParser.py:138-166 | the loop builds exactly `SectionMap`, which is empty when nothing matched |
| Parser.ResumeParser.GetCandidateInfo | ResumeParser.py:168-191 | a missing title raises `KeyError`, and nothing else does; otherwise the record is the first-match-wins record over the matches after the callback pass, with the text sliced from `self.doc` |
| Parser.ResumeParser.RecordMatches | ResumeParser.py:181-186 | the loop over the matches builds exactly `RecordAfter` over all hits, starting from the all-`'Null'` record |
| Parser.ResumeParser.RecordHit | ResumeParser.py:183-186 | one turn of that loop: a field still holding `'Null'` takes the text of `self.doc` at the match's indices, and nothing else changes; `RecordLoopStep` ties it to `RecordAfter` |
| Parser.ResumeParser.GetSummaryText | ResumeParser.py:193-196 | a missing title raises `KeyError`, and nothing else does; otherwise the summary is the section's words (`Words`, the maximal non-whitespace runs) joined by single spaces, hence trimmed and single-spaced |
| Parser.ResumeParser.GetWorkExperience | ResumeParser.py:198-203 | a missing title raises `KeyError`, and nothing else does; otherwise the entries are the non-empty pieces, in order and with their multiplicities, of a split that joins back to the text; none is empty or holds the separator |
| Parser.ResumeParser.ParseInformation | ResumeParser.py:205-209 | raises `KeyError` exactly when one of the three sections is missing; otherwise returns the record, the summary and the work entries |
| PostProcessors.LStrip | ResumeParser.py:195 | the result is a suffix; everything removed is whitespace; it does not start with whitespace |
| PostProcessors.RStrip | ResumeParser.py:195 | the result is a prefix; everything removed is whitespace; it does not end with whitespace |
| PostProcessors.Strip | ResumeParser.py:195 | the result is trimmed and is a slice of the input |
| PostProcessors.CollapseSpaces | ResumeParser.py:195 | the result is empty exactly when the input is; it is single-spaced; a leading whitespace run becomes one space (`CollapseSpacesWords` gives the whole result) |
| PostProcessors.Words | ResumeParser.py:195 | `s.split()`, defined on its own: the maximal runs of non-whitespace characters, left to right; each is non-empty and holds no whitespace |
| PostProcessors.CollapseSpacesWords | ResumeParser.py:195 | `re.sub(r"\s+", " ", s)` is the words of `s` joined by single spaces, with one space in front or behind exactly where `s` starts or ends with whitespace; with no word it is one space, or nothing for empty `s` |
| PostProcessors.SummaryWords | ResumeParser.py:195 | stripping the collapsed text leaves exactly the words joined by single spaces |
| PostProcessors.Summary | ResumeParser.py:195 | `re.sub(r"\s+", " ", s).strip()` equals `" ".join(s.split())`: every whitespace run between two words becomes one space, and leading and trailing runs go |
| PostProcessors.StripKeepsNonSpace | ResumeParser.py:195 | stripping removes whitespace only |
| PostProcessors.CollapseKeepsNonSpace | ResumeParser.py:195 | collapsing whitespace runs keeps every other character, in order |
| PostProcessors.SummaryNormalizes | ResumeParser.py:195 | the summary is trimmed and single-spaced, and its non-whitespace characters are the input's, in order |
| PostProcessors.CollapseSingleSpaced | ResumeParser.py:195 | single-spaced text is unchanged by the collapse |
| PostProcessors.SummaryIdempotent | ResumeParser.py:195 | normalising twice gives the same result as normalising once |
| PostProcessors.SummaryOf | ResumeParser.py:195 | `None` maps to `None`; a string maps to its words joined by single spaces, which is trimmed and single-spaced and keeps the other characters in order |
| PostProcessors.Split | ResumeParser.py:200 | `str.split` gives at least one piece, and the first piece is a prefix of the text |
| PostProcessors.Join | ResumeParser.py:200 | `sep.join(pieces)` starts with the first piece, and with more than one piece the separator follows it |
| PostProcessors.SplitLeftmost | ResumeParser.py:200 | every cut is at the leftmost occurrence of the separator: no occurrence starts inside a piece, even one running on into the separator after it |
| PostProcessors.SplitJoin | ResumeParser.py:200 | joining the pieces with the separator gives back the text |
| PostProcessors.SplitPiecesFree | ResumeParser.py:200 | no piece contains the separator |
| PostProcessors.NonEmptyPieces | ResumeParser.py:200 | the filter keeps the pieces in order, drops exactly the empty ones, and keeps every other piece as often as it occurs |
| PostProcessors.WorkEntries | ResumeParser.py:200 | the work entries are the non-empty pieces of the split, in order and with their multiplicities; none is empty or contains the separator |
| PostProcessors.WorkExperienceOf | ResumeParser.py:200-201 | a `None` value raises `TypeError`, and nothing else does; otherwise the result is `WorkEntries` of the text, the non-empty pieces of the split on the separator in order, each non-empty and free of the separator |
| MatchEvent.FullNameRewrite | ResumeParser.py:48-54 | the list keeps its length; only slot 0 can change; it takes match 2 exactly when `i == 2` and match 2's text starts with match 0's text; slot 0's text can only grow |
| MatchEvent.FullNameEvent | ResumeParser.py:48-54 | the in-place update of the match array is `FullNameRewrite` of the old array |
| CandidateInfo.CallbackFor | ResumeParser.py:174-175 | a key that no rule uses has no callback |
| CandidateInfo.CallbackForLastAdd | ResumeParser.py:174-175 | the last `add` of a key decides its callback, whatever rules came before it |
| CandidateInfo.RulesPerField | ResumeParser.py:67-73 | `CANDIDATE_INFO` registers every field exactly once, except `Phone`, which it registers twice, once per phone pattern |
| CandidateInfo.CallbackForTable | ResumeParser.py:174-175 | over the rule table, the callback kept per key is the one from the last `add`: `full_name_event` for `FullName` and none for the other keys |
| CandidateInfo.OnlyFullNameHasCallback | ResumeParser.py:67-73 | only `FullName` has a callback |
| CandidateInfo.CallbacksFrom | ResumeParser.py:179 | the callback pass keeps the list's length and keeps every match inside the document |
| CandidateInfo.CallbacksAfterSlot2 | ResumeParser.py:48-54 | callbacks for index 3 onwards change nothing |
| CandidateInfo.CallbacksUpToSlot2 | ResumeParser.py:179 | the whole pass equals one rewrite at index 2, and only when match 2 is a `FullName` match |
| CandidateInfo.CallbacksEffect | ResumeParser.py:179 | the pass changes at most slot 0, which takes match 2 exactly when match 2 is a full-name match whose text starts with match 0's text |
| CandidateInfo.RunCallbacks | ResumeParser.py:179 | the in-place pass over the match array leaves it equal to `CallbacksFrom` of the old array |
| CandidateInfo.Hits | ResumeParser.py:184-186 | one hit per match |
| CandidateInfo.InitialRecord | ResumeParser.py:174-176 | the keys are exactly the ids of the rules registered so far, each mapped to `'Null'` |
| CandidateInfo.AllFieldsInitialised | ResumeParser.py:174-176 | after the whole table, every field is a key holding `'Null'` |
| CandidateInfo.RecordAfter | ResumeParser.py:181-186 | every field stays a key through the loop over the matches |
| CandidateInfo.FieldValue | ResumeParser.py:181-186 | a field ends with the text of its first hit whose text is not `'Null'`; with no such hit it stays `'Null'` |
| CandidateInfo.UnmatchedFieldIsNull | ResumeParser.py:174-186 | a field that no match is for keeps `'Null'` |
| CandidateInfo.FirstMatchWins | ResumeParser.py:181-186 | a field whose first match has text other than `'Null'` keeps that text, whatever matches follow |
| CandidateInfo.HitsOnAgreeingDocument | ResumeParser.py:170-186 | when the re-annotated section agrees with the start of the document, each hit's text is the matched text |
| Scenarios.PrefixAndBody | ResumeParser.py:149-162 | on a five-word résumé, the line break before the header is dropped; the prefix and the body land under their keys |
| Scenarios.HeaderAtStart | test.py:35-45 | a header at token 0 puts every token but the last into the prefix entry |
| Scenarios.SplitExample | ResumeParser.py:200 | a trailing separator leaves an empty last piece |
| Scenarios.SplitFourBreaks | ResumeParser.py:200 | four line breaks between two entries cut at the first three: `"a\n\n\n\nb"` gives `["a", "\nb"]` |
| Scenarios.WorkEntriesExample | ResumeParser.py:200 | the filter drops that empty piece |

## Left out

- Reading files is not modelled. That covers `convert_docx2txt` (docx2txt and PyPDF2 decoding), the file-existence checks in `test.py`, and CSV loading with pandas. The section vocabulary from the CSV only shapes which header matches exist, and those are inputs here.
- The model follows the spaCy 2 `Matcher` API that the source is written against: `add(key, on_match, *patterns)`, where a later `add` of a key replaces its callback. In spaCy 3, `on_match` is keyword-only, and line 175 would raise `TypeError`.
- spaCy is not modelled: the model load, tokenisation, tagging, and the internals of `Matcher` and `PhraseMatcher`. That includes how they evaluate patterns, the `?`/`*` operators, overlap and ordering.
  - The document, the header matches and the field matches are parameters.
  - No order is assumed for any of them.
  - The pattern dictionaries appear as data (`MatchEvent.Pattern`), not as a matching engine.
- The re-annotation of the candidate section (`self.nlp(self.section_data[title])`) is a parameter (`data`). Its link to `self.doc` is stated as a hypothesis in `HitsOnAgreeingDocument`, not derived.
- The matcher is a field that persists between calls: a second call to `get_candidate_info` adds the patterns again. That effect is not modelled; each call starts from the rule table.
- In `test.py`, the first element of the list is a spaCy `Span` object. The model keeps its text, as it does for every other entry.
- `summary_text_event` builds a span, discards it and has no effect. No rule registers it, so it is left out.
- Printing, the `main` demo and the commented-out code are left out.
- Dictionary key order is not modelled. Python dictionaries keep insertion order, so callers of `load_data` and `get_candidate_info` see the keys in the order they were added. The model's `map` has no order. The core itself reads these dictionaries only by key; only the printing demo iterates them.
- `verify_installation.py` and `_test_parse.py` are left out: they are dependency checks and a print-only script.
- GetSummaryText: a value in the section data is never `None`, so the `None` branch is modelled one level down, in `SummaryOf`.
- GetWorkExperience: for the same reason, the `TypeError` for a `None` value is modelled in `WorkExperienceOf`.
- FirstMatchWins: the record uses the literal text `'Null'` as "not yet set". A match whose text is literally `Null` therefore does not block a later match. The lemma states first-match-wins only for texts other than `'Null'`; `FieldValue` gives the general rule.
