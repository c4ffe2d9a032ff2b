/**
  Section segmentation shared by `ResumeParser.load_data` and
  `test.get_section_data`: the section titles, the span each header owns and
  the specification of both loops.
 */
module Sections {
  import opened Tokens

  /** The section titles, in the order of `SECTION_TITLE`. */
  datatype Section =
    | CandidateInformation
    | SummaryText
    | ToolsAndTechnologies
    | WorkExperience
    | Education
    | ExtraCurricular
    | AwardsAndRecognition

  /** The title string each section is keyed by. */
  function Title(s: Section): string
  {
    match s
    case CandidateInformation => "CandidateInformation"
    case SummaryText => "SummaryText"
    case ToolsAndTechnologies => "ToolsAndTechnologies"
    case WorkExperience => "WorkExperience"
    case Education => "Education"
    case ExtraCurricular => "Extra-curricular"
    case AwardsAndRecognition => "AwardsAndRecognition"
  }

  const SectionTitles: seq<Section> :=
    [CandidateInformation, SummaryText, ToolsAndTechnologies, WorkExperience,
     Education, ExtraCurricular, AwardsAndRecognition]

  /** Only `SECTION_TITLE[1:]` are registered with the phrase matcher. */
  predicate IsHeader(s: Section)
  {
    s in SectionTitles[1..]
  }

  lemma {:induction false} TitlesDistinct(s: Section, t: Section)
    ensures Title(s) == Title(t) <==> s == t
    ensures IsHeader(s) <==> s != CandidateInformation
  {
  }

  type HeaderMatch = Match<Section>

  /** `doc[:matches[0].start - 1]`, the text before the first header. */
  function Prefix(doc: seq<Token>, matches: seq<HeaderMatch>): seq<Token>
    requires |matches| > 0
  {
    Slice(doc, 0, matches[0].start - 1)
  }

  /**
    The tokens header `i` owns: `doc[end:]` for the last header,
    `doc[end : next.start - 1]` otherwise.
   */
  function Body(doc: seq<Token>, matches: seq<HeaderMatch>, i: nat): seq<Token>
    requires i < |matches|
  {
    if i == |matches| - 1 then Slice(doc, matches[i].end, |doc|)
    else Slice(doc, matches[i].end, matches[i + 1].start - 1)
  }

  function BodyText(doc: seq<Token>, matches: seq<HeaderMatch>, i: nat): string
    requires i < |matches|
  {
    Text(Body(doc, matches, i))
  }

  /**
    The prefix is the tokens before the first header, less the one just before
    it; a header at token 0 wraps round to every token but the last.
   */
  lemma {:induction false} PrefixTokens(doc: seq<Token>, matches: seq<HeaderMatch>)
    requires |matches| > 0
    ensures 1 <= matches[0].start <= |doc| + 1 ==> Prefix(doc, matches) == doc[..matches[0].start - 1]
    ensures matches[0].start == 0 && |doc| > 0 ==> Prefix(doc, matches) == doc[..|doc| - 1]
  {
  }

  /**
    A header followed by another owns the tokens from its end up to, but not
    including, the token just before the next header; the last header owns
    the rest of the document.
   */
  lemma {:induction false} BodyTokens(doc: seq<Token>, matches: seq<HeaderMatch>, i: nat)
    requires i < |matches| && matches[i].end <= |doc|
    ensures i == |matches| - 1 ==> Body(doc, matches, i) == doc[matches[i].end..]
    ensures i < |matches| - 1 && matches[i].end < matches[i + 1].start <= |doc| + 1 ==>
      Body(doc, matches, i) == doc[matches[i].end..matches[i + 1].start - 1]
  {
  }

  /**
    A single header found at `s >= 1`: the prefix, the dropped token, the header
    and its body put back together give the whole document.
   */
  lemma {:induction false} SingleHeaderPartition(doc: seq<Token>, m: HeaderMatch)
    requires 1 <= m.start <= m.end <= |doc|
    ensures Prefix(doc, [m]) + [doc[m.start - 1]] + doc[m.start..m.end] + Body(doc, [m], 0) == doc
  {
    assert Prefix(doc, [m]) == doc[..m.start - 1];
    assert Body(doc, [m], 0) == doc[m.end..];
    assert doc == doc[..m.start - 1] + [doc[m.start - 1]] + doc[m.start..m.end] + doc[m.end..];
  }

  /** Each header with the text it owns, in match order: the labelled spans both loops walk. */
  function LabelledSpans(doc: seq<Token>, matches: seq<HeaderMatch>): (spans: seq<(Section, string)>)
    ensures |spans| == |matches|
  {
    seq(|matches|, i requires 0 <= i < |matches| => (matches[i].id, BodyText(doc, matches, i)))
  }

  /** The labelled span of header `i`, spelled out as both loops compute it. */
  lemma {:induction false} LabelledSpanAt(doc: seq<Token>, matches: seq<HeaderMatch>, i: nat, text: string)
    requires i < |matches|
    requires text == Text(if i == |matches| - 1 then Slice(doc, matches[i].end, |doc|)
                          else Slice(doc, matches[i].end, matches[i + 1].start - 1))
    ensures LabelledSpans(doc, matches)[i] == (matches[i].id, text)
  {
  }

  // ---------------------------------------------------------------------------
  // load_data: a dictionary filled in match order

  /**
    The dictionary after `spans[..n]` were handled: `head` (the prefix entry, if
    any) and then each span with non-empty text, a later one for the same
    section overwriting the earlier.
   */
  function FillAfter(head: map<Section, string>, spans: seq<(Section, string)>, n: nat): map<Section, string>
    requires n <= |spans|
  {
    if n == 0 then head
    else
      var m := FillAfter(head, spans, n - 1);
      if spans[n - 1].1 != "" then m[spans[n - 1].0 := spans[n - 1].1] else m
  }

  lemma {:induction false} FillStep(head: map<Section, string>, spans: seq<(Section, string)>, n: nat)
    requires n < |spans|
    ensures FillAfter(head, spans, n + 1) ==
      if spans[n].1 != "" then FillAfter(head, spans, n)[spans[n].0 := spans[n].1] else FillAfter(head, spans, n)
  {
  }

  /** What `load_data` stores before its loop: the prefix, but only if a header was found. */
  function SectionMapHead(doc: seq<Token>, matches: seq<HeaderMatch>): map<Section, string>
  {
    if |matches| > 0 then map[CandidateInformation := Text(Prefix(doc, matches))] else map[]
  }

  /** One turn of the `load_data` loop, with the body text as the loop computes it. */
  lemma {:induction false} SectionMapStep(doc: seq<Token>, matches: seq<HeaderMatch>, i: nat, text: string, m: map<Section, string>)
    requires i < |matches|
    requires text == Text(if i == |matches| - 1 then Slice(doc, matches[i].end, |doc|)
                          else Slice(doc, matches[i].end, matches[i + 1].start - 1))
    requires m == FillAfter(SectionMapHead(doc, matches), LabelledSpans(doc, matches), i)
    ensures (if text != "" then m[matches[i].id := text] else m) ==
      FillAfter(SectionMapHead(doc, matches), LabelledSpans(doc, matches), i + 1)
  {
    LabelledSpanAt(doc, matches, i, text);
    FillStep(SectionMapHead(doc, matches), LabelledSpans(doc, matches), i);
  }

  /** The dictionary `load_data` returns. */
  function SectionMap(doc: seq<Token>, matches: seq<HeaderMatch>): map<Section, string>
  {
    FillAfter(SectionMapHead(doc, matches), LabelledSpans(doc, matches), |matches|)
  }

  /** No header found: the dictionary is empty. */
  lemma {:induction false} NoHeadersNoSections(doc: seq<Token>, matches: seq<HeaderMatch>)
    requires |matches| == 0
    ensures SectionMap(doc, matches) == map[]
  {
  }

  /** An entry of `head` whose key no span carries survives the loop unchanged. */
  lemma {:induction false} HeadKept(head: map<Section, string>, spans: seq<(Section, string)>, n: nat, k: Section)
    requires n <= |spans| && k in head
    requires forall i :: 0 <= i < |spans| ==> spans[i].0 != k
    ensures k in FillAfter(head, spans, n) && FillAfter(head, spans, n)[k] == head[k]
  {
    if n > 0 {
      HeadKept(head, spans, n - 1, k);
    }
  }

  /**
    With at least one header, `CandidateInformation` holds the prefix text, even
    when it is empty, and no header overwrites it, since only the titles after
    the first are registered.
   */
  lemma {:induction false} CandidateInformationKept(doc: seq<Token>, matches: seq<HeaderMatch>)
    requires 0 < |matches|
    requires forall i :: 0 <= i < |matches| ==> IsHeader(matches[i].id)
    ensures CandidateInformation in SectionMap(doc, matches)
    ensures SectionMap(doc, matches)[CandidateInformation] == Text(Prefix(doc, matches))
  {
    var spans := LabelledSpans(doc, matches);
    forall i | 0 <= i < |spans| ensures spans[i].0 != CandidateInformation {
      assert spans[i].0 == matches[i].id && IsHeader(matches[i].id);
    }
    HeadKept(SectionMapHead(doc, matches), spans, |matches|, CandidateInformation);
  }

  /** Some span among the first `n` for section `k` has non-empty text. */
  predicate HasNonEmpty(spans: seq<(Section, string)>, n: nat, k: Section)
    requires n <= |spans|
  {
    exists i :: 0 <= i < n && spans[i].0 == k && spans[i].1 != ""
  }

  /** Span `i` is the last among the first `n` for section `k` with non-empty text. */
  predicate LastNonEmpty(spans: seq<(Section, string)>, n: nat, k: Section, i: nat)
    requires n <= |spans|
  {
    i < n && spans[i].0 == k && spans[i].1 != "" &&
    forall j :: i < j < n && spans[j].0 == k ==> spans[j].1 == ""
  }

  /**
    A section that is not in `head` is a key exactly when one of its spans has
    non-empty text, and then it holds the text of the last such span: a later
    match of the same section overwrites an earlier one.
   */
  lemma {:induction false} FilledEntry(head: map<Section, string>, spans: seq<(Section, string)>, n: nat, k: Section)
    requires n <= |spans| && k !in head
    ensures k in FillAfter(head, spans, n) <==> HasNonEmpty(spans, n, k)
    ensures k in FillAfter(head, spans, n) ==>
      exists i: nat :: LastNonEmpty(spans, n, k, i) && FillAfter(head, spans, n)[k] == spans[i].1
  {
    if n > 0 {
      FilledEntry(head, spans, n - 1, k);
      var m := FillAfter(head, spans, n - 1);
      if spans[n - 1].0 == k && spans[n - 1].1 != "" {
        assert LastNonEmpty(spans, n, k, n - 1);
      } else {
        assert k in FillAfter(head, spans, n) <==> k in m;
        if HasNonEmpty(spans, n, k) {
          var i :| 0 <= i < n && spans[i].0 == k && spans[i].1 != "";
          assert HasNonEmpty(spans, n - 1, k);
        }
        if k in m {
          var i: nat :| LastNonEmpty(spans, n - 1, k, i) && m[k] == spans[i].1;
          assert LastNonEmpty(spans, n, k, i);
        }
      }
    }
  }

  /**
    In the dictionary `load_data` returns, a header section is present exactly
    when one of its matches owns non-empty text, and holds the text of the last
    such match.
   */
  lemma {:induction false} HeaderEntry(doc: seq<Token>, matches: seq<HeaderMatch>, k: Section)
    requires IsHeader(k)
    ensures var spans := LabelledSpans(doc, matches);
      (k in SectionMap(doc, matches) <==> HasNonEmpty(spans, |spans|, k)) &&
      (k in SectionMap(doc, matches) ==>
        exists i: nat :: LastNonEmpty(spans, |spans|, k, i) && SectionMap(doc, matches)[k] == spans[i].1)
  {
    FilledEntry(SectionMapHead(doc, matches), LabelledSpans(doc, matches), |matches|, k);
  }

  // ---------------------------------------------------------------------------
  // get_section_data: a list appended in match order

  /** The spans among `spans[..n]` with non-empty text, in order. */
  function NonEmptyAfter(spans: seq<(Section, string)>, n: nat): seq<(Section, string)>
    requires n <= |spans|
  {
    if n == 0 then []
    else NonEmptyAfter(spans, n - 1) + if spans[n - 1].1 != "" then [spans[n - 1]] else []
  }

  lemma {:induction false} NonEmptyStep(spans: seq<(Section, string)>, n: nat)
    requires n < |spans|
    ensures NonEmptyAfter(spans, n + 1) ==
      if spans[n].1 != "" then NonEmptyAfter(spans, n) + [spans[n]] else NonEmptyAfter(spans, n)
  {
  }

  /** What `get_section_data` appends before its loop: the prefix, unconditionally, if a header was found. */
  function SectionListHead(doc: seq<Token>, matches: seq<HeaderMatch>): seq<(Section, string)>
  {
    if |matches| > 0 then [(CandidateInformation, Text(Prefix(doc, matches)))] else []
  }

  /** One turn of the `get_section_data` loop, with the body text as the loop computes it. */
  lemma {:induction false} SectionListStep(doc: seq<Token>, matches: seq<HeaderMatch>, i: nat, text: string, d: seq<(Section, string)>)
    requires i < |matches|
    requires text == Text(if i == |matches| - 1 then Slice(doc, matches[i].end, |doc|)
                          else Slice(doc, matches[i].end, matches[i + 1].start - 1))
    requires d == SectionListHead(doc, matches) + NonEmptyAfter(LabelledSpans(doc, matches), i)
    ensures (if text != "" then d + [(matches[i].id, text)] else d) ==
      SectionListHead(doc, matches) + NonEmptyAfter(LabelledSpans(doc, matches), i + 1)
  {
    LabelledSpanAt(doc, matches, i, text);
    NonEmptyStep(LabelledSpans(doc, matches), i);
  }

  /** The list `get_section_data` returns. */
  function SectionList(doc: seq<Token>, matches: seq<HeaderMatch>): seq<(Section, string)>
  {
    SectionListHead(doc, matches) + NonEmptyAfter(LabelledSpans(doc, matches), |matches|)
  }

  /** The indices of the spans among `spans[..n]` with non-empty text, in increasing order. */
  function NonEmptyIndices(spans: seq<(Section, string)>, n: nat): seq<nat>
    requires n <= |spans|
  {
    if n == 0 then []
    else NonEmptyIndices(spans, n - 1) + if spans[n - 1].1 != "" then [n - 1] else []
  }

  /** Entry `j` of the kept entries is the span at the `j`-th recorded index. */
  lemma {:induction false} NonEmptyIndicesSelect(spans: seq<(Section, string)>, n: nat)
    requires n <= |spans|
    ensures |NonEmptyAfter(spans, n)| == |NonEmptyIndices(spans, n)| <= n
    ensures forall j :: 0 <= j < |NonEmptyIndices(spans, n)| ==>
      NonEmptyIndices(spans, n)[j] < n && NonEmptyAfter(spans, n)[j] == spans[NonEmptyIndices(spans, n)[j]]
  {
    if n > 0 {
      NonEmptyIndicesSelect(spans, n - 1);
    }
  }

  /** The recorded indices increase. */
  lemma {:induction false} NonEmptyIndicesIncrease(spans: seq<(Section, string)>, n: nat)
    requires n <= |spans|
    ensures forall j :: 0 <= j < |NonEmptyIndices(spans, n)| ==> NonEmptyIndices(spans, n)[j] < n
    ensures forall j, j' :: 0 <= j < j' < |NonEmptyIndices(spans, n)| ==>
      NonEmptyIndices(spans, n)[j] < NonEmptyIndices(spans, n)[j']
  {
    if n > 0 {
      NonEmptyIndicesIncrease(spans, n - 1);
    }
  }

  /** An index below `n` is recorded exactly when its span's text is non-empty. */
  lemma {:induction false} NonEmptyIndicesComplete(spans: seq<(Section, string)>, n: nat)
    requires n <= |spans|
    ensures forall i :: 0 <= i < n ==> (i in NonEmptyIndices(spans, n) <==> spans[i].1 != "")
  {
    if n > 0 {
      NonEmptyIndicesComplete(spans, n - 1);
      NonEmptyIndicesIncrease(spans, n - 1);
    }
  }

  /** Behind a head, entry `j` of the kept entries is a non-empty span at the `j`-th recorded index. */
  lemma {:induction false} KeptAfterHead(head: seq<(Section, string)>, spans: seq<(Section, string)>, n: nat)
    requires n <= |spans|
    ensures var idx := NonEmptyIndices(spans, n);
      |head + NonEmptyAfter(spans, n)| == |head| + |idx| &&
      forall j :: 0 <= j < |idx| ==>
        idx[j] < n && (head + NonEmptyAfter(spans, n))[|head| + j] == spans[idx[j]] && spans[idx[j]].1 != ""
  {
    NonEmptyIndicesSelect(spans, n);
    NonEmptyIndicesComplete(spans, n);
    var idx := NonEmptyIndices(spans, n);
    forall j | 0 <= j < |idx| ensures spans[idx[j]].1 != "" {
      assert idx[j] in idx;
    }
  }

  /**
    The list is empty without headers; otherwise it starts with the prefix
    text, even when empty, and has at most one entry more than there are
    headers.
   */
  lemma {:induction false} SectionListShape(doc: seq<Token>, matches: seq<HeaderMatch>)
    ensures |matches| == 0 ==> SectionList(doc, matches) == []
    ensures |matches| > 0 ==> SectionList(doc, matches)[0] == (CandidateInformation, Text(Prefix(doc, matches)))
    ensures |SectionList(doc, matches)| <= |matches| + 1
  {
    NonEmptyIndicesSelect(LabelledSpans(doc, matches), |matches|);
  }

  /**
    After the prefix comes one entry per header whose body text is non-empty,
    its section and that text, in match order; repeated sections are kept.
   */
  lemma {:induction false} SectionListEntries(doc: seq<Token>, matches: seq<HeaderMatch>)
    requires |matches| > 0
    ensures var idx := NonEmptyIndices(LabelledSpans(doc, matches), |matches|);
      |SectionList(doc, matches)| == |idx| + 1 &&
      forall j :: 0 <= j < |idx| ==>
        idx[j] < |matches| &&
        SectionList(doc, matches)[j + 1] == (matches[idx[j]].id, BodyText(doc, matches, idx[j])) &&
        BodyText(doc, matches, idx[j]) != ""
  {
    var spans, head := LabelledSpans(doc, matches), SectionListHead(doc, matches);
    assert |head| == 1;
    KeptAfterHead(head, spans, |matches|);
    var idx := NonEmptyIndices(spans, |matches|);
    forall j | 0 <= j < |idx|
      ensures SectionList(doc, matches)[j + 1] == (matches[idx[j]].id, BodyText(doc, matches, idx[j]))
    {
      assert SectionList(doc, matches)[j + 1] == spans[idx[j]];
    }
  }

  /** Every header with a non-empty body has its entry, and the entries keep match order. */
  lemma {:induction false} SectionListComplete(doc: seq<Token>, matches: seq<HeaderMatch>)
    ensures var idx := NonEmptyIndices(LabelledSpans(doc, matches), |matches|);
      (forall j, j' :: 0 <= j < j' < |idx| ==> idx[j] < idx[j']) &&
      forall i :: 0 <= i < |matches| && BodyText(doc, matches, i) != "" ==> i in idx
  {
    var spans := LabelledSpans(doc, matches);
    NonEmptyIndicesIncrease(spans, |matches|);
    NonEmptyIndicesComplete(spans, |matches|);
    forall i | 0 <= i < |matches| && BodyText(doc, matches, i) != "" ensures i in NonEmptyIndices(spans, |matches|) {
      assert spans[i].1 == BodyText(doc, matches, i);
    }
  }

  // ---------------------------------------------------------------------------
  // The two versions agree

  /** `dict(pairs)`: later pairs overwrite earlier ones with the same key. */
  function ToDict(pairs: seq<(Section, string)>): map<Section, string>
  {
    if |pairs| == 0 then map[]
    else ToDict(pairs[..|pairs| - 1])[pairs[|pairs| - 1].0 := pairs[|pairs| - 1].1]
  }

  lemma {:induction false} FillIsDict(head: seq<(Section, string)>, spans: seq<(Section, string)>, n: nat)
    requires n <= |spans|
    ensures FillAfter(ToDict(head), spans, n) == ToDict(head + NonEmptyAfter(spans, n))
  {
    if n == 0 {
      assert head + NonEmptyAfter(spans, 0) == head;
    } else {
      FillIsDict(head, spans, n - 1);
      var before := head + NonEmptyAfter(spans, n - 1);
      if spans[n - 1].1 != "" {
        var after := head + NonEmptyAfter(spans, n);
        assert after == before + [spans[n - 1]];
        assert after[..|after| - 1] == before;
      } else {
        assert head + NonEmptyAfter(spans, n) == before;
      }
    }
  }

  /**
    The dictionary of `load_data` is the list of `get_section_data` read as a
    dictionary: the list keeps every entry, the dictionary the last one per section.
   */
  lemma {:induction false} SectionMapIsDictOfList(doc: seq<Token>, matches: seq<HeaderMatch>)
    ensures SectionMap(doc, matches) == ToDict(SectionList(doc, matches))
  {
    var head := SectionListHead(doc, matches);
    assert ToDict(head) == SectionMapHead(doc, matches) by {
      if |matches| > 0 {
        assert head[..0] == [];
      }
    }
    FillIsDict(head, LabelledSpans(doc, matches), |matches|);
  }
}
