/**
  The `ResumeParser` class: segmentation into sections when it is built, then
  candidate fields, the summary and the work experience on request.
 */
module Parser {
  import opened Wrappers
  import opened Tokens
  import opened Sections
  import opened MatchEvent
  import opened CandidateInfo
  import opened PostProcessors

  /** What `parse_information` returns, one component per section it handles. */
  datatype Profile = Profile(
    candidateInformation: map<Field, string>,
    summaryText: Option<string>,
    workExperience: seq<string>)

  class ResumeParser {
    /** The annotated document (`self.doc`). */
    const doc: seq<Token>
    /** Section title to section text (`self.section_data`). */
    const sectionData: map<Section, string>

    /**
      Builds the parser from the annotated document and the header phrases
      the phrase matcher found in it.
     */
    constructor (doc: seq<Token>, headerMatches: seq<HeaderMatch>)
      ensures this.doc == doc
      ensures sectionData == SectionMap(doc, headerMatches)
    {
      this.doc := doc;
      var data := LoadData(doc, headerMatches);
      sectionData := data;
    }

    /**
      `load_data` once the header phrases are matched: the prefix under
      `CandidateInformation` when a header was found, then each header's body
      text, if non-empty, under its section, a later one overwriting an earlier.
     */
    static method LoadData(data: seq<Token>, matches: seq<HeaderMatch>) returns (sectionData: map<Section, string>)
      ensures sectionData == SectionMap(data, matches)
      ensures |matches| == 0 ==> sectionData == map[]
    {
      sectionData := map[];
      if |matches| > 0 {
        sectionData := sectionData[CandidateInformation := Text(Slice(data, 0, matches[0].start - 1))];
      }
      ghost var head, spans := sectionData, LabelledSpans(data, matches);
      assert head == SectionMapHead(data, matches);
      var index := 0;
      while index < |matches|
        invariant index <= |matches| == |spans|
        invariant sectionData == FillAfter(head, spans, index)
      {
        var section := matches[index];
        var span := if index == |matches| - 1 then Slice(data, section.end, |data|)
                    else Slice(data, section.end, matches[index + 1].start - 1);
        var text := Text(span);
        ghost var before := sectionData;
        if text != "" {
          sectionData := sectionData[section.id := text];
        }
        SectionMapStep(data, matches, index, text, before);
        index := index + 1;
      }
    }

    /**
      `get_candidate_info(title)`: a missing section raises `KeyError`; otherwise
      every field id starts as the sentinel, the callback pass runs over the
      matches found in `data` (the section text annotated afresh), and each
      match fills its field, while that still holds the sentinel, with the text
      of `self.doc` at the match's indices.
     */
    method GetCandidateInfo(title: Section, data: seq<Token>, found: seq<FieldMatch>)
      returns (r: Result<map<Field, string>>)
      requires InBounds(data, found)
      ensures title !in sectionData <==> r == Err(KeyError)
      ensures title in sectionData ==> r == Ok(RecordAfter(Hits(doc, CallbacksFrom(data, found, 0)), |found|))
    {
      if title !in sectionData {
        return Err(KeyError);
      }
      var details: map<Field, string> := map[];
      var index := 0;
      while index < |Rules|
        invariant index <= |Rules|
        invariant details == InitialRecord(Rules, index)
      {
        details := details[Rules[index].id := NullText];
        index := index + 1;
      }
      var matches := new FieldMatch[|found|](i requires 0 <= i < |found| => found[i]);
      assert matches[..] == found;
      RunCallbacks(data, matches);
      details := RecordMatches(doc, matches, details);
      return Ok(details);
    }

    /**
      The loop over the matches in `get_candidate_info`: each match fills its
      field, while that still holds the sentinel, with the text of `doc` at the
      match's indices.
     */
    static method RecordMatches(doc: seq<Token>, matches: array<FieldMatch>, initial: map<Field, string>)
      returns (details: map<Field, string>)
      requires initial == InitialRecord(Rules, |Rules|)
      ensures details == RecordAfter(Hits(doc, matches[..]), matches.Length)
    {
      ghost var ms := matches[..];
      ghost var hits := Hits(doc, ms);
      AllFieldsInitialised();
      details := initial;
      var k := 0;
      while k < matches.Length
        invariant k <= matches.Length == |ms| == |hits|
        invariant details == RecordAfter(hits, k)
      {
        var m := matches[k];
        assert m == ms[k];
        ghost var before := details;
        details := RecordHit(doc, m, details);
        RecordLoopStep(doc, ms, k, before, details);
        k := k + 1;
      }
    }

    /**
      The body of that loop: a field still holding the sentinel takes the
      text of `doc` at the match's indices; any other field keeps its value.
     */
    static method RecordHit(doc: seq<Token>, m: FieldMatch, details: map<Field, string>) returns (r: map<Field, string>)
      requires m.id in details
      ensures r == if details[m.id] == NullText then details[m.id := Text(Slice(doc, m.start, m.end))] else details
    {
      r := details;
      if details[m.id] == NullText {
        var span := Slice(doc, m.start, m.end);
        r := details[m.id := Text(span)];
      }
    }

    /**
      `get_summary_text(title)`: a missing section raises `KeyError`; otherwise
      the section's words joined by single spaces.
     */
    function GetSummaryText(title: Section): (r: Result<Option<string>>)
      ensures title !in sectionData <==> r == Err(KeyError)
      ensures title in sectionData ==>
        r.Ok? && r.value.Some? && r.value.value == Unwords(Words(sectionData[title])) &&
        Trimmed(r.value.value) && SingleSpaced(r.value.value) &&
        NonSpace(r.value.value) == NonSpace(sectionData[title])
    {
      if title !in sectionData then Err(KeyError) else Ok(SummaryOf(Some(sectionData[title])))
    }

    /**
      `get_work_experience(title)`: a missing section raises `KeyError`;
      otherwise the entries are the non-empty pieces, in order, of a split that
      joins back to the section text, and none holds the separator.
     */
    function GetWorkExperience(title: Section): (r: Result<seq<string>>)
      ensures title !in sectionData <==> r == Err(KeyError)
      ensures title in sectionData ==>
        var pieces := Split(sectionData[title], Separator);
        r.Ok? && Join(pieces, Separator) == sectionData[title] &&
        IsSubsequence(r.value, pieces) &&
        (forall p :: p != "" ==> multiset(r.value)[p] == multiset(pieces)[p]) &&
        forall e :: e in r.value ==> e != "" && !Contains(e, Separator)
    {
      if title !in sectionData then Err(KeyError)
      else
        SplitJoin(sectionData[title], Separator);
        WorkExperienceOf(Some(sectionData[title]))
    }

    /**
      `parse_information()`: the candidate record, then the summary, then the
      work experience; the first missing section raises `KeyError`.
     */
    method ParseInformation(data: seq<Token>, found: seq<FieldMatch>) returns (r: Result<Profile>)
      requires InBounds(data, found)
      ensures r.Err? <==> CandidateInformation !in sectionData || SummaryText !in sectionData || WorkExperience !in sectionData
      ensures r.Err? ==> r.error == KeyError
      ensures r.Ok? ==> r.value == Profile(
        RecordAfter(Hits(doc, CallbacksFrom(data, found, 0)), |found|),
        Some(Summary(sectionData[SummaryText])),
        WorkEntries(sectionData[WorkExperience]))
    {
      var details := GetCandidateInfo(CandidateInformation, data, found);
      if details.Err? {
        return Err(details.error);
      }
      var summary := GetSummaryText(SummaryText);
      if summary.Err? {
        return Err(summary.error);
      }
      var work := GetWorkExperience(WorkExperience);
      if work.Err? {
        return Err(work.error);
      }
      return Ok(Profile(details.value, summary.value, work.value));
    }
  }
}
