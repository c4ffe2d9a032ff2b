/** The segmentation loop of `test.get_section_data`, which appends to a list. */
module TestModule {
  import opened Tokens
  import opened Sections

  /**
    `get_section_data` once the document is annotated and the header phrases
    matched: the prefix entry first, unconditionally, then one entry per header
    whose body text is non-empty, duplicates kept, in match order.
   */
  method GetSectionData(doc: seq<Token>, matches: seq<HeaderMatch>) returns (d: seq<(Section, string)>)
    ensures d == SectionList(doc, matches)
  {
    d := [];
    if |matches| > 0 {
      d := d + [(CandidateInformation, Text(Slice(doc, 0, matches[0].start - 1)))];
    }
    ghost var head, spans := d, LabelledSpans(doc, matches);
    assert head == SectionListHead(doc, matches);
    var index := 0;
    while index < |matches|
      invariant index <= |matches| == |spans|
      invariant d == head + NonEmptyAfter(spans, index)
    {
      var section := matches[index];
      var span := if index == |matches| - 1 then Slice(doc, section.end, |doc|)
                  else Slice(doc, section.end, matches[index + 1].start - 1);
      var text := Text(span);
      ghost var before := d;
      if text != "" {
        d := d + [(section.id, text)];
      }
      SectionListStep(doc, matches, index, text, before);
      index := index + 1;
    }
  }
}
