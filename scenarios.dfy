/**
  Worked examples on small documents: what the two segmentation loops and the
  post-processors produce for concrete inputs.
 */
module Scenarios {
  import opened Tokens
  import opened Sections
  import opened PostProcessors

  /** "Jane Doe", a line break, the header "Summary", a line break, then "Builds parsers". */
  const Resume: seq<Token> := [
    Token("Jane", true), Token("Doe", false), Token("\n", false),
    Token("Summary", false), Token("\n", false),
    Token("Builds", true), Token("parsers", false)]

  lemma {:induction false} TextOfThree(a: Token, b: Token, c: Token)
    ensures Text([a, b, c]) == TextWithWs(a) + TextWithWs(b) + c.text
  {
    assert [a, b, c][1..] == [b, c];
    assert [b, c][1..] == [c];
    assert Text([b, c]) == TextWithWs(b) + c.text;
  }

  /** "Builds parsers" after a line break: the tokens the summary header owns. */
  lemma {:induction false} SummaryBodyText()
    ensures Text([Token("\n", false), Token("Builds", true), Token("parsers", false)]) == "\nBuilds parsers"
  {
    TextOfThree(Token("\n", false), Token("Builds", true), Token("parsers", false));
    assert TextWithWs(Token("Builds", true)) == "Builds ";
  }

  /**
    The token just before a header is not part of any section: the prefix ends
    at `start - 1`, so the line break before "Summary" is dropped.
   */
  lemma {:induction false} PrefixAndBody()
    ensures SectionMap(Resume, [Match(SummaryText, 3, 4)]) ==
      map[CandidateInformation := "Jane Doe", SummaryText := "\nBuilds parsers"]
  {
    var ms := [Match(SummaryText, 3, 4)];
    var name := [Token("Jane", true), Token("Doe", false)];
    assert Prefix(Resume, ms) == name;
    assert Text(name) == "Jane Doe" by {
      assert name[1..] == [Token("Doe", false)];
    }
    assert Body(Resume, ms, 0) == Resume[4..];
    SummaryBodyText();
  }

  /**
    A header at token 0 makes the prefix `doc[:-1]`: every token but the last
    lands under `CandidateInformation`.
   */
  lemma {:induction false} HeaderAtStart()
    ensures SectionList(Resume[3..], [Match(SummaryText, 0, 1)]) ==
      [(CandidateInformation, "Summary\nBuilds"), (SummaryText, "\nBuilds parsers")]
  {
    var doc, ms := Resume[3..], [Match(SummaryText, 0, 1)];
    var prefix := [Token("Summary", false), Token("\n", false), Token("Builds", true)];
    assert Prefix(doc, ms) == prefix;
    assert Text(prefix) == "Summary\nBuilds" by {
      TextOfThree(Token("Summary", false), Token("\n", false), Token("Builds", true));
    }
    assert Body(doc, ms, 0) == doc[1..];
    SummaryBodyText();
    var spans := LabelledSpans(doc, ms);
    assert spans[0] == (SummaryText, "\nBuilds parsers");
    assert NonEmptyAfter(spans, 1) == [spans[0]];
  }

  lemma {:induction false} SplitAfterFirstSeparator()
    ensures Split("\n\n\nB\n\n\n", Separator) == ["", "B", ""]
  {
    assert Split("\n\n\n", Separator) == ["", ""] by {
      assert "\n\n\n"[3..] == "";
      assert "\n\n\n"[..3] == Separator;
    }
    assert Split("B\n\n\n", Separator) == ["B", ""] by {
      assert "B\n\n\n"[1..] == "\n\n\n";
      assert "B\n\n\n"[..3][0] == 'B';
      assert ['B'] + "" == "B";
    }
    assert "\n\n\nB\n\n\n"[3..] == "B\n\n\n";
    assert "\n\n\nB\n\n\n"[..3] == Separator;
  }

  /** Two blank lines separate entries. */
  lemma {:induction false} SplitExample()
    ensures Split("A\n\n\nB\n\n\n", Separator) == ["A", "B", ""]
  {
    var s := "A\n\n\nB\n\n\n";
    SplitAfterFirstSeparator();
    assert s[1..] == "\n\n\nB\n\n\n";
    assert s[..3][0] == 'A';
    assert ['A'] + "" == "A";
  }

  /**
    Four line breaks between entries: the cut is at the first three, so the
    fourth starts the next entry.
   */
  lemma {:induction false} SplitFourBreaks()
    ensures Split("a\n\n\n\nb", Separator) == ["a", "\nb"]
  {
    var s := "a\n\n\n\nb";
    assert Split("\n\n\n\nb", Separator) == ["", "\nb"] by {
      assert "\n\n\n\nb"[..3] == Separator;
      assert "\n\n\n\nb"[3..] == "\nb";
    }
    assert s[..3][0] == 'a';
    assert s[1..] == "\n\n\n\nb";
    assert ['a'] + "" == "a";
  }

  /** A trailing separator leaves an empty piece, which the filter drops. */
  lemma {:induction false} WorkEntriesExample()
    ensures WorkEntries("A\n\n\nB\n\n\n") == ["A", "B"]
  {
    SplitExample();
    var p := ["A", "B", ""];
    assert p[1..] == ["B", ""] && p[2..] == [""] && p[2..][1..] == [];
    assert NonEmptyPieces([""]) == [];
    assert NonEmptyPieces(["B", ""]) == ["B"];
  }
}
