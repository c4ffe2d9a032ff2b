/**
  Annotated documents as the tokenizer hands them over: a sequence of tokens,
  the text of a run of tokens, and Python/spaCy slicing by token index.
 */
module Tokens {

  /** A token: its surface text and whether a single space follows it. */
  datatype Token = Token(text: string, spaceAfter: bool)

  /** A matcher hit: the rule or phrase id and the token range [start, end). */
  datatype Match<K> = Match(id: K, start: nat, end: nat)

  /** The tokenizer never produces a token with empty text. */
  predicate WellFormed(doc: seq<Token>)
  {
    forall i :: 0 <= i < |doc| ==> doc[i].text != ""
  }

  /** Every hit lies inside the document it was found in. */
  predicate InBounds<K>(doc: seq<Token>, ms: seq<Match<K>>)
  {
    forall i :: 0 <= i < |ms| ==> ms[i].start <= ms[i].end <= |doc|
  }

  function TextWithWs(t: Token): string
  {
    t.text + if t.spaceAfter then " " else ""
  }

  /**
    The text of a span: every token followed by its space, except the last
    token, whose trailing space is left off.
   */
  function Text(ts: seq<Token>): (r: string)
    ensures |ts| == 0 ==> r == ""
    ensures |ts| > 0 ==> ts[0].text <= r
  {
    if |ts| == 0 then ""
    else if |ts| == 1 then ts[0].text
    else TextWithWs(ts[0]) + Text(ts[1..])
  }

  /** A span's text ends with its last token's text, without a trailing space. */
  lemma {:induction false} TextEndsWithLast(ts: seq<Token>)
    requires |ts| > 0
    ensures var last := ts[|ts| - 1].text; |last| <= |Text(ts)| && Text(ts)[|Text(ts)| - |last|..] == last
    decreases |ts|
  {
    if |ts| > 1 {
      TextEndsWithLast(ts[1..]);
      assert ts[1..][|ts| - 2] == ts[|ts| - 1];
    }
  }

  /** A span of well-formed tokens has empty text exactly when it has no tokens. */
  lemma {:induction false} TextEmptyIff(ts: seq<Token>)
    requires WellFormed(ts)
    ensures Text(ts) == "" <==> |ts| == 0
  {
    if |ts| > 0 {
      assert ts[0].text != "";
    }
  }

  /**
    Two runs of tokens with the same texts, and the same trailing spaces on every
    token but the last, have the same text.
   */
  lemma {:induction false} TextAgrees(ts: seq<Token>, us: seq<Token>)
    requires |ts| == |us|
    requires forall i :: 0 <= i < |ts| ==> ts[i].text == us[i].text
    requires forall i :: 0 <= i < |ts| - 1 ==> ts[i].spaceAfter == us[i].spaceAfter
    ensures Text(ts) == Text(us)
  {
    if |ts| > 1 {
      TextAgrees(ts[1..], us[1..]);
    }
  }

  /**
    Python/spaCy slice normalisation of `doc[start:stop]` over `len` tokens:
    a negative index counts from the end, both ends are clamped into
    [0, len], and `stop` is raised to at least `start`.
   */
  function NormalizeSlice(len: nat, start: int, stop: int): (r: (nat, nat))
    ensures r.0 <= r.1 <= len
    ensures 0 <= start <= stop <= len ==> r == (start, stop)
  {
    var a := if start < 0 then start + len else start;
    var lo := if a < 0 then 0 else if a > len then len else a;
    var b := if stop < 0 then stop + len else stop;
    var hi := if b < lo then lo else if b > len then len else b;
    (lo, hi)
  }

  /**
    `doc[start:stop]`; an omitted start is 0 and an omitted stop is `len(doc)`.
    An in-range slice is the tokens from `start` up to `stop`, and a
    non-negative `stop` that is not after `start` gives no tokens.
   */
  function Slice(doc: seq<Token>, start: int, stop: int): (r: seq<Token>)
    ensures |r| <= |doc|
    ensures 0 <= start <= stop <= |doc| ==> r == doc[start..stop]
    ensures 0 <= stop <= start ==> r == []
  {
    var (lo, hi) := NormalizeSlice(|doc|, start, stop);
    doc[lo..hi]
  }

  /** `doc[:stop]` with a negative `stop`: everything but the last `-stop` tokens. */
  lemma {:induction false} SliceNegativeStop(doc: seq<Token>, stop: int)
    requires -|doc| <= stop < 0
    ensures Slice(doc, 0, stop) == doc[..|doc| + stop]
  {
  }

  /**
    Slicing a document whose first tokens agree with another token run gives
    the same text as slicing that run, as long as the range stays inside it.
   */
  lemma {:induction false} SliceTextOnAgreeingPrefix(doc: seq<Token>, data: seq<Token>, start: nat, end: nat)
    requires start <= end <= |data| <= |doc|
    requires forall i :: 0 <= i < |data| ==> doc[i].text == data[i].text
    requires forall i :: 0 <= i < |data| - 1 ==> doc[i].spaceAfter == data[i].spaceAfter
    ensures Text(Slice(doc, start, end)) == Text(data[start..end])
  {
    TextAgrees(doc[start..end], data[start..end]);
  }
}
