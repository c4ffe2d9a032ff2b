/**
  Candidate-field extraction: the rule table `CANDIDATE_INFO`, the callback pass
  the matcher makes over its result, and the first-match-wins record.
 */
module CandidateInfo {
  import opened Tokens
  import opened MatchEvent

  /** The field ids of the rule table; each stands for the string key of the same name. */
  datatype Field = FullName | Email | Address | Phone | GithubURL | LinkedInURL

  /** The `match_on` entry of a rule: no callback, or `full_name_event`. */
  datatype Callback = NoCallback | FullNameCallback

  datatype Rule = Rule(id: Field, onMatch: Callback, pattern: PatternName)

  /** `CANDIDATE_INFO`, in order; two rules share the id `Phone`. */
  const Rules: seq<Rule> := [
    Rule(FullName, FullNameCallback, PersonName),
    Rule(Email, NoCallback, EmailId),
    Rule(Address, NoCallback, StreetAddress),
    Rule(Phone, NoCallback, PhoneNumber1),
    Rule(Phone, NoCallback, PhoneNumber2),
    Rule(GithubURL, NoCallback, GitUrl),
    Rule(LinkedInURL, NoCallback, LinkedInUrl)]

  /** The sentinel a field holds until a match fills it. */
  const NullText: string := "Null"

  type FieldMatch = Match<Field>

  /**
    The callback the matcher keeps for key `f`: the one passed with the last
    `add` of that key, and none when no rule has that key.
   */
  function CallbackFor(rules: seq<Rule>, f: Field): (r: Callback)
    ensures (forall i :: 0 <= i < |rules| ==> rules[i].id != f) ==> r == NoCallback
  {
    if |rules| == 0 then NoCallback
    else if rules[|rules| - 1].id == f then rules[|rules| - 1].onMatch
    else CallbackFor(rules[..|rules| - 1], f)
  }

  /** The last `add` of a key decides its callback, whatever rules came before. */
  lemma {:induction false} CallbackForLastAdd(rules: seq<Rule>, i: nat)
    requires i < |rules|
    requires forall j :: i < j < |rules| ==> rules[j].id != rules[i].id
    ensures CallbackFor(rules, rules[i].id) == rules[i].onMatch
    decreases |rules|
  {
    if i < |rules| - 1 {
      var init := rules[..|rules| - 1];
      assert init[i] == rules[i];
      assert rules[|rules| - 1].id != rules[i].id;
      forall j | i < j < |init| ensures init[j].id != init[i].id {
        assert init[j] == rules[j];
      }
      CallbackForLastAdd(init, i);
    }
  }

  lemma {:induction false} CallbackForTable(n: nat, f: Field)
    requires n <= |Rules|
    ensures CallbackFor(Rules[..n], f) == if f == FullName && n > 0 then FullNameCallback else NoCallback
  {
    if n > 0 {
      CallbackForTable(n - 1, f);
      assert Rules[..n][..n - 1] == Rules[..n - 1];
      assert Rules[..n][n - 1] == Rules[n - 1];
    }
  }

  /** Only the full-name rule has a callback. */
  lemma {:induction false} OnlyFullNameHasCallback(f: Field)
    ensures CallbackFor(Rules, f) == if f == FullName then FullNameCallback else NoCallback
  {
    CallbackForTable(|Rules|, f);
    assert Rules[..|Rules|] == Rules;
  }

  /** How many rules of `rules` are registered under `f`. */
  function RuleCount(rules: seq<Rule>, f: Field): nat
  {
    if |rules| == 0 then 0 else (if rules[0].id == f then 1 else 0) + RuleCount(rules[1..], f)
  }

  lemma {:induction false} RuleCountStep(k: nat, f: Field)
    requires k < |Rules|
    ensures RuleCount(Rules[k..], f) == (if Rules[k].id == f then 1 else 0) + RuleCount(Rules[k + 1..], f)
  {
    assert Rules[k..][1..] == Rules[k + 1..];
  }

  /**
    `CANDIDATE_INFO` registers every field exactly once, except `Phone`,
    which is registered twice, once per phone pattern.
   */
  lemma {:induction false} RulesPerField(f: Field)
    ensures RuleCount(Rules, f) == if f == Phone then 2 else 1
  {
    RulesFromPhone(f);
    RuleCountStep(2, f);
    RuleCountStep(1, f);
    assert RuleCount(Rules, f) == (if Rules[0].id == f then 1 else 0) + RuleCount(Rules[1..], f);
  }

  /** The rules from the first phone rule on: two for `Phone`, one each for the two URLs. */
  lemma {:induction false} RulesFromPhone(f: Field)
    ensures RuleCount(Rules[3..], f) == if f == Phone then 2 else if f in {GithubURL, LinkedInURL} then 1 else 0
  {
    assert Rules[7..] == [];
    RuleCountStep(6, f);
    RuleCountStep(5, f);
    RuleCountStep(4, f);
    RuleCountStep(3, f);
  }

  /**
    The match list after the matcher ran the callbacks of matches `i..` in
    index order, each on the list as the earlier ones left it.
   */
  function CallbacksFrom(data: seq<Token>, ms: seq<FieldMatch>, i: nat): (r: seq<FieldMatch>)
    requires i <= |ms| && InBounds(data, ms)
    ensures |r| == |ms| && InBounds(data, r)
    decreases |ms| - i
  {
    if i == |ms| then ms
    else
      var next := if CallbackFor(Rules, ms[i].id) == FullNameCallback then FullNameRewrite(data, ms, i) else ms;
      CallbacksFrom(data, next, i + 1)
  }

  lemma {:induction false} CallbacksAfterSlot2(data: seq<Token>, ms: seq<FieldMatch>, i: nat)
    requires 2 < i <= |ms| && InBounds(data, ms)
    ensures CallbacksFrom(data, ms, i) == ms
    decreases |ms| - i
  {
    if i < |ms| {
      CallbacksAfterSlot2(data, ms, i + 1);
    }
  }

  lemma {:induction false} CallbacksUpToSlot2(data: seq<Token>, ms: seq<FieldMatch>, i: nat)
    requires i <= 2 && i <= |ms| && InBounds(data, ms)
    ensures CallbacksFrom(data, ms, i) ==
      if |ms| > 2 && ms[2].id == FullName then FullNameRewrite(data, ms, 2) else ms
    decreases |ms| - i
  {
    if i < |ms| {
      OnlyFullNameHasCallback(ms[i].id);
      if i < 2 {
        CallbacksUpToSlot2(data, ms, i + 1);
      } else if ms[2].id == FullName {
        CallbacksAfterSlot2(data, FullNameRewrite(data, ms, 2), 3);
      } else {
        CallbacksAfterSlot2(data, ms, 3);
      }
    }
  }

  /**
    The whole callback pass changes at most slot 0: it takes match 2 exactly
    when match 2 is a full-name match whose text starts with the text of match 0.
   */
  lemma {:induction false} CallbacksEffect(data: seq<Token>, ms: seq<FieldMatch>)
    requires InBounds(data, ms)
    ensures var r := CallbacksFrom(data, ms, 0);
      |r| == |ms| && (forall j :: 0 < j < |ms| ==> r[j] == ms[j]) &&
      (|ms| > 0 ==> r[0] == if |ms| > 2 && ms[2].id == FullName && MatchText(data, ms[0]) <= MatchText(data, ms[2])
                            then ms[2] else ms[0])
  {
    CallbacksUpToSlot2(data, ms, 0);
  }

  /**
    The matcher's callback pass on its result list, in place, in index order:
    the callback of each match's key runs with the list and the match's index.
   */
  method RunCallbacks(data: seq<Token>, matches: array<FieldMatch>)
    requires InBounds(data, matches[..])
    modifies matches
    ensures matches[..] == CallbacksFrom(data, old(matches[..]), 0)
  {
    var i := 0;
    while i < matches.Length
      invariant i <= matches.Length && InBounds(data, matches[..])
      invariant CallbacksFrom(data, matches[..], i) == CallbacksFrom(data, old(matches[..]), 0)
    {
      if CallbackFor(Rules, matches[i].id) == FullNameCallback {
        FullNameEvent(data, i, matches);
      }
      i := i + 1;
    }
  }

  // ---------------------------------------------------------------------------
  // The record

  /** Each match with the text the record takes for it: `self.doc[start:end]`. */
  function Hits(doc: seq<Token>, ms: seq<FieldMatch>): (hits: seq<(Field, string)>)
    ensures |hits| == |ms|
  {
    seq(|ms|, i requires 0 <= i < |ms| => (ms[i].id, Text(Slice(doc, ms[i].start, ms[i].end))))
  }

  /** The record after the first `n` rules were registered: their ids, each set to the sentinel. */
  function InitialRecord(rules: seq<Rule>, n: nat): (r: map<Field, string>)
    requires n <= |rules|
    ensures forall f :: f in r <==> exists i :: 0 <= i < n && rules[i].id == f
    ensures forall f :: f in r ==> r[f] == NullText
  {
    if n == 0 then map[] else InitialRecord(rules, n - 1)[rules[n - 1].id := NullText]
  }

  /** Registering the whole table gives every field the sentinel. */
  lemma {:induction false} AllFieldsInitialised()
    ensures forall f: Field :: f in InitialRecord(Rules, |Rules|) && InitialRecord(Rules, |Rules|)[f] == NullText
  {
    forall f: Field ensures f in InitialRecord(Rules, |Rules|) {
      var i := match f
        case FullName => 0 case Email => 1 case Address => 2
        case Phone => 3 case GithubURL => 5 case LinkedInURL => 6;
      assert Rules[i].id == f;
    }
  }

  /**
    The record after the loop over the matches handled `hits[..n]`: a field
    takes a hit's text only while it still holds the sentinel.
   */
  function RecordAfter(hits: seq<(Field, string)>, n: nat): (r: map<Field, string>)
    requires n <= |hits|
    ensures forall f: Field :: f in r
  {
    if n == 0 then
      AllFieldsInitialised();
      InitialRecord(Rules, |Rules|)
    else
      var m := RecordAfter(hits, n - 1);
      if m[hits[n - 1].0] == NullText then m[hits[n - 1].0 := hits[n - 1].1] else m
  }

  lemma {:induction false} RecordStep(hits: seq<(Field, string)>, n: nat, f: Field)
    requires n < |hits|
    ensures RecordAfter(hits, n + 1)[f] ==
      if hits[n].0 == f && RecordAfter(hits, n)[f] == NullText then hits[n].1 else RecordAfter(hits, n)[f]
  {
  }

  /** One turn of the loop over the matches, with the text as the loop slices it. */
  lemma {:induction false} RecordLoopStep(doc: seq<Token>, ms: seq<FieldMatch>, k: nat, before: map<Field, string>, after: map<Field, string>)
    requires k < |ms| && before == RecordAfter(Hits(doc, ms), k)
    requires after == if before[ms[k].id] == NullText
                      then before[ms[k].id := Text(Slice(doc, ms[k].start, ms[k].end))] else before
    ensures after == RecordAfter(Hits(doc, ms), k + 1)
  {
  }

  /** Hit `j` is the first among the first `n` for field `f` whose text is not the sentinel. */
  predicate FirstNonNull(hits: seq<(Field, string)>, n: nat, f: Field, j: nat)
    requires n <= |hits|
  {
    j < n && hits[j].0 == f && hits[j].1 != NullText &&
    forall k :: 0 <= k < j && hits[k].0 == f ==> hits[k].1 == NullText
  }

  /** Every hit among the first `n` for field `f` has the sentinel as its text (or there is none). */
  predicate AllNull(hits: seq<(Field, string)>, n: nat, f: Field)
    requires n <= |hits|
  {
    forall j :: 0 <= j < n && hits[j].0 == f ==> hits[j].1 == NullText
  }

  /**
    Each field ends with the text of its first hit whose text is not the
    sentinel itself; later hits for it are ignored, and a field without such a
    hit keeps the sentinel.
   */
  lemma {:induction false} FieldValue(hits: seq<(Field, string)>, n: nat, f: Field)
    requires n <= |hits|
    ensures AllNull(hits, n, f) ==> RecordAfter(hits, n)[f] == NullText
    ensures forall j: nat :: FirstNonNull(hits, n, f, j) ==> RecordAfter(hits, n)[f] == hits[j].1
  {
    if n == 0 {
      AllFieldsInitialised();
    } else {
      FieldValue(hits, n - 1, f);
      RecordStep(hits, n - 1, f);
      if AllNull(hits, n, f) {
        assert AllNull(hits, n - 1, f);
      }
      forall j: nat | FirstNonNull(hits, n, f, j) ensures RecordAfter(hits, n)[f] == hits[j].1 {
        if j < n - 1 {
          assert FirstNonNull(hits, n - 1, f, j);
        } else {
          assert AllNull(hits, n - 1, f);
        }
      }
    }
  }

  /** A field no match is for keeps the sentinel. */
  lemma {:induction false} UnmatchedFieldIsNull(hits: seq<(Field, string)>, f: Field)
    requires forall j :: 0 <= j < |hits| ==> hits[j].0 != f
    ensures RecordAfter(hits, |hits|)[f] == NullText
  {
    FieldValue(hits, |hits|, f);
  }

  /**
    First match wins: a field whose first match does not have the literal
    sentinel text keeps that match's text, whatever matches follow.
   */
  lemma {:induction false} FirstMatchWins(hits: seq<(Field, string)>, f: Field, j: nat)
    requires j < |hits| && hits[j].0 == f && hits[j].1 != NullText
    requires forall k :: 0 <= k < j ==> hits[k].0 != f
    ensures RecordAfter(hits, |hits|)[f] == hits[j].1
  {
    FieldValue(hits, |hits|, f);
    assert FirstNonNull(hits, |hits|, f, j);
  }

  /**
    When the re-annotated prefix has the same tokens as the start of the
    document, slicing the document with its match indices gives the matched text.
   */
  lemma {:induction false} HitsOnAgreeingDocument(doc: seq<Token>, data: seq<Token>, ms: seq<FieldMatch>)
    requires |data| <= |doc| && InBounds(data, ms)
    requires forall i :: 0 <= i < |data| ==> doc[i].text == data[i].text
    requires forall i :: 0 <= i < |data| - 1 ==> doc[i].spaceAfter == data[i].spaceAfter
    ensures forall i :: 0 <= i < |ms| ==> Hits(doc, ms)[i] == (ms[i].id, MatchText(data, ms[i]))
  {
    forall i | 0 <= i < |ms| ensures Hits(doc, ms)[i] == (ms[i].id, MatchText(data, ms[i])) {
      SliceTextOnAgreeingPrefix(doc, data, ms[i].start, ms[i].end);
    }
  }
}
