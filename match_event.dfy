/**
  The `MatchEvent` class: the token patterns of the candidate fields, kept as
  data, and the `full_name_event` callback that rewrites the match list in place.
 */
module MatchEvent {
  import opened Tokens

  /** How often a pattern token may match: exactly once, `?` or `*`. */
  datatype Op = One | Optional | ZeroOrMore

  /** A token attribute a pattern token tests. */
  datatype Attr =
    | Pos(tag: string)
    | EntType(entityType: string)
    | LikeEmail
    | LikeUrl
    | Shape(shape: string)
    | Orth(text: string)
    | OrthRegex(regex: string)
    | IsPunct
    | LemmaIn(lemmas: seq<string>)
    | LengthIs(length: nat)

  datatype TokenSpec = TokenSpec(attrs: seq<Attr>, op: Op)

  const PersonPattern: seq<TokenSpec> := [
    TokenSpec([Pos("PROPN"), EntType("PERSON")], One),
    TokenSpec([Pos("PROPN"), EntType("PERSON")], Optional),
    TokenSpec([Pos("PROPN"), EntType("PERSON")], One)]

  const EmailIdPattern: seq<TokenSpec> := [TokenSpec([LikeEmail], One)]

  const PhonePattern1: seq<TokenSpec> := [
    TokenSpec([Shape("ddd")], One), TokenSpec([Orth("-")], Optional),
    TokenSpec([Shape("ddd")], One), TokenSpec([Orth("-")], Optional),
    TokenSpec([Shape("dddd")], One)]

  const PhonePattern2: seq<TokenSpec> := [
    TokenSpec([Orth("(")], One), TokenSpec([Shape("ddd")], One), TokenSpec([Orth(")")], One),
    TokenSpec([Shape("ddd")], One), TokenSpec([Orth("-")], Optional),
    TokenSpec([Shape("dddd"), LengthIs(4)], One)]

  /** The state and territory codes the address pattern ends with. */
  const StateCodes: string :=
    "(AK|AL|AR|AZ|CA|CO|CT|DC|DE|FL|GA|GU|HI|IA|ID|IL|IN|KS|KY|LA|MA|MD|ME|MI|MN|MO|MS|MT|NC|ND|NE|NH|NJ|NM|NV|NY|OH|OK|OR|PA|RI|SC|SD|TN|TX|UT|VA|VI|VT|WA|WI|WV|WY)"

  const AddressPattern: seq<TokenSpec> := [
    TokenSpec([Pos("NUM")], One), TokenSpec([Pos("PROPN")], One),
    TokenSpec([Pos("PROPN")], ZeroOrMore), TokenSpec([IsPunct], Optional),
    TokenSpec([LemmaIn(["apt", "unit"])], Optional), TokenSpec([Pos("NUM")], One),
    TokenSpec([Orth(",")], Optional), TokenSpec([Pos("PROPN")], One),
    TokenSpec([OrthRegex(StateCodes)], One)]

  const LinkedInUrlPattern: seq<TokenSpec> := [TokenSpec([LikeUrl, OrthRegex("\\s*(linkedin.com)\\s*")], One)]

  const GitUrlPattern: seq<TokenSpec> := [TokenSpec([LikeUrl, OrthRegex("\\s*(github.com)\\s*")], One)]

  /** Names for the pattern constants above, as the rule table refers to them. */
  datatype PatternName = PersonName | EmailId | PhoneNumber1 | PhoneNumber2 | StreetAddress | LinkedInUrl | GitUrl

  function Pattern(p: PatternName): seq<TokenSpec>
  {
    match p
    case PersonName => PersonPattern
    case EmailId => EmailIdPattern
    case PhoneNumber1 => PhonePattern1
    case PhoneNumber2 => PhonePattern2
    case StreetAddress => AddressPattern
    case LinkedInUrl => LinkedInUrlPattern
    case GitUrl => GitUrlPattern
  }

  /** The text of `Span(doc, m.start, m.end)`. */
  function MatchText<K>(doc: seq<Token>, m: Match<K>): string
    requires m.start <= m.end <= |doc|
  {
    Text(doc[m.start..m.end])
  }

  /**
    The match list after `full_name_event` ran for match `i`: only when `i` is 2
    and the text of match 2 starts with the text of match 0 does match 2 replace
    match 0. The list keeps its length, every slot but 0 is untouched, and the
    text in slot 0 can only grow.
   */
  function FullNameRewrite<K>(doc: seq<Token>, ms: seq<Match<K>>, i: nat): (r: seq<Match<K>>)
    requires i < |ms| && InBounds(doc, ms)
    ensures |r| == |ms| && InBounds(doc, r)
    ensures forall j :: 0 < j < |ms| ==> r[j] == ms[j]
    ensures i == 2 && MatchText(doc, ms[0]) <= MatchText(doc, ms[2]) ==> r[0] == ms[2]
    ensures i != 2 || !(MatchText(doc, ms[0]) <= MatchText(doc, ms[2])) ==> r == ms
    ensures MatchText(doc, ms[0]) <= MatchText(doc, r[0])
  {
    if i == 2 && MatchText(doc, ms[0]) <= MatchText(doc, ms[2]) then ms[0 := ms[2]] else ms
  }

  /**
    `full_name_event(matcher, doc, i, matches)`: when `i` is 2 and the text of
    match 2 starts with the text of match 0, match 2 is copied over match 0.
   */
  method FullNameEvent<K>(doc: seq<Token>, i: nat, matches: array<Match<K>>)
    requires i < matches.Length && InBounds(doc, matches[..])
    modifies matches
    ensures matches[..] == FullNameRewrite(doc, old(matches[..]), i)
  {
    var entity := Text(doc[matches[i].start..matches[i].end]);
    if i == 2 {
      var fullName := Text(Slice(doc, matches[0].start, matches[0].end));
      if fullName <= entity {
        matches[0] := matches[i];
      }
    }
  }
}
