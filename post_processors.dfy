/**
  The per-section post-processors: `get_summary_text` collapses whitespace,
  `get_work_experience` splits entries on two blank lines.
 */
module PostProcessors {
  import opened Wrappers

  // ---------------------------------------------------------------------------
  // Whitespace

  /**
    The characters Python treats as whitespace, both for `str.strip()` and for
    the `\s` class of a `re` pattern on `str`.
   */
  predicate IsSpace(c: char)
  {
    c == ' ' || '\t' <= c <= '\r' || '\U{1C}' <= c <= '\U{1F}' || c == '\U{85}' || c == '\U{A0}' ||
    c == '\U{1680}' || '\U{2000}' <= c <= '\U{200A}' || c == '\U{2028}' || c == '\U{2029}' ||
    c == '\U{202F}' || c == '\U{205F}' || c == '\U{3000}'
  }

  /** The non-whitespace characters of `s`, in order. */
  function NonSpace(s: string): string
  {
    if |s| == 0 then "" else (if IsSpace(s[0]) then "" else [s[0]]) + NonSpace(s[1..])
  }

  /** Every whitespace character is a plain space and is followed by a non-space. */
  predicate SingleSpaced(s: string)
  {
    forall i :: 0 <= i < |s| && IsSpace(s[i]) ==> s[i] == ' ' && (i + 1 < |s| ==> !IsSpace(s[i + 1]))
  }

  /** No leading or trailing whitespace. */
  predicate Trimmed(s: string)
  {
    |s| == 0 || (!IsSpace(s[0]) && !IsSpace(s[|s| - 1]))
  }

  /** `s.lstrip()`: `s` without its leading whitespace. */
  function LStrip(s: string): (r: string)
    ensures |r| <= |s| && r == s[|s| - |r|..]
    ensures forall i :: 0 <= i < |s| - |r| ==> IsSpace(s[i])
    ensures |r| > 0 ==> !IsSpace(r[0])
  {
    if |s| > 0 && IsSpace(s[0]) then LStrip(s[1..]) else s
  }

  /** `s.rstrip()`: `s` without its trailing whitespace. */
  function RStrip(s: string): (r: string)
    ensures |r| <= |s| && r == s[..|r|]
    ensures forall i :: |r| <= i < |s| ==> IsSpace(s[i])
    ensures |r| > 0 ==> !IsSpace(r[|r| - 1])
  {
    if |s| > 0 && IsSpace(s[|s| - 1]) then RStrip(s[..|s| - 1]) else s
  }

  /** `s.strip()`. */
  function Strip(s: string): (r: string)
    ensures Trimmed(r)
    ensures exists a, b :: 0 <= a <= b <= |s| && r == s[a..b]
  {
    var l := LStrip(s);
    var r := RStrip(l);
    assert r == s[|s| - |l|..|s| - |l| + |r|];
    r
  }

  /**
    `re.sub(r"\s+", " ", s)`: every maximal run of whitespace becomes a single
    space; the first character is kept, or becomes a space if it was whitespace.
   */
  function CollapseSpaces(s: string): (r: string)
    ensures |r| == 0 <==> |s| == 0
    ensures |s| > 0 ==> r[0] == if IsSpace(s[0]) then ' ' else s[0]
    ensures SingleSpaced(r)
    decreases |s|
  {
    if |s| == 0 then ""
    else if IsSpace(s[0]) then " " + CollapseSpaces(LStrip(s))
    else [s[0]] + CollapseSpaces(s[1..])
  }

  /** `re.sub(r"\s+", " ", s).strip()`: the words of `s`, one space between each two. */
  function Summary(s: string): (r: string)
    ensures r == Unwords(Words(s))
  {
    SummaryWords(s);
    Strip(CollapseSpaces(s))
  }

  // ---------------------------------------------------------------------------
  // Words: an independent reference for the summary

  /** The leading run of non-whitespace characters of `s`. */
  function LeadingWord(s: string): (w: string)
    ensures w <= s
    ensures forall i :: 0 <= i < |w| ==> !IsSpace(w[i])
    ensures |w| < |s| ==> IsSpace(s[|w|])
    decreases |s|
  {
    if |s| == 0 || IsSpace(s[0]) then "" else [s[0]] + LeadingWord(s[1..])
  }

  /** `s.split()`: the maximal runs of non-whitespace characters, left to right. */
  function Words(s: string): (ws: seq<string>)
    ensures forall k :: 0 <= k < |ws| ==> ws[k] != "" && forall i :: 0 <= i < |ws[k]| ==> !IsSpace(ws[k][i])
    decreases |s|
  {
    if |s| == 0 then []
    else if IsSpace(s[0]) then Words(s[1..])
    else
      var w := LeadingWord(s);
      [w] + Words(s[|w|..])
  }

  /** `" ".join(ws)`. */
  function Unwords(ws: seq<string>): string
  {
    if |ws| == 0 then "" else Join(ws, " ")
  }

  /** A single space if `s` starts with whitespace. */
  function Lead(s: string): string
  {
    if |s| > 0 && IsSpace(s[0]) then " " else ""
  }

  /** A single space if `s` ends with whitespace. */
  function Trail(s: string): string
  {
    if |s| > 0 && IsSpace(s[|s| - 1]) then " " else ""
  }

  lemma {:induction false} JoinCons(w: string, ws: seq<string>, sep: string)
    requires |ws| >= 1
    ensures Join([w] + ws, sep) == w + sep + Join(ws, sep)
  {
    assert ([w] + ws)[1..] == ws;
  }

  /** Regroups a + (b + c) as (a + b) + c. */
  lemma Regroup3(a: string, b: string, c: string)
    ensures a + (b + c) == (a + b) + c
  {
  }

  /** Regroups a + ((b + c) + d) as ((a + b) + c) + d. */
  lemma Regroup4(a: string, b: string, c: string, d: string)
    ensures a + ((b + c) + d) == ((a + b) + c) + d
  {
  }

  /** Regroups a + (b + (c + d)) as (a + b + c) + d. */
  lemma Regroup(a: string, b: string, c: string, d: string)
    ensures a + (b + (c + d)) == (a + b + c) + d
  {
  }

  /** Leading whitespace holds no word. */
  lemma {:induction false} WordsSkipSpace(s: string)
    ensures Words(LStrip(s)) == Words(s)
    decreases |s|
  {
    if |s| > 0 && IsSpace(s[0]) {
      WordsSkipSpace(s[1..]);
    }
  }

  /** The collapse copies a leading word unchanged. */
  lemma {:induction false} CollapseWord(t: string)
    ensures CollapseSpaces(t) == LeadingWord(t) + CollapseSpaces(t[|LeadingWord(t)|..])
    decreases |t|
  {
    if |t| > 0 && !IsSpace(t[0]) {
      var w1 := LeadingWord(t[1..]);
      var after := t[1..][|w1|..];
      CollapseWord(t[1..]);
      assert LeadingWord(t) == [t[0]] + w1;
      assert after == t[|LeadingWord(t)|..];
      calc {
        CollapseSpaces(t);
        [t[0]] + CollapseSpaces(t[1..]);
        [t[0]] + (w1 + CollapseSpaces(after));
        { Regroup3([t[0]], w1, CollapseSpaces(after)); }
        ([t[0]] + w1) + CollapseSpaces(after);
      }
    } else {
      assert t[0..] == t;
    }
  }

  /** A leading word that runs to the end of `t`. */
  lemma {:induction false} CollapseLastWord(t: string)
    requires |t| > 0 && !IsSpace(t[0]) && |LeadingWord(t)| == |t|
    ensures CollapseSpaces(t) == Unwords(Words(t)) + Trail(t)
  {
    var w := LeadingWord(t);
    CollapseWord(t);
    assert t == w && t[|w|..] == "";
    assert Words(t) == [w];
    assert Trail(t) == "" by {
      assert t[|t| - 1] == w[|w| - 1];
    }
  }

  /** A leading word followed by whitespace only. */
  lemma {:induction false} CollapseWordThenSpaces(t: string)
    requires |t| > 0 && !IsSpace(t[0])
    requires var rest := t[|LeadingWord(t)|..]; |rest| > 0 && LStrip(rest) == ""
    ensures CollapseSpaces(t) == Unwords(Words(t)) + Trail(t)
  {
    var w := LeadingWord(t);
    var rest := t[|w|..];
    CollapseWord(t);
    WordsSkipSpace(rest);
    assert Words(rest) == [];
    assert Words(t) == [w];
    assert CollapseSpaces(rest) == " ";
    assert IsSpace(rest[|rest| - 1]);
    assert Trail(t) == " ";
  }

  /** A leading word, whitespace, then more words: one step of `CollapseWords`. */
  lemma {:induction false} CollapseWordThenMore(t: string, u: string)
    requires |t| > 0 && !IsSpace(t[0])
    requires var rest := t[|LeadingWord(t)|..]; |rest| > 0 && u == LStrip(rest) && |u| > 0
    requires CollapseSpaces(u) == Unwords(Words(u)) + Trail(u) && Words(u) != []
    ensures CollapseSpaces(t) == Unwords(Words(t)) + Trail(t)
  {
    var w := LeadingWord(t);
    var rest := t[|w|..];
    CollapseWord(t);
    WordsSkipSpace(rest);
    var cu, wu := CollapseSpaces(u), Words(u);
    assert CollapseSpaces(rest) == " " + cu;
    assert Words(t) == [w] + wu;
    assert Trail(u) == Trail(t) by {
      assert u[|u| - 1] == t[|t| - 1];
    }
    JoinCons(w, wu, " ");
    var tail := Trail(t);
    calc {
      CollapseSpaces(t);
      w + CollapseSpaces(rest);
      w + (" " + (Join(wu, " ") + tail));
      { Regroup(w, " ", Join(wu, " "), tail); }
      (w + " " + Join(wu, " ")) + tail;
      Join([w] + wu, " ") + tail;
      Unwords(Words(t)) + tail;
    }
  }

  lemma {:induction false} CollapseWords(t: string)
    requires |t| == 0 || !IsSpace(t[0])
    ensures CollapseSpaces(t) == Unwords(Words(t)) + Trail(t)
    ensures Words(t) == [] <==> |t| == 0
    decreases |t|
  {
    if |t| > 0 {
      var rest := t[|LeadingWord(t)|..];
      if |rest| == 0 {
        CollapseLastWord(t);
      } else if LStrip(rest) == "" {
        CollapseWordThenSpaces(t);
      } else {
        var u := LStrip(rest);
        CollapseWords(u);
        CollapseWordThenMore(t, u);
      }
    }
  }

  /** Text that starts with whitespace collapses to one space before the rest. */
  lemma {:induction false} CollapseFromSpace(s: string)
    requires |s| > 0 && IsSpace(s[0])
    ensures Words(s) == [] ==> CollapseSpaces(s) == " "
    ensures Words(s) != [] ==> CollapseSpaces(s) == Lead(s) + Unwords(Words(s)) + Trail(s)
  {
    var t := LStrip(s);
    WordsSkipSpace(s);
    CollapseWords(t);
    var c := CollapseSpaces(t);
    assert CollapseSpaces(s) == " " + c;
    if |t| > 0 {
      assert t[|t| - 1] == s[|s| - 1];
      assert Trail(t) == Trail(s);
      var u := Unwords(Words(s));
      assert c == u + Trail(s);
      Regroup3(" ", u, Trail(s));
    }
  }

  /**
    `re.sub(r"\s+", " ", s)` in full: with no word the result is one space or
    nothing; otherwise the words joined by single spaces, with one space
    in front and one behind where `s` starts or ends with whitespace.
   */
  lemma {:induction false} CollapseSpacesWords(s: string)
    ensures Words(s) == [] ==> CollapseSpaces(s) == if |s| == 0 then "" else " "
    ensures Words(s) != [] ==> CollapseSpaces(s) == Lead(s) + Unwords(Words(s)) + Trail(s)
  {
    if |s| > 0 && IsSpace(s[0]) {
      CollapseFromSpace(s);
    } else {
      CollapseWords(s);
      assert Lead(s) == "";
      assert "" + Unwords(Words(s)) == Unwords(Words(s));
    }
  }

  lemma {:induction false} UnwordsTrimmed(ws: seq<string>)
    requires forall k :: 0 <= k < |ws| ==> ws[k] != "" && forall i :: 0 <= i < |ws[k]| ==> !IsSpace(ws[k][i])
    ensures Trimmed(Unwords(ws))
    ensures |ws| > 0 ==> |Unwords(ws)| > 0
  {
    if |ws| > 1 {
      UnwordsTrimmed(ws[1..]);
      assert ws[0][0] == Unwords(ws)[0];
    }
  }

  lemma {:induction false} LStripSpacesBefore(a: string, y: string)
    requires forall i :: 0 <= i < |a| ==> IsSpace(a[i])
    requires |y| == 0 || !IsSpace(y[0])
    ensures LStrip(a + y) == y
  {
    if |a| > 0 {
      assert (a + y)[1..] == a[1..] + y;
      LStripSpacesBefore(a[1..], y);
    } else {
      assert a + y == y;
    }
  }

  lemma {:induction false} RStripSpacesAfter(y: string, b: string)
    requires forall i :: 0 <= i < |b| ==> IsSpace(b[i])
    requires |y| == 0 || !IsSpace(y[|y| - 1])
    ensures RStrip(y + b) == y
  {
    if |b| > 0 {
      assert (y + b)[..|y + b| - 1] == y + b[..|b| - 1];
      RStripSpacesAfter(y, b[..|b| - 1]);
    } else {
      assert y + b == y;
    }
  }

  lemma {:induction false} StripAround(a: string, x: string, b: string)
    requires forall i :: 0 <= i < |a| ==> IsSpace(a[i])
    requires forall i :: 0 <= i < |b| ==> IsSpace(b[i])
    requires |x| > 0 && Trimmed(x)
    ensures Strip(a + x + b) == x
  {
    assert a + x + b == a + (x + b);
    LStripSpacesBefore(a, x + b);
    RStripSpacesAfter(x, b);
  }

  lemma {:induction false} SpaceOrEmpty(a: string)
    requires a == " " || a == ""
    ensures forall i :: 0 <= i < |a| ==> IsSpace(a[i])
  {
  }

  lemma {:induction false} StripCollapsedWords(s: string)
    requires Words(s) != []
    requires CollapseSpaces(s) == Lead(s) + Unwords(Words(s)) + Trail(s)
    ensures Strip(CollapseSpaces(s)) == Unwords(Words(s))
  {
    var a, x, b := Lead(s), Unwords(Words(s)), Trail(s);
    UnwordsTrimmed(Words(s));
    SpaceOrEmpty(a);
    SpaceOrEmpty(b);
    StripAround(a, x, b);
  }

  /** Stripping the collapsed text leaves the words joined by single spaces. */
  lemma {:induction false} SummaryWords(s: string)
    ensures Strip(CollapseSpaces(s)) == Unwords(Words(s))
  {
    CollapseSpacesWords(s);
    if Words(s) != [] {
      StripCollapsedWords(s);
    }
  }

  lemma {:induction false} NonSpaceAppend(a: string, b: string)
    ensures NonSpace(a + b) == NonSpace(a) + NonSpace(b)
  {
    if |a| > 0 {
      NonSpaceAppend(a[1..], b);
      assert (a + b)[1..] == a[1..] + b;
    } else {
      assert a + b == b;
    }
  }

  lemma {:induction false} NonSpaceOfSpaces(s: string)
    requires forall i :: 0 <= i < |s| ==> IsSpace(s[i])
    ensures NonSpace(s) == ""
  {
    if |s| > 0 {
      NonSpaceOfSpaces(s[1..]);
    }
  }

  /** Leading whitespace does not count. */
  lemma {:induction false} NonSpaceDropFront(s: string, a: nat)
    requires a <= |s|
    requires forall i :: 0 <= i < a ==> IsSpace(s[i])
    ensures NonSpace(s[a..]) == NonSpace(s)
  {
    assert s == s[..a] + s[a..];
    NonSpaceAppend(s[..a], s[a..]);
    NonSpaceOfSpaces(s[..a]);
  }

  /** Trailing whitespace does not count. */
  lemma {:induction false} NonSpaceDropBack(s: string, b: nat)
    requires b <= |s|
    requires forall i :: b <= i < |s| ==> IsSpace(s[i])
    ensures NonSpace(s[..b]) == NonSpace(s)
  {
    assert s == s[..b] + s[b..];
    NonSpaceAppend(s[..b], s[b..]);
    NonSpaceOfSpaces(s[b..]);
  }

  /** Stripping removes whitespace only. */
  lemma {:induction false} StripKeepsNonSpace(s: string)
    ensures NonSpace(LStrip(s)) == NonSpace(s)
    ensures NonSpace(Strip(s)) == NonSpace(s)
  {
    var l := LStrip(s);
    NonSpaceDropFront(s, |s| - |l|);
    NonSpaceDropBack(l, |RStrip(l)|);
  }

  /** Collapsing whitespace runs keeps every other character, in order. */
  lemma {:induction false} CollapseKeepsNonSpace(s: string)
    ensures NonSpace(CollapseSpaces(s)) == NonSpace(s)
    decreases |s|
  {
    if |s| > 0 {
      if IsSpace(s[0]) {
        var l := LStrip(s);
        CollapseKeepsNonSpace(l);
        StripKeepsNonSpace(s);
        NonSpaceAppend(" ", CollapseSpaces(l));
      } else {
        CollapseKeepsNonSpace(s[1..]);
        NonSpaceAppend([s[0]], CollapseSpaces(s[1..]));
      }
    }
  }

  lemma {:induction false} SingleSpacedSlice(s: string, a: nat, b: nat)
    requires a <= b <= |s| && SingleSpaced(s)
    ensures SingleSpaced(s[a..b])
  {
    var t := s[a..b];
    forall i | 0 <= i < |t| && IsSpace(t[i])
      ensures t[i] == ' ' && (i + 1 < |t| ==> !IsSpace(t[i + 1]))
    {
      assert t[i] == s[a + i];
    }
  }

  /**
    The summary has no leading or trailing whitespace, its only whitespace is
    single spaces, and its other characters are the input's, in order.
   */
  lemma {:induction false} SummaryNormalizes(s: string)
    ensures var r := Summary(s);
      Trimmed(r) && SingleSpaced(r) && NonSpace(r) == NonSpace(s)
  {
    var c := CollapseSpaces(s);
    var a, b :| 0 <= a <= b <= |c| && Strip(c) == c[a..b];
    SingleSpacedSlice(c, a, b);
    StripKeepsNonSpace(c);
    CollapseKeepsNonSpace(s);
  }

  /** Text that is already single-spaced is left alone by the collapse. */
  lemma {:induction false} CollapseSingleSpaced(s: string)
    requires SingleSpaced(s)
    ensures CollapseSpaces(s) == s
    decreases |s|
  {
    if |s| > 0 {
      SingleSpacedSlice(s, 1, |s|);
      CollapseSingleSpaced(s[1..]);
      var c := s[0];
      var tail := s[1..];
      assert s == [c] + tail;
      if IsSpace(c) {
        assert c == ' ' && (|tail| == 0 || !IsSpace(tail[0]));
        assert LStrip(s) == tail by {
          assert LStrip(tail) == tail;
        }
      }
    }
  }

  lemma {:induction false} StripTrimmed(s: string)
    requires Trimmed(s)
    ensures Strip(s) == s
  {
  }

  /** Normalizing a summary twice gives the same text as normalizing it once. */
  lemma {:induction false} SummaryIdempotent(s: string)
    ensures Summary(Summary(s)) == Summary(s)
  {
    var r := Summary(s);
    SummaryNormalizes(s);
    CollapseSingleSpaced(r);
    StripTrimmed(r);
  }

  /** `get_summary_text` once the value is looked up: `None` stays `None`. */
  function SummaryOf(data: Option<string>): (r: Option<string>)
    ensures r.None? <==> data.None?
    ensures data.Some? ==>
      r.value == Unwords(Words(data.value)) &&
      Trimmed(r.value) && SingleSpaced(r.value) && NonSpace(r.value) == NonSpace(data.value)
  {
    match data
    case None => None
    case Some(s) => SummaryNormalizes(s); Some(Summary(s))
  }

  // ---------------------------------------------------------------------------
  // Work experience

  /** Two blank lines: the separator between work-experience entries. */
  const Separator: string := "\n\n\n"

  /** `sep` occurs in `s` at index `i`. */
  predicate OccursAt(s: string, sep: string, i: nat)
  {
    i + |sep| <= |s| && s[i..i + |sep|] == sep
  }

  /** `sep` occurs somewhere in `s`. */
  predicate Contains(s: string, sep: string)
  {
    exists i: nat :: i <= |s| && OccursAt(s, sep, i)
  }

  /** `s.split(sep)`: the pieces between the occurrences of `sep`, found left to right. */
  function Split(s: string, sep: string): (pieces: seq<string>)
    requires |sep| > 0
    ensures |pieces| >= 1 && pieces[0] <= s
    decreases |s|
  {
    if |s| < |sep| then [s]
    else if s[..|sep|] == sep then [""] + Split(s[|sep|..], sep)
    else
      var rest := Split(s[1..], sep);
      [[s[0]] + rest[0]] + rest[1..]
  }

  /**
    `sep.join(pieces)`: it starts with the first piece, followed by the
    separator when there is more than one piece.
   */
  function Join(pieces: seq<string>, sep: string): (r: string)
    requires |pieces| >= 1
    ensures pieces[0] <= r
    ensures |pieces| > 1 ==> OccursAt(r, sep, |pieces[0]|)
  {
    if |pieces| == 1 then pieces[0]
    else
      var rest := Join(pieces[1..], sep);
      assert (pieces[0] + sep + rest)[|pieces[0]|..|pieces[0]| + |sep|] == sep;
      pieces[0] + sep + rest
  }

  lemma {:induction false} JoinConsFirst(c: char, pieces: seq<string>, sep: string)
    requires |pieces| >= 1
    ensures Join([[c] + pieces[0]] + pieces[1..], sep) == [c] + Join(pieces, sep)
  {
    var p := [[c] + pieces[0]] + pieces[1..];
    if |pieces| > 1 {
      assert p[1..] == pieces[1..];
      Regroup4([c], pieces[0], sep, Join(pieces[1..], sep));
    }
  }

  lemma {:induction false} SplitJoinAtSeparator(s: string, sep: string)
    requires 0 < |sep| <= |s| && s[..|sep|] == sep
    requires Join(Split(s[|sep|..], sep), sep) == s[|sep|..]
    ensures Join(Split(s, sep), sep) == s
  {
    var rest := Split(s[|sep|..], sep);
    assert ([""] + rest)[1..] == rest;
    assert s == sep + s[|sep|..];
  }

  lemma {:induction false} SplitJoinOtherChar(s: string, sep: string)
    requires 0 < |sep| <= |s| && s[..|sep|] != sep
    requires Join(Split(s[1..], sep), sep) == s[1..]
    ensures Join(Split(s, sep), sep) == s
  {
    JoinConsFirst(s[0], Split(s[1..], sep), sep);
    assert s == [s[0]] + s[1..];
  }

  /** Joining the pieces with the separator gives back the text: nothing is lost. */
  lemma {:induction false} SplitJoin(s: string, sep: string)
    requires |sep| > 0
    ensures Join(Split(s, sep), sep) == s
    decreases |s|
  {
    if |s| < |sep| {
    } else if s[..|sep|] == sep {
      SplitJoin(s[|sep|..], sep);
      SplitJoinAtSeparator(s, sep);
    } else {
      SplitJoin(s[1..], sep);
      SplitJoinOtherChar(s, sep);
    }
  }

  lemma {:induction false} ContainsShift(c: char, p: string, sep: string)
    requires |sep| > 0 && !Contains(p, sep)
    requires |[c] + p| >= |sep| ==> ([c] + p)[..|sep|] != sep
    ensures !Contains([c] + p, sep)
  {
    var q := [c] + p;
    if Contains(q, sep) {
      var i: nat :| i <= |q| && OccursAt(q, sep, i);
      if i > 0 {
        assert p[i - 1..i - 1 + |sep|] == q[i..i + |sep|];
        assert i - 1 <= |p| && OccursAt(p, sep, i - 1);
      }
    }
  }

  /** No piece of the split contains the separator. */
  lemma {:induction false} SplitPiecesFree(s: string, sep: string)
    requires |sep| > 0
    ensures forall p :: p in Split(s, sep) ==> !Contains(p, sep)
    decreases |s|
  {
    if |s| < |sep| {
      assert !Contains(s, sep);
    } else if s[..|sep|] == sep {
      SplitPiecesFree(s[|sep|..], sep);
      assert !Contains("", sep);
    } else {
      SplitPiecesFree(s[1..], sep);
      var rest := Split(s[1..], sep);
      assert rest[0] in rest;
      var first := [s[0]] + rest[0];
      assert first <= s;
      if |first| >= |sep| {
        assert first[..|sep|] == s[..|sep|];
      }
      ContainsShift(s[0], rest[0], sep);
      forall p | p in [first] + rest[1..] ensures !Contains(p, sep) {
        if p != first {
          assert p in rest;
        }
      }
    }
  }

  /**
    A cut after `piece` is at the leftmost occurrence of `sep`: no occurrence
    starts inside `piece`, not even one that runs on into the separator after it.
   */
  predicate CutIsLeftmost(piece: string, sep: string)
    requires |sep| > 0
  {
    !Contains(piece + sep[..|sep| - 1], sep)
  }

  /** Each cut of the split is made at the leftmost occurrence of the separator. */
  lemma {:induction false} SplitLeftmost(s: string, sep: string)
    requires |sep| > 0
    ensures forall k :: 0 <= k < |Split(s, sep)| - 1 ==> CutIsLeftmost(Split(s, sep)[k], sep)
    decreases |s|
  {
    var pieces := Split(s, sep);
    if |s| < |sep| {
    } else if s[..|sep|] == sep {
      var rest := Split(s[|sep|..], sep);
      SplitLeftmost(s[|sep|..], sep);
      assert pieces == [""] + rest;
      assert CutIsLeftmost(pieces[0], sep);
      forall k | 1 <= k < |pieces| - 1 ensures CutIsLeftmost(pieces[k], sep) {
        assert pieces[k] == rest[k - 1];
      }
    } else {
      var rest := Split(s[1..], sep);
      SplitLeftmost(s[1..], sep);
      assert pieces == [[s[0]] + rest[0]] + rest[1..];
      forall k | 1 <= k < |pieces| - 1 ensures CutIsLeftmost(pieces[k], sep) {
        assert pieces[k] == rest[k];
      }
      if |rest| > 1 {
        LeftmostFirstPiece(s, sep);
      }
    }
  }

  lemma {:induction false} PrefixThroughSeparator(j: string, a: string, sep: string)
    requires |sep| > 0 && a <= j && OccursAt(j, sep, |a|)
    ensures a + sep[..|sep| - 1] <= j
  {
    var p := a + sep[..|sep| - 1];
    forall i | 0 <= i < |p| ensures p[i] == j[i] {
      if i >= |a| {
        assert j[i] == j[|a|..|a| + |sep|][i - |a|];
      }
    }
  }

  /** Putting a character in front of a piece keeps its cut leftmost, unless the separator starts there. */
  lemma {:induction false} ExtendCutLeftmost(c: char, piece: string, j: string, sep: string)
    requires |sep| > 0 && piece <= j && OccursAt(j, sep, |piece|)
    requires ([c] + j)[..|sep|] != sep
    requires CutIsLeftmost(piece, sep)
    ensures CutIsLeftmost([c] + piece, sep)
  {
    var p := piece + sep[..|sep| - 1];
    PrefixThroughSeparator(j, piece, sep);
    assert [c] + p <= [c] + j;
    ContainsShift(c, p, sep);
    assert [c] + piece + sep[..|sep| - 1] == [c] + p;
  }

  /** The step of `SplitLeftmost` that extends the first piece by one character. */
  lemma {:induction false} LeftmostFirstPiece(s: string, sep: string)
    requires 0 < |sep| <= |s| && s[..|sep|] != sep
    requires var rest := Split(s[1..], sep);
      |rest| > 1 && CutIsLeftmost(rest[0], sep)
    ensures CutIsLeftmost(Split(s, sep)[0], sep)
  {
    var c, j := s[0], s[1..];
    var rest := Split(j, sep);
    SplitJoin(j, sep);
    assert ([c] + j)[..|sep|] != sep by {
      assert [c] + j == s;
    }
    ExtendCutLeftmost(c, rest[0], j, sep);
    assert Split(s, sep)[0] == [c] + rest[0];
  }

  /** `a` is `b` with some elements left out. */
  predicate IsSubsequence(a: seq<string>, b: seq<string>)
    decreases |b|
  {
    if |a| == 0 then true
    else if |b| == 0 then false
    else (a[0] == b[0] && IsSubsequence(a[1..], b[1..])) || IsSubsequence(a, b[1..])
  }

  /**
    `list(filter(None, pieces))`: the pieces in order, without the empty ones;
    every other piece is kept as often as it occurs.
   */
  function NonEmptyPieces(pieces: seq<string>): (r: seq<string>)
    ensures IsSubsequence(r, pieces)
    ensures forall e :: e in r ==> e != "" && e in pieces
    ensures forall p :: p != "" ==> multiset(r)[p] == multiset(pieces)[p]
  {
    if |pieces| == 0 then []
    else
      assert pieces == [pieces[0]] + pieces[1..];
      var rest := NonEmptyPieces(pieces[1..]);
      if pieces[0] == "" then rest
      else
        assert ([pieces[0]] + rest)[1..] == rest;
        [pieces[0]] + rest
  }

  /**
    The entries `get_work_experience` lists for a section text: the non-empty
    pieces of the split on two blank lines, in order and with their
    multiplicities; none contains the separator.
   */
  function WorkEntries(s: string): (r: seq<string>)
    ensures IsSubsequence(r, Split(s, Separator))
    ensures forall e :: e in r ==> e != "" && !Contains(e, Separator)
    ensures forall p :: p != "" ==> multiset(r)[p] == multiset(Split(s, Separator))[p]
  {
    SplitPiecesFree(s, Separator);
    NonEmptyPieces(Split(s, Separator))
  }

  /**
    `get_work_experience` once the value is looked up: a `None` value passes
    the conditional but then cannot be enumerated.
   */
  function WorkExperienceOf(data: Option<string>): (r: Result<seq<string>>)
    ensures data.None? <==> r == Err(TypeError)
    ensures data.Some? ==> r.Ok? && forall e :: e in r.value ==> e != "" && !Contains(e, Separator)
    ensures data.Some? ==> r == Ok(WorkEntries(data.value))
  {
    match data
    case None => Err(TypeError)
    case Some(s) => Ok(WorkEntries(s))
  }
}
