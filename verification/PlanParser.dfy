/** parseStructuredStickerPlan (src/services/geminiService.ts lines 767-786): the
    plan text is split into lines, blank lines are dropped, and every
    trimmed line that matches

        ^\d+[\.,]\s*(.+?)\s*\((.+?)\)\s*\((.+?)\)$

    gives one sticker idea made of its three trimmed groups.

    The match is modelled by the way an ECMA-262 backtracking matcher
    explores the pattern. `\d+` followed by `[\.,]`, and every `\s*` that is
    followed by a literal `(`, can only succeed with their longest run (a
    shorter run leaves a digit or a white-space character where the next
    token needs something else), so those runs are fixed. The remaining
    choices are the length j of the first `\s*` (greedy: tried from longest
    to shortest), the end e1 of the lazy first group and the end e2 of the
    lazy second group (both tried from shortest to longest); the third
    group must run to the `)` at the very end of the line. */
module PlanParser {
  import opened Wrappers
  import opened JsText

  datatype StickerIdea = StickerIdea(text: string, emotionPromptCN: string, emotionPrompt: string)

  /** Length of the run of ASCII digits (`\d`) that starts s. */
  function DigitRun(s: string): (n: nat)
    ensures n <= |s| && (forall i :: 0 <= i < n ==> IsDigit(s[i])) && (n < |s| ==> !IsDigit(s[n]))
  {
    if s == [] || !IsDigit(s[0]) then 0 else 1 + DigitRun(s[1..])
  }

  /** Length of the run of `\s` characters starting at position k. */
  function WhiteRunAt(s: string, k: nat): nat
    requires k <= |s|
  {
    FirstNonWhite(s[k..])
  }

  /** No line terminator in s[a..b]: the characters `.` may match. */
  predicate Dots(s: string, a: nat, b: nat)
    requires a <= b <= |s|
  {
    forall i :: a <= i < b ==> !IsLineTerminator(s[i])
  }

  /** `^\d+[\.,]` matches. */
  predicate HeadOk(s: string) {
    var d := DigitRun(s);
    0 < d < |s| && (s[d] == '.' || s[d] == ',')
  }

  /** Where the first `\s*` starts. */
  function BodyStart(s: string): (p: nat)
    requires HeadOk(s)
    ensures p <= |s|
  {
    DigitRun(s) + 1
  }

  /** The whole pattern matches s with the first `\s*` taking j characters
      (any number up to the white run after the head), the first group
      ending at e1 and the second group ending at e2. */
  predicate Parts(s: string, j: nat, e1: nat, e2: nat) {
    HeadOk(s) &&
    var b1 := BodyStart(s) + j;
    j <= WhiteRunAt(s, BodyStart(s)) &&
    b1 < e1 <= |s| && Dots(s, b1, e1) &&
    var o2 := e1 + WhiteRunAt(s, e1);
    o2 < |s| && s[o2] == '(' &&
    o2 + 1 < e2 < |s| && Dots(s, o2 + 1, e2) && s[e2] == ')' &&
    var o3 := e2 + 1 + WhiteRunAt(s, e2 + 1);
    o3 < |s| && s[o3] == '(' &&
    o3 + 1 < |s| - 1 && Dots(s, o3 + 1, |s| - 1) && s[|s| - 1] == ')'
  }

  /** The matcher tries the choice x before the choice y. */
  predicate TriedBefore(x: (nat, nat, nat), y: (nat, nat, nat)) {
    x.0 > y.0 || (x.0 == y.0 && (x.1 < y.1 || (x.1 == y.1 && x.2 < y.2)))
  }

  // The backtracking order, for any test P of a choice (j, e1, e2), with the
  // group ends below the bound n.

  /** The first end of the second group in [e2, n) that completes a match. */
  function SearchSecond(P: (nat, nat, nat) -> bool, n: nat, j: nat, e1: nat, e2: nat): (r: Option<nat>)
    ensures r.Some? ==> e2 <= r.value < n && P(j, e1, r.value) &&
                        forall k: nat :: e2 <= k < r.value ==> !P(j, e1, k)
    ensures r.None? ==> forall k: nat :: e2 <= k < n ==> !P(j, e1, k)
    decreases n - e2
  {
    if e2 >= n then None
    else if P(j, e1, e2) then Some(e2)
    else SearchSecond(P, n, j, e1, e2 + 1)
  }

  /** The first end of the first group in [e1, n] for which some end of the
      second group completes a match, with that end. */
  function SearchFirst(P: (nat, nat, nat) -> bool, n: nat, j: nat, e1: nat): (r: Option<(nat, nat)>)
    ensures r.Some? ==> e1 <= r.value.0 <= n && r.value.1 < n && P(j, r.value.0, r.value.1) &&
                        (forall a: nat, b: nat :: e1 <= a < r.value.0 && b < n ==> !P(j, a, b)) &&
                        (forall b: nat :: b < r.value.1 ==> !P(j, r.value.0, b))
    ensures r.None? ==> forall a: nat, b: nat :: e1 <= a <= n && b < n ==> !P(j, a, b)
    decreases n + 1 - e1
  {
    if e1 > n then None
    else
      match SearchSecond(P, n, j, e1, 0)
      case Some(e2) => Some((e1, e2))
      case None => SearchFirst(P, n, j, e1 + 1)
  }

  /** The first choice found when the first `\s*` is given j characters,
      then j - 1, and so on down to none. */
  function SearchWhite(P: (nat, nat, nat) -> bool, n: nat, j: nat): (r: Option<(nat, nat, nat)>)
    ensures r.Some? ==> r.value.0 <= j && r.value.1 <= n && r.value.2 < n && P(r.value.0, r.value.1, r.value.2) &&
                        forall j': nat, a: nat, b: nat :: j' <= j && a <= n && b < n && P(j', a, b) ==> !TriedBefore((j', a, b), r.value)
    ensures r.None? ==> forall j': nat, a: nat, b: nat :: j' <= j && a <= n && b < n ==> !P(j', a, b)
  {
    match SearchFirst(P, n, j, 0)
    case Some((e1, e2)) => Some((j, e1, e2))
    case None => if j == 0 then None else SearchWhite(P, n, j - 1)
  }

  /** Parts for the line s, as a test of a choice. */
  function PartsOf(s: string): (nat, nat, nat) -> bool {
    (j: nat, a: nat, b: nat) => Parts(s, j, a, b)
  }

  /** The bounds every match keeps to. */
  lemma PartsBounds(s: string)
    requires HeadOk(s)
    ensures forall j: nat, a: nat, b: nat :: Parts(s, j, a, b) ==>
              j <= WhiteRunAt(s, BodyStart(s)) && a <= |s| && b < |s| && PartsOf(s)(j, a, b)
  {
  }

  /** A choice the search finds is a match tried before every other match. */
  lemma SearchFindsFirst(s: string)
    requires HeadOk(s)
    ensures var r := SearchWhite(PartsOf(s), |s|, WhiteRunAt(s, BodyStart(s)));
            r.Some? ==> Parts(s, r.value.0, r.value.1, r.value.2) &&
                        forall j: nat, a: nat, b: nat :: Parts(s, j, a, b) ==> !TriedBefore((j, a, b), r.value)
  {
    PartsBounds(s);
    var r := SearchWhite(PartsOf(s), |s|, WhiteRunAt(s, BodyStart(s)));
    if r.Some? {
      assert PartsOf(s)(r.value.0, r.value.1, r.value.2);
    }
  }

  /** The search finds nothing only when nothing matches. */
  lemma SearchMissesNothing(s: string)
    requires HeadOk(s)
    ensures SearchWhite(PartsOf(s), |s|, WhiteRunAt(s, BodyStart(s))).None? <==>
            forall j: nat, a: nat, b: nat :: !Parts(s, j, a, b)
  {
    PartsBounds(s);
    var r := SearchWhite(PartsOf(s), |s|, WhiteRunAt(s, BodyStart(s)));
    if r.Some? {
      assert PartsOf(s)(r.value.0, r.value.1, r.value.2);
    }
  }

  /** The choice the regular expression match settles on, if any. */
  function MatchPlanLine(s: string): (r: Option<(nat, nat, nat)>)
    ensures r.Some? ==> Parts(s, r.value.0, r.value.1, r.value.2) &&
                        forall j: nat, a: nat, b: nat :: Parts(s, j, a, b) ==> !TriedBefore((j, a, b), r.value)
    ensures r.None? <==> forall j: nat, a: nat, b: nat :: !Parts(s, j, a, b)
  {
    if !HeadOk(s) then None
    else
      SearchFindsFirst(s);
      SearchMissesNothing(s);
      SearchWhite(PartsOf(s), |s|, WhiteRunAt(s, BodyStart(s)))
  }

  /** The three groups of a match. */
  function Groups(s: string, j: nat, e1: nat, e2: nat): (g: (string, string, string))
    requires Parts(s, j, e1, e2)
  {
    var o2 := e1 + WhiteRunAt(s, e1);
    var o3 := e2 + 1 + WhiteRunAt(s, e2 + 1);
    (s[BodyStart(s) + j..e1], s[o2 + 1..e2], s[o3 + 1..|s| - 1])
  }

  /** One line of the plan: the idea made of the trimmed groups when the
      trimmed line matches, nothing otherwise. */
  function ParsePlanLine(line: string): (idea: Option<StickerIdea>)
    ensures idea.None? <==> forall j: nat, a: nat, b: nat :: !Parts(Trim(line), j, a, b)
    ensures idea.Some? ==> Trim(idea.value.text) == idea.value.text &&
                           Trim(idea.value.emotionPromptCN) == idea.value.emotionPromptCN &&
                           Trim(idea.value.emotionPrompt) == idea.value.emotionPrompt
  {
    var s := Trim(line);
    match MatchPlanLine(s)
    case None => None
    case Some((j, e1, e2)) =>
      var g := Groups(s, j, e1, e2);
      TrimIdempotent(g.0);
      TrimIdempotent(g.1);
      TrimIdempotent(g.2);
      Some(StickerIdea(Trim(g.0), Trim(g.1), Trim(g.2)))
  }

  /** The values f gives to the first n elements of xs, in order, skipping
      the elements it gives nothing for. */
  function FilterMap<T, U>(f: T -> Option<U>, xs: seq<T>, n: nat): seq<U>
    requires n <= |xs|
  {
    if n == 0 then []
    else
      var rest := FilterMap(f, xs, n - 1);
      match f(xs[n - 1])
      case Some(y) => rest + [y]
      case None => rest
  }

  /** Every value comes from one of the n elements, every one of them that f
      maps to a value contributes it, and there are never more values than
      elements. */
  lemma {:induction false} FilterMapFaithful<T, U>(f: T -> Option<U>, xs: seq<T>, n: nat)
    requires n <= |xs|
    ensures |FilterMap(f, xs, n)| <= n
    ensures forall k :: 0 <= k < |FilterMap(f, xs, n)| ==>
              exists i :: 0 <= i < n && f(xs[i]) == Some(FilterMap(f, xs, n)[k])
    ensures forall i :: 0 <= i < n && f(xs[i]).Some? ==> f(xs[i]).value in FilterMap(f, xs, n)
  {
    if n > 0 {
      FilterMapFaithful(f, xs, n - 1);
      var rest := FilterMap(f, xs, n - 1);
      var out := FilterMap(f, xs, n);
      var y := f(xs[n - 1]);
      assert out == if y.Some? then rest + [y.value] else rest;
      forall k | 0 <= k < |out|
        ensures exists i :: 0 <= i < n && f(xs[i]) == Some(out[k])
      {
        if k < |rest| {
          var i :| 0 <= i < n - 1 && f(xs[i]) == Some(rest[k]);
        } else {
          assert f(xs[n - 1]) == Some(out[k]);
        }
      }
      forall i | 0 <= i < n && f(xs[i]).Some?
        ensures f(xs[i]).value in out
      {
        if i == n - 1 {
          assert out[|out| - 1] == y.value;
        }
      }
    }
  }

  /** The test of `filter(line => line.trim() !== '')`, as a FilterMap step. */
  function KeepNonBlank(line: string): (kept: Option<string>)
    ensures kept.Some? <==> Trim(line) != ""
    ensures kept.Some? ==> kept.value == line
  {
    if Trim(line) != "" then Some(line) else None
  }

  /** The non-blank lines of a plan text, in order. */
  function PlanLines(rawText: string): seq<string> {
    var pieces := Split(rawText, '\n');
    FilterMap(KeepNonBlank, pieces, |pieces|)
  }

  /** What the function returns for a plan text: the ideas of its non-blank
      lines that match, in line order. */
  function ParsedPlan(rawText: string): seq<StickerIdea> {
    var lines := PlanLines(rawText);
    FilterMap(ParsePlanLine, lines, |lines|)
  }

  /** FilterMap of n elements depends on those n elements only. */
  lemma {:induction false} FilterMapPrefix<T, U>(f: T -> Option<U>, xs: seq<T>, ys: seq<T>, n: nat)
    requires n <= |xs| && n <= |ys| && xs[..n] == ys[..n]
    ensures FilterMap(f, xs, n) == FilterMap(f, ys, n)
  {
    if n > 0 {
      assert xs[..n - 1] == ys[..n - 1] by {
        assert xs[..n - 1] == xs[..n][..n - 1];
        assert ys[..n - 1] == ys[..n][..n - 1];
      }
      FilterMapPrefix(f, xs, ys, n - 1);
      assert xs[n - 1] == xs[..n][n - 1] == ys[..n][n - 1] == ys[n - 1];
    }
  }

  /** Dropping first the elements keep rejects changes nothing when f gives
      nothing for exactly those. */
  lemma {:induction false} FilterMapAfterFilter<T, U>(f: T -> Option<U>, keep: T -> Option<T>, xs: seq<T>, n: nat)
    requires n <= |xs|
    requires forall x :: keep(x).None? ==> f(x).None?
    requires forall x :: keep(x).Some? ==> keep(x).value == x
    ensures var kept := FilterMap(keep, xs, n);
            FilterMap(f, kept, |kept|) == FilterMap(f, xs, n)
  {
    if n > 0 {
      FilterMapAfterFilter(f, keep, xs, n - 1);
      var before := FilterMap(keep, xs, n - 1);
      var kept := FilterMap(keep, xs, n);
      var x := xs[n - 1];
      if keep(x).Some? {
        assert kept == before + [x];
        assert kept[..|before|] == before[..|before|];
        FilterMapPrefix(f, kept, before, |before|);
        assert kept[|before|] == x;
      }
    }
  }

  /** Blank lines never match, so the filter in front of the loop does not
      change the result: the ideas are those of all the lines. */
  lemma BlankLinesChangeNothing(rawText: string)
    ensures var pieces := Split(rawText, '\n');
            ParsedPlan(rawText) == FilterMap(ParsePlanLine, pieces, |pieces|)
  {
    forall line: string | KeepNonBlank(line).None?
      ensures ParsePlanLine(line).None?
    {
      BlankLineIgnored(line);
    }
    var pieces := Split(rawText, '\n');
    FilterMapAfterFilter(ParsePlanLine, KeepNonBlank, pieces, |pieces|);
  }

  /** Every idea of a plan comes, in order, from one of its lines, every
      line that matches contributes its idea, and there are never more ideas
      than non-blank lines. */
  lemma ParsedPlanFromLines(rawText: string)
    ensures var pieces := Split(rawText, '\n');
            var ideas := ParsedPlan(rawText);
            |ideas| <= |PlanLines(rawText)| <= |pieces| &&
            (forall k :: 0 <= k < |ideas| ==> exists i :: 0 <= i < |pieces| && ParsePlanLine(pieces[i]) == Some(ideas[k])) &&
            (forall i :: 0 <= i < |pieces| && ParsePlanLine(pieces[i]).Some? ==> ParsePlanLine(pieces[i]).value in ideas)
  {
    var pieces := Split(rawText, '\n');
    BlankLinesChangeNothing(rawText);
    FilterMapFaithful(ParsePlanLine, pieces, |pieces|);
    FilterMapFaithful(KeepNonBlank, pieces, |pieces|);
    var lines := PlanLines(rawText);
    FilterMapFaithful(ParsePlanLine, lines, |lines|);
  }

  /** The loop over the non-blank lines (lines 776-785), with the
      per-line match passed in as parse: the ideas of the lines parse
      accepts, in order. */
  method CollectIdeas(parse: string -> Option<StickerIdea>, lines: seq<string>) returns (results: seq<StickerIdea>)
    ensures results == FilterMap(parse, lines, |lines|)
  {
    results := [];
    for i := 0 to |lines|
      invariant results == FilterMap(parse, lines, i)
    {
      var idea := parse(lines[i]);
      if idea.Some? {
        results := results + [idea.value];
      }
    }
  }

  /** parseStructuredStickerPlan. */
  method ParseStructuredStickerPlan(rawText: string) returns (results: seq<StickerIdea>)
    ensures results == ParsedPlan(rawText)
  {
    var pieces := Split(rawText, '\n');
    var lines := FilterMap(KeepNonBlank, pieces, |pieces|);
    results := CollectIdeas(ParsePlanLine, lines);
  }

  /** Blank lines never match, so dropping them changes nothing. */
  lemma BlankLineIgnored(line: string)
    requires Trim(line) == ""
    ensures ParsePlanLine(line).None?
  {
  }

  /** A string with no white space at either end is its own trim. */
  lemma TrimUnpadded(s: string)
    requires s != [] && !IsJsWhite(s[0]) && !IsJsWhite(s[|s| - 1])
    ensures Trim(s) == s
  {
    assert FirstNonWhite(s) == 0;
    assert s[0..] == s;
    assert EndNonWhite(s) == |s|;
  }

  /** A white-space run of length 0 or 1 at position k. */
  lemma ShortWhiteRun(s: string, k: nat)
    requires k < |s|
    ensures !IsJsWhite(s[k]) ==> WhiteRunAt(s, k) == 0
    ensures IsJsWhite(s[k]) && k + 1 < |s| && !IsJsWhite(s[k + 1]) ==> WhiteRunAt(s, k) == 1
  {
    assert s[k..][0] == s[k];
    if IsJsWhite(s[k]) && k + 1 < |s| {
      assert s[k..][1..] == s[k + 1..];
      assert s[k + 1..][0] == s[k + 1];
    }
  }

  /** s is the line "1. Hi (a) (b)", spelled out character by character. */
  predicate IsExampleLine(s: string) {
    |s| == 13 && s[0] == '1' && s[1] == '.' && s[2] == ' ' && s[3] == 'H' && s[4] == 'i' &&
    s[5] == ' ' && s[6] == '(' && s[7] == 'a' && s[8] == ')' && s[9] == ' ' && s[10] == '(' &&
    s[11] == 'b' && s[12] == ')'
  }

  lemma ExampleRuns(s: string)
    requires IsExampleLine(s)
    ensures HeadOk(s) && BodyStart(s) == 2
    ensures WhiteRunAt(s, 2) == 1 && WhiteRunAt(s, 4) == 0 && WhiteRunAt(s, 5) == 1 && WhiteRunAt(s, 9) == 1
  {
    assert DigitRun(s) == 1 by {
      assert s[1..][0] == '.';
    }
    ShortWhiteRun(s, 2);
    ShortWhiteRun(s, 4);
    ShortWhiteRun(s, 5);
    ShortWhiteRun(s, 9);
  }

  /** With one space taken by the first `\s*`, no match ends its groups
      earlier than at 5 and 8. */
  lemma ExampleNoEarlier(s: string, a: nat, b: nat)
    requires IsExampleLine(s) && Parts(s, 1, a, b)
    ensures a > 5 || (a == 5 && b >= 8)
  {
    ExampleRuns(s);
  }

  /** The example line's match: the first `\s*` takes its one space, the
      groups are "Hi", "a" and "b", and every other way of matching the
      line comes later in the matcher's order. */
  lemma ExampleChoice(s: string)
    requires IsExampleLine(s)
    ensures Parts(s, 1, 5, 8)
    ensures forall j: nat, a: nat, b: nat :: Parts(s, j, a, b) ==> !TriedBefore((j, a, b), (1, 5, 8))
    ensures Groups(s, 1, 5, 8) == ("Hi", "a", "b")
  {
    ExampleRuns(s);
    PartsBounds(s);
    forall j: nat, a: nat, b: nat | Parts(s, j, a, b)
      ensures !TriedBefore((j, a, b), (1, 5, 8))
    {
      if j == 1 {
        ExampleNoEarlier(s, a, b);
      }
    }
    assert s[3..5] == "Hi";
    assert s[7..8] == "a";
    assert s[11..12] == "b";
  }

  /** The match a line settles on is the choice tried before every other
      match: whatever is shown to be that choice is what MatchPlanLine
      returns. */
  lemma MatchPlanLineIsFirst(s: string, x: (nat, nat, nat))
    requires Parts(s, x.0, x.1, x.2)
    requires forall j: nat, a: nat, b: nat :: Parts(s, j, a, b) ==> !TriedBefore((j, a, b), x)
    ensures MatchPlanLine(s) == Some(x)
  {
    var r := MatchPlanLine(s).value;
    assert !TriedBefore(r, x);
    assert !TriedBefore(x, r);
    assert r.0 == x.0 && r.1 == x.1 && r.2 == x.2;
    assert r == x;
  }

  /** The idea of a line is made of the trimmed groups of the regular
      expression's first choice on the trimmed line. */
  lemma ParsePlanLineOfChoice(line: string, x: (nat, nat, nat))
    requires Parts(Trim(line), x.0, x.1, x.2)
    requires forall j: nat, a: nat, b: nat :: Parts(Trim(line), j, a, b) ==> !TriedBefore((j, a, b), x)
    ensures var g := Groups(Trim(line), x.0, x.1, x.2);
            ParsePlanLine(line) == Some(StickerIdea(Trim(g.0), Trim(g.1), Trim(g.2)))
  {
    MatchPlanLineIsFirst(Trim(line), x);
  }

  lemma ExampleGroupsTrimmed(s: string)
    requires IsExampleLine(s)
    ensures Parts(s, 1, 5, 8)
    ensures var g := Groups(s, 1, 5, 8);
            Trim(g.0) == "Hi" && Trim(g.1) == "a" && Trim(g.2) == "b"
  {
    ExampleChoice(s);
    var g := Groups(s, 1, 5, 8);
    TrimUnpadded(g.0);
    TrimUnpadded(g.1);
    TrimUnpadded(g.2);
  }

  /** The example line gives the idea ("Hi", "a", "b"). */
  lemma ParseExample(line: string)
    requires IsExampleLine(line)
    ensures ParsePlanLine(line) == Some(StickerIdea("Hi", "a", "b"))
  {
    TrimUnpadded(line);
    ExampleChoice(line);
    ExampleGroupsTrimmed(line);
    ParsePlanLineOfChoice(line, (1, 5, 8));
  }
}
