/**
 * The pure part of the training-plan service (app/services/claude_api_service.rb):
 * the improvement handed to the prompt, and the parsing of the model's reply into
 * three guides delimited by `=== NAME ===` markers. The HTTP call, the prompts and
 * the JSON decoding are not part of this model; the reply arrives here as the
 * text found at `content[0].text`, or `None` when there is none.
 */
module ClaudeApi {
  import opened Wrappers
  import opened Text

  /** `handicap_difference = current_handicap - target_handicap`: positive exactly
      when the target is below the current handicap. */
  function HandicapDifference(current: real, target: real): (d: real)
    ensures d > 0.0 <==> target < current
  {
    current - target
  }

  // ---------------------------------------------------------------------------
  // The marker pattern /===\s*NAME\s*===/i

  const QuickStartMarker: string := "QUICK START GUIDE"
  const CompletePlanMarker: string := "COMPLETE PLAN"
  const AdvancedPlanMarker: string := "ADVANCED PLAN"

  /** A marker name that does not begin with whitespace; for such a name the
      greedy `\s*` before it never has to give characters back. */
  predicate IsMarker(marker: string) {
    |marker| > 0 && !IsSpace(marker[0])
  }

  /** `s` is, as a whole, a text the pattern matches: `===`, optional whitespace,
      the marker name in any letter case, optional whitespace, `===`. */
  ghost predicate IsDelimiter(s: string, marker: string) {
    && |s| >= 6 + |marker|
    && s[..3] == "===" && s[|s| - 3..] == "==="
    && exists p :: 3 <= p && p + |marker| <= |s| - 3
         && AllSpace(s[3..p])
         && EqualsIgnoreCase(s[p..p + |marker|], marker)
         && AllSpace(s[p + |marker|..|s| - 3])
  }

  /** The first position at or after `i` that is not whitespace, or the end. */
  function SkipSpaces(c: string, i: nat): (j: nat)
    requires i <= |c|
    ensures i <= j <= |c|
    ensures AllSpace(c[i..j])
    ensures j < |c| ==> !IsSpace(c[j])
    decreases |c| - i
  {
    if i == |c| || !IsSpace(c[i]) then i
    else
      var j := SkipSpaces(c, i + 1);
      assert c[i..j] == [c[i]] + c[i + 1..j];
      j
  }

  /** SkipSpaces stops at the one position that ends a run of whitespace. */
  lemma SkipSpacesExact(c: string, i: nat, j: nat)
    requires i <= j <= |c|
    requires AllSpace(c[i..j])
    requires j < |c| ==> !IsSpace(c[j])
    ensures SkipSpaces(c, i) == j
  {
    var k := SkipSpaces(c, i);
    assert forall m :: i <= m < j ==> IsSpace(c[m]) by {
      forall m | i <= m < j ensures IsSpace(c[m]) {
        assert c[m] == c[i..j][m - i];
      }
    }
    assert forall m :: i <= m < k ==> IsSpace(c[m]) by {
      forall m | i <= m < k ensures IsSpace(c[m]) {
        assert c[m] == c[i..k][m - i];
      }
    }
  }

  /** Where a match of the pattern that starts at `i` ends, if one does. */
  function MatchAt(c: string, i: nat, marker: string): (m: Option<nat>)
    requires i <= |c|
    ensures m.Some? ==> i + 6 + |marker| <= m.value <= |c|
  {
    if !(i + 3 <= |c| && c[i..i + 3] == "===") then None
    else
      var p := SkipSpaces(c, i + 3);
      if !(p + |marker| <= |c| && EqualsIgnoreCase(c[p..p + |marker|], marker)) then None
      else
        var q := SkipSpaces(c, p + |marker|);
        if q + 3 <= |c| && c[q..q + 3] == "===" then Some(q + 3) else None
  }

  /** A text made of `===`, whitespace up to `w`, the marker, whitespace and
      `===` is a delimiter. */
  lemma DelimiterFromParts(s: string, marker: string, w: nat)
    requires 3 <= w && w + |marker| <= |s| - 3
    requires s[..3] == "===" && s[|s| - 3..] == "==="
    requires AllSpace(s[3..w])
    requires EqualsIgnoreCase(s[w..w + |marker|], marker)
    requires AllSpace(s[w + |marker|..|s| - 3])
    ensures IsDelimiter(s, marker)
  {
  }

  /** Every match MatchAt reports is a delimiter. */
  lemma MatchAtSound(c: string, i: nat, marker: string)
    requires i <= |c| && MatchAt(c, i, marker).Some?
    ensures i <= MatchAt(c, i, marker).value <= |c|
    ensures IsDelimiter(c[i..MatchAt(c, i, marker).value], marker)
  {
    var e := MatchAt(c, i, marker).value;
    var p := SkipSpaces(c, i + 3);
    var q := SkipSpaces(c, p + |marker|);
    assert q + 3 == e;
    assert c[i..i + 3] == "===" && c[q..e] == "===";
    assert AllSpace(c[i + 3..p]) && AllSpace(c[p + |marker|..q]);
    assert EqualsIgnoreCase(c[p..p + |marker|], marker);
    var w := p - i;
    var n := e - i;
    SliceOfSlice(c, i, e, 0, 3);
    SliceOfSlice(c, i, e, 3, w);
    SliceOfSlice(c, i, e, w, w + |marker|);
    SliceOfSlice(c, i, e, w + |marker|, n - 3);
    SliceOfSlice(c, i, e, n - 3, n);
    DelimiterFromParts(c[i..e], marker, w);
  }

  /** A slice of a slice is a slice of the whole. */
  lemma SliceOfSlice(c: string, i: nat, e: nat, a: nat, b: nat)
    requires i <= e <= |c| && a <= b <= e - i
    ensures c[i..e][a..b] == c[i + a..i + b]
  {
    assert forall k :: 0 <= k < b - a ==> c[i..e][a..b][k] == c[i + a + k];
  }

  /** The whitespace and marker part of a delimiter starting at `i`, found by
      the scanner. */
  lemma MatchAtFindsMarker(c: string, i: nat, e: nat, marker: string, w: nat)
    requires IsMarker(marker)
    requires i <= e <= |c| && 3 <= w && w + |marker| <= e - i - 3
    requires c[i..i + 3] == "==="
    requires AllSpace(c[i + 3..i + w])
    requires EqualsIgnoreCase(c[i + w..i + w + |marker|], marker)
    ensures SkipSpaces(c, i + 3) == i + w
  {
    var p := i + w;
    assert Lower(c[p]) == Lower(marker[0]) by {
      assert c[p] == c[p..p + |marker|][0];
    }
    SkipSpacesExact(c, i + 3, p);
  }

  /** A delimiter starting at `i`, described by its parts in `c`, is the match
      MatchAt reports there. */
  lemma MatchAtFromParts(c: string, i: nat, e: nat, marker: string, w: nat)
    requires IsMarker(marker)
    requires i <= e <= |c| && 3 <= w && w + |marker| <= e - i - 3
    requires c[i..i + 3] == "===" && c[e - 3..e] == "==="
    requires AllSpace(c[i + 3..i + w])
    requires EqualsIgnoreCase(c[i + w..i + w + |marker|], marker)
    requires AllSpace(c[i + w + |marker|..e - 3])
    ensures MatchAt(c, i, marker) == Some(e)
  {
    MatchAtFindsMarker(c, i, e, marker, w);
    var q := e - 3;
    assert c[q] == c[q..e][0];
    SkipSpacesExact(c, i + w + |marker|, q);
  }

  /** Every delimiter starting at `i` is the match MatchAt reports there, so for
      a marker name the scanner and the pattern agree. */
  lemma MatchAtComplete(c: string, i: nat, e: nat, marker: string)
    requires IsMarker(marker)
    requires i <= e <= |c| && IsDelimiter(c[i..e], marker)
    ensures MatchAt(c, i, marker) == Some(e)
  {
    var s := c[i..e];
    var w :| 3 <= w && w + |marker| <= |s| - 3
      && AllSpace(s[3..w])
      && EqualsIgnoreCase(s[w..w + |marker|], marker)
      && AllSpace(s[w + |marker|..|s| - 3]);
    SliceOfSlice(c, i, e, 0, 3);
    SliceOfSlice(c, i, e, 3, w);
    SliceOfSlice(c, i, e, w, w + |marker|);
    SliceOfSlice(c, i, e, w + |marker|, |s| - 3);
    SliceOfSlice(c, i, e, |s| - 3, |s|);
    MatchAtFromParts(c, i, e, marker, w);
  }

  /** A match of the pattern: where it begins and where it ends. */
  datatype Match = Match(begin: nat, end: nat)

  /** `content.match(pattern)` searched from `from`: the leftmost match. */
  function FirstMatch(c: string, marker: string, from: nat): (m: Option<Match>)
    requires from <= |c|
    ensures m.Some? ==> from <= m.value.begin <= |c| && MatchAt(c, m.value.begin, marker) == Some(m.value.end)
    ensures m.Some? ==> forall i :: from <= i < m.value.begin ==> MatchAt(c, i, marker).None?
    ensures m.None? ==> forall i :: from <= i <= |c| ==> MatchAt(c, i, marker).None?
    decreases |c| - from
  {
    match MatchAt(c, from, marker)
    case Some(e) => Some(Match(from, e))
    case None => if from == |c| then None else FirstMatch(c, marker, from + 1)
  }

  // ---------------------------------------------------------------------------
  // extract_section and parse_training_plan_response

  /** `extract_section`: the text after the first start delimiter, up to the first
      end delimiter (the end of the content when there is no end marker or it
      does not occur); empty without a start delimiter, and empty when the end
      delimiter begins before the start delimiter ends. */
  function ExtractSection(content: string, startMarker: string, endMarker: Option<string>): (r: string)
    ensures |r| <= |content|
    ensures FirstMatch(content, startMarker, 0).None? ==> r == ""
    ensures FirstMatch(content, startMarker, 0).Some? ==>
      var e := FirstMatch(content, startMarker, 0).value.end;
      e + |r| <= |content| && r == content[e..e + |r|]
  {
    match FirstMatch(content, startMarker, 0)
    case None => ""
    case Some(start) =>
      assert start.end <= |content| by {
        MatchAtSound(content, start.begin, startMarker);
      }
      var endPos :=
        if endMarker.None? then |content|
        else match FirstMatch(content, endMarker.value, 0)
             case None => |content|
             case Some(stop) => stop.begin;
      if endPos < start.end then "" else content[start.end..endPos]
  }

  /** With no start delimiter anywhere in the content the section is empty. */
  lemma ExtractSectionWithoutStart(content: string, startMarker: string, endMarker: Option<string>)
    requires forall i, e :: 0 <= i <= e <= |content| ==> !IsDelimiter(content[i..e], startMarker)
    ensures ExtractSection(content, startMarker, endMarker) == ""
  {
    NoDelimiterNoMatch(content, startMarker);
  }

  /** Facts about a delimiter that begins at `begin` and no earlier: it is the
      match `String#match` finds. */
  lemma LeftmostDelimiter(c: string, marker: string, begin: nat, end: nat)
    requires IsMarker(marker)
    requires begin <= end <= |c| && IsDelimiter(c[begin..end], marker)
    requires forall i, j :: 0 <= i < begin && i <= j <= |c| ==> !IsDelimiter(c[i..j], marker)
    ensures FirstMatch(c, marker, 0) == Some(Match(begin, end))
  {
    MatchAtComplete(c, begin, end, marker);
    var m := FirstMatch(c, marker, 0);
    if m.Some? && m.value.begin < begin {
      MatchAtSound(c, m.value.begin, marker);
    }
  }

  /** The section begins right after the first start delimiter and, without an
      end marker or when the end marker does not occur, runs to the end. */
  lemma ExtractSectionAfterStart(content: string, startMarker: string, endMarker: Option<string>,
                                 begin: nat, end: nat)
    requires IsMarker(startMarker)
    requires begin <= end <= |content| && IsDelimiter(content[begin..end], startMarker)
    requires forall i, j :: 0 <= i < begin && i <= j <= |content| ==> !IsDelimiter(content[i..j], startMarker)
    ensures var r := ExtractSection(content, startMarker, endMarker);
      end + |r| <= |content| && r == content[end..end + |r|]
    ensures endMarker.None? ==> ExtractSection(content, startMarker, endMarker) == content[end..]
    ensures (endMarker.Some? &&
               forall i, j :: 0 <= i <= j <= |content| ==> !IsDelimiter(content[i..j], endMarker.value)) ==>
      ExtractSection(content, startMarker, endMarker) == content[end..]
  {
    LeftmostDelimiter(content, startMarker, begin, end);
    if endMarker.Some? && forall i, j :: 0 <= i <= j <= |content| ==> !IsDelimiter(content[i..j], endMarker.value) {
      NoDelimiterNoMatch(content, endMarker.value);
    }
  }

  /** Where the pattern never matches, `match` finds nothing. */
  lemma NoDelimiterNoMatch(c: string, marker: string)
    requires forall i, j :: 0 <= i <= j <= |c| ==> !IsDelimiter(c[i..j], marker)
    ensures FirstMatch(c, marker, 0).None?
  {
    var m := FirstMatch(c, marker, 0);
    if m.Some? {
      MatchAtSound(c, m.value.begin, marker);
    }
  }

  /** With both delimiters found, the section is the text between the end of the
      first start delimiter and the beginning of the first end delimiter, and
      empty when the end delimiter begins first. */
  lemma ExtractSectionBetween(content: string, startMarker: string, endMarker: string,
                              begin: nat, end: nat, stopBegin: nat, stopEnd: nat)
    requires IsMarker(startMarker) && IsMarker(endMarker)
    requires begin <= end <= |content| && IsDelimiter(content[begin..end], startMarker)
    requires forall i, j :: 0 <= i < begin && i <= j <= |content| ==> !IsDelimiter(content[i..j], startMarker)
    requires stopBegin <= stopEnd <= |content| && IsDelimiter(content[stopBegin..stopEnd], endMarker)
    requires forall i, j :: 0 <= i < stopBegin && i <= j <= |content| ==> !IsDelimiter(content[i..j], endMarker)
    ensures ExtractSection(content, startMarker, Some(endMarker)) ==
      if stopBegin < end then "" else content[end..stopBegin]
  {
    LeftmostDelimiter(content, startMarker, begin, end);
    LeftmostDelimiter(content, endMarker, stopBegin, stopEnd);
  }

  /** The three guides of a generated training plan. */
  datatype Guides = Guides(simple: string, medium: string, complex: string)

  /** The section is a contiguous piece of the content. */
  lemma SectionIsInfix(content: string, startMarker: string, endMarker: Option<string>)
    ensures IsInfix(ExtractSection(content, startMarker, endMarker), content)
  {
    var r := ExtractSection(content, startMarker, endMarker);
    match FirstMatch(content, startMarker, 0)
    case None =>
      assert OccursAt(r, content, 0);
    case Some(start) =>
      assert OccursAt(r, content, start.end);
  }

  /** One guide: the stripped section, a piece of the content. */
  function Guide(content: string, startMarker: string, endMarker: Option<string>): (g: string)
    ensures Trimmed(g) && IsInfix(g, content)
  {
    var section := ExtractSection(content, startMarker, endMarker);
    SectionIsInfix(content, startMarker, endMarker);
    InfixTransitive(Strip(section), section, content);
    Strip(section)
  }

  /** `parse_training_plan_response`: three empty guides without reply text;
      otherwise each guide is its section, stripped, and so a trimmed piece of
      the reply. */
  function ParseTrainingPlanResponse(text: Option<string>): (g: Guides)
    ensures text.None? ==> g == Guides("", "", "")
    ensures Trimmed(g.simple) && Trimmed(g.medium) && Trimmed(g.complex)
    ensures text.Some? ==>
      IsInfix(g.simple, text.value) && IsInfix(g.medium, text.value) && IsInfix(g.complex, text.value)
  {
    match text
    case None => Guides("", "", "")
    case Some(content) =>
      Guides(
        Guide(content, QuickStartMarker, Some(CompletePlanMarker)),
        Guide(content, CompletePlanMarker, Some(AdvancedPlanMarker)),
        Guide(content, AdvancedPlanMarker, None))
  }

  /** The first delimiter for `marker` in `c` spans `begin..end`. */
  ghost predicate FirstDelimiter(c: string, marker: string, begin: nat, end: nat) {
    && begin <= end <= |c| && IsDelimiter(c[begin..end], marker)
    && forall i, j :: 0 <= i < begin && i <= j <= |c| ==> !IsDelimiter(c[i..j], marker)
  }

  /** A reply laid out as the prompt asks, with the three delimiters in order,
      yields as guides the stripped texts between them: the quick-start guide up
      to COMPLETE PLAN, the complete plan up to ADVANCED PLAN, and the advanced
      plan to the end of the reply. */
  lemma ParseWellFormedReply(c: string, b1: nat, e1: nat, b2: nat, e2: nat, b3: nat, e3: nat)
    requires FirstDelimiter(c, QuickStartMarker, b1, e1)
    requires FirstDelimiter(c, CompletePlanMarker, b2, e2)
    requires FirstDelimiter(c, AdvancedPlanMarker, b3, e3)
    requires e1 <= b2 && e2 <= b3
    ensures ParseTrainingPlanResponse(Some(c)) ==
      Guides(Strip(c[e1..b2]), Strip(c[e2..b3]), Strip(c[e3..]))
  {
    PlanMarkersAreMarkers();
    ExtractSectionBetween(c, QuickStartMarker, CompletePlanMarker, b1, e1, b2, e2);
    ExtractSectionBetween(c, CompletePlanMarker, AdvancedPlanMarker, b2, e2, b3, e3);
    ExtractSectionAfterStart(c, AdvancedPlanMarker, None, b3, e3);
  }

  /** The three markers the parser looks for are marker names. */
  lemma PlanMarkersAreMarkers()
    ensures IsMarker(QuickStartMarker) && IsMarker(CompletePlanMarker) && IsMarker(AdvancedPlanMarker)
  {
  }

  /** A delimiter written in lower case with extra spaces still matches. */
  lemma DelimiterIgnoresCaseAndSpacing()
    ensures MatchAt("===  complete plan\t===", 0, CompletePlanMarker) == Some(22)
  {
    var c := "===  complete plan\t===";
    var s := c[0..22];
    assert c == s;
    assert AllSpace(s[3..5]) && AllSpace(s[18..19]);
    assert EqualsIgnoreCase(s[5..18], CompletePlanMarker);
    assert IsDelimiter(s, CompletePlanMarker);
    MatchAtComplete(c, 0, 22, CompletePlanMarker);
  }
}
