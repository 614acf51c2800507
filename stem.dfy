/** The sample identifier encoded in an export's file stem, as extracted by
    the first match of `LS(\d{8})_([LR]\d{8}-\d{3})-(\d*)`. */
module Stem {
  import opened Wrappers

  /** The three captured groups: test id, file-name id and run number. */
  datatype SampleId = SampleId(testId: string, fileNameId: string, runNumber: string)

  /** Characters matched before the run number: `LS`, 8 digits, `_`, `L` or
      `R`, 8 digits, `-`, 3 digits, `-`. */
  const TemplateLength: nat := 25

  /** `\d`, restricted to ASCII digits. */
  predicate IsDigit(c: char) {
    '0' <= c <= '9'
  }

  predicate AllDigits(s: string) {
    forall i :: 0 <= i < |s| ==> IsDigit(s[i])
  }

  /** The fixed part of the pattern matches at index `i` of `s`. */
  predicate TemplateAt(s: string, i: nat) {
    && i + TemplateLength <= |s|
    && s[i] == 'L' && s[i + 1] == 'S'
    && AllDigits(s[i + 2..i + 10])
    && s[i + 10] == '_'
    && (s[i + 11] == 'L' || s[i + 11] == 'R')
    && AllDigits(s[i + 12..i + 20])
    && s[i + 20] == '-'
    && AllDigits(s[i + 21..i + 24])
    && s[i + 24] == '-'
  }

  /** `[LR]\d{8}-\d{3}`: the shape of the second group. */
  predicate FileNameIdShape(f: string) {
    && |f| == 13
    && (f[0] == 'L' || f[0] == 'R')
    && AllDigits(f[1..9])
    && f[9] == '-'
    && AllDigits(f[10..13])
  }

  /** What the three groups can hold. */
  predicate WellFormed(id: SampleId) {
    && |id.testId| == 8 && AllDigits(id.testId)
    && FileNameIdShape(id.fileNameId)
    && AllDigits(id.runNumber)
  }

  /** `run` is the longest digit run starting at index `k` (the greedy
      `\d*`); it may be empty. */
  ghost predicate MaximalRunAt(s: string, k: nat, run: string) {
    && k + |run| <= |s|
    && s[k..k + |run|] == run
    && AllDigits(run)
    && (k + |run| == |s| || !IsDigit(s[k + |run|]))
  }

  /** `i` is the leftmost index where the pattern matches. */
  ghost predicate Leftmost(s: string, i: nat) {
    TemplateAt(s, i) && forall j: nat :: j < i ==> !TemplateAt(s, j)
  }

  /** `id` holds the groups of the match that starts at `i`. */
  ghost predicate MatchedAt(s: string, i: nat, id: SampleId) {
    && Leftmost(s, i)
    && id.testId == s[i + 2..i + 10]
    && id.fileNameId == s[i + 11..i + 24]
    && MaximalRunAt(s, i + TemplateLength, id.runNumber)
  }

  /** End of the digit run that starts at `k`. */
  function DigitRunEnd(s: string, k: nat): (e: nat)
    requires k <= |s|
    ensures k <= e <= |s|
    ensures AllDigits(s[k..e]) && (e == |s| || !IsDigit(s[e]))
    decreases |s| - k
  {
    if k < |s| && IsDigit(s[k]) then
      var e := DigitRunEnd(s, k + 1);
      assert s[k..e] == [s[k]] + s[k + 1..e];
      e
    else k
  }

  /** The leftmost index at or after `from` where the pattern matches. */
  function FindTemplate(s: string, from: nat): (r: Option<nat>)
    ensures r.Some? ==> from <= r.value && TemplateAt(s, r.value)
    ensures r.Some? ==> forall j: nat :: from <= j < r.value ==> !TemplateAt(s, j)
    ensures r.None? ==> forall j: nat :: from <= j ==> !TemplateAt(s, j)
    decreases |s| - from
  {
    if |s| < from + TemplateLength then None
    else if TemplateAt(s, from) then Some(from)
    else FindTemplate(s, from + 1)
  }

  /** `re.findall(pattern, stem)[0]`: the groups of the leftmost match, or
      `None` when `findall` returns an empty list. */
  function ParseStem(s: string): Option<SampleId> {
    match FindTemplate(s, 0)
    case None => None
    case Some(i) =>
      var e := DigitRunEnd(s, i + TemplateLength);
      Some(SampleId(s[i + 2..i + 10], s[i + 11..i + 24], s[i + TemplateLength..e]))
  }

  /** A stem yields no identifier exactly when the pattern matches nowhere;
      otherwise the groups are those of the leftmost match, with the
      longest run number, and have the shapes the pattern demands. */
  lemma ParseStemSpec(s: string)
    ensures ParseStem(s).None? <==> forall i: nat :: !TemplateAt(s, i)
    ensures ParseStem(s).Some? ==> WellFormed(ParseStem(s).value)
    ensures ParseStem(s).Some? ==> exists i: nat :: MatchedAt(s, i, ParseStem(s).value)
  {
    match FindTemplate(s, 0)
    case None =>
    case Some(i) =>
      var e := DigitRunEnd(s, i + TemplateLength);
      var id := SampleId(s[i + 2..i + 10], s[i + 11..i + 24], s[i + TemplateLength..e]);
      assert ParseStem(s) == Some(id);
      assert id.fileNameId[1..9] == s[i + 12..i + 20];
      assert id.fileNameId[10..13] == s[i + 21..i + 24];
      assert MatchedAt(s, i, id);
  }

  /** The groups of a match are determined by the stem: there is one
      leftmost match and one maximal digit run. */
  lemma MatchedAtUnique(s: string, i: nat, id: SampleId)
    requires MatchedAt(s, i, id)
    ensures ParseStem(s) == Some(id)
  {
    var found := FindTemplate(s, 0);
    assert found.Some? by {
      assert TemplateAt(s, i);
    }
    LeftmostUnique(s, i, found.value);
    MaximalRunIsDigitRun(s, i + TemplateLength, id.runNumber);
  }

  lemma LeftmostUnique(s: string, i: nat, j: nat)
    requires Leftmost(s, i) && TemplateAt(s, j) && forall k: nat :: k < j ==> !TemplateAt(s, k)
    ensures i == j
  {
  }

  /** A maximal digit run ends where `DigitRunEnd` says. */
  lemma {:induction false} MaximalRunIsDigitRun(s: string, k: nat, run: string)
    requires MaximalRunAt(s, k, run)
    ensures k + |run| == DigitRunEnd(s, k)
    decreases |run|
  {
    if run != [] {
      assert IsDigit(s[k..k + |run|][0]);
      assert s[k + 1..k + |run|] == run[1..];
      MaximalRunIsDigitRun(s, k + 1, run[1..]);
    }
  }

  /** The stem the instrument writes for an identifier. */
  function Format(id: SampleId): string {
    "LS" + id.testId + "_" + id.fileNameId + "-" + id.runNumber
  }

  /** Round trip: an identifier written into a stem is read back unchanged,
      whatever text without an `L` precedes it and whatever text not
      starting with a digit follows it. */
  lemma ParseFormat(before: string, id: SampleId, after: string)
    requires WellFormed(id)
    requires forall j :: 0 <= j < |before| ==> before[j] != 'L'
    requires after == [] || !IsDigit(after[0])
    ensures ParseStem(before + Format(id) + after) == Some(id)
  {
    var s := before + Format(id) + after;
    FormatMatches(before, id, after);
    forall j: nat | j < |before| ensures !TemplateAt(s, j) {
      assert s[j] == before[j];
    }
    assert MatchedAt(s, |before|, id);
    MatchedAtUnique(s, |before|, id);
  }

  /** The pattern matches where the formatted identifier starts, with the
      identifier's groups. */
  lemma FormatMatches(before: string, id: SampleId, after: string)
    requires WellFormed(id)
    requires after == [] || !IsDigit(after[0])
    ensures var s, i := before + Format(id) + after, |before|;
      && TemplateAt(s, i)
      && id.testId == s[i + 2..i + 10]
      && id.fileNameId == s[i + 11..i + 24]
      && MaximalRunAt(s, i + TemplateLength, id.runNumber)
  {
    var s := before + Format(id) + after;
    var i := |before|;
    var f := Format(id);
    assert |f| == TemplateLength + |id.runNumber|;
    assert s[i..i + |f|] == f;
    assert s[i + 2..i + 10] == f[2..10] == id.testId;
    assert s[i + 11..i + 24] == f[11..24] == id.fileNameId;
    assert s[i + 12..i + 20] == id.fileNameId[1..9];
    assert s[i + 21..i + 24] == id.fileNameId[10..13];
    var k := i + TemplateLength;
    assert s[k..k + |id.runNumber|] == f[TemplateLength..] == id.runNumber;
    assert k + |id.runNumber| < |s| ==> s[k + |id.runNumber|] == after[0];
  }

  /** The example stem of the export format. */
  lemma ParseExampleStem()
    ensures ParseStem("LS20230401_L00000001-002-1") == Some(SampleId("20230401", "L00000001-002", "1"))
  {
    var id := SampleId("20230401", "L00000001-002", "1");
    assert Format(id) == "LS20230401_L00000001-002-1";
    assert "" + Format(id) + "" == Format(id);
    ParseFormat("", id, "");
  }

  /** The greedy `\d*` may match nothing: a stem ending in `-` yields an
      empty run number. */
  lemma EmptyRunNumber()
    ensures ParseStem("LS20230401_R12345678-003-") == Some(SampleId("20230401", "R12345678-003", ""))
  {
    var id := SampleId("20230401", "R12345678-003", "");
    assert Format(id) == "LS20230401_R12345678-003-";
    assert "" + Format(id) + "" == Format(id);
    ParseFormat("", id, "");
  }
}
