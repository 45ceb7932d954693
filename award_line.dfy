/**
 * The subtitle line under each award on the index page: affiliation,
 * awarding body and date, empty values dropped, rendered with a " / "
 * divider before every segment but the first.
 */
module AwardLine {
  import opened Wrappers
  import opened Api
  import opened Js
  import opened Locale
  import opened Fields

  /** The date recorded for an award whose date is unknown. */
  const Sentinel: string := "0000-00-00"

  /** Separator between team and project in the affiliation. */
  const AffiliationSeparator: string := " - "

  /** `award.teams[0]?.[key]`: the first team's localized name, undefined
      when there is no team or the first has no such name. */
  function LeadTeamName(a: Award, l: Language): (r: Option<string>)
    ensures |a.teams| == 0 ==> r == None
    ensures |a.teams| > 0 && l == Ko ==> r == Some(a.teams[0].name)
    ensures |a.teams| > 0 && l == En ==> r == a.teams[0].nameEn
  {
    if |a.teams| == 0 then None else TeamName(a.teams[0], l)
  }

  /** `award.projects[0]?.[key]`: the first project's localized name,
      undefined when there is no project or the first has no such name. */
  function LeadProjectName(a: Award, l: Language): (r: Option<string>)
    ensures |a.projects| == 0 ==> r == None
    ensures |a.projects| > 0 && l == Ko ==> r == Some(a.projects[0].name)
    ensures |a.projects| > 0 && l == En ==> r == a.projects[0].nameEn
  {
    if |a.projects| == 0 then None else ProjectName(a.projects[0], l)
  }

  /** The two names, falsy ones dropped, joined with " - ": team first,
      then project, each only when present and non-empty; the empty string
      when neither is. */
  function Affiliation(a: Award, l: Language): (r: string)
    ensures var t, p := LeadTeamName(a, l), LeadProjectName(a, l);
      r == if Truthy(t) && Truthy(p) then t.value + " - " + p.value
           else if Truthy(t) then t.value
           else if Truthy(p) then p.value
           else ""
  {
    JoinTruthyPair(LeadTeamName(a, l), LeadProjectName(a, l), AffiliationSeparator);
    Join(FilterTruthy([LeadTeamName(a, l), LeadProjectName(a, l)]), AffiliationSeparator)
  }

  /** `award.date.replace("0000-00-00", "")`: the sentinel date becomes "",
      a date not containing the sentinel is kept as it is, and otherwise
      only the first occurrence of the sentinel is cut out. */
  function DateSegment(a: Award): (r: string)
    ensures a.date == Sentinel ==> r == ""
    ensures (forall i: nat :: !OccursAt(a.date, Sentinel, i)) ==> r == a.date
    ensures forall k: nat :: OccursAt(a.date, Sentinel, k) && (forall i: nat :: i < k ==> !OccursAt(a.date, Sentinel, i)) ==>
      r == a.date[..k] + a.date[k + |Sentinel|..]
  {
    ReplaceFirstCases(a.date, Sentinel, "");
    ReplaceFirst(a.date, Sentinel, "")
  }

  /** `[affiliation, award.by, date].filter((v) => v)`. */
  function Segments(a: Award, l: Language): (r: seq<string>)
    ensures |r| <= 3
    ensures forall k :: 0 <= k < |r| ==> r[k] != ""
  {
    FilterTruthy([Some(Affiliation(a, l)), Some(a.awardedBy), Some(DateSegment(a))])
  }

  /** `[s]` when `s` is non-empty, `[]` otherwise. */
  function Keep(s: string): seq<string> {
    if s != "" then [s] else []
  }

  /** The affiliation is empty exactly when neither name is present and non-empty. */
  lemma AffiliationEmpty(a: Award, l: Language)
    ensures Affiliation(a, l) == "" <==> !Truthy(LeadTeamName(a, l)) && !Truthy(LeadProjectName(a, l))
  {
  }

  /** Only the first sentinel is removed: a date that is the sentinel
      written twice shows it once. */
  lemma DateSegmentFirstOnly(a: Award)
    requires a.date == Sentinel + Sentinel
    ensures DateSegment(a) == Sentinel
  {
    assert OccursAt(a.date, Sentinel, 0);
    ReplaceFirstAt(a.date, Sentinel, "", 0);
  }

  /** Two overlapping copies of the sentinel: cutting out the first
      leaves no copy at all. */
  lemma DateSegmentOverlap(a: Award)
    requires a.date == "0000-00-0000-00-00"
    ensures OccursAt(a.date, Sentinel, 0) && OccursAt(a.date, Sentinel, 8)
    ensures DateSegment(a) == "00-00-00"
  {
    assert a.date[..10] == Sentinel;
    assert a.date[8..18] == Sentinel;
    ReplaceFirstAt(a.date, Sentinel, "", 0);
    assert a.date[10..] == "00-00-00";
  }

  /** A date too short to hold the sentinel twice never shows the sentinel. */
  lemma DateSegmentNeverSentinel(a: Award)
    requires |a.date| < 2 * |Sentinel|
    ensures DateSegment(a) != Sentinel
  {
    if k: nat :| OccursAt(a.date, Sentinel, k) {
      var first := FirstOccurrence(a.date, Sentinel, k);
      ReplaceFirstAt(a.date, Sentinel, "", first);
      assert |DateSegment(a)| == |a.date| - |Sentinel|;
    } else {
      ReplaceFirstAbsent(a.date, Sentinel, "");
      assert !OccursAt(a.date, Sentinel, 0);
    }
  }

  /** The segments are the non-empty ones among affiliation, awarding
      body and date, in that order. */
  lemma SegmentsLayout(a: Award, l: Language)
    ensures Segments(a, l) == Keep(Affiliation(a, l)) + Keep(a.awardedBy) + Keep(DateSegment(a))
  {
    FilterKeepsThree(Affiliation(a, l), a.awardedBy, DateSegment(a));
  }

  lemma FilterKeepsThree(x: string, y: string, z: string)
    ensures FilterTruthy([Some(x), Some(y), Some(z)]) == Keep(x) + Keep(y) + Keep(z)
  {
    var tail := [Some(y), Some(z)];
    assert [Some(x), Some(y), Some(z)] == [Some(x)] + tail;
    assert tail == [Some(y)] + [Some(z)];
    FilterTruthySingle(Some(x));
    FilterTruthySingle(Some(y));
    FilterTruthySingle(Some(z));
    FilterTruthyAppend([Some(y)], [Some(z)]);
    FilterTruthyAppend([Some(x)], tail);
  }

  /** One item of the rendered subtitle: the first value alone, every later
      one behind a " / " divider. */
  datatype SubtitleItem = Lead(value: string) | Divided(value: string)

  /** The divider text. */
  const Divider: string := " / "

  /** `segments.map((value, index) => index !== 0 ? divider + value : value)`. */
  function Render(segments: seq<string>): (items: seq<SubtitleItem>)
    ensures |items| == |segments|
    ensures forall i :: 0 <= i < |items| ==> items[i].value == segments[i]
    ensures forall i :: 0 <= i < |items| ==> (items[i].Divided? <==> i != 0)
  {
    seq(|segments|, i requires 0 <= i < |segments| => if i != 0 then Divided(segments[i]) else Lead(segments[i]))
  }

  /** Number of dividers drawn. */
  function DividerCount(items: seq<SubtitleItem>): nat {
    if items == [] then 0 else (if items[0].Divided? then 1 else 0) + DividerCount(items[1..])
  }

  lemma {:induction false} DividerCountAll(items: seq<SubtitleItem>)
    requires forall i :: 0 <= i < |items| ==> items[i].Divided?
    ensures DividerCount(items) == |items|
  {
    if items != [] {
      DividerCountAll(items[1..]);
    }
  }

  /** n segments draw max(n - 1, 0) dividers, and nothing at all for none. */
  lemma RenderDividers(segments: seq<string>)
    ensures DividerCount(Render(segments)) == if |segments| == 0 then 0 else |segments| - 1
  {
    var items := Render(segments);
    if items != [] {
      DividerCountAll(items[1..]);
    }
  }

  /** The visible text of the rendered items. */
  function Text(items: seq<SubtitleItem>): string {
    if items == [] then ""
    else (match items[0] case Lead(v) => v case Divided(v) => Divider + v) + Text(items[1..])
  }

  lemma {:induction false} TextOfDivided(items: seq<SubtitleItem>, t: seq<string>)
    requires |items| == |t|
    requires forall i :: 0 <= i < |items| ==> items[i] == Divided(t[i])
    ensures Text(items) == Prefixed(t, Divider)
  {
    if items != [] {
      TextOfDivided(items[1..], t[1..]);
    }
  }

  /** The rendered line reads as the segments joined by " / ". */
  lemma RenderReadsAsJoin(segments: seq<string>)
    ensures Text(Render(segments)) == Join(segments, Divider)
  {
    var items := Render(segments);
    if items != [] {
      TextOfDivided(items[1..], segments[1..]);
      JoinAsPrefixed(segments, Divider);
    }
  }

  /** The subtitle of an award in a language, as rendered. */
  function Subtitle(a: Award, l: Language): (items: seq<SubtitleItem>)
    ensures |items| <= 3
    ensures forall i :: 0 <= i < |items| ==> items[i].value != ""
  {
    Render(Segments(a, l))
  }

  /** Team "Alpha", project "Beta", body "ACME", date "2021-05-01" in Korean
      give "Alpha - Beta", "ACME", "2021-05-01". */
  lemma FullSubtitleExample()
    ensures var team := Team("t", "alpha", "Alpha", None, "", [], []);
      var project := Project("p", "beta", "Beta", None, "", None, [], []);
      var a := Award("a", "award", "Prize", "2021", "ACME", "2021-05-01", [team], [project]);
      Segments(a, Ko) == ["Alpha - Beta", "ACME", "2021-05-01"]
  {
    var team := Team("t", "alpha", "Alpha", None, "", [], []);
    var project := Project("p", "beta", "Beta", None, "", None, [], []);
    var a := Award("a", "award", "Prize", "2021", "ACME", "2021-05-01", [team], [project]);
    assert LeadTeamName(a, Ko) == Some("Alpha");
    assert LeadProjectName(a, Ko) == Some("Beta");
    assert Affiliation(a, Ko) == "Alpha - Beta";
    assert !OccursAt(a.date, Sentinel, 0) by {
      assert a.date[0] != Sentinel[0];
    }
    forall i: nat ensures !OccursAt(a.date, Sentinel, i) {
      if i > 0 {
        assert i + |Sentinel| > |a.date|;
      }
    }
    SegmentsLayout(a, Ko);
    assert Keep(Affiliation(a, Ko)) == ["Alpha - Beta"];
    assert Keep(a.awardedBy) == ["ACME"];
    assert Keep(DateSegment(a)) == ["2021-05-01"];
  }

  /** No team, no project, no body and the sentinel date give no segment. */
  lemma EmptySubtitleExample()
    ensures var a := Award("a", "award", "Prize", "2021", "", Sentinel, [], []);
      Segments(a, Ko) == [] && Subtitle(a, Ko) == []
  {
    var a := Award("a", "award", "Prize", "2021", "", Sentinel, [], []);
    SegmentsLayout(a, Ko);
  }
}
