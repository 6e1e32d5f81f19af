/** The segment analysis: the fixed risk-level policy on an acceptance rate,
    and the education segmentation (`df.groupby('Education')`), with its
    per-level rates, counts and the level `idxmax` picks. */
module Segments {
  import opened Wrappers
  import opened Records
  import opened Means

  datatype RiskLevel = HighRisk | MediumRisk | LowRisk

  /** The label the report prints for a risk level. */
  function Label(level: RiskLevel): string
  {
    match level
    case HighRisk => "HIGH RISK"
    case MediumRisk => "MEDIUM RISK"
    case LowRisk => "LOW RISK"
  }

  /** How risky a level is: HIGH RISK is the riskiest. */
  function Severity(level: RiskLevel): nat
  {
    match level
    case HighRisk => 2
    case MediumRisk => 1
    case LowRisk => 0
  }

  /** `get_risk_level`: below 5% is high risk, below 15% medium, otherwise low;
      a rate on a boundary falls in the band of the higher rates. */
  function Classify(rate: real): (level: RiskLevel)
    ensures level == HighRisk <==> rate < 0.05
    ensures level == MediumRisk <==> 0.05 <= rate < 0.15
    ensures level == LowRisk <==> 0.15 <= rate
  {
    if rate < 0.05 then HighRisk
    else if rate < 0.15 then MediumRisk
    else LowRisk
  }

  /** The string `get_risk_level` returns. */
  function RiskLabel(rate: real): (text: string)
    ensures text == "HIGH RISK" <==> rate < 0.05
    ensures text == "MEDIUM RISK" <==> 0.05 <= rate < 0.15
    ensures text == "LOW RISK" <==> 0.15 <= rate
  {
    Label(Classify(rate))
  }

  /** A higher acceptance rate never gets a riskier label. */
  lemma ClassifyMonotone(lower: real, higher: real)
    requires lower <= higher
    ensures Severity(Classify(higher)) <= Severity(Classify(lower))
  {
  }

  /** The table `education_labels`, read with `.get(level)`: the name of
      levels 1 to 3, and nothing for any other level. */
  function EducationLabel(level: int): (name: Option<string>)
    ensures level == 1 <==> name == Some("Undergraduate")
    ensures level == 2 <==> name == Some("Graduate")
    ensures level == 3 <==> name == Some("Advanced/Professional")
    ensures name.None? <==> level !in {1, 2, 3}
  {
    if level == 1 then Some("Undergraduate")
    else if level == 2 then Some("Graduate")
    else if level == 3 then Some("Advanced/Professional")
    else None
  }

  predicate StrictlyIncreasing(ls: seq<int>)
  {
    forall i, j :: 0 <= i < j < |ls| ==> ls[i] < ls[j]
  }

  /** True when some row of the table has this education level. */
  predicate Present(d: Dataset, level: int)
  {
    exists x :: x in d && x.education == level
  }

  /** Adds a level to an ascending list of distinct levels. */
  function InsertLevel(ls: seq<int>, e: int): (r: seq<int>)
    requires StrictlyIncreasing(ls)
    ensures StrictlyIncreasing(r)
    ensures forall y :: y in r <==> y in ls || y == e
  {
    if ls == [] then [e]
    else if e < ls[0] then [e] + ls
    else if e == ls[0] then ls
    else
      var rest := InsertLevel(ls[1..], e);
      assert forall y :: y in ls[1..] ==> ls[0] < y by {
        forall y | y in ls[1..] ensures ls[0] < y {
          var k :| 0 <= k < |ls[1..]| && ls[1..][k] == y;
          assert ls[k + 1] == y;
        }
      }
      var r := [ls[0]] + rest;
      forall i, j | 0 <= i < j < |r| ensures r[i] < r[j] {
        if i == 0 {
          assert r[j] == rest[j - 1] && rest[j - 1] in rest;
        } else {
          assert r[i] == rest[i - 1] && r[j] == rest[j - 1];
        }
      }
      r
  }

  /** The group keys of `df.groupby('Education')`: every level that occurs,
      once, in ascending order. */
  function Levels(d: Dataset): (ls: seq<int>)
    ensures StrictlyIncreasing(ls)
    ensures forall e :: e in ls <==> Present(d, e)
  {
    if d == [] then []
    else
      var rest := Levels(d[1..]);
      assert forall e :: Present(d, e) <==> e == d[0].education || Present(d[1..], e) by {
        forall e ensures Present(d, e) <==> e == d[0].education || Present(d[1..], e) {
          if Present(d, e) && e != d[0].education {
            var x :| x in d && x.education == e;
            assert x in d[1..];
          }
        }
      }
      InsertLevel(rest, d[0].education)
  }

  /** The decimal digits of a non-negative integer, most significant first. */
  function Digits(n: nat): (s: string)
    ensures |s| > 0
    ensures forall i :: 0 <= i < |s| ==> '0' <= s[i] <= '9'
  {
    var last := "0123456789"[n % 10];
    if n < 10 then [last] else Digits(n / 10) + [last]
  }

  /** How Python formats an integer in an f-string. */
  function Decimal(n: int): string
  {
    if n < 0 then "-" + Digits(-n) else Digits(n)
  }

  /** The name the segment table prints for a level: `education_labels.get`
      with the fallback `f'Level {edu_level}'`. */
  function SegmentName(level: int): (name: string)
    ensures EducationLabel(level).Some? ==> name == EducationLabel(level).value
    ensures EducationLabel(level).None? ==> name == "Level " + Decimal(level)
  {
    match EducationLabel(level)
    case Some(known) => known
    case None => "Level " + Decimal(level)
  }

  /** A level's name reads back to it: the three known names name levels 1
      to 3, and every other level gets a "Level ..." name, so no two levels
      of the table print the same name through the known labels. */
  lemma SegmentNameKnown(level: int)
    ensures SegmentName(level) == "Undergraduate" <==> level == 1
    ensures SegmentName(level) == "Graduate" <==> level == 2
    ensures SegmentName(level) == "Advanced/Professional" <==> level == 3
  {
    if EducationLabel(level).None? {
      assert SegmentName(level)[0] == 'L';
    }
  }

  /** One line of the education segment table. */
  datatype Segment = Segment(level: int, name: string, rate: real, risk: RiskLevel, count: nat)

  /** The segment of one level that occurs: the group mean of the target, its
      risk level and `(df['Education'] == level).sum()`. */
  function SegmentOf(d: Dataset, level: int): (s: Segment)
    requires Present(d, level)
    ensures s.level == level && s.name == SegmentName(level)
    ensures s.count == Count(d, EducationIs(level)) && s.count > 0
    ensures 0.0 <= s.rate <= 1.0 && s.risk == Classify(s.rate)
    ensures s.rate == Rate(Select(d, EducationIs(level))).value
  {
    var rows := Select(d, EducationIs(level));
    PresentSelected(d, level);
    var count := Count(d, EducationIs(level));
    CountIsSelected(d, EducationIs(level));
    assert count == |rows|;
    var rate := Rate(rows).value;
    Segment(level, SegmentName(level), rate, Classify(rate), count)
  }

  /** A level that occurs has a non-empty group. */
  lemma PresentSelected(d: Dataset, level: int)
    requires Present(d, level)
    ensures Select(d, EducationIs(level)) != []
  {
    var x :| x in d && x.education == level;
    assert x in Select(d, EducationIs(level));
  }

  function SegmentsFor(d: Dataset, ls: seq<int>): (segs: seq<Segment>)
    requires forall l :: l in ls ==> Present(d, l)
    ensures |segs| == |ls|
    ensures forall i :: 0 <= i < |ls| ==> segs[i] == SegmentOf(d, ls[i])
  {
    if ls == [] then [] else [SegmentOf(d, ls[0])] + SegmentsFor(d, ls[1..])
  }

  /** The education segment table, one line per level that occurs, in
      ascending level order. */
  function EducationSegments(d: Dataset): (segs: seq<Segment>)
    ensures |segs| == |Levels(d)|
    ensures forall i :: 0 <= i < |segs| ==> segs[i] == SegmentOf(d, Levels(d)[i])
  {
    SegmentsFor(d, Levels(d))
  }

  /** `idxmax` over the group rates: the first position holding the largest rate. */
  function BestIndex(segs: seq<Segment>): (k: nat)
    requires |segs| > 0
    ensures k < |segs|
    ensures forall j :: 0 <= j < |segs| ==> segs[j].rate <= segs[k].rate
    ensures forall j :: 0 <= j < k ==> segs[j].rate < segs[k].rate
  {
    if |segs| == 1 then 0
    else
      var k := BestIndex(segs[..|segs| - 1]);
      if segs[|segs| - 1].rate > segs[k].rate then |segs| - 1 else k
  }

  /** The level `idxmax` picks has the largest group rate, and every lower
      level (every group printed before it) has a strictly smaller one. */
  lemma BestSegmentDominates(d: Dataset)
    requires |EducationSegments(d)| > 0
    ensures forall s :: s in EducationSegments(d) ==>
      s.rate <= EducationSegments(d)[BestIndex(EducationSegments(d))].rate
    ensures forall s :: s in EducationSegments(d) && s.level < EducationSegments(d)[BestIndex(EducationSegments(d))].level ==>
      s.rate < EducationSegments(d)[BestIndex(EducationSegments(d))].rate
  {
    var segs := EducationSegments(d);
    var ls := Levels(d);
    var k := BestIndex(segs);
    forall s | s in segs
      ensures s.rate <= segs[k].rate
      ensures s.level < segs[k].level ==> s.rate < segs[k].rate
    {
      var j :| 0 <= j < |segs| && segs[j] == s;
      assert segs[j].level == ls[j] && segs[k].level == ls[k];
      assert k <= j ==> ls[k] <= ls[j];
    }
  }

  /** The sum over a list of levels of the rows with that level. */
  function CountIn(d: Dataset, ls: seq<int>): nat
  {
    if ls == [] then 0 else Count(d, EducationIs(ls[0])) + CountIn(d, ls[1..])
  }

  /** The sum over a list of levels of the accepting rows with that level. */
  function AcceptedIn(d: Dataset, ls: seq<int>): nat
  {
    if ls == [] then 0 else Accepted(Select(d, EducationIs(ls[0]))) + AcceptedIn(d, ls[1..])
  }

  /** The sum of the group sizes of a segment table. */
  function TotalCount(segs: seq<Segment>): nat
  {
    if segs == [] then 0 else segs[0].count + TotalCount(segs[1..])
  }

  lemma {:induction false} AddRow(x: Customer, d: Dataset, ls: seq<int>)
    requires StrictlyIncreasing(ls)
    ensures CountIn([x] + d, ls) == CountIn(d, ls) + (if x.education in ls then 1 else 0)
    ensures AcceptedIn([x] + d, ls) == AcceptedIn(d, ls) + (if x.education in ls then x.personalLoan else 0)
  {
    if ls != [] {
      assert ([x] + d)[1..] == d;
      AddRow(x, d, ls[1..]);
      assert x.education in ls <==> x.education == ls[0] || x.education in ls[1..];
      if x.education == ls[0] {
        assert ls[0] !in ls[1..];
      }
    }
  }

  /** Grouping by education partitions the table: over a list of distinct
      levels that covers every row, the group sizes add up to the table size
      and the accepting rows of the groups to those of the table. */
  lemma {:induction false} GroupsPartition(d: Dataset, ls: seq<int>)
    requires StrictlyIncreasing(ls)
    requires forall x :: x in d ==> x.education in ls
    ensures CountIn(d, ls) == |d|
    ensures AcceptedIn(d, ls) == Accepted(d)
  {
    if d == [] {
      EmptyGroups(ls);
    } else {
      assert d == [d[0]] + d[1..];
      GroupsPartition(d[1..], ls);
      AddRow(d[0], d[1..], ls);
    }
  }

  lemma {:induction false} EmptyGroups(ls: seq<int>)
    ensures CountIn([], ls) == 0 && AcceptedIn([], ls) == 0
  {
    if ls != [] {
      EmptyGroups(ls[1..]);
    }
  }

  lemma {:induction false} SegmentsForCounts(d: Dataset, ls: seq<int>)
    requires forall l :: l in ls ==> Present(d, l)
    ensures TotalCount(SegmentsFor(d, ls)) == CountIn(d, ls)
  {
    if ls != [] {
      assert SegmentsFor(d, ls)[1..] == SegmentsFor(d, ls[1..]);
      SegmentsForCounts(d, ls[1..]);
    }
  }

  /** The per-level counts of the education table sum to the population. */
  lemma SegmentsCoverTable(d: Dataset)
    ensures TotalCount(EducationSegments(d)) == |d|
  {
    var ls := Levels(d);
    forall x | x in d ensures x.education in ls {
      assert Present(d, x.education);
    }
    GroupsPartition(d, ls);
    SegmentsForCounts(d, ls);
  }

  /** The accepting rows of each level's group, as reals. */
  function GroupAccepted(d: Dataset, ls: seq<int>): (r: seq<real>)
    ensures |r| == |ls|
    ensures forall i :: 0 <= i < |ls| ==> r[i] == Accepted(Select(d, EducationIs(ls[i]))) as real
    ensures Sum(r) == AcceptedIn(d, ls) as real
  {
    if ls == [] then [] else [Accepted(Select(d, EducationIs(ls[0]))) as real] + GroupAccepted(d, ls[1..])
  }

  /** The size of each level's group, as reals. */
  function GroupCounts(d: Dataset, ls: seq<int>): (r: seq<real>)
    ensures |r| == |ls|
    ensures forall i :: 0 <= i < |ls| ==> r[i] == Count(d, EducationIs(ls[i])) as real
    ensures Sum(r) == CountIn(d, ls) as real
  {
    if ls == [] then [] else [Count(d, EducationIs(ls[0])) as real] + GroupCounts(d, ls[1..])
  }

  /** When no education group's rate exceeds `m`, neither does the overall rate. */
  lemma OverallWithin(d: Dataset, m: real)
    requires d != []
    requires forall l :: Present(d, l) ==> Rate(Select(d, EducationIs(l))).value <= m
    ensures Rate(d).value <= m
  {
    var ls := Levels(d);
    forall x | x in d ensures x.education in ls {
      assert Present(d, x.education);
    }
    GroupsPartition(d, ls);
    var a, c := GroupAccepted(d, ls), GroupCounts(d, ls);
    forall i | 0 <= i < |c| ensures c[i] > 0.0 && a[i] / c[i] <= m {
      var rows := Select(d, EducationIs(ls[i]));
      PresentSelected(d, ls[i]);
      CountIsSelected(d, EducationIs(ls[i]));
      assert Rate(rows).value == a[i] / c[i];
    }
    WeightedMeanBound(a, c, m);
  }

  /** The best education level's rate is at least the overall rate: the overall
      rate is the size-weighted mean of the group rates. */
  lemma BestRateNotBelowOverall(d: Dataset)
    requires d != []
    ensures |EducationSegments(d)| > 0
    ensures Rate(d).value <= EducationSegments(d)[BestIndex(EducationSegments(d))].rate
  {
    var segs := EducationSegments(d);
    var ls := Levels(d);
    assert d[0] in d;
    assert Present(d, d[0].education);
    var m := segs[BestIndex(segs)].rate;
    forall l | Present(d, l) ensures Rate(Select(d, EducationIs(l))).value <= m {
      var i :| 0 <= i < |ls| && ls[i] == l;
      assert segs[i] == SegmentOf(d, l);
    }
    OverallWithin(d, m);
  }
}
