/** The targeting rules: four criteria over the table, each reported with the
    number of customers it selects, their acceptance rate and the uplift of
    that rate over the overall rate. The quantile thresholds are inputs. */
module Rules {
  import opened Wrappers
  import opened Means
  import opened Records
  import opened Segments

  /** What the report prints for a threshold rule. */
  datatype RuleReport = RuleReport(count: nat, conversion: Option<real>, uplift: Option<real>)

  /** What the report prints for the education rule. */
  datatype EducationRule = EducationRule(level: int, name: Option<string>, conversion: real, count: nat, uplift: Option<real>)

  /** The four rules, in the order the report prints them. */
  datatype RiskRules = RiskRules(highIncome: RuleReport, education: EducationRule, highSpending: RuleReport, premium: RuleReport)

  /** `segment_rate / overall_rate`. The division is not guarded: a NaN
      operand or a zero overall rate gives numpy's NaN or infinity, which is
      `None` here. */
  function Uplift(segment: Option<real>, overall: Option<real>): (u: Option<real>)
    ensures u.Some? <==> segment.Some? && overall.Some? && overall.value != 0.0
    ensures u.Some? ==> u.value * overall.value == segment.value
  {
    if segment.Some? && overall.Some? && overall.value != 0.0 then
      var q := segment.value / overall.value;
      QuotientTimes(q, segment.value, overall.value);
      Some(q)
    else None
  }

  /** One threshold rule: the mask's count, the acceptance rate of the rows
      it keeps, and the uplift of that rate over the whole table's. */
  function Evaluate(d: Dataset, c: Criterion): (r: RuleReport)
    ensures r.count == Count(d, c) == |Select(d, c)| && r.count <= |d|
    ensures r.conversion == Rate(Select(d, c))
    ensures r.uplift == Uplift(r.conversion, Rate(d))
    ensures r.conversion.Some? <==> r.count > 0
    ensures r.conversion.Some? ==> 0.0 <= r.conversion.value <= 1.0
    ensures r.uplift.Some? <==> r.count > 0 && Rate(d).Some? && Rate(d).value != 0.0
  {
    var rows := Select(d, c);
    CountIsSelected(d, c);
    RuleReport(Count(d, c), Rate(rows), Uplift(Rate(rows), Rate(d)))
  }

  /** Rule 1: customers whose Income is at least the 0.8 quantile. */
  function HighIncome(incomeQ80: real): Criterion
  {
    IncomeAtLeast(incomeQ80)
  }

  /** Rule 3: customers whose CCAvg is at least the 0.75 quantile. */
  function HighSpending(ccQ75: real): Criterion
  {
    CCAvgAtLeast(ccQ75)
  }

  /** Rule 4: the `&` of the Income 0.8-quantile mask and the CCAvg
      0.7-quantile mask (a lower spending quantile than Rule 3's). */
  function Premium(incomeQ80: real, ccQ70: real): Criterion
  {
    Both(IncomeAtLeast(incomeQ80), CCAvgAtLeast(ccQ70))
  }

  /** Rule 2: the education level `idxmax` picks over the group rates, with
      its rate, `(df['Education'] == level).sum()` and uplift. On an empty
      table `idxmax` raises, which is `None` here. */
  function BestEducation(d: Dataset): (r: Option<EducationRule>)
    ensures r.None? <==> d == []
    ensures r.Some? ==> Present(d, r.value.level) && r.value.name == EducationLabel(r.value.level)
    ensures r.Some? ==> r.value.count == Count(d, EducationIs(r.value.level)) && r.value.count > 0
    ensures r.Some? ==> r.value.conversion == Rate(Select(d, EducationIs(r.value.level))).value
    ensures r.Some? ==> forall s :: s in EducationSegments(d) ==> s.rate <= r.value.conversion
    ensures r.Some? ==> forall s :: s in EducationSegments(d) && s.level < r.value.level ==> s.rate < r.value.conversion
    ensures r.Some? ==> r.value.uplift == Uplift(Some(r.value.conversion), Rate(d))
  {
    if d == [] then None
    else
      var segs := EducationSegments(d);
      NonEmptyHasLevel(d);
      BestSegmentDominates(d);
      var best := segs[BestIndex(segs)];
      Some(EducationRule(best.level, EducationLabel(best.level), best.rate, best.count, Uplift(Some(best.rate), Rate(d))))
  }

  lemma NonEmptyHasLevel(d: Dataset)
    requires d != []
    ensures |EducationSegments(d)| > 0
  {
    assert d[0] in d;
    assert Present(d, d[0].education);
  }

  /** `generate_risk_rules`, given the quantiles it reads from the table:
      the Income 0.8 quantile and the CCAvg 0.75 and 0.7 quantiles. On an
      empty table `idxmax` raises at Rule 2 and the run stops, so there are
      no rules (`None`). */
  function GenerateRiskRules(d: Dataset, incomeQ80: real, ccQ75: real, ccQ70: real): (rules: Option<RiskRules>)
    ensures rules.None? <==> d == []
    ensures rules.Some? ==> rules.value.highIncome == Evaluate(d, HighIncome(incomeQ80))
    ensures rules.Some? ==> Some(rules.value.education) == BestEducation(d)
    ensures rules.Some? ==> rules.value.highSpending == Evaluate(d, HighSpending(ccQ75))
    ensures rules.Some? ==> rules.value.premium == Evaluate(d, Premium(incomeQ80, ccQ70))
    ensures rules.Some? ==> rules.value.premium.count <= rules.value.highIncome.count
    ensures rules.Some? ==> rules.value.premium.count <= Count(d, CCAvgAtLeast(ccQ70))
    ensures rules.Some? && ccQ70 <= ccQ75 ==> rules.value.highSpending.count <= Count(d, CCAvgAtLeast(ccQ70))
  {
    if d == [] then None
    else
      var highIncome := Evaluate(d, HighIncome(incomeQ80));
      var highSpending := Evaluate(d, HighSpending(ccQ75));
      var premium := Evaluate(d, Premium(incomeQ80, ccQ70));
      BothNarrows(d, IncomeAtLeast(incomeQ80), CCAvgAtLeast(ccQ70));
      assert ccQ70 <= ccQ75 ==> highSpending.count <= Count(d, CCAvgAtLeast(ccQ70)) by {
        if ccQ70 <= ccQ75 {
          ThresholdMonotone(d, ccQ70, ccQ75);
        }
      }
      Some(RiskRules(highIncome, BestEducation(d).value, highSpending, premium))
  }

  /** A rule that selects every customer has uplift exactly 1 whenever the
      overall rate is positive. */
  lemma UpliftOneOnWholeTable(d: Dataset, c: Criterion)
    requires forall x :: x in d ==> Holds(c, x)
    requires Rate(d).Some? && Rate(d).value > 0.0
    ensures Evaluate(d, c).uplift == Some(1.0)
  {
    SelectEverything(d, c);
    var u := Evaluate(d, c).uplift;
    QuotientOne(u.value, Rate(d).value);
  }

  /** An uplift is above 1 exactly when the segment converts better than the
      table, and below 1 exactly when it converts worse. */
  lemma UpliftComparesRates(segment: real, overall: real)
    requires overall > 0.0
    ensures Uplift(Some(segment), Some(overall)).value > 1.0 <==> segment > overall
    ensures Uplift(Some(segment), Some(overall)).value < 1.0 <==> segment < overall
  {
    var u := Uplift(Some(segment), Some(overall)).value;
    ProductCompare(u, overall, segment);
  }

  /** The education rule never converts worse than the whole table, so its
      uplift is at least 1 whenever it is defined. */
  lemma EducationUpliftAtLeastOne(d: Dataset)
    requires d != []
    ensures Rate(d).value <= BestEducation(d).value.conversion
    ensures BestEducation(d).value.uplift.Some? ==> BestEducation(d).value.uplift.value >= 1.0
  {
    BestRateNotBelowOverall(d);
    var r := BestEducation(d).value;
    var segs := EducationSegments(d);
    assert segs[BestIndex(segs)] in segs;
    if r.uplift.Some? {
      assert Rate(d).value > 0.0;
      UpliftComparesRates(r.conversion, Rate(d).value);
    }
  }
}
