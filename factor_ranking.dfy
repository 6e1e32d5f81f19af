/** The first question of the report: which numeric columns move the loan
    target most. Each candidate column is scored by the absolute value of its
    correlation with the target, the scores are ranked from strongest to
    weakest, and the five strongest are printed with a short description.
    The correlations themselves are an input: one entry per column, `None`
    where pandas reports NaN. */
module FactorRanking {
  import opened Wrappers

  /** One `(column, |correlation|)` item of the `correlations` dictionary. */
  datatype Factor = Factor(name: string, score: real)

  /** One printed line of the ranking table. */
  datatype ReportRow = ReportRow(rank: nat, factor: string, score: real, impact: string)

  /** The column the report never scores. */
  const IdColumn: string := "ID"

  /** How many ranked factors the table prints. */
  const Shown: nat := 5

  function Abs(x: real): (r: real)
    ensures r >= 0.0
    ensures r == x || r == -x
  {
    if x < 0.0 then -x else x
  }

  /** No column name appears twice. */
  predicate Distinct(s: seq<string>)
  {
    forall i, j :: 0 <= i < j < |s| ==> s[i] != s[j]
  }

  /** The keys of the dictionary, in insertion order. */
  function Names(fs: seq<Factor>): (ns: seq<string>)
    ensures |ns| == |fs|
    ensures forall i :: 0 <= i < |fs| ==> ns[i] == fs[i].name
  {
    if fs == [] then [] else Names(fs[..|fs| - 1]) + [fs[|fs| - 1].name]
  }

  /** `list.index(x)`: the position of the first occurrence of `x`. */
  function IndexOf(s: seq<string>, x: string): (i: nat)
    requires x in s
    ensures i < |s| && s[i] == x && x !in s[..i]
  {
    if s[0] == x then 0
    else
      assert s[1..][..IndexOf(s[1..], x)] == s[1..IndexOf(s[1..], x) + 1];
      1 + IndexOf(s[1..], x)
  }

  /** `list.remove(x)`: drops the first occurrence of `x`, keeping the order
      of the rest. */
  function RemoveFirst(s: seq<string>, x: string): (r: seq<string>)
    requires x in s
    ensures r == s[..IndexOf(s, x)] + s[IndexOf(s, x) + 1..]
    ensures |r| == |s| - 1
    ensures multiset(r) == multiset(s) - multiset{x}
    ensures forall y :: y in r ==> y in s
    ensures forall y :: y != x ==> (y in r <==> y in s)
  {
    var i := IndexOf(s, x);
    assert s == s[..i] + [x] + s[i + 1..];
    s[..i] + s[i + 1..]
  }

  /** Without duplicates, removing `x` leaves the other names, still without
      duplicates, and no `x`. */
  lemma RemoveFirstDistinct(s: seq<string>, x: string)
    requires x in s && Distinct(s)
    ensures Distinct(RemoveFirst(s, x))
    ensures x !in RemoveFirst(s, x)
  {
    var i := IndexOf(s, x);
    var r := RemoveFirst(s, x);
    forall a, b | 0 <= a < b < |r| ensures r[a] != r[b] {
      var a' := if a < i then a else a + 1;
      var b' := if b < i then b else b + 1;
      assert r[a] == s[a'] && r[b] == s[b'];
    }
    forall k | 0 <= k < |r| ensures r[k] != x {
      var k' := if k < i then k else k + 1;
      assert r[k] == s[k'];
    }
  }

  /** The columns the loop visits: the numeric columns with the target
      removed when it is one of them. */
  function Candidates(numericCols: seq<string>, target: string): (cols: seq<string>)
    ensures target in numericCols ==> |cols| == |numericCols| - 1
    ensures target in numericCols ==> cols == RemoveFirst(numericCols, target)
    ensures target !in numericCols ==> cols == numericCols
    ensures forall y :: y in cols ==> y in numericCols
    ensures forall y :: y != target ==> (y in cols <==> y in numericCols)
  {
    if target in numericCols then RemoveFirst(numericCols, target) else numericCols
  }

  /** What the loop leaves in `correlations` after visiting `cols`: every
      column other than 'ID' whose correlation is defined, with its absolute
      value, in visiting order. */
  function Scored(cols: seq<string>, corr: map<string, Option<real>>): seq<Factor>
    requires forall c :: c in cols ==> c in corr
  {
    if cols == [] then []
    else
      var rest := Scored(cols[..|cols| - 1], corr);
      var c := cols[|cols| - 1];
      if c != IdColumn && corr[c].Some? then rest + [Factor(c, Abs(corr[c].value))] else rest
  }

  /** Every scored item is a visited column other than 'ID' whose
      correlation is defined, scored by the absolute correlation. */
  lemma {:induction false} ScoredSound(cols: seq<string>, corr: map<string, Option<real>>)
    requires forall c :: c in cols ==> c in corr
    ensures forall f :: f in Scored(cols, corr) ==>
      f.name in cols && f.name != IdColumn && corr[f.name].Some? && f.score == Abs(corr[f.name].value)
  {
    if cols != [] {
      var init := cols[..|cols| - 1];
      ScoredSound(init, corr);
      assert forall y :: y in init ==> y in cols;
    }
  }

  /** Appending an item appends its name. */
  lemma NamesSnoc(fs: seq<Factor>, f: Factor)
    ensures Names(fs + [f]) == Names(fs) + [f.name]
  {
    assert (fs + [f])[..|fs|] == fs;
  }

  /** Only visited columns are scored. */
  lemma {:induction false} ScoredNamesVisited(cols: seq<string>, corr: map<string, Option<real>>)
    requires forall c :: c in cols ==> c in corr
    ensures forall y :: y in Names(Scored(cols, corr)) ==> y in cols
  {
    if cols != [] {
      var init := cols[..|cols| - 1];
      var c := cols[|cols| - 1];
      ScoredNamesVisited(init, corr);
      var rest := Scored(init, corr);
      if c != IdColumn && corr[c].Some? {
        NamesSnoc(rest, Factor(c, Abs(corr[c].value)));
      }
      assert forall y :: y in init ==> y in cols;
    }
  }

  /** A visited column is scored exactly when it is not 'ID' and its
      correlation is defined. */
  lemma {:induction false} ScoredComplete(cols: seq<string>, corr: map<string, Option<real>>)
    requires forall c :: c in cols ==> c in corr
    ensures forall y :: y in cols ==> (y in Names(Scored(cols, corr)) <==> y != IdColumn && corr[y].Some?)
  {
    if cols != [] {
      var init := cols[..|cols| - 1];
      var c := cols[|cols| - 1];
      var rest := Scored(init, corr);
      ScoredComplete(init, corr);
      ScoredNamesVisited(init, corr);
      assert cols == init + [c];
      if c != IdColumn && corr[c].Some? {
        NamesSnoc(rest, Factor(c, Abs(corr[c].value)));
      }
    }
  }

  /** Over distinct columns no column is scored twice, so the sequence is a
      faithful picture of the dictionary. */
  lemma {:induction false} ScoredDistinct(cols: seq<string>, corr: map<string, Option<real>>)
    requires forall c :: c in cols ==> c in corr
    requires Distinct(cols)
    ensures Distinct(Names(Scored(cols, corr)))
  {
    if cols != [] {
      var init := cols[..|cols| - 1];
      var c := cols[|cols| - 1];
      assert Distinct(init);
      ScoredDistinct(init, corr);
      var rest := Scored(init, corr);
      if c != IdColumn && corr[c].Some? {
        ScoredNamesVisited(init, corr);
        assert forall i :: 0 <= i < |init| ==> init[i] != c;
        assert c !in Names(rest);
        NamesSnoc(rest, Factor(c, Abs(corr[c].value)));
        var ns := Names(rest) + [c];
        forall i, j | 0 <= i < j < |ns| ensures ns[i] != ns[j] {
          if j == |ns| - 1 {
            assert ns[i] in Names(rest);
          }
        }
      }
    }
  }

  /** With every correlation in [-1, 1], every score is in [0, 1]. */
  lemma {:induction false} ScoresAtMostOne(cols: seq<string>, corr: map<string, Option<real>>)
    requires forall c :: c in cols ==> c in corr
    requires forall c :: c in corr && corr[c].Some? ==> -1.0 <= corr[c].value <= 1.0
    ensures forall f :: f in Scored(cols, corr) ==> 0.0 <= f.score <= 1.0
  {
    if cols != [] {
      ScoresAtMostOne(cols[..|cols| - 1], corr);
    }
  }

  /** The dictionary the loop builds over the candidate columns holds only
      numeric columns other than the target and 'ID' with a defined
      correlation, scored by its absolute value; it holds every such column,
      and none twice. */
  lemma CandidatesScored(numericCols: seq<string>, target: string, corr: map<string, Option<real>>)
    requires Distinct(numericCols)
    requires forall c :: c in numericCols ==> c in corr
    ensures forall f :: f in Scored(Candidates(numericCols, target), corr) ==>
      f.name in numericCols && f.name != target && f.name != IdColumn &&
      corr[f.name].Some? && f.score == Abs(corr[f.name].value)
    ensures forall c :: c in numericCols ==>
      (c in Names(Scored(Candidates(numericCols, target), corr)) <==> c != target && c != IdColumn && corr[c].Some?)
    ensures Distinct(Names(Scored(Candidates(numericCols, target), corr)))
  {
    var cols := Candidates(numericCols, target);
    if target in numericCols {
      RemoveFirstDistinct(numericCols, target);
    }
    assert Distinct(cols) && target !in cols;
    ScoredSound(cols, corr);
    ScoredComplete(cols, corr);
    ScoredNamesVisited(cols, corr);
    ScoredDistinct(cols, corr);
  }

  /** The loop of `analyze_top_factors` that fills the `correlations`
      dictionary, after the target column is removed from the numeric columns. */
  method CollectCorrelations(numericCols: seq<string>, target: string, corr: map<string, Option<real>>)
    returns (correlations: seq<Factor>)
    requires Distinct(numericCols)
    requires forall c :: c in numericCols ==> c in corr
    ensures correlations == Scored(Candidates(numericCols, target), corr)
    ensures forall f :: f in correlations ==>
      f.name in numericCols && f.name != target && f.name != IdColumn &&
      corr[f.name].Some? && f.score == Abs(corr[f.name].value)
    ensures forall c :: c in numericCols ==>
      (c in Names(correlations) <==> c != target && c != IdColumn && corr[c].Some?)
    ensures Distinct(Names(correlations))
  {
    var cols := numericCols;
    if target in cols {
      cols := RemoveFirst(cols, target);
    }
    assert cols == Candidates(numericCols, target);
    correlations := [];
    var i := 0;
    while i < |cols|
      invariant 0 <= i <= |cols|
      invariant correlations == Scored(cols[..i], corr)
    {
      var col := cols[i];
      assert cols[..i + 1][..i] == cols[..i];
      if col != IdColumn {
        var c := corr[col];
        if c.Some? {
          correlations := correlations + [Factor(col, Abs(c.value))];
        }
      }
      i := i + 1;
    }
    assert cols[..|cols|] == cols;
    CandidatesScored(numericCols, target, corr);
  }

  /** Scores never increase along the sequence. */
  predicate NonIncreasing(fs: seq<Factor>)
  {
    forall i, j :: 0 <= i < j < |fs| ==> fs[i].score >= fs[j].score
  }

  /** Places `x` before the first item scoring no more than it, so that of
      two equal scores the one inserted later comes first. */
  function Insert(x: Factor, s: seq<Factor>): (r: seq<Factor>)
    ensures multiset(r) == multiset(s) + multiset{x}
    ensures forall y :: y in r <==> y in s || y == x
  {
    if s == [] || s[0].score <= x.score then [x] + s
    else
      assert s == [s[0]] + s[1..];
      [s[0]] + Insert(x, s[1..])
  }

  /** Inserting into a ranking keeps it ranked. */
  lemma {:induction false} InsertRanked(x: Factor, s: seq<Factor>)
    requires NonIncreasing(s)
    ensures NonIncreasing(Insert(x, s))
  {
    if s != [] && s[0].score > x.score {
      InsertRanked(x, s[1..]);
      var t := Insert(x, s[1..]);
      forall y | y in t ensures s[0].score >= y.score {
        if y != x {
          var i :| 0 <= i < |s[1..]| && s[1..][i] == y;
          assert s[i + 1] == y;
        }
      }
      var r := [s[0]] + t;
      forall i, j | 0 <= i < j < |r| ensures r[i].score >= r[j].score {
        if i == 0 {
          assert r[j] in t;
        } else {
          assert r[i] == t[i - 1] && r[j] == t[j - 1];
        }
      }
    }
  }

  /** `sorted(correlations.items(), key=score, reverse=True)`: Python's
      sort is stable, also with `reverse=True`, so equal scores keep their
      dictionary order. */
  function Rank(fs: seq<Factor>): (r: seq<Factor>)
    ensures multiset(r) == multiset(fs)
    ensures forall y :: y in r <==> y in fs
    ensures NonIncreasing(r)
  {
    if fs == [] then []
    else
      assert fs == [fs[0]] + fs[1..];
      InsertRanked(fs[0], Rank(fs[1..]));
      Insert(fs[0], Rank(fs[1..]))
  }

  /** No two items share a name. */
  predicate DistinctNames(fs: seq<Factor>)
  {
    forall i, j :: 0 <= i < j < |fs| ==> fs[i].name != fs[j].name
  }

  /** Inserting an item with a new name keeps the names distinct. */
  lemma {:induction false} InsertDistinctNames(x: Factor, s: seq<Factor>)
    requires DistinctNames(s)
    requires forall y :: y in s ==> y.name != x.name
    ensures DistinctNames(Insert(x, s))
  {
    if s != [] && s[0].score > x.score {
      assert DistinctNames(s[1..]);
      InsertDistinctNames(x, s[1..]);
      var t := Insert(x, s[1..]);
      var r := [s[0]] + t;
      forall i, j | 0 <= i < j < |r| ensures r[i].name != r[j].name {
        if i == 0 {
          assert r[j] in t;
          if r[j] != x {
            var k :| 0 <= k < |s[1..]| && s[1..][k] == r[j];
            assert s[k + 1] == r[j];
          }
        } else {
          assert r[i] == t[i - 1] && r[j] == t[j - 1];
        }
      }
    } else if s == [] || s[0].score <= x.score {
      var r := [x] + s;
      forall i, j | 0 <= i < j < |r| ensures r[i].name != r[j].name {
        if i == 0 {
          assert r[j] in s;
        } else {
          assert r[i] == s[i - 1] && r[j] == s[j - 1];
        }
      }
    }
  }

  /** The ranking keeps the dictionary's keys distinct. */
  lemma {:induction false} RankDistinctNames(fs: seq<Factor>)
    requires DistinctNames(fs)
    ensures DistinctNames(Rank(fs))
  {
    if fs != [] {
      assert DistinctNames(fs[1..]);
      RankDistinctNames(fs[1..]);
      forall y | y in Rank(fs[1..]) ensures y.name != fs[0].name {
        var k :| 0 <= k < |fs[1..]| && fs[1..][k] == y;
        assert fs[k + 1] == y;
      }
      InsertDistinctNames(fs[0], Rank(fs[1..]));
    }
  }

  /** The items with score `v`, in order. */
  function WithScore(fs: seq<Factor>, v: real): seq<Factor>
  {
    if fs == [] then []
    else (if fs[0].score == v then [fs[0]] else []) + WithScore(fs[1..], v)
  }

  lemma {:induction false} WithScoreInsert(x: Factor, s: seq<Factor>, v: real)
    ensures WithScore(Insert(x, s), v) == (if x.score == v then [x] else []) + WithScore(s, v)
  {
    if s == [] || s[0].score <= x.score {
      assert ([x] + s)[1..] == s;
    } else {
      WithScoreInsert(x, s[1..], v);
      assert ([s[0]] + Insert(x, s[1..]))[1..] == Insert(x, s[1..]);
    }
  }

  /** Stability: the ranking lists the factors of any one score in the order
      the dictionary held them. */
  lemma {:induction false} RankStable(fs: seq<Factor>, v: real)
    ensures WithScore(Rank(fs), v) == WithScore(fs, v)
  {
    if fs != [] {
      RankStable(fs[1..], v);
      WithScoreInsert(fs[0], Rank(fs[1..]), v);
    }
  }

  /** The factors the table prints: the first five of the ranking, or all of
      them when there are fewer. */
  function TopFactors(ranked: seq<Factor>): (top: seq<Factor>)
    ensures |top| == if |ranked| < Shown then |ranked| else Shown
    ensures top <= ranked
  {
    if |ranked| < Shown then ranked else ranked[..Shown]
  }

  /** The default description for a column the table does not know. */
  const DefaultImpact: string := "Positive correlation with acceptance"

  /** The descriptions `get_factor_impact` knows. */
  const Impacts: map<string, string> := map[
    "Income" := "Higher income = higher acceptance",
    "CCAvg" := "High spenders more likely to accept",
    "CD Account" := "CD holders show more interest",
    "Mortgage" := "Existing borrowers more receptive",
    "Education" := "Higher education = higher rates"
  ]

  /** `get_factor_impact`: `impacts.get(factor, default)`. No known column
      carries the default text, so the default is printed exactly for the
      columns the table does not know. */
  function FactorImpact(factor: string): (impact: string)
    ensures factor in Impacts ==> impact == Impacts[factor]
    ensures impact == DefaultImpact <==> factor !in Impacts
  {
    if factor in Impacts then Impacts[factor] else DefaultImpact
  }

  /** The printed rows: rank from 1, column, score and description. */
  function ReportRows(ranked: seq<Factor>): (rows: seq<ReportRow>)
    ensures |rows| == |TopFactors(ranked)|
  {
    var top := TopFactors(ranked);
    seq(|top|, i requires 0 <= i < |top| =>
      ReportRow(i + 1, top[i].name, top[i].score, FactorImpact(top[i].name)))
  }

  /** The rows number the first five factors 1, 2, ... in ranking order,
      each with its own score and description. */
  lemma ReportRowsContents(ranked: seq<Factor>)
    ensures forall i :: 0 <= i < |ReportRows(ranked)| ==>
      ReportRows(ranked)[i].rank == i + 1 &&
      ReportRows(ranked)[i].factor == ranked[i].name &&
      ReportRows(ranked)[i].score == ranked[i].score &&
      ReportRows(ranked)[i].impact == FactorImpact(ranked[i].name)
  {
  }

  /** On a ranking, no printed score falls below a factor left off the table. */
  lemma ReportRowsShowBest(ranked: seq<Factor>)
    requires NonIncreasing(ranked)
    ensures forall i, j :: 0 <= i < |ReportRows(ranked)| <= j < |ranked| ==>
      ReportRows(ranked)[i].score >= ranked[j].score
  {
  }

  /** `analyze_top_factors`: the full ranking it returns and the rows it
      prints. */
  method AnalyzeTopFactors(numericCols: seq<string>, target: string, corr: map<string, Option<real>>)
    returns (topFactors: seq<Factor>, rows: seq<ReportRow>)
    requires Distinct(numericCols)
    requires forall c :: c in numericCols ==> c in corr
    ensures topFactors == Rank(Scored(Candidates(numericCols, target), corr))
    ensures NonIncreasing(topFactors)
    ensures forall f :: f in topFactors ==>
      f.name in numericCols && f.name != target && f.name != IdColumn &&
      corr[f.name].Some? && f.score == Abs(corr[f.name].value)
    ensures forall c :: c in numericCols && c != target && c != IdColumn && corr[c].Some? ==>
      exists f :: f in topFactors && f.name == c
    ensures Distinct(Names(topFactors))
    ensures rows == ReportRows(topFactors)
  {
    var correlations := CollectCorrelations(numericCols, target, corr);
    topFactors := Rank(correlations);
    RankDistinctNames(correlations);
    forall c | c in numericCols && c != target && c != IdColumn && corr[c].Some?
      ensures exists f :: f in topFactors && f.name == c
    {
      var ns := Names(correlations);
      var k :| 0 <= k < |ns| && ns[k] == c;
      assert correlations[k] in correlations;
    }
    rows := ReportRows(topFactors);
  }
}
