/** Which rows are accepted and what becomes of them, and what a component summary holds, cell by cell. */
module EntryLaws {
  import opened Options
  import opened Text
  import opened Marks

  predicate IsBlank(scores: Scores, id: string) {
    id !in scores || scores[id] == Blank
  }

  /** A number from zero to the maximum, which must be positive. */
  predicate IsWithin(v: int, maximum: int) {
    0 < maximum && 0 <= v <= maximum
  }

  /** The cell of a component: blank where that is allowed, or a score within the component's bounds. */
  predicate CellFits(scores: Scores, c: Component, blankAllowed: bool) {
    if IsBlank(scores, c.id) then blankAllowed else scores[c.id].Score? && IsWithin(scores[c.id].hundredths, c.maxScore)
  }

  ghost predicate ComponentsFit(components: seq<Component>, scores: Scores, complete: bool) {
    forall i :: 0 <= i < |components| ==> CellFits(scores, components[i], !components[i].required || !complete)
  }

  lemma {:induction false} ComponentsOutcome(components: seq<Component>, scores: Scores, complete: bool)
    ensures CheckComponents(components, scores, complete) == None <==> ComponentsFit(components, scores, complete)
  {
    if components != [] {
      var n := |components| - 1;
      ComponentsOutcome(components[..n], scores, complete);
      assert components == components[..n] + [components[n]];
    }
  }

  /** Every key that is filled, whether it names a component or not, holds a number. */
  ghost predicate AllNumbers(scores: Scores) {
    forall k :: k in scores ==> scores[k] == Blank || scores[k].Score?
  }

  ghost function Total(scores: Scores): int
    requires AllNumbers(scores)
  {
    SumOver(scores, set k | k in scores && scores[k] != Blank)
  }

  /** What the checks ask of a row by itself. */
  ghost predicate RowFits(row: Row, roster: set<string>, maximum: int, components: seq<Component>, complete: bool) {
    && Strip(row.studentId) != "" && Strip(row.studentId) in roster
    && if components == [] then
         match row.rawScore
         case Blank => !complete
         case NotANumber => false
         case Score(v) => IsWithin(v, maximum)
       else
         ComponentsFit(components, row.scores, complete) && AllNumbers(row.scores)
         && IsWithin(Total(row.scores), maximum)
  }

  /** The accepted row names the learner and repeats what was entered, with the entered score or the total. */
  ghost predicate RepeatsRow(mark: MarkRow, row: Row, components: seq<Component>) {
    && mark.studentId == Strip(row.studentId)
    && mark.scores == row.scores && mark.remarks == row.remarks
    && (components == [] ==> mark.rawScore == if row.rawScore.Score? then Some(row.rawScore.hundredths) else None)
    && (components != [] && row.scores == map[] ==> mark.rawScore == None)
    && (components != [] && row.scores != map[] ==>
          AllNumbers(row.scores) && mark.rawScore == Some(Total(row.scores)))
  }

  lemma FilledIs(scores: Scores)
    ensures Filled(scores) == set k | k in scores && scores[k] != Blank
    ensures Numeric(scores, Filled(scores)) <==> AllNumbers(scores)
  {
  }

  lemma BoundsOutcome(v: int, maximum: int)
    ensures CheckBounds(v, maximum) == None <==> IsWithin(v, maximum)
  {
  }

  lemma RowOutcome(row: Row, seen: set<string>, roster: set<string>, maximum: int, components: seq<Component>,
                   complete: bool)
    ensures CheckRow(row, seen, roster, maximum, components, complete).Ok? <==>
            RowFits(row, roster, maximum, components, complete) && Strip(row.studentId) !in seen
    ensures CheckRow(row, seen, roster, maximum, components, complete).Ok? ==>
              RepeatsRow(CheckRow(row, seen, roster, maximum, components, complete).value, row, components)
  {
    ComponentsOutcome(components, row.scores, complete);
    FilledIs(row.scores);
    if Numeric(row.scores, Filled(row.scores)) {
      BoundsOutcome(SumOver(row.scores, Filled(row.scores)), maximum);
    }
  }

  ghost predicate LearnersDiffer(rows: seq<Row>) {
    forall i, j :: 0 <= i < j < |rows| ==> Strip(rows[i].studentId) != Strip(rows[j].studentId)
  }

  /** The rows fit one by one and no two of them name the same learner. */
  ghost predicate RowsFit(rows: seq<Row>, roster: set<string>, maximum: int, components: seq<Component>,
                          complete: bool)
  {
    LearnersDiffer(rows) && forall i :: 0 <= i < |rows| ==> RowFits(rows[i], roster, maximum, components, complete)
  }

  /** One accepted row for each row, in their order. */
  ghost predicate RepeatsRows(marks: seq<MarkRow>, rows: seq<Row>, components: seq<Component>) {
    |marks| == |rows| && forall i :: 0 <= i < |rows| ==> RepeatsRow(marks[i], rows[i], components)
  }

  lemma LearnersOfOneMore(rows: seq<Row>, marks: seq<MarkRow>, components: seq<Component>)
    requires rows != [] && RepeatsRows(marks, rows[..|rows| - 1], components)
    ensures LearnersDiffer(rows) <==>
            LearnersDiffer(rows[..|rows| - 1]) && Strip(rows[|rows| - 1].studentId) !in Students(marks)
  {
    hide Strip;
    var n := |rows| - 1;
    forall i | 0 <= i < n
      ensures marks[i].studentId == Strip(rows[i].studentId) && marks[i].studentId in Students(marks)
    {
      assert RepeatsRow(marks[i], rows[..n][i], components);
    }
    if Strip(rows[n].studentId) in Students(marks) {
      var i :| 0 <= i < |marks| && marks[i].studentId == Strip(rows[n].studentId);
      assert Strip(rows[i].studentId) == Strip(rows[n].studentId);
    }
  }

  lemma {:induction false} RowsOutcome(rows: seq<Row>, roster: set<string>, maximum: int, components: seq<Component>,
                                       complete: bool)
    ensures CheckRows(rows, roster, maximum, components, complete).Ok? <==>
            RowsFit(rows, roster, maximum, components, complete)
    ensures CheckRows(rows, roster, maximum, components, complete).Ok? ==>
              RepeatsRows(CheckRows(rows, roster, maximum, components, complete).value, rows, components)
  {
    if rows != [] {
      hide CheckRow, RowFits, RepeatsRow, Students, LearnersDiffer, Strip;
      var n := |rows| - 1;
      RowsOutcome(rows[..n], roster, maximum, components, complete);
      assert rows == rows[..n] + [rows[n]];
      match CheckRows(rows[..n], roster, maximum, components, complete)
      case Rejected(_) =>
        if LearnersDiffer(rows) {
          FewerDiffer(rows, n);
        }
      case Ok(marks) =>
        RowOutcome(rows[n], Students(marks), roster, maximum, components, complete);
        LearnersOfOneMore(rows, marks, components);
    } else {
      assert LearnersDiffer([]);
    }
  }

  lemma FewerDiffer(rows: seq<Row>, n: nat)
    requires n <= |rows| && LearnersDiffer(rows)
    ensures LearnersDiffer(rows[..n])
  {
    hide Strip;
  }

  /**
   A batch is accepted exactly when every row fits, no learner is named twice and a final
   submission is not empty; then each row is repeated, with the entered score or the total.
   */
  lemma BatchOutcome(rows: seq<Row>, roster: set<string>, maximum: int, components: seq<Component>, complete: bool)
    ensures ValidateRows(rows, roster, maximum, components, complete).Ok? <==>
            RowsFit(rows, roster, maximum, components, complete) && (complete ==> rows != [])
    ensures ValidateRows(rows, roster, maximum, components, complete).Ok? ==>
              RepeatsRows(ValidateRows(rows, roster, maximum, components, complete).value, rows, components)
  {
    hide CheckRows, RowFits, LearnersDiffer, RepeatsRow;
    RowsOutcome(rows, roster, maximum, components, complete);
  }

  // ---- Why a batch is refused ----

  predicate IsNumberFault(v: int, maximum: int, f: Fault) {
    if maximum <= 0 then f == MaximumNotPositive
    else if v < 0 then f == NegativeScore
    else maximum < v && f == ScoreAboveMaximum
  }

  predicate IsCellFault(scores: Scores, c: Component, complete: bool, f: Fault) {
    if IsBlank(scores, c.id) then c.required && complete && f == RequiredComponentMissing
    else if scores[c.id].Score? then IsNumberFault(scores[c.id].hundredths, c.maxScore, f)
    else f == NotNumeric
  }

  /** The fault of the first component whose cell does not fit. */
  ghost predicate IsComponentFault(components: seq<Component>, scores: Scores, complete: bool, f: Fault) {
    exists i :: 0 <= i < |components| && IsCellFault(scores, components[i], complete, f)
                && ComponentsFit(components[..i], scores, complete)
  }

  lemma FaultOfOneMore(components: seq<Component>, c: Component, scores: Scores, complete: bool, f: Fault)
    ensures IsComponentFault(components + [c], scores, complete, f) <==>
            IsComponentFault(components, scores, complete, f)
            || (ComponentsFit(components, scores, complete) && IsCellFault(scores, c, complete, f))
  {
    hide ComponentsFit, IsCellFault;
    var more, n := components + [c], |components|;
    if i :| 0 <= i < |more| && IsCellFault(scores, more[i], complete, f) && ComponentsFit(more[..i], scores, complete) {
      assert i < n ==> more[i] == components[i] && more[..i] == components[..i];
      assert i == n ==> more[i] == c && more[..i] == components;
    }
    if i :| 0 <= i < n && IsCellFault(scores, components[i], complete, f)
            && ComponentsFit(components[..i], scores, complete) {
      assert more[i] == components[i] && more[..i] == components[..i];
    }
    if ComponentsFit(components, scores, complete) && IsCellFault(scores, c, complete, f) {
      assert more[n] == c && more[..n] == components;
    }
  }

  lemma CellFaultOutcome(scores: Scores, c: Component, complete: bool, f: Fault)
    ensures Get(scores, c.id) == Blank ==>
              (IsCellFault(scores, c, complete, f) <==> c.required && complete && f == RequiredComponentMissing)
    ensures Get(scores, c.id) != Blank ==>
              (IsCellFault(scores, c, complete, f) <==> CheckCell(Get(scores, c.id), c.maxScore) == Some(f))
  {
  }

  lemma {:induction false} ComponentFaultOutcome(components: seq<Component>, scores: Scores, complete: bool, f: Fault)
    ensures CheckComponents(components, scores, complete) == Some(f) <==>
            IsComponentFault(components, scores, complete, f)
  {
    if components != [] {
      hide IsComponentFault, ComponentsFit;
      var n := |components| - 1;
      var init, last := components[..n], components[n];
      ComponentFaultOutcome(init, scores, complete, f);
      ComponentsOutcome(init, scores, complete);
      assert components == init + [last];
      FaultOfOneMore(init, last, scores, complete, f);
      CellFaultOutcome(scores, last, complete, f);
      hide Get, CheckCell, IsCellFault;
    }
  }

  /** The first reason in the order of the checks. */
  ghost predicate IsRowFault(row: Row, seen: set<string>, roster: set<string>, maximum: int,
                             components: seq<Component>, complete: bool, f: Fault)
  {
    var student := Strip(row.studentId);
    if student == "" || student !in roster then f == InvalidLearner
    else if student in seen then f == DuplicateLearner
    else if components == [] then
      match row.rawScore
      case Blank => complete && f == ScoreRequired
      case NotANumber => f == NotNumeric
      case Score(v) => IsNumberFault(v, maximum, f)
    else if !ComponentsFit(components, row.scores, complete) then
      IsComponentFault(components, row.scores, complete, f)
    else if !AllNumbers(row.scores) then f == Crash
    else IsNumberFault(Total(row.scores), maximum, f)
  }

  lemma RowFaultOutcome(row: Row, seen: set<string>, roster: set<string>, maximum: int, components: seq<Component>,
                        complete: bool, f: Fault)
    ensures CheckRow(row, seen, roster, maximum, components, complete) == Rejected(f) <==>
            IsRowFault(row, seen, roster, maximum, components, complete, f)
  {
    ComponentsOutcome(components, row.scores, complete);
    ComponentFaultOutcome(components, row.scores, complete, f);
    FilledIs(row.scores);
    hide ComponentsFit, IsComponentFault, Strip;
  }

  ghost function LearnersOf(rows: seq<Row>): set<string> {
    set i | 0 <= i < |rows| :: Strip(rows[i].studentId)
  }

  /** The fault of the first row that is refused, all rows before it being acceptable. */
  ghost predicate IsBatchFault(rows: seq<Row>, roster: set<string>, maximum: int, components: seq<Component>,
                               complete: bool, f: Fault)
  {
    exists k :: 0 <= k < |rows| && RowsFit(rows[..k], roster, maximum, components, complete)
                && IsRowFault(rows[k], LearnersOf(rows[..k]), roster, maximum, components, complete, f)
  }

  lemma LearnersAreStudents(marks: seq<MarkRow>, rows: seq<Row>, components: seq<Component>)
    requires RepeatsRows(marks, rows, components)
    ensures Students(marks) == LearnersOf(rows)
  {
    hide Strip;
    forall i | 0 <= i < |rows|
      ensures marks[i].studentId == Strip(rows[i].studentId)
    {
      assert RepeatsRow(marks[i], rows[i], components);
    }
    forall s | s in LearnersOf(rows)
      ensures s in Students(marks)
    {
      var i :| 0 <= i < |rows| && Strip(rows[i].studentId) == s;
      assert marks[i].studentId == s;
    }
  }

  lemma BatchFaultOfOneMore(rows: seq<Row>, row: Row, roster: set<string>, maximum: int, components: seq<Component>,
                            complete: bool, f: Fault)
    ensures IsBatchFault(rows + [row], roster, maximum, components, complete, f) <==>
            IsBatchFault(rows, roster, maximum, components, complete, f)
            || (RowsFit(rows, roster, maximum, components, complete)
                && IsRowFault(row, LearnersOf(rows), roster, maximum, components, complete, f))
  {
    hide RowsFit, IsRowFault, LearnersOf;
    var more, n := rows + [row], |rows|;
    if k :| 0 <= k < |more| && RowsFit(more[..k], roster, maximum, components, complete)
            && IsRowFault(more[k], LearnersOf(more[..k]), roster, maximum, components, complete, f) {
      assert k < n ==> more[k] == rows[k] && more[..k] == rows[..k];
      assert k == n ==> more[k] == row && more[..k] == rows;
    }
    if k :| 0 <= k < n && RowsFit(rows[..k], roster, maximum, components, complete)
            && IsRowFault(rows[k], LearnersOf(rows[..k]), roster, maximum, components, complete, f) {
      assert more[k] == rows[k] && more[..k] == rows[..k];
    }
    if RowsFit(rows, roster, maximum, components, complete)
       && IsRowFault(row, LearnersOf(rows), roster, maximum, components, complete, f) {
      assert more[n] == row && more[..n] == rows;
    }
  }

  lemma {:induction false} RowsFaultOutcome(rows: seq<Row>, roster: set<string>, maximum: int,
                                            components: seq<Component>, complete: bool, f: Fault)
    ensures CheckRows(rows, roster, maximum, components, complete) == Rejected(f) <==>
            IsBatchFault(rows, roster, maximum, components, complete, f)
  {
    if rows != [] {
      hide CheckRow, IsBatchFault, RowsFit, IsRowFault, LearnersOf, RepeatsRows, Students, Strip;
      var n := |rows| - 1;
      var init, last := rows[..n], rows[n];
      assert rows == init + [last];
      RowsFaultOutcome(init, roster, maximum, components, complete, f);
      RowsOutcome(init, roster, maximum, components, complete);
      BatchFaultOfOneMore(init, last, roster, maximum, components, complete, f);
      if CheckRows(init, roster, maximum, components, complete).Ok? {
        var marks := CheckRows(init, roster, maximum, components, complete).value;
        LearnersAreStudents(marks, init, components);
        RowFaultOutcome(last, Students(marks), roster, maximum, components, complete, f);
      }
    }
  }

  /**
   The reason given is that of the first row refused, and in it of the first check in the
   program's order; a final submission without rows is refused for that.
   */
  lemma BatchFaultOutcome(rows: seq<Row>, roster: set<string>, maximum: int, components: seq<Component>,
                          complete: bool, f: Fault)
    ensures ValidateRows(rows, roster, maximum, components, complete) == Rejected(f) <==>
            IsBatchFault(rows, roster, maximum, components, complete, f) || (rows == [] && complete && f == NoRows)
  {
    hide IsBatchFault, RowsFit, RepeatsRow, CheckRow;
    RowsFaultOutcome(rows, roster, maximum, components, complete, f);
    BatchOutcome(rows, roster, maximum, components, complete);
    RowsOutcome(rows, roster, maximum, components, complete);
    NoFaultWithoutRows(roster, maximum, components, complete, f);
  }

  lemma NoFaultWithoutRows(roster: set<string>, maximum: int, components: seq<Component>, complete: bool, f: Fault)
    ensures !IsBatchFault([], roster, maximum, components, complete, f)
  {
  }

  // ---- The component summary, fact by fact ----

  /** The fact shows the component and what was entered for it. */
  predicate ShowsComponent(fact: ComponentFact, c: Component, scores: Scores) {
    && fact.id == c.id && fact.maxScore == c.maxScore && fact.required == c.required
    && (fact.score == None <==> IsBlank(scores, c.id))
    && (fact.score.Some? ==> scores[c.id] == Score(fact.score.value))
  }

  ghost predicate ShowsComponents(facts: seq<ComponentFact>, components: seq<Component>, scores: Scores) {
    |facts| == |components| && forall i :: 0 <= i < |components| ==> ShowsComponent(facts[i], components[i], scores)
  }

  lemma {:induction false} FactsOutcome(components: seq<Component>, scores: Scores)
    ensures FactsOf(components, scores).Ok? <==> ComponentsFit(components, scores, false)
    ensures FactsOf(components, scores).Ok? ==> ShowsComponents(FactsOf(components, scores).value.0, components, scores)
  {
    if components != [] {
      var n := |components| - 1;
      FactsOutcome(components[..n], scores);
      assert components == components[..n] + [components[n]];
    }
  }

  /** The sum of the scores that the facts show. */
  function SumShown(facts: seq<ComponentFact>): int {
    if facts == [] then 0
    else
      var last := facts[|facts| - 1];
      SumShown(facts[..|facts| - 1]) + (if last.score.Some? then last.score.value else 0)
  }

  ghost predicate IdsDiffer(components: seq<Component>) {
    forall i, j :: 0 <= i < j < |components| ==> components[i].id != components[j].id
  }

  lemma KnownOfOneMore(scores: Scores, components: seq<Component>, c: Component)
    ensures Known(scores, components + [c])
            == Known(scores, components) + (if IsBlank(scores, c.id) then {} else {c.id})
  {
    var more := components + [c];
    assert more[|components|] == c;
    forall k
      ensures k in Ids(more) <==> k in Ids(components) || k == c.id
    {
      if k in Ids(components) {
        var i :| 0 <= i < |components| && components[i].id == k;
        assert more[i].id == k;
      }
    }
  }

  lemma SumOfOneMore(scores: Scores, components: seq<Component>, c: Component)
    requires Numeric(scores, Known(scores, components + [c])) && c.id !in Ids(components)
    requires !IsBlank(scores, c.id) ==> scores[c.id].Score?
    ensures Numeric(scores, Known(scores, components))
    ensures SumOver(scores, Known(scores, components + [c]))
            == SumOver(scores, Known(scores, components))
               + (if IsBlank(scores, c.id) then 0 else scores[c.id].hundredths)
  {
    var known := Known(scores, components);
    assert c.id !in known;
    KnownOfOneMore(scores, components, c);
    hide Known, Ids;
    if !IsBlank(scores, c.id) {
      SumPicksAny(scores, known + {c.id}, c.id);
      assert known + {c.id} - {c.id} == known;
    } else {
      assert known + {} == known;
    }
  }

  lemma FreshId(components: seq<Component>, n: nat)
    requires n == |components| - 1 && IdsDiffer(components)
    ensures components[n].id !in Ids(components[..n]) && IdsDiffer(components[..n])
  {
  }

  /** When components have different identifiers, the shown scores add up to the total. */
  lemma {:induction false} ShownAddUp(components: seq<Component>, scores: Scores, facts: seq<ComponentFact>)
    requires IdsDiffer(components) && ShowsComponents(facts, components, scores)
    requires Numeric(scores, Known(scores, components))
    ensures SumShown(facts) == SumOver(scores, Known(scores, components))
  {
    if components == [] {
      assert Known(scores, components) == {};
    } else {
      var n := |components| - 1;
      assert components == components[..n] + [components[n]];
      assert ShowsComponent(facts[n], components[n], scores);
      FreshId(components, n);
      hide IdsDiffer, Known, Ids, Numeric;
      SumOfOneMore(scores, components[..n], components[n]);
      ShownAddUp(components[..n], scores, facts[..n]);
    }
  }

  /**
   A summary is given exactly when every component's cell fits and the components' total is
   within the maximum.  It shows each component with what was entered for it, and, when the
   components have different identifiers, the sum of the scores it shows.
   */
  lemma SummaryOutcome(scores: Scores, components: seq<Component>, maximum: int)
    ensures ComponentsFit(components, scores, false) ==> Numeric(scores, Known(scores, components))
    ensures Summarize(scores, components, maximum).Ok? <==>
            ComponentsFit(components, scores, false) && IsWithin(SumOver(scores, Known(scores, components)), maximum)
    ensures Summarize(scores, components, maximum).Ok? ==>
              var summary := Summarize(scores, components, maximum).value;
              && summary.byComponent == (components != [])
              && ShowsComponents(summary.facts, components, scores)
              && (forall id :: id in summary.missingRequired <==> IsLeftBlank(components, scores, id))
              && (components == [] ==> summary.total == None)
              && (components != [] && IdsDiffer(components) ==> summary.total == Some(SumShown(summary.facts)))
  {
    FactsOutcome(components, scores);
    hide ComponentsFit, ShowsComponents, IdsDiffer, IsLeftBlank, Known, FactsOf;
    if FactsOf(components, scores).Ok? {
      FactsMeanNumeric(components, scores);
      SummarizeNames(components, scores);
      BoundsOutcome(SumOver(scores, Known(scores, components)), maximum);
      if IdsDiffer(components) {
        ShownAddUp(components, scores, FactsOf(components, scores).value.0);
      }
    }
  }
}
