/**
 Grade rows: validation on entry and the component summary read back at compilation.
 Scores are integers in hundredths.  `Blank` is a missing, null or empty value.
 */
module Marks {
  import opened Options
  import opened Text

  datatype Cell = Blank | Score(hundredths: int) | NotANumber

  type Scores = map<string, Cell>

  datatype Component = Component(id: string, maxScore: int, required: bool)

  datatype Row = Row(studentId: string, scores: Scores, rawScore: Cell, remarks: string)

  /** A row as `validate_grade_rows` returns it. */
  datatype MarkRow = MarkRow(studentId: string, rawScore: Option<int>, scores: Scores, remarks: string)

  /** Everything but `Crash` is a validation error; a crash is an exception no caller expects. */
  datatype Fault =
    | InvalidLearner | DuplicateLearner | RequiredComponentMissing | NotNumeric
    | MaximumNotPositive | NegativeScore | ScoreAboveMaximum | ScoreRequired | NoRows | Crash

  datatype Result<+T> = Ok(value: T) | Rejected(fault: Fault)

  function Get(scores: Scores, id: string): Cell {
    if id in scores then scores[id] else Blank
  }

  function CheckBounds(score: int, maximum: int): Option<Fault> {
    if maximum <= 0 then Some(MaximumNotPositive)
    else if score < 0 then Some(NegativeScore)
    else if score > maximum then Some(ScoreAboveMaximum)
    else None
  }

  // ---- Totals ----

  function Filled(scores: Scores): set<string> {
    set k | k in scores && scores[k] != Blank
  }

  predicate Numeric(scores: Scores, keys: set<string>) {
    forall k :: k in keys ==> k in scores && scores[k].Score?
  }

  ghost function SumOver(scores: Scores, keys: set<string>): int
    requires Numeric(scores, keys)
  {
    if keys == {} then 0 else
      var k :| k in keys;
      scores[k].hundredths + SumOver(scores, keys - {k})
  }

  /** The order in which a sum is taken does not matter. */
  lemma {:induction false} SumPicksAny(scores: Scores, keys: set<string>, k: string)
    requires Numeric(scores, keys) && k in keys
    ensures SumOver(scores, keys) == scores[k].hundredths + SumOver(scores, keys - {k})
    decreases |keys|
  {
    var j :| j in keys && SumOver(scores, keys) == scores[j].hundredths + SumOver(scores, keys - {j});
    if j != k {
      SumPicksAny(scores, keys - {j}, k);
      SumPicksAny(scores, keys - {k}, j);
      assert keys - {j} - {k} == keys - {k} - {j};
    }
  }

  lemma {:induction false} SumSplits(scores: Scores, a: set<string>, b: set<string>)
    requires Numeric(scores, a + b) && a !! b
    ensures SumOver(scores, a + b) == SumOver(scores, a) + SumOver(scores, b)
    decreases |a|
  {
    if a == {} {
      assert a + b == b;
    } else {
      var k :| k in a;
      SumPicksAny(scores, a + b, k);
      SumPicksAny(scores, a, k);
      SumSplits(scores, a - {k}, b);
      assert a + b - {k} == a - {k} + b;
    }
  }

  lemma {:induction false} SumIsNotNegative(scores: Scores, keys: set<string>)
    requires Numeric(scores, keys) && forall k :: k in keys ==> 0 <= scores[k].hundredths
    ensures 0 <= SumOver(scores, keys)
    decreases |keys|
  {
    if keys != {} {
      var k :| k in keys;
      SumPicksAny(scores, keys, k);
      SumIsNotNegative(scores, keys - {k});
    }
  }

  /** `component_total`: None when a value is not a number. */
  method ComponentTotal(scores: Scores, keys: set<string>) returns (total: Option<int>)
    requires keys <= scores.Keys
    ensures total == if Numeric(scores, keys) then Some(SumOver(scores, keys)) else None
  {
    var sum, left := 0, keys;
    while left != {}
      invariant left <= keys && Numeric(scores, keys - left)
      invariant sum == SumOver(scores, keys - left)
      decreases |left|
    {
      var k :| k in left;
      if !scores[k].Score? {
        return None;
      }
      var left' := left - {k};
      assert keys - left' - {k} == keys - left;
      SumPicksAny(scores, keys - left', k);
      sum := sum + scores[k].hundredths;
      left := left';
    }
    assert keys - {} == keys;
    total := Some(sum);
  }

  // ---- Validation on entry ----

  function CheckCell(cell: Cell, maximum: int): Option<Fault>
    requires cell != Blank
  {
    match cell
    case Score(v) => CheckBounds(v, maximum)
    case _ => Some(NotNumeric)
  }

  /** The first component whose score is refused. */
  function CheckComponents(components: seq<Component>, scores: Scores, complete: bool): Option<Fault> {
    if components == [] then None
    else
      var init, last := components[..|components| - 1], components[|components| - 1];
      var fault := CheckComponents(init, scores, complete);
      if fault.Some? then fault
      else if Get(scores, last.id) == Blank then
        if last.required && complete then Some(RequiredComponentMissing) else None
      else CheckCell(Get(scores, last.id), last.maxScore)
  }

  ghost function CheckRow(row: Row, seen: set<string>, roster: set<string>, maximum: int,
                          components: seq<Component>, complete: bool): Result<MarkRow>
  {
    var student := Strip(row.studentId);
    if student == "" || student !in roster then Rejected(InvalidLearner)
    else if student in seen then Rejected(DuplicateLearner)
    else if components != [] then
      var fault := CheckComponents(components, row.scores, complete);
      if fault.Some? then Rejected(fault.value)
      else if !Numeric(row.scores, Filled(row.scores)) then Rejected(Crash)
      else
        var total := SumOver(row.scores, Filled(row.scores));
        match CheckBounds(total, maximum)
        case Some(f) => Rejected(f)
        case None => Ok(MarkRow(student, if row.scores == map[] then None else Some(total), row.scores, row.remarks))
    else
      match row.rawScore
      case Blank => if complete then Rejected(ScoreRequired) else Ok(MarkRow(student, None, row.scores, row.remarks))
      case NotANumber => Rejected(NotNumeric)
      case Score(v) =>
        match CheckBounds(v, maximum)
        case Some(f) => Rejected(f)
        case None => Ok(MarkRow(student, Some(v), row.scores, row.remarks))
  }

  function Students(rows: seq<MarkRow>): set<string> {
    set i | 0 <= i < |rows| :: rows[i].studentId
  }

  ghost function CheckRows(rows: seq<Row>, roster: set<string>, maximum: int,
                           components: seq<Component>, complete: bool): Result<seq<MarkRow>>
  {
    if rows == [] then Ok([])
    else
      match CheckRows(rows[..|rows| - 1], roster, maximum, components, complete)
      case Rejected(f) => Rejected(f)
      case Ok(done) =>
        match CheckRow(rows[|rows| - 1], Students(done), roster, maximum, components, complete)
        case Rejected(f) => Rejected(f)
        case Ok(mark) => Ok(done + [mark])
  }

  ghost function ValidateRows(rows: seq<Row>, roster: set<string>, maximum: int,
                              components: seq<Component>, complete: bool): Result<seq<MarkRow>>
  {
    match CheckRows(rows, roster, maximum, components, complete)
    case Rejected(f) => Rejected(f)
    case Ok(marks) => if complete && marks == [] then Rejected(NoRows) else Ok(marks)
  }

  method ValidateComponents(components: seq<Component>, scores: Scores, complete: bool) returns (fault: Option<Fault>)
    ensures fault == CheckComponents(components, scores, complete)
  {
    for i := 0 to |components|
      invariant CheckComponents(components[..i], scores, complete) == None
    {
      assert components[..i + 1][..i] == components[..i];
      var component := components[i];
      fault := None;
      if Get(scores, component.id) == Blank {
        if component.required && complete {
          fault := Some(RequiredComponentMissing);
        }
      } else {
        fault := CheckCell(Get(scores, component.id), component.maxScore);
      }
      if fault.Some? {
        FaultStays(components, i + 1, scores, complete);
        return;
      }
    }
    assert components[..|components|] == components;
    fault := None;
  }

  lemma {:induction false} FaultStays(components: seq<Component>, k: nat, scores: Scores, complete: bool)
    requires k <= |components| && CheckComponents(components[..k], scores, complete).Some?
    ensures CheckComponents(components, scores, complete) == CheckComponents(components[..k], scores, complete)
    decreases |components|
  {
    if k < |components| {
      assert components[..|components| - 1][..k] == components[..k];
      FaultStays(components[..|components| - 1], k, scores, complete);
    } else {
      assert components[..k] == components;
    }
  }

  method ValidateRow(row: Row, seen: set<string>, roster: set<string>, maximum: int,
                     components: seq<Component>, complete: bool) returns (result: Result<MarkRow>)
    ensures result == CheckRow(row, seen, roster, maximum, components, complete)
  {
    var student := Strip(row.studentId);
    if student == "" || student !in roster {
      return Rejected(InvalidLearner);
    }
    if student in seen {
      return Rejected(DuplicateLearner);
    }
    if components != [] {
      var fault := ValidateComponents(components, row.scores, complete);
      if fault.Some? {
        return Rejected(fault.value);
      }
      var total := ComponentTotal(row.scores, Filled(row.scores));
      if total == None {
        return Rejected(Crash);
      }
      fault := CheckBounds(total.value, maximum);
      if fault.Some? {
        return Rejected(fault.value);
      }
      return Ok(MarkRow(student, if row.scores == map[] then None else total, row.scores, row.remarks));
    }
    match row.rawScore
    case Blank =>
      if complete {
        return Rejected(ScoreRequired);
      }
      return Ok(MarkRow(student, None, row.scores, row.remarks));
    case NotANumber =>
      return Rejected(NotNumeric);
    case Score(v) =>
      var fault := CheckBounds(v, maximum);
      if fault.Some? {
        return Rejected(fault.value);
      }
      return Ok(MarkRow(student, Some(v), row.scores, row.remarks));
  }

  method ValidateGradeRows(rows: seq<Row>, roster: set<string>, maximum: int,
                           components: seq<Component>, complete: bool) returns (result: Result<seq<MarkRow>>)
    ensures result == ValidateRows(rows, roster, maximum, components, complete)
  {
    var seen, normalized := {}, [];
    for i := 0 to |rows|
      invariant seen == Students(normalized)
      invariant CheckRows(rows[..i], roster, maximum, components, complete) == Ok(normalized)
    {
      assert rows[..i + 1][..i] == rows[..i];
      var one := ValidateRow(rows[i], seen, roster, maximum, components, complete);
      if one.Rejected? {
        RejectionStays(rows, i + 1, roster, maximum, components, complete);
        return Rejected(one.fault);
      }
      seen := seen + {one.value.studentId};
      StudentsOfOneMore(normalized, one.value);
      normalized := normalized + [one.value];
    }
    assert rows[..|rows|] == rows;
    if complete && normalized == [] {
      return Rejected(NoRows);
    }
    result := Ok(normalized);
  }

  lemma StudentsOfOneMore(marks: seq<MarkRow>, mark: MarkRow)
    ensures Students(marks + [mark]) == Students(marks) + {mark.studentId}
  {
    var more := marks + [mark];
    assert forall i :: 0 <= i < |marks| ==> more[i] == marks[i];
    forall s | s in Students(marks) ensures s in Students(more) {
      var i :| 0 <= i < |marks| && marks[i].studentId == s;
      assert more[i].studentId == s;
    }
    assert more[|marks|].studentId == mark.studentId;
  }

  lemma {:induction false} RejectionStays(rows: seq<Row>, k: nat, roster: set<string>, maximum: int,
                                          components: seq<Component>, complete: bool)
    requires k <= |rows| && CheckRows(rows[..k], roster, maximum, components, complete).Rejected?
    ensures CheckRows(rows, roster, maximum, components, complete)
            == CheckRows(rows[..k], roster, maximum, components, complete)
    decreases |rows|
  {
    if k < |rows| {
      assert rows[..|rows| - 1][..k] == rows[..k];
      RejectionStays(rows[..|rows| - 1], k, roster, maximum, components, complete);
    } else {
      assert rows[..k] == rows;
    }
  }

  lemma AcceptedStudent(row: Row, seen: set<string>, roster: set<string>, maximum: int,
                        components: seq<Component>, complete: bool)
    requires CheckRow(row, seen, roster, maximum, components, complete).Ok?
    ensures var student := CheckRow(row, seen, roster, maximum, components, complete).value.studentId;
            student == Strip(row.studentId) && student in roster && student !in seen
  {
  }

  /** Accepted rows name each learner of the roster at most once, one mark per row. */
  lemma {:induction false} AcceptedStudentsAreDistinct(rows: seq<Row>, roster: set<string>, maximum: int,
                                                       components: seq<Component>, complete: bool)
    requires CheckRows(rows, roster, maximum, components, complete).Ok?
    ensures var marks := CheckRows(rows, roster, maximum, components, complete).value;
            && |marks| == |rows|
            && (forall i, j :: 0 <= i < j < |marks| ==> marks[i].studentId != marks[j].studentId)
            && (forall i :: 0 <= i < |marks| ==>
                  marks[i].studentId in roster && marks[i].studentId == Strip(rows[i].studentId))
  {
    if rows != [] {
      hide CheckRow, Strip;
      var init := rows[..|rows| - 1];
      AcceptedStudentsAreDistinct(init, roster, maximum, components, complete);
      var done := CheckRows(init, roster, maximum, components, complete).value;
      AcceptedStudent(rows[|rows| - 1], Students(done), roster, maximum, components, complete);
      assert forall i :: 0 <= i < |done| ==> done[i].studentId in Students(done);
    }
  }

  // ---- The component summary ----

  datatype ComponentFact = ComponentFact(id: string, score: Option<int>, maxScore: int, required: bool)

  datatype Summary = Summary(byComponent: bool, facts: seq<ComponentFact>, total: Option<int>,
                             missingRequired: seq<string>)

  function FactsOf(components: seq<Component>, scores: Scores): Result<(seq<ComponentFact>, seq<string>)> {
    if components == [] then Ok(([], []))
    else
      var c := components[|components| - 1];
      match FactsOf(components[..|components| - 1], scores)
      case Rejected(f) => Rejected(f)
      case Ok((facts, missing)) =>
        match Get(scores, c.id)
        case Blank =>
          Ok((facts + [ComponentFact(c.id, None, c.maxScore, c.required)],
              if c.required then missing + [c.id] else missing))
        case NotANumber => Rejected(if c.maxScore <= 0 then MaximumNotPositive else NotNumeric)
        case Score(v) =>
          match CheckBounds(v, c.maxScore)
          case Some(f) => Rejected(f)
          case None => Ok((facts + [ComponentFact(c.id, Some(v), c.maxScore, c.required)], missing))
  }

  function Ids(components: seq<Component>): set<string> {
    set i | 0 <= i < |components| :: components[i].id
  }

  /** The filled scores that belong to a component of the assessment. */
  function Known(scores: Scores, components: seq<Component>): set<string> {
    set k | k in Filled(scores) && k in Ids(components)
  }

  lemma {:induction false} FactsMeanNumeric(components: seq<Component>, scores: Scores)
    requires FactsOf(components, scores).Ok?
    ensures Numeric(scores, Known(scores, components))
    ensures forall k :: k in Known(scores, components) ==> 0 <= scores[k].hundredths
  {
    if components != [] {
      var init, c := components[..|components| - 1], components[|components| - 1];
      FactsMeanNumeric(init, scores);
      forall k | k in Known(scores, components)
        ensures k == c.id || k in Known(scores, init)
      {
        var i :| 0 <= i < |components| && components[i].id == k;
        assert i < |init| ==> init[i].id == k;
      }
    }
  }

  ghost function Summarize(scores: Scores, components: seq<Component>, maximum: int): Result<Summary> {
    match FactsOf(components, scores)
    case Rejected(f) => Rejected(f)
    case Ok((facts, missing)) =>
      FactsMeanNumeric(components, scores);
      var total := SumOver(scores, Known(scores, components));
      match CheckBounds(total, maximum)
      case Some(f) => Rejected(f)
      case None => Ok(Summary(components != [], facts, if components != [] then Some(total) else None, missing))
  }

  method BuildComponentSummary(scores: Scores, components: seq<Component>, maximum: int)
    returns (result: Result<Summary>)
    ensures result == Summarize(scores, components, maximum)
  {
    var facts, missing := [], [];
    for i := 0 to |components|
      invariant FactsOf(components[..i], scores) == Ok((facts, missing))
    {
      assert components[..i + 1][..i] == components[..i];
      var c := components[i];
      match Get(scores, c.id)
      case Blank =>
        if c.required {
          missing := missing + [c.id];
        }
        facts := facts + [ComponentFact(c.id, None, c.maxScore, c.required)];
      case NotANumber =>
        FactsRejectionStays(components, i + 1, scores);
        return Rejected(if c.maxScore <= 0 then MaximumNotPositive else NotNumeric);
      case Score(v) =>
        var fault := CheckBounds(v, c.maxScore);
        if fault.Some? {
          FactsRejectionStays(components, i + 1, scores);
          return Rejected(fault.value);
        }
        facts := facts + [ComponentFact(c.id, Some(v), c.maxScore, c.required)];
    }
    assert components[..|components|] == components;
    FactsMeanNumeric(components, scores);
    var total := ComponentTotal(scores, Known(scores, components));
    var fault := CheckBounds(total.value, maximum);
    if fault.Some? {
      return Rejected(fault.value);
    }
    result := Ok(Summary(components != [], facts, if components != [] then total else None, missing));
  }

  lemma {:induction false} FactsRejectionStays(components: seq<Component>, k: nat, scores: Scores)
    requires k <= |components| && FactsOf(components[..k], scores).Rejected?
    ensures FactsOf(components, scores) == FactsOf(components[..k], scores)
    decreases |components|
  {
    if k < |components| {
      assert components[..|components| - 1][..k] == components[..k];
      FactsRejectionStays(components[..|components| - 1], k, scores);
    } else {
      assert components[..k] == components;
    }
  }

  /** A required component of this name is left blank. */
  ghost predicate IsLeftBlank(components: seq<Component>, scores: Scores, id: string) {
    exists i :: 0 <= i < |components| && components[i].id == id && components[i].required && Get(scores, id) == Blank
  }

  lemma LeftBlankOfOneMore(components: seq<Component>, c: Component, scores: Scores, id: string)
    ensures IsLeftBlank(components + [c], scores, id) <==>
            IsLeftBlank(components, scores, id) || (c.id == id && c.required && Get(scores, id) == Blank)
  {
    var more := components + [c];
    if IsLeftBlank(components, scores, id) {
      var i :| 0 <= i < |components| && components[i].id == id && components[i].required;
      assert more[i].id == id && more[i].required;
    }
    if c.id == id && c.required {
      assert more[|components|] == c;
    }
  }

  lemma {:induction false} SummarizeNames(components: seq<Component>, scores: Scores)
    requires FactsOf(components, scores).Ok?
    ensures var (facts, missing) := FactsOf(components, scores).value;
            && |facts| == |components|
            && (forall i :: 0 <= i < |components| ==> facts[i].id == components[i].id)
            && (forall id :: id in missing <==> IsLeftBlank(components, scores, id))
  {
    if components != [] {
      hide IsLeftBlank, CheckBounds;
      var init, last := components[..|components| - 1], components[|components| - 1];
      SummarizeNames(init, scores);
      assert components == init + [last];
      forall id
        ensures IsLeftBlank(components, scores, id) <==>
                IsLeftBlank(init, scores, id) || (last.id == id && last.required && Get(scores, id) == Blank)
      {
        LeftBlankOfOneMore(init, last, scores, id);
      }
    }
  }

  // ---- What acceptance implies for compilation ----

  lemma {:induction false} CheckedComponentsHaveFacts(components: seq<Component>, scores: Scores)
    requires CheckComponents(components, scores, true) == None
    ensures FactsOf(components, scores).Ok? && FactsOf(components, scores).value.1 == []
  {
    if components != [] {
      CheckedComponentsHaveFacts(components[..|components| - 1], scores);
    }
  }

  /**
   A finally submitted row of a component assessment.  It has no required component
   missing; its raw score is the summary total plus what was entered under keys that
   name no component; and it compiles exactly when the components' own total is within
   the maximum, the only check that entry makes on the other total.
   */
  lemma AcceptedRowSummary(row: Row, seen: set<string>, roster: set<string>, maximum: int, components: seq<Component>)
    requires components != [] && CheckRow(row, seen, roster, maximum, components, true).Ok?
    ensures Numeric(row.scores, Filled(row.scores))
    ensures var mark := CheckRow(row, seen, roster, maximum, components, true).value;
            var known := Known(row.scores, components);
            var summary := Summarize(mark.scores, components, maximum);
            && (summary.Ok? <==> SumOver(row.scores, known) <= maximum)
            && (summary.Ok? ==>
                  && summary.value.missingRequired == [] && summary.value.total.Some?
                  && (mark.rawScore.Some? ==>
                        mark.rawScore.value == summary.value.total.value
                        + SumOver(row.scores, Filled(row.scores) - known)))
  {
    var filled, known := Filled(row.scores), Known(row.scores, components);
    CheckedComponentsHaveFacts(components, row.scores);
    FactsMeanNumeric(components, row.scores);
    SumIsNotNegative(row.scores, known);
    assert known + (filled - known) == filled;
    SumSplits(row.scores, known, filled - known);
  }

  /** When every filled key names a component, acceptance implies a clean summary with the same total. */
  lemma CleanKeysCompile(row: Row, seen: set<string>, roster: set<string>, maximum: int, components: seq<Component>)
    requires components != [] && CheckRow(row, seen, roster, maximum, components, true).Ok?
    requires Filled(row.scores) <= Ids(components)
    ensures var mark := CheckRow(row, seen, roster, maximum, components, true).value;
            var summary := Summarize(mark.scores, components, maximum);
            && summary.Ok? && summary.value.missingRequired == []
            && (mark.rawScore.Some? ==> mark.rawScore == summary.value.total)
  {
    AcceptedRowSummary(row, seen, roster, maximum, components);
    assert Known(row.scores, components) == Filled(row.scores);
    assert Filled(row.scores) - Known(row.scores, components) == {};
  }

  /** Without that, it need not: a negative score under a foreign key hides an excessive total. */
  lemma ForeignKeysCanBlockCompilation() returns (row: Row, components: seq<Component>)
    ensures components != [] && CheckRow(row, {}, {"s"}, 10000, components, true).Ok?
    ensures Summarize(CheckRow(row, {}, {"s"}, 10000, components, true).value.scores, components, 10000).Rejected?
  {
    components := [Component("a", 20000, true)];
    row := Row("s", map["a" := Score(12000), "x" := Score(-5000)], Blank, "");
    assert Strip("s") == "s";
    assert components[..0] == [];
    assert Filled(row.scores) == {"a", "x"};
    SumPicksAny(row.scores, {"a", "x"}, "a");
    assert {"a", "x"} - {"a"} == {"x"};
    SumPicksAny(row.scores, {"x"}, "x");
    assert {"x"} - {"x"} == {};
    AcceptedRowSummary(row, {}, {"s"}, 10000, components);
    assert components[0].id == "a";
    assert Known(row.scores, components) == {"a"};
    SumPicksAny(row.scores, {"a"}, "a");
    assert {"a"} - {"a"} == {};
  }
}
