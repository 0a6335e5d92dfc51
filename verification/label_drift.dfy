/** The label-drift sweep over the columns of a downloaded table
    (`warn_variable_changes`): every column of the requested group whose
    label changed across the vintages is reported, and with `prompt` set
    the user is asked, once per such column, whether to go on. */
module LabelDrift {
  import opened Strings
  import opened LabelHistory

  /** One warning printed by the sweep: the column and its label history. */
  datatype Drift = Drift(column: string, history: History)

  /** How the sweep ended. */
  datatype Outcome =
    | Completed                   // returned normally
    | VariableMistmatchOverTime   // the user answered something other than "y"
    | EndOfInput                  // `input()` found no answer left (Python's EOFError)
    | MissingYearColumn           // the table has no "Year" column (`df["Year"]` raises KeyError)

  /** The warnings printed, in order, and how the sweep ended. */
  datatype Report = Report(warnings: seq<Drift>, outcome: Outcome)

  /** The column's variable had more than one label over the vintages;
      that takes at least two vintages. */
  predicate Drifted(lookup: LabelLookup, vintages: seq<int>, column: string)
    ensures Drifted(lookup, vintages, column) ==> |vintages| >= 2
  {
    |Group(lookup, column, vintages).order| > 1
  }

  function Prepend(ws: seq<Drift>, r: Report): Report {
    Report(ws + r.warnings, r.outcome)
  }

  /** The loop of the sweep over `columns`, the user's answers to the
      successive prompts being `answers`: at most one warning per column,
      and without `prompt` it always completes. */
  function Sweep(columns: seq<string>, vintages: seq<int>, group: string, prompt: bool,
                 lookup: LabelLookup, answers: seq<string>): (r: Report)
    ensures |r.warnings| <= |columns|
    ensures !prompt ==> r.outcome == Completed
    ensures r.outcome != MissingYearColumn
  {
    if columns == [] then Report([], Completed)
    else
      var col := columns[0];
      if !StartsWith(col, group) || !Drifted(lookup, vintages, col) then
        Sweep(columns[1..], vintages, group, prompt, lookup, answers)
      else
        var w := Drift(col, Group(lookup, col, vintages));
        if !prompt then Prepend([w], Sweep(columns[1..], vintages, group, prompt, lookup, answers))
        else if answers == [] then Report([w], EndOfInput)
        else if answers[0] != "y" then Report([w], VariableMistmatchOverTime)
        else Prepend([w], Sweep(columns[1..], vintages, group, prompt, lookup, answers[1..]))
  }

  /** The whole sweep: reading the "Year" column first fails on a table
      without one, otherwise the loop runs. The missing column is the only
      way to end with `MissingYearColumn`, and it ends before any warning. */
  function WarnSweep(columns: seq<string>, vintages: seq<int>, group: string, prompt: bool,
                     lookup: LabelLookup, answers: seq<string>): (r: Report)
    ensures r.outcome == MissingYearColumn <==> "Year" !in columns
    ensures r.outcome == MissingYearColumn ==> r.warnings == []
    ensures |r.warnings| <= |columns|
  {
    if "Year" !in columns then Report([], MissingYearColumn)
    else Sweep(columns, vintages, group, prompt, lookup, answers)
  }

  /** The Python function: look up the "Year" column, then skip columns
      outside the group, build each group column's label history over
      `vintages`, warn on drift and, with `prompt`, stop unless the next
      answer is "y". */
  method WarnVariableChanges(columns: seq<string>, vintages: seq<int>, group: string, prompt: bool,
                             lookup: LabelLookup, answers: seq<string>)
    returns (report: Report)
    ensures report == WarnSweep(columns, vintages, group, prompt, lookup, answers)
  {
    if "Year" !in columns {
      return Report([], MissingYearColumn);
    }
    var warnings: seq<Drift> := [];
    var used := 0;
    var i := 0;
    while i < |columns|
      invariant 0 <= i <= |columns| && 0 <= used <= |answers|
      invariant Sweep(columns, vintages, group, prompt, lookup, answers)
             == Prepend(warnings, Sweep(columns[i..], vintages, group, prompt, lookup, answers[used..]))
    {
      var col := columns[i];
      SweepAt(columns, i, vintages, group, prompt, lookup, answers[used..]);
      i := i + 1;
      if !StartsWith(col, group) {
        continue;
      }
      var labels := GetUniqueLabelsForVariable(lookup, col, vintages);
      if |labels.order| > 1 {
        PrependSnoc(warnings, Drift(col, labels), Sweep(columns[i..], vintages, group, prompt, lookup, answers[used..]));
        if used < |answers| {
          PrependSnoc(warnings, Drift(col, labels), Sweep(columns[i..], vintages, group, prompt, lookup, answers[used + 1..]));
        }
        warnings := warnings + [Drift(col, labels)];
        if prompt {
          if used == |answers| {
            return Report(warnings, EndOfInput);
          }
          if answers[used] != "y" {
            return Report(warnings, VariableMistmatchOverTime);
          }
          assert answers[used..][1..] == answers[used + 1..];
          used := used + 1;
        }
      }
    }
    report := Report(warnings, Completed);
  }

  lemma PrependSnoc(ws: seq<Drift>, w: Drift, r: Report)
    ensures Prepend(ws + [w], r) == Prepend(ws, Prepend([w], r))
  {
    assert ws + [w] + r.warnings == ws + ([w] + r.warnings);
  }

  /** One step of the loop, at column `i`. */
  lemma SweepAt(columns: seq<string>, i: nat, vintages: seq<int>, group: string, prompt: bool,
                lookup: LabelLookup, answers: seq<string>)
    requires i < |columns|
    ensures var col, rest := columns[i], columns[i + 1..];
            var w := Drift(col, Group(lookup, col, vintages));
            Sweep(columns[i..], vintages, group, prompt, lookup, answers)
            == if !StartsWith(col, group) || !Drifted(lookup, vintages, col) then
                 Sweep(rest, vintages, group, prompt, lookup, answers)
               else if !prompt then Prepend([w], Sweep(rest, vintages, group, prompt, lookup, answers))
               else if answers == [] then Report([w], EndOfInput)
               else if answers[0] != "y" then Report([w], VariableMistmatchOverTime)
               else Prepend([w], Sweep(rest, vintages, group, prompt, lookup, answers[1..]))
  {
    assert columns[i..][1..] == columns[i + 1..];
  }

  // ---------------------------------------------------------------------
  // Reference definitions

  /** The group columns whose label drifted, in column order. */
  function DriftedColumns(columns: seq<string>, vintages: seq<int>, group: string, lookup: LabelLookup): seq<string> {
    if columns == [] then []
    else (if StartsWith(columns[0], group) && Drifted(lookup, vintages, columns[0]) then [columns[0]] else [])
         + DriftedColumns(columns[1..], vintages, group, lookup)
  }

  /** The warning printed for each of `cols`. */
  function Warnings(cols: seq<string>, vintages: seq<int>, lookup: LabelLookup): (ws: seq<Drift>)
    ensures |ws| == |cols|
    ensures forall k :: 0 <= k < |cols| ==> ws[k] == Drift(cols[k], Group(lookup, cols[k], vintages))
  {
    if cols == [] then [] else [Drift(cols[0], Group(lookup, cols[0], vintages))] + Warnings(cols[1..], vintages, lookup)
  }

  /** The number of leading "y" answers. */
  function LeadingYes(answers: seq<string>): (n: nat)
    ensures n <= |answers|
    ensures forall j :: 0 <= j < n ==> answers[j] == "y"
    ensures n < |answers| ==> answers[n] != "y"
  {
    if answers == [] || answers[0] != "y" then 0 else 1 + LeadingYes(answers[1..])
  }

  // ---------------------------------------------------------------------
  // What the sweep does

  /** The report expected when the drifted group columns are `d`: without
      `prompt` every one is reported and the sweep returns; with `prompt`
      the sweep goes on while the answers are "y", and stops at the first
      drifted column whose answer is missing or not "y". */
  function Expected(d: seq<string>, vintages: seq<int>, prompt: bool, lookup: LabelLookup,
                    answers: seq<string>): Report
  {
    var k := LeadingYes(answers);
    if !prompt || |d| <= k then Report(Warnings(d, vintages, lookup), Completed)
    else if k < |answers| then Report(Warnings(d[..k + 1], vintages, lookup), VariableMistmatchOverTime)
    else Report(Warnings(d[..k + 1], vintages, lookup), EndOfInput)
  }

  /** The whole behaviour of the sweep, in terms of the drifted group
      columns and the leading "y" answers. */
  lemma {:induction false} SweepOutcome(columns: seq<string>, vintages: seq<int>, group: string, prompt: bool,
                                        lookup: LabelLookup, answers: seq<string>)
    ensures Sweep(columns, vintages, group, prompt, lookup, answers)
            == Expected(DriftedColumns(columns, vintages, group, lookup), vintages, prompt, lookup, answers)
  {
    if columns != [] {
      var col, rest := columns[0], columns[1..];
      var d' := DriftedColumns(rest, vintages, group, lookup);
      if StartsWith(col, group) && Drifted(lookup, vintages, col) {
        assert DriftedColumns(columns, vintages, group, lookup) == [col] + d';
        ExpectedStep(col, d', vintages, prompt, lookup, answers);
        var w := Drift(col, Group(lookup, col, vintages));
        if !prompt {
          SweepOutcome(rest, vintages, group, prompt, lookup, answers);
          assert Sweep(columns, vintages, group, prompt, lookup, answers)
              == Prepend([w], Sweep(rest, vintages, group, prompt, lookup, answers));
        } else if answers != [] && answers[0] == "y" {
          SweepOutcome(rest, vintages, group, prompt, lookup, answers[1..]);
          assert Sweep(columns, vintages, group, prompt, lookup, answers)
              == Prepend([w], Sweep(rest, vintages, group, prompt, lookup, answers[1..]));
        }
      } else {
        assert DriftedColumns(columns, vintages, group, lookup) == d';
        SweepOutcome(rest, vintages, group, prompt, lookup, answers);
      }
    }
  }

  /** The whole behaviour of the Python function: a table without "Year"
      fails before any warning, otherwise the sweep behaves as `Expected`. */
  lemma WarnSweepOutcome(columns: seq<string>, vintages: seq<int>, group: string, prompt: bool,
                         lookup: LabelLookup, answers: seq<string>)
    ensures WarnSweep(columns, vintages, group, prompt, lookup, answers)
            == if "Year" !in columns then Report([], MissingYearColumn)
               else Expected(DriftedColumns(columns, vintages, group, lookup), vintages, prompt, lookup, answers)
  {
    SweepOutcome(columns, vintages, group, prompt, lookup, answers);
  }

  /** One more drifted column in front: what the sweep's recursion does. */
  lemma {:induction false} ExpectedStep(col: string, d: seq<string>, vintages: seq<int>, prompt: bool, lookup: LabelLookup,
                     answers: seq<string>)
    ensures var w := Drift(col, Group(lookup, col, vintages));
            Expected([col] + d, vintages, prompt, lookup, answers)
            == if !prompt then Prepend([w], Expected(d, vintages, prompt, lookup, answers))
               else if answers == [] then Report([w], EndOfInput)
               else if answers[0] != "y" then Report([w], VariableMistmatchOverTime)
               else Prepend([w], Expected(d, vintages, prompt, lookup, answers[1..]))
  {
    var w := Drift(col, Group(lookup, col, vintages));
    assert Warnings([col] + d, vintages, lookup) == [w] + Warnings(d, vintages, lookup);
    if prompt && answers != [] && answers[0] == "y" {
      var k := LeadingYes(answers[1..]);
      assert LeadingYes(answers) == k + 1;
      if k < |d| {
        assert ([col] + d)[..k + 2] == [col] + d[..k + 1];
        assert Warnings([col] + d[..k + 1], vintages, lookup) == [w] + Warnings(d[..k + 1], vintages, lookup);
      }
    } else if prompt {
      assert ([col] + d)[..1] == [col];
    }
  }

  /** The sweep raises `VariableMistmatchOverTime` iff `prompt` is set and,
      while reaching the drifted group columns in order, some answer is
      given that is not "y". */
  lemma {:induction false} SweepRaises(columns: seq<string>, vintages: seq<int>, group: string, prompt: bool,
                    lookup: LabelLookup, answers: seq<string>)
    ensures var d := DriftedColumns(columns, vintages, group, lookup);
            Sweep(columns, vintages, group, prompt, lookup, answers).outcome == VariableMistmatchOverTime
            <==> prompt && exists k :: 0 <= k < |d| && k < |answers| && answers[k] != "y"
                                       && forall j :: 0 <= j < k ==> answers[j] == "y"
  {
    SweepOutcome(columns, vintages, group, prompt, lookup, answers);
  }

  /** Every warning is about a column of the group whose label drifted,
      and carries that column's label history over the vintages. */
  lemma {:induction false} SweepWarnings(columns: seq<string>, vintages: seq<int>, group: string, prompt: bool,
                      lookup: LabelLookup, answers: seq<string>)
    ensures var ws := Sweep(columns, vintages, group, prompt, lookup, answers).warnings;
            forall w :: w in ws ==>
              && w.column in columns
              && StartsWith(w.column, group)
              && |w.history.order| > 1
              && w.history == Group(lookup, w.column, vintages)
  {
    SweepOutcome(columns, vintages, group, prompt, lookup, answers);
    DriftedColumnsMembers(columns, vintages, group, lookup);
    var d := DriftedColumns(columns, vintages, group, lookup);
    var k := LeadingYes(answers);
    var reported := if !prompt || |d| <= k then d else d[..k + 1];
    assert Expected(d, vintages, prompt, lookup, answers).warnings == Warnings(reported, vintages, lookup);
    assert forall c :: c in reported ==> c in d;
    WarningsMembers(reported, vintages, lookup);
  }

  lemma WarningsMembers(cols: seq<string>, vintages: seq<int>, lookup: LabelLookup)
    ensures forall w :: w in Warnings(cols, vintages, lookup) ==>
              w.column in cols && w.history == Group(lookup, w.column, vintages)
  {
    var ws := Warnings(cols, vintages, lookup);
    forall w | w in ws ensures w.column in cols && w.history == Group(lookup, w.column, vintages) {
      var k :| 0 <= k < |ws| && ws[k] == w;
    }
  }

  /** Without drift in any group column the sweep warns about nothing and
      returns, whatever `prompt` and the answers are. */
  lemma {:induction false} NoDriftCompletes(columns: seq<string>, vintages: seq<int>, group: string, prompt: bool,
                         lookup: LabelLookup, answers: seq<string>)
    requires forall c :: c in columns && StartsWith(c, group) ==> !Drifted(lookup, vintages, c)
    ensures Sweep(columns, vintages, group, prompt, lookup, answers) == Report([], Completed)
  {
    if columns != [] {
      assert columns[0] in columns;
      NoDriftCompletes(columns[1..], vintages, group, prompt, lookup, answers);
    }
  }

  lemma {:induction false} DriftedColumnsMembers(columns: seq<string>, vintages: seq<int>, group: string, lookup: LabelLookup)
    ensures forall c :: c in DriftedColumns(columns, vintages, group, lookup) <==>
                          c in columns && StartsWith(c, group) && Drifted(lookup, vintages, c)
  {
    if columns != [] {
      DriftedColumnsMembers(columns[1..], vintages, group, lookup);
      assert columns == [columns[0]] + columns[1..];
    }
  }
}
