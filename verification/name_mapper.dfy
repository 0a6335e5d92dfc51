/** Renaming downloaded columns to their labels (`name_mapper` and its
    inner function, used through `df.rename(columns=...)`). */
module NameMapper {
  import opened Strings

  /** Why a name could not be mapped. */
  datatype MapError =
    /** The variable search found no row, so taking its first row fails
        (pandas raises IndexError). */
    | NoSuchVariable(name: string)

  datatype Result<T> = Ok(value: T) | Err(error: MapError)

  /** `ced.variables.search(dataset, vintage, group_name=group, name=variable)`
      with dataset, vintage and group fixed: the LABEL of each row found,
      in row order. */
  type VariableSearch = string -> seq<string>

  /** `label.split("!")[-1].split(":")[0]`: the text after the last "!",
      cut before its first ":". */
  function ParseLabel(raw: string): (r: string)
    ensures '!' !in r && ':' !in r
  {
    var parts := Split(raw, '!');
    var tail := parts[|parts| - 1];
    FirstPieceSpan(tail, ':');
    Split(tail, ':')[0]
  }

  /** The parsed label is the stretch of the raw label that starts right
      after its last "!" (or at the start, if there is none) and stops at
      the first ":" after that (or at the end). */
  lemma ParseLabelSpan(raw: string) returns (start: nat)
    ensures var r := ParseLabel(raw);
            && start + |r| <= |raw|
            && raw[start..start + |r|] == r
            && (start == 0 || raw[start - 1] == '!')
            && '!' !in raw[start..]
            && (start + |r| == |raw| || raw[start + |r|] == ':')
  {
    start := LastPieceSpan(raw, '!');
    var tail := raw[start..];
    assert ParseLabel(raw) == Split(tail, ':')[0];
    var r := Split(tail, ':')[0];
    FirstPieceSpan(tail, ':');
    assert raw[start..start + |r|] == tail[..|r|];
    assert start + |r| < |raw| ==> raw[start + |r|] == tail[|r|];
  }

  /** A last part without ":" is the parsed label itself. */
  lemma ParseLabelPlainTail(raw: string, prefix: string, tail: string)
    requires raw == prefix + ['!'] + tail
    requires '!' !in tail && ':' !in tail
    ensures ParseLabel(raw) == tail
  {
    SplitLastPiece(prefix, tail, '!');
    SplitNoSeparator(tail, ':');
  }

  /** The docstring's examples: 'Estimate!!Total:!!Worked from
      home' becomes 'Worked from home'. */
  lemma ParseLabelWorkedFromHome(raw: string)
    requires raw == "Estimate!!Total:!!Worked from home"
    ensures ParseLabel(raw) == "Worked from home"
  {
    var prefix, tail := "Estimate!!Total:!", "Worked from home";
    assert raw == prefix + ['!'] + tail;
    ParseLabelPlainTail(raw, prefix, tail);
  }

  /** 'Estimate!!Total!!Motorcycle' becomes 'Motorcycle'. */
  lemma ParseLabelMotorcycle(raw: string)
    requires raw == "Estimate!!Total!!Motorcycle"
    ensures ParseLabel(raw) == "Motorcycle"
  {
    var parts := ["Estimate", "", "Total", "", "Motorcycle"];
    assert Join(parts, '!') == raw;
    assert Join(["Motorcycle"], ':') == parts[4];
    ParseLabelOfParts(raw, parts, ["Motorcycle"]);
  }

  /** 'Estimate!!Total:' becomes 'Total': the trailing ":" is cut off. */
  lemma ParseLabelTotal(raw: string)
    requires raw == "Estimate!!Total:"
    ensures ParseLabel(raw) == "Total"
  {
    var prefix, tail, first := "Estimate!", "Total:", "Total";
    assert raw == prefix + ['!'] + tail;
    assert tail == first + [':'] + "";
    ParseLabelCutTail(raw, prefix, first, "");
  }

  /** A last part with a ":" parses to the text before that ":". */
  lemma ParseLabelCutTail(raw: string, prefix: string, first: string, rest: string)
    requires raw == prefix + ['!'] + first + [':'] + rest
    requires '!' !in first && '!' !in rest && ':' !in first
    ensures ParseLabel(raw) == first
  {
    var tail := first + [':'] + rest;
    assert raw == prefix + ['!'] + tail;
    SplitLastPiece(prefix, tail, '!');
    SplitPrefix(first, rest, ':');
  }

  /** A label made of "!"-separated parts whose last part is made of
      ":"-separated pieces parses to the first of those pieces. */
  lemma ParseLabelOfParts(raw: string, parts: seq<string>, pieces: seq<string>)
    requires |parts| >= 1 && |pieces| >= 1
    requires forall k :: 0 <= k < |parts| ==> '!' !in parts[k]
    requires forall k :: 0 <= k < |pieces| ==> ':' !in pieces[k]
    requires raw == Join(parts, '!') && parts[|parts| - 1] == Join(pieces, ':')
    ensures ParseLabel(raw) == pieces[0]
  {
    SplitJoin(parts, '!');
    SplitJoin(pieces, ':');
  }

  /** The inner function of `name_mapper`: names outside the group are
      kept; a group name becomes the parsed label of the first row the
      search returns. */
  function MapName(group: string, search: VariableSearch, variable: string): (r: Result<string>)
    ensures !StartsWith(variable, group) ==> r == Ok(variable)
    ensures StartsWith(variable, group) ==> (r.Err? <==> search(variable) == [])
    ensures StartsWith(variable, group) && search(variable) != [] ==> r == Ok(ParseLabel(search(variable)[0]))
    ensures StartsWith(variable, group) && r.Ok? ==> '!' !in r.value && ':' !in r.value
  {
    if StartsWith(variable, group) then
      var rows := search(variable);
      if rows == [] then Err(NoSuchVariable(variable)) else Ok(ParseLabel(rows[0]))
    else
      Ok(variable)
  }

  /** `df.rename(columns=name_mapper(...))` on the column names: every name
      is mapped in column order and the first failure propagates. */
  function RenameColumns(group: string, search: VariableSearch, columns: seq<string>): (r: Result<seq<string>>)
    ensures r.Ok? <==> forall k :: 0 <= k < |columns| ==> MapName(group, search, columns[k]).Ok?
    ensures r.Ok? ==> |r.value| == |columns|
    ensures r.Ok? ==> forall k :: 0 <= k < |columns| ==> r.value[k] == MapName(group, search, columns[k]).value
  {
    if columns == [] then Ok([])
    else
      match MapName(group, search, columns[0])
      case Err(e) => Err(e)
      case Ok(name) =>
        match RenameColumns(group, search, columns[1..])
        case Err(e) => Err(e)
        case Ok(names) => Ok([name] + names)
  }

  /** Renaming twice gives the same names as renaming once, provided every
      group column is found and no parsed label itself starts with the
      group code. */
  lemma {:induction false} RenameIdempotent(group: string, search: VariableSearch, columns: seq<string>)
    requires forall k :: 0 <= k < |columns| && StartsWith(columns[k], group) ==>
               search(columns[k]) != [] && !StartsWith(ParseLabel(search(columns[k])[0]), group)
    ensures RenameColumns(group, search, columns).Ok?
    ensures var once := RenameColumns(group, search, columns).value;
            RenameColumns(group, search, once) == Ok(once)
  {
    var once := RenameColumns(group, search, columns).value;
    RenameKeeps(group, search, once);
  }

  /** Without that proviso renaming twice can fail where renaming once
      succeeded: with group "T", column "T1" labelled 'Estimate!!Total'
      becomes "Total", which starts with "T" and is then looked up again. */
  lemma RenameNotAlwaysIdempotent(search: VariableSearch, raw: string)
    requires raw == "Estimate!!Total"
    requires search("T1") == [raw] && search("Total") == []
    ensures RenameColumns("T", search, ["T1"]) == Ok(["Total"])
    ensures RenameColumns("T", search, ["Total"]).Err?
  {
    var prefix, tail := "Estimate!", "Total";
    assert raw == prefix + ['!'] + tail;
    ParseLabelPlainTail(raw, prefix, tail);
    assert MapName("T", search, "T1") == Ok("Total");
    assert ["T1"][1..] == [];
    var once := RenameColumns("T", search, ["T1"]);
    assert once.Ok? && |once.value| == 1 && once.value[0] == "Total";
    assert once.value == ["Total"];
  }

  lemma {:induction false} RenameKeeps(group: string, search: VariableSearch, names: seq<string>)
    requires forall k :: 0 <= k < |names| ==> !StartsWith(names[k], group)
    ensures RenameColumns(group, search, names) == Ok(names)
  {
    if names != [] {
      RenameKeeps(group, search, names[1..]);
      assert [names[0]] + names[1..] == names;
    }
  }
}
