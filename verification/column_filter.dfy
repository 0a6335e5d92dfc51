/** The column filter of `download_multiyear` (with `drop_cols` set): keep
    the group's variable columns and the "Year" column, drop the rest
    (geography names and identifiers). */
module ColumnFilter {
  import opened Strings

  /** A column survives the filter: it is "Year" or its first characters
      are the group code. */
  predicate Keep(column: string, group: string)
    ensures Keep(column, group) <==> column == "Year" || (|group| <= |column| && column[..|group|] == group)
  {
    StartsWith(column, group) || column == "Year"
  }

  /** `[col for col in df.columns if col.startswith(group) or col == "Year"]` */
  function DropColumns(columns: seq<string>, group: string): (kept: seq<string>)
    ensures |kept| <= |columns|
  {
    if columns == [] then []
    else (if Keep(columns[0], group) then [columns[0]] else []) + DropColumns(columns[1..], group)
  }

  /** A column is kept iff it is one of the input columns and passes the test. */
  lemma {:induction false} DropColumnsMembers(columns: seq<string>, group: string)
    ensures forall c :: c in DropColumns(columns, group) <==> c in columns && Keep(c, group)
  {
    if columns != [] {
      DropColumnsMembers(columns[1..], group);
      assert columns == [columns[0]] + columns[1..];
    }
  }

  /** The filter works column by column and keeps the columns' order:
      filtering a concatenation concatenates the filtered parts. */
  lemma {:induction false} DropColumnsAppend(front: seq<string>, back: seq<string>, group: string)
    ensures DropColumns(front + back, group) == DropColumns(front, group) + DropColumns(back, group)
  {
    if front != [] {
      DropColumnsAppend(front[1..], back, group);
      assert (front + back)[1..] == front[1..] + back;
    } else {
      assert front + back == back;
    }
  }

  /** Every column to keep survives as often as it occurs, every other
      column is gone. */
  lemma {:induction false} DropColumnsCounts(columns: seq<string>, group: string)
    ensures forall c :: multiset(DropColumns(columns, group))[c]
                        == if Keep(c, group) then multiset(columns)[c] else 0
  {
    if columns != [] {
      DropColumnsCounts(columns[1..], group);
      assert columns == [columns[0]] + columns[1..];
    }
  }

  /** Filtering an already filtered list changes nothing. */
  lemma {:induction false} DropColumnsIdempotent(columns: seq<string>, group: string)
    ensures DropColumns(DropColumns(columns, group), group) == DropColumns(columns, group)
  {
    if columns != [] {
      DropColumnsIdempotent(columns[1..], group);
      var rest := DropColumns(columns[1..], group);
      if Keep(columns[0], group) {
        assert DropColumns(columns, group) == [columns[0]] + rest;
        assert ([columns[0]] + rest)[1..] == rest;
      } else {
        assert DropColumns(columns, group) == rest;
      }
    }
  }
}
