/** Python string operations used by the helpers: `str.startswith`, and
    `str.split` / `str.join` with a one-character separator. */
module Strings {

  /** Python's `s.startswith(prefix)`: the first `len(prefix)` characters
      of `s` are `prefix`. */
  predicate StartsWith(s: string, prefix: string)
    ensures StartsWith(s, prefix) <==> |prefix| <= |s| && s[..|prefix|] == prefix
  {
    prefix <= s
  }

  /** Python's `s.split(sep)` for a one-character separator: the pieces
      between separators, empty pieces included, never an empty list. */
  function Split(s: string, sep: char): (parts: seq<string>)
    ensures |parts| >= 1
    ensures forall k :: 0 <= k < |parts| ==> sep !in parts[k]
    ensures |parts| == Count(s, sep) + 1
  {
    if |s| == 0 then [""]
    else
      var rest := Split(s[1..], sep);
      if s[0] == sep then [""] + rest
      else [[s[0]] + rest[0]] + rest[1..]
  }

  /** Python's `sep.join(parts)`. */
  function Join(parts: seq<string>, sep: char): string
    requires |parts| >= 1
  {
    if |parts| == 1 then parts[0] else parts[0] + [sep] + Join(parts[1..], sep)
  }

  /** Number of occurrences of `c` in `s`. */
  function Count(s: string, c: char): nat {
    if |s| == 0 then 0 else (if s[0] == c then 1 else 0) + Count(s[1..], c)
  }

  /** Splitting and joining back on the same separator gives the string back. */
  lemma {:induction false} JoinSplit(s: string, sep: char)
    ensures Join(Split(s, sep), sep) == s
  {
    if |s| > 0 {
      JoinSplit(s[1..], sep);
      var rest := Split(s[1..], sep);
      if s[0] != sep {
        var parts := Split(s, sep);
        if |rest| == 1 {
          assert parts == [[s[0]] + rest[0]];
        } else {
          assert parts[1..] == rest[1..];
          assert Join(rest, sep) == rest[0] + [sep] + Join(rest[1..], sep);
        }
      }
    }
  }

  /** Joining separator-free pieces and splitting again gives the pieces back. */
  lemma {:induction false} SplitJoin(parts: seq<string>, sep: char)
    requires |parts| >= 1
    requires forall k :: 0 <= k < |parts| ==> sep !in parts[k]
    ensures Split(Join(parts, sep), sep) == parts
  {
    if |parts| == 1 {
      SplitNoSeparator(parts[0], sep);
    } else {
      SplitJoin(parts[1..], sep);
      SplitPrefix(parts[0], Join(parts[1..], sep), sep);
      assert [parts[0]] + parts[1..] == parts;
    }
  }

  /** A string without the separator splits into itself. */
  lemma {:induction false} SplitNoSeparator(s: string, sep: char)
    requires sep !in s
    ensures Split(s, sep) == [s]
  {
    if |s| > 0 {
      SplitNoSeparator(s[1..], sep);
      assert [s[0]] + s[1..] == s;
    }
  }

  /** Splitting `p + [sep] + t` where `p` holds no separator puts `p` first. */
  lemma {:induction false} SplitPrefix(p: string, t: string, sep: char)
    requires sep !in p
    ensures Split(p + [sep] + t, sep) == [p] + Split(t, sep)
  {
    if |p| == 0 {
      assert p + [sep] + t == [sep] + t;
      assert ([sep] + t)[1..] == t;
    } else {
      SplitPrefix(p[1..], t, sep);
      assert (p + [sep] + t)[1..] == p[1..] + [sep] + t;
      assert [p[0]] + p[1..] == p;
    }
  }

  /** The last piece of a split is the suffix after the last separator. */
  lemma LastPieceSpan(s: string, sep: char) returns (start: nat)
    ensures var parts := Split(s, sep);
            && start <= |s|
            && s[start..] == parts[|parts| - 1]
            && (start == 0 || s[start - 1] == sep)
  {
    var parts := Split(s, sep);
    JoinSplit(s, sep);
    if |parts| == 1 {
      start := 0;
    } else {
      JoinLast(parts, sep);
      var front := Join(parts[..|parts| - 1], sep);
      start := |front| + 1;
      assert s == front + [sep] + parts[|parts| - 1];
    }
  }

  /** The first piece of a split is the prefix before the first separator. */
  lemma {:induction false} FirstPieceSpan(s: string, sep: char)
    ensures var first := Split(s, sep)[0];
            && |first| <= |s|
            && s[..|first|] == first
            && (|first| == |s| || s[|first|] == sep)
  {
    var parts := Split(s, sep);
    JoinSplit(s, sep);
    if |parts| > 1 {
      assert s == parts[0] + [sep] + Join(parts[1..], sep);
    }
  }

  /** The last piece of a split is whatever follows the last separator. */
  lemma {:induction false} SplitLastPiece(prefix: string, tail: string, sep: char)
    requires sep !in tail
    ensures var parts := Split(prefix + [sep] + tail, sep);
            |parts| >= 2 && parts[|parts| - 1] == tail
  {
    var s := prefix + [sep] + tail;
    if prefix == [] {
      assert s[1..] == tail;
      SplitNoSeparator(tail, sep);
    } else {
      SplitLastPiece(prefix[1..], tail, sep);
      assert s[1..] == prefix[1..] + [sep] + tail;
    }
  }

  lemma {:induction false} JoinLast(parts: seq<string>, sep: char)
    requires |parts| >= 2
    ensures Join(parts, sep) == Join(parts[..|parts| - 1], sep) + [sep] + parts[|parts| - 1]
  {
    if |parts| > 2 {
      JoinLast(parts[1..], sep);
      assert parts[1..][..|parts| - 2] == parts[..|parts| - 1][1..];
    }
  }
}
