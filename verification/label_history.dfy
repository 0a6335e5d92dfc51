/** The label history of one survey variable: which human-readable labels the
    data provider attached to it in each requested year
    (`get_unique_labels_for_variable`). */
module LabelHistory {

  /** The provider's label of a variable in a year, with the dataset fixed:
      `ced.variables.get(acs, year, variable)["label"]`. */
  type LabelLookup = (string, int) -> string

  /** An insertion-ordered dictionary from label to the years that used it:
      `order` lists the keys in the order they were first inserted. */
  datatype History = History(order: seq<string>, years: map<string, seq<int>>)

  /** The keys are listed once each, the map has exactly the listed keys,
      and no key holds an empty list (a key is only ever created by an append). */
  ghost predicate Valid(h: History) {
    && Distinct(h.order)
    && (forall l :: l in h.years <==> l in h.order)
    && (forall l :: l in h.years ==> h.years[l] != [])
  }

  predicate Distinct(s: seq<string>) {
    forall a, b :: 0 <= a < b < |s| ==> s[a] != s[b]
  }

  /** `labels[label].append(year)` on a `defaultdict(list)`: the year goes
      at the end of the label's list (a new, empty one for a new label),
      and a new label goes at the end of the key order. */
  function Append(h: History, text: string, year: int): (r: History)
    ensures r.order == if text in h.years then h.order else h.order + [text]
    ensures text in r.years && r.years[text] == (if text in h.years then h.years[text] else []) + [year]
  {
    if text in h.years then History(h.order, h.years[text := h.years[text] + [year]])
    else History(h.order + [text], h.years[text := [year]])
  }

  /** Appending under one label leaves every other key and its list alone. */
  lemma AppendFrame(h: History, text: string, year: int, other: string)
    requires other != text
    ensures var r := Append(h, text, year);
            && (other in r.years <==> other in h.years)
            && (other in h.years ==> r.years[other] == h.years[other])
  {
  }

  /** The dictionary after the loop of `get_unique_labels_for_variable` has
      visited every year of `years`, in order; there are never more labels
      than years. */
  function Group(lookup: LabelLookup, variable: string, years: seq<int>): (h: History)
    ensures |h.order| <= |years|
  {
    if years == [] then History([], map[])
    else
      var last := years[|years| - 1];
      Append(Group(lookup, variable, years[..|years| - 1]), lookup(variable, last), last)
  }

  /** Builds the label history with the Python loop, appending each year
      in place to the list of its label. */
  method GetUniqueLabelsForVariable(lookup: LabelLookup, variable: string, years: seq<int>)
    returns (labels: History)
    ensures labels == Group(lookup, variable, years)
  {
    var order: seq<string> := [];
    var buckets: map<string, seq<int>> := map[];
    for i := 0 to |years|
      invariant History(order, buckets) == Group(lookup, variable, years[..i])
    {
      var year := years[i];
      var text := lookup(variable, year);
      if text in buckets {
        buckets := buckets[text := buckets[text] + [year]];
      } else {
        order := order + [text];
        buckets := buckets[text := [year]];
      }
      assert years[..i + 1][..i] == years[..i];
    }
    assert years[..|years|] == years;
    labels := History(order, buckets);
  }

  // ---------------------------------------------------------------------
  // Reference definitions, independent of the loop

  /** The label of each year, in input order. */
  function Labels(lookup: LabelLookup, variable: string, years: seq<int>): (ls: seq<string>)
    ensures |ls| == |years|
    ensures forall i :: 0 <= i < |years| ==> ls[i] == lookup(variable, years[i])
  {
    if years == [] then [] else [lookup(variable, years[0])] + Labels(lookup, variable, years[1..])
  }

  /** The years whose label is `text`, in input order. */
  function YearsLabelled(lookup: LabelLookup, variable: string, years: seq<int>, text: string): seq<int> {
    if years == [] then []
    else (if lookup(variable, years[0]) == text then [years[0]] else [])
         + YearsLabelled(lookup, variable, years[1..], text)
  }

  /** Position of the first occurrence of `x` in `s`. */
  function FirstIndex(s: seq<string>, x: string): (i: nat)
    requires x in s
    ensures i < |s| && s[i] == x
    ensures forall j :: 0 <= j < i ==> s[j] != x
  {
    if s[0] == x then 0 else 1 + FirstIndex(s[1..], x)
  }

  /** All lists of a dictionary, concatenated in key order. */
  function Concat(order: seq<string>, m: map<string, seq<int>>): seq<int> {
    if order == [] then []
    else (if order[0] in m then m[order[0]] else []) + Concat(order[1..], m)
  }

  // ---------------------------------------------------------------------
  // What the grouping computes

  /** The dictionary stays well formed: each key once, exactly the listed
      keys, no empty list. */
  lemma {:induction false} GroupValid(lookup: LabelLookup, variable: string, years: seq<int>)
    ensures Valid(Group(lookup, variable, years))
  {
    if years != [] {
      GroupValid(lookup, variable, years[..|years| - 1]);
    }
  }

  /** Each label's list holds exactly the years with that label, in input
      order; a label is a key iff some year has it. */
  lemma {:induction false} GroupLists(lookup: LabelLookup, variable: string, years: seq<int>, text: string)
    ensures var h := Group(lookup, variable, years);
            && (text in h.years <==> text in Labels(lookup, variable, years))
            && (text in h.years ==> h.years[text] == YearsLabelled(lookup, variable, years, text))
  {
    if years != [] {
      var init, last := years[..|years| - 1], years[|years| - 1];
      assert init + [last] == years;
      var h0 := Group(lookup, variable, init);
      var t := lookup(variable, last);
      assert Group(lookup, variable, years) == Append(h0, t, last);
      if t in h0.years {
        assert Group(lookup, variable, years).years == h0.years[t := h0.years[t] + [last]];
      } else {
        assert Group(lookup, variable, years).years == h0.years[t := [last]];
      }
      GroupLists(lookup, variable, init, text);
      YearsLabelledSnoc(lookup, variable, init, last, text);
      YearsLabelledEmpty(lookup, variable, init, text);
      LabelsSnoc(lookup, variable, init, last);
    }
  }

  /** Every input year lies in the list of its own label and in no other list. */
  lemma YearInExactlyOneList(lookup: LabelLookup, variable: string, years: seq<int>, year: int)
    requires year in years
    ensures var h := Group(lookup, variable, years);
            && lookup(variable, year) in h.years
            && year in h.years[lookup(variable, year)]
            && forall l :: l in h.years && year in h.years[l] ==> l == lookup(variable, year)
  {
    var h := Group(lookup, variable, years);
    var i :| 0 <= i < |years| && years[i] == year;
    GroupLists(lookup, variable, years, lookup(variable, year));
    assert Labels(lookup, variable, years)[i] == lookup(variable, year);
    YearsLabelledMember(lookup, variable, years, lookup(variable, year), year);
    forall l | l in h.years && year in h.years[l]
      ensures l == lookup(variable, year)
    {
      GroupLists(lookup, variable, years, l);
      YearsLabelledMember(lookup, variable, years, l, year);
    }
  }

  /** The lists, concatenated in key order, are a permutation of the input years. */
  lemma {:induction false} GroupPartition(lookup: LabelLookup, variable: string, years: seq<int>)
    ensures var h := Group(lookup, variable, years);
            multiset(Concat(h.order, h.years)) == multiset(years)
  {
    if years != [] {
      var init, last := years[..|years| - 1], years[|years| - 1];
      var h0 := Group(lookup, variable, init);
      var text := lookup(variable, last);
      assert init + [last] == years;
      GroupPartition(lookup, variable, init);
      GroupValid(lookup, variable, init);
      if text in h0.years {
        assert Group(lookup, variable, years) == History(h0.order, h0.years[text := h0.years[text] + [last]]);
        ConcatGrowList(h0.order, h0.years, text, last);
      } else {
        assert Group(lookup, variable, years) == History(h0.order + [text], h0.years[text := [last]]);
        ConcatNewList(h0.order, h0.years, text, last);
      }
    }
  }

  /** The keys are exactly the labels of the input years. */
  lemma GroupKeys(lookup: LabelLookup, variable: string, years: seq<int>)
    ensures var h := Group(lookup, variable, years);
            forall l :: l in h.order <==> l in Labels(lookup, variable, years)
  {
    GroupValid(lookup, variable, years);
    forall l ensures l in Group(lookup, variable, years).order <==> l in Labels(lookup, variable, years) {
      GroupLists(lookup, variable, years, l);
    }
  }

  /** `x` was first seen before `y` in the label sequence `ls`. */
  predicate SeenBefore(ls: seq<string>, x: string, y: string) {
    x in ls && y in ls && FirstIndex(ls, x) < FirstIndex(ls, y)
  }

  /** Every key of `keys` was first seen in `ls` before the keys after it. */
  predicate InFirstSeenOrder(keys: seq<string>, ls: seq<string>) {
    forall a, b :: 0 <= a < b < |keys| ==> SeenBefore(ls, keys[a], keys[b])
  }

  /** The keys come in the order in which each label was first seen. */
  lemma {:induction false} GroupKeyOrder(lookup: LabelLookup, variable: string, years: seq<int>)
    ensures InFirstSeenOrder(Group(lookup, variable, years).order, Labels(lookup, variable, years))
  {
    if years != [] {
      var init, last := years[..|years| - 1], years[|years| - 1];
      assert init + [last] == years;
      var text := lookup(variable, last);
      GroupKeyOrder(lookup, variable, init);
      GroupKeys(lookup, variable, init);
      KeyOrderStep(Group(lookup, variable, init).order, Labels(lookup, variable, init), text);
      GroupOrderSnoc(lookup, variable, init, last);
      LabelsSnoc(lookup, variable, init, last);
    }
  }

  /** Appending one year adds its label to the keys iff it is not a key yet. */
  lemma GroupOrderSnoc(lookup: LabelLookup, variable: string, init: seq<int>, last: int)
    ensures var keys, text := Group(lookup, variable, init).order, lookup(variable, last);
            Group(lookup, variable, init + [last]).order == if text in keys then keys else keys + [text]
  {
    assert (init + [last])[..|init|] == init;
    GroupValid(lookup, variable, init);
  }

  /** One step of the loop keeps the keys in first-seen order. */
  lemma KeyOrderStep(keys: seq<string>, ls: seq<string>, text: string)
    requires forall l :: l in keys <==> l in ls
    requires InFirstSeenOrder(keys, ls)
    ensures InFirstSeenOrder(if text in keys then keys else keys + [text], ls + [text])
  {
    var ls' := ls + [text];
    forall k | 0 <= k < |keys| ensures keys[k] in ls && FirstIndex(ls', keys[k]) == FirstIndex(ls, keys[k]) {
      FirstIndexSnoc(ls, text, keys[k]);
    }
    if text !in keys {
      var keys' := keys + [text];
      assert ls'[|ls|] == text;
      assert FirstIndex(ls', text) == |ls|;
      forall a, b | 0 <= a < b < |keys'| ensures SeenBefore(ls', keys'[a], keys'[b]) {
        assert keys'[a] == keys[a];
        if b < |keys| {
          assert keys'[b] == keys[b];
        }
      }
    }
  }

  /** A non-empty history has exactly one key iff every year has the same
      label, and then that key's list is the whole input; an empty input
      gives an empty dictionary. */
  lemma StableLabel(lookup: LabelLookup, variable: string, years: seq<int>)
    ensures var h := Group(lookup, variable, years);
            && (years == [] ==> h.order == [] && h.years == map[])
            && (years != [] ==>
                  (|h.order| == 1 <==>
                     forall i :: 0 <= i < |years| ==> lookup(variable, years[i]) == lookup(variable, years[0])))
            && (|h.order| == 1 ==> h.order[0] in h.years && h.years[h.order[0]] == years)
  {
    if years != [] {
      var first := lookup(variable, years[0]);
      if forall i :: 0 <= i < |years| ==> lookup(variable, years[i]) == first {
        AllSameOneKey(lookup, variable, years);
      }
      if |Group(lookup, variable, years).order| == 1 {
        OneKeyAllSame(lookup, variable, years);
      }
    }
  }

  /** Every year with the same label: one key. */
  lemma AllSameOneKey(lookup: LabelLookup, variable: string, years: seq<int>)
    requires years != []
    requires forall i :: 0 <= i < |years| ==> lookup(variable, years[i]) == lookup(variable, years[0])
    ensures |Group(lookup, variable, years).order| == 1
  {
    var ls := Labels(lookup, variable, years);
    GroupValid(lookup, variable, years);
    GroupKeys(lookup, variable, years);
    assert forall i :: 0 <= i < |ls| ==> ls[i] == lookup(variable, years[0]);
    KeysOfConstant(Group(lookup, variable, years).order, ls, lookup(variable, years[0]));
  }

  /** Keys listed once each, drawn from a non-empty label sequence that holds
      only `x`: there is exactly one. */
  lemma KeysOfConstant(keys: seq<string>, ls: seq<string>, x: string)
    requires Distinct(keys) && ls != []
    requires forall l :: l in keys <==> l in ls
    requires forall i :: 0 <= i < |ls| ==> ls[i] == x
    ensures |keys| == 1
  {
    assert ls[0] == x;
    forall k | 0 <= k < |keys| ensures keys[k] == x {
      assert keys[k] in keys;
      var i :| 0 <= i < |ls| && ls[i] == keys[k];
    }
    DistinctConstant(keys, x);
  }

  /** A list without repetitions, holding `x` and nothing else, is `[x]`. */
  lemma DistinctConstant(s: seq<string>, x: string)
    requires Distinct(s) && x in s
    requires forall k :: 0 <= k < |s| ==> s[k] == x
    ensures |s| == 1
  {
    DistinctCard(s);
    assert (set l | l in s) == {x};
  }

  /** One key: every year has that label and its list is the whole input. */
  lemma OneKeyAllSame(lookup: LabelLookup, variable: string, years: seq<int>)
    requires years != []
    requires |Group(lookup, variable, years).order| == 1
    ensures forall i :: 0 <= i < |years| ==> lookup(variable, years[i]) == lookup(variable, years[0])
    ensures var h := Group(lookup, variable, years);
            h.order[0] in h.years && h.years[h.order[0]] == years
  {
    var h := Group(lookup, variable, years);
    var ls := Labels(lookup, variable, years);
    var first := lookup(variable, years[0]);
    GroupKeys(lookup, variable, years);
    OneKeyConstant(h.order, ls);
    assert ls[0] == first;
    GroupLists(lookup, variable, years, first);
    YearsLabelledAll(lookup, variable, years, first);
  }

  /** A single key drawn from the label sequence: every label is that key. */
  lemma OneKeyConstant(keys: seq<string>, ls: seq<string>)
    requires |keys| == 1
    requires forall l :: l in keys <==> l in ls
    ensures forall i :: 0 <= i < |ls| ==> ls[i] == keys[0]
  {
    assert keys == [keys[0]];
    forall i | 0 <= i < |ls| ensures ls[i] == keys[0] {
      assert ls[i] in ls;
    }
  }

  /** The documented example: B08006_017E was labelled
      'Estimate!!Total!!Motorcycle' in 2005, 'Estimate!!Total!!Worked at home'
      in 2006 and 'Estimate!!Total:!!Worked from home' in 2019, so the
      history over those years has three keys, one year each. */
  lemma MotorcycleExample(lookup: LabelLookup, a: string, b: string, c: string)
    requires a == "Estimate!!Total!!Motorcycle" && lookup("B08006_017E", 2005) == a
    requires b == "Estimate!!Total!!Worked at home" && lookup("B08006_017E", 2006) == b
    requires c == "Estimate!!Total:!!Worked from home" && lookup("B08006_017E", 2019) == c
    ensures Group(lookup, "B08006_017E", [2005, 2006, 2019])
            == History([a, b, c], map[a := [2005], b := [2006], c := [2019]])
  {
    var v := "B08006_017E";
    assert a != b && b != c && a != c by {
      assert a[17] == 'M' && b[17] == 'W' && c[15] == ':';
      assert a[15] == '!' && b[15] == '!';
    }
    assert [2005][..0] == [];
    var h1 := Group(lookup, v, [2005]);
    assert h1 == History([a], map[a := [2005]]);
    assert [2005, 2006][..1] == [2005];
    var h2 := Group(lookup, v, [2005, 2006]);
    assert h2 == Append(h1, b, 2006);
    assert h2 == History([a, b], map[a := [2005], b := [2006]]);
    assert [2005, 2006, 2019][..2] == [2005, 2006];
    assert Group(lookup, v, [2005, 2006, 2019]) == Append(h2, c, 2019);
  }

  /** Python's `len(labels)`: the number of keys equals the length of the key order. */
  lemma SizeIsKeyCount(h: History)
    requires Valid(h)
    ensures |h.years| == |h.order|
  {
    assert h.years.Keys == set l | l in h.order;
    DistinctCard(h.order);
  }

  // ---------------------------------------------------------------------
  // Helper lemmas

  lemma {:induction false} LabelsSnoc(lookup: LabelLookup, variable: string, init: seq<int>, last: int)
    ensures Labels(lookup, variable, init + [last]) == Labels(lookup, variable, init) + [lookup(variable, last)]
  {
  }

  lemma {:induction false} YearsLabelledSnoc(lookup: LabelLookup, variable: string, init: seq<int>, last: int, text: string)
    ensures YearsLabelled(lookup, variable, init + [last], text)
         == YearsLabelled(lookup, variable, init, text) + (if lookup(variable, last) == text then [last] else [])
  {
    if init != [] {
      YearsLabelledSnoc(lookup, variable, init[1..], last, text);
      assert (init + [last])[1..] == init[1..] + [last];
    }
  }

  lemma {:induction false} YearsLabelledMember(lookup: LabelLookup, variable: string, years: seq<int>, text: string, year: int)
    ensures year in YearsLabelled(lookup, variable, years, text) <==> year in years && lookup(variable, year) == text
  {
    if years != [] {
      YearsLabelledMember(lookup, variable, years[1..], text, year);
      assert years == [years[0]] + years[1..];
    }
  }

  lemma {:induction false} YearsLabelledEmpty(lookup: LabelLookup, variable: string, years: seq<int>, text: string)
    ensures YearsLabelled(lookup, variable, years, text) == [] <==> text !in Labels(lookup, variable, years)
  {
    if years != [] {
      YearsLabelledEmpty(lookup, variable, years[1..], text);
    }
  }

  lemma {:induction false} YearsLabelledAll(lookup: LabelLookup, variable: string, years: seq<int>, text: string)
    requires forall i :: 0 <= i < |years| ==> lookup(variable, years[i]) == text
    ensures YearsLabelled(lookup, variable, years, text) == years
  {
    if years != [] {
      YearsLabelledAll(lookup, variable, years[1..], text);
      assert years == [years[0]] + years[1..];
    }
  }

  lemma {:induction false} FirstIndexSnoc(s: seq<string>, x: string, y: string)
    requires y in s
    ensures FirstIndex(s + [x], y) == FirstIndex(s, y)
  {
    if s[0] != y {
      FirstIndexSnoc(s[1..], x, y);
      assert (s + [x])[1..] == s[1..] + [x];
    }
  }

  lemma {:induction false} ConcatFrame(order: seq<string>, m: map<string, seq<int>>, l: string, v: seq<int>)
    requires l !in order
    ensures Concat(order, m[l := v]) == Concat(order, m)
  {
    if order != [] {
      ConcatFrame(order[1..], m, l, v);
    }
  }

  lemma {:induction false} ConcatSnoc(order: seq<string>, m: map<string, seq<int>>, l: string)
    requires l in m
    ensures Concat(order + [l], m) == Concat(order, m) + m[l]
  {
    if order != [] {
      ConcatSnoc(order[1..], m, l);
      assert (order + [l])[1..] == order[1..] + [l];
    }
  }

  lemma {:induction false} ConcatNewList(order: seq<string>, m: map<string, seq<int>>, l: string, y: int)
    requires l !in order
    ensures Concat(order + [l], m[l := [y]]) == Concat(order, m) + [y]
  {
    ConcatSnoc(order, m[l := [y]], l);
    ConcatFrame(order, m, l, [y]);
  }

  lemma {:induction false} ConcatGrowList(order: seq<string>, m: map<string, seq<int>>, l: string, y: int)
    requires Distinct(order) && l in order && l in m
    ensures multiset(Concat(order, m[l := m[l] + [y]])) == multiset(Concat(order, m)) + multiset{y}
  {
    var m' := m[l := m[l] + [y]];
    if order[0] == l {
      assert l !in order[1..];
      ConcatFrame(order[1..], m, l, m[l] + [y]);
    } else {
      ConcatGrowList(order[1..], m, l, y);
    }
  }

  lemma {:induction false} DistinctCard(s: seq<string>)
    requires Distinct(s)
    ensures |set l | l in s| == |s|
  {
    if s != [] {
      DistinctCard(s[1..]);
      assert (set l | l in s) == {s[0]} + (set l | l in s[1..]);
      assert s[0] !in s[1..];
    }
  }
}
