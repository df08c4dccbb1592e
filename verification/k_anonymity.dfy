/** `k_anonymize`: apply `generalize_column` once per entry of the directive
    dictionary, skipping names that are not columns of the frame. */
module KAnonymity {
  import opened Results
  import opened Table
  import opened Generalization

  /** One entry of the directive dictionary: a column name and its interval size. */
  datatype Directive = Directive(name: string, interval: int)

  /** Dictionary keys are unique, so the items of one dictionary name distinct columns. */
  predicate DistinctKeys(dirs: seq<Directive>)
  {
    forall i, j :: 0 <= i < j < |dirs| ==> dirs[i].name != dirs[j].name
  }

  /** Every interval is positive (the form offers only 1 to 100). */
  predicate PositiveIntervals(dirs: seq<Directive>)
  {
    forall i :: 0 <= i < |dirs| ==> dirs[i].interval > 0
  }

  /** Every interval in the dictionary is positive. */
  predicate PositiveMap(m: map<string, int>)
  {
    forall name :: name in m ==> m[name] > 0
  }

  /** The dictionary whose items, in iteration order, are `dirs`. Its keys are
      the names of `dirs` and every value comes from an item of `dirs`. */
  function ToMap(dirs: seq<Directive>): (m: map<string, int>)
    ensures forall i :: 0 <= i < |dirs| ==> dirs[i].name in m
    ensures forall name :: name in m ==> exists i :: 0 <= i < |dirs| && dirs[i] == Directive(name, m[name])
  {
    if dirs == [] then map[]
    else
      var last := dirs[|dirs| - 1];
      var m := ToMap(dirs[..|dirs| - 1])[last.name := last.interval];
      ItemsWitness(dirs, dirs[..|dirs| - 1], ToMap(dirs[..|dirs| - 1]), m);
      m
  }

  /** Adding the last item to the dictionary of the others keeps every value
      traceable to an item. */
  lemma ItemsWitness(dirs: seq<Directive>, init: seq<Directive>, m0: map<string, int>, m: map<string, int>)
    requires dirs != [] && init == dirs[..|dirs| - 1]
    requires forall name :: name in m0 ==> exists i :: 0 <= i < |init| && init[i] == Directive(name, m0[name])
    requires m == m0[dirs[|dirs| - 1].name := dirs[|dirs| - 1].interval]
    ensures forall name :: name in m ==> exists i :: 0 <= i < |dirs| && dirs[i] == Directive(name, m[name])
  {
    var n := |dirs| - 1;
    forall name | name in m
      ensures exists i :: 0 <= i < |dirs| && dirs[i] == Directive(name, m[name])
    {
      if name == dirs[n].name {
        assert dirs[n] == Directive(name, m[name]);
      } else {
        var i :| 0 <= i < n && init[i] == Directive(name, m0[name]);
        assert dirs[i] == Directive(name, m[name]);
      }
    }
  }

  /** With unique keys, each item's interval is what the dictionary maps its name to. */
  lemma ToMapLookup(dirs: seq<Directive>, i: int)
    requires DistinctKeys(dirs)
    requires 0 <= i < |dirs|
    ensures ToMap(dirs)[dirs[i].name] == dirs[i].interval
  {
    var name := dirs[i].name;
    var j :| 0 <= j < |dirs| && dirs[j] == Directive(name, ToMap(dirs)[name]);
    assert i == j;
  }

  /** Items with positive intervals make a dictionary with positive values. */
  lemma ToMapPositive(dirs: seq<Directive>)
    requires PositiveIntervals(dirs)
    ensures PositiveMap(ToMap(dirs))
  {
  }

  /** The reference definition of the anonymised frame, column by column: a
      column named in `m` generalised with its interval, every other column as
      it was. It depends on the dictionary only, not on its iteration order. */
  function Anonymized(d: Frame, m: map<string, int>, hash: Hash): (r: Frame)
    requires PositiveMap(m)
    ensures SameShape(d, r)
  {
    var r := seq(|d|, i requires 0 <= i < |d| =>
                 if d[i].name in m then Field(d[i].name, GeneralizeCells(d[i].column, m[d[i].name], hash))
                 else d[i]);
    assert Names(d) == Names(r);
    r
  }

  /** One pass of the loop body: generalise the named column if the frame has it,
      otherwise leave the frame as it is. */
  function Step(d: Frame, dir: Directive, hash: Hash): (r: Frame)
    requires dir.interval > 0
    ensures SameShape(d, r)
    ensures forall i :: 0 <= i < |d| && d[i].name != dir.name ==> r[i] == d[i]
    ensures forall i :: 0 <= i < |d| && d[i].name == dir.name ==>
              r[i].column == GeneralizeCells(d[i].column, dir.interval, hash)
    ensures dir.name !in Names(d) ==> r == d
  {
    if dir.name in Names(d) then GeneralizeColumn(d, dir.name, dir.interval, hash).value
    else
      assert forall i :: 0 <= i < |d| ==> Names(d)[i] == d[i].name;
      d
  }

  /** The frame after the loop has run over the items `dirs`, in order. The
      result has the input's schema and row count. */
  function ApplyAll(d: Frame, dirs: seq<Directive>, hash: Hash): (r: Frame)
    requires PositiveIntervals(dirs)
    ensures SameShape(d, r)
  {
    if dirs == [] then d
    else
      var prev := ApplyAll(d, dirs[..|dirs| - 1], hash);
      var r := Step(prev, dirs[|dirs| - 1], hash);
      SameShapeTrans(d, prev, r);
      r
  }

  /** `k_anonymize(df, k, generalization_columns)`: the loop rebinds the frame
      once per item. The result is the reference frame for the dictionary, so it
      depends neither on `k`, which is never read, nor on the iteration order. */
  method KAnonymize(d: Frame, k: int, dirs: seq<Directive>, hash: Hash) returns (out: Frame)
    requires PositiveIntervals(dirs)
    ensures out == ApplyAll(d, dirs, hash)
    ensures SameShape(d, out)
    ensures DistinctKeys(dirs) ==> out == Anonymized(d, ToMap(dirs), hash)
    ensures forall n: nat :: DistinctNames(d) && Rectangular(d, n) ==> DistinctNames(out) && Rectangular(out, n)
  {
    out := d;
    for i := 0 to |dirs|
      invariant out == ApplyAll(d, dirs[..i], hash)
    {
      assert dirs[..i + 1][..i] == dirs[..i];
      var dir := dirs[i];
      if dir.name in Names(out) {
        var g := GeneralizeColumn(out, dir.name, dir.interval, hash);
        out := g.value;
      }
    }
    assert dirs[..|dirs|] == dirs;
    if DistinctKeys(dirs) {
      ApplyAllIsColumnwise(d, dirs, hash);
    }
    forall n: nat | DistinctNames(d) && Rectangular(d, n)
      ensures DistinctNames(out) && Rectangular(out, n)
    {
      ApplyAllKeepsTable(d, dirs, hash, n);
    }
  }

  /** Running the loop over items with distinct names yields the reference frame
      of their dictionary: each step touches only its own column, and no later
      step touches it again. */
  lemma {:induction false} ApplyAllIsColumnwise(d: Frame, dirs: seq<Directive>, hash: Hash)
    requires PositiveIntervals(dirs)
    requires DistinctKeys(dirs)
    ensures PositiveMap(ToMap(dirs))
    ensures ApplyAll(d, dirs, hash) == Anonymized(d, ToMap(dirs), hash)
  {
    ToMapPositive(dirs);
    if dirs != [] {
      var init, last := dirs[..|dirs| - 1], dirs[|dirs| - 1];
      ApplyAllIsColumnwise(d, init, hash);
      var m0, m := ToMap(init), ToMap(dirs);
      assert last.name !in m0;
      var prev := Anonymized(d, m0, hash);
      var r := Step(prev, last, hash);
      var want := Anonymized(d, m, hash);
      assert |r| == |want|;
      forall i | 0 <= i < |d|
        ensures r[i] == want[i]
      {
        assert Names(prev)[i] == Names(d)[i];
        if d[i].name == last.name {
          assert prev[i] == d[i];
        }
      }
    }
  }

  /** Iterating the same dictionary in any other order gives the same frame. */
  lemma OrderIrrelevant(d: Frame, dirs: seq<Directive>, other: seq<Directive>, hash: Hash)
    requires PositiveIntervals(dirs) && DistinctKeys(dirs)
    requires PositiveIntervals(other) && DistinctKeys(other)
    requires multiset(dirs) == multiset(other)
    ensures ApplyAll(d, dirs, hash) == ApplyAll(d, other, hash)
  {
    ApplyAllIsColumnwise(d, dirs, hash);
    ApplyAllIsColumnwise(d, other, hash);
    SameItemsSameMap(dirs, other);
    SameItemsSameMap(other, dirs);
  }

  /** Two item sequences with unique keys and the same items give dictionaries
      that agree on every key of the first. */
  lemma SameItemsSameMap(dirs: seq<Directive>, other: seq<Directive>)
    requires DistinctKeys(dirs) && DistinctKeys(other)
    requires multiset(dirs) == multiset(other)
    ensures forall name :: name in ToMap(dirs) ==> name in ToMap(other) && ToMap(other)[name] == ToMap(dirs)[name]
  {
    forall name | name in ToMap(dirs)
      ensures name in ToMap(other) && ToMap(other)[name] == ToMap(dirs)[name]
    {
      var i :| 0 <= i < |dirs| && dirs[i] == Directive(name, ToMap(dirs)[name]);
      assert dirs[i] in multiset(other);
      var j :| 0 <= j < |other| && other[j] == dirs[i];
      ToMapLookup(other, j);
    }
  }

  /** Running the loop over `first + later` is running it over `first`, then
      over `later` from where it stopped. */
  lemma {:induction false} ApplyAllConcat(d: Frame, first: seq<Directive>, later: seq<Directive>, hash: Hash)
    requires PositiveIntervals(first) && PositiveIntervals(later)
    ensures PositiveIntervals(first + later)
    ensures ApplyAll(d, first + later, hash) == ApplyAll(ApplyAll(d, first, hash), later, hash)
  {
    var all := first + later;
    if later != [] {
      var init := later[..|later| - 1];
      assert all[..|all| - 1] == first + init;
      assert all[|all| - 1] == later[|later| - 1];
      ApplyAllConcat(d, first, init, hash);
    } else {
      assert all == first;
    }
  }

  /** A directive naming a column the frame does not have raises nothing and
      changes nothing, wherever it stands among the items. */
  lemma UnknownColumnIgnored(d: Frame, pre: seq<Directive>, x: Directive, post: seq<Directive>, hash: Hash)
    requires PositiveIntervals(pre) && x.interval > 0 && PositiveIntervals(post)
    requires x.name !in Names(d)
    ensures PositiveIntervals(pre + [x] + post) && PositiveIntervals(pre + post)
    ensures ApplyAll(d, pre + [x] + post, hash) == ApplyAll(d, pre + post, hash)
  {
    var mid := ApplyAll(d, pre, hash);
    SameShapeKeepsInvariants(d, mid, 0);
    ApplyAllConcat(d, pre, [x], hash);
    assert ApplyAll(mid, [x], hash) == Step(mid, x, hash) == mid;
    ApplyAllConcat(d, pre + [x], post, hash);
    ApplyAllConcat(d, pre, post, hash);
  }

  /** The loop keeps the frame's table invariants: column names stay unique and
      every column keeps the common row count `n`. */
  lemma ApplyAllKeepsTable(d: Frame, dirs: seq<Directive>, hash: Hash, n: nat)
    requires PositiveIntervals(dirs)
    requires DistinctNames(d) && Rectangular(d, n)
    ensures DistinctNames(ApplyAll(d, dirs, hash)) && Rectangular(ApplyAll(d, dirs, hash), n)
  {
    SameShapeKeepsInvariants(d, ApplyAll(d, dirs, hash), n);
  }

  /** The worked scenario: columns `age` (23, 47, 8) and `name` ("Alice", "Bob",
      "Alice") with `age` given interval 10 and `name` given interval 5. */
  lemma Scenario(hash: Hash)
    ensures var d := [Field("age", Numeric([23, 47, 8])), Field("name", Text(["Alice", "Bob", "Alice"]))];
            var out := ApplyAll(d, [Directive("age", 10), Directive("name", 5)], hash);
            && out == [Field("age", Numeric([20, 40, 0])), Field("name", Text([hash("Alice"), hash("Bob"), hash("Alice")]))]
            && out[1].column.texts[0] == out[1].column.texts[2]
  {
    var d := [Field("age", Numeric([23, 47, 8])), Field("name", Text(["Alice", "Bob", "Alice"]))];
    var dirs := [Directive("age", 10), Directive("name", 5)];
    assert DistinctKeys(dirs);
    ApplyAllIsColumnwise(d, dirs, hash);
    ToMapLookup(dirs, 0);
    ToMapLookup(dirs, 1);
    GeneralizeNumericUnique([23, 47, 8], 10, hash, [20, 40, 0]);
    var out := Anonymized(d, ToMap(dirs), hash);
    assert out[0] == Field("age", Numeric([20, 40, 0]));
    assert out[1].column.texts == [hash("Alice"), hash("Bob"), hash("Alice")];
  }
}
