/** `generalize_column`: numeric columns are bucketed into fixed-width intervals
    anchored at zero, text columns are replaced by a digest of each cell. */
module Generalization {
  import opened Results
  import opened Table

  /** The lower bound of the width-`s` interval, anchored at zero, that holds
      `v`: floor(v / s) * s. For `s > 0` Dafny's `/` on `int` rounds towards
      negative infinity, as `floor` does, so -5 goes to -10 and not to 0. */
  function Bucket(v: int, s: int): (b: int)
    requires s > 0
    ensures b <= v < b + s
    ensures b % s == 0
  {
    var q := v / s;
    MultipleOf(q, s);
    q * s
  }

  /** `q * s` is a multiple of `s`, and dividing it by `s` gives back `q`. */
  lemma MultipleOf(q: int, s: int)
    requires s > 0
    ensures (q * s) % s == 0 && (q * s) / s == q
  {
    var m := q * s;
    var p, r := m / s, m % s;
    assert m == p * s + r && 0 <= r < s;
    // (q - p) * s == r, and 0 <= r < s leaves q == p and r == 0 as the only option
    assert (q - p) * s == r;
    if q < p {
      MulAtLeast(p - q, s);
    } else if p < q {
      MulAtLeast(q - p, s);
    }
  }

  /** A positive multiple of a positive `s` is at least `s`. */
  lemma {:induction false} MulAtLeast(k: int, s: int)
    requires k >= 1 && s > 0
    ensures k * s >= s
  {
    if k > 1 {
      MulAtLeast(k - 1, s);
      assert k * s == (k - 1) * s + s;
    }
  }

  /** Scaling a strict inequality between integers by a positive factor. */
  lemma MulStrict(a: int, b: int, s: int)
    requires s > 0 && a < b
    ensures a * s + s <= b * s
  {
    MulAtLeast(b - a, s);
    assert (b - a) * s == b * s - a * s;
  }

  /** The bucket is the only multiple of `s` that lies in (v - s, v]: any such
      multiple is the bucket of `v`. */
  lemma BucketUnique(v: int, s: int, b: int)
    requires s > 0
    requires b % s == 0
    requires b <= v < b + s
    ensures Bucket(v, s) == b
  {
    var c := Bucket(v, s);
    var p, q := b / s, c / s;
    assert b == p * s;
    assert c == q * s;
    if p < q {
      MulStrict(p, q, s);
    } else if q < p {
      MulStrict(q, p, s);
    }
  }

  /** Generalising an already generalised value with the same interval changes nothing. */
  lemma BucketIdempotent(v: int, s: int)
    requires s > 0
    ensures Bucket(Bucket(v, s), s) == Bucket(v, s)
  {
    BucketUnique(Bucket(v, s), s, Bucket(v, s));
  }

  /** Every value of the interval [b, b + s) that holds `v` has the same representative. */
  lemma BucketConstantOnInterval(v: int, w: int, s: int)
    requires s > 0
    requires Bucket(v, s) <= w < Bucket(v, s) + s
    ensures Bucket(w, s) == Bucket(v, s)
  {
    BucketUnique(w, s, Bucket(v, s));
  }

  /** The worked figures: with interval 10, 23 and 29 go to 20, 30 stays 30 and
      -5 goes to -10 (floor, not truncation towards zero). */
  lemma BucketExamples()
    ensures Bucket(23, 10) == 20 && Bucket(29, 10) == 20
    ensures Bucket(30, 10) == 30 && Bucket(-5, 10) == -10
  {
    BucketUnique(23, 10, 20);
    BucketUnique(29, 10, 20);
    BucketUnique(30, 10, 30);
    BucketUnique(-5, 10, -10);
  }

  /** One column after generalisation with interval `s`: every text cell replaced
      by its digest (the interval is not used), every numeric cell by its bucket.
      The column keeps its kind and its number of rows. */
  function GeneralizeCells(c: Column, s: int, hash: Hash): (r: Column)
    requires s > 0
    ensures r.Numeric? == c.Numeric? && Height(r) == Height(c)
    ensures c.Numeric? ==> forall i :: 0 <= i < |c.nums| ==>
              r.nums[i] % s == 0 && r.nums[i] <= c.nums[i] < r.nums[i] + s
    ensures c.Text? ==> forall i :: 0 <= i < |c.texts| ==> r.texts[i] == hash(c.texts[i])
    ensures c.Text? ==> forall i, j :: 0 <= i < |c.texts| && 0 <= j < |c.texts| && c.texts[i] == c.texts[j] ==>
              r.texts[i] == r.texts[j]
  {
    match c
    case Text(ts) => Text(seq(|ts|, i requires 0 <= i < |ts| => hash(ts[i])))
    case Numeric(ns) => Numeric(seq(|ns|, i requires 0 <= i < |ns| => Bucket(ns[i], s)))
  }

  /** A numeric column is generalised to the one column of multiples of `s` that
      sits, cell by cell, within `s` below the input. */
  lemma GeneralizeNumericUnique(ns: seq<int>, s: int, hash: Hash, bs: seq<int>)
    requires s > 0
    requires |bs| == |ns|
    requires forall i :: 0 <= i < |ns| ==> bs[i] % s == 0 && bs[i] <= ns[i] < bs[i] + s
    ensures GeneralizeCells(Numeric(ns), s, hash) == Numeric(bs)
  {
    var r := GeneralizeCells(Numeric(ns), s, hash).nums;
    forall i | 0 <= i < |ns|
      ensures r[i] == bs[i]
    {
      BucketUnique(ns[i], s, bs[i]);
    }
  }

  /** Re-applying the same interval to an already generalised numeric column is a no-op. */
  lemma GeneralizeNumericIdempotent(ns: seq<int>, s: int, hash: Hash)
    requires s > 0
    ensures var once := GeneralizeCells(Numeric(ns), s, hash);
            GeneralizeCells(once, s, hash) == once
  {
    var once := GeneralizeCells(Numeric(ns), s, hash);
    var twice := GeneralizeCells(once, s, hash);
    forall i | 0 <= i < |ns|
      ensures twice.nums[i] == once.nums[i]
    {
      BucketIdempotent(ns[i], s);
    }
  }

  /** A text column is hashed the same way whatever interval its directive carries. */
  lemma TextIgnoresInterval(ts: seq<string>, s: int, t: int, hash: Hash)
    requires s > 0 && t > 0
    ensures GeneralizeCells(Text(ts), s, hash) == GeneralizeCells(Text(ts), t, hash)
  {
  }

  /** `generalize_column(df, name, s)`: the column called `name` generalised with
      interval `s`, every other column untouched. Looking the name up in the
      schema raises `KeyError` when no column has that name. */
  function GeneralizeColumn(d: Frame, name: string, s: int, hash: Hash): (r: Result<Frame>)
    requires s > 0
    ensures r.Err? <==> name !in Names(d)
    ensures r.Err? ==> r.error == KeyError(name)
    ensures r.Ok? ==> SameShape(d, r.value)
    ensures r.Ok? ==> forall i :: 0 <= i < |d| && d[i].name != name ==> r.value[i] == d[i]
    ensures r.Ok? ==> forall i :: 0 <= i < |d| && d[i].name == name ==>
              r.value[i].column == GeneralizeCells(d[i].column, s, hash)
  {
    if name !in Names(d) then Err(KeyError(name))
    else
      var e := seq(|d|, i requires 0 <= i < |d| =>
                 if d[i].name == name then Field(name, GeneralizeCells(d[i].column, s, hash)) else d[i]);
      assert Names(d) == Names(e);
      Ok(e)
  }
}
