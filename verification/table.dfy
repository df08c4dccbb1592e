/** The tabular data the anonymiser works on: a data frame reduced to what the
    transform reads, i.e. an ordered sequence of named, typed columns. */
module Table {

  /** The digest applied to text cells (SHA-256 with a 256-bit output). Its
      internals are not modelled: any total function of the cell's text. */
  type Hash = string -> string

  /** A column is either numeric (integer-typed) or text; the cells are in row order. */
  datatype Column =
    | Numeric(nums: seq<int>)
    | Text(texts: seq<string>)

  /** A named column of a frame. */
  datatype Field = Field(name: string, column: Column)

  /** A frame: its columns in the order the caller sees them. */
  type Frame = seq<Field>

  /** The number of rows of a column. */
  function Height(c: Column): nat
  {
    match c
    case Numeric(ns) => |ns|
    case Text(ts) => |ts|
  }

  /** The column names of a frame, in order (`df.columns`). */
  function Names(d: Frame): seq<string>
  {
    seq(|d|, i requires 0 <= i < |d| => d[i].name)
  }

  /** No two columns share a name, as in every frame a CSV header or a JSON
      record schema produces. */
  predicate DistinctNames(d: Frame)
  {
    forall i, j :: 0 <= i < j < |d| ==> d[i].name != d[j].name
  }

  /** Every column of `d` has exactly `n` rows. */
  predicate Rectangular(d: Frame, n: nat)
  {
    forall i :: 0 <= i < |d| ==> Height(d[i].column) == n
  }

  /** `e` has the schema and the row count of `d`: the same column names in the
      same order, each column of the same kind and with the same number of rows.
      Only cell values may differ. */
  predicate SameShape(d: Frame, e: Frame)
  {
    && |d| == |e|
    && Names(d) == Names(e)
    && forall i :: 0 <= i < |d| ==>
         d[i].column.Numeric? == e[i].column.Numeric? && Height(d[i].column) == Height(e[i].column)
  }

  /** Two frames of the same shape agree on column names, on uniqueness of names,
      and on the row count of every column. */
  lemma SameShapeKeepsInvariants(d: Frame, e: Frame, n: nat)
    requires SameShape(d, e)
    ensures DistinctNames(d) <==> DistinctNames(e)
    ensures Rectangular(d, n) <==> Rectangular(e, n)
    ensures forall name :: name in Names(d) <==> name in Names(e)
  {
    forall i | 0 <= i < |d|
      ensures d[i].name == e[i].name
    {
      assert Names(d)[i] == Names(e)[i];
    }
  }

  /** Having the same shape is transitive. */
  lemma SameShapeTrans(d: Frame, e: Frame, f: Frame)
    requires SameShape(d, e) && SameShape(e, f)
    ensures SameShape(d, f)
  {
  }
}
