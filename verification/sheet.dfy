/**
 The two sheet columns, `Teams` and `Sports`, as read from the spreadsheet:
 a column is a sequence of cells, each either missing (`None`) or a name.
 The draw starts from `dropna()` of each column (streamlit_app.py lines 30-31)
 and the registered-names view from `dropna().unique()` (lines 77-78).
 */
module Sheet {
  import opened Wrappers
  import opened Seqs

  /** pandas `Series.dropna()`: the present cells of a column, in column order. */
  function DropNa<T(==,!new)>(col: seq<Option<T>>): (r: seq<T>)
    ensures |r| <= |col|
    ensures forall x :: x in r <==> Some(x) in col
    ensures forall x :: multiset(r)[x] == multiset(col)[Some(x)]
  {
    if |col| == 0 then []
    else
      assert col == [col[0]] + col[1..];
      var rest := DropNa(col[1..]);
      match col[0]
      case None => rest
      case Some(x) => [x] + rest
  }

  /** `dropna()` of one cell is the cell's name, or nothing when the cell is missing. */
  lemma DropNaCell<T(!new)>(c: Option<T>)
    ensures DropNa([c]) == c.ToSeq()
  {
    assert [c][1..] == [];
  }

  /**
   `dropna()` of two stacked column parts is the dropna of the upper part
   followed by that of the lower part; with `DropNaCell` this fixes the
   result cell by cell, so column order is kept.
   */
  lemma {:induction false} DropNaConcat<T(!new)>(a: seq<Option<T>>, b: seq<Option<T>>)
    ensures DropNa(a + b) == DropNa(a) + DropNa(b)
    decreases |a|
  {
    if |a| == 0 {
      assert a + b == b;
    } else {
      assert (a + b)[0] == a[0];
      assert (a + b)[1..] == a[1..] + b;
      DropNaConcat(a[1..], b);
    }
  }

  /** Position of the first occurrence of `x` in `xs`. */
  function FirstIndex<T(==)>(xs: seq<T>, x: T): (k: nat)
    requires x in xs
    ensures k < |xs| && xs[k] == x
    ensures forall j :: 0 <= j < k ==> xs[j] != x
  {
    if xs[0] == x then 0 else 1 + FirstIndex(xs[1..], x)
  }

  /** Extending a sequence does not move the first occurrence of an element already present. */
  lemma FirstIndexOfPrefix<T>(xs: seq<T>, n: nat, x: T)
    requires n <= |xs| && x in xs[..n]
    ensures x in xs && FirstIndex(xs, x) == FirstIndex(xs[..n], x)
  {
    var p := xs[..n];
    var k, k' := FirstIndex(xs, x), FirstIndex(p, x);
    assert xs[k'] == x;
    assert k < n ==> p[k] == x;
  }

  /**
   pandas `Series.unique()`: every element once, in the order of its first
   occurrence (hash-based, so equality is exact string equality).
   */
  function Unique<T(==,!new)>(xs: seq<T>): (r: seq<T>)
    ensures NoDuplicates(r)
    ensures forall x :: x in r <==> x in xs
    ensures forall i, j :: 0 <= i < j < |r| ==> FirstIndex(xs, r[i]) < FirstIndex(xs, r[j])
  {
    if |xs| == 0 then []
    else
      var n := |xs| - 1;
      var u := Unique(xs[..n]);
      var x := xs[n];
      assert xs == xs[..n] + [x];
      forall y | y in u ensures FirstIndex(xs, y) == FirstIndex(xs[..n], y) < n {
        FirstIndexOfPrefix(xs, n, y);
      }
      if x in u then u
      else
        assert FirstIndex(xs, x) == n;
        u + [x]
  }

  /**
   The registered-names list shown beside the draw: the present names of a
   column, each once, in the order the sheet first lists them.
   */
  function RegisteredNames<T(==,!new)>(col: seq<Option<T>>): (r: seq<T>)
    ensures NoDuplicates(r)
    ensures forall x :: x in r <==> Some(x) in col
    ensures forall i, j :: 0 <= i < j < |r| ==> FirstIndex(DropNa(col), r[i]) < FirstIndex(DropNa(col), r[j])
  {
    Unique(DropNa(col))
  }
}
