/**
 * The tables the transformers pass around: a header and rows of cells, as
 * pandas holds a CSV file after read_csv, with the handful of table
 * operations the engine uses (column lookup, column assignment, column
 * selection, and the row-wise passes map, apply and dropna).
 */
module Tables {
  import opened Wrappers

  /** A cell: text, an integer, a finite float, or missing (NaN or None). */
  datatype Cell = Str(s: string) | Int(i: int) | Float(x: real) | Null

  type Row = seq<Cell>

  datatype Table = Table(header: seq<string>, rows: seq<Row>)

  /** Every row has one cell per column. */
  predicate WellFormed(t: Table) {
    forall i :: 0 <= i < |t.rows| ==> |t.rows[i]| == |t.header|
  }

  /** dropna's test: the row holds no missing cell. */
  predicate NoNull(r: Row) {
    forall k :: 0 <= k < |r| ==> r[k] != Null
  }

  /** Position of the first column called name. */
  function IndexOf(h: seq<string>, name: string): (k: nat)
    requires name in h
    ensures k < |h| && h[k] == name
    ensures forall j :: 0 <= j < k ==> h[j] != name
  {
    if h[0] == name then 0 else 1 + IndexOf(h[1..], name)
  }

  /** df[name]: the cells of the column called name, top to bottom. */
  function Column(t: Table, name: string): (c: seq<Cell>)
    requires WellFormed(t) && name in t.header
    ensures |c| == |t.rows|
  {
    seq(|t.rows|, i requires 0 <= i < |t.rows| => t.rows[i][IndexOf(t.header, name)])
  }

  /**
   * df[name] = cells: the column called name is overwritten where it stands,
   * or, when there is none, a new column is added after the last one.
   */
  function SetColumn(t: Table, name: string, cells: seq<Cell>): (r: Table)
    requires WellFormed(t) && |cells| == |t.rows|
    ensures WellFormed(r) && |r.rows| == |t.rows|
    ensures r.header == if name in t.header then t.header else t.header + [name]
    ensures Column(r, name) == cells
    ensures forall n :: n in t.header && n != name ==> Column(r, n) == Column(t, n)
  {
    if name in t.header then
      OverwriteColumns(t, name, cells);
      Overwrite(t, IndexOf(t.header, name), cells)
    else
      AppendColumns(t, name, cells);
      Append(t, name, cells)
  }

  /** The table with cell k of each row i replaced by cells[i]. */
  function Overwrite(t: Table, k: nat, cells: seq<Cell>): (r: Table)
    requires WellFormed(t) && k < |t.header| && |cells| == |t.rows|
    ensures WellFormed(r) && r.header == t.header && |r.rows| == |t.rows|
    ensures forall i :: 0 <= i < |t.rows| ==> r.rows[i] == t.rows[i][k := cells[i]]
  {
    Table(t.header, seq(|t.rows|, i requires 0 <= i < |t.rows| => t.rows[i][k := cells[i]]))
  }

  /** The table with a column called name holding cells added after the last one. */
  function Append(t: Table, name: string, cells: seq<Cell>): (r: Table)
    requires WellFormed(t) && |cells| == |t.rows|
    ensures WellFormed(r) && r.header == t.header + [name] && |r.rows| == |t.rows|
    ensures forall i :: 0 <= i < |t.rows| ==> r.rows[i] == t.rows[i] + [cells[i]]
  {
    Table(t.header + [name], seq(|t.rows|, i requires 0 <= i < |t.rows| => t.rows[i] + [cells[i]]))
  }

  lemma OverwriteColumns(t: Table, name: string, cells: seq<Cell>)
    requires WellFormed(t) && name in t.header && |cells| == |t.rows|
    ensures var r := Overwrite(t, IndexOf(t.header, name), cells);
      Column(r, name) == cells && forall n :: n in t.header && n != name ==> Column(r, n) == Column(t, n)
  {
    var k := IndexOf(t.header, name);
    var r := Overwrite(t, k, cells);
    forall n | n in t.header && n != name ensures Column(r, n) == Column(t, n) {
      var j := IndexOf(t.header, n);
      assert j != k;
      assert forall i :: 0 <= i < |t.rows| ==> Column(r, n)[i] == Column(t, n)[i];
    }
  }

  lemma AppendColumns(t: Table, name: string, cells: seq<Cell>)
    requires WellFormed(t) && name !in t.header && |cells| == |t.rows|
    ensures var r := Append(t, name, cells);
      Column(r, name) == cells && forall n :: n in t.header ==> Column(r, n) == Column(t, n)
  {
    var r := Append(t, name, cells);
    assert IndexOf(r.header, name) == |t.header|;
    forall n | n in t.header ensures Column(r, n) == Column(t, n) {
      IndexOfAppend(t.header, [name], n);
    }
  }

  lemma {:induction false} IndexOfAppend(h: seq<string>, more: seq<string>, name: string)
    requires name in h
    ensures IndexOf(h + more, name) == IndexOf(h, name)
  {
    if h[0] != name {
      assert (h + more)[1..] == h[1..] + more;
      IndexOfAppend(h[1..], more, name);
    }
  }

  /** Assigning a column twice with the same cells is assigning it once. */
  lemma SetColumnTwice(t: Table, name: string, cells: seq<Cell>)
    requires WellFormed(t) && |cells| == |t.rows|
    ensures SetColumn(SetColumn(t, name, cells), name, cells) == SetColumn(t, name, cells)
  {
    var r := SetColumn(t, name, cells);
    var k := IndexOf(r.header, name);
    var r2 := SetColumn(r, name, cells);
    assert r2.header == r.header;
    forall i | 0 <= i < |r.rows| ensures r2.rows[i] == r.rows[i] {
      assert r.rows[i][k] == Column(r, name)[i];
    }
  }

  /** The columns at positions idx, in that order (df[[...]] and df.loc[:, mask]). */
  function Project(t: Table, idx: seq<nat>): (r: Table)
    requires WellFormed(t)
    requires forall j :: 0 <= j < |idx| ==> idx[j] < |t.header|
    ensures WellFormed(r) && |r.header| == |idx| && |r.rows| == |t.rows|
    ensures forall j :: 0 <= j < |idx| ==> r.header[j] == t.header[idx[j]]
    ensures forall i, j :: 0 <= i < |t.rows| && 0 <= j < |idx| ==> r.rows[i][j] == t.rows[i][idx[j]]
  {
    Table(seq(|idx|, j requires 0 <= j < |idx| => t.header[idx[j]]),
          seq(|t.rows|, i requires 0 <= i < |t.rows| =>
            seq(|idx|, j requires 0 <= j < |idx| => t.rows[i][idx[j]])))
  }

  /** Positions of the names keep accepts, in increasing order. */
  function Positions(h: seq<string>, keep: string -> bool): (p: seq<nat>)
    ensures forall j :: 0 <= j < |p| ==> p[j] < |h| && keep(h[p[j]])
    ensures forall j, j' :: 0 <= j < j' < |p| ==> p[j] < p[j']
    ensures forall k :: 0 <= k < |h| && keep(h[k]) ==> k in p
  {
    if h == [] then []
    else
      var p := Positions(h[..|h| - 1], keep);
      if keep(h[|h| - 1]) then p + [|h| - 1] else p
  }

  /** The columns whose names keep accepts, in their original order. */
  function KeepColumns(t: Table, keep: string -> bool): (r: Table)
    requires WellFormed(t)
    ensures WellFormed(r) && |r.rows| == |t.rows|
    ensures forall n :: n in r.header <==> n in t.header && keep(n)
  {
    var p := Positions(t.header, keep);
    var r := Project(t, p);
    assert forall n :: n in t.header && keep(n) ==> n in r.header by {
      forall n | n in t.header && keep(n) ensures n in r.header {
        var k :| 0 <= k < |t.header| && t.header[k] == n;
        var j :| 0 <= j < |p| && p[j] == k;
        assert r.header[j] == n;
      }
    }
    r
  }

  lemma IndexOfIs(h: seq<string>, name: string, j: nat)
    requires j < |h| && h[j] == name && forall j' :: 0 <= j' < j ==> h[j'] != name
    ensures IndexOf(h, name) == j
  {
  }

  /** A column the selection keeps keeps its cells. */
  lemma KeepColumnsCell(t: Table, keep: string -> bool, name: string, i: nat)
    requires WellFormed(t) && name in t.header && keep(name) && i < |t.rows|
    ensures name in KeepColumns(t, keep).header
    ensures Column(KeepColumns(t, keep), name)[i] == Column(t, name)[i]
  {
    var p := Positions(t.header, keep);
    var r := KeepColumns(t, keep);
    var k := IndexOf(t.header, name);
    var j :| 0 <= j < |p| && p[j] == k;
    forall j' | 0 <= j' < j ensures r.header[j'] != name {
      assert p[j'] < k;
    }
    IndexOfIs(r.header, name, j);
  }

  // ------------------------------------------------------------ row-wise passes

  /** A pass over a column or over the rows (pandas map and apply), one element at a time. */
  method Map<T, U>(xs: seq<T>, f: T --> U) returns (ys: seq<U>)
    requires forall i :: 0 <= i < |xs| ==> f.requires(xs[i])
    ensures |ys| == |xs|
    ensures forall i :: 0 <= i < |xs| ==> ys[i] == f(xs[i])
  {
    ys := [];
    var i := 0;
    while i < |xs|
      invariant 0 <= i <= |xs|
      invariant |ys| == i
      invariant forall j :: 0 <= j < i ==> ys[j] == f(xs[j])
    {
      ys := ys + [f(xs[i])];
      i := i + 1;
    }
  }

  /** The rows keep accepts, in their original order. */
  function Kept(rows: seq<Row>, keep: Row -> bool): (r: seq<Row>)
    ensures |r| <= |rows|
    ensures forall i :: 0 <= i < |r| ==> keep(r[i]) && r[i] in rows
  {
    if rows == [] then []
    else
      var last := rows[|rows| - 1];
      var r := Kept(rows[..|rows| - 1], keep);
      r + (if keep(last) then [last] else [])
  }

  /** A row survives the filter exactly when it is one of the rows and keep accepts it. */
  lemma {:induction false} KeptMembers(rows: seq<Row>, keep: Row -> bool, x: Row)
    ensures x in Kept(rows, keep) <==> x in rows && keep(x)
  {
    if rows != [] {
      var init := rows[..|rows| - 1];
      KeptMembers(init, keep, x);
      assert rows == init + [rows[|rows| - 1]];
    }
  }

  /** A filter accepting every row keeps the rows as they are. */
  lemma {:induction false} KeptAll(rows: seq<Row>, keep: Row -> bool)
    requires forall i :: 0 <= i < |rows| ==> keep(rows[i])
    ensures Kept(rows, keep) == rows
  {
    if rows != [] {
      KeptAll(rows[..|rows| - 1], keep);
    }
  }

  /** dropna: the rows keep accepts, in order, one row at a time. */
  method KeepRows(rows: seq<Row>, keep: Row -> bool) returns (out: seq<Row>)
    ensures out == Kept(rows, keep)
    ensures forall x :: x in out <==> x in rows && keep(x)
  {
    out := [];
    var i := 0;
    while i < |rows|
      invariant 0 <= i <= |rows|
      invariant out == Kept(rows[..i], keep)
    {
      assert rows[..i + 1][..i] == rows[..i];
      out := out + (if keep(rows[i]) then [rows[i]] else []);
      i := i + 1;
    }
    assert rows[..i] == rows;
    forall x ensures x in out <==> x in rows && keep(x) {
      KeptMembers(rows, keep, x);
    }
  }

  /** f applied to every element, or None as soon as one application fails. */
  function TryAll<T, U>(xs: seq<T>, f: T -> Option<U>): (r: Option<seq<U>>)
    ensures r.Some? <==> forall i :: 0 <= i < |xs| ==> f(xs[i]).Some?
    ensures r.Some? ==> |r.value| == |xs| && forall i :: 0 <= i < |xs| ==> r.value[i] == f(xs[i]).value
  {
    if xs == [] then Some([])
    else
      match TryAll(xs[..|xs| - 1], f)
      case None => None
      case Some(init) =>
        match f(xs[|xs| - 1])
        case None => None
        case Some(y) => Some(init + [y])
  }

  /** A pass that raises at the first element it cannot convert (Series.apply with a raising lambda). */
  method TryMap<T, U>(xs: seq<T>, f: T -> Option<U>) returns (r: Option<seq<U>>)
    ensures r == TryAll(xs, f)
  {
    var ys: seq<U> := [];
    var i := 0;
    while i < |xs|
      invariant 0 <= i <= |xs|
      invariant TryAll(xs[..i], f) == Some(ys)
    {
      assert xs[..i + 1][..i] == xs[..i];
      match f(xs[i])
      case None =>
        assert TryAll(xs[..i + 1], f).None?;
        TryAllPrefix(xs, f, i + 1);
        return None;
      case Some(y) =>
        ys := ys + [y];
      i := i + 1;
    }
    assert xs[..i] == xs;
    r := Some(ys);
  }

  /** Once a prefix fails, the whole sequence fails. */
  lemma TryAllPrefix<T, U>(xs: seq<T>, f: T -> Option<U>, n: nat)
    requires n <= |xs| && TryAll(xs[..n], f).None?
    ensures TryAll(xs, f).None?
  {
    var i :| 0 <= i < n && f(xs[..n][i]).None?;
    assert xs[..n][i] == xs[i];
  }
}
