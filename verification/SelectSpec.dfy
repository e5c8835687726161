/** What SELECT makes of rows, as values: copying columns into the materialised row, joining, filtering, grouping. */
module SelectSpec {
  import opened Wrappers
  import opened RowStore
  import opened TableStore
  import opened Condition
  import opened JoinOrder

  // ---------------------------------------------------------------- qualified names

  function Qualified(table: string, column: string): string {
    table + "." + column
  }

  predicate Dotless(s: string) {
    forall i :: 0 <= i < |s| ==> s[i] != '.'
  }

  ghost function FirstDot(s: string): nat {
    if s == [] || s[0] == '.' then 0 else 1 + FirstDot(s[1..])
  }

  lemma {:induction false} DotAfter(t: string, c: string)
    requires Dotless(t)
    ensures FirstDot(Qualified(t, c)) == |t|
  {
    if t != [] {
      DotAfter(t[1..], c);
      assert Qualified(t, c)[1..] == Qualified(t[1..], c);
    }
  }

  /** Names without dots can be told apart after they are joined with one. */
  lemma {:induction false} QualifiedApart(t: string, c: string, u: string, d: string)
    requires Dotless(t) && Dotless(u) && Qualified(t, c) == Qualified(u, d)
    ensures t == u && c == d
  {
    DotAfter(t, c);
    DotAfter(u, d);
    var a := Qualified(t, c);
    assert t == a[..|t|] && u == a[..|u|] && c == a[|t| + 1..] && d == a[|u| + 1..];
  }

  // ---------------------------------------------------------------- copying columns

  /** Every column of the source table has its place, of its type, among the materialised columns. */
  ghost predicate Scaffold(dst: seq<Column>, table: string, src: seq<Column>) {
    forall i :: 0 <= i < |src| ==>
      && Place(dst, table, src[i]) < |dst|
      && dst[Place(dst, table, src[i])].kind == src[i].kind
      && !dst[Place(dst, table, src[i])].isCount
  }

  function Place(dst: seq<Column>, table: string, c: Column): nat {
    IndexOf(dst, Qualified(table, c.name))
  }

  predicate NamesDiffer(cs: seq<Column>) {
    forall i, j :: 0 <= i < j < |cs| ==> cs[i].name != cs[j].name
  }

  /** One column: a value that is not NULL is copied and its bit cleared; a NULL string still gets an empty buffer. */
  function CopyOne(d: Record, j: nat, isVar: bool, isNull: bool, v: Value): Record
    requires j < |d.values| && j < |d.nulls|
  {
    if isNull then (if isVar then d.(values := d.values[j := StrValue("")]) else d)
    else Record(d.nulls[j := false], d.values[j := v])
  }

  /** cpy_cols after the first `n` source columns. */
  ghost function CopyCols(src: seq<Column>, table: string, s: Record, dst: seq<Column>, d: Record, n: nat): (r: Record)
    requires n <= |src| && Scaffold(dst, table, src) && RecordFits(s, src) && RecordFits(d, dst)
    ensures RecordFits(r, dst)
  {
    if n == 0 then d else
      CopyOne(CopyCols(src, table, s, dst, d, n - 1), Place(dst, table, src[n - 1]),
              src[n - 1].kind == Varchar, s.nulls[n - 1], s.values[n - 1])
  }

  lemma {:induction false} PlacesDiffer(dst: seq<Column>, t: string, a: Column, u: string, b: Column)
    requires Dotless(t) && Dotless(u) && (t != u || a.name != b.name)
    requires Place(dst, t, a) < |dst|
    ensures Place(dst, t, a) != Place(dst, u, b)
  {
    if Qualified(t, a.name) == Qualified(u, b.name) {
      QualifiedApart(t, a.name, u, b.name);
    }
  }

  /** Places that are no column's stay as they were. */
  lemma {:induction false} CopyElsewhere(src: seq<Column>, table: string, s: Record, dst: seq<Column>, d: Record, n: nat, j: nat)
    requires n <= |src| && Scaffold(dst, table, src) && RecordFits(s, src) && RecordFits(d, dst) && j < |dst|
    requires forall i :: 0 <= i < n ==> Place(dst, table, src[i]) != j
    ensures CopyCols(src, table, s, dst, d, n).values[j] == d.values[j]
    ensures CopyCols(src, table, s, dst, d, n).nulls[j] == d.nulls[j]
  {
    if n > 0 {
      CopyElsewhere(src, table, s, dst, d, n - 1, j);
    }
  }

  /** Each source column arrives at its place, NULL bit and all. */
  lemma {:induction false} CopyArrives(src: seq<Column>, table: string, s: Record, dst: seq<Column>, d: Record, n: nat, i: nat)
    requires i < n <= |src| && Scaffold(dst, table, src) && RecordFits(s, src) && RecordFits(d, dst)
    requires Dotless(table) && NamesDiffer(src)
    ensures var r, j := CopyCols(src, table, s, dst, d, n), Place(dst, table, src[i]);
            && (s.nulls[i] ==> r.nulls[j] == d.nulls[j])
            && (!s.nulls[i] ==> !r.nulls[j] && r.values[j] == s.values[i])
  {
    var j := Place(dst, table, src[i]);
    if i == n - 1 {
      forall k | 0 <= k < n - 1 ensures Place(dst, table, src[k]) != j {
        PlacesDiffer(dst, table, src[k], table, src[i]);
      }
      CopyElsewhere(src, table, s, dst, d, n - 1, j);
    } else {
      PlacesDiffer(dst, table, src[i], table, src[n - 1]);
      CopyArrives(src, table, s, dst, d, n - 1, i);
    }
  }

  // ---------------------------------------------------------------- merging two rows

  /** A zeroed row with every column NULL. */
  function BlankRecord(dst: seq<Column>): (r: Record)
    requires |dst| <= MAX_COLUMNS
    ensures RecordFits(r, dst)
    ensures forall j :: 0 <= j < |dst| ==> r.nulls[j]
  {
    Record(seq(MAX_COLUMNS, i => i < |dst|),
           seq(|dst|, i requires 0 <= i < |dst| => if dst[i].kind == Varchar then StrValue("") else IntValue(0)))
  }

  /** init_count_cols: COUNT columns start at one. */
  function CountsSet(dst: seq<Column>, d: Record): (r: Record)
    requires RecordFits(d, dst) && CountsAreInts(dst)
    ensures RecordFits(r, dst) && r.nulls == d.nulls
    ensures forall j :: 0 <= j < |dst| ==> r.values[j] == if dst[j].isCount then IntValue(1) else d.values[j]
  {
    d.(values := seq(|dst|, j requires 0 <= j < |dst| => if dst[j].isCount then IntValue(1) else d.values[j]))
  }

  predicate CountsAreInts(dst: seq<Column>) {
    forall j :: 0 <= j < |dst| && dst[j].isCount ==> dst[j].kind == Integer
  }

  /** The two sides of a join and where their columns go. */
  datatype Side = Side(table: string, columns: seq<Column>)

  ghost predicate Joinable(l: Side, r: Side, dst: seq<Column>) {
    && |dst| <= MAX_COLUMNS && CountsAreInts(dst)
    && Scaffold(dst, l.table, l.columns) && Scaffold(dst, r.table, r.columns)
    && Dotless(l.table) && Dotless(r.table) && l.table != r.table
    && NamesDiffer(l.columns) && NamesDiffer(r.columns)
  }

  /** _merge_rows */
  ghost function Merged(l: Side, r: Side, dst: seq<Column>, a: Record, b: Record): (m: Record)
    requires Joinable(l, r, dst) && RecordFits(a, l.columns) && RecordFits(b, r.columns)
    ensures RecordFits(m, dst)
  {
    var d := CopyCols(l.columns, l.table, a, dst, BlankRecord(dst), |l.columns|);
    CountsSet(dst, CopyCols(r.columns, r.table, b, dst, d, |r.columns|))
  }

  /** Column `i` of a source row stands at its place in the merged row: the value if it has one, NULL if it is NULL. */
  ghost predicate Carried(m: Record, dst: seq<Column>, side: Side, s: Record, i: nat)
    requires RecordFits(m, dst) && RecordFits(s, side.columns) && i < |side.columns|
    requires Place(dst, side.table, side.columns[i]) < |dst|
  {
    var j := Place(dst, side.table, side.columns[i]);
    m.nulls[j] == s.nulls[i] && (!s.nulls[i] ==> m.values[j] == s.values[i])
  }

  lemma {:induction false} MergeRight(l: Side, r: Side, dst: seq<Column>, a: Record, b: Record, i: nat)
    requires Joinable(l, r, dst) && RecordFits(a, l.columns) && RecordFits(b, r.columns) && i < |r.columns|
    ensures Carried(Merged(l, r, dst, a, b), dst, r, b, i)
  {
    var d := CopyCols(l.columns, l.table, a, dst, BlankRecord(dst), |l.columns|);
    var j := Place(dst, r.table, r.columns[i]);
    forall k | 0 <= k < |l.columns| ensures Place(dst, l.table, l.columns[k]) != j {
      PlacesDiffer(dst, l.table, l.columns[k], r.table, r.columns[i]);
    }
    CopyElsewhere(l.columns, l.table, a, dst, BlankRecord(dst), |l.columns|, j);
    CopyArrives(r.columns, r.table, b, dst, d, |r.columns|, i);
  }

  lemma {:induction false} MergeLeft(l: Side, r: Side, dst: seq<Column>, a: Record, b: Record, i: nat)
    requires Joinable(l, r, dst) && RecordFits(a, l.columns) && RecordFits(b, r.columns) && i < |l.columns|
    ensures Carried(Merged(l, r, dst, a, b), dst, l, a, i)
  {
    var d := CopyCols(l.columns, l.table, a, dst, BlankRecord(dst), |l.columns|);
    var j := Place(dst, l.table, l.columns[i]);
    forall k | 0 <= k < |r.columns| ensures Place(dst, r.table, r.columns[k]) != j {
      PlacesDiffer(dst, l.table, l.columns[i], r.table, r.columns[k]);
    }
    CopyElsewhere(r.columns, r.table, b, dst, d, |r.columns|, j);
    CopyArrives(l.columns, l.table, a, dst, BlankRecord(dst), |l.columns|, i);
  }

  /** Both rows arrive in the merged row, whatever the order of the materialised columns. */
  lemma {:induction false} MergeCarries(l: Side, r: Side, dst: seq<Column>, a: Record, b: Record)
    requires Joinable(l, r, dst) && RecordFits(a, l.columns) && RecordFits(b, r.columns)
    ensures forall i :: 0 <= i < |l.columns| ==> Carried(Merged(l, r, dst, a, b), dst, l, a, i)
    ensures forall i :: 0 <= i < |r.columns| ==> Carried(Merged(l, r, dst, a, b), dst, r, b, i)
    ensures forall j :: 0 <= j < |dst| && dst[j].isCount ==> Merged(l, r, dst, a, b).values[j] == IntValue(1)
  {
    forall i | 0 <= i < |l.columns| ensures Carried(Merged(l, r, dst, a, b), dst, l, a, i) {
      MergeLeft(l, r, dst, a, b, i);
    }
    forall i | 0 <= i < |r.columns| ensures Carried(Merged(l, r, dst, a, b), dst, r, b, i) {
      MergeRight(l, r, dst, a, b, i);
    }
  }

  // ---------------------------------------------------------------- what is stored

  /** NULL strings are empty, as they are in every stored row. */
  ghost predicate NullsEmpty(d: Record, dst: seq<Column>)
    requires RecordFits(d, dst)
  {
    forall j :: 0 <= j < |dst| && dst[j].kind == Varchar && d.nulls[j] ==> d.values[j] == StrValue("")
  }

  lemma {:induction false} CopyKeepsEmpty(src: seq<Column>, table: string, s: Record, dst: seq<Column>, d: Record, n: nat)
    requires n <= |src| && Scaffold(dst, table, src) && RecordFits(s, src) && RecordFits(d, dst) && NullsEmpty(d, dst)
    ensures NullsEmpty(CopyCols(src, table, s, dst, d, n), dst)
  {
    if n > 0 {
      CopyKeepsEmpty(src, table, s, dst, d, n - 1);
    }
  }

  lemma {:induction false} StoredSame(d: Record, dst: seq<Column>)
    requires RecordFits(d, dst) && NullsEmpty(d, dst)
    ensures Stored(d, dst) == d
  {}

  /** Inserting a merged row stores it as it is. */
  lemma {:induction false} MergedStored(l: Side, r: Side, dst: seq<Column>, a: Record, b: Record)
    requires Joinable(l, r, dst) && RecordFits(a, l.columns) && RecordFits(b, r.columns)
    ensures Stored(Merged(l, r, dst, a, b), dst) == Merged(l, r, dst, a, b)
  {
    var d := CopyCols(l.columns, l.table, a, dst, BlankRecord(dst), |l.columns|);
    CopyKeepsEmpty(l.columns, l.table, a, dst, BlankRecord(dst), |l.columns|);
    CopyKeepsEmpty(r.columns, r.table, b, dst, d, |r.columns|);
    StoredSame(Merged(l, r, dst, a, b), dst);
  }

  // ---------------------------------------------------------------- joining

  /** An inner join of two tables into materialised columns. */
  datatype Join = Join(left: Side, right: Side, dst: seq<Column>, on: Cond)

  ghost predicate Ready(q: Join) {
    Joinable(q.left, q.right, q.dst) && CondFits(q.on, q.dst)
  }

  /** What a pair of rows contributes: their merge when it satisfies the ON condition. */
  ghost function Matched(q: Join, a: Record, b: Record): Option<Record>
    requires Ready(q) && RecordFits(a, q.left.columns) && RecordFits(b, q.right.columns)
  {
    var m := Merged(q.left, q.right, q.dst, a, b);
    if Eval(q.on, m, q.dst) then Some(m) else None
  }

  /** A pair is joined when its merge satisfies what ON means, as long as no comparison in it leaves 32 bits or takes NULL for 0. */
  lemma {:induction false} MatchedMeans(q: Join, a: Record, b: Record)
    requires Ready(q) && RecordFits(a, q.left.columns) && RecordFits(b, q.right.columns)
    requires Small(q.on, Merged(q.left, q.right, q.dst, a, b), q.dst)
    ensures Matched(q, a, b) == if Holds(q.on, Merged(q.left, q.right, q.dst, a, b), q.dst)
                                then Some(Merged(q.left, q.right, q.dst, a, b)) else None
  {
    EvalMeans(q.on, Merged(q.left, q.right, q.dst, a, b), q.dst);
  }

  /** The same by position. */
  ghost function MatchedAt(q: Join, xs: seq<Record>, ys: seq<Record>, x: nat, y: nat): Option<Record>
    requires Ready(q) && AllRecordsFit(xs, q.left.columns) && AllRecordsFit(ys, q.right.columns)
  {
    if x < |xs| && y < |ys| then Matched(q, xs[x], ys[y]) else None
  }

  ghost function Matrix(q: Join, xs: seq<Record>, ys: seq<Record>): (nat, nat) -> Option<Record>
    requires Ready(q) && AllRecordsFit(xs, q.left.columns) && AllRecordsFit(ys, q.right.columns)
  {
    (x: nat, y: nat) => MatchedAt(q, xs, ys, x, y)
  }

  /** The rows of the join. */
  ghost function JoinRows(q: Join, xs: seq<Record>, ys: seq<Record>): seq<Record>
    requires Ready(q) && AllRecordsFit(xs, q.left.columns) && AllRecordsFit(ys, q.right.columns)
  {
    Outer(Matrix(q, xs, ys), |xs|, |ys|)
  }

  /** Row by row, `rs` are the merges of the pairs `ps` of positions, which satisfy ON. */
  ghost predicate MergesOf(q: Join, xs: seq<Record>, ys: seq<Record>, ps: seq<Pair>, rs: seq<Record>)
    requires Ready(q) && AllRecordsFit(xs, q.left.columns) && AllRecordsFit(ys, q.right.columns)
  {
    && |rs| == |ps|
    && forall i :: 0 <= i < |ps| ==>
         ps[i].x < |xs| && ps[i].y < |ys| && Matched(q, xs[ps[i].x], ys[ps[i].y]) == Some(rs[i])
  }

  /** No pair that satisfies ON is missing from `ps`. */
  ghost predicate AllMatches(q: Join, xs: seq<Record>, ys: seq<Record>, ps: seq<Pair>)
    requires Ready(q) && AllRecordsFit(xs, q.left.columns) && AllRecordsFit(ys, q.right.columns)
  {
    forall x: nat, y: nat :: x < |xs| && y < |ys| && Matched(q, xs[x], ys[y]).Some? ==> Listed(ps, x, y)
  }

  lemma {:induction false} KeptAreMatched(q: Join, xs: seq<Record>, ys: seq<Record>, ps: seq<Pair>, rs: seq<Record>)
    requires Ready(q) && AllRecordsFit(xs, q.left.columns) && AllRecordsFit(ys, q.right.columns)
    requires ValuesOf(Matrix(q, xs, ys), ps, rs)
    ensures MergesOf(q, xs, ys, ps, rs)
  {
    forall i | 0 <= i < |ps|
      ensures ps[i].x < |xs| && ps[i].y < |ys| && Matched(q, xs[ps[i].x], ys[ps[i].y]) == Some(rs[i])
    {
      assert MatchedAt(q, xs, ys, ps[i].x, ps[i].y) == Some(rs[i]);
    }
  }

  lemma {:induction false} MatchedAreListed(q: Join, xs: seq<Record>, ys: seq<Record>, ps: seq<Pair>)
    requires Ready(q) && AllRecordsFit(xs, q.left.columns) && AllRecordsFit(ys, q.right.columns)
    requires NoneMissed(Matrix(q, xs, ys), 0, |xs|, |ys|, ps)
    ensures AllMatches(q, xs, ys, ps)
  {
    forall x: nat, y: nat | x < |xs| && y < |ys| && Matched(q, xs[x], ys[y]).Some? ensures Listed(ps, x, y) {
      assert Matrix(q, xs, ys)(x, y).Some?;
    }
  }

  /** The joined rows are the merges of exactly the pairs that satisfy ON, in lexicographic order, each once. */
  lemma {:induction false} JoinExactly(q: Join, xs: seq<Record>, ys: seq<Record>)
    requires Ready(q) && AllRecordsFit(xs, q.left.columns) && AllRecordsFit(ys, q.right.columns)
    ensures var ps := Pairs(Matrix(q, xs, ys), |xs|, |ys|);
            Ascending(ps) && MergesOf(q, xs, ys, ps, JoinRows(q, xs, ys)) && AllMatches(q, xs, ys, ps)
  {
    var f := Matrix(q, xs, ys);
    var ps := Pairs(f, |xs|, |ys|);
    OuterExactly(f, |xs|, |ys|);
    KeptAreMatched(q, xs, ys, ps, JoinRows(q, xs, ys));
    MatchedAreListed(q, xs, ys, ps);
  }
}
