/** The part of a pandas DataFrame the pipeline relies on: float cells on a
    time index (microseconds on the civil axis), columns in order and looked
    up by name, and the handful of operations the pipeline applies to them. */
module Tables {
  import opened Wrappers
  import opened Text

  /** A float cell; NaN is what an outer join puts where a frame has no row. */
  datatype Cell = Num(v: real) | NaN

  type Column = seq<Cell>

  /** Columns in `names` order, looked up through `cols`. */
  datatype Table = Table(index: seq<int>, names: seq<string>, cols: map<string, Column>)

  predicate Distinct<T(==)>(s: seq<T>) {
    forall i, j :: 0 <= i < j < |s| ==> s[i] != s[j]
  }

  predicate WellFormed(t: Table) {
    && Distinct(t.names)
    && (forall n :: n in t.cols ==> n in t.names)
    && (forall n :: n in t.names ==> n in t.cols)
    && (forall n :: n in t.cols ==> |t.cols[n]| == |t.index|)
  }

  const Empty: Table := Table([], [], map[])

  /** df[name] = cells: an existing column keeps its place, a new one goes last. */
  function WithColumn(t: Table, name: string, cells: Column): (r: Table)
    requires WellFormed(t) && |cells| == |t.index|
    ensures WellFormed(r) && r.index == t.index
  {
    Table(t.index, if name in t.cols then t.names else t.names + [name], t.cols[name := cells])
  }

  function Without(s: seq<string>, name: string): (r: seq<string>)
    ensures forall x :: x in r <==> x in s && x != name
    ensures Distinct(s) ==> Distinct(r)
  {
    if s == [] then []
    else if s[0] == name then Without(s[1..], name)
    else
      var rest := Without(s[1..], name);
      assert forall j :: 0 <= j < |rest| ==> rest[j] in rest;
      assert Distinct(s) ==> s[0] !in s[1..];
      [s[0]] + rest
  }

  /** df.pop(name), or df.drop(columns=[name]) */
  function WithoutColumn(t: Table, name: string): (r: Table)
    requires WellFormed(t)
    ensures WellFormed(r) && r.index == t.index
  {
    Table(t.index, Without(t.names, name), t.cols - {name})
  }

  /** Builds a frame column by column; a repeated name keeps its first
      place and takes its last cells. */
  function Build(index: seq<int>, pairs: seq<(string, Column)>): (r: Table)
    requires forall i :: 0 <= i < |pairs| ==> |pairs[i].1| == |index|
    ensures WellFormed(r) && r.index == index
    decreases |pairs|
  {
    if pairs == [] then Table(index, [], map[])
    else
      var last := pairs[|pairs| - 1];
      WithColumn(Build(index, pairs[..|pairs| - 1]), last.0, last.1)
  }

  function NamesOf(pairs: seq<(string, Column)>): (r: seq<string>)
    ensures |r| == |pairs| && forall i :: 0 <= i < |pairs| ==> r[i] == pairs[i].0
  {
    seq(|pairs|, i requires 0 <= i < |pairs| => pairs[i].0)
  }

  /** Build keeps exactly the given names. */
  lemma {:induction false} BuildNames(index: seq<int>, pairs: seq<(string, Column)>)
    requires forall i :: 0 <= i < |pairs| ==> |pairs[i].1| == |index|
    ensures forall n :: n in Build(index, pairs).cols <==> n in NamesOf(pairs)
    ensures forall i :: 0 <= i < |pairs| ==> pairs[i].0 in Build(index, pairs).cols
    decreases |pairs|
  {
    if pairs != [] {
      var init := pairs[..|pairs| - 1];
      BuildNames(index, init);
      assert NamesOf(pairs) == NamesOf(init) + [pairs[|pairs| - 1].0];
    }
  }

  /** When no name repeats, Build keeps the given order and the given cells. */
  lemma {:induction false} BuildDistinct(index: seq<int>, pairs: seq<(string, Column)>)
    requires forall i :: 0 <= i < |pairs| ==> |pairs[i].1| == |index|
    requires Distinct(NamesOf(pairs))
    ensures Build(index, pairs).names == NamesOf(pairs)
    ensures forall i :: 0 <= i < |pairs| ==>
              pairs[i].0 in Build(index, pairs).cols && Build(index, pairs).cols[pairs[i].0] == pairs[i].1
    decreases |pairs|
  {
    if pairs != [] {
      var init := pairs[..|pairs| - 1];
      var last := pairs[|pairs| - 1];
      assert NamesOf(pairs) == NamesOf(init) + [last.0];
      assert Distinct(NamesOf(init));
      BuildDistinct(index, init);
      BuildNames(index, init);
      assert last.0 !in NamesOf(init);
      assert last.0 !in Build(index, init).cols;
    }
  }

  /** The columns of a well-formed frame, in order. */
  function Pairs(t: Table): (r: seq<(string, Column)>)
    requires WellFormed(t)
    ensures |r| == |t.names|
    ensures forall i :: 0 <= i < |r| ==> r[i] == (t.names[i], t.cols[t.names[i]])
    ensures forall i :: 0 <= i < |r| ==> |r[i].1| == |t.index|
    ensures NamesOf(r) == t.names
  {
    seq(|t.names|, i requires 0 <= i < |t.names| => (t.names[i], t.cols[t.names[i]]))
  }

  predicate AllIn(ns: seq<string>, t: Table) {
    forall i :: 0 <= i < |ns| ==> ns[i] in t.cols
  }

  /** df[ns]: the named columns in the order given; None where pandas raises
      KeyError because a name is missing. */
  function Select(t: Table, ns: seq<string>): (r: Option<Table>)
    requires WellFormed(t)
    ensures r.Some? <==> AllIn(ns, t)
    ensures r.Some? ==> WellFormed(r.value) && r.value.index == t.index
  {
    if AllIn(ns, t) then
      Some(Build(t.index, seq(|ns|, i requires 0 <= i < |ns| && AllIn(ns, t) => (ns[i], t.cols[ns[i]]))))
    else None
  }

  function FilterNames(ns: seq<string>, keep: string -> bool): (r: seq<string>)
    ensures forall x :: x in r <==> x in ns && keep(x)
    ensures Distinct(ns) ==> Distinct(r)
  {
    if ns == [] then []
    else (if keep(ns[0]) then [ns[0]] else []) + FilterNames(ns[1..], keep)
  }

  /** df[[c for c in df.columns if keep(c)]] */
  function Filter(t: Table, keep: string -> bool): (r: Table)
    requires WellFormed(t)
    ensures WellFormed(r) && r.index == t.index
    ensures r.names == FilterNames(t.names, keep)
    ensures forall n :: n in r.cols ==> n in t.cols && r.cols[n] == t.cols[n]
  {
    Table(t.index, FilterNames(t.names, keep), map n | n in t.cols && keep(n) :: t.cols[n])
  }

  /** df.rename(columns=f): names mapped one by one; names that collide
      collapse into the first place with the last cells. */
  function Rename(t: Table, f: string -> string): (r: Table)
    requires WellFormed(t)
    ensures WellFormed(r) && r.index == t.index
  {
    var ps := Pairs(t);
    Build(t.index, seq(|ps|, i requires 0 <= i < |ps| => (f(ps[i].0), ps[i].1)))
  }

  lemma {:induction false} DistinctCounts(a: seq<string>)
    requires Distinct(a)
    ensures forall x :: multiset(a)[x] <= 1
    decreases |a|
  {
    if a != [] {
      DistinctCounts(a[1..]);
      assert a == [a[0]] + a[1..];
      assert a[0] !in a[1..];
    }
  }

  lemma CountsDistinct(b: seq<string>)
    requires forall x :: multiset(b)[x] <= 1
    ensures Distinct(b)
  {
    forall i, j | 0 <= i < j < |b| ensures b[i] != b[j] {
      assert b == b[..j] + [b[j]] + b[j + 1..];
      assert b[i] in multiset(b[..j]);
      assert multiset(b)[b[j]] == multiset(b[..j])[b[j]] + 1 + multiset(b[j + 1..])[b[j]];
    }
  }

  lemma DistinctPermutation(a: seq<string>, b: seq<string>)
    requires Distinct(a) && multiset(a) == multiset(b)
    ensures Distinct(b)
    ensures forall x :: x in a <==> x in b
  {
    DistinctCounts(a);
    CountsDistinct(b);
    forall x ensures x in a <==> x in b {
      assert x in a <==> x in multiset(a);
      assert x in b <==> x in multiset(b);
    }
  }

  /** df.sort_index(axis=1): the same columns in string order. */
  function SortColumns(t: Table): (r: Table)
    requires WellFormed(t)
    ensures WellFormed(r) && r.index == t.index && r.cols == t.cols
    ensures Sorted(r.names) && multiset(r.names) == multiset(t.names)
  {
    SortStringsSpec(t.names);
    DistinctPermutation(t.names, SortStrings(t.names));
    Table(t.index, SortStrings(t.names), t.cols)
  }

  // ----- rows -------------------------------------------------------------

  /** A bound of a Python slice over n items: negative counts from the end,
      both ends clipped to 0..n. */
  function SliceBound(x: int, n: nat): (r: nat)
    ensures r <= n
  {
    if x < 0 then (if x + n < 0 then 0 else x + n)
    else if x > n then n
    else x
  }

  /** Rows lo..hi of every column. */
  function Rows(t: Table, lo: nat, hi: nat): (r: Table)
    requires WellFormed(t) && lo <= hi <= |t.index|
    ensures WellFormed(r) && r.index == t.index[lo..hi] && r.names == t.names
    ensures forall n :: n in r.cols ==> r.cols[n] == t.cols[n][lo..hi]
  {
    Table(t.index[lo..hi], t.names, map n | n in t.cols :: t.cols[n][lo..hi])
  }

  /** df.iloc[a:b, :] */
  function ILoc(t: Table, a: int, b: int): (r: Table)
    requires WellFormed(t)
    ensures WellFormed(r) && r.names == t.names
  {
    var lo := SliceBound(a, |t.index|);
    var hi := SliceBound(b, |t.index|);
    Rows(t, lo, if hi < lo then lo else hi)
  }

  // ----- reductions ---------------------------------------------------------

  /** Series.sum(): NaN cells are skipped, so an all-NaN column sums to 0. */
  function Sum(c: Column): real {
    if c == [] then 0.0
    else Sum(c[..|c| - 1]) + (match c[|c| - 1] case Num(v) => v case NaN => 0.0)
  }

  predicate IsValue(x: Cell, v: real) {
    x == Num(v)
  }

  /** (s == v).argmax() on a non-empty column: the first position holding v,
      or 0 when none does (on an empty column argmax raises, and the callers
      never get there). */
  function FirstEqual(c: Column, v: real): (r: nat)
    requires c != []
    ensures r < |c|
    ensures IsValue(c[r], v) ==> forall q :: 0 <= q < r ==> !IsValue(c[q], v)
    ensures (forall q :: 0 <= q < |c| ==> !IsValue(c[q], v)) ==> r == 0
    ensures (exists q :: 0 <= q < |c| && IsValue(c[q], v)) ==> IsValue(c[r], v)
  {
    if IsValue(c[0], v) || |c| == 1 then 0
    else
      var k := FirstEqual(c[1..], v);
      if IsValue(c[1..][k], v) then k + 1 else 0
  }

  // ----- concatenation along the columns ----------------------------------

  predicate Increasing(s: seq<int>) {
    forall i, j :: 0 <= i < j < |s| ==> s[i] < s[j]
  }

  function InsertSorted(x: int, s: seq<int>): (r: seq<int>)
    requires Increasing(s)
    ensures Increasing(r)
    ensures forall y :: y in r <==> y in s || y == x
  {
    if s == [] then [x]
    else if x < s[0] then [x] + s
    else if x == s[0] then s
    else
      var rest := InsertSorted(x, s[1..]);
      assert forall j :: 0 <= j < |rest| ==> rest[j] in rest;
      [s[0]] + rest
  }

  /** The distinct values of s in increasing order. */
  function SortedSet(s: seq<int>): (r: seq<int>)
    ensures Increasing(r)
    ensures forall y :: y in r <==> y in s
  {
    if s == [] then [] else InsertSorted(s[0], SortedSet(s[1..]))
  }

  /** The first position of x in s. */
  function Position(s: seq<int>, x: int): (r: Option<nat>)
    ensures r.Some? ==> r.value < |s| && s[r.value] == x
    ensures r.None? <==> x !in s
  {
    if s == [] then None
    else if s[0] == x then Some(0)
    else match Position(s[1..], x)
      case Some(p) => Some(p + 1)
      case None => None
  }

  /** A column moved onto another index: the cell at the same time, or NaN. */
  function Realign(index: seq<int>, c: Column, target: seq<int>): (r: Column)
    requires |c| == |index|
    ensures |r| == |target|
  {
    seq(|target|, i requires 0 <= i < |target| =>
      match Position(index, target[i]) case Some(p) => c[p] case None => NaN)
  }

  function Reindex(t: Table, target: seq<int>): (r: Table)
    requires WellFormed(t)
    ensures WellFormed(r) && r.index == target && r.names == t.names
  {
    Table(target, t.names, map n | n in t.cols :: Realign(t.index, t.cols[n], target))
  }

  /** pd.concat([a, b], axis=1): side by side on a shared index; otherwise
      on the sorted union of two duplicate-free indexes (the outer join on a
      DatetimeIndex is always sorted); None where pandas raises because an
      index that differs holds a repeated time. */
  function Join2(a: Table, b: Table): (r: Option<Table>)
    requires WellFormed(a) && WellFormed(b)
    ensures r.Some? ==> WellFormed(r.value)
    ensures a.index == b.index ==> r.Some? && r.value.index == a.index
    ensures r.Some? && a.index != b.index ==>
              Increasing(r.value.index) && forall x :: x in r.value.index <==> x in a.index || x in b.index
  {
    if a.index == b.index then Some(Build(a.index, Pairs(a) + Pairs(b)))
    else if Distinct(a.index) && Distinct(b.index) then
      var u := SortedSet(a.index + b.index);
      Some(Build(u, Pairs(Reindex(a, u)) + Pairs(Reindex(b, u))))
    else None
  }

  /** pd.concat(frames, axis=1); None where pandas raises (no frames at all,
      or an index that cannot be aligned). */
  function JoinAll(frames: seq<Table>): (r: Option<Table>)
    requires forall i :: 0 <= i < |frames| ==> WellFormed(frames[i])
    ensures r.Some? ==> WellFormed(r.value)
    ensures frames == [] ==> r.None?
    decreases |frames|
  {
    if frames == [] then None
    else if |frames| == 1 then Some(frames[0])
    else
      match JoinAll(frames[..|frames| - 1])
      case None => None
      case Some(acc) => Join2(acc, frames[|frames| - 1])
  }
}
