/** group_datafiles in both copies of _utils.py: the raw captures that share
    one fault ID merged into one HDF5 store, each capture on its own 1 µs
    time axis, the channels split by kind. */
module Merger {
  import opened Wrappers
  import opened Text
  import opened Civil
  import opened Tables
  import opened Schema
  import Producer
  import Indexer

  // ----- the alias trim --------------------------------------------------------

  /** At q a ':' is followed by a BPM device name. */
  predicate MarkerAt(l: string, q: nat) {
    q < |l| && l[q] == ':' && BpmNameAt(l, q + 1)
  }

  /** The last marker that starts before end. */
  function LastMarker(l: string, end: nat): (r: Option<nat>)
    requires end <= |l|
    ensures r.Some? ==> r.value < end && MarkerAt(l, r.value)
    ensures r.Some? ==> forall q :: r.value < q < end ==> !MarkerAt(l, q)
    ensures r.None? ==> forall q :: 0 <= q < end ==> !MarkerAt(l, q)
  {
    if end == 0 then None
    else if MarkerAt(l, end - 1) then Some(end - 1)
    else LastMarker(l, end - 1)
  }

  /** One line under the substitution of `.*:(BPM_D[0-9]{4}.*)` by its group:
      the greedy `.*` stops at the last marker and the whole line becomes
      what follows its ':'. A line without a marker is kept. */
  function TrimLine(l: string): string
  {
    match LastMarker(l, |l|)
    case Some(q) => l[q + 1..]
    case None => l
  }

  /** The substitution over a whole label: '.' never crosses a '\n', so it
      works line by line. */
  function TrimAlias(s: string): string {
    PerLine(s, TrimLine)
  }

  /** The aliases a BPM monitor gives its channels lose the system prefix:
      "FS1_CSS:BPM_D2212:MAG1" becomes "BPM_D2212:MAG1". */
  lemma ProducerAliasTrimmed(system: string, digits: string, c: Producer.Channel)
    requires |digits| == 4 && AllDigits(digits) && NoChar(system, '\n')
    requires (c.Phase? || c.Magnitude?) ==> 1 <= c.i <= 4
    ensures TrimAlias(Producer.AliasName(system + ":BPM_D" + digits, c))
            == "BPM_D" + digits + ":" + Producer.ChannelTag(c)
  {
    var tag := Producer.ChannelTag(c);
    Producer.AliasTag(system + ":BPM_D" + digits, c);
    var name := "BPM_D" + digits + ":" + tag;
    assert |tag| <= 6 && NoChar(tag, ':') && NoChar(tag, '\n') by {
      if !c.BeamState? {
        assert Str(c.i) == [Digit(c.i)];
      }
    }
    assert name[..5] == "BPM_D" && name[5..9] == digits;
    forall p | 0 <= p < |name| ensures name[p] != '\n' && (name[p] == ':' ==> p == 9) {
      if p < 9 {
        assert name[p] == ("BPM_D" + digits)[p];
      } else if p > 9 {
        assert name[p] == tag[p - 10];
      }
    }
    assert system + ":BPM_D" + digits + ":" + tag == system + ":" + name;
    TrimAfterColon(system, name);
  }

  /** A label whose only marker is the ':' after a prefix loses that prefix. */
  lemma TrimAfterColon(system: string, name: string)
    requires NoChar(system, '\n') && NoChar(name, '\n') && BpmNameAt(name, 0)
    requires forall p :: 0 <= p < |name| && name[p] == ':' ==> !BpmNameAt(name, p + 1)
    ensures TrimAlias(system + ":" + name) == name
  {
    var l := system + ":" + name;
    var q := |system|;
    assert l[q + 1..] == name;
    assert l[q] == ':';
    assert MarkerAt(l, q) by {
      assert l[q + 1..q + 10] == name[..9];
    }
    forall p | q < p < |l| ensures !MarkerAt(l, p) {
      assert l[p] == name[p - q - 1];
      assert l[p + 1..] == name[p - q..];
      if l[p] == ':' && p + 10 <= |l| {
        assert !BpmNameAt(name, p - q);
        assert l[p + 1..p + 6] == name[p - q..p - q + 5];
        assert l[p + 6..p + 10] == name[p - q + 5..p - q + 9];
      }
    }
    match LastMarker(l, |l|) {
      case Some(r) => assert r == q;
      case None => assert false;
    }
    NoCharConcat(system, ":", '\n');
    NoCharConcat(system + ":", name, '\n');
    Indexer.FirstLineWhole(l);
  }

  // ----- dictionaries ------------------------------------------------------------

  /** A Python dict as its items in insertion order. */
  function Keys<V>(d: seq<(string, V)>): (r: seq<string>)
    ensures |r| == |d| && forall i :: 0 <= i < |d| ==> r[i] == d[i].0
  {
    seq(|d|, i requires 0 <= i < |d| => d[i].0)
  }

  /** d[k]: the value of the first item with key k. */
  function Get<V>(d: seq<(string, V)>, k: string): (r: Option<V>)
    ensures r.Some? <==> k in Keys(d)
    ensures r.Some? ==> (k, r.value) in d
  {
    if d == [] then None
    else if d[0].0 == k then Some(d[0].1)
    else
      assert Keys(d) == [d[0].0] + Keys(d[1..]);
      Get(d[1..], k)
  }

  /** d[k] = v: an existing key keeps its place and takes the new value, a
      new key goes last. */
  function Put<V>(d: seq<(string, V)>, k: string, v: V): (r: seq<(string, V)>)
    ensures forall x :: x in Keys(r) <==> x in Keys(d) || x == k
    ensures Distinct(Keys(d)) ==> Distinct(Keys(r))
  {
    if d == [] then
      assert Keys([(k, v)]) == [k];
      [(k, v)]
    else
      KeysCons(d[0], d[1..]);
      assert [d[0]] + d[1..] == d;
      if d[0].0 == k then
        KeysCons((k, v), d[1..]);
        [(k, v)] + d[1..]
      else
        var rest := Put(d[1..], k, v);
        KeysCons(d[0], rest);
        [d[0]] + rest
  }

  lemma KeysCons<V>(x: (string, V), d: seq<(string, V)>)
    ensures Keys([x] + d) == [x.0] + Keys(d)
    ensures Distinct(Keys([x] + d)) <==> x.0 !in Keys(d) && Distinct(Keys(d))
  {
    var ks := Keys([x] + d);
    assert ks == [x.0] + Keys(d);
    if Distinct(ks) {
      forall j | 0 <= j < |d| ensures Keys(d)[j] != x.0 {
        assert ks[j + 1] == Keys(d)[j] && ks[0] == x.0;
        assert ks[0] != ks[j + 1];
      }
      forall i, j | 0 <= i < j < |d| ensures Keys(d)[i] != Keys(d)[j] {
        assert ks[i + 1] == Keys(d)[i] && ks[j + 1] == Keys(d)[j];
      }
    }
    if x.0 !in Keys(d) && Distinct(Keys(d)) {
      forall i, j | 0 <= i < j < |ks| ensures ks[i] != ks[j] {
        assert ks[j] == Keys(d)[j - 1];
        if i > 0 {
          assert ks[i] == Keys(d)[i - 1];
        }
      }
    }
  }

  /** After d[k] = v, k maps to v and every other key to what it did. */
  lemma {:induction false} PutGet<V>(d: seq<(string, V)>, k: string, v: V, x: string)
    ensures Get(Put(d, k, v), x) == if x == k then Some(v) else Get(d, x)
  {
    if d != [] && d[0].0 != k {
      PutGet(d[1..], k, v, x);
    }
  }

  /** d.update(items): the items put one after the other. */
  function Update<V>(d: seq<(string, V)>, items: seq<(string, V)>): (r: seq<(string, V)>)
    ensures Distinct(Keys(d)) ==> Distinct(Keys(r))
    decreases |items|
  {
    if items == [] then d
    else
      var last := items[|items| - 1];
      Put(Update(d, items[..|items| - 1]), last.0, last.1)
  }

  /** The value of the last item with key k. */
  function LastValue<V>(items: seq<(string, V)>, k: string): Option<V>
    decreases |items|
  {
    if items == [] then None
    else if items[|items| - 1].0 == k then Some(items[|items| - 1].1)
    else LastValue(items[..|items| - 1], k)
  }

  /** After d.update(items), a key takes the value of its last item, and a
      key no item names keeps its old value. */
  lemma {:induction false} UpdateGet<V>(d: seq<(string, V)>, items: seq<(string, V)>, x: string)
    ensures Get(Update(d, items), x) == if LastValue(items, x).Some? then LastValue(items, x) else Get(d, x)
    decreases |items|
  {
    if items != [] {
      var last := items[|items| - 1];
      UpdateGet(d, items[..|items| - 1], x);
      PutGet(Update(d, items[..|items| - 1]), last.0, last.1, x);
    }
  }

  /** sorted(d.items()): with one item per key, the items in key order. */
  function SortItems<V>(d: seq<(string, V)>): (r: seq<(string, V)>)
    requires Distinct(Keys(d))
    ensures Keys(r) == SortStrings(Keys(d)) && Sorted(Keys(r))
    ensures forall x :: x in Keys(r) <==> x in Keys(d)
    ensures forall i :: 0 <= i < |r| ==> Get(d, r[i].0) == Some(r[i].1)
  {
    var ks := SortStrings(Keys(d));
    SortStringsSpec(Keys(d));
    DistinctPermutation(Keys(d), ks);
    var r := seq(|ks|, i requires 0 <= i < |ks| => (ks[i], Get(d, ks[i]).value));
    assert Keys(r) == ks;
    r
  }

  function Zip<A, B>(a: seq<A>, b: seq<B>): (r: seq<(A, B)>)
    requires |a| == |b|
    ensures |r| == |a| && forall i :: 0 <= i < |a| ==> r[i] == (a[i], b[i])
  {
    seq(|a|, i requires 0 <= i < |a| => (a[i], b[i]))
  }

  // ----- one capture ---------------------------------------------------------

  /** pd.date_range(start=ts or end=ts, periods=n, freq='us') on the µs
      axis: n consecutive microseconds whose first (START) or last (END)
      is the capture time. */
  function TimeIndex(tt: TimeType, t: int, n: nat): (r: seq<int>)
    ensures |r| == n
    ensures forall i :: 0 <= i < n ==> r[i] == r[0] + i
    ensures n > 0 && tt == Start ==> r[0] == t
    ensures n > 0 && tt == End ==> r[n - 1] == t
  {
    var first := if tt == Start then t else t - n + 1;
    seq(n, i requires 0 <= i < n => first + i)
  }

  lemma TimeIndexIncreasing(tt: TimeType, t: int, n: nat)
    ensures Increasing(TimeIndex(tt, t, n))
  {
    var r := TimeIndex(tt, t, n);
    forall i, j | 0 <= i < j < n ensures r[i] < r[j] {
      assert r[i] == r[0] + i && r[j] == r[0] + j;
    }
  }

  /** A file read_hdf can read as a capture that has its `PV` column. */
  predicate Readable(disk: Disk, path: string) {
    && path in disk && disk[path].Raw?
    && CaptureShape(disk[path].capture) && disk[path].capture.pvs.Some?
  }

  function Trimmed(c: Capture): (r: seq<string>)
    ensures |r| == |c.aliases| && forall i :: 0 <= i < |r| ==> r[i] == TrimAlias(c.aliases[i])
  {
    seq(|c.aliases|, i requires 0 <= i < |c.aliases| => TrimAlias(c.aliases[i]))
  }

  /** _df.T.set_index(_t_idx): one column per trimmed alias, one row per
      sample. */
  function FrameOf(row: Record, c: Capture): (t: Table)
    requires CaptureShape(c)
    ensures WellFormed(t) && t.index == TimeIndex(row.timeType, ToMicros(row.stamp), c.width)
    ensures forall n :: n in t.cols <==> n in Trimmed(c)
  {
    var idx := TimeIndex(row.timeType, ToMicros(row.stamp), c.width);
    var pairs := Zip(Trimmed(c), c.rows);
    BuildNames(idx, pairs);
    assert NamesOf(pairs) == Trimmed(c);
    Build(idx, pairs)
  }

  /** The name a capture's time is filed under. */
  function Tagged(row: Record): string {
    if row.devType == BPM then "BPM_" + row.name else row.name
  }

  // ----- the row loop --------------------------------------------------------------

  /** What the row loop has gathered: the alias and time dicts of _info and
      the two frame lists of _dfs. */
  datatype Gathered = Gathered(alias: seq<(string, string)>, time: seq<(string, int)>,
                               bcm: seq<Table>, bpm: seq<Table>)

  predicate Aligned(frames: seq<Table>) {
    forall k :: 0 <= k < |frames| ==> WellFormed(frames[k]) && Increasing(frames[k].index)
  }

  predicate Sound(g: Gathered) {
    && Aligned(g.bcm) && Aligned(g.bpm)
    && Distinct(Keys(g.alias)) && Distinct(Keys(g.time))
  }

  /** One pass of the loop over a readable row: the frame goes to the list
      of its device type. */
  function Absorb(g: Gathered, row: Record, c: Capture): (r: Gathered)
    requires CaptureShape(c) && c.pvs.Some?
    ensures Sound(g) ==> Sound(r)
    ensures r.bcm == [] <==> g.bcm == [] && row.devType != BCM
    ensures r.bpm == [] <==> g.bpm == [] && row.devType != BPM
  {
    var alias := Update(g.alias, Zip(Trimmed(c), c.pvs.value));
    var time := Put(g.time, Tagged(row), ToMicros(row.stamp));
    var frame := FrameOf(row, c);
    TimeIndexIncreasing(row.timeType, ToMicros(row.stamp), c.width);
    if row.devType == BCM then Gathered(alias, time, g.bcm + [frame], g.bpm)
    else Gathered(alias, time, g.bcm, g.bpm + [frame])
  }

  /** Every row's file is a readable capture. */
  predicate AllReadable(rows: seq<Record>, disk: Disk)
    decreases |rows|
  {
    rows == [] || (AllReadable(rows[..|rows| - 1], disk) && Readable(disk, rows[|rows| - 1].path))
  }

  lemma {:induction false} AllReadableEach(rows: seq<Record>, disk: Disk)
    ensures AllReadable(rows, disk) <==> forall i :: 0 <= i < |rows| ==> Readable(disk, rows[i].path)
    decreases |rows|
  {
    if rows != [] {
      var init := rows[..|rows| - 1];
      AllReadableEach(init, disk);
      assert forall i :: 0 <= i < |init| ==> init[i] == rows[i];
    }
  }

  /** Some row is a capture of device type dev. */
  predicate Has(rows: seq<Record>, dev: DevType)
    decreases |rows|
  {
    rows != [] && (Has(rows[..|rows| - 1], dev) || rows[|rows| - 1].devType == dev)
  }

  /** The loop over the rows of one fault ID; None where read_hdf or the
      pop of `PV` raises. */
  function Gather(rows: seq<Record>, disk: Disk): (r: Option<Gathered>)
    ensures r.None? <==> !AllReadable(rows, disk)
    ensures r.Some? ==> Sound(r.value)
    ensures r.Some? ==> (r.value.bcm != [] <==> Has(rows, BCM))
    ensures r.Some? ==> (r.value.bpm != [] <==> Has(rows, BPM))
    decreases |rows|
  {
    if rows == [] then Some(Gathered([], [], [], []))
    else
      var init := rows[..|rows| - 1];
      var row := rows[|rows| - 1];
      match Gather(init, disk)
      case None => None
      case Some(g) =>
        if !Readable(disk, row.path) then None
        else
          Some(Absorb(g, row, disk[row.path].capture))
  }

  /** The time a name is filed under is that of the last row with the name. */
  function LastStamp(rows: seq<Record>, name: string): Option<int>
    decreases |rows|
  {
    if rows == [] then None
    else if Tagged(rows[|rows| - 1]) == name then Some(ToMicros(rows[|rows| - 1].stamp))
    else LastStamp(rows[..|rows| - 1], name)
  }

  lemma {:induction false} GatherTime(rows: seq<Record>, disk: Disk, name: string)
    requires Gather(rows, disk).Some?
    ensures Get(Gather(rows, disk).value.time, name) == LastStamp(rows, name)
    decreases |rows|
  {
    if rows != [] {
      var init := rows[..|rows| - 1];
      var row := rows[|rows| - 1];
      assert forall i :: 0 <= i < |init| ==> init[i] == rows[i];
      var g := Gather(init, disk).value;
      GatherTime(init, disk, name);
      PutGet(g.time, Tagged(row), ToMicros(row.stamp), name);
    }
  }

  // ----- the puts ---------------------------------------------------------------------

  /** df[sorted(c for c in df.columns if keep(c))]: exactly the columns kept,
      in string order, cells unchanged (every name is present, so the
      selection never raises). */
  function Pick(t: Table, keep: string -> bool): (r: Table)
    requires WellFormed(t)
    ensures WellFormed(r) && r.index == t.index && Sorted(r.names)
    ensures forall n :: n in r.names <==> n in t.names && keep(n)
    ensures forall n :: n in r.names ==> n in t.cols && r.cols[n] == t.cols[n]
  {
    var ns := SortStrings(FilterNames(t.names, keep));
    PickedNames(t, keep);
    var pairs := seq(|ns|, i requires 0 <= i < |ns| => (ns[i], t.cols[ns[i]]));
    PickedColumns(t, ns, pairs);
    Build(t.index, pairs)
  }

  lemma PickedNames(t: Table, keep: string -> bool)
    requires WellFormed(t)
    ensures var ns := SortStrings(FilterNames(t.names, keep));
            && Sorted(ns) && Distinct(ns) && (forall n :: n in ns <==> n in t.names && keep(n))
            && forall i :: 0 <= i < |ns| ==> ns[i] in t.cols
  {
    SortStringsSpec(FilterNames(t.names, keep));
    DistinctPermutation(FilterNames(t.names, keep), SortStrings(FilterNames(t.names, keep)));
  }

  lemma PickedColumns(t: Table, ns: seq<string>, pairs: seq<(string, Column)>)
    requires WellFormed(t) && Distinct(ns) && forall i :: 0 <= i < |ns| ==> ns[i] in t.cols
    requires |pairs| == |ns| && forall i :: 0 <= i < |ns| ==> pairs[i] == (ns[i], t.cols[ns[i]])
    ensures forall i :: 0 <= i < |pairs| ==> |pairs[i].1| == |t.index|
    ensures Build(t.index, pairs).names == ns
    ensures forall n :: n in ns ==> Build(t.index, pairs).cols[n] == t.cols[n]
  {
    assert NamesOf(pairs) == ns;
    BuildDistinct(t.index, pairs);
    forall n | n in ns ensures Build(t.index, pairs).cols[n] == t.cols[n] {
      var i :| 0 <= i < |ns| && ns[i] == n;
      assert pairs[i] == (n, t.cols[n]);
    }
  }

  function IsPermit(c: string): bool {
    Contains(c, "NPERMIT")
  }

  function IsData(c: string): bool {
    !Contains(c, "NPERMIT")
  }

  function IsMag(c: string): bool {
    Contains(c, "MAG")
  }

  function IsPhase(c: string): bool {
    Contains(c, "PHA")
  }

  function IsBeamState(c: string): bool {
    Contains(c, "BEAMST")
  }

  /** INFO/PV and INFO/TIME, each sorted by name. */
  function Info(g: Gathered): (st: Store)
    requires Distinct(Keys(g.alias)) && Distinct(Keys(g.time))
  {
    map["/INFO/PV" := Labels(SortItems(g.alias)), "/INFO/TIME" := Stamps(SortItems(g.time))]
  }

  /** The BCM puts: nothing for no frames; Err where concat raises. */
  function PutBcm(st: Store, frames: seq<Table>): (r: Result<Store, Store>)
    requires forall k :: 0 <= k < |frames| ==> WellFormed(frames[k])
    ensures r.Ok? <==> frames == [] || JoinAll(frames).Some?
    ensures r.Ok? ==> r.value.Keys == st.Keys + (if frames != [] then {"/BCM/DATA", "/BCM/NPERMIT"} else {})
  {
    if frames == [] then Ok(st)
    else match JoinAll(frames)
      case None => Err(st)
      case Some(t) =>
        Ok(st["/BCM/DATA" := PlainFrame(Pick(t, IsData))]["/BCM/NPERMIT" := PlainFrame(Pick(t, IsPermit))])
  }

  function PutBpm(st: Store, frames: seq<Table>): (r: Result<Store, Store>)
    requires forall k :: 0 <= k < |frames| ==> WellFormed(frames[k])
    ensures r.Ok? <==> frames == [] || JoinAll(frames).Some?
    ensures r.Ok? ==> r.value.Keys == st.Keys + (if frames != [] then {"/BPM/MAG", "/BPM/PHA", "/BPM/BEAMST"} else {})
  {
    if frames == [] then Ok(st)
    else match JoinAll(frames)
      case None => Err(st)
      case Some(t) =>
        Ok(st["/BPM/MAG" := PlainFrame(Pick(t, IsMag))]["/BPM/PHA" := PlainFrame(Pick(t, IsPhase))]
             ["/BPM/BEAMST" := PlainFrame(Pick(t, IsBeamState))])
  }

  /** The puts after the loop: Ok when every put happened, Err with what had
      been put when a concatenation raised. */
  function Puts(g: Gathered): Result<Store, Store>
    requires Sound(g)
  {
    match PutBcm(Info(g), g.bcm)
    case Err(st) => Err(st)
    case Ok(st) => PutBpm(st, g.bpm)
  }

  /** The store a merge leaves behind: empty when a row raised. */
  function Merged(rows: seq<Record>, disk: Disk): Result<Store, Store> {
    match Gather(rows, disk)
    case None => Err(map[])
    case Some(g) => Puts(g)
  }

  function OutFile(root: string, id: FaultId): string {
    JoinPath(root, IdText(id) + ".h5")
  }

  /** group_datafiles(ftid, df_grp, root_dir, overwrite). An existing output
      without overwrite is left alone: the current copy returns None, the
      legacy copy the path. Otherwise the store is created empty before the
      loop, so a raising row leaves an empty store behind. */
  method GroupDatafiles(copy: Copy, id: FaultId, rows: seq<Record>, root: string, overwrite: bool,
                        disk: Disk)
    returns (result: Result<Option<string>, Raised>, written: Disk)
    ensures var out := OutFile(root, id);
            out in disk && !overwrite ==>
              written == disk && result == Ok(if copy == Current then None else Some(out))
    ensures var out := OutFile(root, id);
            !(out in disk && !overwrite) ==>
              match Merged(rows, disk[out := Hdf(map[])])
              case Ok(st) => result == Ok(Some(out)) && written == disk[out := Hdf(st)]
              case Err(st) => result == Err(Raised) && written == disk[out := Hdf(st)]
  {
    var out := OutFile(root, id);
    if out in disk && !overwrite {
      written := disk;
      result := Ok(if copy == Current then None else Some(out));
      return;
    }
    var d := disk[out := Hdf(map[])];
    var alias: seq<(string, string)> := [];
    var time: seq<(string, int)> := [];
    var bcm: seq<Table> := [];
    var bpm: seq<Table> := [];
    for i := 0 to |rows|
      invariant Gather(rows[..i], d) == Some(Gathered(alias, time, bcm, bpm))
    {
      var row := rows[i];
      GatherStep(rows, i, d);
      if !Readable(d, row.path) {
        AllReadableEach(rows, d);
        written := d;
        result := Err(Raised);
        return;
      }
      var c := d[row.path].capture;
      alias := Update(alias, Zip(Trimmed(c), c.pvs.value));
      time := Put(time, Tagged(row), ToMicros(row.stamp));
      if row.devType == BCM {
        bcm := bcm + [FrameOf(row, c)];
      } else {
        bpm := bpm + [FrameOf(row, c)];
      }
    }
    assert rows[..|rows|] == rows;
    var stored := PutGathered(Gathered(alias, time, bcm, bpm));
    match stored {
      case Ok(st) =>
        written := disk[out := Hdf(st)];
        result := Ok(Some(out));
      case Err(st) =>
        written := disk[out := Hdf(st)];
        result := Err(Raised);
    }
  }

  lemma GatherStep(rows: seq<Record>, i: nat, disk: Disk)
    requires i < |rows| && Gather(rows[..i], disk).Some?
    ensures Gather(rows[..i + 1], disk)
            == if Readable(disk, rows[i].path)
               then Some(Absorb(Gather(rows[..i], disk).value, rows[i], disk[rows[i].path].capture))
               else None
  {
    assert rows[..i + 1][..i] == rows[..i];
  }

  /** The puts, one store.put after the other. */
  method PutGathered(g: Gathered) returns (stored: Result<Store, Store>)
    requires Sound(g)
    ensures stored == Puts(g)
  {
    var store: Store := map["/INFO/PV" := Labels(SortItems(g.alias))];
    store := store["/INFO/TIME" := Stamps(SortItems(g.time))];
    if g.bcm != [] {
      var joined := JoinAll(g.bcm);
      if joined.None? {
        return Err(store);
      }
      store := store["/BCM/DATA" := PlainFrame(Pick(joined.value, IsData))];
      store := store["/BCM/NPERMIT" := PlainFrame(Pick(joined.value, IsPermit))];
    }
    if g.bpm != [] {
      var joined := JoinAll(g.bpm);
      if joined.None? {
        return Err(store);
      }
      store := store["/BPM/MAG" := PlainFrame(Pick(joined.value, IsMag))];
      store := store["/BPM/PHA" := PlainFrame(Pick(joined.value, IsPhase))];
      store := store["/BPM/BEAMST" := PlainFrame(Pick(joined.value, IsBeamState))];
    }
    stored := Ok(store);
  }

  // ----- what a merge promises ---------------------------------------------------------

  lemma IncreasingDistinct(s: seq<int>)
    requires Increasing(s)
    ensures Distinct(s)
  {
  }

  /** concat never raises on frames whose indexes are increasing: equal
      indexes sit side by side, others join on a sorted union. */
  lemma {:induction false} JoinAligned(frames: seq<Table>)
    requires Aligned(frames)
    ensures frames != [] ==> JoinAll(frames).Some? && Increasing(JoinAll(frames).value.index)
    decreases |frames|
  {
    if |frames| > 1 {
      var init := frames[..|frames| - 1];
      var last := frames[|frames| - 1];
      assert Aligned(init);
      JoinAligned(init);
      var acc := JoinAll(init).value;
      IncreasingDistinct(acc.index);
      IncreasingDistinct(last.index);
      assert JoinAll(frames) == Join2(acc, last);
    }
  }

  /** A merge raises exactly when some row's file is not a readable capture;
      the concatenations never do. */
  lemma MergedRaises(rows: seq<Record>, disk: Disk)
    ensures Merged(rows, disk).Err? <==> !AllReadable(rows, disk)
  {
    match Gather(rows, disk)
    case None =>
    case Some(g) =>
      JoinAligned(g.bcm);
      JoinAligned(g.bpm);
  }

  /** The store holds INFO/PV and INFO/TIME, the BCM pair iff some row is a
      BCM capture, the BPM triple iff some row is a BPM capture, and nothing
      else. */
  lemma MergedKeys(rows: seq<Record>, disk: Disk)
    requires Merged(rows, disk).Ok?
    ensures var st := Merged(rows, disk).value;
            st.Keys == {"/INFO/PV", "/INFO/TIME"}
                       + (if Has(rows, BCM) then {"/BCM/DATA", "/BCM/NPERMIT"} else {})
                       + (if Has(rows, BPM) then {"/BPM/MAG", "/BPM/PHA", "/BPM/BEAMST"} else {})
  {
    PutsKeys(Gather(rows, disk).value);
  }

  /** The puts of sound frames all happen: INFO always, BCM and BPM when
      there are frames of that kind. */
  lemma PutsKeys(g: Gathered)
    requires Sound(g)
    ensures Puts(g).Ok?
    ensures Puts(g).value.Keys == {"/INFO/PV", "/INFO/TIME"}
                                 + (if g.bcm != [] then {"/BCM/DATA", "/BCM/NPERMIT"} else {})
                                 + (if g.bpm != [] then {"/BPM/MAG", "/BPM/PHA", "/BPM/BEAMST"} else {})
  {
    JoinAligned(g.bcm);
    JoinAligned(g.bpm);
    var info := Info(g);
    assert info.Keys == {"/INFO/PV", "/INFO/TIME"};
  }

  /** BCM/DATA and BCM/NPERMIT split the concatenated BCM columns: every
      column lands in exactly one of them. */
  lemma BcmPartition(t: Table, n: string)
    requires WellFormed(t)
    ensures n in t.names <==> n in Pick(t, IsData).names || n in Pick(t, IsPermit).names
    ensures !(n in Pick(t, IsData).names && n in Pick(t, IsPermit).names)
  {
  }
}
