/** The command-line tools around the pipeline (merge_tool and convert_tool
    in both copies of _tools.py, and the figure grid of the current
    plot_tool; the older plot_tool has no grid): which groups
    and files they process, in what order, what they skip and when they
    stop. Argument parsing, logging and the interactive window are not
    modelled; the arguments arrive as parameters. */
module Tools {
  import opened Wrappers
  import opened Text
  import opened Tables
  import opened Schema
  import Indexer
  import Merger
  import Aligner
  import Exporter

  /** How a tool run ends early: sys.exit(status) or an exception. */
  datatype Halt = Exit(status: int) | Crash

  // ----- merge_tool: the groups ------------------------------------------------------

  function Flatten(runs: seq<seq<Record>>): seq<Record>
    decreases |runs|
  {
    if runs == [] then [] else Flatten(runs[..|runs| - 1]) + runs[|runs| - 1]
  }

  /** df_evts.groupby(df_evts.index) over an index that read_path sorted:
      the runs of rows sharing a fault ID, in index order, each keeping the
      index's row order. */
  function Runs(rs: seq<Record>): (r: seq<seq<Record>>)
    ensures forall k :: 0 <= k < |r| ==> r[k] != []
    ensures forall k, i :: 0 <= k < |r| && 0 <= i < |r[k]| ==> r[k][i].id == r[k][0].id
    ensures forall k :: 0 < k < |r| ==> r[k - 1][0].id != r[k][0].id
    decreases |rs|
  {
    if rs == [] then []
    else
      var init := Runs(rs[..|rs| - 1]);
      var x := rs[|rs| - 1];
      if init != [] && init[|init| - 1][0].id == x.id then
        JoinRun(init, x);
        init[..|init| - 1] + [init[|init| - 1] + [x]]
      else
        StartRun(init, x);
        init + [[x]]
  }

  /** Runs are non-empty, share one fault ID inside, and differ between
      neighbours. */
  predicate RunsShape(r: seq<seq<Record>>) {
    (forall k :: 0 <= k < |r| ==> r[k] != [])
    && (forall k, i :: 0 <= k < |r| && 0 <= i < |r[k]| ==> r[k][i].id == r[k][0].id)
    && (forall k :: 0 < k < |r| ==> r[k - 1][0].id != r[k][0].id)
  }

  /** A row with the last run's fault ID joins that run. */
  lemma JoinRun(init: seq<seq<Record>>, x: Record)
    requires RunsShape(init) && init != [] && init[|init| - 1][0].id == x.id
    ensures RunsShape(init[..|init| - 1] + [init[|init| - 1] + [x]])
  {
    var r := init[..|init| - 1] + [init[|init| - 1] + [x]];
    assert forall k :: 0 <= k < |init| - 1 ==> r[k] == init[k];
    assert r[|init| - 1][0] == init[|init| - 1][0];
  }

  /** A row with a new fault ID starts a run. */
  lemma StartRun(init: seq<seq<Record>>, x: Record)
    requires RunsShape(init) && (init == [] || init[|init| - 1][0].id != x.id)
    ensures RunsShape(init + [[x]])
  {
    var r := init + [[x]];
    assert forall k :: 0 <= k < |init| ==> r[k] == init[k];
  }

  /** The groups, one after the other, are the index. */
  lemma {:induction false} RunsFlatten(rs: seq<Record>)
    ensures Flatten(Runs(rs)) == rs
    decreases |rs|
  {
    if rs != [] {
      var pre: seq<Record> := rs[..|rs| - 1];
      var x: Record := rs[|rs| - 1];
      RunsFlatten(pre);
      assert rs == pre + [x];
      var init: seq<seq<Record>> := Runs(pre);
      if init != [] && init[|init| - 1][0].id == x.id {
        assert init == init[..|init| - 1] + [init[|init| - 1]];
        FlattenExtend(init[..|init| - 1], init[|init| - 1], x);
      } else {
        FlattenSnoc(init, [x]);
      }
    }
  }

  /** Adding a row to the last group adds it to the end of the rows. */
  lemma FlattenExtend(front: seq<seq<Record>>, last: seq<Record>, x: Record)
    ensures Flatten(front + [last + [x]]) == Flatten(front + [last]) + [x]
  {
    FlattenSnoc(front, last + [x]);
    FlattenSnoc(front, last);
  }

  lemma FlattenSnoc(a: seq<seq<Record>>, b: seq<Record>)
    ensures Flatten(a + [b]) == Flatten(a) + b
  {
    assert (a + [b])[..|a|] == a;
  }

  /** Each group starts with a row of the index. */
  lemma {:induction false} RunsHeads(rs: seq<Record>)
    ensures forall k :: 0 <= k < |Runs(rs)| ==> Runs(rs)[k][0] in rs
    decreases |rs|
  {
    if rs != [] {
      var pre: seq<Record> := rs[..|rs| - 1];
      var x: Record := rs[|rs| - 1];
      RunsHeads(pre);
      var init: seq<seq<Record>> := Runs(pre);
      var r: seq<seq<Record>> := Runs(rs);
      assert forall y :: y in pre ==> y in rs;
      if init != [] && init[|init| - 1][0].id == x.id {
        assert forall k :: 0 <= k < |r| ==> r[k][0] == init[k][0];
      } else {
        assert forall k :: 0 <= k < |init| ==> r[k] == init[k];
      }
    }
  }

  lemma IdLeAntisym(a: FaultId, b: FaultId)
    requires Indexer.IdLe(a, b) && Indexer.IdLe(b, a)
    ensures a == b
  {
    if a.TextId? {
      LexLeAntisym(a.text, b.text);
    }
  }

  /** Group heads in strictly increasing fault-ID order. */
  predicate HeadsOrdered(r: seq<seq<Record>>)
    requires forall k :: 0 <= k < |r| ==> r[k] != []
  {
    forall k, l :: 0 <= k < l < |r| ==> Indexer.IdLe(r[k][0].id, r[l][0].id) && r[k][0].id != r[l][0].id
  }

  /** On a sorted index the groups come in fault-ID order and no two share
      an ID: each fault ID is merged exactly once. */
  lemma {:induction false} RunsOrdered(rs: seq<Record>)
    requires Indexer.ById(rs)
    ensures forall k, l :: 0 <= k < l < |Runs(rs)| ==>
              Indexer.IdLe(Runs(rs)[k][0].id, Runs(rs)[l][0].id) && Runs(rs)[k][0].id != Runs(rs)[l][0].id
    decreases |rs|
  {
    if rs != [] {
      var pre: seq<Record> := rs[..|rs| - 1];
      assert Indexer.ById(pre);
      RunsOrdered(pre);
      RunsHeads(pre);
      RunsOrderedSnoc(pre, rs);
      assert HeadsOrdered(Runs(rs));
    }
  }

  /** Appending one row of a sorted index keeps the group heads ordered. */
  lemma RunsOrderedSnoc(pre: seq<Record>, rs: seq<Record>)
    requires Indexer.ById(rs) && rs != [] && pre == rs[..|rs| - 1]
    requires HeadsOrdered(Runs(pre)) && forall k :: 0 <= k < |Runs(pre)| ==> Runs(pre)[k][0] in pre
    ensures HeadsOrdered(Runs(rs))
  {
    var x: Record := rs[|rs| - 1];
    var init: seq<seq<Record>> := Runs(pre);
    var r: seq<seq<Record>> := Runs(rs);
    if init != [] && init[|init| - 1][0].id == x.id {
      assert forall k :: 0 <= k < |r| ==> r[k][0] == init[k][0];
      SameHeadsOrdered(init, r);
    } else {
      assert r == init + [[x]];
      forall k | 0 <= k < |init|
        ensures Indexer.IdLe(init[k][0].id, x.id) && init[k][0].id != x.id
      {
        HeadBefore(pre, init[k][0], x, rs);
        if init != [] {
          var h := init[|init| - 1][0];
          HeadBefore(pre, h, x, rs);
          if init[k][0].id == x.id && k < |init| - 1 {
            IdLeAntisym(h.id, x.id);
          }
        }
      }
      SnocOrdered(init, [x]);
    }
  }

  lemma SameHeadsOrdered(a: seq<seq<Record>>, b: seq<seq<Record>>)
    requires forall k :: 0 <= k < |a| ==> a[k] != []
    requires |b| == |a| && forall k :: 0 <= k < |b| ==> b[k] != [] && b[k][0] == a[k][0]
    requires HeadsOrdered(a)
    ensures HeadsOrdered(b)
  {
  }

  lemma SnocOrdered(a: seq<seq<Record>>, g: seq<Record>)
    requires g != [] && forall k :: 0 <= k < |a| ==> a[k] != []
    requires HeadsOrdered(a)
    requires forall k :: 0 <= k < |a| ==> Indexer.IdLe(a[k][0].id, g[0].id) && a[k][0].id != g[0].id
    ensures HeadsOrdered(a + [g])
  {
    var c: seq<seq<Record>> := a + [g];
    forall k, l | 0 <= k < l < |c|
      ensures Indexer.IdLe(c[k][0].id, c[l][0].id) && c[k][0].id != c[l][0].id
    {
      if l < |a| {
        assert c[k] == a[k] && c[l] == a[l];
      } else {
        assert c[k] == a[k] && c[l] == g;
      }
    }
  }

  /** A record of the index before its last row sorts no later than it. */
  lemma HeadBefore(pre: seq<Record>, h: Record, x: Record, rs: seq<Record>)
    requires Indexer.ById(rs) && |rs| > 0 && pre == rs[..|rs| - 1] && x == rs[|rs| - 1] && h in pre
    ensures Indexer.IdLe(h.id, x.id)
  {
    var j :| 0 <= j < |pre| && pre[j] == h;
    assert rs[j] == h;
  }

  // ----- merge_tool: the loop --------------------------------------------------------

  /** What became of one group: group_datafiles raised, returned None or
      returned a path. */
  datatype Outcome = Failed | Skipped | MergedInto(path: string)

  function OutcomeOf(res: Result<Option<string>, Raised>): Outcome {
    match res
    case Err(_) => Failed
    case Ok(None) => Skipped
    case Ok(Some(p)) => MergedInto(p)
  }

  /** group_datafiles on one group, as Merger.GroupDatafiles's contract
      states it: an existing output without overwrite is left alone, any
      other output is written, even when a row raises. */
  function Group(copy: Copy, run: seq<Record>, root: string, overwrite: bool, d: Disk): (r: (Result<Option<string>, Raised>, Disk))
    requires run != []
    ensures r.0 == Ok(None) <==> copy == Current && Merger.OutFile(root, run[0].id) in d && !overwrite
    ensures r.0.Ok? && r.0.value.Some? ==> r.0.value.value == Merger.OutFile(root, run[0].id)
  {
    var out := Merger.OutFile(root, run[0].id);
    if out in d && !overwrite then (Ok(if copy == Current then None else Some(out)), d)
    else match Merger.Merged(run, d[out := Hdf(map[])])
      case Ok(st) => (Ok(Some(out)), d[out := Hdf(st)])
      case Err(st) => (Err(Raised), d[out := Hdf(st)])
  }

  /** What Merger.GroupDatafiles promises is what Group computes. */
  lemma GroupIs(copy: Copy, run: seq<Record>, root: string, overwrite: bool, d: Disk,
                res: Result<Option<string>, Raised>, written: Disk)
    requires run != []
    requires var out := Merger.OutFile(root, run[0].id);
             out in d && !overwrite ==>
               written == d && res == Ok(if copy == Current then None else Some(out))
    requires var out := Merger.OutFile(root, run[0].id);
             !(out in d && !overwrite) ==>
               match Merger.Merged(run, d[out := Hdf(map[])])
               case Ok(st) => res == Ok(Some(out)) && written == d[out := Hdf(st)]
               case Err(st) => res == Err(Raised) && written == d[out := Hdf(st)]
    ensures (res, written) == Group(copy, run, root, overwrite, d)
  {
  }

  /** A group writes its own output file and nothing else. */
  lemma GroupFrame(copy: Copy, run: seq<Record>, root: string, overwrite: bool, d: Disk, p: string)
    requires run != [] && p != Merger.OutFile(root, run[0].id)
    ensures var d2 := Group(copy, run, root, overwrite, d).1;
            (p in d2 <==> p in d) && (p in d ==> d2[p] == d[p])
  {
  }

  /** The loop over the groups. The current copy logs a raising group and
      goes on; the legacy copy stops at the first raise (the flag). */
  function MergeRuns(copy: Copy, runs: seq<seq<Record>>, root: string, overwrite: bool, d: Disk): (r: (seq<Outcome>, Disk, bool))
    requires forall k :: 0 <= k < |runs| ==> runs[k] != []
    ensures copy == Current ==> !r.2
    ensures !r.2 ==> |r.0| == |runs|
    ensures r.2 ==> 0 < |r.0| <= |runs|
    decreases |runs|
  {
    if runs == [] then ([], d, false)
    else
      var init := runs[..|runs| - 1];
      var (outs, d1, stopped) := MergeRuns(copy, init, root, overwrite, d);
      if stopped then (outs, d1, true)
      else
        var (res, d2) := Group(copy, runs[|runs| - 1], root, overwrite, d1);
        (outs + [OutcomeOf(res)], d2, copy == Legacy && res.Err?)
  }

  /** The legacy loop stops exactly at its first failing group. */
  lemma {:induction false} MergeRunsFailure(runs: seq<seq<Record>>, root: string, overwrite: bool, d: Disk)
    requires forall k :: 0 <= k < |runs| ==> runs[k] != []
    ensures var r := MergeRuns(Legacy, runs, root, overwrite, d);
            (r.2 <==> Failed in r.0) && forall k :: 0 <= k < |r.0| - 1 ==> r.0[k] != Failed
    decreases |runs|
  {
    if runs != [] {
      var init := runs[..|runs| - 1];
      MergeRunsFailure(init, root, overwrite, d);
      var (outs, d1, stopped) := MergeRuns(Legacy, init, root, overwrite, d);
      if !stopped {
        var (res, d2) := Group(Legacy, runs[|runs| - 1], root, overwrite, d1);
        var all := outs + [OutcomeOf(res)];
        assert forall k :: 0 <= k < |outs| ==> all[k] == outs[k];
        assert Failed in all <==> Failed in outs || OutcomeOf(res) == Failed;
      }
    }
  }

  /** Every merged group is reported with its own output file. */
  lemma MergeRunsPaths(copy: Copy, runs: seq<seq<Record>>, root: string, overwrite: bool, d: Disk)
    requires forall k :: 0 <= k < |runs| ==> runs[k] != []
    ensures var outs := MergeRuns(copy, runs, root, overwrite, d).0;
            forall k :: 0 <= k < |outs| && outs[k].MergedInto? ==> outs[k].path == Merger.OutFile(root, runs[k][0].id)
  {
    var outs := MergeRuns(copy, runs, root, overwrite, d).0;
    forall k | 0 <= k < |outs| && outs[k].MergedInto?
      ensures outs[k].path == Merger.OutFile(root, runs[k][0].id)
    {
      MergeRunsPathAt(copy, runs, root, overwrite, d, k);
    }
  }

  lemma {:induction false} MergeRunsPathAt(copy: Copy, runs: seq<seq<Record>>, root: string, overwrite: bool, d: Disk, k: nat)
    requires forall j :: 0 <= j < |runs| ==> runs[j] != []
    requires k < |MergeRuns(copy, runs, root, overwrite, d).0|
    ensures var o := MergeRuns(copy, runs, root, overwrite, d).0[k];
            o.MergedInto? ==> o.path == Merger.OutFile(root, runs[k][0].id)
    decreases |runs|
  {
    var init := runs[..|runs| - 1];
    var prev := MergeRuns(copy, init, root, overwrite, d).0;
    var all := MergeRuns(copy, runs, root, overwrite, d).0;
    MergeRunsUnfold(copy, runs, root, overwrite, d);
    if k < |prev| {
      MergeRunsPathAt(copy, init, root, overwrite, d, k);
    }
    PathAtStep(all, prev, runs, root, k);
  }

  /** The outcome at k comes from the shorter loop, or it is the last group's. */
  lemma PathAtStep(all: seq<Outcome>, prev: seq<Outcome>, runs: seq<seq<Record>>, root: string, k: nat)
    requires forall j :: 0 <= j < |runs| ==> runs[j] != []
    requires k < |all| && |all| >= |prev| && forall j :: 0 <= j < |prev| ==> all[j] == prev[j]
    requires |all| > |prev| ==>
               |all| == |prev| + 1 && |all| == |runs| &&
               (all[|prev|].MergedInto? ==> all[|prev|].path == Merger.OutFile(root, runs[|runs| - 1][0].id))
    requires k < |prev| ==>
               (|prev| < |runs| &&
                (prev[k].MergedInto? ==> prev[k].path == Merger.OutFile(root, runs[..|runs| - 1][k][0].id)))
    ensures all[k].MergedInto? ==> all[k].path == Merger.OutFile(root, runs[k][0].id)
  {
  }

  lemma MergeRunsUnfold(copy: Copy, runs: seq<seq<Record>>, root: string, overwrite: bool, d: Disk)
    requires runs != [] && forall k :: 0 <= k < |runs| ==> runs[k] != []
    ensures var m := MergeRuns(copy, runs[..|runs| - 1], root, overwrite, d);
            var all := MergeRuns(copy, runs, root, overwrite, d).0;
            |all| >= |m.0| && (forall k :: 0 <= k < |m.0| ==> all[k] == m.0[k])
            && (|all| > |m.0| ==>
                  |all| == |m.0| + 1 && |all| == |runs| &&
                  (all[|m.0|].MergedInto? ==> all[|m.0|].path == Merger.OutFile(root, runs[|runs| - 1][0].id)))
  {
  }

  /** A group is skipped only by the current copy without overwrite. */
  lemma {:induction false} MergeRunsSkips(copy: Copy, runs: seq<seq<Record>>, root: string, overwrite: bool, d: Disk)
    requires forall k :: 0 <= k < |runs| ==> runs[k] != []
    ensures Skipped in MergeRuns(copy, runs, root, overwrite, d).0 ==> copy == Current && !overwrite
    decreases |runs|
  {
    if runs != [] {
      MergeRunsSkips(copy, runs[..|runs| - 1], root, overwrite, d);
    }
  }

  /** The paths the groups write. */
  predicate IsOutput(p: string, runs: seq<seq<Record>>, root: string)
    requires forall k :: 0 <= k < |runs| ==> runs[k] != []
  {
    exists k :: 0 <= k < |runs| && p == Merger.OutFile(root, runs[k][0].id)
  }

  /** The groups touch no path but their outputs. */
  lemma {:induction false} MergeRunsFrame(copy: Copy, runs: seq<seq<Record>>, root: string, overwrite: bool, d: Disk, p: string)
    requires forall k :: 0 <= k < |runs| ==> runs[k] != []
    requires !IsOutput(p, runs, root)
    ensures var d2 := MergeRuns(copy, runs, root, overwrite, d).1;
            (p in d2 <==> p in d) && (p in d ==> d2[p] == d[p])
    decreases |runs|
  {
    if runs != [] {
      var init := runs[..|runs| - 1];
      MergeRunsFrame(copy, init, root, overwrite, d, p);
      var m := MergeRuns(copy, init, root, overwrite, d);
      if !m.2 {
        GroupFrame(copy, runs[|runs| - 1], root, overwrite, m.1, p);
      }
    }
  }

  /** merge_tool after read_path: the current copy writes the CSV report of
      the index first and isolates each group; the legacy copy stops at the
      first raising group and writes the report only after the last. */
  function MergeAll(copy: Copy, index: seq<Record>, root: string, overwrite: bool, csv: Option<string>, d: Disk): (r: (Result<seq<Outcome>, Halt>, Disk))
  {
    var runs := Runs(index);
    if copy == Current then
      var d0 := if csv.Some? then d[csv.value := Report(index)] else d;
      var (outs, d1, _) := MergeRuns(Current, runs, root, overwrite, d0);
      (Ok(outs), d1)
    else
      var (outs, d1, stopped) := MergeRuns(Legacy, runs, root, overwrite, d);
      if stopped then (Err(Crash), d1)
      else (Ok(outs), if csv.Some? then d1[csv.value := Report(index)] else d1)
  }

  /** The whole merge_tool: no data or out directory is exit status 1, a
      raising walk is a crash, else the groups of the sorted index. */
  function MergeToolSpec(copy: Copy, dataDir: Option<seq<Indexer.Listed>>, outDir: Option<string>, overwrite: bool,
                         csv: Option<string>, d: Disk): (r: (Result<seq<Outcome>, Halt>, Disk))
  {
    if dataDir.None? || outDir.None? then (Err(Exit(1)), d)
    else match Indexer.Scan(dataDir.value, "h5", false, 90000, copy == Current)
      case None => (Err(Crash), d)
      case Some(recs) => MergeAll(copy, Indexer.SortRecords(recs), outDir.value, overwrite, csv, d)
  }

  /** merge_tool(): the walk of data_dir arrives as the listing of its
      entries. */
  method MergeTool(copy: Copy, dataDir: Option<seq<Indexer.Listed>>, outDir: Option<string>, overwrite: bool,
                   csv: Option<string>, disk: Disk) returns (r: Result<seq<Outcome>, Halt>, d: Disk)
    ensures (r, d) == MergeToolSpec(copy, dataDir, outDir, overwrite, csv, disk)
  {
    if dataDir.None? || outDir.None? {
      return Err(Exit(1)), disk;
    }
    var index := Indexer.ReadPath(dataDir.value, "h5", false, 90000, copy == Current);
    if index.None? {
      return Err(Crash), disk;
    }
    var root := outDir.value;
    d := disk;
    if copy == Current && csv.Some? {
      d := d[csv.value := Report(index.value)];
    }
    var outs, written, stopped := MergeGroups(copy, Runs(index.value), root, overwrite, d);
    d := written;
    if stopped {
      return Err(Crash), d;
    }
    if copy == Legacy && csv.Some? {
      d := d[csv.value := Report(index.value)];
    }
    r := Ok(outs);
  }

  /** The for loop over the groups of merge_tool. */
  method MergeGroups(copy: Copy, runs: seq<seq<Record>>, root: string, overwrite: bool, disk: Disk)
    returns (outs: seq<Outcome>, d: Disk, stopped: bool)
    requires forall k :: 0 <= k < |runs| ==> runs[k] != []
    ensures (outs, d, stopped) == MergeRuns(copy, runs, root, overwrite, disk)
  {
    outs, d, stopped := [], disk, false;
    for i := 0 to |runs|
      invariant MergeRuns(copy, runs[..i], root, overwrite, disk) == (outs, d, false)
    {
      var res, written := Merger.GroupDatafiles(copy, runs[i][0].id, runs[i], root, overwrite, d);
      GroupIs(copy, runs[i], root, overwrite, d, res, written);
      MergeRunsStep(copy, runs, i, root, overwrite, disk);
      outs := outs + [OutcomeOf(res)];
      d := written;
      if copy == Legacy && res.Err? {
        MergeRunsStops(runs, root, overwrite, disk, i + 1);
        return outs, d, true;
      }
    }
    assert runs[..|runs|] == runs;
  }

  /** One more group extends the loop by that group's outcome. */
  lemma MergeRunsStep(copy: Copy, runs: seq<seq<Record>>, i: nat, root: string, overwrite: bool, d: Disk)
    requires forall k :: 0 <= k < |runs| ==> runs[k] != []
    requires i < |runs| && !MergeRuns(copy, runs[..i], root, overwrite, d).2
    ensures var (outs, d1, _) := MergeRuns(copy, runs[..i], root, overwrite, d);
            var (res, d2) := Group(copy, runs[i], root, overwrite, d1);
            MergeRuns(copy, runs[..i + 1], root, overwrite, d) == (outs + [OutcomeOf(res)], d2, copy == Legacy && res.Err?)
  {
    assert runs[..i + 1][..i] == runs[..i];
  }

  /** Once the legacy loop has stopped, the remaining groups change nothing. */
  lemma {:induction false} MergeRunsStops(runs: seq<seq<Record>>, root: string, overwrite: bool, d: Disk, k: nat)
    requires forall j :: 0 <= j < |runs| ==> runs[j] != []
    requires k <= |runs| && MergeRuns(Legacy, runs[..k], root, overwrite, d).2
    ensures MergeRuns(Legacy, runs, root, overwrite, d) == MergeRuns(Legacy, runs[..k], root, overwrite, d)
    decreases |runs| - k
  {
    if k == |runs| {
      assert runs[..k] == runs;
    } else {
      var init := runs[..|runs| - 1];
      assert init[..k] == runs[..k];
      MergeRunsStops(init, root, overwrite, d, k);
    }
  }

  // ----- convert_tool: formats ------------------------------------------------------

  /** The formats convert_tool can write. */
  const Supported: seq<string> := ["mat", "h5", "csv", "xlsx"]

  function Lowered(fs: seq<string>): seq<string> {
    seq(|fs|, k requires 0 <= k < |fs| => Lower(fs[k]))
  }

  /** sorted(set(xs)) */
  function SortedSet(xs: seq<string>): seq<string> {
    SortStrings(Unique(xs))
  }

  /** A sequence without repeats counts each string at most once. */
  lemma {:induction false} DistinctCount(s: seq<string>, x: string)
    requires forall i, j :: 0 <= i < j < |s| ==> s[i] != s[j]
    ensures multiset(s)[x] <= 1
    decreases |s|
  {
    if s != [] {
      var init := s[..|s| - 1];
      DistinctCount(init, x);
      assert s == init + [s[|s| - 1]];
      if x == s[|s| - 1] {
        assert x !in init;
      }
    }
  }

  lemma RepeatCount(s: seq<string>, i: nat, j: nat)
    requires i < j < |s| && s[i] == s[j]
    ensures multiset(s)[s[i]] >= 2
  {
    assert s == s[..i] + [s[i]] + s[i + 1..j] + [s[j]] + s[j + 1..];
  }

  /** sorted(set(xs)) is sorted, holds each string once, and holds exactly
      the strings of xs. */
  lemma SortedSetSpec(xs: seq<string>)
    ensures Sorted(SortedSet(xs))
    ensures forall i, j :: 0 <= i < j < |SortedSet(xs)| ==> SortedSet(xs)[i] != SortedSet(xs)[j]
    ensures forall x :: x in SortedSet(xs) <==> x in xs
  {
    var u := Unique(xs);
    SortStringsSpec(u);
    var n := SortStrings(u);
    forall x ensures x in n <==> x in u {
      assert x in n <==> x in multiset(n);
      assert x in u <==> x in multiset(u);
    }
    forall i, j | 0 <= i < j < |n| ensures n[i] != n[j] {
      if n[i] == n[j] {
        RepeatCount(n, i, j);
        DistinctCount(u, n[i]);
        assert false;
      }
    }
  }

  /** The --fmt list: ("mat",) when absent, else the formats lower-cased,
      each once, sorted. */
  function Normalized(fmts: Option<seq<string>>): seq<string> {
    if fmts.None? then ["mat"] else SortedSet(Lowered(fmts.value))
  }

  /** The check loop: any format that is not supported ends the run with
      status 1. */
  function Formats(fmts: Option<seq<string>>): (r: Result<seq<string>, Halt>) {
    var n := Normalized(fmts);
    if forall k :: 0 <= k < |n| ==> Lower(n[k]) in Supported then Ok(n) else Err(Exit(1))
  }

  method SelectFormats(fmts: Option<seq<string>>) returns (r: Result<seq<string>, Halt>)
    ensures r == Formats(fmts)
  {
    var n: seq<string>;
    if fmts.None? {
      n := ["mat"];
    } else {
      n := SortStrings(Unique(Lowered(fmts.value)));
    }
    for i := 0 to |n|
      invariant forall k :: 0 <= k < i ==> Lower(n[k]) in Supported
    {
      if Lower(n[i]) !in Supported {
        return Err(Exit(1));
      }
    }
    return Ok(n);
  }

  /** Without --fmt the tool writes MAT alone; with it, the run exits with
      status 1 exactly when some format, lower-cased, is not mat, h5, csv or
      xlsx, and otherwise writes each lower-cased format once, in sorted
      order. */
  lemma FormatsSpec(fmts: Option<seq<string>>)
    ensures fmts.None? ==> Formats(fmts) == Ok(["mat"])
    ensures fmts.Some? ==> (Formats(fmts).Ok? <==> forall k :: 0 <= k < |fmts.value| ==> Lower(fmts.value[k]) in Supported)
    ensures Formats(fmts).Ok? ==> Sorted(Formats(fmts).value)
    ensures Formats(fmts).Ok? ==> forall i, j :: 0 <= i < j < |Formats(fmts).value| ==> Formats(fmts).value[i] != Formats(fmts).value[j]
    ensures Formats(fmts).Ok? ==> forall x :: x in Formats(fmts).value ==> x in Supported
    ensures fmts.Some? && Formats(fmts).Ok? ==>
              forall x :: x in Formats(fmts).value <==> exists k :: 0 <= k < |fmts.value| && x == Lower(fmts.value[k])
  {
    if fmts.None? {
      assert Lower("mat") == "mat";
      assert Sorted(["mat"]) by { LexLeRefl("mat"); }
    } else {
      var fs := fmts.value;
      var n := Normalized(fmts);
      SortedSetSpec(Lowered(fs));
      LoweredSet(fs);
      if forall k :: 0 <= k < |fs| ==> Lower(fs[k]) in Supported {
        forall j | 0 <= j < |n| ensures Lower(n[j]) in Supported {
          assert n[j] in n;
          var k :| 0 <= k < |fs| && n[j] == Lower(fs[k]);
        }
      }
      if forall j :: 0 <= j < |n| ==> Lower(n[j]) in Supported {
        forall k | 0 <= k < |fs| ensures Lower(fs[k]) in Supported {
          assert Lower(fs[k]) in n;
        }
      }
    }
  }

  /** The normalised formats are the lower-cased inputs, and lower-casing
      them again changes nothing. */
  lemma LoweredSet(fs: seq<string>)
    ensures forall x :: x in SortedSet(Lowered(fs)) <==> exists k :: 0 <= k < |fs| && x == Lower(fs[k])
    ensures forall x :: x in SortedSet(Lowered(fs)) ==> Lower(x) == x
  {
    var l := Lowered(fs);
    SortedSetSpec(l);
    forall x ensures x in l <==> exists k :: 0 <= k < |fs| && x == Lower(fs[k]) {
      if x in l {
        var k :| 0 <= k < |l| && l[k] == x;
      }
      if exists k :: 0 <= k < |fs| && x == Lower(fs[k]) {
        var k :| 0 <= k < |fs| && x == Lower(fs[k]);
        assert l[k] == x;
      }
    }
    forall k | 0 <= k < |fs| ensures Lower(Lower(fs[k])) == Lower(fs[k]) {
    }
  }

  // ----- convert_tool: the exclude file -----------------------------------------------

  /** The names an exclude file lists, in file order: a line starting with
      "#" is a comment, any other line is stripped. */
  function Excludes(lines: seq<string>): seq<string>
    decreases |lines|
  {
    ConcatMap(lines, Kept)
  }

  function ConcatMap(xs: seq<string>, f: string -> seq<string>): seq<string>
    decreases |xs|
  {
    if xs == [] then [] else ConcatMap(xs[..|xs| - 1], f) + f(xs[|xs| - 1])
  }

  function Kept(line: string): seq<string> {
    if StartsWith(line, "#") then [] else [Strip(line)]
  }

  method ReadExcludes(lines: seq<string>) returns (names: seq<string>)
    ensures names == Excludes(lines)
  {
    names := [];
    for i := 0 to |lines|
      invariant names == ConcatMap(lines[..i], Kept)
    {
      assert lines[..i + 1][..i] == lines[..i];
      if !StartsWith(lines[i], "#") {
        names := names + [Strip(lines[i])];
      }
    }
    assert lines[..|lines|] == lines;
  }

  /** A name is excluded exactly when some non-comment line strips to it. */
  lemma ExcludesSpec(lines: seq<string>)
    ensures forall x :: x in Excludes(lines) <==> exists k :: 0 <= k < |lines| && !StartsWith(lines[k], "#") && x == Strip(lines[k])
  {
    forall x ensures x in Excludes(lines) <==> exists k :: 0 <= k < |lines| && !StartsWith(lines[k], "#") && x == Strip(lines[k]) {
      ConcatMapIn(lines, Kept, x);
      if x in Excludes(lines) {
        var k :| 0 <= k < |lines| && x in Kept(lines[k]);
      }
      if exists k :: 0 <= k < |lines| && !StartsWith(lines[k], "#") && x == Strip(lines[k]) {
        var k :| 0 <= k < |lines| && !StartsWith(lines[k], "#") && x == Strip(lines[k]);
        assert x in Kept(lines[k]);
      }
    }
  }

  predicate InSome(xs: seq<string>, f: string -> seq<string>, x: string) {
    exists k :: 0 <= k < |xs| && x in f(xs[k])
  }

  lemma InSomeSnoc(xs: seq<string>, f: string -> seq<string>, x: string)
    requires xs != []
    ensures InSome(xs, f, x) <==> InSome(xs[..|xs| - 1], f, x) || x in f(xs[|xs| - 1])
  {
    var init := xs[..|xs| - 1];
    if InSome(xs, f, x) {
      var k :| 0 <= k < |xs| && x in f(xs[k]);
      if k < |init| {
        assert init[k] == xs[k];
      }
    }
    if InSome(init, f, x) {
      var k :| 0 <= k < |init| && x in f(init[k]);
      assert xs[k] == init[k];
    }
  }

  lemma {:induction false} ConcatMapIn(xs: seq<string>, f: string -> seq<string>, x: string)
    ensures x in ConcatMap(xs, f) <==> InSome(xs, f, x)
    decreases |xs|
  {
    if xs != [] {
      ConcatMapIn(xs[..|xs| - 1], f, x);
      InSomeSnoc(xs, f, x);
    }
  }

  /** The comment test looks at the raw line: an indented "#" line is not a
      comment, and it excludes the name that starts with "#". */
  lemma IndentedComment()
    ensures Excludes([" #a"]) == ["#a"]
    ensures Excludes(["#a"]) == []
  {
    assert [" #a"][..0] == [] && ["#a"][..0] == [];
    assert " #a"[..1] == " " && "#a"[..1] == "#";
    assert IsSpace(' ') && !IsSpace('#') && !IsSpace('a');
    assert " #a"[1..] == "#a";
    assert StripLeft(" #a") == "#a";
    assert StripRight("#a") == "#a";
  }

  // ----- convert_tool: the outputs of one input ---------------------------------------

  /** <name up to its last '.'><suffix>: the file name of every output of
      the input at p. */
  function Stem(p: string, suffix: string): string {
    StemBeforeLastDot(BaseName(p)) + suffix
  }

  /** The stem drops the directory and the last extension only. */
  lemma StemOf(dir: string, name: string, ext: string, suffix: string)
    requires NoChar(name, '/') && NoChar(ext, '/') && NoChar(ext, '.')
    ensures Stem(JoinPath(dir, name + "." + ext), suffix) == name + suffix
  {
    var file := name + "." + ext;
    NoCharConcat(name, ".", '/');
    NoCharConcat(name + ".", ext, '/');
    BaseNameJoin(dir, file);
    assert file[|name|] == '.';
    forall q | |name| < q < |file| ensures file[q] != '.' {
      assert file[q] == ext[q - |name| - 1];
    }
    assert LastIndexBefore(file, '.', |file|) == Some(|name|);
    assert file[..|name|] == name;
  }

  /** The out_filepaths loop: each format's target that is absent, or every
      target when overwriting. */
  function Pending(outdir: string, stem: string, fmts: seq<string>, overwrite: bool, d: Disk): seq<string>
    decreases |fmts|
  {
    if fmts == [] then []
    else
      var t := Exporter.Target(outdir, stem, fmts[|fmts| - 1]);
      Pending(outdir, stem, fmts[..|fmts| - 1], overwrite, d) + (if t in d && !overwrite then [] else [t])
  }

  method PendingTargets(outdir: string, stem: string, fmts: seq<string>, overwrite: bool, d: Disk) returns (targets: seq<string>)
    ensures targets == Pending(outdir, stem, fmts, overwrite, d)
  {
    targets := [];
    for i := 0 to |fmts|
      invariant targets == Pending(outdir, stem, fmts[..i], overwrite, d)
    {
      assert fmts[..i + 1][..i] == fmts[..i];
      var t := Exporter.Target(outdir, stem, fmts[i]);
      if !(t in d && !overwrite) {
        targets := targets + [t];
      }
    }
    assert fmts[..|fmts|] == fmts;
  }

  /** A target is pending exactly when it is missing or overwriting is on;
      nothing is pending exactly when every target exists and overwriting is
      off. */
  lemma PendingSpec(outdir: string, stem: string, fmts: seq<string>, overwrite: bool, d: Disk)
    ensures forall t :: t in Pending(outdir, stem, fmts, overwrite, d) <==>
              exists k :: 0 <= k < |fmts| && t == Exporter.Target(outdir, stem, fmts[k]) && (overwrite || t !in d)
    ensures Pending(outdir, stem, fmts, overwrite, d) == [] <==>
              forall k :: 0 <= k < |fmts| ==> !overwrite && Exporter.Target(outdir, stem, fmts[k]) in d
  {
    PendingMembers(outdir, stem, fmts, overwrite, d);
    var P := Pending(outdir, stem, fmts, overwrite, d);
    if P == [] {
      forall k | 0 <= k < |fmts| ensures !overwrite && Exporter.Target(outdir, stem, fmts[k]) in d {
        assert Exporter.Target(outdir, stem, fmts[k]) !in P;
      }
    } else {
      assert P[0] in P;
    }
  }

  lemma {:induction false} PendingMembers(outdir: string, stem: string, fmts: seq<string>, overwrite: bool, d: Disk)
    ensures forall t :: t in Pending(outdir, stem, fmts, overwrite, d) <==>
              exists k :: 0 <= k < |fmts| && t == Exporter.Target(outdir, stem, fmts[k]) && (overwrite || t !in d)
    decreases |fmts|
  {
    if fmts != [] {
      var init := fmts[..|fmts| - 1];
      PendingMembers(outdir, stem, init, overwrite, d);
      var P := Pending(outdir, stem, fmts, overwrite, d);
      forall t ensures t in P <==> exists k :: 0 <= k < |fmts| && t == Exporter.Target(outdir, stem, fmts[k]) && (overwrite || t !in d) {
        if exists k :: 0 <= k < |fmts| && t == Exporter.Target(outdir, stem, fmts[k]) && (overwrite || t !in d) {
          var k :| 0 <= k < |fmts| && t == Exporter.Target(outdir, stem, fmts[k]) && (overwrite || t !in d);
          if k < |init| {
            assert init[k] == fmts[k];
          }
        }
        if t in Pending(outdir, stem, init, overwrite, d) {
          var k :| 0 <= k < |init| && t == Exporter.Target(outdir, stem, init[k]) && (overwrite || t !in d);
          assert fmts[k] == init[k];
        }
      }
    }
  }


  // ----- convert_tool: one input ------------------------------------------------------

  /** What convert_tool did with one input. */
  datatype Handled = Ignored | UpToDate | Unreadable | Converted(stem: string)

  /** The settings every input shares, after the arguments are checked. */
  datatype Settings = Settings(fmts: seq<string>, outdir: string, suffix: string, overwrite: bool,
                               excludes: seq<string>, window: (int, int))

  /** The reader the older copy imports from its own _data.py, which is not
      part of this model: whatever frame it loads is well formed. */
  ghost predicate ReadsWellFormed(read: string -> Result<Aligner.Loaded, Raised>) {
    forall p :: read(p).Ok? && read(p).value.Loaded? ==> WellFormed(read(p).value.frame.table)
  }

  /** export_df under the stem; a writer that raises ends the run, with
      the files written before the raise left on the disk. */
  function Export(copy: Copy, f: Framed, s: Settings, stem: string, d: Disk): (r: (Result<Handled, Halt>, Disk))
    requires WellFormed(f.table)
    ensures r.0.Ok? ==> r.0.value == Converted(stem)
  {
    match Exporter.Exported(copy, f, s.outdir, stem, s.fmts, s.overwrite, d)
    case Err(d2) => (Err(Crash), d2)
    case Ok(d2) => (Ok(Converted(stem)), d2)
  }

  /** The current loop body: an excluded name is skipped, an input whose
      targets all exist (without --overwrite) is not read, a read that finds
      no data is skipped, and the rest is exported. */
  function CurrentStep(p: string, s: Settings, combine: seq<Cell> -> (Cell, Cell), d: Disk): (r: (Result<Handled, Halt>, Disk))
  {
    if BaseName(p) in s.excludes then (Ok(Ignored), d)
    else if Pending(s.outdir, Stem(p, s.suffix), s.fmts, s.overwrite, d) == [] then (Ok(UpToDate), d)
    else if p !in d || !d[p].Hdf? then (Err(Crash), d)
    else match Aligner.ReadRaw(d[p].store, p, Some(s.window), combine)
      case Err(_) => (Err(Crash), d)
      case Ok(l) => if l.NoData? then (Ok(Unreadable), d) else Export(Current, l.frame, s, Stem(p, s.suffix), d)
  }

  /** The older loop body: every input is read first; no exclude list and
      no look at the targets before export_df. */
  function LegacyStep(p: string, s: Settings, read: string -> Result<Aligner.Loaded, Raised>, d: Disk): (r: (Result<Handled, Halt>, Disk))
    requires ReadsWellFormed(read)
  {
    match read(p)
    case Err(_) => (Err(Crash), d)
    case Ok(l) => if l.NoData? then (Ok(Unreadable), d) else Export(Legacy, l.frame, s, Stem(p, s.suffix), d)
  }

  function Step(copy: Copy, p: string, s: Settings, combine: seq<Cell> -> (Cell, Cell),
                read: string -> Result<Aligner.Loaded, Raised>, d: Disk): (r: (Result<Handled, Halt>, Disk))
    requires ReadsWellFormed(read)
  {
    if copy == Current then CurrentStep(p, s, combine, d) else LegacyStep(p, s, read, d)
  }

  method ConvertOne(copy: Copy, p: string, s: Settings, combine: seq<Cell> -> (Cell, Cell),
                    read: string -> Result<Aligner.Loaded, Raised>, disk: Disk) returns (h: Result<Handled, Halt>, d: Disk)
    requires ReadsWellFormed(read)
    ensures (h, d) == Step(copy, p, s, combine, read, disk)
  {
    d := disk;
    var stem := Stem(p, s.suffix);
    var loaded: Result<Aligner.Loaded, Raised>;
    if copy == Current {
      if BaseName(p) in s.excludes {
        return Ok(Ignored), d;
      }
      var targets := PendingTargets(s.outdir, stem, s.fmts, s.overwrite, d);
      if targets == [] {
        return Ok(UpToDate), d;
      }
      if p !in d || !d[p].Hdf? {
        return Err(Crash), d;
      }
      loaded := Aligner.ReadData(d[p].store, p, Some(s.window), combine);
    } else {
      loaded := read(p);
    }
    if loaded.Err? {
      return Err(Crash), d;
    }
    if loaded.value.NoData? {
      return Ok(Unreadable), d;
    }
    var written := Exporter.ExportDf(copy, loaded.value.frame, s.outdir, stem, s.fmts, s.overwrite, d);
    if written.Err? {
      return Err(Crash), written.error;
    }
    return Ok(Converted(stem)), written.value;
  }

  /** The current copy skips exactly the listed names; it reads nothing when
      every target exists and overwriting is off; a converted input has all
      its targets on disk. */
  lemma CurrentStepSpec(p: string, s: Settings, combine: seq<Cell> -> (Cell, Cell), d: Disk)
    ensures CurrentStep(p, s, combine, d).0 == Ok(Ignored) <==> BaseName(p) in s.excludes
    ensures CurrentStep(p, s, combine, d).0 == Ok(UpToDate) <==>
              BaseName(p) !in s.excludes &&
              forall k :: 0 <= k < |s.fmts| ==> !s.overwrite && Exporter.Target(s.outdir, Stem(p, s.suffix), s.fmts[k]) in d
  {
    var stem := Stem(p, s.suffix);
    PendingSpec(s.outdir, stem, s.fmts, s.overwrite, d);
    var r := CurrentStep(p, s, combine, d).0;
    if BaseName(p) !in s.excludes && Pending(s.outdir, stem, s.fmts, s.overwrite, d) != [] {
      assert r.Err? || r.value.Unreadable? || r.value.Converted?;
    }
  }

  /** A converted input is reported under its stem, and every one of its
      targets then exists. */
  lemma CurrentStepTargets(p: string, s: Settings, combine: seq<Cell> -> (Cell, Cell), d: Disk)
    ensures CurrentStep(p, s, combine, d).0.Ok? && CurrentStep(p, s, combine, d).0.value.Converted? ==>
              CurrentStep(p, s, combine, d).0.value.stem == Stem(p, s.suffix) &&
              forall k :: 0 <= k < |s.fmts| ==> Exporter.Target(s.outdir, Stem(p, s.suffix), s.fmts[k]) in CurrentStep(p, s, combine, d).1
  {
    var stem := Stem(p, s.suffix);
    var r := CurrentStep(p, s, combine, d);
    if r.0.Ok? && r.0.value.Converted? {
      var f := Aligner.ReadRaw(d[p].store, p, Some(s.window), combine).value.frame;
      Exporter.ExportedTargets(Current, f, s.outdir, stem, s.fmts, s.overwrite, d);
    }
  }

  /** The older copy reads every input, whatever its targets: a read that
      raises ends the run even when all the outputs exist. */
  lemma LegacyStepSpec(p: string, s: Settings, read: string -> Result<Aligner.Loaded, Raised>, d: Disk)
    requires ReadsWellFormed(read)
    ensures read(p).Err? ==> LegacyStep(p, s, read, d).0 == Err(Crash)
    ensures LegacyStep(p, s, read, d).0 != Ok(Ignored) && LegacyStep(p, s, read, d).0 != Ok(UpToDate)
    ensures LegacyStep(p, s, read, d).0.Ok? && LegacyStep(p, s, read, d).0.value.Converted? ==>
              forall k :: 0 <= k < |s.fmts| ==> Exporter.Target(s.outdir, Stem(p, s.suffix), s.fmts[k]) in LegacyStep(p, s, read, d).1
  {
    var r := LegacyStep(p, s, read, d);
    if r.0.Ok? && r.0.value.Converted? {
      Exporter.ExportedTargets(Legacy, read(p).value.frame, s.outdir, Stem(p, s.suffix), s.fmts, s.overwrite, d);
    }
  }

  // ----- convert_tool: the run ------------------------------------------------------

  /** The loop over the inputs; the first input that ends the run ends it. */
  function ConvertAll(copy: Copy, paths: seq<string>, s: Settings, combine: seq<Cell> -> (Cell, Cell),
                      read: string -> Result<Aligner.Loaded, Raised>, d: Disk): (r: (Result<seq<Handled>, Halt>, Disk))
    requires ReadsWellFormed(read)
    ensures r.0.Ok? ==> |r.0.value| == |paths|
    decreases |paths|
  {
    if paths == [] then (Ok([]), d)
    else
      var (res, d1) := ConvertAll(copy, paths[..|paths| - 1], s, combine, read, d);
      if res.Err? then (res, d1)
      else
        var (h, d2) := Step(copy, paths[|paths| - 1], s, combine, read, d1);
        if h.Err? then (Err(h.error), d2) else (Ok(res.value + [h.value]), d2)
  }

  /** The arguments of convert_tool. */
  datatype ConvertArgs = ConvertArgs(paths: seq<string>, fmts: Option<seq<string>>, t1: int, t2: int,
                                     outdir: Option<string>, suffix: string, overwrite: bool,
                                     excludeLines: Option<seq<string>>)

  /** The defaults: --t1 -800, --t2 400, --suffix "_opt". */
  function DefaultArgs(paths: seq<string>, outdir: Option<string>): ConvertArgs {
    ConvertArgs(paths, None, -800, 400, outdir, "_opt", false, None)
  }

  /** With the defaults and an output directory, convert_tool exports
      every input as MAT, named with the suffix "_opt", cut to the window
      from 800 µs before the trip to 400 µs after it, overwriting nothing and
      excluding nothing. */
  lemma DefaultRun(copy: Copy, paths: seq<string>, outdir: string, combine: seq<Cell> -> (Cell, Cell),
                   read: string -> Result<Aligner.Loaded, Raised>, d: Disk)
    requires ReadsWellFormed(read) && paths != []
    ensures ConvertToolSpec(copy, DefaultArgs(paths, Some(outdir)), combine, read, d)
            == ConvertAll(copy, SortedSet(paths), Settings(["mat"], outdir, "_opt", false, [], (-800, 400)), combine, read, d)
  {
    FormatsSpec(None);
  }

  /** convert_tool: argparse wants at least one input (status 2); no
      --outdir is status 1, and so is an unsupported format; the current
      copy then reads the exclude file; the inputs are taken each once, in
      sorted order. The older copy has no exclude file. */
  function ConvertToolSpec(copy: Copy, a: ConvertArgs, combine: seq<Cell> -> (Cell, Cell),
                           read: string -> Result<Aligner.Loaded, Raised>, d: Disk): (r: (Result<seq<Handled>, Halt>, Disk))
    requires ReadsWellFormed(read)
  {
    if a.paths == [] then (Err(Exit(2)), d)
    else if a.outdir.None? then (Err(Exit(1)), d)
    else match Formats(a.fmts)
      case Err(h) => (Err(h), d)
      case Ok(fmts) =>
        var excludes := if copy == Current && a.excludeLines.Some? then Excludes(a.excludeLines.value) else [];
        var s := Settings(fmts, a.outdir.value, a.suffix, a.overwrite, excludes, (a.t1, a.t2));
        ConvertAll(copy, SortedSet(a.paths), s, combine, read, d)
  }

  method ConvertTool(copy: Copy, a: ConvertArgs, combine: seq<Cell> -> (Cell, Cell),
                     read: string -> Result<Aligner.Loaded, Raised>, disk: Disk) returns (r: Result<seq<Handled>, Halt>, d: Disk)
    requires ReadsWellFormed(read)
    ensures (r, d) == ConvertToolSpec(copy, a, combine, read, disk)
  {
    if a.paths == [] {
      return Err(Exit(2)), disk;
    }
    if a.outdir.None? {
      return Err(Exit(1)), disk;
    }
    var fmts := SelectFormats(a.fmts);
    if fmts.Err? {
      return Err(fmts.error), disk;
    }
    var excludes: seq<string> := [];
    if copy == Current && a.excludeLines.Some? {
      excludes := ReadExcludes(a.excludeLines.value);
    }
    var s := Settings(fmts.value, a.outdir.value, a.suffix, a.overwrite, excludes, (a.t1, a.t2));
    r, d := ConvertInputs(copy, SortStrings(Unique(a.paths)), s, combine, read, disk);
  }

  /** The for loop over the sorted inputs. */
  method ConvertInputs(copy: Copy, paths: seq<string>, s: Settings, combine: seq<Cell> -> (Cell, Cell),
                       read: string -> Result<Aligner.Loaded, Raised>, disk: Disk) returns (r: Result<seq<Handled>, Halt>, d: Disk)
    requires ReadsWellFormed(read)
    ensures (r, d) == ConvertAll(copy, paths, s, combine, read, disk)
  {
    var outs: seq<Handled> := [];
    d := disk;
    for i := 0 to |paths|
      invariant ConvertAll(copy, paths[..i], s, combine, read, disk) == (Ok(outs), d)
    {
      ConvertAllStep(copy, paths, s, combine, read, disk, i);
      var h, written := ConvertOne(copy, paths[i], s, combine, read, d);
      d := written;
      if h.Err? {
        ConvertAllStops(copy, paths, s, combine, read, disk, i + 1);
        return Err(h.error), d;
      }
      outs := outs + [h.value];
    }
    assert paths[..|paths|] == paths;
    r := Ok(outs);
  }

  /** Once an input has ended the run, the later inputs change nothing. */
  /** One more input, once the earlier ones are handled. */
  lemma ConvertAllStep(copy: Copy, paths: seq<string>, s: Settings, combine: seq<Cell> -> (Cell, Cell),
                       read: string -> Result<Aligner.Loaded, Raised>, d: Disk, i: nat)
    requires ReadsWellFormed(read) && i < |paths|
    ensures var prev := ConvertAll(copy, paths[..i], s, combine, read, d);
            var next := Step(copy, paths[i], s, combine, read, prev.1);
            prev.0.Ok? ==>
              ConvertAll(copy, paths[..i + 1], s, combine, read, d)
              == if next.0.Err? then (Err(next.0.error), next.1) else (Ok(prev.0.value + [next.0.value]), next.1)
  {
    assert paths[..i + 1][..i] == paths[..i];
  }

  lemma {:induction false} ConvertAllStops(copy: Copy, paths: seq<string>, s: Settings, combine: seq<Cell> -> (Cell, Cell),
                                           read: string -> Result<Aligner.Loaded, Raised>, d: Disk, k: nat)
    requires ReadsWellFormed(read)
    requires k <= |paths| && ConvertAll(copy, paths[..k], s, combine, read, d).0.Err?
    ensures ConvertAll(copy, paths, s, combine, read, d) == ConvertAll(copy, paths[..k], s, combine, read, d)
    decreases |paths| - k
  {
    if k < |paths| {
      var prefix := paths[..k + 1];
      assert prefix[..|prefix| - 1] == paths[..k];
      assert ConvertAll(copy, prefix, s, combine, read, d) == ConvertAll(copy, paths[..k], s, combine, read, d);
      ConvertAllStops(copy, paths, s, combine, read, d, k + 1);
    } else {
      assert paths[..k] == paths;
    }
  }

  /** The paths an input can be converted to. */
  ghost predicate IsTarget(q: string, s: Settings) {
    exists stem: string, k :: 0 <= k < |s.fmts| && q == Exporter.Target(s.outdir, stem, s.fmts[k])
  }

  /** A conversion touches no path but the targets in the out directory,
      even when a writer raises. */
  lemma StepOthers(copy: Copy, p: string, s: Settings, combine: seq<Cell> -> (Cell, Cell),
                   read: string -> Result<Aligner.Loaded, Raised>, d: Disk, q: string)
    requires ReadsWellFormed(read) && !IsTarget(q, s)
    ensures var d2 := Step(copy, p, s, combine, read, d).1;
            (q in d2 <==> q in d) && (q in d ==> d2[q] == d[q])
  {
    var stem := Stem(p, s.suffix);
    var f := Exporting(copy, p, s, combine, read, d);
    if f.Some? {
      assert forall k :: 0 <= k < |s.fmts| ==> q != Exporter.Target(s.outdir, stem, s.fmts[k]);
      Exporter.ExportedOthers(copy, f.value, s.outdir, stem, s.fmts, s.overwrite, d, q);
    }
  }

  /** Without --overwrite, a conversion leaves every existing file as it
      was, even when a writer raises. */
  lemma StepKeeps(copy: Copy, p: string, s: Settings, combine: seq<Cell> -> (Cell, Cell),
                  read: string -> Result<Aligner.Loaded, Raised>, d: Disk, q: string)
    requires ReadsWellFormed(read) && !s.overwrite && q in d
    ensures var d2 := Step(copy, p, s, combine, read, d).1;
            q in d2 && d2[q] == d[q]
  {
    var f := Exporting(copy, p, s, combine, read, d);
    if f.Some? {
      Exporter.ExportedKeeps(copy, f.value, s.outdir, Stem(p, s.suffix), s.fmts, d, q);
    }
  }

  /** The frame a step hands to export_df, if it gets that far; a step
      that does not get there leaves the disk as it was. */
  lemma Exporting(copy: Copy, p: string, s: Settings, combine: seq<Cell> -> (Cell, Cell),
                  read: string -> Result<Aligner.Loaded, Raised>, d: Disk) returns (f: Option<Framed>)
    requires ReadsWellFormed(read)
    ensures f.Some? ==> WellFormed(f.value.table)
    ensures f.Some? ==> Step(copy, p, s, combine, read, d) == Export(copy, f.value, s, Stem(p, s.suffix), d)
    ensures f.None? ==> Step(copy, p, s, combine, read, d).1 == d
  {
    f := None;
    if copy == Current {
      if BaseName(p) !in s.excludes && Pending(s.outdir, Stem(p, s.suffix), s.fmts, s.overwrite, d) != []
         && p in d && d[p].Hdf? {
        var l := Aligner.ReadRaw(d[p].store, p, Some(s.window), combine);
        if l.Ok? && l.value.Loaded? {
          f := Some(l.value.frame);
        }
      }
    } else if read(p).Ok? && read(p).value.Loaded? {
      f := Some(read(p).value.frame);
    }
  }

  /** A whole run writes only into the out directory's targets, and without
      --overwrite it rewrites nothing that existed. */
  lemma {:induction false} ConvertAllFrame(copy: Copy, paths: seq<string>, s: Settings, combine: seq<Cell> -> (Cell, Cell),
                                           read: string -> Result<Aligner.Loaded, Raised>, d: Disk, q: string)
    requires ReadsWellFormed(read)
    ensures var d2 := ConvertAll(copy, paths, s, combine, read, d).1;
            !IsTarget(q, s) ==> (q in d2 <==> q in d) && (q in d ==> d2[q] == d[q])
    ensures var d2 := ConvertAll(copy, paths, s, combine, read, d).1;
            !s.overwrite && q in d ==> q in d2 && d2[q] == d[q]
    decreases |paths|
  {
    if paths != [] {
      var init := paths[..|paths| - 1];
      ConvertAllFrame(copy, init, s, combine, read, d, q);
      var (res, d1) := ConvertAll(copy, init, s, combine, read, d);
      if res.Ok? {
        if !IsTarget(q, s) {
          StepOthers(copy, paths[|paths| - 1], s, combine, read, d1, q);
        }
        if !s.overwrite && q in d {
          StepKeeps(copy, paths[|paths| - 1], s, combine, read, d1, q);
        }
      }
    }
  }

  // ----- plot_tool: the figure grid ---------------------------------------------------

  /** n_figs: the files shown in the interactive window, at most
      --nmax-figures of them. */
  function FigureCount(files: nat, maxFigs: int): (r: int)
    ensures r <= files && r <= maxFigs
    ensures r == files || r == maxFigs
  {
    if files > maxFigs then maxFigs else files
  }

  /** math.floor(math.sqrt(n)), on exact integers. */
  function ISqrt(n: nat): (r: nat)
    ensures r * r <= n < (r + 1) * (r + 1)
  {
    if n == 0 then 0
    else if n < 4 then 1
    else
      var h := 2 * ISqrt(n / 4);
      SqrtStep(n, h / 2);
      if (h + 1) * (h + 1) <= n then h + 1 else h
  }

  /** Doubling the root of n / 4 gives the root of n or one less. */
  lemma SqrtStep(n: nat, q: nat)
    requires q * q <= n / 4 < (q + 1) * (q + 1)
    ensures (2 * q) * (2 * q) <= n < (2 * q + 2) * (2 * q + 2)
  {
    assert (2 * q) * (2 * q) == 4 * (q * q);
    assert (2 * q + 2) * (2 * q + 2) == 4 * ((q + 1) * (q + 1));
  }

  /** s.split(c): the pieces between the occurrences of c; at least one. */
  function Split(s: string, c: char): (r: seq<string>)
    ensures |r| >= 1
    decreases |s|
  {
    if s == [] then [""]
    else
      var rest := Split(s[1..], c);
      if s[0] == c then [""] + rest else [[s[0]] + rest[0]] + rest[1..]
  }

  /** c.join(pieces) */
  function Join(pieces: seq<string>, c: char): string
    decreases |pieces|
  {
    if pieces == [] then ""
    else if |pieces| == 1 then pieces[0]
    else pieces[0] + [c] + Join(pieces[1..], c)
  }

  /** The pieces hold no separator, and joining them back gives the text. */
  lemma {:induction false} SplitJoin(s: string, c: char)
    ensures Join(Split(s, c), c) == s
    ensures forall k :: 0 <= k < |Split(s, c)| ==> NoChar(Split(s, c)[k], c)
    decreases |s|
  {
    if s != [] {
      SplitJoin(s[1..], c);
      var rest := Split(s[1..], c);
      var r := Split(s, c);
      if s[0] == c {
        assert s == [c] + s[1..];
        assert r[1..] == rest;
      } else {
        assert s == [s[0]] + s[1..];
        assert r[0] == [s[0]] + rest[0];
        forall k | 0 <= k < |r| ensures NoChar(r[k], c) {
          if k > 0 {
            assert r[k] == rest[k];
          }
        }
        if |rest| > 1 {
          assert r[1..] == rest[1..];
        }
      }
    }
  }

  lemma {:induction false} SplitNone(s: string, c: char)
    requires NoChar(s, c)
    ensures Split(s, c) == [s]
    decreases |s|
  {
    if s != [] {
      SplitNone(s[1..], c);
      assert s == [s[0]] + s[1..];
    }
  }

  lemma {:induction false} SplitAround(a: string, b: string, c: char)
    requires NoChar(a, c) && NoChar(b, c)
    ensures Split(a + [c] + b, c) == [a, b]
    decreases |a|
  {
    if a == [] {
      SplitNone(b, c);
      assert ([c] + b)[1..] == b;
    } else {
      SplitAround(a[1..], b, c);
      assert (a + [c] + b)[1..] == a[1..] + [c] + b;
      assert a == [a[0]] + a[1..];
    }
  }

  /** The layout: --grid "<nrow>x<ncol>" when given (each piece through
      int(), exactly two pieces), else floor(sqrt(n)) rows and
      ceil(n / nrow) columns. Without --grid, n = 0 divides by zero and a
      negative n has no square root. */
  function Grid(n: int, grid: Option<string>): (r: Result<(int, int), Raised>)
  {
    if grid.Some? then
      var pieces := Split(grid.value, 'x');
      if exists k :: 0 <= k < |pieces| && PyInt(pieces[k]).None? then Err(Raised)
      else if |pieces| != 2 then Err(Raised)
      else Ok((PyInt(pieces[0]).value, PyInt(pieces[1]).value))
    else if n <= 0 then Err(Raised)
    else
      var nrow := ISqrt(n);
      Ok((nrow, (n + nrow - 1) / nrow))
  }

  /** Without --grid, any n >= 1 figures fit: nrow * ncol >= n, one column
      less would not hold them, and the grid is square or has one or two
      more columns than rows. No n <= 0 has a layout. */
  lemma GridCovers(n: int)
    ensures n <= 0 ==> Grid(n, None).Err?
    ensures n >= 1 ==> Grid(n, None).Ok?
    ensures n >= 1 ==> var (nrow, ncol) := Grid(n, None).value;
              1 <= nrow <= ncol <= nrow + 2 && nrow * ncol >= n && (ncol - 1) * nrow < n
  {
    if n >= 1 {
      CeilBounds(n, ISqrt(n));
    }
  }

  lemma CeilBounds(n: nat, r: nat)
    requires 1 <= r && r * r <= n < (r + 1) * (r + 1)
    ensures var c := (n + r - 1) / r;
            r <= c <= r + 2 && r * c >= n && (c - 1) * r < n
  {
    var c := (n + r - 1) / r;
    var m := (n + r - 1) % r;
    assert n + r - 1 == c * r + m && 0 <= m < r;
    assert (c - 1) * r == c * r - r;
    assert (r + 1) * (r + 1) == r * r + 2 * r + 1;
    if c > r + 2 {
      assert (r + 3) * r == r * r + 3 * r;
      MulMono(r + 3, c, r);
    }
    if c < r {
      assert (c + 1) * r == c * r + r;
      MulMono(c + 1, r, r);
    }
  }

  lemma MulMono(a: int, b: int, k: nat)
    requires a <= b
    ensures a * k <= b * k
  {
    assert b * k - a * k == (b - a) * k;
  }

  /** A grid written as "<nrow>x<ncol>" is read back as that layout. */
  lemma GridText(n: int, nrow: nat, ncol: nat)
    ensures Grid(n, Some(Str(nrow) + "x" + Str(ncol))) == Ok((nrow, ncol))
  {
    var a := Str(nrow);
    var b := Str(ncol);
    assert NoChar(a, 'x') && NoChar(b, 'x');
    SplitAround(a, b, 'x');
    assert a + "x" + b == a + ['x'] + b;
    StrSpec(nrow);
    StrSpec(ncol);
    PyIntDigits(a);
    PyIntDigits(b);
  }
}
