/** read_data in wfdata/src/wave/_data.py: the frames of a merged store put
    side by side, the permit channel that marks the trip chosen, the rows
    windowed around the trip row, and the time axis re-expressed in µs from
    the trip; and the same read from an exported (optimised) store. */
module Aligner {
  import opened Wrappers
  import opened Text
  import opened Tables
  import opened Schema
  import Reader
  import Deriver

  /** A consolidated read: the frame (with its BCM full-scale factors, if
      any) and the trip time in µs; or the (None, "") of a read that found
      nothing to align on. */
  datatype Loaded = Loaded(frame: Framed, t0: int) | NoData

  /** The permit candidates, in the order they are tried; BCM5 is listed
      twice and BCM6 not at all. */
  const Candidates: seq<string> := ["BCM4_NPERMIT", "BCM5_NPERMIT", "BCM5_NPERMIT"]

  // ----- choosing the permit channel -------------------------------------------

  predicate Live(t: Table, c: string) {
    c in t.cols && Sum(t.cols[c]) != 0.0
  }

  /** The candidate the loop leaves in npermit_col: it has no break, so the
      last present candidate whose sum is not zero. */
  function LastLive(t: Table, cs: seq<string>): (r: Option<string>)
    ensures r.Some? ==> r.value in cs && Live(t, r.value)
    ensures r.None? <==> forall k :: 0 <= k < |cs| ==> !Live(t, cs[k])
    decreases |cs|
  {
    if cs == [] then None
    else if Live(t, cs[|cs| - 1]) then Some(cs[|cs| - 1])
    else LastLive(t, cs[..|cs| - 1])
  }

  /** The loop over the candidates that updates npermit_col. */
  method ChoosePermit(t: Table) returns (chosen: Option<string>)
    ensures chosen == LastLive(t, Candidates)
  {
    chosen := None;
    for i := 0 to |Candidates|
      invariant chosen == LastLive(t, Candidates[..i])
    {
      assert Candidates[..i + 1][..i] == Candidates[..i];
      var c := Candidates[i];
      if c !in t.cols {
        continue;
      }
      if Sum(t.cols[c]) == 0.0 {
        continue;
      }
      chosen := Some(c);
    }
    assert Candidates[..|Candidates|] == Candidates;
  }

  /** Which permit channel is taken: BCM5 when its sum is not zero, else
      BCM4 when its sum is not zero, else none; BCM6 never. */
  lemma PermitChoice(t: Table)
    ensures LastLive(t, Candidates) ==
              if Live(t, "BCM5_NPERMIT") then Some("BCM5_NPERMIT")
              else if Live(t, "BCM4_NPERMIT") then Some("BCM4_NPERMIT")
              else None
    ensures LastLive(t, Candidates) != Some("BCM6_NPERMIT")
  {
    assert Candidates[..2] == ["BCM4_NPERMIT", "BCM5_NPERMIT"];
    assert Candidates[..2][..1] == ["BCM4_NPERMIT"];
  }

  /** The other present candidates popped, one after the other. */
  function PopOthers(t: Table, cs: seq<string>, keep: string): (r: Table)
    requires WellFormed(t)
    ensures WellFormed(r) && r.index == t.index
    decreases |cs|
  {
    if cs == [] then t
    else
      var acc := PopOthers(t, cs[..|cs| - 1], keep);
      var c := cs[|cs| - 1];
      if c in acc.cols && c != keep then WithoutColumn(acc, c) else acc
  }

  /** The second candidate loop, popping every present candidate but the
      chosen one. */
  method PopPermits(t: Table, keep: string) returns (r: Table)
    requires WellFormed(t)
    ensures r == PopOthers(t, Candidates, keep)
  {
    r := t;
    for i := 0 to |Candidates|
      invariant r == PopOthers(t, Candidates[..i], keep)
    {
      assert Candidates[..i + 1][..i] == Candidates[..i];
      var c := Candidates[i];
      if c in r.cols && c != keep {
        r := WithoutColumn(r, c);
      }
    }
    assert Candidates[..|Candidates|] == Candidates;
  }

  /** Popping removes exactly the candidates other than the kept one and
      leaves every other column, cells and all. */
  lemma {:induction false} PopOthersColumns(t: Table, cs: seq<string>, keep: string)
    requires WellFormed(t)
    ensures var r := PopOthers(t, cs, keep);
            && (forall n :: n in r.cols <==> n in t.cols && (n == keep || n !in cs))
            && (forall n :: n in r.cols ==> r.cols[n] == t.cols[n])
    decreases |cs|
  {
    if cs != [] {
      PopOthersColumns(t, cs[..|cs| - 1], keep);
      assert forall n :: n in cs <==> n in cs[..|cs| - 1] || n == cs[|cs| - 1];
    }
  }

  /** A column whose sum is not zero has a row. */
  lemma {:induction false} SumNonzeroRows(c: Column)
    requires Sum(c) != 0.0
    ensures |c| > 0
  {
  }

  // ----- the trip row and the window ---------------------------------------------------

  /** iloc[t0_idx + a : t0_idx + b], or every row when there is no window. */
  function Window(t: Table, trip: nat, w: Option<(int, int)>): (r: Table)
    requires WellFormed(t)
    ensures WellFormed(r) && r.names == t.names
  {
    match w
    case None => t
    case Some((a, b)) => ILoc(t, trip + a, trip + b)
  }

  /** (df.index - t0_val) / 1 µs, row by row. */
  function Offsets(index: seq<int>, t0: int): (r: Column)
    ensures |r| == |index|
    ensures forall i :: 0 <= i < |index| ==> r[i] == Num((index[i] - t0) as real)
  {
    seq(|index|, i requires 0 <= i < |index| => Num((index[i] - t0) as real))
  }

  /** The t_us column added (or replaced) on the windowed rows. */
  function WithOffsets(t: Table, t0: int): (r: Table)
    requires WellFormed(t)
    ensures WellFormed(r) && r.index == t.index
    ensures "t_us" in r.cols && r.cols["t_us"] == Offsets(t.index, t0)
    ensures forall n :: n in r.cols <==> n in t.cols || n == "t_us"
    ensures forall n :: n in t.cols && n != "t_us" ==> r.cols[n] == t.cols[n]
  {
    WithColumn(t, "t_us", Offsets(t.index, t0))
  }

  /** A window inside the frame that reaches back a rows before the trip
      keeps the trip row at position -a, where t_us is 0, and on a 1 µs
      index t_us rises by one per row. */
  lemma TripRowZero(t: Table, trip: nat, a: int, b: int)
    requires WellFormed(t) && trip < |t.index|
    requires a <= 0 < b && 0 <= trip + a && trip + b <= |t.index|
    ensures var r := WithOffsets(Window(t, trip, Some((a, b))), t.index[trip]);
            && |r.index| == b - a
            && r.index[-a] == t.index[trip]
            && r.cols["t_us"][-a] == Num(0.0)
            && ((forall i :: 0 <= i < |t.index| ==> t.index[i] == t.index[0] + i) ==>
                  forall i :: 0 <= i < b - a ==> r.cols["t_us"][i] == Num((i + a) as real))
  {
    var w := Window(t, trip, Some((a, b)));
    assert w == Rows(t, trip + a, trip + b);
    assert w.index == t.index[trip + a..trip + b];
  }

  /** A trip fewer than -a rows from the start makes the start negative, so
      it counts from the end; when that lands at or after the end the
      window is empty. */
  lemma TripNearStartEmpty(t: Table, trip: nat, a: int, b: int)
    requires WellFormed(t)
    requires 0 <= b && trip + a < 0 && trip + a + |t.index| >= 0 && trip + b <= trip + a + |t.index|
    ensures |Window(t, trip, Some((a, b))).index| == 0
  {
    var n := |t.index|;
    var lo, hi := SliceBound(trip + a, n), SliceBound(trip + b, n);
    assert lo == trip + a + n && hi <= lo;
    assert Window(t, trip, Some((a, b))) == Rows(t, lo, lo);
  }

  // ----- the raw path ---------------------------------------------------------------

  function TablesOf(fs: seq<Framed>): (r: seq<Table>)
    ensures |r| == |fs| && forall k :: 0 <= k < |fs| ==> r[k] == fs[k].table
  {
    seq(|fs|, k requires 0 <= k < |fs| => fs[k].table)
  }

  /** The full-scale factors of the first frame that carries any. */
  function FirstScales(fs: seq<Framed>): (r: Option<Scales>)
    ensures r.Some? ==> exists k :: 0 <= k < |fs| && fs[k].fscale == r
    ensures r.None? <==> forall k :: 0 <= k < |fs| ==> fs[k].fscale.None?
  {
    if fs == [] then None
    else if fs[0].fscale.Some? then fs[0].fscale
    else
      var r := FirstScales(fs[1..]);
      assert forall k :: 0 < k < |fs| ==> fs[k] == fs[1..][k - 1];
      r
  }

  /** The search for the first frame with an 'fscale' attribute. */
  method FindScales(fs: seq<Framed>) returns (r: Option<Scales>)
    ensures r == FirstScales(fs)
  {
    r := None;
    var i := 0;
    while i < |fs|
      invariant 0 <= i <= |fs|
      invariant FirstScales(fs) == FirstScales(fs[i..])
    {
      assert fs[i..][1..] == fs[i + 1..];
      if fs[i].fscale.Some? {
        r := fs[i].fscale;
        return;
      }
      i := i + 1;
    }
  }

  predicate AnyCandidate(t: Table) {
    exists k :: 0 <= k < |Candidates| && Candidates[k] in t.cols
  }

  /** The presence check, then the candidate loop; the check only returns
      early where the loop would have found nothing. */
  function Chosen(t: Table): (r: Option<string>)
    ensures r == LastLive(t, Candidates)
  {
    if !AnyCandidate(t) then None else LastLive(t, Candidates)
  }

  /** A column that survives the derivations unchanged: not dropped, not a
      phasor column, not a difference. */
  predicate Untouched(n: string, names: seq<string>) {
    !Deriver.Dropped(n) && n !in Deriver.PhasorNames(names) && !Deriver.IsDiffName(n)
  }

  /** The phasor columns, the drop of the per-electrode columns, and the
      differences when the first frame with factors has them. */
  function Derive(df: Table, names: seq<string>, frames: seq<Framed>, combine: seq<Cell> -> (Cell, Cell)): (r: Result<Framed, Raised>)
    requires WellFormed(df)
    ensures r.Ok? ==> WellFormed(r.value.table) && r.value.table.index == df.index
    ensures r.Ok? ==> r.value.fscale == FirstScales(frames)
    ensures r.Ok? ==> forall n :: n in df.cols && Untouched(n, names) ==>
              n in r.value.table.cols && r.value.table.cols[n] == df.cols[n]
    ensures r.Ok? ==> forall n :: n in r.value.table.cols ==>
              n in df.cols || n in Deriver.PhasorNames(names) || Deriver.IsDiffName(n)
  {
    match Deriver.BpmComplex(df, names, combine)
    case Err(e) => Err(e)
    case Ok(cplx) =>
      var kept := Deriver.DropElectrodes(cplx);
      match FirstScales(frames)
      case None => Ok(Framed(kept, None))
      case Some(m) =>
        match Deriver.Dbcm(kept, m)
        case Err(e) => Err(e)
        case Ok(d) => Ok(Framed(d, Some(m)))
  }

  /** From the chosen permit on: the trip row, the other candidates popped,
      the window, t_us, and the derived columns. */
  function Align(all: Table, p: string, names: seq<string>, frames: seq<Framed>, w: Option<(int, int)>,
                 combine: seq<Cell> -> (Cell, Cell)): (r: Result<Loaded, Raised>)
    requires WellFormed(all) && Live(all, p) && p in Candidates
    ensures FirstEqual(all.cols[p], 1.0) < |all.index|
    ensures r.Ok? ==> r.value.Loaded? && WellFormed(r.value.frame.table)
    ensures r.Ok? ==> r.value.t0 == all.index[FirstEqual(all.cols[p], 1.0)]
    ensures r.Ok? ==> var out := r.value.frame.table;
              && "t_us" in out.cols && p in out.cols
              && forall k :: 0 <= k < |Candidates| && Candidates[k] != p ==> Candidates[k] !in out.cols
  {
    SumNonzeroRows(all.cols[p]);
    var trip := FirstEqual(all.cols[p], 1.0);
    var df := Prepared(all, p, w);
    CandidatesUntouched(names);
    match Derive(df, names, frames, combine)
    case Err(e) => Err(e)
    case Ok(f) => Ok(Loaded(f, all.index[trip]))
  }

  /** The other candidates popped, the rows windowed around the trip row and
      t_us added. */
  function Prepared(all: Table, p: string, w: Option<(int, int)>): (r: Table)
    requires WellFormed(all) && Live(all, p) && p in Candidates
    ensures WellFormed(r) && "t_us" in r.cols && p in r.cols
    ensures forall k :: 0 <= k < |Candidates| && Candidates[k] != p ==> Candidates[k] !in r.cols
  {
    SumNonzeroRows(all.cols[p]);
    var trip := FirstEqual(all.cols[p], 1.0);
    PopOthersColumns(all, Candidates, p);
    var popped := PopOthers(all, Candidates, p);
    var win := Window(popped, trip, w);
    assert forall n :: n in win.cols <==> n in popped.cols;
    var r := WithOffsets(win, all.index[trip]);
    assert forall k :: 0 <= k < |Candidates| && Candidates[k] != p ==> Candidates[k] !in popped.cols;
    assert forall k :: 0 <= k < |Candidates| ==> Candidates[k] != "t_us";
    r
  }

  /** Every phasor column name ends in 'G' or 'A'. */
  lemma {:induction false} PhasorNamesEnd(names: seq<string>)
    ensures forall n :: n in Deriver.PhasorNames(names) ==> |n| > 0 && (n[|n| - 1] == 'G' || n[|n| - 1] == 'A')
    decreases |names|
  {
    if names != [] {
      PhasorNamesEnd(names[1..]);
      var m, h := names[0] + "-MAG", names[0] + "-PHA";
      assert m[|m| - 1] == 'G' && h[|h| - 1] == 'A';
      assert Deriver.PhasorNames(names) == [m, h] + Deriver.PhasorNames(names[1..]);
    }
  }

  /** A name whose last character is neither a line break nor a digit 1 to
      4 is not dropped. */
  lemma KeptByEnd(s: string)
    requires |s| > 0 && s[|s| - 1] != '\n' && !Deriver.LowDigit(s[|s| - 1])
    ensures !Deriver.Dropped(s)
  {
    assert Deriver.EndAt(s) == Some(|s| - 1);
  }

  /** The differences are all named "DBCM_...". */
  lemma NotDiffName(s: string)
    requires |s| > 0 && s[0] != 'D'
    ensures !Deriver.IsDiffName(s)
  {
    forall j | 0 <= j < |Deriver.Diffs| ensures Deriver.Diffs[j].out != s {
      assert Deriver.Diffs[j].out[0] == 'D';
    }
  }

  /** A name ending in 'T' or 's' that does not start with 'D' is neither
      dropped nor derived. */
  lemma UntouchedName(s: string, names: seq<string>)
    requires |s| > 0 && s[0] != 'D' && (s[|s| - 1] == 'T' || s[|s| - 1] == 's')
    ensures Untouched(s, names)
  {
    KeptByEnd(s);
    NotDiffName(s);
    PhasorNamesEnd(names);
  }

  /** t_us and the permit candidates are neither dropped nor derived. */
  lemma CandidatesUntouched(names: seq<string>)
    ensures Untouched("t_us", names)
    ensures forall k :: 0 <= k < |Candidates| ==> Untouched(Candidates[k], names)
  {
    UntouchedName("t_us", names);
    UntouchedName("BCM4_NPERMIT", names);
    UntouchedName("BCM5_NPERMIT", names);
  }

  /** What read_data does with a schema reader's result: None when the
      reader failed, when no candidate is there, or when every candidate
      present sums to zero; a raise when the frames cannot be put side by
      side, when a BPM lacks one of its columns, or when factors are missing. */
  function Consolidate(rd: Reader.Read, w: Option<(int, int)>, combine: seq<Cell> -> (Cell, Cell)): (r: Result<Loaded, Raised>)
    requires rd.Read? ==> forall k :: 0 <= k < |rd.frames| ==> WellFormed(rd.frames[k].table)
    ensures r.Ok? && r.value.Loaded? ==> WellFormed(r.value.frame.table)
  {
    match rd
    case Failed => Ok(NoData)
    case Read(frames, names) =>
      match JoinAll(TablesOf(frames))
      case None => Err(Raised)
      case Some(joined) =>
        var all := SortColumns(joined);
        match Chosen(all)
        case None => Ok(NoData)
        case Some(p) => Align(all, p, names, frames, w, combine)
  }

  /** read_data(filepath, t_range, is_opt=False) on a store: v1 when the
      store has "/grp", else v0. */
  function ReadRaw(st: Store, filename: string, w: Option<(int, int)>, combine: seq<Cell> -> (Cell, Cell)): (r: Result<Loaded, Raised>)
    ensures r.Ok? && r.value.Loaded? ==> WellFormed(r.value.frame.table)
  {
    if "/grp" in st then
      match Reader.V1(st, filename)
      case Err(e) => Err(e)
      case Ok(rd) => Consolidate(rd, w, combine)
    else Consolidate(Reader.V0(st), w, combine)
  }

  /** The derivations on df, in the order read_data applies them. */
  method DeriveColumns(df: Table, names: seq<string>, frames: seq<Framed>, combine: seq<Cell> -> (Cell, Cell)) returns (r: Result<Framed, Raised>)
    requires WellFormed(df)
    ensures r == Derive(df, names, frames, combine)
  {
    var cplx := Deriver.BpmComplex(df, names, combine);
    if cplx.Err? {
      return Err(cplx.error);
    }
    var kept := Deriver.DropElectrodes(cplx.value);
    var scales := FindScales(frames);
    if scales.None? {
      return Ok(Framed(kept, None));
    }
    var d := Deriver.GenerateDbcm(kept, scales.value);
    if d.Err? {
      return Err(d.error);
    }
    r := Ok(Framed(d.value, scales));
  }

  /** The consolidation step by step, in place on df_all and then df. */
  method ConsolidateFrames(rd: Reader.Read, w: Option<(int, int)>, combine: seq<Cell> -> (Cell, Cell)) returns (r: Result<Loaded, Raised>)
    requires rd.Read? ==> forall k :: 0 <= k < |rd.frames| ==> WellFormed(rd.frames[k].table)
    ensures r == Consolidate(rd, w, combine)
  {
    if rd.Failed? {
      return Ok(NoData);
    }
    var joined := JoinAll(TablesOf(rd.frames));
    if joined.None? {
      return Err(Raised);
    }
    var all := SortColumns(joined.value);
    if !AnyCandidate(all) {
      return Ok(NoData);
    }
    var chosen := ChoosePermit(all);
    if chosen.None? {
      return Ok(NoData);
    }
    var p := chosen.value;
    var trip := FirstEqual(all.cols[p], 1.0);
    SumNonzeroRows(all.cols[p]);
    var t0 := all.index[trip];
    var df := PopPermits(all, p);
    df := Window(df, trip, w);
    df := WithOffsets(df, t0);
    assert df == Prepared(all, p, w);
    var f := DeriveColumns(df, rd.bpmNames, rd.frames, combine);
    if f.Err? {
      return Err(f.error);
    }
    r := Ok(Loaded(f.value, t0));
  }

  /** The raw read: dispatch on the schema, then consolidate. */
  method ReadData(st: Store, filename: string, w: Option<(int, int)>, combine: seq<Cell> -> (Cell, Cell)) returns (r: Result<Loaded, Raised>)
    ensures r == ReadRaw(st, filename, w, combine)
  {
    var rd: Reader.Read;
    if "/grp" in st {
      var v1 := Reader.FormatV1(st, filename);
      if v1.Err? {
        return Err(v1.error);
      }
      rd := v1.value;
    } else {
      rd := Reader.FormatV0(st);
    }
    r := ConsolidateFrames(rd, w, combine);
  }

  /** The raw read returns None rather than raising exactly when the reader
      failed, or when the frames join and no candidate present has a
      non-zero sum. */
  lemma NoDataCases(rd: Reader.Read, w: Option<(int, int)>, combine: seq<Cell> -> (Cell, Cell))
    requires rd.Read? ==> forall k :: 0 <= k < |rd.frames| ==> WellFormed(rd.frames[k].table)
    ensures Consolidate(rd, w, combine) == Ok(NoData) <==>
              || rd.Failed?
              || (JoinAll(TablesOf(rd.frames)).Some?
                  && forall k :: 0 <= k < |Candidates| ==> !Live(JoinAll(TablesOf(rd.frames)).value, Candidates[k]))
  {
    if rd.Read? && JoinAll(TablesOf(rd.frames)).Some? {
      var joined := JoinAll(TablesOf(rd.frames)).value;
      var all := SortColumns(joined);
      assert forall c :: Live(all, c) == Live(joined, c);
    }
  }

  /** A successful read: t0 is the time of the chosen permit's first 1.0
      (or of the first row when it never is 1.0), the chosen permit and
      t_us are columns, and the other candidates are gone. */
  lemma LoadedShape(rd: Reader.Read, w: Option<(int, int)>, combine: seq<Cell> -> (Cell, Cell))
    requires rd.Read? ==> forall k :: 0 <= k < |rd.frames| ==> WellFormed(rd.frames[k].table)
    requires Consolidate(rd, w, combine).Ok? && Consolidate(rd, w, combine).value.Loaded?
    ensures rd.Read? && JoinAll(TablesOf(rd.frames)).Some?
    ensures var all := JoinAll(TablesOf(rd.frames)).value;
            && LastLive(all, Candidates).Some?
            && var p := LastLive(all, Candidates).value;
            && FirstEqual(all.cols[p], 1.0) < |all.index|
            && Consolidate(rd, w, combine).value.t0 == all.index[FirstEqual(all.cols[p], 1.0)]
            && var out := Consolidate(rd, w, combine).value.frame.table;
            && "t_us" in out.cols && p in out.cols
            && forall k :: 0 <= k < |Candidates| && Candidates[k] != p ==> Candidates[k] !in out.cols
  {
    var joined := JoinAll(TablesOf(rd.frames)).value;
    var all := SortColumns(joined);
    assert forall c :: Live(all, c) == Live(joined, c);
    assert LastLive(all, Candidates) == LastLive(joined, Candidates) by {
      PermitChoice(all);
      PermitChoice(joined);
    }
  }

  // ----- the optimised path ---------------------------------------------------------

  /** The frames of a store in the order of its listing. */
  function Listed(st: Store, listing: seq<string>): (r: seq<Table>)
    requires forall k :: 0 <= k < |listing| ==> listing[k] in st && st[listing[k]].Frame?
    ensures |r| == |listing| && forall k :: 0 <= k < |listing| ==> r[k] == st[listing[k]].table
  {
    seq(|listing|, k requires 0 <= k < |listing| => st[listing[k]].table)
  }

  /** read_data(filepath, t_range, is_opt=True) on an exported store whose
      keys, in the order the store lists them, are `listing`: the t_zero of
      "/TimeWindow", the factors of "/BCM" if it has them, every frame side
      by side, windowed around the first row whose t_us is 0 (argmax raises
      when the joined frame has no rows). */
  function ReadOpt(st: Store, listing: seq<string>, w: Option<(int, int)>): (r: Result<Loaded, Raised>)
    requires forall k :: 0 <= k < |listing| ==> listing[k] in st
    requires forall k :: k in st && st[k].Frame? ==> WellFormed(st[k].table)
    ensures r.Ok? ==> r.value.Loaded? && "t_us" in r.value.frame.table.cols
    ensures r.Ok? ==> "/TimeWindow" in st && st["/TimeWindow"].Frame? && st["/TimeWindow"].tZero == Some(r.value.t0)
    ensures r.Ok? ==> && (forall k :: 0 <= k < |listing| ==> st[listing[k]].Frame?)
                      && JoinAll(Listed(st, listing)).Some?
                      && |JoinAll(Listed(st, listing)).value.index| > 0
  {
    if "/TimeWindow" !in st || !st["/TimeWindow"].Frame? || st["/TimeWindow"].tZero.None? then Err(Raised)
    else
      var fscale := if "/BCM" in st && st["/BCM"].Frame? then st["/BCM"].fscaleJson else None;
      if exists k :: 0 <= k < |listing| && !st[listing[k]].Frame? then Err(Raised)
      else
        match JoinAll(Listed(st, listing))
        case None => Err(Raised)
        case Some(all) =>
          if "t_us" !in all.cols || |all.index| == 0 then Err(Raised)
          else
            var trip := FirstEqual(all.cols["t_us"], 0.0);
            Ok(Loaded(Framed(Window(all, trip, w), fscale), st["/TimeWindow"].tZero.value))
  }
}
