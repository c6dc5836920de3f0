/** The writers of the converted (optimised) data files and of the figures
    (export_df and its four writers in both copies of _tools.py, and
    gen_figure in the legacy copy). */
module Exporter {
  import opened Wrappers
  import opened Text
  import opened Tables
  import opened Schema
  import Aligner

  // ----- the MAT export --------------------------------------------------------------

  /** c.replace("-", "_"): MATLAB struct fields cannot hold '-'. */
  function MatName(c: string): (r: string)
    ensures |r| == |c| && NoChar(r, '-')
    ensures forall i :: 0 <= i < |c| ==> r[i] == (if c[i] == '-' then '_' else c[i])
  {
    ReplaceChar(c, '-', '_')
  }

  /** df[df.t_us == 0].index[0]: the first row whose t_us is 0; None where
      pandas raises (no t_us column, or no such row). */
  function ZeroRow(t: Table): (r: Option<nat>)
    requires WellFormed(t)
    ensures r.Some? ==> "t_us" in t.cols && r.value < |t.index| && IsValue(t.cols["t_us"][r.value], 0.0)
    ensures r.Some? ==> forall q :: 0 <= q < r.value ==> !IsValue(t.cols["t_us"][q], 0.0)
    ensures r.None? <==> "t_us" !in t.cols || forall q :: 0 <= q < |t.index| ==> !IsValue(t.cols["t_us"][q], 0.0)
  {
    if "t_us" !in t.cols then None
    else
      var c := t.cols["t_us"];
      if exists q :: 0 <= q < |c| && IsValue(c[q], 0.0) then Some(FirstEqual(c, 0.0)) else None
  }

  /** _export_df_as_mat: the columns renamed, then t_start (the first row's
      time) and t_zero (the time of the first row whose renamed t_us is 0);
      a raise when the frame has no row or no such row. */
  function ToMat(t: Table): (r: Result<FileContent, Raised>)
    requires WellFormed(t)
    ensures r.Ok? <==> |t.index| > 0 && ZeroRow(Rename(t, MatName)).Some?
    ensures r.Ok? ==> r.value.Mat? && r.value.tStart == t.index[0]
    ensures r.Ok? ==> r.value.tZero == t.index[ZeroRow(Rename(t, MatName)).value]
    ensures r.Ok? ==> forall n :: n in r.value.vars <==> exists m :: m in t.cols && n == MatName(m)
  {
    var m := Rename(t, MatName);
    RenameNames(t, MatName);
    if |t.index| == 0 then Err(Raised)
    else match ZeroRow(m)
      case None => Err(Raised)
      case Some(z) => Ok(Mat(m.names, m.cols, m.index[0], m.index[z]))
  }

  /** Renaming keeps every column under its new name. */
  lemma RenameNames(t: Table, f: string -> string)
    requires WellFormed(t)
    ensures forall n :: n in Rename(t, f).cols <==> exists m :: m in t.cols && n == f(m)
  {
    var ps := Pairs(t);
    var qs := seq(|ps|, i requires 0 <= i < |ps| => (f(ps[i].0), ps[i].1));
    BuildNames(t.index, qs);
    forall n | n in Rename(t, f).cols ensures exists m :: m in t.cols && n == f(m) {
      var i :| 0 <= i < |qs| && NamesOf(qs)[i] == n;
      assert t.names[i] in t.cols && n == f(t.names[i]);
    }
    forall m | m in t.cols ensures f(m) in Rename(t, f).cols {
      var i :| 0 <= i < |t.names| && t.names[i] == m;
      assert NamesOf(qs)[i] == f(m);
    }
  }

  /** A column that is the only one renamed onto its new name keeps its
      cells. */
  lemma RenameSole(t: Table, f: string -> string, m: string)
    requires WellFormed(t) && m in t.cols
    requires forall m2 :: m2 in t.cols && m2 != m ==> f(m2) != f(m)
    ensures f(m) in Rename(t, f).cols && Rename(t, f).cols[f(m)] == t.cols[m]
  {
    var ps := Pairs(t);
    var qs := seq(|ps|, i requires 0 <= i < |ps| => (f(ps[i].0), ps[i].1));
    var i :| 0 <= i < |t.names| && t.names[i] == m;
    assert qs[i] == (f(m), t.cols[m]);
    forall j | 0 <= j < |qs| && qs[j].0 == f(m) ensures qs[j].1 == t.cols[m] {
      assert t.names[j] in t.cols;
    }
    BuildLastCells(t.index, qs, f(m), t.cols[m]);
  }

  /** A name given once keeps the cells it was given. */
  lemma {:induction false} BuildLastCells(index: seq<int>, pairs: seq<(string, Column)>, n: string, c: Column)
    requires forall i :: 0 <= i < |pairs| ==> |pairs[i].1| == |index|
    requires exists i :: 0 <= i < |pairs| && pairs[i] == (n, c)
    requires forall i :: 0 <= i < |pairs| && pairs[i].0 == n ==> pairs[i].1 == c
    ensures n in Build(index, pairs).cols && Build(index, pairs).cols[n] == c
    decreases |pairs|
  {
    var init := pairs[..|pairs| - 1];
    if pairs[|pairs| - 1].0 != n {
      var i :| 0 <= i < |pairs| && pairs[i] == (n, c);
      assert init[i] == (n, c);
      BuildLastCells(index, init, n, c);
    }
  }

  /** Only "t_us" and "t-us" become "t_us". */
  lemma MatNameTus(m: string)
    requires MatName(m) == "t_us"
    ensures m == "t_us" || m == "t-us"
  {
    assert |m| == 4 && m[0] == 't' && m[2] == 'u' && m[3] == 's';
  }

  /** Unless a "t-us" column competes with t_us for its MAT name, the MAT
      file's t_us is the frame's and t_zero is the time of the frame's
      first row whose t_us is 0. */
  lemma MatKeepsTrip(t: Table)
    requires WellFormed(t) && "t_us" in t.cols && "t-us" !in t.cols
    ensures var m := Rename(t, MatName);
            "t_us" in m.cols && m.cols["t_us"] == t.cols["t_us"] && ZeroRow(m) == ZeroRow(t)
    ensures |t.index| > 0 && ZeroRow(t).Some? ==>
              ToMat(t).Ok? && ToMat(t).value.tZero == t.index[ZeroRow(t).value]
              && ToMat(t).value.vars["t_us"] == t.cols["t_us"]
  {
    forall m2 | m2 in t.cols && m2 != "t_us" ensures MatName(m2) != MatName("t_us") {
      assert MatName("t_us") == "t_us";
      if MatName(m2) == "t_us" {
        MatNameTus(m2);
      }
    }
    RenameSole(t, MatName, "t_us");
    assert MatName("t_us") == "t_us";
  }

  // ----- the HDF export --------------------------------------------------------------

  function HasBcm(c: string): bool { Contains(c, "BCM") }
  function HasMag(c: string): bool { Contains(c, "MAG") }
  function HasPha(c: string): bool { Contains(c, "PHA") }

  /** The t_us column alone. */
  function TimeWindowOf(t: Table): (r: Table)
    requires WellFormed(t) && "t_us" in t.cols
    ensures WellFormed(r) && r.index == t.index && r.names == ["t_us"] && r.cols == map["t_us" := t.cols["t_us"]]
  {
    Table(t.index, ["t_us"], map["t_us" := t.cols["t_us"]])
  }

  /** _export_df_as_h5: the store opened in append mode on whatever HDF5
      file is there, TimeWindow = t_us (with t_start and t_zero), BCM /
      BPM_MAG / BPM_PHA = the columns whose names contain "BCM" / "MAG" /
      "PHA"; the current copy also puts the factors on BCM when the frame
      has them. A raise when t_us, a row or the t_us == 0 row is missing,
      or when the path holds a file that is not HDF5. */
  function ToH5(copy: Copy, f: Framed, existing: Option<FileContent>): (r: Result<FileContent, Raised>)
    requires WellFormed(f.table)
    ensures r.Ok? <==> "t_us" in f.table.cols && |f.table.index| > 0 && ZeroRow(f.table).Some?
                        && (existing.None? || existing.value.Hdf?)
    ensures r.Ok? ==> r.value.Hdf? && ExportKeys <= r.value.store.Keys
  {
    var t := f.table;
    if existing.Some? && !existing.value.Hdf? then Err(Raised)
    else if "t_us" !in t.cols || |t.index| == 0 then Err(Raised)
    else match ZeroRow(t)
      case None => Err(Raised)
      case Some(z) =>
        Ok(Hdf(if existing.Some? then existing.value.store + Written(copy, f, z) else Written(copy, f, z)))
  }

  /** The keys an HDF export puts. */
  const ExportKeys: set<string> := {"/TimeWindow", "/BCM", "/BPM_MAG", "/BPM_PHA"}

  /** The four frames an HDF export puts. */
  function Written(copy: Copy, f: Framed, z: nat): (r: map<string, Entry>)
    requires WellFormed(f.table) && "t_us" in f.table.cols && z < |f.table.index|
    ensures r.Keys == ExportKeys
    ensures forall k :: k in r ==> r[k].Frame? && WellFormed(r[k].table) && r[k].table.index == f.table.index
    ensures forall k, n :: k in r && n in r[k].table.cols ==> n in f.table.cols && r[k].table.cols[n] == f.table.cols[n]
  {
    map k | k in ExportKeys :: KeyFrame(copy, f, z, k)
  }

  /** The frame put under one key: t_us with the trip's first and zero
      times, the columns naming "BCM" (with the factors, in the current
      copy), those naming "MAG" and those naming "PHA", each a copy of the
      frame's columns on its rows. */
  function KeyFrame(copy: Copy, f: Framed, z: nat, key: string): (e: Entry)
    requires WellFormed(f.table) && "t_us" in f.table.cols && z < |f.table.index|
    ensures e.Frame? && WellFormed(e.table) && e.table.index == f.table.index
    ensures forall n :: n in e.table.cols ==> n in f.table.cols && e.table.cols[n] == f.table.cols[n]
  {
    var t := f.table;
    if key == "/TimeWindow" then Frame(TimeWindowOf(t), Some(t.index[0]), Some(t.index[z]), None)
    else if key == "/BCM" then Frame(Filter(t, HasBcm), None, None, if copy == Current then f.fscale else None)
    else if key == "/BPM_MAG" then PlainFrame(Filter(t, HasMag))
    else PlainFrame(Filter(t, HasPha))
  }

  /** Which columns go where, and the times and factors put with them. */
  lemma WrittenParts(copy: Copy, f: Framed, z: nat)
    requires WellFormed(f.table) && "t_us" in f.table.cols && z < |f.table.index|
    ensures var r := Written(copy, f, z);
            && r["/TimeWindow"].tStart == Some(f.table.index[0])
            && r["/TimeWindow"].tZero == Some(f.table.index[z])
            && r["/BCM"].fscaleJson == (if copy == Current then f.fscale else None)
            && (forall n :: n in r["/TimeWindow"].table.cols <==> n == "t_us")
            && (forall n :: n in r["/BCM"].table.cols <==> n in f.table.cols && HasBcm(n))
            && (forall n :: n in r["/BPM_MAG"].table.cols <==> n in f.table.cols && HasMag(n))
            && (forall n :: n in r["/BPM_PHA"].table.cols <==> n in f.table.cols && HasPha(n))
  {
    var t := f.table;
    assert "/BPM_MAG"[5] != "/BPM_PHA"[5];
    forall n ensures n in Filter(t, HasBcm).cols <==> n in t.cols && HasBcm(n) {
      FilterHas(t, HasBcm, n);
    }
    forall n ensures n in Filter(t, HasMag).cols <==> n in t.cols && HasMag(n) {
      FilterHas(t, HasMag, n);
    }
    forall n ensures n in Filter(t, HasPha).cols <==> n in t.cols && HasPha(n) {
      FilterHas(t, HasPha, n);
    }
  }

  /** The writer export_df looks the format up with; an unknown format is a
      KeyError. The CSV file keeps the frame; the XLSX file keeps it with
      the factors in the current copy. The XLSX writer first assigns the
      two time columns from the list of index times, which pandas refuses
      when the list is empty, so a frame without rows raises there. */
  function Render(copy: Copy, f: Framed, fmt: string, existing: Option<FileContent>): (r: Result<FileContent, Raised>)
    requires WellFormed(f.table)
    ensures fmt == "xlsx" ==> (r.Ok? <==> |f.table.index| > 0)
    ensures fmt == "csv" ==> r == Ok(Csv(f.table))
  {
    if fmt == "mat" then ToMat(f.table)
    else if fmt == "h5" then ToH5(copy, f, existing)
    else if fmt == "csv" then Ok(Csv(f.table))
    else if fmt == "xlsx" then
      if |f.table.index| == 0 then Err(Raised) else Ok(Xlsx(f.table, if copy == Current then f.fscale else None))
    else Err(Raised)
  }

  /** What the path holds after its writer raised, None when the writer
      raised before it opened the file. The HDF writer opens the store and
      puts its four frames before it looks up the first row and the
      t_us == 0 row, so a raise there leaves those frames in the store,
      without the times and without the factors. The MAT and XLSX writers
      raise before they write. */
  function Leftover(f: Framed, fmt: string, existing: Option<FileContent>): (r: Option<FileContent>)
    requires WellFormed(f.table)
    ensures r.Some? <==> fmt == "h5" && "t_us" in f.table.cols && (existing.None? || existing.value.Hdf?)
    ensures r.Some? ==> r.value.Hdf? && ExportKeys <= r.value.store.Keys
  {
    if fmt == "h5" && "t_us" in f.table.cols && (existing.None? || existing.value.Hdf?) then
      Some(Hdf(if existing.Some? then existing.value.store + Unstamped(f.table) else Unstamped(f.table)))
    else None
  }

  /** The four frames as store.put leaves them, before any attribute is
      set. */
  function Unstamped(t: Table): (r: map<string, Entry>)
    requires WellFormed(t) && "t_us" in t.cols
    ensures r.Keys == ExportKeys
    ensures forall k :: k in r ==> r[k].Frame? && r[k] == PlainFrame(r[k].table) && WellFormed(r[k].table) && r[k].table.index == t.index
    ensures forall k, n :: k in r && r[k].Frame? && n in r[k].table.cols ==> n in t.cols && r[k].table.cols[n] == t.cols[n]
  {
    map k | k in ExportKeys :: PutFrame(t, k)
  }

  /** The frame put under one key: t_us, or the columns naming "BCM",
      "MAG" or "PHA". */
  function PutFrame(t: Table, key: string): (e: Entry)
    requires WellFormed(t) && "t_us" in t.cols
    ensures e.Frame? && e == PlainFrame(e.table) && WellFormed(e.table) && e.table.index == t.index
    ensures forall n :: n in e.table.cols ==> n in t.cols && e.table.cols[n] == t.cols[n]
  {
    if key == "/TimeWindow" then PlainFrame(TimeWindowOf(t))
    else if key == "/BCM" then PlainFrame(Filter(t, HasBcm))
    else if key == "/BPM_MAG" then PlainFrame(Filter(t, HasMag))
    else PlainFrame(Filter(t, HasPha))
  }

  /** An HDF export that raises after opening the store leaves the four
      frames in it, with no trip time on TimeWindow and no factors on BCM,
      and keeps the store's other keys. It raises there exactly when the
      frame has t_us but no rows or no t_us == 0 row. */
  lemma H5Leftover(copy: Copy, f: Framed, existing: Option<FileContent>)
    requires WellFormed(f.table) && "t_us" in f.table.cols && (existing.None? || existing.value.Hdf?)
    ensures ToH5(copy, f, existing).Err? <==> |f.table.index| == 0 || ZeroRow(f.table).None?
    ensures var st := Leftover(f, "h5", existing).value.store;
            && st["/TimeWindow"].Frame? && st["/TimeWindow"].tStart.None? && st["/TimeWindow"].tZero.None?
            && st["/BCM"].Frame? && st["/BCM"].fscaleJson.None?
            && (forall n :: n in st["/TimeWindow"].table.cols <==> n == "t_us")
            && (existing.Some? ==> forall k :: k in existing.value.store && k !in ExportKeys ==> k in st && st[k] == existing.value.store[k])
  {
  }

  function Target(outdir: string, name: string, fmt: string): string {
    JoinPath(outdir, name + "." + fmt)
  }

  /** The disk after an export step: Ok when every writer returned, Err
      when one raised, holding the disk as the raise left it. */
  function DiskOf(r: Result<Disk, Disk>): Disk {
    if r.Ok? then r.value else r.error
  }

  /** One round of export_df's loop: an existing file is written only when
      overwriting; a writer that raises leaves its path as Leftover says. */
  function ExportFormat(copy: Copy, f: Framed, out: string, fmt: string, overwrite: bool, d: Disk): (r: Result<Disk, Disk>)
    requires WellFormed(f.table)
    ensures forall p :: p != out ==> (p in DiskOf(r) <==> p in d) && (p in d ==> DiskOf(r)[p] == d[p])
    ensures out in d && !overwrite ==> r == Ok(d)
    ensures r.Ok? && !(out in d && !overwrite) ==> out in r.value
  {
    if out in d && !overwrite then Ok(d)
    else
      var existing := if out in d then Some(d[out]) else None;
      match Render(copy, f, fmt, existing)
      case Ok(c) => Ok(d[out := c])
      case Err(_) => Err(match Leftover(f, fmt, existing) case Some(c) => d[out := c] case None => d)
  }

  /** export_df(df, outdir, name, fmts, overwrite): the formats in order;
      the first writer that raises ends the export, and the files the
      earlier formats wrote stay on the disk. */
  function Exported(copy: Copy, f: Framed, outdir: string, name: string, fmts: seq<string>, overwrite: bool, d: Disk): (r: Result<Disk, Disk>)
    requires WellFormed(f.table)
    decreases |fmts|
  {
    if fmts == [] then Ok(d)
    else match Exported(copy, f, outdir, name, fmts[..|fmts| - 1], overwrite, d)
      case Err(d1) => Err(d1)
      case Ok(d1) =>
        var fmt := fmts[|fmts| - 1];
        ExportFormat(copy, f, Target(outdir, name, fmt), fmt, overwrite, d1)
  }

  method ExportDf(copy: Copy, f: Framed, outdir: string, name: string, fmts: seq<string>, overwrite: bool, disk: Disk)
    returns (r: Result<Disk, Disk>)
    requires WellFormed(f.table)
    ensures r == Exported(copy, f, outdir, name, fmts, overwrite, disk)
  {
    var d := disk;
    for i := 0 to |fmts|
      invariant Exported(copy, f, outdir, name, fmts[..i], overwrite, disk) == Ok(d)
    {
      assert fmts[..i + 1][..i] == fmts[..i];
      var out := Target(outdir, name, fmts[i]);
      if out in d {
        if overwrite {
          var c := Render(copy, f, fmts[i], Some(d[out]));
          assert Exported(copy, f, outdir, name, fmts[..i + 1], overwrite, disk)
              == ExportFormat(copy, f, out, fmts[i], overwrite, d);
          if c.Err? {
            var left := Leftover(f, fmts[i], Some(d[out]));
            ExportedFail(copy, f, outdir, name, fmts, overwrite, disk, i + 1);
            return Err(if left.Some? then d[out := left.value] else d);
          }
          d := d[out := c.value];
        }
      } else {
        var c := Render(copy, f, fmts[i], None);
        assert Exported(copy, f, outdir, name, fmts[..i + 1], overwrite, disk)
            == ExportFormat(copy, f, out, fmts[i], overwrite, d);
        if c.Err? {
          var left := Leftover(f, fmts[i], None);
          ExportedFail(copy, f, outdir, name, fmts, overwrite, disk, i + 1);
          return Err(if left.Some? then d[out := left.value] else d);
        }
        d := d[out := c.value];
      }
    }
    assert fmts[..|fmts|] == fmts;
    return Ok(d);
  }

  /** Once a writer raises, the export raises. */
  lemma {:induction false} ExportedFail(copy: Copy, f: Framed, outdir: string, name: string, fmts: seq<string>,
                                        overwrite: bool, d: Disk, k: nat)
    requires WellFormed(f.table) && k <= |fmts|
    requires Exported(copy, f, outdir, name, fmts[..k], overwrite, d).Err?
    ensures Exported(copy, f, outdir, name, fmts, overwrite, d) == Exported(copy, f, outdir, name, fmts[..k], overwrite, d)
    decreases |fmts| - k
  {
    if k < |fmts| {
      assert fmts[..k + 1][..k] == fmts[..k];
      ExportedFail(copy, f, outdir, name, fmts, overwrite, d, k + 1);
    } else {
      assert fmts[..k] == fmts;
    }
  }

  /** export_df with the formats ["csv", "mat"] on a frame the MAT writer
      refuses (no rows, or no t_us == 0 row): the CSV file is written, the
      MAT writer raises, and the CSV file stays on the disk. */
  lemma CsvSurvivesMatRaise(copy: Copy, f: Framed, outdir: string, name: string, overwrite: bool, d: Disk)
    requires WellFormed(f.table) && ToMat(f.table).Err?
    requires Target(outdir, name, "csv") !in d && Target(outdir, name, "mat") !in d
    ensures Exported(copy, f, outdir, name, ["csv", "mat"], overwrite, d)
            == Err(d[Target(outdir, name, "csv") := Csv(f.table)])
  {
    var csv, mat := Target(outdir, name, "csv"), Target(outdir, name, "mat");
    assert csv[|csv| - 1] == 'v' && mat[|mat| - 1] == 't';
    assert ["csv", "mat"][..1] == ["csv"] && ["csv"][..0] == [];
    assert Exported(copy, f, outdir, name, ["csv"], overwrite, d) == Ok(d[csv := Csv(f.table)]);
  }

  /** An export, whether it completes or raises, touches no path but its
      targets. */
  lemma {:induction false} ExportedOthers(copy: Copy, f: Framed, outdir: string, name: string, fmts: seq<string>,
                                          overwrite: bool, d: Disk, p: string)
    requires WellFormed(f.table)
    requires forall k :: 0 <= k < |fmts| ==> p != Target(outdir, name, fmts[k])
    ensures var d2 := DiskOf(Exported(copy, f, outdir, name, fmts, overwrite, d));
            (p in d2 <==> p in d) && (p in d ==> d2[p] == d[p])
    decreases |fmts|
  {
    if fmts != [] {
      var init := fmts[..|fmts| - 1];
      assert forall k :: 0 <= k < |init| ==> init[k] == fmts[k];
      ExportedOthers(copy, f, outdir, name, init, overwrite, d, p);
    }
  }

  /** Without overwriting, every file that was there is left as it was,
      whether the export completes or raises. */
  lemma {:induction false} ExportedKeeps(copy: Copy, f: Framed, outdir: string, name: string, fmts: seq<string>,
                                         d: Disk, p: string)
    requires WellFormed(f.table)
    requires p in d
    ensures var d2 := DiskOf(Exported(copy, f, outdir, name, fmts, false, d));
            p in d2 && d2[p] == d[p]
    decreases |fmts|
  {
    if fmts != [] {
      ExportedKeeps(copy, f, outdir, name, fmts[..|fmts| - 1], d, p);
    }
  }

  /** After an export, every target is there. */
  lemma {:induction false} ExportedTargets(copy: Copy, f: Framed, outdir: string, name: string, fmts: seq<string>,
                                           overwrite: bool, d: Disk)
    requires WellFormed(f.table)
    requires Exported(copy, f, outdir, name, fmts, overwrite, d).Ok?
    ensures forall k :: 0 <= k < |fmts| ==> Target(outdir, name, fmts[k]) in Exported(copy, f, outdir, name, fmts, overwrite, d).value
    decreases |fmts|
  {
    if fmts != [] {
      var init := fmts[..|fmts| - 1];
      ExportedTargets(copy, f, outdir, name, init, overwrite, d);
      var d1 := Exported(copy, f, outdir, name, init, overwrite, d).value;
      var d2 := Exported(copy, f, outdir, name, fmts, overwrite, d).value;
      forall k | 0 <= k < |fmts| ensures Target(outdir, name, fmts[k]) in d2 {
        if k < |init| {
          assert init[k] == fmts[k];
          assert Target(outdir, name, fmts[k]) in d1;
        }
      }
    }
  }

  // ----- reading an export back ----------------------------------------------------

  /** Frames that all hold copies of the columns of one frame. */
  predicate CopiesOf(frames: seq<Table>, src: Table) {
    forall k, n :: 0 <= k < |frames| && n in frames[k].cols ==> n in src.cols && frames[k].cols[n] == src.cols[n]
  }

  /** Some frame has a column of that name. */
  predicate InSome(frames: seq<Table>, n: string) {
    exists k :: 0 <= k < |frames| && n in frames[k].cols
  }

  lemma InSomeSnoc(frames: seq<Table>, n: string)
    requires |frames| > 0
    ensures InSome(frames, n) <==> InSome(frames[..|frames| - 1], n) || n in frames[|frames| - 1].cols
  {
    var init := frames[..|frames| - 1];
    if InSome(init, n) {
      var k :| 0 <= k < |init| && n in init[k].cols;
      assert frames[k] == init[k];
    }
    if InSome(frames, n) {
      var k :| 0 <= k < |frames| && n in frames[k].cols;
      if k < |init| {
        assert frames[k] == init[k];
      }
    }
  }

  /** Two frames on one index join side by side, with the columns of both. */
  lemma JoinTwo(acc: Table, last: Table, src: Table)
    requires WellFormed(acc) && WellFormed(last) && acc.index == src.index && last.index == src.index
    requires forall n :: n in acc.cols ==> n in src.cols && acc.cols[n] == src.cols[n]
    requires forall n :: n in last.cols ==> n in src.cols && last.cols[n] == src.cols[n]
    ensures Join2(acc, last).Some? && Join2(acc, last).value.index == src.index
    ensures forall n :: n in Join2(acc, last).value.cols <==> n in acc.cols || n in last.cols
    ensures forall n :: n in Join2(acc, last).value.cols ==> n in src.cols && Join2(acc, last).value.cols[n] == src.cols[n]
  {
    assert Join2(acc, last) == Some(Build(acc.index, Pairs(acc) + Pairs(last)));
    SideBySide(acc, last, src);
  }

  /** The frame built from the columns of two copies has the columns of
      both, as copies. */
  lemma SideBySide(acc: Table, last: Table, src: Table)
    requires WellFormed(acc) && WellFormed(last) && acc.index == src.index && last.index == src.index
    requires forall n :: n in acc.cols ==> n in src.cols && acc.cols[n] == src.cols[n]
    requires forall n :: n in last.cols ==> n in src.cols && last.cols[n] == src.cols[n]
    ensures var b := Build(src.index, Pairs(acc) + Pairs(last));
            && (forall n :: n in b.cols <==> n in acc.cols || n in last.cols)
            && (forall n :: n in b.cols ==> n in src.cols && b.cols[n] == src.cols[n])
  {
    var ps := Pairs(acc) + Pairs(last);
    PairsCopies(acc, src);
    PairsCopies(last, src);
    ConcatCopies(Pairs(acc), Pairs(last), src);
    BuildNames(src.index, ps);
    NamesOfConcat(Pairs(acc), Pairs(last));
    BuildCopies(src.index, ps, src);
  }

  lemma ConcatCopies(pa: seq<(string, Column)>, pb: seq<(string, Column)>, src: Table)
    requires forall p :: p in pa ==> p.0 in src.cols && p.1 == src.cols[p.0] && |p.1| == |src.index|
    requires forall p :: p in pb ==> p.0 in src.cols && p.1 == src.cols[p.0] && |p.1| == |src.index|
    ensures forall i :: 0 <= i < |pa + pb| ==>
              (pa + pb)[i].0 in src.cols && (pa + pb)[i].1 == src.cols[(pa + pb)[i].0] && |(pa + pb)[i].1| == |src.index|
  {
    forall i | 0 <= i < |pa + pb|
      ensures (pa + pb)[i].0 in src.cols && (pa + pb)[i].1 == src.cols[(pa + pb)[i].0] && |(pa + pb)[i].1| == |src.index|
    {
      if i < |pa| {
        assert (pa + pb)[i] == pa[i];
      } else {
        assert (pa + pb)[i] == pb[i - |pa|];
      }
    }
  }

  lemma NamesOfConcat(pa: seq<(string, Column)>, pb: seq<(string, Column)>)
    ensures forall n :: n in NamesOf(pa + pb) <==> n in NamesOf(pa) || n in NamesOf(pb)
  {
    assert NamesOf(pa + pb) == NamesOf(pa) + NamesOf(pb);
  }

  /** The columns of a frame that copies another's are copies. */
  lemma PairsCopies(t: Table, src: Table)
    requires WellFormed(t) && t.index == src.index
    requires forall n :: n in t.cols ==> n in src.cols && t.cols[n] == src.cols[n]
    ensures forall p :: p in Pairs(t) ==> p.0 in src.cols && p.1 == src.cols[p.0] && |p.1| == |src.index|
  {
    forall p | p in Pairs(t) ensures p.0 in src.cols && p.1 == src.cols[p.0] && |p.1| == |src.index| {
      var i :| 0 <= i < |t.names| && Pairs(t)[i] == p;
      assert t.names[i] in t.cols;
    }
  }

  /** Frames on one index join side by side; the join holds the columns of
      all of them, and when they are all copies of one frame's columns, the
      join's columns are too. */
  lemma {:induction false} JoinShared(frames: seq<Table>, src: Table)
    requires |frames| > 0 && WellFormed(src)
    requires forall k :: 0 <= k < |frames| ==> WellFormed(frames[k]) && frames[k].index == src.index
    requires CopiesOf(frames, src)
    ensures JoinAll(frames).Some? && JoinAll(frames).value.index == src.index
    ensures forall n :: n in JoinAll(frames).value.cols <==> InSome(frames, n)
    ensures forall n :: n in JoinAll(frames).value.cols ==> n in src.cols && JoinAll(frames).value.cols[n] == src.cols[n]
    decreases |frames|
  {
    if |frames| == 1 {
      JoinSharedOne(frames, src);
    } else {
      var init := frames[..|frames| - 1];
      assert CopiesOf(init, src) by {
        forall k, n | 0 <= k < |init| && n in init[k].cols ensures n in src.cols && init[k].cols[n] == src.cols[n] {
          assert init[k] == frames[k];
        }
      }
      JoinShared(init, src);
      JoinSharedStep(frames, src);
    }
  }

  lemma JoinSharedOne(frames: seq<Table>, src: Table)
    requires |frames| == 1 && WellFormed(frames[0]) && frames[0].index == src.index
    requires CopiesOf(frames, src)
    ensures JoinAll(frames).Some? && JoinAll(frames).value.index == src.index
    ensures forall n :: n in JoinAll(frames).value.cols <==> InSome(frames, n)
    ensures forall n :: n in JoinAll(frames).value.cols ==> n in src.cols && JoinAll(frames).value.cols[n] == src.cols[n]
  {
    assert JoinAll(frames) == Some(frames[0]);
    forall n ensures n in frames[0].cols <==> InSome(frames, n) {
      if InSome(frames, n) {
        var k :| 0 <= k < |frames| && n in frames[k].cols;
      }
    }
  }

  /** One more frame on the shared index joins onto the others. */
  lemma JoinSharedStep(frames: seq<Table>, src: Table)
    requires |frames| > 1 && WellFormed(src)
    requires forall k :: 0 <= k < |frames| ==> WellFormed(frames[k]) && frames[k].index == src.index
    requires CopiesOf(frames, src)
    requires var init := frames[..|frames| - 1];
             && JoinAll(init).Some? && JoinAll(init).value.index == src.index
             && (forall n :: n in JoinAll(init).value.cols <==> InSome(init, n))
             && (forall n :: n in JoinAll(init).value.cols ==> n in src.cols && JoinAll(init).value.cols[n] == src.cols[n])
    ensures JoinAll(frames).Some? && JoinAll(frames).value.index == src.index
    ensures forall n :: n in JoinAll(frames).value.cols <==> InSome(frames, n)
    ensures forall n :: n in JoinAll(frames).value.cols ==> n in src.cols && JoinAll(frames).value.cols[n] == src.cols[n]
  {
    var init := frames[..|frames| - 1];
    var last := frames[|frames| - 1];
    var acc := JoinAll(init).value;
    JoinTwo(acc, last, src);
    assert JoinAll(frames) == Join2(acc, last);
    forall n ensures InSome(frames, n) <==> n in acc.cols || n in last.cols {
      InSomeSnoc(frames, n);
    }
  }

  /** Build over pairs that are all copies of a frame's columns gives copies. */
  lemma {:induction false} BuildCopies(index: seq<int>, pairs: seq<(string, Column)>, src: Table)
    requires forall i :: 0 <= i < |pairs| ==> |pairs[i].1| == |index|
    requires forall i :: 0 <= i < |pairs| ==> pairs[i].0 in src.cols && pairs[i].1 == src.cols[pairs[i].0]
    ensures forall n :: n in Build(index, pairs).cols ==> n in src.cols && Build(index, pairs).cols[n] == src.cols[n]
    decreases |pairs|
  {
    if pairs != [] {
      BuildCopies(index, pairs[..|pairs| - 1], src);
    }
  }

  /** The keys of an exported store, each once, in some order. */
  ghost predicate ListsExport(listing: seq<string>) {
    && Distinct(listing)
    && forall x :: x in listing <==> x in ExportKeys
  }

  /** A filtered frame holds exactly the columns kept. */
  lemma FilterHas(t: Table, keep: string -> bool, n: string)
    requires WellFormed(t)
    ensures n in Filter(t, keep).cols <==> n in t.cols && keep(n)
  {
  }

  /** The four frames of an export, read in any listing order, hold t_us and
      the columns whose names contain "BCM", "MAG" or "PHA". */
  lemma H5Coverage(st: Store, listing: seq<string>, t: Table, n: string)
    requires ListsExport(listing) && st.Keys == ExportKeys
    requires forall k :: k in st ==> st[k].Frame?
    requires forall k :: 0 <= k < |listing| ==> listing[k] in st
    requires forall n :: n in st["/TimeWindow"].table.cols <==> n == "t_us"
    requires "t_us" in t.cols
    requires forall n :: n in st["/BCM"].table.cols <==> n in t.cols && HasBcm(n)
    requires forall n :: n in st["/BPM_MAG"].table.cols <==> n in t.cols && HasMag(n)
    requires forall n :: n in st["/BPM_PHA"].table.cols <==> n in t.cols && HasPha(n)
    ensures InSome(Aligner.Listed(st, listing), n) <==> n in t.cols && (n == "t_us" || HasBcm(n) || HasMag(n) || HasPha(n))
  {
    var tables := Aligner.Listed(st, listing);
    if n in t.cols && (n == "t_us" || HasBcm(n) || HasMag(n) || HasPha(n)) {
      var key := if n == "t_us" then "/TimeWindow" else if HasBcm(n) then "/BCM" else if HasMag(n) then "/BPM_MAG" else "/BPM_PHA";
      assert key in listing;
      var k :| 0 <= k < |listing| && listing[k] == key;
      assert n in tables[k].cols;
    }
    if InSome(tables, n) {
      var k :| 0 <= k < |tables| && n in tables[k].cols;
      assert listing[k] in st;
    }
  }

  /** A fresh HDF export read back as an optimised file: the trip time is
      the time of the first row whose t_us is 0, the factors come back in
      the current copy, the rows are the rows, and the columns are t_us
      and exactly those whose names contain "BCM", "MAG" or "PHA", each
      with its cells; every other column (a beam state, say) is lost. */
  lemma H5RoundTrip(f: Framed, listing: seq<string>)
    requires WellFormed(f.table) && "t_us" in f.table.cols && |f.table.index| > 0 && ZeroRow(f.table).Some?
    requires ListsExport(listing)
    ensures var r := Aligner.ReadOpt(Written(Current, f, ZeroRow(f.table).value), listing, None);
            && r.Ok?
            && r.value.t0 == f.table.index[ZeroRow(f.table).value]
            && r.value.frame.fscale == f.fscale
            && r.value.frame.table.index == f.table.index
            && (forall n :: n in r.value.frame.table.cols <==>
                  n in f.table.cols && (n == "t_us" || HasBcm(n) || HasMag(n) || HasPha(n)))
            && (forall n :: n in r.value.frame.table.cols ==> r.value.frame.table.cols[n] == f.table.cols[n])
  {
    var z := ZeroRow(f.table).value;
    var st := Written(Current, f, z);
    WrittenParts(Current, f, z);
    H5Joined(st, listing, f.table);
    ReadOptJoined(st, listing, f.table, f.table.index[z], f.fscale);
  }

  /** ReadOptWhole, stated through what the joined frame holds. */
  lemma ReadOptJoined(st: Store, listing: seq<string>, t: Table, tz: int, fs: Option<Scales>)
    requires forall k :: 0 <= k < |listing| ==> listing[k] in st
    requires forall k :: k in st ==> st[k].Frame? && WellFormed(st[k].table)
    requires "/TimeWindow" in st && st["/TimeWindow"].tZero == Some(tz)
    requires "/BCM" in st && st["/BCM"].fscaleJson == fs
    requires var all := JoinAll(Aligner.Listed(st, listing));
             && all.Some? && all.value.index == t.index
             && (forall n :: n in all.value.cols <==> n in t.cols && (n == "t_us" || HasBcm(n) || HasMag(n) || HasPha(n)))
             && (forall n :: n in all.value.cols ==> n in t.cols && all.value.cols[n] == t.cols[n])
    requires "t_us" in t.cols && |t.index| > 0
    ensures var r := Aligner.ReadOpt(st, listing, None);
            && r.Ok?
            && r.value.t0 == tz
            && r.value.frame.fscale == fs
            && r.value.frame.table.index == t.index
            && (forall n :: n in r.value.frame.table.cols <==>
                  n in t.cols && (n == "t_us" || HasBcm(n) || HasMag(n) || HasPha(n)))
            && (forall n :: n in r.value.frame.table.cols ==> r.value.frame.table.cols[n] == t.cols[n])
  {
    ReadOptWhole(st, listing, tz, fs);
  }

  /** Reading a store of frames with no window joins the listed frames
      and takes t_zero and the factors from it. */
  lemma ReadOptWhole(st: Store, listing: seq<string>, tz: int, fs: Option<Scales>)
    requires forall k :: 0 <= k < |listing| ==> listing[k] in st && st[listing[k]].Frame?
    requires forall k :: k in st && st[k].Frame? ==> WellFormed(st[k].table)
    requires "/TimeWindow" in st && st["/TimeWindow"].Frame? && st["/TimeWindow"].tZero == Some(tz)
    requires "/BCM" in st && st["/BCM"].Frame? && st["/BCM"].fscaleJson == fs
    requires var all := JoinAll(Aligner.Listed(st, listing));
             all.Some? && "t_us" in all.value.cols && |all.value.index| > 0
    ensures Aligner.ReadOpt(st, listing, None)
            == Ok(Aligner.Loaded(Framed(JoinAll(Aligner.Listed(st, listing)).value, fs), tz))
  {
    assert !(exists k :: 0 <= k < |listing| && !st[listing[k]].Frame?);
  }

  /** An HDF export onto an existing store (append mode) replaces the four
      frames and keeps every other key as it was. */
  lemma H5Append(copy: Copy, f: Framed, st: Store)
    requires WellFormed(f.table) && "t_us" in f.table.cols && |f.table.index| > 0 && ZeroRow(f.table).Some?
    ensures var r := ToH5(copy, f, Some(Hdf(st)));
            && r.Ok? && r.value.store.Keys == st.Keys + ExportKeys
            && (forall k :: k in ExportKeys ==> r.value.store[k] == Written(copy, f, ZeroRow(f.table).value)[k])
            && (forall k :: k in st && k !in ExportKeys ==> r.value.store[k] == st[k])
  {
  }

  /** A fresh HDF export writes the four frames and nothing else. */
  lemma H5Fresh(copy: Copy, f: Framed)
    requires WellFormed(f.table) && "t_us" in f.table.cols && |f.table.index| > 0 && ZeroRow(f.table).Some?
    ensures ToH5(copy, f, None) == Ok(Hdf(Written(copy, f, ZeroRow(f.table).value)))
  {
  }

  /** The frames of a fresh HDF export, joined, are the frame's t_us and
      its "BCM", "MAG" and "PHA" columns. */
  lemma H5Joined(st: Store, listing: seq<string>, t: Table)
    requires WellFormed(t) && "t_us" in t.cols
    requires ListsExport(listing) && st.Keys == ExportKeys
    requires forall k :: k in st ==> st[k].Frame? && WellFormed(st[k].table) && st[k].table.index == t.index
    requires forall k, n :: k in st && n in st[k].table.cols ==> n in t.cols && st[k].table.cols[n] == t.cols[n]
    requires forall n :: n in st["/TimeWindow"].table.cols <==> n == "t_us"
    requires forall n :: n in st["/BCM"].table.cols <==> n in t.cols && HasBcm(n)
    requires forall n :: n in st["/BPM_MAG"].table.cols <==> n in t.cols && HasMag(n)
    requires forall n :: n in st["/BPM_PHA"].table.cols <==> n in t.cols && HasPha(n)
    ensures forall k :: 0 <= k < |listing| ==> listing[k] in st
    ensures var all := JoinAll(Aligner.Listed(st, listing));
            && all.Some? && all.value.index == t.index
            && (forall n :: n in all.value.cols <==> n in t.cols && (n == "t_us" || HasBcm(n) || HasMag(n) || HasPha(n)))
            && (forall n :: n in all.value.cols ==> n in t.cols && all.value.cols[n] == t.cols[n])
  {
    forall k | 0 <= k < |listing| ensures listing[k] in st {
      assert listing[k] in ExportKeys;
    }
    var tables := Aligner.Listed(st, listing);
    assert |tables| > 0 by {
      assert "/BCM" in listing;
    }
    ListedCopies(st, listing, t);
    JoinShared(tables, t);
    forall n ensures InSome(tables, n) <==> n in t.cols && (n == "t_us" || HasBcm(n) || HasMag(n) || HasPha(n)) {
      H5Coverage(st, listing, t, n);
    }
  }

  /** The listed frames of a store whose frames all copy columns of `t`
      on its rows. */
  lemma ListedCopies(st: Store, listing: seq<string>, t: Table)
    requires forall k :: 0 <= k < |listing| ==> listing[k] in st && st[listing[k]].Frame?
    requires forall k :: k in st ==> st[k].Frame? && WellFormed(st[k].table) && st[k].table.index == t.index
    requires forall k, n :: k in st && n in st[k].table.cols ==> n in t.cols && st[k].table.cols[n] == t.cols[n]
    ensures var tables := Aligner.Listed(st, listing);
            && (forall k :: 0 <= k < |tables| ==> WellFormed(tables[k]) && tables[k].index == t.index)
            && CopiesOf(tables, t)
  {
    var tables := Aligner.Listed(st, listing);
    forall k, n | 0 <= k < |tables| && n in tables[k].cols ensures n in t.cols && tables[k].cols[n] == t.cols[n] {
      assert tables[k] == st[listing[k]].table;
    }
  }

  // ----- gen_figure (legacy copy) ----------------------------------------------------

  /** Path(p).parent for the relative and absolute paths the tool is given. */
  function Parent(p: string): string {
    var t := StripTrailingSlashes(p);
    match LastIndexBefore(t, '/', |t|)
    case Some(i) => if i == 0 then "/" else t[..i]
    case None => "."
  }

  /** out_dirpath.joinpath(filename.replace(".h5", f".{typ}")) */
  function ImagePath(data: string, outdir: Option<string>, typ: string): string {
    var dir := match outdir case Some(o) => o case None => Parent(data);
    JoinPath(dir, ReplaceAll(BaseName(data), ".h5", "." + typ))
  }

  /** The images of one figure: each type written when its file is absent
      or when overwriting. */
  function Figures(data: string, outdir: Option<string>, types: seq<string>, fig: Figure, overwrite: bool, d: Disk): (r: Disk)
    decreases |types|
  {
    if types == [] then d
    else
      var d1 := Figures(data, outdir, types[..|types| - 1], fig, overwrite, d);
      var out := ImagePath(data, outdir, types[|types| - 1]);
      if out in d1 && !overwrite then d1 else d1[out := Image(fig)]
  }

  /** gen_figure(data_filepath, figure_types, out_dirpath, overwrite) once
      the data is read: nothing when the read gave None, else the figure
      titled with the file name. */
  method GenFigure(data: string, types: seq<string>, outdir: Option<string>, read: Option<(Table, int)>,
                   overwrite: bool, disk: Disk) returns (d: Disk)
    ensures read.None? ==> d == disk
    ensures read.Some? ==> d == Figures(data, outdir, types, Figure(read.value.0, read.value.1, BaseName(data)), overwrite, disk)
  {
    d := disk;
    if read.None? {
      return;
    }
    var fig := Figure(read.value.0, read.value.1, BaseName(data));
    for i := 0 to |types|
      invariant d == Figures(data, outdir, types[..i], fig, overwrite, disk)
    {
      assert types[..i + 1][..i] == types[..i];
      var out := ImagePath(data, outdir, types[i]);
      if out in d {
        if overwrite {
          d := d[out := Image(fig)];
        }
      } else {
        d := d[out := Image(fig)];
      }
    }
    assert types[..|types|] == types;
  }

  /** A data file whose name has no ".h5" gives its own path as the image
      path when no out dir is given: the image then replaces the data
      file when overwriting, and is skipped otherwise. */
  lemma ImageOverData(dir: string, name: string, typ: string)
    requires name != [] && NoChar(name, '/') && dir != [] && !Contains(name, ".h5")
    ensures ImagePath(JoinPath(dir, name), None, typ) == JoinPath(dir, name)
  {
    BaseNameJoin(dir, name);
    ReplaceAllAbsent(name, ".h5", "." + typ);
    ParentJoin(dir, name);
  }

  /** The parent of a joined path is the directory joined. */
  lemma ParentJoin(dir: string, name: string)
    requires name != [] && NoChar(name, '/') && dir != []
    ensures Parent(JoinPath(dir, name)) == dir
  {
    var p := JoinPath(dir, name);
    assert p[|p| - 1] == name[|name| - 1];
    assert StripTrailingSlashes(p) == p;
    assert p[|dir|] == '/';
    forall q | |dir| < q < |p| ensures p[q] != '/' {
      assert p[q] == name[q - |dir| - 1];
    }
    assert LastIndexBefore(p, '/', |p|) == Some(|dir|);
    assert p[..|dir|] == dir;
  }
}
