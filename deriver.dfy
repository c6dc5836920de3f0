/** The columns read_data derives from the aligned frame
    (wfdata/src/wave/_data.py): the DBCM differences of scaled BCM currents,
    the combined magnitude and phase of each BPM, and the per-electrode BPM
    columns it then drops. */
module Deriver {
  import opened Wrappers
  import opened Text
  import opened Tables
  import opened Schema
  import Producer

  // ----- DBCM -----------------------------------------------------------------

  /** s_a * f_a - s_b * f_b, row by row: a NaN in either input stays NaN
      (a series times a factor, then the difference of two series). */
  function ScaledDiff(a: Column, fa: real, b: Column, fb: real): (r: Column)
    requires |a| == |b|
    ensures |r| == |a|
    ensures forall i :: 0 <= i < |a| && a[i].Num? && b[i].Num? ==> r[i] == Num(a[i].v * fa - b[i].v * fb)
    ensures forall i :: 0 <= i < |a| && (a[i].NaN? || b[i].NaN?) ==> r[i] == NaN
  {
    var r := seq(|a|, i requires 0 <= i < |a| => if a[i].Num? && b[i].Num? then Num(a[i].v * fa - b[i].v * fb) else NaN);
    assert forall i :: 0 <= i < |a| ==> r[i] == if a[i].Num? && b[i].Num? then Num(a[i].v * fa - b[i].v * fb) else NaN;
    r
  }

  /** BCM_FSCALE_NAME_MAP, restricted to the ten channels the differences
      use: the process-variable name of each channel's full-scale setting. */
  function ScaleKey(n: string): string {
    if n == "BCM_D1120" then "FE_MEBT:BCM_D1120:FSCALE_CSET"
    else if n == "BCM_D2183" then "FS1_CSS:BCM_D2183:FSCALE_CSET"
    else if n == "BCM_D2264" then "FS1_CSS:BCM_D2264:FSCALE_CSET"
    else if n == "BCM_D2519" then "FS1_BMS:BCM_D2519:FSCALE_CSET"
    else if n == "BCM_D2675" then "FS1_BMS:BCM_D2675:FSCALE_CSET"
    else if n == "BCM_D3936" then "FS2_BTS:BCM_D3936:FSCALE_CSET"
    else if n == "BCM_D4169" then "FS2_BBS:BCM_D4169:FSCALE_CSET"
    else if n == "BCM_D5521" then "BDS_BTS:BCM_D5521:FSCALE_CSET"
    else if n == "BCM_D5789" then "BDS_FFS:BCM_D5789:FSCALE_CSET"
    else "FE_COPY:BCM_D1120:FSCALE_CSET"
  }

  /** The ten channels whose factors are looked up, in lookup order. */
  const Scaled10: seq<string> := ["BCM_D1120", "BCM_D2183", "BCM_D2264", "BCM_D2519", "BCM_D2675",
                                  "BCM_D3936", "BCM_D4169", "BCM_D5521", "BCM_D5789", "BCM_D1120c"]

  /** One difference channel: out = a * f_a - b * f_b. */
  datatype Diff = Diff(out: string, a: string, b: string)

  /** The seven differences, in the order they are added. */
  const Diffs: seq<Diff> := [
    Diff("DBCM_LS1TRANS", "BCM_D1120", "BCM_D2183"),
    Diff("DBCM_CHRGSTAT", "BCM_D2183", "BCM_D2264"),
    Diff("DBCM_STRPEFF", "BCM_D2264", "BCM_D2519"),
    Diff("DBCM_LS2TRANS", "BCM_D2675", "BCM_D3936"),
    Diff("DBCM_LS3TRANS", "BCM_D4169", "BCM_D5521"),
    Diff("DBCM_LINACBDS", "BCM_D1120c", "BCM_D5521"),
    Diff("DBCM_LINACTGT", "BCM_D1120c", "BCM_D5789")
  ]

  /** Every factor lookup finds its key. */
  predicate HasScales(m: Scales) {
    forall i :: 0 <= i < |Scaled10| ==> ScaleKey(Scaled10[i]) in m
  }

  /** The factors of both inputs of a difference are among the ten. */
  lemma FactorsThere(m: Scales, d: Diff)
    requires HasScales(m) && d in Diffs
    ensures ScaleKey(d.a) in m && ScaleKey(d.b) in m
  {
    assert d.a in Scaled10 && d.b in Scaled10;
  }

  /** The new column of difference d: its inputs scaled by their factors,
      then subtracted. */
  function DiffColumn(src: Table, d: Diff, m: Scales): (r: Column)
    requires WellFormed(src) && HasScales(m) && d in Diffs && d.a in src.cols && d.b in src.cols
    ensures |r| == |src.index|
  {
    FactorsThere(m, d);
    ScaledDiff(src.cols[d.a], m[ScaleKey(d.a)], src.cols[d.b], m[ScaleKey(d.b)])
  }

  /** One `if s_a is not None and s_b is not None: df[out] = s_a - s_b`,
      reading from the copy `src` taken before any column was added. */
  function AddDiff(acc: Table, src: Table, d: Diff, m: Scales): (r: Table)
    requires WellFormed(acc) && WellFormed(src) && acc.index == src.index && HasScales(m)
    requires d in Diffs
    ensures WellFormed(r) && r.index == acc.index
  {
    if d.a in src.cols && d.b in src.cols then
      WithColumn(acc, d.out, DiffColumn(src, d, m))
    else acc
  }

  /** The differences ds added one after the other. */
  function AddDiffs(t: Table, ds: seq<Diff>, m: Scales): (r: Table)
    requires WellFormed(t) && HasScales(m)
    requires forall k :: 0 <= k < |ds| ==> ds[k] in Diffs
    ensures WellFormed(r) && r.index == t.index
    decreases |ds|
  {
    if ds == [] then t
    else AddDiff(AddDiffs(t, ds[..|ds| - 1], m), t, ds[|ds| - 1], m)
  }

  /** _generate_dbcm_inplace(df, bcm_fscale_map): a KeyError unless all ten
      factors are there, else the seven differences. */
  function Dbcm(t: Table, m: Scales): (r: Result<Table, Raised>)
    requires WellFormed(t)
    ensures r.Ok? <==> forall n :: n in Scaled10 ==> ScaleKey(n) in m
    ensures r.Ok? ==> WellFormed(r.value) && r.value.index == t.index
    ensures r.Ok? ==> |t.names| <= |r.value.names| && r.value.names[..|t.names|] == t.names
    ensures r.Ok? ==> forall n :: n in r.value.cols <==>
              n in t.cols || exists d :: d in Diffs && n == d.out && d.a in t.cols && d.b in t.cols
    ensures r.Ok? ==> forall n :: n in t.cols && !IsDiffName(n) ==> r.value.cols[n] == t.cols[n]
  {
    if HasScales(m) then
      AddDiffsColumns(t, Diffs, m);
      AddDiffsKeeps(t, Diffs, m);
      Ok(AddDiffs(t, Diffs, m))
    else
      Err(Raised)
  }

  /** The name of one of the seven differences. */
  predicate IsDiffName(n: string) {
    exists k :: 0 <= k < |Diffs| && Diffs[k].out == n
  }

  /** The ten lookups `bcm_fscale_map[BCM_FSCALE_NAME_MAP[n]]`, stopping
      at the first missing one. */
  method LookUpScales(m: Scales) returns (found: bool)
    ensures found <==> HasScales(m)
  {
    for i := 0 to |Scaled10|
      invariant forall j :: 0 <= j < i ==> ScaleKey(Scaled10[j]) in m
    {
      if ScaleKey(Scaled10[i]) !in m {
        return false;
      }
    }
    return true;
  }

  /** The in-place generation: the ten lookups, the copy, then seven guarded
      assignments. */
  method GenerateDbcm(df: Table, m: Scales) returns (r: Result<Table, Raised>)
    requires WellFormed(df)
    ensures r == Dbcm(df, m)
  {
    var found := LookUpScales(m);
    if !found {
      return Err(Raised);
    }
    var dfc := df;
    var out := df;
    assert Diffs[..0] == [];
    for k := 0 to |Diffs|
      invariant WellFormed(out) && out == AddDiffs(dfc, Diffs[..k], m)
    {
      assert Diffs[..k + 1][..k] == Diffs[..k];
      var d := Diffs[k];
      if d.a in dfc.cols && d.b in dfc.cols {
        FactorsThere(m, d);
        var fa, fb := m[ScaleKey(d.a)], m[ScaleKey(d.b)];
        out := WithColumn(out, d.out, ScaledDiff(dfc.cols[d.a], fa, dfc.cols[d.b], fb));
      }
    }
    assert Diffs[..|Diffs|] == Diffs;
    r := Ok(out);
  }

  /** The outcome of the generation, column by column: a difference is
      there iff both its inputs are (or a column of that name was there
      before). */
  lemma {:induction false} AddDiffsColumns(t: Table, ds: seq<Diff>, m: Scales)
    requires WellFormed(t) && HasScales(m)
    requires forall k :: 0 <= k < |ds| ==> ds[k] in Diffs
    ensures var r := AddDiffs(t, ds, m);
            forall n :: n in r.cols <==>
              n in t.cols || exists d :: d in ds && n == d.out && d.a in t.cols && d.b in t.cols
    decreases |ds|
  {
    if ds != [] {
      var init := ds[..|ds| - 1];
      var d := ds[|ds| - 1];
      AddDiffsColumns(t, init, m);
      var r0, r := AddDiffs(t, init, m), AddDiffs(t, ds, m);
      forall n
        ensures n in r.cols <==> n in t.cols || exists e :: e in ds && n == e.out && e.a in t.cols && e.b in t.cols
      {
        if n in r.cols && n !in r0.cols {
          assert d in ds && n == d.out && d.a in t.cols && d.b in t.cols;
        }
        if exists e :: e in ds && n == e.out && e.a in t.cols && e.b in t.cols {
          var e :| e in ds && n == e.out && e.a in t.cols && e.b in t.cols;
          if e != d {
            assert e in init;
          }
        }
      }
    }
  }

  /** The columns that were there keep their places, and those no
      difference is named after keep their cells. */
  lemma {:induction false} AddDiffsKeeps(t: Table, ds: seq<Diff>, m: Scales)
    requires WellFormed(t) && HasScales(m)
    requires forall k :: 0 <= k < |ds| ==> ds[k] in Diffs
    ensures var r := AddDiffs(t, ds, m);
            && |t.names| <= |r.names| && r.names[..|t.names|] == t.names
            && forall n :: n in t.cols && (forall k :: 0 <= k < |ds| ==> ds[k].out != n) ==> r.cols[n] == t.cols[n]
    decreases |ds|
  {
    if ds != [] {
      AddDiffsKeeps(t, ds[..|ds| - 1], m);
    }
  }

  /** A difference whose inputs are both there holds their scaled
      difference, unless a later difference has the same name (none does). */
  lemma {:induction false} AddDiffsCells(t: Table, ds: seq<Diff>, m: Scales, k: nat)
    requires WellFormed(t) && HasScales(m)
    requires forall j :: 0 <= j < |ds| ==> ds[j] in Diffs
    requires k < |ds| && ds[k].a in t.cols && ds[k].b in t.cols
    requires forall j :: k < j < |ds| ==> ds[j].out != ds[k].out
    ensures var d := ds[k];
            var r := AddDiffs(t, ds, m);
            d.out in r.cols && r.cols[d.out] == DiffColumn(t, d, m)
    decreases |ds|
  {
    if k < |ds| - 1 {
      AddDiffsCells(t, ds[..|ds| - 1], m, k);
    }
  }

  /** The seven differences have seven different names, so each one present
      holds its own scaled difference. */
  lemma DbcmCells(t: Table, m: Scales, k: nat)
    requires WellFormed(t) && HasScales(m)
    requires k < |Diffs| && Diffs[k].a in t.cols && Diffs[k].b in t.cols
    ensures var d := Diffs[k];
            Dbcm(t, m).Ok? && d.out in Dbcm(t, m).value.cols
            && Dbcm(t, m).value.cols[d.out]
               == DiffColumn(t, d, m)
  {
    forall j | k < j < |Diffs| ensures Diffs[j].out != Diffs[k].out {
      assert Diffs[j].out[5] != Diffs[k].out[5] || Diffs[j].out[6] != Diffs[k].out[6]
          || Diffs[j].out[7] != Diffs[k].out[7] || Diffs[j].out[10] != Diffs[k].out[10];
    }
    AddDiffsCells(t, Diffs, m, k);
  }

  /** BCM6 plays no part, and neither does the channel the v0 renames make
      BCM_D0989. */
  lemma DbcmInputs(d: Diff)
    requires d in Diffs
    ensures d.a in Scaled10 && d.b in Scaled10 && d.a != "BCM_D0989" && d.b != "BCM_D0989"
  {
  }

  // ----- the BPM phasor columns --------------------------------------------------------

  /** The eight per-electrode columns one BPM's phasor is built from:
      MAG1, PHA1, ..., MAG4, PHA4. */
  function ElectrodeNames(name: string): (r: seq<string>)
    ensures |r| == 8
    ensures forall i :: 1 <= i <= 4 ==> r[2 * i - 2] == name + ":MAG" + Str(i) && r[2 * i - 1] == name + ":PHA" + Str(i)
  {
    var r := [name + ":MAG1", name + ":PHA1", name + ":MAG2", name + ":PHA2",
              name + ":MAG3", name + ":PHA3", name + ":MAG4", name + ":PHA4"];
    assert Str(1) == "1" && Str(2) == "2" && Str(3) == "3" && Str(4) == "4";
    r
  }

  /** The two columns process_bpm_cplx gives each BPM. */
  function PhasorNames(names: seq<string>): (r: seq<string>)
    ensures |r| == 2 * |names|
    ensures forall k :: 0 <= k < |names| ==> r[2 * k] == names[k] + "-MAG" && r[2 * k + 1] == names[k] + "-PHA"
  {
    if names == [] then []
    else [names[0] + "-MAG", names[0] + "-PHA"] + PhasorNames(names[1..])
  }

  predicate HasElectrodes(t: Table, name: string) {
    forall i :: 0 <= i < 8 ==> ElectrodeNames(name)[i] in t.cols
  }

  /** Row `row` of one BPM's eight columns. */
  function ElectrodeRow(t: Table, name: string, row: nat): (r: seq<Cell>)
    requires WellFormed(t) && HasElectrodes(t, name) && row < |t.index|
    ensures |r| == 8
  {
    seq(8, i requires 0 <= i < 8 => t.cols[ElectrodeNames(name)[i]][row])
  }

  /** The column `name-MAG` (part 0) or `name-PHA` (part 1): the phasor
      arithmetic, given as `combine`, applied row by row. */
  function PhasorColumn(t: Table, name: string, combine: seq<Cell> -> (Cell, Cell), part: nat): (r: Column)
    requires WellFormed(t) && HasElectrodes(t, name) && part < 2
    ensures |r| == |t.index|
  {
    seq(|t.index|, row requires 0 <= row < |t.index| =>
      var p := combine(ElectrodeRow(t, name, row)); if part == 0 then p.0 else p.1)
  }

  /** The phasor columns added name by name. */
  function AddPhasors(t: Table, src: Table, names: seq<string>, combine: seq<Cell> -> (Cell, Cell)): (r: Table)
    requires WellFormed(t) && WellFormed(src) && t.index == src.index
    requires forall k :: 0 <= k < |names| ==> HasElectrodes(src, names[k])
    ensures WellFormed(r) && r.index == t.index
    decreases |names|
  {
    if names == [] then t
    else
      var name := names[|names| - 1];
      var acc := AddPhasors(t, src, names[..|names| - 1], combine);
      WithColumn(WithColumn(acc, name + "-MAG", PhasorColumn(src, name, combine, 0)),
                 name + "-PHA", PhasorColumn(src, name, combine, 1))
  }

  /** df[new_cols] = df.apply(partial(process_bpm_cplx, names), axis=1):
      a KeyError where a BPM lacks one of its eight columns. On a frame with
      no rows, apply tries the function once on a stand-in row: when that
      call raises it hands back the frame, which has no tolist, and when it
      succeeds it gives an empty Series, whose empty list does not fit the
      new columns. Either way the assignment raises unless there is no BPM. */
  function BpmComplex(t: Table, names: seq<string>, combine: seq<Cell> -> (Cell, Cell)): (r: Result<Table, Raised>)
    requires WellFormed(t)
    ensures r.Ok? ==> WellFormed(r.value) && r.value.index == t.index
    ensures r.Ok? <==> names == [] || (|t.index| > 0 && forall k :: 0 <= k < |names| ==> HasElectrodes(t, names[k]))
    ensures r.Ok? ==> forall n :: n in r.value.cols <==> n in t.cols || n in PhasorNames(names)
    ensures r.Ok? ==> forall n :: n in t.cols && n !in PhasorNames(names) ==> r.value.cols[n] == t.cols[n]
  {
    if names == [] then Ok(t)
    else if |t.index| == 0 then Err(Raised)
    else if forall k :: 0 <= k < |names| ==> HasElectrodes(t, names[k]) then
      PhasorsAdded(t, t, names, combine);
      Ok(AddPhasors(t, t, names, combine))
    else Err(Raised)
  }

  /** The columns of each BPM after the phasor step: `-MAG` and `-PHA`. */
  lemma {:induction false} PhasorsAdded(t: Table, src: Table, names: seq<string>, combine: seq<Cell> -> (Cell, Cell))
    requires WellFormed(t) && WellFormed(src) && t.index == src.index
    requires forall k :: 0 <= k < |names| ==> HasElectrodes(src, names[k])
    ensures var r := AddPhasors(t, src, names, combine);
            && (forall n :: n in r.cols <==> n in t.cols || n in PhasorNames(names))
            && (forall n :: n in t.cols && n !in PhasorNames(names) ==> r.cols[n] == t.cols[n])
    decreases |names|
  {
    if names != [] {
      var init := names[..|names| - 1];
      var name := names[|names| - 1];
      PhasorsAdded(t, src, init, combine);
      assert init + [name] == names;
      PhasorNamesSnoc(init, name);
      var acc := AddPhasors(t, src, init, combine);
      var r := AddPhasors(t, src, names, combine);
      var mag, pha := name + "-MAG", name + "-PHA";
      assert r.cols == acc.cols[mag := PhasorColumn(src, name, combine, 0)][pha := PhasorColumn(src, name, combine, 1)];
      forall n ensures n in PhasorNames(names) <==> n in PhasorNames(init) || n == mag || n == pha {
        assert PhasorNames(names) == PhasorNames(init) + [mag, pha];
      }
    }
  }

  lemma {:induction false} PhasorNamesSnoc(names: seq<string>, name: string)
    ensures PhasorNames(names + [name]) == PhasorNames(names) + [name + "-MAG", name + "-PHA"]
    decreases |names|
  {
    if names != [] {
      PhasorNamesSnoc(names[1..], name);
      assert (names + [name])[1..] == names[1..] + [name];
    }
  }

  // ----- dropping the per-electrode columns -------------------------------------------------

  /** Where `[1-4]$` would put its digit: the last character, or the one
      before a final '\n'. */
  function EndAt(s: string): (r: Option<nat>)
    ensures r.Some? ==> r.value < |s|
  {
    if |s| >= 1 && s[|s| - 1] != '\n' then Some(|s| - 1)
    else if |s| >= 2 then Some(|s| - 2)
    else None
  }

  predicate LowDigit(c: char) {
    '1' <= c <= '4'
  }

  /** re.search(r"BPM_.*[1-4]{1}$", s): a digit 1 to 4 where `$` allows,
      with "BPM_" earlier on its line. */
  predicate Dropped(s: string) {
    match EndAt(s)
    case None => false
    case Some(e) =>
      var start := match LastIndexBefore(s, '\n', e) case Some(q) => q + 1 case None => 0;
      LowDigit(s[e]) && Contains(s[start..e], "BPM_")
  }

  function Kept(s: string): bool {
    !Dropped(s)
  }

  /** df.drop(columns=df.filter(regex=r"BPM_.*[1-4]{1}$").columns) */
  function DropElectrodes(t: Table): (r: Table)
    requires WellFormed(t)
    ensures WellFormed(r) && r.index == t.index
    ensures forall n :: n in r.cols <==> n in t.cols && !Dropped(n)
    ensures forall n :: n in r.cols ==> r.cols[n] == t.cols[n]
  {
    Filter(t, Kept)
  }

  /** Of a merged BPM's channels, the per-electrode phases and magnitudes are
      dropped and the beam state is kept. */
  lemma DroppedChannel(digits: string, c: Producer.Channel)
    requires |digits| == 4 && AllDigits(digits)
    requires (c.Phase? || c.Magnitude?) ==> 1 <= c.i <= 4
    ensures Dropped("BPM_D" + digits + ":" + Producer.ChannelTag(c)) <==> !c.BeamState?
  {
    var tag := Producer.ChannelTag(c);
    var s := "BPM_D" + digits + ":" + tag;
    if !c.BeamState? {
      assert Str(c.i) == [Digit(c.i)];
    }
    assert s[|s| - 1] == tag[|tag| - 1];
    assert EndAt(s) == Some(|s| - 1);
    forall q | 0 <= q < |s| - 1 ensures s[q] != '\n' {
      if q < 10 {
        assert s[q] == ("BPM_D" + digits + ":")[q];
      } else {
        assert s[q] == tag[q - 10];
      }
    }
    assert LastIndexBefore(s, '\n', |s| - 1) == None;
    assert StartsWith(s[0..|s| - 1], "BPM_");
  }

  /** The phasor columns survive the drop. */
  lemma PhasorsKept(name: string)
    ensures !Dropped(name + "-MAG") && !Dropped(name + "-PHA")
  {
    var a := name + "-MAG";
    var b := name + "-PHA";
    assert a[|a| - 1] == 'G' && b[|b| - 1] == 'A';
  }
}
