/** The entities the pipeline passes between its stages: the index of raw
    capture files, the content of a raw capture, the keys and entries of an
    HDF5 store, the files the tools write, and the disk they live on. */
module Schema {
  import opened Wrappers
  import opened Text
  import opened Civil
  import opened Tables

  /** An MPS fault ID: the text the file name carries, or the integer the
      permissive indexer substitutes for names that carry none. */
  datatype FaultId = TextId(text: string) | SentinelId(n: int)

  /** str(ftid), as it appears in a merged file name. */
  function IdText(id: FaultId): string {
    match id
    case TextId(s) => s
    case SentinelId(n) => IntText(n)
  }

  /** At p the text holds a BPM device name: "BPM_D" and four ASCII digits. */
  predicate BpmNameAt(s: string, p: nat) {
    p + 9 <= |s| && s[p..p + 5] == "BPM_D" && AllDigits(s[p + 5..p + 9])
  }

  /** 0: the capture time stamps the first sample; 1: the last one. */
  datatype TimeType = Start | End

  datatype DevType = BCM | BPM

  /** One row of the file index. The capture time is kept as the civil
      date-time it was parsed to. */
  datatype Record = Record(id: FaultId, name: string, filename: string, stamp: DateTime,
                           timeType: TimeType, devType: DevType, path: string)

  /** A raw capture file: one row per channel (its alias is the row label,
      the `PV` column its process-variable name), `width` samples per row. */
  datatype Capture = Capture(aliases: seq<string>, pvs: Option<seq<string>>, width: nat,
                             rows: seq<Column>)

  predicate CaptureShape(c: Capture) {
    && |c.rows| == |c.aliases|
    && (forall i :: 0 <= i < |c.rows| ==> |c.rows[i]| == c.width)
    && (c.pvs.Some? ==> |c.pvs.value| == |c.aliases|)
  }

  /** BCM full-scale factors, keyed by the process-variable name of the
      setting. */
  type Scales = map<string, real>

  /** A frame with the attributes the pipeline attaches to it. */
  datatype Framed = Framed(table: Table, fscale: Option<Scales>)

  /** One entry of an HDF5 store. `tStart`, `tZero` and `fscaleJson` are the
      storer attributes the optimised export writes. */
  datatype Entry =
    | Frame(table: Table, tStart: Option<int>, tZero: Option<int>, fscaleJson: Option<Scales>)
    | Labels(pairs: seq<(string, string)>)
    | Stamps(times: seq<(string, int)>)
    | Groups(order: seq<string>, members: map<string, seq<string>>)
    | Anchors(t0: map<string, int>)
    | Factors(values: Scales)

  /** An HDF5 store: its keys carry the leading '/' pandas normalises them to. */
  type Store = map<string, Entry>

  function PlainFrame(t: Table): Entry {
    Frame(t, None, None, None)
  }

  /** A rendered figure: what plot() was given. The drawing itself is not
      modelled. */
  datatype Figure = Figure(data: Table, t0: int, title: string)

  datatype FileContent =
    | Hdf(store: Store)
    | Raw(capture: Capture)
    | Mat(names: seq<string>, vars: map<string, Column>, tStart: int, tZero: int)
    | Csv(table: Table)
    | Xlsx(table: Table, fscale: Option<Scales>)
    | Image(figure: Figure)
    | Lines(lines: seq<string>)
    | Report(records: seq<Record>)

  /** The file system: a path is a file iff it is a key. Directories are
      implicit. */
  type Disk = map<string, FileContent>

  /** A raising call: the exception propagates out of the operation. */
  datatype Raised = Raised

  /** The two copies of the `wave` sources: wfdata/ (current) and
      phantasy_apps/data_manager/wfdata/ (legacy). */
  datatype Copy = Current | Legacy
}
