/** The two schemas of a merged store (_process_format_v0, _process_format_v1
    and _to_fix_bcm_dateset in wfdata/src/wave/_data.py): the frames a store
    holds, put on the civil µs axis, with the legacy BCM channel renames. */
module Reader {
  import opened Wrappers
  import opened Text
  import opened Civil
  import opened Tables
  import opened Schema
  import Merger
  import Producer
  import Indexer

  /** What a schema reader hands back: the frames and the BPM device names,
      or the (None, None) it returns after logging an error. */
  datatype Read = Read(frames: seq<Framed>, bpmNames: seq<string>) | Failed

  // ----- the legacy renames ----------------------------------------------------

  /** Captures made before this moment carry the two swapped BCM names. */
  const PriorFix: DateTime := DateTime(2025, 5, 12, 10, 0, 0, 0)

  /** The renames {"BCM_D1120": "BCM_D1120c", "BCM_D2183": "BCM_D0989"}. */
  function FixName(n: string): string {
    if n == "BCM_D1120" then "BCM_D1120c"
    else if n == "BCM_D2183" then "BCM_D0989"
    else n
  }

  /** _to_fix_bcm_dateset(filename): the first 15 characters of the file name
      read as "%Y%m%dT%H%M%S", compared strictly with PriorFix. When they do
      not parse, the warning refers to a name that is not defined, so the
      call raises. */
  function FixBcm(filename: string): (r: Result<bool, Raised>)
    ensures r.Ok? <==> Strptime(Prefix(BaseName(filename), 15), CompactFormat).Some?
    ensures r.Ok? ==> (r.value <==> Before(Strptime(Prefix(BaseName(filename), 15), CompactFormat).value, PriorFix))
  {
    match Strptime(Prefix(BaseName(filename), 15), CompactFormat)
    case None => Err(Raised)
    case Some(d) => Ok(Before(d, PriorFix))
  }

  /** s[:n] */
  function Prefix(s: string, n: nat): (r: string)
    ensures |r| == if |s| < n then |s| else n
    ensures StartsWith(s, r)
  {
    if |s| <= n then s else s[..n]
  }

  /** A file named after its capture second is renamed iff that second lies
      before PriorFix; the microseconds play no part. */
  lemma FixBcmOfStamp(dir: string, t: DateTime, rest: string)
    requires Valid(t) && NoChar(rest, '/')
    ensures FixBcm(JoinPath(dir, CompactText(t) + rest)) == Ok(Before(t.(micro := 0), PriorFix))
  {
    var name := CompactText(t) + rest;
    CompactTextShape(t);
    Producer.CompactTextPlain(t);
    NoCharConcat(CompactText(t), rest, '/');
    BaseNameJoin(dir, name);
    assert Prefix(name, 15) == CompactText(t);
    CompactRoundTrip(t);
  }

  /** Whether a capture is renamed does not depend on its microseconds. */
  lemma PriorFixSecond(t: DateTime)
    requires Valid(t)
    ensures Before(t.(micro := 0), PriorFix) <==> Before(t, PriorFix)
  {
  }

  // ----- the v0 schema: /BCM/*, /BPM/*, /INFO/PV -------------------------------------

  /** A key that holds a readable frame. */
  predicate FrameAt(st: Store, k: string) {
    k in st && st[k].Frame? && WellFormed(st[k].table)
  }

  /** The frames stored under those of the keys that exist, renamed when
      `fix` holds; None where one of them is not a frame. */
  function KeyFrames(st: Store, keys: seq<string>, fix: bool): (r: Option<seq<Framed>>)
    ensures r.Some? ==> forall k :: 0 <= k < |r.value| ==> WellFormed(r.value[k].table)
    decreases |keys|
  {
    if keys == [] then Some([])
    else
      var k := keys[|keys| - 1];
      match KeyFrames(st, keys[..|keys| - 1], fix)
      case None => None
      case Some(fs) =>
        if k !in st then Some(fs)
        else if !FrameAt(st, k) then None
        else
          var t := st[k].table;
          Some(fs + [Framed(if fix then Rename(t, FixName) else t, None)])
  }

  /** The first BPM device name in s at or after `from`. */
  function FirstBpm(s: string, from: nat): (r: Option<nat>)
    requires from <= |s|
    ensures r.Some? ==> from <= r.value && BpmNameAt(s, r.value)
    ensures r.Some? ==> forall p :: from <= p < r.value ==> !BpmNameAt(s, p)
    ensures r.None? ==> forall p :: from <= p <= |s| ==> !BpmNameAt(s, p)
    decreases |s| - from
  {
    if BpmNameAt(s, from) then Some(from)
    else if from == |s| then None
    else FirstBpm(s, from + 1)
  }

  /** One line under the substitution of `(BPM_D[0-9]{4}).*` by its group:
      from the first device name on, only the name is kept. */
  function CutLine(l: string): string {
    match FirstBpm(l, 0)
    case Some(p) => l[..p + 9]
    case None => l
  }

  function CutName(s: string): string {
    PerLine(s, CutLine)
  }

  /** The labels filter(regex=r'(BPM_D[0-9]{4}).*') keeps (a search), each
      cut by the substitution. */
  function BpmLabels(labels: seq<string>): seq<string>
    decreases |labels|
  {
    if labels == [] then []
    else
      var l := labels[|labels| - 1];
      BpmLabels(labels[..|labels| - 1]) + (if FirstBpm(l, 0).Some? then [CutName(l)] else [])
  }

  /** The BPM names of a v0 store: its INFO/PV labels that hold a device
      name, cut to it, without repeats in first-occurrence order. */
  function V0Names(pairs: seq<(string, string)>): seq<string> {
    Unique(BpmLabels(Merger.Keys(pairs)))
  }

  /** _process_format_v0(store) */
  function V0(st: Store): (r: Read)
    ensures r.Read? ==> forall k :: 0 <= k < |r.frames| ==> WellFormed(r.frames[k].table)
  {
    match KeyFrames(st, ["/BCM/DATA", "/BCM/NPERMIT"], true)
    case None => Failed
    case Some(bcm) =>
      match KeyFrames(st, ["/BPM/MAG", "/BPM/PHA"], false)
      case None => Failed
      case Some(bpm) =>
        if "/INFO/PV" !in st || !st["/INFO/PV"].Labels? then Failed
        else Read(bcm + bpm, V0Names(st["/INFO/PV"].pairs))
  }

  /** The v0 reader, one key after the other. */
  method FormatV0(st: Store) returns (r: Read)
    ensures r == V0(st)
  {
    var bcmKeys := ["/BCM/DATA", "/BCM/NPERMIT"];
    var bcm: seq<Framed> := [];
    for i := 0 to 2
      invariant KeyFrames(st, bcmKeys[..i], true) == Some(bcm)
    {
      assert bcmKeys[..i + 1][..i] == bcmKeys[..i];
      var k := bcmKeys[i];
      if k in st {
        if !FrameAt(st, k) {
          KeyFramesFail(st, bcmKeys, i + 1, true);
          return Failed;
        }
        bcm := bcm + [Framed(Rename(st[k].table, FixName), None)];
      }
    }
    assert bcmKeys[..2] == bcmKeys;
    var bpmKeys := ["/BPM/MAG", "/BPM/PHA"];
    var bpm: seq<Framed> := [];
    for i := 0 to 2
      invariant KeyFrames(st, bpmKeys[..i], false) == Some(bpm)
    {
      assert bpmKeys[..i + 1][..i] == bpmKeys[..i];
      var k := bpmKeys[i];
      if k in st {
        if !FrameAt(st, k) {
          KeyFramesFail(st, bpmKeys, i + 1, false);
          return Failed;
        }
        bpm := bpm + [Framed(st[k].table, None)];
      }
    }
    assert bpmKeys[..2] == bpmKeys;
    if "/INFO/PV" !in st || !st["/INFO/PV"].Labels? {
      return Failed;
    }
    r := Read(bcm + bpm, V0Names(st["/INFO/PV"].pairs));
  }

  lemma {:induction false} KeyFramesFail(st: Store, keys: seq<string>, k: nat, fix: bool)
    requires k <= |keys| && KeyFrames(st, keys[..k], fix).None?
    ensures KeyFrames(st, keys, fix).None?
    decreases |keys| - k
  {
    if k < |keys| {
      assert keys[..k + 1][..k] == keys[..k];
      KeyFramesFail(st, keys, k + 1, fix);
    } else {
      assert keys[..k] == keys;
    }
  }

  /** The labels the merger writes for a BPM channel name that device. */
  lemma CutChannelLabel(digits: string, c: Producer.Channel)
    requires |digits| == 4 && AllDigits(digits)
    requires (c.Phase? || c.Magnitude?) ==> 1 <= c.i <= 4
    ensures FirstBpm("BPM_D" + digits + ":" + Producer.ChannelTag(c), 0).Some?
    ensures CutName("BPM_D" + digits + ":" + Producer.ChannelTag(c)) == "BPM_D" + digits
  {
    var tag := Producer.ChannelTag(c);
    var l := "BPM_D" + digits + ":" + tag;
    assert l[..5] == "BPM_D" && l[5..9] == digits;
    assert BpmNameAt(l, 0);
    assert FirstBpm(l, 0) == Some(0);
    assert NoChar(tag, '\n') by {
      if !c.BeamState? {
        assert Str(c.i) == [Digit(c.i)];
      }
    }
    forall i | 0 <= i < |l| ensures l[i] != '\n' {
      if i < 10 {
        assert l[i] == ("BPM_D" + digits + ":")[i];
      } else {
        assert l[i] == tag[i - 10];
      }
    }
    Indexer.FirstLineWhole(l);
    assert l[..9] == "BPM_D" + digits;
  }

  /** A key the v0 reader can read: absent, or holding a frame. */
  predicate Readable(st: Store, k: string) {
    k in st ==> FrameAt(st, k)
  }

  /** The frame stored under k, renamed when `fix` holds, if k exists. */
  function Stored(st: Store, k: string, fix: bool): (r: seq<Framed>)
    requires Readable(st, k)
    ensures |r| == if k in st then 1 else 0
  {
    if k in st then [Framed(if fix then Rename(st[k].table, FixName) else st[k].table, None)] else []
  }

  lemma KeyFramesTwo(st: Store, a: string, b: string, fix: bool)
    ensures KeyFrames(st, [a, b], fix).Some? <==> Readable(st, a) && Readable(st, b)
    ensures KeyFrames(st, [a, b], fix).Some? ==> KeyFrames(st, [a, b], fix).value == Stored(st, a, fix) + Stored(st, b, fix)
  {
    assert [a][..0] == [];
    assert KeyFrames(st, [], fix) == Some([]);
    if Readable(st, a) {
      assert [] + Stored(st, a, fix) == Stored(st, a, fix);
      assert KeyFrames(st, [a], fix) == Some(Stored(st, a, fix));
    }
    assert [a, b][..1] == [a];
  }

  /** The v0 reader reads every present one of its four keys, renaming the
      BCM frames whatever the capture date, and reports the device names of
      /INFO/PV; it gives up where a present key is not a frame or /INFO/PV
      is missing. */
  lemma V0Shape(st: Store)
    ensures V0(st).Read? <==>
              && Readable(st, "/BCM/DATA") && Readable(st, "/BCM/NPERMIT")
              && Readable(st, "/BPM/MAG") && Readable(st, "/BPM/PHA")
              && "/INFO/PV" in st && st["/INFO/PV"].Labels?
    ensures V0(st).Read? ==>
              && V0(st).frames == Stored(st, "/BCM/DATA", true) + Stored(st, "/BCM/NPERMIT", true)
                                  + Stored(st, "/BPM/MAG", false) + Stored(st, "/BPM/PHA", false)
              && V0(st).bpmNames == Unique(BpmLabels(Merger.Keys(st["/INFO/PV"].pairs)))
  {
    KeyFramesTwo(st, "/BCM/DATA", "/BCM/NPERMIT", true);
    KeyFramesTwo(st, "/BPM/MAG", "/BPM/PHA", false);
  }

  /** The labels kept are those holding a device name, each cut. */
  lemma {:induction false} BpmLabelsOf(labels: seq<string>)
    ensures forall n :: n in BpmLabels(labels) <==>
              exists l :: l in labels && FirstBpm(l, 0).Some? && n == CutName(l)
    decreases |labels|
  {
    if labels != [] {
      var init := labels[..|labels| - 1];
      BpmLabelsOf(init);
      assert labels == init + [labels[|labels| - 1]];
      assert forall l :: l in labels <==> l in init || l == labels[|labels| - 1];
    }
  }

  /** A one-line label is cut right after its first device name, so its
      v0 BPM name ends with that name. */
  lemma CutOneLine(l: string)
    requires NoChar(l, '\n') && FirstBpm(l, 0).Some?
    ensures CutName(l) == l[..FirstBpm(l, 0).value + 9]
    ensures BpmNameAt(CutName(l), |CutName(l)| - 9)
  {
    Indexer.FirstLineWhole(l);
    var p := FirstBpm(l, 0).value;
    var c := l[..p + 9];
    assert c[p..p + 5] == l[p..p + 5] && c[p + 5..p + 9] == l[p + 5..p + 9];
  }

  // ----- the v1 schema: /t0, /grp, /bcm, /bpm, /bcm_fscale ------------------------

  /** A group's frame: its members' columns, on 1 µs steps from the group's
      trigger time. */
  function OnAxis(t: Table, t0: int): (r: Table)
    requires WellFormed(t)
    ensures WellFormed(r) && r.names == t.names && r.cols == t.cols
    ensures r.index == Merger.TimeIndex(Start, t0, |t.index|)
  {
    Table(Merger.TimeIndex(Start, t0, |t.index|), t.names, t.cols)
  }

  predicate IsBcmGroup(g: string) {
    StartsWith(g, "BCM")
  }

  function NotBcmGroup(g: string): bool {
    !StartsWith(g, "BCM")
  }

  /** A group whose members are all channels of the frame; the loops skip
      the other groups with a warning. */
  predicate Keeps(g: string, members: map<string, seq<string>>, chans: Table) {
    g in members && AllIn(members[g], chans)
  }

  /** The groups a loop keeps, in group order. */
  function KeptGroups(groups: seq<string>, members: map<string, seq<string>>, chans: Table): (r: seq<string>)
    ensures forall g :: g in r <==> g in groups && Keeps(g, members, chans)
    ensures forall k :: 0 <= k < |r| ==> Keeps(r[k], members, chans)
    decreases |groups|
  {
    if groups == [] then []
    else
      var init := groups[..|groups| - 1];
      var g := groups[|groups| - 1];
      assert forall h :: h in groups <==> h in init || h == g;
      KeptGroups(init, members, chans) + (if Keeps(g, members, chans) then [g] else [])
  }

  /** df[members], renamed when `fix` holds. */
  function GroupTable(chans: Table, ms: seq<string>, fix: bool): (r: Table)
    requires WellFormed(chans) && AllIn(ms, chans)
    ensures WellFormed(r) && r.index == chans.index
  {
    var sel := Select(chans, ms).value;
    if fix then Rename(sel, FixName) else sel
  }

  /** The loop over the BCM groups: a group with a member missing from the
      channels is skipped; None where a kept group has no trigger time. */
  function BcmFrames(groups: seq<string>, members: map<string, seq<string>>, t0: map<string, int>,
                     chans: Table, fix: bool): (r: Option<seq<Framed>>)
    requires WellFormed(chans)
    ensures r.Some? ==> forall k :: 0 <= k < |r.value| ==> WellFormed(r.value[k].table)
    decreases |groups|
  {
    if groups == [] then Some([])
    else
      var g := groups[|groups| - 1];
      match BcmFrames(groups[..|groups| - 1], members, t0, chans, fix)
      case None => None
      case Some(fs) =>
        if !Keeps(g, members, chans) then Some(fs)
        else if g !in t0 then None
        else Some(fs + [Framed(OnAxis(GroupTable(chans, members[g], fix), t0[g]), None)])
  }

  /** The loop over the other groups: the kept ones give a frame and the
      name "BPM_" + group. */
  function BpmFrames(groups: seq<string>, members: map<string, seq<string>>, t0: map<string, int>,
                     chans: Table): (r: Option<(seq<Framed>, seq<string>)>)
    requires WellFormed(chans)
    ensures r.Some? ==> forall k :: 0 <= k < |r.value.0| ==> WellFormed(r.value.0[k].table)
    ensures r.Some? ==> |r.value.0| == |r.value.1|
    decreases |groups|
  {
    if groups == [] then Some(([], []))
    else
      var g := groups[|groups| - 1];
      match BpmFrames(groups[..|groups| - 1], members, t0, chans)
      case None => None
      case Some(acc) =>
        if !Keeps(g, members, chans) then Some(acc)
        else if g !in t0 then None
        else Some((acc.0 + [Framed(OnAxis(GroupTable(chans, members[g], false), t0[g]), None)], acc.1 + ["BPM_" + g]))
  }

  /** The entries the v1 reader reads before its guarded sections: a raise
      where one is missing or of another kind. */
  predicate V1Layout(st: Store) {
    && "/t0" in st && st["/t0"].Anchors?
    && "/grp" in st && st["/grp"].Groups?
    && FrameAt(st, "/bcm") && FrameAt(st, "/bpm")
  }

  /** The fscale map goes to the first BCM frame; with no BCM frame the
      attachment raises inside the guarded section. */
  function AttachScales(fs: seq<Framed>, fscale: Option<Entry>): (r: Option<seq<Framed>>)
    ensures r.Some? ==> |r.value| == |fs| && forall k :: 0 <= k < |fs| ==> r.value[k].table == fs[k].table
    ensures r.None? <==> fscale.Some? && (fs == [] || !fscale.value.Factors?)
  {
    match fscale
    case None => Some(fs)
    case Some(e) =>
      if fs == [] || !e.Factors? then None
      else Some([Framed(fs[0].table, Some(e.values))] + fs[1..])
  }

  /** _process_format_v1(store) */
  function V1(st: Store, filename: string): (r: Result<Read, Raised>)
    ensures r.Ok? && r.value.Read? ==> forall k :: 0 <= k < |r.value.frames| ==> WellFormed(r.value.frames[k].table)
  {
    if !V1Layout(st) then Err(Raised)
    else
      match FixBcm(filename)
      case Err(e) => Err(e)
      case Ok(fix) =>
        var grp := st["/grp"];
        var fscale := if "/bcm_fscale" in st then Some(st["/bcm_fscale"]) else None;
        var bcmGroups := FilterNames(grp.order, IsBcmGroup);
        var bpmGroups := FilterNames(grp.order, NotBcmGroup);
        match BcmFrames(bcmGroups, grp.members, st["/t0"].t0, st["/bcm"].table, fix)
        case None => Ok(Failed)
        case Some(bcm) =>
          match AttachScales(bcm, fscale)
          case None => Ok(Failed)
          case Some(bcm') =>
            match BpmFrames(bpmGroups, grp.members, st["/t0"].t0, st["/bpm"].table)
            case None => Ok(Failed)
            case Some(bpm) =>
              ConcatWellFormed(bcm', bpm.0);
              Ok(Read(bcm' + bpm.0, bpm.1))
  }

  lemma ConcatWellFormed(a: seq<Framed>, b: seq<Framed>)
    requires forall k :: 0 <= k < |a| ==> WellFormed(a[k].table)
    requires forall k :: 0 <= k < |b| ==> WellFormed(b[k].table)
    ensures forall k :: 0 <= k < |a + b| ==> WellFormed((a + b)[k].table)
  {
    forall k | 0 <= k < |a + b| ensures WellFormed((a + b)[k].table) {
      if k >= |a| {
        assert (a + b)[k] == b[k - |a|];
      }
    }
  }

  /** The v1 reader. */
  method FormatV1(st: Store, filename: string) returns (r: Result<Read, Raised>)
    ensures r == V1(st, filename)
  {
    if !V1Layout(st) {
      return Err(Raised);
    }
    var t0 := st["/t0"].t0;
    var grp := st["/grp"];
    var fscale := if "/bcm_fscale" in st then Some(st["/bcm_fscale"]) else None;
    var fixed := FixBcm(filename);
    if fixed.Err? {
      return Err(Raised);
    }
    var bcm := LoadBcm(FilterNames(grp.order, IsBcmGroup), grp.members, t0, st["/bcm"].table, fixed.value);
    if bcm.None? {
      return Ok(Failed);
    }
    var frames := bcm.value;
    if fscale.Some? {
      if frames == [] || !fscale.value.Factors? {
        return Ok(Failed);
      }
      frames := [Framed(frames[0].table, Some(fscale.value.values))] + frames[1..];
    }
    assert AttachScales(bcm.value, fscale) == Some(frames);
    var bpm := LoadBpm(FilterNames(grp.order, NotBcmGroup), grp.members, t0, st["/bpm"].table);
    if bpm.None? {
      return Ok(Failed);
    }
    r := Ok(Read(frames + bpm.value.0, bpm.value.1));
  }

  /** The loop over the BCM groups. */
  method LoadBcm(groups: seq<string>, members: map<string, seq<string>>, t0: map<string, int>,
                 chans: Table, fix: bool) returns (r: Option<seq<Framed>>)
    requires WellFormed(chans)
    ensures r == BcmFrames(groups, members, t0, chans, fix)
  {
    var bcm: seq<Framed> := [];
    for i := 0 to |groups|
      invariant BcmFrames(groups[..i], members, t0, chans, fix) == Some(bcm)
    {
      assert groups[..i + 1][..i] == groups[..i];
      var g := groups[i];
      if !Keeps(g, members, chans) {
        continue;
      }
      if g !in t0 {
        BcmFramesFail(groups, i + 1, members, t0, chans, fix);
        return None;
      }
      var sel := Select(chans, members[g]).value;
      if fix {
        sel := Rename(sel, FixName);
      }
      bcm := bcm + [Framed(OnAxis(sel, t0[g]), None)];
    }
    assert groups[..|groups|] == groups;
    r := Some(bcm);
  }

  /** The loop over the other groups; a skipped group is dropped from the
      names too. */
  method LoadBpm(groups: seq<string>, members: map<string, seq<string>>, t0: map<string, int>,
                 chans: Table) returns (r: Option<(seq<Framed>, seq<string>)>)
    requires WellFormed(chans)
    ensures r == BpmFrames(groups, members, t0, chans)
  {
    var bpm: seq<Framed> := [];
    var names: seq<string> := [];
    for i := 0 to |groups|
      invariant BpmFrames(groups[..i], members, t0, chans) == Some((bpm, names))
    {
      assert groups[..i + 1][..i] == groups[..i];
      var g := groups[i];
      if !Keeps(g, members, chans) {
        continue;
      }
      if g !in t0 {
        BpmFramesFail(groups, i + 1, members, t0, chans);
        return None;
      }
      bpm := bpm + [Framed(OnAxis(Select(chans, members[g]).value, t0[g]), None)];
      names := names + ["BPM_" + g];
    }
    assert groups[..|groups|] == groups;
    r := Some((bpm, names));
  }

  lemma {:induction false} BcmFramesFail(groups: seq<string>, k: nat, members: map<string, seq<string>>,
                                         t0: map<string, int>, chans: Table, fix: bool)
    requires WellFormed(chans)
    requires k <= |groups| && BcmFrames(groups[..k], members, t0, chans, fix).None?
    ensures BcmFrames(groups, members, t0, chans, fix).None?
    decreases |groups| - k
  {
    if k < |groups| {
      assert groups[..k + 1][..k] == groups[..k];
      BcmFramesFail(groups, k + 1, members, t0, chans, fix);
    } else {
      assert groups[..k] == groups;
    }
  }

  lemma {:induction false} BpmFramesFail(groups: seq<string>, k: nat, members: map<string, seq<string>>,
                                         t0: map<string, int>, chans: Table)
    requires WellFormed(chans)
    requires k <= |groups| && BpmFrames(groups[..k], members, t0, chans).None?
    ensures BpmFrames(groups, members, t0, chans).None?
    decreases |groups| - k
  {
    if k < |groups| {
      assert groups[..k + 1][..k] == groups[..k];
      BpmFramesFail(groups, k + 1, members, t0, chans);
    } else {
      assert groups[..k] == groups;
    }
  }

  /** The BCM loop succeeds iff every kept group has a trigger time, and
      then frame k is the k-th kept group's channels on the 1 µs axis from
      that group's own t0. */
  lemma {:induction false} BcmFramesKept(groups: seq<string>, members: map<string, seq<string>>,
                                         t0: map<string, int>, chans: Table, fix: bool)
    requires WellFormed(chans)
    ensures var kept := KeptGroups(groups, members, chans);
            BcmFrames(groups, members, t0, chans, fix).Some? <==> forall g :: g in kept ==> g in t0
    ensures var kept := KeptGroups(groups, members, chans);
            BcmFrames(groups, members, t0, chans, fix).Some? ==>
              var fs := BcmFrames(groups, members, t0, chans, fix).value;
              && |fs| == |kept|
              && forall k :: 0 <= k < |kept| ==>
                   kept[k] in t0 && fs[k] == Framed(OnAxis(GroupTable(chans, members[kept[k]], fix), t0[kept[k]]), None)
    decreases |groups|
  {
    if groups != [] {
      var init := groups[..|groups| - 1];
      var g := groups[|groups| - 1];
      BcmFramesKept(init, members, t0, chans, fix);
      var ki := KeptGroups(init, members, chans);
      var kept := KeptGroups(groups, members, chans);
      assert kept == ki + (if Keeps(g, members, chans) then [g] else []);
      if BcmFrames(groups, members, t0, chans, fix).Some? && Keeps(g, members, chans) {
        var fs := BcmFrames(init, members, t0, chans, fix).value;
        assert BcmFrames(groups, members, t0, chans, fix).value
               == fs + [Framed(OnAxis(GroupTable(chans, members[g], fix), t0[g]), None)];
      }
    }
  }

  /** The same for the BPM loop, whose names are "BPM_" + the kept groups,
      in group order. */
  lemma {:induction false} BpmFramesKept(groups: seq<string>, members: map<string, seq<string>>,
                                         t0: map<string, int>, chans: Table)
    requires WellFormed(chans)
    ensures var kept := KeptGroups(groups, members, chans);
            BpmFrames(groups, members, t0, chans).Some? <==> forall g :: g in kept ==> g in t0
    ensures var kept := KeptGroups(groups, members, chans);
            BpmFrames(groups, members, t0, chans).Some? ==>
              var r := BpmFrames(groups, members, t0, chans).value;
              && |r.0| == |kept| && |r.1| == |kept|
              && forall k :: 0 <= k < |kept| ==>
                   && kept[k] in t0
                   && r.0[k] == Framed(OnAxis(GroupTable(chans, members[kept[k]], false), t0[kept[k]]), None)
                   && r.1[k] == "BPM_" + kept[k]
    decreases |groups|
  {
    if groups != [] {
      var init := groups[..|groups| - 1];
      var g := groups[|groups| - 1];
      BpmFramesKept(init, members, t0, chans);
      var ki := KeptGroups(init, members, chans);
      var kept := KeptGroups(groups, members, chans);
      assert kept == ki + (if Keeps(g, members, chans) then [g] else []);
      if BpmFrames(groups, members, t0, chans).Some? && Keeps(g, members, chans) {
        var acc := BpmFrames(init, members, t0, chans).value;
        assert BpmFrames(groups, members, t0, chans).value
               == (acc.0 + [Framed(OnAxis(GroupTable(chans, members[g], false), t0[g]), None)], acc.1 + ["BPM_" + g]);
      }
    }
  }

  /** A v1 read: the frames of the kept BCM groups, in group order and on
      their own trigger times, the first of them carrying the fscale
      factors when the store has them, then those of the kept other groups,
      named "BPM_" + group. */
  lemma V1Shape(st: Store, filename: string, rd: Read)
    requires V1(st, filename) == Ok(rd) && rd.Read?
    ensures V1Layout(st) && FixBcm(filename).Ok?
    ensures var grp := st["/grp"];
            var fscale := if "/bcm_fscale" in st then Some(st["/bcm_fscale"]) else None;
            KeptShape(FilterNames(grp.order, IsBcmGroup), FilterNames(grp.order, NotBcmGroup), grp.members,
                      st["/t0"].t0, st["/bcm"].table, st["/bpm"].table, FixBcm(filename).value, fscale, rd)
  {
    V1Steps(st, filename);
    var grp := st["/grp"];
    var fscale := if "/bcm_fscale" in st then Some(st["/bcm_fscale"]) else None;
    KeptShapeOf(FilterNames(grp.order, IsBcmGroup), FilterNames(grp.order, NotBcmGroup), grp.members,
                st["/t0"].t0, st["/bcm"].table, st["/bpm"].table, FixBcm(filename).value, fscale, rd);
  }

  /** What V1Shape states, over the parts of the store: the frames of the
      kept BCM groups then of the kept other groups, each on its own
      trigger time, the factors on the first frame only, and the names. */
  predicate KeptShape(bcmGroups: seq<string>, bpmGroups: seq<string>, members: map<string, seq<string>>,
                      t0: map<string, int>, bcmChans: Table, bpmChans: Table, fix: bool,
                      fscale: Option<Entry>, rd: Read)
    requires WellFormed(bcmChans) && WellFormed(bpmChans) && rd.Read?
  {
    var n := |KeptGroups(bcmGroups, members, bcmChans)|;
    && BcmShape(rd.frames, bcmGroups, members, t0, bcmChans, fix)
    && BpmShape(rd.frames, n, rd.bpmNames, bpmGroups, members, t0, bpmChans)
    && (forall k :: 0 < k < |rd.frames| ==> rd.frames[k].fscale.None?)
    && (fscale.Some? ==> n > 0 && fscale.value.Factors?)
    && (|rd.frames| > 0 ==> rd.frames[0].fscale == if fscale.Some? then Some(fscale.value.values) else None)
  }

  /** Frame k is the k-th kept BCM group's, on its own trigger time. */
  predicate BcmShape(frames: seq<Framed>, groups: seq<string>, members: map<string, seq<string>>,
                     t0: map<string, int>, chans: Table, fix: bool)
    requires WellFormed(chans)
  {
    var kept := KeptGroups(groups, members, chans);
    && |kept| <= |frames|
    && forall k :: 0 <= k < |kept| ==>
         kept[k] in t0 && frames[k].table == OnAxis(GroupTable(chans, members[kept[k]], fix), t0[kept[k]])
  }

  /** From `offset` on, the frames and the names are those of the kept
      groups, in order, and nothing follows. */
  predicate BpmShape(frames: seq<Framed>, offset: nat, names: seq<string>, groups: seq<string>,
                     members: map<string, seq<string>>, t0: map<string, int>, chans: Table)
    requires WellFormed(chans)
  {
    var kept := KeptGroups(groups, members, chans);
    && |frames| == offset + |kept| && |names| == |kept|
    && forall k :: 0 <= k < |kept| ==>
         && kept[k] in t0
         && frames[offset + k].table == OnAxis(GroupTable(chans, members[kept[k]], false), t0[kept[k]])
         && names[k] == "BPM_" + kept[k]
  }

  lemma KeptShapeOf(bcmGroups: seq<string>, bpmGroups: seq<string>, members: map<string, seq<string>>,
                    t0: map<string, int>, bcmChans: Table, bpmChans: Table, fix: bool,
                    fscale: Option<Entry>, rd: Read)
    requires WellFormed(bcmChans) && WellFormed(bpmChans)
    requires var bcm := BcmFrames(bcmGroups, members, t0, bcmChans, fix);
             var bpm := BpmFrames(bpmGroups, members, t0, bpmChans);
             && bcm.Some? && AttachScales(bcm.value, fscale).Some? && bpm.Some?
             && rd == Read(AttachScales(bcm.value, fscale).value + bpm.value.0, bpm.value.1)
    ensures KeptShape(bcmGroups, bpmGroups, members, t0, bcmChans, bpmChans, fix, fscale, rd)
  {
    var bcm := BcmFrames(bcmGroups, members, t0, bcmChans, fix).value;
    var bpm := BpmFrames(bpmGroups, members, t0, bpmChans).value;
    var front := AttachScales(bcm, fscale).value;
    BcmShapeOf(bcm, fscale, bpm.0, bcmGroups, members, t0, bcmChans, fix);
    BpmShapeOf(front, bpm.0, bpm.1, bpmGroups, members, t0, bpmChans);
    BcmFramesKept(bcmGroups, members, t0, bcmChans, fix);
    BpmFramesKept(bpmGroups, members, t0, bpmChans);
    AttachedConcat(bcm, fscale, bpm.0);
  }

  lemma BcmShapeOf(bcm: seq<Framed>, fscale: Option<Entry>, rest: seq<Framed>, groups: seq<string>,
                   members: map<string, seq<string>>, t0: map<string, int>, chans: Table, fix: bool)
    requires WellFormed(chans) && BcmFrames(groups, members, t0, chans, fix) == Some(bcm)
    requires AttachScales(bcm, fscale).Some?
    ensures BcmShape(AttachScales(bcm, fscale).value + rest, groups, members, t0, chans, fix)
  {
    BcmFramesKept(groups, members, t0, chans, fix);
    var all := AttachScales(bcm, fscale).value + rest;
    forall k | 0 <= k < |bcm| ensures all[k].table == bcm[k].table {
      assert all[k] == AttachScales(bcm, fscale).value[k];
    }
  }

  lemma BpmShapeOf(front: seq<Framed>, bpm: seq<Framed>, names: seq<string>, groups: seq<string>,
                   members: map<string, seq<string>>, t0: map<string, int>, chans: Table)
    requires WellFormed(chans) && BpmFrames(groups, members, t0, chans) == Some((bpm, names))
    ensures BpmShape(front + bpm, |front|, names, groups, members, t0, chans)
  {
    BpmFramesKept(groups, members, t0, chans);
    forall k | 0 <= k < |bpm| ensures (front + bpm)[|front| + k] == bpm[k] {
    }
  }

  /** The steps of a v1 read that succeeds. */
  lemma V1Steps(st: Store, filename: string)
    requires V1(st, filename).Ok? && V1(st, filename).value.Read?
    ensures V1Layout(st) && FixBcm(filename).Ok?
    ensures var grp := st["/grp"];
            var t0 := st["/t0"].t0;
            var bcm := BcmFrames(FilterNames(grp.order, IsBcmGroup), grp.members, t0, st["/bcm"].table, FixBcm(filename).value);
            var fscale := if "/bcm_fscale" in st then Some(st["/bcm_fscale"]) else None;
            var bpm := BpmFrames(FilterNames(grp.order, NotBcmGroup), grp.members, t0, st["/bpm"].table);
            && bcm.Some? && AttachScales(bcm.value, fscale).Some? && bpm.Some?
            && V1(st, filename).value == Read(AttachScales(bcm.value, fscale).value + bpm.value.0, bpm.value.1)
  {
  }

  /** The factors go on the first BCM frame only, and the BPM frames follow. */
  lemma AttachedConcat(bcm: seq<Framed>, fscale: Option<Entry>, bpm: seq<Framed>)
    requires AttachScales(bcm, fscale).Some?
    requires forall k :: 0 <= k < |bcm| ==> bcm[k].fscale.None?
    requires forall k :: 0 <= k < |bpm| ==> bpm[k].fscale.None?
    ensures var all := AttachScales(bcm, fscale).value + bpm;
            && |all| == |bcm| + |bpm|
            && (forall k :: 0 <= k < |bcm| ==> all[k].table == bcm[k].table)
            && (forall k :: 0 <= k < |bpm| ==> all[|bcm| + k] == bpm[k])
            && (forall k :: 0 < k < |all| ==> all[k].fscale.None?)
            && (fscale.Some? ==> |bcm| > 0 && fscale.value.Factors?)
            && (|all| > 0 ==> all[0].fscale == if fscale.Some? then Some(fscale.value.values) else None)
  {
    var all := AttachScales(bcm, fscale).value + bpm;
    forall k | 0 < k < |all| ensures all[k].fscale.None? {
      if k >= |bcm| {
        assert all[k] == bpm[k - |bcm|];
      }
    }
  }

  /** A fscale entry with no BCM frame to carry it makes the v1 reader give
      up, whatever else the store holds. */
  lemma ScalesNeedBcm(st: Store, filename: string)
    requires V1Layout(st) && FixBcm(filename).Ok? && "/bcm_fscale" in st
    requires BcmFrames(FilterNames(st["/grp"].order, IsBcmGroup), st["/grp"].members, st["/t0"].t0,
                       st["/bcm"].table, FixBcm(filename).value) == Some([])
    ensures V1(st, filename) == Ok(Failed)
  {
  }
}
