/** The producer side of the file-name contract (tasks/main_bpm.py): the
    channel names a BPM monitor subscribes to, and the name and place of the
    raw capture file it writes. The indexer reads those names back. */
module Producer {
  import opened Wrappers
  import opened Text
  import opened Civil
  import opened Tables
  import opened Schema
  import opened Indexer

  /** The nine waveforms of one BPM. */
  datatype Channel = BeamState | Phase(i: nat) | Magnitude(i: nat)

  /** The channel at position k of the lists gen_names builds: beam state
      first, then phase and magnitude of electrodes 1 to 4 in turn. */
  function ChannelAt(k: nat): (c: Channel)
    requires k < 9
    ensures k == 0 <==> c == BeamState
    ensures c.Phase? ==> 1 <= c.i <= 4 && k == 2 * c.i - 1
    ensures c.Magnitude? ==> 1 <= c.i <= 4 && k == 2 * c.i
  {
    if k == 0 then BeamState
    else if k % 2 == 1 then Phase((k + 1) / 2)
    else Magnitude(k / 2)
  }

  /** f"{name}:wv_beamst", f"{name}:wv_pha{i}", f"{name}:wv_mag{i}" */
  function PvName(name: string, c: Channel): string {
    match c
    case BeamState => name + ":wv_beamst"
    case Phase(i) => name + ":wv_pha" + Str(i)
    case Magnitude(i) => name + ":wv_mag" + Str(i)
  }

  /** f"{name}:BEAMST", f"{name}:PHA{i}", f"{name}:MAG{i}" */
  function AliasName(name: string, c: Channel): string {
    match c
    case BeamState => name + ":BEAMST"
    case Phase(i) => name + ":PHA" + Str(i)
    case Magnitude(i) => name + ":MAG" + Str(i)
  }

  function PvList(name: string): (r: seq<string>)
    ensures |r| == 9
  {
    seq(9, k requires 0 <= k < 9 => PvName(name, ChannelAt(k)))
  }

  function AliasList(name: string): (r: seq<string>)
    ensures |r| == 9
  {
    seq(9, k requires 0 <= k < 9 => AliasName(name, ChannelAt(k)))
  }

  /** gen_names(name): the trigger PV, the waveform PVs and their aliases,
      position by position the same channel. */
  method GenNames(name: string) returns (tsPv: string, pvs: seq<string>, alias: seq<string>)
    ensures tsPv == name + ":wv_t0"
    ensures pvs == PvList(name) && alias == AliasList(name)
  {
    tsPv := name + ":wv_t0";
    pvs := [name + ":wv_beamst"];
    alias := [name + ":BEAMST"];
    assert pvs == PvList(name)[..1] && alias == AliasList(name)[..1];
    for i := 1 to 5
      invariant pvs == PvList(name)[..2 * i - 1] && alias == AliasList(name)[..2 * i - 1]
    {
      NamesStep(name, i);
      pvs := pvs + [name + ":wv_pha" + Str(i)];
      pvs := pvs + [name + ":wv_mag" + Str(i)];
      alias := alias + [name + ":PHA" + Str(i)];
      alias := alias + [name + ":MAG" + Str(i)];
    }
    assert PvList(name)[..9] == PvList(name) && AliasList(name)[..9] == AliasList(name);
  }

  /** One pass of the loop adds the phase and then the magnitude of one
      electrode. */
  lemma NamesStep(name: string, i: nat)
    requires 1 <= i <= 4
    ensures PvList(name)[..2 * i + 1]
            == PvList(name)[..2 * i - 1] + [name + ":wv_pha" + Str(i)] + [name + ":wv_mag" + Str(i)]
    ensures AliasList(name)[..2 * i + 1]
            == AliasList(name)[..2 * i - 1] + [name + ":PHA" + Str(i)] + [name + ":MAG" + Str(i)]
  {
    assert ChannelAt(2 * i - 1) == Phase(i) && ChannelAt(2 * i) == Magnitude(i);
  }

  /** The text that tells a channel's alias from the others. */
  function ChannelTag(c: Channel): string {
    match c
    case BeamState => "BEAMST"
    case Phase(i) => "PHA" + Str(i)
    case Magnitude(i) => "MAG" + Str(i)
  }

  lemma AliasTag(name: string, c: Channel)
    ensures AliasName(name, c) == name + ":" + ChannelTag(c)
  {
  }

  /** The nine channels of a device are nine different channels, so the
      capture has nine differently named rows. */
  lemma AliasesDistinct(name: string)
    ensures Distinct(AliasList(name))
  {
    var a := AliasList(name);
    forall j, k | 0 <= j < k < 9 ensures a[j] != a[k] {
      var cj, ck := ChannelAt(j), ChannelAt(k);
      AliasTag(name, cj);
      AliasTag(name, ck);
      TagsDiffer(cj, ck);
      assert ChannelTag(cj) == a[j][|name| + 1..];
      assert ChannelTag(ck) == a[k][|name| + 1..];
    }
  }

  lemma TagsDiffer(c: Channel, d: Channel)
    requires c != d
    requires (c.Phase? || c.Magnitude?) ==> 1 <= c.i <= 4
    requires (d.Phase? || d.Magnitude?) ==> 1 <= d.i <= 4
    ensures ChannelTag(c) != ChannelTag(d)
  {
    if c.BeamState? || d.BeamState? {
      assert ChannelTag(c)[0] != ChannelTag(d)[0];
    } else if c.Phase? != d.Phase? {
      assert ChannelTag(c)[0] != ChannelTag(d)[0];
    } else {
      assert Str(c.i) == [Digit(c.i)] && Str(d.i) == [Digit(d.i)];
      assert ChannelTag(c)[3] != ChannelTag(d)[3];
    }
  }

  // ----- the capture file ----------------------------------------------------

  /** name[-5:], the label a device's files carry. */
  function Label(name: string): (r: string)
    ensures |r| == if |name| < 5 then |name| else 5
    ensures EndsWith(name, r)
  {
    if |name| < 5 then name else name[|name| - 5..]
  }

  /** The label of "<system>:BPM_Dnnnn" is "Dnnnn". */
  lemma LabelOfBpm(system: string, digits: string)
    requires |digits| == 4
    ensures Label(system + ":BPM_D" + digits) == "D" + digits
  {
    var name := system + ":BPM_D" + digits;
    assert name[|name| - 5..] == "D" + digits;
  }

  /** ts.strftime("%Y%m%dT%H%M"), the sub-directory of a capture. */
  function SubDir(t: DateTime): (r: string)
    requires Valid(t)
    ensures |r| == 13 && StartsWith(CompactText(t), r)
  {
    CompactTextShape(t);
    CompactText(t)[..13]
  }

  /** f"{bpm_name}-{ts.strftime('%Y%m%dT%H%M%S-%f')}_{ftid}.h5"; `ftid`
      is the text of the fault ID read from the machine-protection system. */
  function FileName(tag: string, t: DateTime, ftid: string): string
    requires Valid(t)
  {
    tag + "-" + (CompactText(t) + "-" + Fixed(t.micro, 6)) + "_" + ftid + ".h5"
  }

  /** data_dir / subdir / fn */
  function OutPath(dataDir: string, tag: string, t: DateTime, ftid: string): string
    requires Valid(t)
  {
    JoinPath(JoinPath(dataDir, SubDir(t)), FileName(tag, t, ftid))
  }

  /** The capture written: the waveforms as rows named by the aliases, with
      the PV names as a column. */
  function Captured(name: string, waves: seq<Column>, width: nat): (r: Capture)
    requires |waves| == 9 && forall k :: 0 <= k < 9 ==> |waves[k]| == width
    ensures CaptureShape(r)
  {
    Capture(AliasList(name), Some(PvList(name)), width, waves)
  }

  lemma FileNameJoined(tag: string, t: DateTime, ftid: string)
    requires Valid(t)
    ensures FileName(tag, t, ftid) == IdJoined((tag, CompactText(t), Fixed(t.micro, 6), ftid))
  {
    Regroup(tag, CompactText(t), Fixed(t.micro, 6), ftid);
  }

  lemma Regroup(a: string, b: string, c: string, d: string)
    ensures a + "-" + (b + "-" + c) + "_" + d + ".h5" == a + ("-" + (b + ("-" + (c + ("_" + (d + ".h5"))))))
  {
  }

  lemma CompactTextPlain(t: DateTime)
    requires Valid(t)
    ensures NoChar(CompactText(t), '\n') && NoChar(CompactText(t), '-') && NoChar(CompactText(t), '/')
  {
    CompactTextShape(t);
    var s := CompactText(t);
    forall i | 0 <= i < |s| ensures s[i] != '\n' && s[i] != '-' && s[i] != '/' {
      assert s[i] == 'T' || IsDigit(s[i]) by {
        FixedPieces(t);
      }
    }
  }

  /** Every character of the compact text is a digit or the 'T'. */
  lemma FixedPieces(t: DateTime)
    requires Valid(t)
    ensures forall i :: 0 <= i < |CompactText(t)| ==> CompactText(t)[i] == 'T' || IsDigit(CompactText(t)[i])
  {
    CompactTextShape(t);
    var a := Fixed(t.year, 4) + Fixed(t.month, 2) + Fixed(t.day, 2);
    var b := Fixed(t.hour, 2) + Fixed(t.minute, 2) + Fixed(t.second, 2);
    DigitsConcat(Fixed(t.year, 4), Fixed(t.month, 2));
    DigitsConcat(Fixed(t.year, 4) + Fixed(t.month, 2), Fixed(t.day, 2));
    DigitsConcat(Fixed(t.hour, 2), Fixed(t.minute, 2));
    DigitsConcat(Fixed(t.hour, 2) + Fixed(t.minute, 2), Fixed(t.second, 2));
    assert CompactText(t) == a + "T" + b;
    forall i | 0 <= i < 15 ensures CompactText(t)[i] == 'T' || IsDigit(CompactText(t)[i]) {
      if i < 8 { assert CompactText(t)[i] == a[i]; }
      else if i > 8 { assert CompactText(t)[i] == b[i - 9]; }
    }
  }

  lemma DigitsConcat(a: string, b: string)
    requires AllDigits(a) && AllDigits(b)
    ensures AllDigits(a + b)
  {
    forall i | 0 <= i < |a + b| ensures IsDigit((a + b)[i]) {
      if i >= |a| { assert (a + b)[i] == b[i - |a|]; }
    }
  }

  lemma DigitsPlain(s: string)
    requires AllDigits(s)
    ensures NoChar(s, '\n') && NoChar(s, '-') && NoChar(s, '_') && NoChar(s, '/')
  {
    forall i | 0 <= i < |s| ensures s[i] != '\n' && s[i] != '-' && s[i] != '_' && s[i] != '/' {
      assert IsDigit(s[i]);
    }
  }

  lemma NameNoSlash(tag: string, t: DateTime, ftid: string)
    requires Valid(t) && NoChar(tag, '/') && NoChar(ftid, '/')
    ensures NoChar(FileName(tag, t, ftid), '/')
  {
    CompactTextPlain(t);
    DigitsPlain(Fixed(t.micro, 6));
    var c := CompactText(t);
    var u := Fixed(t.micro, 6);
    NoCharConcat(tag, "-", '/');
    NoCharConcat(tag + "-", c, '/');
    NoCharConcat(c, "-", '/');
    NoCharConcat(c + "-", u, '/');
    NoCharConcat(tag + "-", c + "-" + u, '/');
    NoCharConcat(tag + "-" + (c + "-" + u), "_", '/');
    NoCharConcat(tag + "-" + (c + "-" + u) + "_", ftid, '/');
    NoCharConcat(tag + "-" + (c + "-" + u) + "_" + ftid, ".h5", '/');
  }

  /** The indexer's fault-ID pattern splits a written name back into the
      label, the date-time text, the microsecond text and the fault ID.
      The label may hold dashes: the greedy first group takes them. */
  lemma FileNameSplits(tag: string, t: DateTime, ftid: string)
    requires Valid(t) && NoChar(tag, '\n') && NoChar(ftid, '\n') && NoChar(ftid, '_')
    ensures SplitWithId(FileName(tag, t, ftid)) == Some((tag, CompactText(t), Fixed(t.micro, 6), ftid))
  {
    FileNameJoined(tag, t, ftid);
    CompactTextPlain(t);
    DigitsPlain(Fixed(t.micro, 6));
    SplitWithIdOf(tag, CompactText(t), Fixed(t.micro, 6), ftid);
  }

  /** A capture file written by the monitor is indexed under its fault ID,
      with its label as group and a capture time that differs from the
      time written only in the microseconds (see PaddedMicros). */
  lemma CaptureIndexed(dataDir: string, tag: string, t: DateTime, ftid: string, sentinel: int,
                       withCutover: bool)
    requires Valid(t) && NoChar(tag, '\n') && NoChar(tag, '/')
    requires NoChar(ftid, '\n') && NoChar(ftid, '_') && NoChar(ftid, '/')
    ensures var path := OutPath(dataDir, tag, t, ftid);
            var stamp := t.(micro := FractionValue(Str(t.micro)));
            var c := Classify(withCutover, tag, stamp);
            IndexFile(path, false, sentinel, withCutover)
            == Keep(Record(TextId(ftid), tag, FileName(tag, t, ftid), stamp, c.0, c.1, path))
  {
    var path := OutPath(dataDir, tag, t, ftid);
    NameNoSlash(tag, t, ftid);
    BaseNameJoin(JoinPath(dataDir, SubDir(t)), FileName(tag, t, ftid));
    FileNameSplits(tag, t, ftid);
    MicrosReadBack(t, tag, t.micro);
  }

  /** Its capture time is the time written exactly when the microseconds
      are zero or have six significant digits. */
  lemma CaptureTimeExact(dataDir: string, tag: string, t: DateTime, ftid: string, sentinel: int,
                         withCutover: bool)
    requires Valid(t) && NoChar(tag, '\n') && NoChar(tag, '/')
    requires NoChar(ftid, '\n') && NoChar(ftid, '_') && NoChar(ftid, '/')
    ensures var step := IndexFile(OutPath(dataDir, tag, t, ftid), false, sentinel, withCutover);
            step.Keep? && (step.record.stamp == t <==> t.micro == 0 || t.micro >= 100000)
  {
    CaptureIndexed(dataDir, tag, t, ftid, sentinel, withCutover);
    PaddedMicros(t.micro);
  }

  /** The permissive indexer raises on every file the monitor writes. */
  lemma PermissiveRejects(dataDir: string, tag: string, t: DateTime, ftid: string, sentinel: int,
                          withCutover: bool)
    requires Valid(t) && NoChar(tag, '\n') && NoChar(tag, '/')
    requires NoChar(ftid, '\n') && NoChar(ftid, '_') && NoChar(ftid, '/')
    ensures IndexFile(OutPath(dataDir, tag, t, ftid), true, sentinel, withCutover) == Fail
  {
    NameNoSlash(tag, t, ftid);
    BaseNameJoin(JoinPath(dataDir, SubDir(t)), FileName(tag, t, ftid));
    FileNameSplits(tag, t, ftid);
  }
}
