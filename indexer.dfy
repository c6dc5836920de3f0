/** The file indexer (read_path in both copies of _utils.py): it walks a
    directory for capture files named `<group>-<date>T<time>-<µs>_<faultId>.h5`,
    takes each name apart with a greedy regular expression, rebuilds the
    capture time, classifies the file, and returns one row per accepted file
    sorted by fault ID. */
module Indexer {
  import opened Wrappers
  import opened Text
  import opened Civil
  import opened Schema

  // ----- the two file-name patterns --------------------------------------

  /** Cut points of `(.*)-(.*)-(.*)_(.*)\.h5` in a line: the three separators
      and the start of ".h5". */
  predicate IdSplitAt(l: string, e1: nat, e2: nat, e3: nat, e4: nat) {
    && e1 < e2 < e3 < e4 && OccursAt(l, ".h5", e4)
    && l[e1] == '-' && l[e2] == '-' && l[e3] == '_'
  }

  /** Cut points of `(.*)-(.*)-(.*)\.h5` in a line. */
  predicate PlainSplitAt(l: string, e1: nat, e2: nat, e3: nat) {
    && e1 < e2 < e3 && OccursAt(l, ".h5", e3)
    && l[e1] == '-' && l[e2] == '-'
  }

  /** The cut points re.match settles on (see IdCutsGreatest). */
  function IdCuts(l: string): (r: Option<(nat, nat, nat, nat)>)
    ensures r.Some? ==> IdSplitAt(l, r.value.0, r.value.1, r.value.2, r.value.3)
  {
    match LastOccurrence(l, ".h5", |l|)
    case None => None
    case Some(h) =>
      match LastIndexBefore(l, '_', h)
      case None => None
      case Some(u) =>
        match LastIndexBefore(l, '-', u)
        case None => None
        case Some(d2) =>
          match LastIndexBefore(l, '-', d2)
          case None => None
          case Some(d1) => Some((d1, d2, u, h))
  }

  /** `.` does not cross a line break, so the match lies in the first line;
      each greedy group takes as much as still lets the rest match, so the
      first success backtracking finds is the greatest split. Here it is
      greatest in every cut at once, and there is none only when no split
      exists at all. */
  lemma IdCutsGreatest(l: string)
    ensures IdCuts(l).Some? ==> forall e1: nat, e2: nat, e3: nat, e4: nat :: IdSplitAt(l, e1, e2, e3, e4) ==>
              && e1 <= IdCuts(l).value.0 && e2 <= IdCuts(l).value.1
              && e3 <= IdCuts(l).value.2 && e4 <= IdCuts(l).value.3
    ensures IdCuts(l).None? <==> forall e1: nat, e2: nat, e3: nat, e4: nat :: !IdSplitAt(l, e1, e2, e3, e4)
  {
    var h := LastOccurrence(l, ".h5", |l|);
    if h.Some? {
      var u := LastIndexBefore(l, '_', h.value);
      if u.Some? {
        var d2 := LastIndexBefore(l, '-', u.value);
        if d2.Some? {
          var d1 := LastIndexBefore(l, '-', d2.value);
          if d1.Some? {
            assert IdSplitAt(l, d1.value, d2.value, u.value, h.value);
          }
        }
      }
    }
  }

  function PlainCuts(l: string): (r: Option<(nat, nat, nat)>)
    ensures r.Some? ==> PlainSplitAt(l, r.value.0, r.value.1, r.value.2)
  {
    match LastOccurrence(l, ".h5", |l|)
    case None => None
    case Some(h) =>
      match LastIndexBefore(l, '-', h)
      case None => None
      case Some(d2) =>
        match LastIndexBefore(l, '-', d2)
        case None => None
        case Some(d1) => Some((d1, d2, h))
  }

  lemma PlainCutsGreatest(l: string)
    ensures PlainCuts(l).Some? ==> forall e1: nat, e2: nat, e3: nat :: PlainSplitAt(l, e1, e2, e3) ==>
              e1 <= PlainCuts(l).value.0 && e2 <= PlainCuts(l).value.1 && e3 <= PlainCuts(l).value.2
    ensures PlainCuts(l).None? <==> forall e1: nat, e2: nat, e3: nat :: !PlainSplitAt(l, e1, e2, e3)
  {
    var h := LastOccurrence(l, ".h5", |l|);
    if h.Some? {
      var d2 := LastIndexBefore(l, '-', h.value);
      if d2.Some? {
        var d1 := LastIndexBefore(l, '-', d2.value);
        if d1.Some? {
          assert PlainSplitAt(l, d1.value, d2.value, h.value);
        }
      }
    }
  }

  /** The text a split covers is its four groups and three separators. */
  lemma IdPieces(l: string, e1: nat, e2: nat, e3: nat, e4: nat)
    requires IdSplitAt(l, e1, e2, e3, e4)
    ensures l[..e4 + 3] == l[..e1] + ("-" + (l[e1 + 1..e2] + ("-" + (l[e2 + 1..e3] + ("_" + (l[e3 + 1..e4] + ".h5"))))))
  {
    var end := e4 + 3;
    assert l[e3 + 1..end] == l[e3 + 1..e4] + ".h5";
    assert l[e3..end] == "_" + l[e3 + 1..end];
    assert l[e2 + 1..end] == l[e2 + 1..e3] + l[e3..end];
    assert l[e2..end] == "-" + l[e2 + 1..end];
    assert l[e1 + 1..end] == l[e1 + 1..e2] + l[e2..end];
    assert l[e1..end] == "-" + l[e1 + 1..end];
    assert l[..end] == l[..e1] + l[e1..end];
  }

  lemma PlainPieces(l: string, e1: nat, e2: nat, e3: nat)
    requires PlainSplitAt(l, e1, e2, e3)
    ensures l[..e3 + 3] == l[..e1] + ("-" + (l[e1 + 1..e2] + ("-" + (l[e2 + 1..e3] + ".h5"))))
  {
    var end := e3 + 3;
    assert l[e2 + 1..end] == l[e2 + 1..e3] + ".h5";
    assert l[e2..end] == "-" + l[e2 + 1..end];
    assert l[e1 + 1..end] == l[e1 + 1..e2] + l[e2..end];
    assert l[e1..end] == "-" + l[e1 + 1..end];
    assert l[..end] == l[..e1] + l[e1..end];
  }

  /** The text a match of the fault-ID pattern covers, from its groups. */
  function IdJoined(g: (string, string, string, string)): string {
    g.0 + ("-" + (g.1 + ("-" + (g.2 + ("_" + (g.3 + ".h5"))))))
  }

  function PlainJoined(g: (string, string, string)): string {
    g.0 + ("-" + (g.1 + ("-" + (g.2 + ".h5"))))
  }

  function IdGroups(l: string, c: (nat, nat, nat, nat)): (string, string, string, string)
    requires IdSplitAt(l, c.0, c.1, c.2, c.3)
  {
    (l[..c.0], l[c.0 + 1..c.1], l[c.1 + 1..c.2], l[c.2 + 1..c.3])
  }

  function PlainGroups(l: string, c: (nat, nat, nat)): (string, string, string)
    requires PlainSplitAt(l, c.0, c.1, c.2)
  {
    (l[..c.0], l[c.0 + 1..c.1], l[c.1 + 1..c.2])
  }

  /** The groups of a split of the first line, joined back, head the name. */
  lemma IdGroupsHead(name: string, c: (nat, nat, nat, nat))
    requires IdSplitAt(FirstLine(name), c.0, c.1, c.2, c.3)
    ensures StartsWith(name, IdJoined(IdGroups(FirstLine(name), c)))
  {
    var l := FirstLine(name);
    IdPieces(l, c.0, c.1, c.2, c.3);
    var p := IdJoined(IdGroups(l, c));
    assert p == l[..c.3 + 3];
    assert name[..|p|] == l[..|p|];
  }

  lemma PlainGroupsHead(name: string, c: (nat, nat, nat))
    requires PlainSplitAt(FirstLine(name), c.0, c.1, c.2)
    ensures StartsWith(name, PlainJoined(PlainGroups(FirstLine(name), c)))
  {
    var l := FirstLine(name);
    PlainPieces(l, c.0, c.1, c.2);
    var p := PlainJoined(PlainGroups(l, c));
    assert p == l[..c.2 + 3];
    assert name[..|p|] == l[..|p|];
  }

  /** re.match(r"(.*)-(.*)-(.*)_(.*)\.h5", name).groups(): group, date-time
      text, microsecond text, fault ID. */
  function SplitWithId(name: string): (r: Option<(string, string, string, string)>)
    ensures r.Some? ==> StartsWith(name, IdJoined(r.value))
  {
    var l := FirstLine(name);
    match IdCuts(l)
    case None => None
    case Some(c) =>
      IdGroupsHead(name, c);
      Some(IdGroups(l, c))
  }

  /** re.match(r"(.*)-(.*)-(.*)\.h5", name).groups() */
  function SplitWithoutId(name: string): (r: Option<(string, string, string)>)
    ensures r.Some? ==> StartsWith(name, PlainJoined(r.value))
  {
    var l := FirstLine(name);
    match PlainCuts(l)
    case None => None
    case Some(c) =>
      PlainGroupsHead(name, c);
      Some(PlainGroups(l, c))
  }

  /** A name matches exactly when some split of its first line exists. */
  lemma SplitWithIdMatches(name: string)
    ensures SplitWithId(name).None? <==>
              forall e1: nat, e2: nat, e3: nat, e4: nat :: !IdSplitAt(FirstLine(name), e1, e2, e3, e4)
  {
    IdCutsGreatest(FirstLine(name));
  }

  lemma SplitWithoutIdMatches(name: string)
    ensures SplitWithoutId(name).None? <==>
              forall e1: nat, e2: nat, e3: nat :: !PlainSplitAt(FirstLine(name), e1, e2, e3)
  {
    PlainCutsGreatest(FirstLine(name));
  }

  /** A name built from four pieces splits back into them when the date
      and microsecond pieces hold no '-', the fault ID holds no '_', and no
      piece holds a line break; the group piece may hold anything else,
      dashes included. */
  lemma SplitWithIdOf(g1: string, g2: string, g3: string, g4: string)
    requires NoChar(g1, '\n') && NoChar(g2, '\n') && NoChar(g3, '\n') && NoChar(g4, '\n')
    requires NoChar(g2, '-') && NoChar(g3, '-') && NoChar(g4, '_')
    ensures SplitWithId(IdJoined((g1, g2, g3, g4))) == Some((g1, g2, g3, g4))
  {
    var name := IdJoined((g1, g2, g3, g4));
    var e1 := |g1|;
    var e2 := e1 + 1 + |g2|;
    var e3 := e2 + 1 + |g3|;
    var e4 := e3 + 1 + |g4|;
    IdJoinedLayout(g1, g2, g3, g4, e1, e2, e3, e4);
    NoCharJoined(g1, g2, g3, g4);
    SplitOfLayout(name, g1, g2, g3, g4, e1, e2, e3, e4);
  }

  /** Where the groups and separators of a joined name sit. */
  lemma IdJoinedLayout(g1: string, g2: string, g3: string, g4: string, e1: nat, e2: nat, e3: nat, e4: nat)
    requires e1 == |g1| && e2 == e1 + 1 + |g2| && e3 == e2 + 1 + |g3| && e4 == e3 + 1 + |g4|
    ensures var l := IdJoined((g1, g2, g3, g4));
            && |l| == e4 + 3 && l[..e1] == g1 && l[e1] == '-' && l[e1 + 1..e2] == g2 && l[e2] == '-'
            && l[e2 + 1..e3] == g3 && l[e3] == '_' && l[e3 + 1..e4] == g4 && l[e4..] == ".h5"
  {
    IdLayout(g1, g2, g3, g4);
    TailLayout(IdJoined((g1, g2, g3, g4)), g2, g3, g4, e1, e2, e3, e4);
  }

  lemma TailLayout(l: string, g2: string, g3: string, g4: string, e1: nat, e2: nat, e3: nat, e4: nat)
    requires e2 == e1 + 1 + |g2| && e3 == e2 + 1 + |g3| && e4 == e3 + 1 + |g4|
    requires e1 + 1 <= |l| && l[e1 + 1..] == g2 + ("-" + (g3 + ("_" + (g4 + ".h5"))))
    ensures && |l| == e4 + 3 && l[e1 + 1..e2] == g2 && l[e2] == '-'
            && l[e2 + 1..e3] == g3 && l[e3] == '_' && l[e3 + 1..e4] == g4 && l[e4..] == ".h5"
  {
    Level(l, e1 + 1, g2, '-', g3 + ("_" + (g4 + ".h5")));
    assert l[e2 + 1..] == g3 + ("_" + (g4 + ".h5"));
    Level(l, e2 + 1, g3, '_', g4 + ".h5");
    assert l[e3 + 1..] == g4 + ".h5";
    LastLevel(l, e3 + 1, g4, ".h5");
  }

  /** A one-line name laid out as four groups and their separators splits
      back into those groups. */
  lemma SplitOfLayout(l: string, g1: string, g2: string, g3: string, g4: string,
                      e1: nat, e2: nat, e3: nat, e4: nat)
    requires e1 == |g1| && e2 == e1 + 1 + |g2| && e3 == e2 + 1 + |g3| && e4 == e3 + 1 + |g4| && |l| == e4 + 3
    requires NoChar(l, '\n') && l[..e1] == g1 && l[e1] == '-' && l[e1 + 1..e2] == g2 && l[e2] == '-' && l[e2 + 1..e3] == g3
    requires l[e3] == '_' && l[e3 + 1..e4] == g4 && l[e4..] == ".h5"
    requires NoChar(g2, '-') && NoChar(g3, '-') && NoChar(g4, '_')
    ensures SplitWithId(l) == Some((g1, g2, g3, g4))
  {
    var c := (e1, e2, e3, e4);
    CutsOfLayout(l, g2, g3, g4, e1, e2, e3, e4);
    assert IdGroups(l, c) == (l[..e1], l[e1 + 1..e2], l[e2 + 1..e3], l[e3 + 1..e4]);
    FirstLineWhole(l);
    SplitWithIdAt(l, c);
  }

  lemma SplitWithIdAt(l: string, c: (nat, nat, nat, nat))
    requires FirstLine(l) == l && IdCuts(l) == Some(c)
    ensures IdSplitAt(l, c.0, c.1, c.2, c.3)
    ensures SplitWithId(l) == Some(IdGroups(l, c))
  {
  }

  /** The cut points of a line laid out as four groups and their
      separators are those separators. */
  lemma CutsOfLayout(l: string, g2: string, g3: string, g4: string, e1: nat, e2: nat, e3: nat, e4: nat)
    requires e2 == e1 + 1 + |g2| && e3 == e2 + 1 + |g3| && e4 == e3 + 1 + |g4| && |l| == e4 + 3
    requires l[e1] == '-' && l[e1 + 1..e2] == g2 && l[e2] == '-' && l[e2 + 1..e3] == g3
    requires l[e3] == '_' && l[e3 + 1..e4] == g4 && l[e4..] == ".h5"
    requires NoChar(g2, '-') && NoChar(g3, '-') && NoChar(g4, '_')
    ensures IdSplitAt(l, e1, e2, e3, e4) && IdCuts(l) == Some((e1, e2, e3, e4))
  {
    assert IdSplitAt(l, e1, e2, e3, e4) by {
      assert l[e4..e4 + 3] == l[e4..];
    }
    forall k | e3 < k < e4 ensures l[k] != '_' {
      assert l[k] == l[e3 + 1..e4][k - e3 - 1];
    }
    forall k | e2 < k < e3 ensures l[k] != '-' {
      assert l[k] == l[e2 + 1..e3][k - e2 - 1];
    }
    forall k | e1 < k < e2 ensures l[k] != '-' {
      assert l[k] == l[e1 + 1..e2][k - e1 - 1];
    }
    IdCutsGreatest(l);
  }

  /** Where the pieces of a joined name sit: each group between its
      separators, and ".h5" at the end. */
  lemma IdLayout(g1: string, g2: string, g3: string, g4: string)
    ensures var name := IdJoined((g1, g2, g3, g4));
            && |name| == |g1| + |g2| + |g3| + |g4| + 6
            && name[..|g1|] == g1 && name[|g1|] == '-'
            && name[|g1| + 1..] == g2 + ("-" + (g3 + ("_" + (g4 + ".h5"))))
  {
    var name := IdJoined((g1, g2, g3, g4));
    assert name[0..] == name;
    Level(name, 0, g1, '-', g2 + ("-" + (g3 + ("_" + (g4 + ".h5")))));
  }

  /** One separator of a joined name, found in the suffix from `i`. */
  lemma Level(s: string, i: nat, a: string, c: char, b: string)
    requires i <= |s| && s[i..] == a + ([c] + b)
    ensures i + |a| < |s| && s[i..i + |a|] == a && s[i + |a|] == c && s[i + |a| + 1..] == b
  {
    assert s[i..][..|a|] == a;
    assert s[i..][|a|] == c;
    assert s[i..][|a| + 1..] == b;
  }

  lemma LastLevel(s: string, i: nat, a: string, b: string)
    requires i <= |s| && s[i..] == a + b
    ensures i + |a| + |b| == |s| && s[i..i + |a|] == a && s[i + |a|..] == b
  {
    assert s[i..][..|a|] == a;
    assert s[i..][|a|..] == b;
  }

  lemma NoCharJoined(g1: string, g2: string, g3: string, g4: string)
    requires NoChar(g1, '\n') && NoChar(g2, '\n') && NoChar(g3, '\n') && NoChar(g4, '\n')
    ensures NoChar(IdJoined((g1, g2, g3, g4)), '\n')
  {
    NoCharConcat(g4, ".h5", '\n');
    NoCharConcat("_", g4 + ".h5", '\n');
    NoCharConcat(g3, "_" + (g4 + ".h5"), '\n');
    NoCharConcat("-", g3 + ("_" + (g4 + ".h5")), '\n');
    NoCharConcat(g2, "-" + (g3 + ("_" + (g4 + ".h5"))), '\n');
    NoCharConcat("-", g2 + ("-" + (g3 + ("_" + (g4 + ".h5")))), '\n');
    NoCharConcat(g1, "-" + (g2 + ("-" + (g3 + ("_" + (g4 + ".h5"))))), '\n');
  }

  lemma {:induction false} FirstLineWhole(s: string)
    requires NoChar(s, '\n')
    ensures FirstLine(s) == s
    decreases |s|
  {
    if s != [] {
      FirstLineWhole(s[1..]);
    }
  }

  // ----- the capture time --------------------------------------------------

  /** T_US_OFFSET: a per-group correction, zero for every group listed. */
  const UsOffsets: map<string, int> := map["BCM4" := 0, "BCM5" := 0, "BCM6" := 0]

  /** T_US_OFFSET.get(group, 0) */
  function UsOffset(group: string): int {
    if group in UsOffsets then UsOffsets[group] else 0
  }

  /** datetime.strptime(f"{date}.{int(us) + offset}", "%Y%m%dT%H%M%S.%f");
      None where int() or strptime raises ValueError. */
  function CaptureTime(group: string, date: string, us: string): (r: Option<DateTime>)
    ensures r.Some? ==> Valid(r.value)
  {
    match PyInt(us)
    case None => None
    case Some(n) => Strptime(date + "." + IntText(n + UsOffset(group)), FractionalFormat)
  }

  /** The six digits a name carries are read back by int() as the
      microseconds they were written from. */
  lemma PyIntFixed(us: nat)
    requires us < 1000000
    ensures PyInt(Fixed(us, 6)) == Some(us)
  {
    assert Pow10(6) == 1000000;
    FixedValue(us, 6);
    PyIntDigits(Fixed(us, 6));
  }

  /** The microsecond text is read as an integer and then as %f, which pads
      on the right (see PaddedMicros). */
  lemma MicrosReadBack(t: DateTime, group: string, us: nat)
    requires Valid(t) && us < 1000000
    ensures CaptureTime(group, CompactText(t), Fixed(us, 6))
            == Some(t.(micro := FractionValue(Str(us))))
  {
    PyIntFixed(us);
    assert UsOffset(group) == 0;
    assert IntText(us) == Str(us);
    FractionalRoundTrip(t, us);
  }

  /** %f pads the integer's digits on the right: they give back the
      microseconds they spell only when they have six digits or are zero. */
  lemma PaddedMicros(us: nat)
    requires us < 1000000
    ensures FractionValue(Str(us)) == us <==> us == 0 || us >= 100000
  {
    FractionValueOfStr(us);
    var k := |Str(us)|;
    assert Pow10(5) == 100000;
    if us >= 100000 {
      StrLonger(us, 6);
      assert k == 6 && Pow10(6 - k) == 1;
    } else if us > 0 {
      StrShorter(us, 5);
      PowMono(1, 6 - k);
      MulAbove(us, Pow10(6 - k));
    }
  }

  lemma MulAbove(n: nat, p: nat)
    requires n > 0 && p >= 2
    ensures n * p > n
  {
    assert n * p == n + n * (p - 1);
  }

  /** A number below 10^w has at most w digits. */
  lemma {:induction false} StrShorter(n: nat, w: nat)
    requires 1 <= w && n < Pow10(w)
    ensures |Str(n)| <= w
    decreases w
  {
    if n >= 10 {
      StrShorter(n / 10, w - 1);
    }
  }

  /** A number at least 10^(w-1) has at least w digits. */
  lemma {:induction false} StrLonger(n: nat, w: nat)
    requires 1 <= w && Pow10(w - 1) <= n
    ensures w <= |Str(n)|
    decreases w
  {
    if w > 1 {
      StrLonger(n / 10, w - 1);
    }
  }

  // ----- classification ----------------------------------------------------

  /** _DATETIME1, the date the BCM acquisition changed its time stamp. */
  const Cutover: DateTime := DateTime(2025, 2, 13, 0, 0, 0, 0)

  /** _DATETIME1 is datetime.strptime("2025-02-13", "%Y-%m-%d"). */
  lemma CutoverParsed()
    ensures Strptime("2025-02-13", DashedDateFormat) == Some(Cutover)
  {
    var vals := [2025, 0, 2, 0, 13];
    CutoverRendered();
    StrptimeCanonical(DashedDateFormat, vals);
  }

  lemma CutoverRendered()
    ensures AllInRange(DashedDateFormat, [2025, 0, 2, 0, 13])
    ensures Flatten(RenderEach(DashedDateFormat, [2025, 0, 2, 0, 13])) == "2025-02-13"
  {
    CutoverPieces();
    assert Flatten(["2025", "-", "02", "-", "13"]) == "2025-02-13";
  }

  lemma CutoverPieces()
    ensures RenderEach(DashedDateFormat, [2025, 0, 2, 0, 13]) == ["2025", "-", "02", "-", "13"]
  {
    var v := [2025, 0, 2, 0, 13];
    assert AllInRange(DashedDateFormat, v);
    var r := RenderEach(DashedDateFormat, v);
    assert r[0] == Fixed(2025, 4) && r[1] == "-" && r[2] == Fixed(2, 2) && r[3] == "-" && r[4] == Fixed(13, 2);
    Fixed2(2);
    Fixed2(13);
    YearText();
    assert r == [r[0], r[1], r[2], r[3], r[4]];
  }

  lemma YearText()
    ensures Fixed(2025, 4) == "2025"
  {
    Fixed2(20);
    assert Fixed(202, 3) == Fixed(20, 2) + ['2'];
    assert Fixed(2025, 4) == Fixed(202, 3) + ['5'];
  }

  /** (time_type, dev_type) of a file. The newer indexer keys the BCM time
      type on the cut-over date (inclusive); the older one has no cut-over. */
  function Classify(withCutover: bool, group: string, stamp: DateTime): (r: (TimeType, DevType))
    ensures r.1 == BCM <==> StartsWith(group, "BCM")
    ensures r.0 == End <==> StartsWith(group, "BCM") && (withCutover ==> AtOrBefore(stamp, Cutover))
  {
    if withCutover && !AtOrBefore(stamp, Cutover) then
      (Start, if StartsWith(group, "BCM") then BCM else BPM)
    else if StartsWith(group, "BCM") then (End, BCM)
    else (Start, BPM)
  }

  // ----- one file ------------------------------------------------------------

  /** What the loop does with one path: skip it with a warning, append a
      record, or raise. */
  datatype Step = Skip | Keep(record: Record) | Fail

  /** The rest of the loop body once the groups are known. */
  function Accept(id: FaultId, group: string, date: string, us: string, name: string, path: string,
                  withCutover: bool): (r: Step)
    ensures r.Keep? ==> r.record.id == id && r.record.name == group && r.record.filename == name
    ensures r.Keep? ==> Valid(r.record.stamp)
  {
    match CaptureTime(group, date, us)
    case None => Fail
    case Some(ts) =>
      var c := Classify(withCutover, group, ts);
      Keep(Record(id, group, name, ts, c.0, c.1, path))
  }

  function IndexFile(path: string, permissive: bool, sentinel: int, withCutover: bool): (r: Step)
    // strict mode: accepted exactly when the fault-ID pattern matches
    ensures !permissive ==> (r.Skip? <==> SplitWithId(BaseName(path)).None?)
    ensures !permissive && r.Keep? ==> r.record.id == TextId(SplitWithId(BaseName(path)).value.3)
    // permissive mode: a name that carries a fault ID unpacks four groups into three names
    ensures permissive && SplitWithId(BaseName(path)).Some? ==> r.Fail?
    ensures permissive ==> (r.Skip? <==> SplitWithId(BaseName(path)).None? && SplitWithoutId(BaseName(path)).None?)
    ensures permissive && r.Keep? ==> r.record.id == SentinelId(sentinel)
  {
    var name := BaseName(path);
    match SplitWithId(name)
    case Some(g) =>
      if permissive then Fail else Accept(TextId(g.3), g.0, g.1, g.2, name, path, withCutover)
    case None =>
      if !permissive then Skip
      else
        match SplitWithoutId(name)
        case None => Skip
        case Some(g) => Accept(SentinelId(sentinel), g.0, g.1, g.2, name, path, withCutover)
  }

  // ----- the walk ------------------------------------------------------------

  /** One entry of the recursive walk: a path and whether it is a regular file. */
  datatype Listed = Listed(path: string, isFile: bool)

  /** rglob(f"*.{file_type}") yields the names that end in the extension;
      the loop then skips what is not a regular file. */
  predicate Candidate(e: Listed, fileType: string) {
    EndsWith(BaseName(e.path), "." + fileType) && e.isFile
  }

  /** The records of the first entries of the walk, in walk order; None once
      one of them raises. */
  function Scan(walk: seq<Listed>, fileType: string, permissive: bool, sentinel: int,
                withCutover: bool): Option<seq<Record>>
    decreases |walk|
  {
    if walk == [] then Some([])
    else
      Extend(Scan(walk[..|walk| - 1], fileType, permissive, sentinel, withCutover),
             walk[|walk| - 1], fileType, permissive, sentinel, withCutover)
  }

  /** One pass of the loop body. */
  function Extend(acc: Option<seq<Record>>, e: Listed, fileType: string, permissive: bool,
                  sentinel: int, withCutover: bool): Option<seq<Record>>
  {
    match acc
    case None => None
    case Some(recs) =>
      if !Candidate(e, fileType) then Some(recs)
      else Push(recs, IndexFile(e.path, permissive, sentinel, withCutover))
  }

  /** The records after one indexed file. */
  function Push(recs: seq<Record>, step: Step): Option<seq<Record>> {
    match step
    case Skip => Some(recs)
    case Fail => None
    case Keep(rec) => Some(recs + [rec])
  }

  /** The kind of fault ID a mode indexes by. */
  predicate ModeId(id: FaultId, permissive: bool, sentinel: int) {
    if permissive then id == SentinelId(sentinel) else id.TextId?
  }

  predicate AllModeIds(recs: seq<Record>, permissive: bool, sentinel: int) {
    forall i :: 0 <= i < |recs| ==> ModeId(recs[i].id, permissive, sentinel)
  }

  /** Python orders str with str and int with int; the two never meet in one
      index (see ScanHomogeneous). */
  predicate IdLe(a: FaultId, b: FaultId) {
    match (a, b)
    case (TextId(x), TextId(y)) => LexLe(x, y)
    case (SentinelId(x), SentinelId(y)) => x <= y
    case _ => false
  }

  predicate SameKind(a: FaultId, b: FaultId) {
    a.TextId? == b.TextId?
  }

  predicate Homogeneous(s: seq<Record>) {
    forall i, j :: 0 <= i < |s| && 0 <= j < |s| ==> SameKind(s[i].id, s[j].id)
  }

  predicate ById(s: seq<Record>) {
    forall i, j :: 0 <= i < j < |s| ==> IdLe(s[i].id, s[j].id)
  }

  function InsertRecord(x: Record, s: seq<Record>): seq<Record> {
    if s == [] then [x]
    else if IdLe(x.id, s[0].id) then [x] + s
    else [s[0]] + InsertRecord(x, s[1..])
  }

  /** df.set_index('ID').sort_index(), as an insertion sort. */
  function SortRecords(s: seq<Record>): seq<Record> {
    if s == [] then [] else InsertRecord(s[0], SortRecords(s[1..]))
  }

  lemma IdLeTotal(a: FaultId, b: FaultId)
    requires SameKind(a, b)
    ensures IdLe(a, b) || IdLe(b, a)
  {
    if a.TextId? { LexLeTotal(a.text, b.text); }
  }

  lemma IdLeTrans(a: FaultId, b: FaultId, c: FaultId)
    requires IdLe(a, b) && IdLe(b, c)
    ensures IdLe(a, c)
  {
    if a.TextId? { LexLeTrans(a.text, b.text, c.text); }
  }

  lemma {:induction false} InsertRecordMultiset(x: Record, s: seq<Record>)
    ensures multiset(InsertRecord(x, s)) == multiset(s) + multiset{x}
    decreases |s|
  {
    if s != [] {
      assert s == [s[0]] + s[1..];
      if !IdLe(x.id, s[0].id) {
        InsertRecordMultiset(x, s[1..]);
      }
    }
  }

  lemma {:induction false} InsertRecordSpec(x: Record, s: seq<Record>)
    requires ById(s) && Homogeneous(s) && (s != [] ==> SameKind(x.id, s[0].id))
    ensures ById(InsertRecord(x, s))
    ensures multiset(InsertRecord(x, s)) == multiset(s) + multiset{x}
    decreases |s|
  {
    InsertRecordMultiset(x, s);
    if s != [] {
      if IdLe(x.id, s[0].id) {
        forall j | 0 <= j < |s| ensures IdLe(x.id, s[j].id) {
          if j > 0 { IdLeTrans(x.id, s[0].id, s[j].id); }
        }
      } else {
        InsertRecordSpec(x, s[1..]);
        InsertBelowHead(x, s);
      }
    }
  }

  /** The head of `s` stays below everything inserted after it. */
  lemma InsertBelowHead(x: Record, s: seq<Record>)
    requires s != [] && ById(s) && SameKind(x.id, s[0].id) && !IdLe(x.id, s[0].id)
    requires multiset(InsertRecord(x, s[1..])) == multiset(s[1..]) + multiset{x}
    ensures forall j :: 0 <= j < |InsertRecord(x, s[1..])| ==> IdLe(s[0].id, InsertRecord(x, s[1..])[j].id)
  {
    IdLeTotal(x.id, s[0].id);
    var t := InsertRecord(x, s[1..]);
    forall j | 0 <= j < |t| ensures IdLe(s[0].id, t[j].id) {
      assert t[j] in multiset(t);
      if t[j] != x {
        assert t[j] in multiset(s[1..]);
        var k :| 0 <= k < |s[1..]| && s[1..][k] == t[j];
        assert s[k + 1] == t[j];
      }
    }
  }

  /** The index is sorted by fault ID and holds exactly the scanned records. */
  lemma {:induction false} SortRecordsSpec(s: seq<Record>)
    requires Homogeneous(s)
    ensures ById(SortRecords(s))
    ensures multiset(SortRecords(s)) == multiset(s)
    decreases |s|
  {
    if s != [] {
      HomogeneousTail(s);
      SortRecordsSpec(s[1..]);
      SortStep(s, SortRecords(s[1..]));
    }
  }

  lemma HomogeneousTail(s: seq<Record>)
    requires s != [] && Homogeneous(s)
    ensures Homogeneous(s[1..])
  {
    forall i, j | 0 <= i < |s[1..]| && 0 <= j < |s[1..]| ensures SameKind(s[1..][i].id, s[1..][j].id) {
      assert s[1..][i] == s[i + 1] && s[1..][j] == s[j + 1];
    }
  }

  /** Inserting the head into the sorted tail sorts the whole. */
  lemma SortStep(s: seq<Record>, t: seq<Record>)
    requires s != [] && Homogeneous(s) && ById(t) && multiset(t) == multiset(s[1..])
    ensures ById(InsertRecord(s[0], t)) && multiset(InsertRecord(s[0], t)) == multiset(s)
  {
    HomogeneousPerm(s, t);
    InsertRecordSpec(s[0], t);
    assert s == [s[0]] + s[1..];
  }

  /** A reordering of the tail of a homogeneous list stays homogeneous,
      and of the same kind as its head. */
  lemma HomogeneousPerm(s: seq<Record>, t: seq<Record>)
    requires s != [] && Homogeneous(s) && multiset(t) == multiset(s[1..])
    ensures Homogeneous(t) && (t != [] ==> SameKind(s[0].id, t[0].id))
  {
    forall i | 0 <= i < |t| ensures t[i] in s[1..] {
      assert t[i] in multiset(s[1..]);
    }
    forall i, j | 0 <= i < |t| && 0 <= j < |t| ensures SameKind(t[i].id, t[j].id) {
      assert t[i] in s[1..] && t[j] in s[1..];
    }
    if t != [] {
      assert t[0] in s[1..];
    }
  }

  /** Strict mode indexes by the fault-ID text, permissive mode by the
      sentinel alone, so the index never mixes str and int. */
  lemma {:induction false} ScanHomogeneous(walk: seq<Listed>, fileType: string, permissive: bool,
                                           sentinel: int, withCutover: bool)
    requires Scan(walk, fileType, permissive, sentinel, withCutover).Some?
    ensures AllModeIds(Scan(walk, fileType, permissive, sentinel, withCutover).value, permissive, sentinel)
    ensures Homogeneous(Scan(walk, fileType, permissive, sentinel, withCutover).value)
    decreases |walk|
  {
    var recs := Scan(walk, fileType, permissive, sentinel, withCutover).value;
    if walk != [] {
      var prefix := walk[..|walk| - 1];
      ScanHomogeneous(prefix, fileType, permissive, sentinel, withCutover);
      ExtendModeIds(Scan(prefix, fileType, permissive, sentinel, withCutover).value, walk[|walk| - 1],
                    fileType, permissive, sentinel, withCutover);
    }
    assert Homogeneous(recs) by {
      forall i, j | 0 <= i < |recs| && 0 <= j < |recs| ensures SameKind(recs[i].id, recs[j].id) {
        assert ModeId(recs[i].id, permissive, sentinel) && ModeId(recs[j].id, permissive, sentinel);
      }
    }
  }

  lemma ExtendModeIds(recs: seq<Record>, e: Listed, fileType: string, permissive: bool,
                      sentinel: int, withCutover: bool)
    requires AllModeIds(recs, permissive, sentinel)
    ensures var r := Extend(Some(recs), e, fileType, permissive, sentinel, withCutover);
            r.Some? ==> AllModeIds(r.value, permissive, sentinel)
  {
    if Candidate(e, fileType) {
      PushModeIds(recs, IndexFile(e.path, permissive, sentinel, withCutover), permissive, sentinel);
    }
  }

  lemma PushModeIds(recs: seq<Record>, step: Step, permissive: bool, sentinel: int)
    requires AllModeIds(recs, permissive, sentinel)
    requires step.Keep? ==> ModeId(step.record.id, permissive, sentinel)
    ensures var r := Push(recs, step);
            r.Some? ==> AllModeIds(r.value, permissive, sentinel)
  {
    if step.Keep? {
      var r := recs + [step.record];
      forall i | 0 <= i < |r| ensures ModeId(r[i].id, permissive, sentinel) {
        if i < |recs| {
          assert r[i] == recs[i];
        }
      }
    }
  }


  /** read_path: None where the walk raises. */
  method ReadPath(walk: seq<Listed>, fileType: string, permissive: bool, sentinel: int,
                  withCutover: bool) returns (index: Option<seq<Record>>)
    ensures index.None? <==> Scan(walk, fileType, permissive, sentinel, withCutover).None?
    ensures index.Some? ==> ById(index.value)
    ensures index.Some? ==>
              multiset(index.value) == multiset(Scan(walk, fileType, permissive, sentinel, withCutover).value)
    ensures index.Some? ==> index.value == SortRecords(Scan(walk, fileType, permissive, sentinel, withCutover).value)
  {
    var records := ScanWalk(walk, fileType, permissive, sentinel, withCutover);
    if records.None? {
      return None;
    }
    SortedScan(walk, fileType, permissive, sentinel, withCutover);
    index := Some(SortRecords(records.value));
  }

  /** The os.walk loop of read_path, one file at a time. */
  method ScanWalk(walk: seq<Listed>, fileType: string, permissive: bool, sentinel: int,
                  withCutover: bool) returns (r: Option<seq<Record>>)
    ensures r == Scan(walk, fileType, permissive, sentinel, withCutover)
  {
    var records: seq<Record> := [];
    var i := 0;
    while i < |walk|
      invariant 0 <= i <= |walk|
      invariant Scan(walk[..i], fileType, permissive, sentinel, withCutover) == Some(records)
    {
      var e := walk[i];
      ScanNext(walk, i, records, fileType, permissive, sentinel, withCutover);
      if Candidate(e, fileType) {
        var step := IndexFile(e.path, permissive, sentinel, withCutover);
        match step
        case Fail =>
          ScanFailsOn(walk, i + 1, fileType, permissive, sentinel, withCutover);
          return None;
        case Keep(rec) =>
          records := records + [rec];
        case Skip =>
      }
      i := i + 1;
    }
    assert walk[..|walk|] == walk;
    return Some(records);
  }

  lemma SortedScan(walk: seq<Listed>, fileType: string, permissive: bool, sentinel: int,
                   withCutover: bool)
    requires Scan(walk, fileType, permissive, sentinel, withCutover).Some?
    ensures var recs := Scan(walk, fileType, permissive, sentinel, withCutover).value;
            ById(SortRecords(recs)) && multiset(SortRecords(recs)) == multiset(recs)
  {
    ScanHomogeneous(walk, fileType, permissive, sentinel, withCutover);
    SortRecordsSpec(Scan(walk, fileType, permissive, sentinel, withCutover).value);
  }

  lemma ScanStep(walk: seq<Listed>, i: nat, fileType: string, permissive: bool, sentinel: int,
                 withCutover: bool)
    requires i < |walk|
    ensures Scan(walk[..i + 1], fileType, permissive, sentinel, withCutover)
            == Extend(Scan(walk[..i], fileType, permissive, sentinel, withCutover), walk[i],
                      fileType, permissive, sentinel, withCutover)
  {
    assert walk[..i + 1][..i] == walk[..i];
  }

  lemma ScanNext(walk: seq<Listed>, i: nat, recs: seq<Record>, fileType: string, permissive: bool, sentinel: int,
                 withCutover: bool)
    requires i < |walk| && Scan(walk[..i], fileType, permissive, sentinel, withCutover) == Some(recs)
    ensures Scan(walk[..i + 1], fileType, permissive, sentinel, withCutover)
            == if Candidate(walk[i], fileType) then Push(recs, IndexFile(walk[i].path, permissive, sentinel, withCutover))
               else Some(recs)
  {
    ScanStep(walk, i, fileType, permissive, sentinel, withCutover);
  }

  /** Once the walk has raised, the rest of it changes nothing. */
  lemma {:induction false} ScanFailsOn(walk: seq<Listed>, k: nat, fileType: string, permissive: bool,
                                       sentinel: int, withCutover: bool)
    requires k <= |walk| && Scan(walk[..k], fileType, permissive, sentinel, withCutover).None?
    ensures Scan(walk, fileType, permissive, sentinel, withCutover).None?
    decreases |walk| - k
  {
    if k < |walk| {
      ScanStep(walk, k, fileType, permissive, sentinel, withCutover);
      ScanFailsOn(walk, k + 1, fileType, permissive, sentinel, withCutover);
    } else {
      assert walk[..k] == walk;
    }
  }
}
