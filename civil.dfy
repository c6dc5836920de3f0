/** Naive civil date-times (Python's datetime without a time zone) and the
    subset of datetime.strptime the pipeline uses: the directives %Y %m %d
    %H %M %S %f and literal characters. strptime compiles the format into a
    regular expression, takes the first match that backtracking finds,
    rejects the text if characters remain after it, and then lets the
    datetime constructor reject out-of-range fields. */
module Civil {
  import opened Wrappers
  import opened Text

  datatype DateTime = DateTime(year: int, month: int, day: int,
                               hour: int, minute: int, second: int, micro: int)

  predicate IsLeap(y: int) {
    y % 4 == 0 && (y % 100 != 0 || y % 400 == 0)
  }

  function DaysInMonth(y: int, m: int): int {
    if m == 2 then (if IsLeap(y) then 29 else 28)
    else if m == 4 || m == 6 || m == 9 || m == 11 then 30
    else 31
  }

  /** The fields the datetime constructor accepts. */
  predicate Valid(t: DateTime) {
    && 1 <= t.year <= 9999
    && 1 <= t.month <= 12
    && 1 <= t.day <= DaysInMonth(t.year, t.month)
    && 0 <= t.hour < 24 && 0 <= t.minute < 60 && 0 <= t.second < 60
    && 0 <= t.micro < 1000000
  }

  /** datetime `a < b`: field by field, most significant first. */
  predicate Before(a: DateTime, b: DateTime) {
    if a.year != b.year then a.year < b.year
    else if a.month != b.month then a.month < b.month
    else if a.day != b.day then a.day < b.day
    else if a.hour != b.hour then a.hour < b.hour
    else if a.minute != b.minute then a.minute < b.minute
    else if a.second != b.second then a.second < b.second
    else a.micro < b.micro
  }

  /** datetime `a <= b` */
  predicate AtOrBefore(a: DateTime, b: DateTime) {
    a == b || Before(a, b)
  }

  // ----- the microsecond time axis ---------------------------------------

  function DaysBeforeYear(y: int): int {
    var p := y - 1;
    365 * p + p / 4 - p / 100 + p / 400
  }

  function DaysBeforeMonth(y: int, m: int): int
    decreases m
  {
    if m <= 1 then 0 else DaysBeforeMonth(y, m - 1) + DaysInMonth(y, m - 1)
  }

  const MicrosPerDay: int := 86400000000

  function MicrosOfDay(t: DateTime): int {
    ((t.hour * 60 + t.minute) * 60 + t.second) * 1000000 + t.micro
  }

  /** Microseconds since 0001-01-01 00:00:00 (the proleptic Gregorian axis
      pandas' date_range steps along). */
  function ToMicros(t: DateTime): int {
    (DaysBeforeYear(t.year) + DaysBeforeMonth(t.year, t.month) + t.day - 1) * MicrosPerDay
    + MicrosOfDay(t)
  }

  lemma MicrosOfDayBounds(t: DateTime)
    requires Valid(t)
    ensures 0 <= MicrosOfDay(t) < MicrosPerDay
  {
  }

  lemma {:induction false} DaysBeforeMonthStep(y: int, m: int)
    requires 1 <= m <= 12
    ensures DaysBeforeMonth(y, m + 1) == DaysBeforeMonth(y, m) + DaysInMonth(y, m)
  {
  }

  lemma {:induction false} DaysBeforeMonthMono(y: int, m1: int, m2: int)
    requires 1 <= m1 <= m2 <= 13
    ensures DaysBeforeMonth(y, m1) <= DaysBeforeMonth(y, m2)
    decreases m2 - m1
  {
    if m1 < m2 { DaysBeforeMonthMono(y, m1, m2 - 1); }
  }

  lemma YearLength(y: int)
    requires 1 <= y
    ensures DaysBeforeMonth(y, 13) == DaysBeforeYear(y + 1) - DaysBeforeYear(y)
  {
    var p := y - 1;
    MonthsOfYear(y);
    QuotientStep(p, 4);
    QuotientStep(p, 100);
    QuotientStep(p, 400);
    var a, b, c := y / 4 - p / 4, y / 100 - p / 100, y / 400 - p / 400;
    assert DaysBeforeYear(y + 1) - DaysBeforeYear(y) == 365 + a - b + c;
    MultipleChain(y);
  }

  /** A multiple of 400 is one of 100, and a multiple of 100 one of 4. */
  lemma MultipleChain(y: int)
    ensures y % 400 == 0 ==> y % 100 == 0
    ensures y % 100 == 0 ==> y % 4 == 0
  {
    if y % 400 == 0 {
      QuotientOf(y, 100, 4 * (y / 400), 0);
    }
    if y % 100 == 0 {
      QuotientOf(y, 4, 25 * (y / 100), 0);
    }
  }

  lemma MonthsOfYear(y: int)
    ensures DaysBeforeMonth(y, 13) == if IsLeap(y) then 366 else 365
  {
  }

  /** Stepping p to p + 1 raises p / n by one exactly at a multiple of n. */
  lemma QuotientStep(p: int, n: int)
    requires p >= 0 && n > 0
    ensures (p + 1) / n - p / n == if (p + 1) % n == 0 then 1 else 0
  {
    var q, r := p / n, p % n;
    if r == n - 1 {
      QuotientOf(p + 1, n, q + 1, 0);
    } else {
      QuotientOf(p + 1, n, q, r + 1);
    }
  }

  /** Euclidean division is unique. */
  lemma QuotientOf(a: int, n: int, q: int, r: int)
    requires n > 0 && 0 <= r < n && a == q * n + r
    ensures a / n == q && a % n == r
  {
    var dq := q - a / n;
    assert dq * n == a % n - r;
    if dq > 0 {
      MulAtLeast(dq, n);
    } else if dq < 0 {
      MulAtLeast(-dq, n);
    }
  }

  lemma MulAtLeast(k: int, n: int)
    requires k >= 1 && n > 0
    ensures k * n >= n
  {
    assert k * n == n + (k - 1) * n;
  }

  lemma {:induction false} DaysBeforeYearMono(y1: int, y2: int)
    requires 1 <= y1 < y2
    ensures DaysBeforeYear(y1) + DaysBeforeMonth(y1, 13) <= DaysBeforeYear(y2)
    decreases y2 - y1
  {
    YearLength(y1);
    if y1 + 1 < y2 {
      DaysBeforeYearMono(y1 + 1, y2);
      YearLength(y1 + 1);
      DaysBeforeMonthMono(y1 + 1, 1, 13);
    }
  }

  /** The day of the year, counted from 0, lies inside the year. */
  lemma DayInYear(t: DateTime)
    requires Valid(t)
    ensures 0 <= DaysBeforeMonth(t.year, t.month) + t.day - 1 < DaysBeforeMonth(t.year, 13)
  {
    DaysBeforeMonthMono(t.year, 1, t.month);
    DaysBeforeMonthStep(t.year, t.month);
    DaysBeforeMonthMono(t.year, t.month + 1, 13);
  }

  /** Days since 0001-01-01. */
  function DayNumber(t: DateTime): int {
    DaysBeforeYear(t.year) + DaysBeforeMonth(t.year, t.month) + t.day - 1
  }

  predicate DateBefore(a: DateTime, b: DateTime) {
    if a.year != b.year then a.year < b.year
    else if a.month != b.month then a.month < b.month
    else a.day < b.day
  }

  lemma DayNumberOrder(a: DateTime, b: DateTime)
    requires Valid(a) && Valid(b) && DateBefore(a, b)
    ensures DayNumber(a) < DayNumber(b)
  {
    DayInYear(a);
    DayInYear(b);
    if a.year < b.year {
      DaysBeforeYearMono(a.year, b.year);
      SumBefore(DaysBeforeYear(a.year), DaysBeforeMonth(a.year, a.month) + a.day - 1, DaysBeforeMonth(a.year, 13),
                DaysBeforeYear(b.year), DaysBeforeMonth(b.year, b.month) + b.day - 1);
    } else if a.month < b.month {
      MonthBefore(a.year, a.month, a.day, b.month, b.day);
    } else {
      assert DaysBeforeMonth(a.year, a.month) == DaysBeforeMonth(b.year, b.month);
    }
  }

  /** A day of an earlier month of the same year comes first. */
  lemma MonthBefore(y: int, m1: int, d1: int, m2: int, d2: int)
    requires 1 <= m1 < m2 <= 12 && d1 <= DaysInMonth(y, m1) && 1 <= d2
    ensures DaysBeforeMonth(y, m1) + d1 < DaysBeforeMonth(y, m2) + d2
  {
    DaysBeforeMonthStep(y, m1);
    DaysBeforeMonthMono(y, m1 + 1, m2);
  }

  lemma SumBefore(ya: int, da: int, len: int, yb: int, db: int)
    requires da < len && ya + len <= yb && 0 <= db
    ensures ya + da < yb + db
  {
  }

  lemma ScaleOrder(da: int, db: int, ra: int, rb: int)
    requires da < db && 0 <= ra < MicrosPerDay && 0 <= rb
    ensures da * MicrosPerDay + ra < db * MicrosPerDay + rb
  {
  }

  /** The microsecond axis preserves datetime order in both directions, so
      comparing capture times and comparing their positions on the time
      index agree. */
  lemma ToMicrosOrder(a: DateTime, b: DateTime)
    requires Valid(a) && Valid(b)
    ensures Before(a, b) <==> ToMicros(a) < ToMicros(b)
  {
    MicrosOfDayBounds(a);
    MicrosOfDayBounds(b);
    if DateBefore(a, b) {
      DayNumberOrder(a, b);
      ScaleOrder(DayNumber(a), DayNumber(b), MicrosOfDay(a), MicrosOfDay(b));
    } else if DateBefore(b, a) {
      DayNumberOrder(b, a);
      ScaleOrder(DayNumber(b), DayNumber(a), MicrosOfDay(b), MicrosOfDay(a));
    } else {
      assert DayNumber(a) == DayNumber(b);
    }
  }

  // ----- strptime ---------------------------------------------------------

  /** One character position of a compiled directive. Literals are matched
      case-insensitively because the format is compiled with IGNORECASE. */
  datatype Class = AnyDigit | Between(lo: char, hi: char) | Exactly(c: char) | Caseless(c: char)

  predicate ClassHas(k: Class, c: char) {
    match k
    case AnyDigit => IsDigit(c)
    case Between(lo, hi) => lo <= c <= hi
    case Exactly(x) => c == x
    case Caseless(x) => LowerChar(c) == LowerChar(x)
  }

  /** A fixed-length alternative, and a field as its alternatives in the
      order the regular expression tries them. */
  type Alt = seq<Class>
  type Field = seq<Alt>

  datatype Directive = Year | Month | Day | Hour | Minute | Second | Fraction | Lit(c: char)

  /** The regular expression strptime uses for each directive. */
  function FieldOf(d: Directive): Field {
    match d
    case Year => [[AnyDigit, AnyDigit, AnyDigit, AnyDigit]]
    case Month => [[Exactly('1'), Between('0', '2')], [Exactly('0'), Between('1', '9')],
                   [Between('1', '9')]]
    case Day => [[Exactly('3'), Between('0', '1')], [Between('1', '2'), AnyDigit],
                 [Exactly('0'), Between('1', '9')], [Between('1', '9')],
                 [Exactly(' '), Between('1', '9')]]
    case Hour => [[Exactly('2'), Between('0', '3')], [Between('0', '1'), AnyDigit], [AnyDigit]]
    case Minute => [[Between('0', '5'), AnyDigit], [AnyDigit]]
    case Second => [[Exactly('6'), Between('0', '1')], [Between('0', '5'), AnyDigit], [AnyDigit]]
    case Fraction => [[AnyDigit, AnyDigit, AnyDigit, AnyDigit, AnyDigit, AnyDigit],
                      [AnyDigit, AnyDigit, AnyDigit, AnyDigit, AnyDigit],
                      [AnyDigit, AnyDigit, AnyDigit, AnyDigit],
                      [AnyDigit, AnyDigit, AnyDigit], [AnyDigit, AnyDigit], [AnyDigit]]
    case Lit(c) => [[Caseless(c)]]
  }

  function Fields(fmt: seq<Directive>): (r: seq<Field>)
    ensures |r| == |fmt|
  {
    if fmt == [] then [] else [FieldOf(fmt[0])] + Fields(fmt[1..])
  }

  predicate AltMatches(alt: Alt, s: string, pos: nat) {
    pos + |alt| <= |s| && forall q :: 0 <= q < |alt| ==> ClassHas(alt[q], s[pos + q])
  }

  /** The first match of the concatenated fields at `pos` in backtracking
      order: the text each field captured and where the match ends. */
  function MatchFields(fields: seq<Field>, s: string, pos: nat): (r: Option<(seq<string>, nat)>)
    requires pos <= |s|
    ensures r.Some? ==> |r.value.0| == |fields| && pos <= r.value.1 <= |s|
    decreases |fields|, 1, 0
  {
    if fields == [] then Some(([], pos)) else TryAlts(fields, 0, s, pos)
  }

  function TryAlts(fields: seq<Field>, a: nat, s: string, pos: nat): (r: Option<(seq<string>, nat)>)
    requires fields != [] && pos <= |s|
    ensures r.Some? ==> |r.value.0| == |fields| && pos <= r.value.1 <= |s|
    decreases |fields|, 0, |fields[0]| - a
  {
    if a >= |fields[0]| then None
    else
      var alt := fields[0][a];
      if AltMatches(alt, s, pos) then
        match MatchFields(fields[1..], s, pos + |alt|)
        case Some(rest) => Some(([s[pos..pos + |alt|]] + rest.0, rest.1))
        case None => TryAlts(fields, a + 1, s, pos)
      else TryAlts(fields, a + 1, s, pos)
  }

  /** %f keeps up to six digits and pads them on the right with zeros. */
  function FractionValue(cap: string): int {
    DigitsValue(cap) * Pow10(if |cap| <= 6 then 6 - |cap| else 0)
  }

  function SetField(t: DateTime, d: Directive, cap: string): DateTime {
    match d
    case Year => t.(year := DigitsValue(cap))
    case Month => t.(month := DigitsValue(cap))
    case Day => t.(day := DigitsValue(cap))
    case Hour => t.(hour := DigitsValue(cap))
    case Minute => t.(minute := DigitsValue(cap))
    case Second => t.(second := DigitsValue(cap))
    case Fraction => t.(micro := FractionValue(cap))
    case Lit(_) => t
  }

  /** Fields the format does not mention keep strptime's defaults. */
  const Defaults: DateTime := DateTime(1900, 1, 1, 0, 0, 0, 0)

  function Assemble(fmt: seq<Directive>, caps: seq<string>, acc: DateTime): DateTime
    requires |caps| == |fmt|
    decreases |fmt|
  {
    if fmt == [] then acc else Assemble(fmt[1..], caps[1..], SetField(acc, fmt[0], caps[0]))
  }

  /** datetime.strptime(s, fmt); None where Python raises ValueError (no
      match, unconverted data remains, or a field out of range). */
  function Strptime(s: string, fmt: seq<Directive>): (r: Option<DateTime>)
    ensures r.Some? ==> Valid(r.value)
  {
    match MatchFields(Fields(fmt), s, 0)
    case None => None
    case Some(m) =>
      if m.1 != |s| then None
      else
        var t := Assemble(fmt, m.0, Defaults);
        if Valid(t) then Some(t) else None
  }

  /** "%Y%m%dT%H%M%S" */
  const CompactFormat: seq<Directive> := [Year, Month, Day, Lit('T'), Hour, Minute, Second]

  /** "%Y%m%dT%H%M%S.%f" */
  const FractionalFormat: seq<Directive> := CompactFormat + [Lit('.'), Fraction]

  // ----- the canonical text of a date-time reads back --------------------

  predicate InRange(d: Directive, v: int) {
    match d
    case Year => 0 <= v < 10000
    case Month => 1 <= v <= 12
    case Day => 1 <= v <= 31
    case Hour => 0 <= v < 24
    case Minute => 0 <= v < 60
    case Second => 0 <= v < 60
    case Fraction => 0 <= v < 1000000
    case Lit(_) => true
  }

  /** The text of one field: zero-padded to the directive's width, and for
      %f the digits of the number without padding. */
  function Render(d: Directive, v: int): string
    requires InRange(d, v)
  {
    match d
    case Year => Fixed(v, 4)
    case Month => Fixed(v, 2)
    case Day => Fixed(v, 2)
    case Hour => Fixed(v, 2)
    case Minute => Fixed(v, 2)
    case Second => Fixed(v, 2)
    case Fraction => Str(v)
    case Lit(c) => [c]
  }

  predicate AllInRange(fmt: seq<Directive>, vals: seq<int>) {
    |vals| == |fmt| && forall i :: 0 <= i < |fmt| ==> InRange(fmt[i], vals[i])
  }

  lemma InRangeTail(fmt: seq<Directive>, vals: seq<int>)
    requires fmt != [] && AllInRange(fmt, vals)
    ensures AllInRange(fmt[1..], vals[1..])
  {
    forall i | 0 <= i < |fmt[1..]| ensures InRange(fmt[1..][i], vals[1..][i]) {
      assert fmt[1..][i] == fmt[i + 1] && vals[1..][i] == vals[i + 1];
    }
  }

  function RenderEach(fmt: seq<Directive>, vals: seq<int>): (r: seq<string>)
    requires AllInRange(fmt, vals)
    ensures |r| == |fmt|
    ensures forall i :: 0 <= i < |fmt| ==> r[i] == Render(fmt[i], vals[i])
  {
    if fmt == [] then [] else [Render(fmt[0], vals[0])] + RenderEach(fmt[1..], vals[1..])
  }

  function Flatten(parts: seq<string>): string {
    if parts == [] then [] else parts[0] + Flatten(parts[1..])
  }

  lemma {:induction false} FlattenAppend(a: seq<string>, b: seq<string>)
    ensures Flatten(a + b) == Flatten(a) + Flatten(b)
    decreases |a|
  {
    if a != [] {
      assert (a + b)[1..] == a[1..] + b;
      FlattenAppend(a[1..], b);
    } else {
      assert a + b == b;
    }
  }

  /** The value each directive sets in the assembled date-time. */
  function SetValue(t: DateTime, d: Directive, v: int): DateTime
    requires InRange(d, v)
  {
    match d
    case Year => t.(year := v)
    case Month => t.(month := v)
    case Day => t.(day := v)
    case Hour => t.(hour := v)
    case Minute => t.(minute := v)
    case Second => t.(second := v)
    case Fraction => t.(micro := FractionValue(Str(v)))
    case Lit(_) => t
  }

  function AssembleValues(fmt: seq<Directive>, vals: seq<int>, acc: DateTime): DateTime
    requires AllInRange(fmt, vals)
    decreases |fmt|
  {
    if fmt == [] then acc
    else
      assert forall i :: 0 <= i < |fmt| - 1 ==> fmt[1..][i] == fmt[i + 1] && vals[1..][i] == vals[i + 1];
      AssembleValues(fmt[1..], vals[1..], SetValue(acc, fmt[0], vals[0]))
  }

  lemma Fixed1(n: nat)
    requires n < 10
    ensures Fixed(n, 1) == [Digit(n)]
  {
    assert Fixed(n, 1) == Fixed(n / 10, 0) + [Digit(n % 10)];
  }

  lemma Fixed2(n: nat)
    requires n < 100
    ensures Fixed(n, 2) == [Digit(n / 10), Digit(n % 10)]
  {
    Fixed1(n / 10);
    assert Fixed(n, 2) == Fixed(n / 10, 1) + [Digit(n % 10)];
  }

  lemma {:induction false} StrShort(v: nat)
    requires v < 1000000
    ensures |Str(v)| <= 6
  {
    StrSpec(v);
    if |Str(v)| > 6 {
      PowMono(6, |Str(v)| - 1);
    }
  }

  lemma {:induction false} PowMono(i: nat, j: nat)
    requires i <= j
    ensures Pow10(i) <= Pow10(j)
    decreases j
  {
    if i < j { PowMono(i, j - 1); }
  }

  lemma FailsAt(alt: Alt, s: string, pos: nat, q: nat)
    requires q < |alt| && pos + q < |s| && !ClassHas(alt[q], s[pos + q])
    ensures !AltMatches(alt, s, pos)
  {
  }

  lemma MatchesTwo(alt: Alt, s: string, pos: nat)
    requires |alt| == 2 && pos + 2 <= |s|
    requires ClassHas(alt[0], s[pos]) && ClassHas(alt[1], s[pos + 1])
    ensures AltMatches(alt, s, pos)
  {
    assert forall q :: 0 <= q < 2 ==> ClassHas(alt[q], s[pos + q]) by {
      assert s[pos + 0] == s[pos];
    }
  }

  lemma MatchesDigits(alt: Alt, s: string, pos: nat)
    requires pos + |alt| <= |s|
    requires forall q :: 0 <= q < |alt| ==> alt[q] == AnyDigit && IsDigit(s[pos + q])
    ensures AltMatches(alt, s, pos)
  {
  }

  lemma FractionAlts()
    ensures |FieldOf(Fraction)| == 6
    ensures forall b :: 0 <= b < 6 ==> |FieldOf(Fraction)[b]| == 6 - b
    ensures forall b, q :: 0 <= b < 6 && 0 <= q < 6 - b ==> FieldOf(Fraction)[b][q] == AnyDigit
  {
  }

  /** Alternative k of the field consumes `len` characters at `pos`, and
      every earlier alternative fails there. */
  predicate PicksAlt(f: Field, k: nat, s: string, pos: nat, len: nat) {
    && k < |f| && |f[k]| == len
    && AltMatches(f[k], s, pos)
    && forall b :: 0 <= b < k ==> !AltMatches(f[b], s, pos)
  }

  lemma MonthPick(v: int, s: string, pos: nat) returns (k: nat)
    requires 1 <= v <= 12 && pos + 2 <= |s| && s[pos..pos + 2] == Fixed(v, 2)
    ensures PicksAlt(FieldOf(Month), k, s, pos, 2)
  {
    Fixed2(v);
    assert s[pos] == Digit(v / 10) && s[pos + 1] == Digit(v % 10);
    var alts := FieldOf(Month);
    if v >= 10 {
      k := 0;
    } else {
      k := 1;
      FailsAt(alts[0], s, pos, 0);
    }
    MatchesTwo(alts[k], s, pos);
  }

  lemma DayPick(v: int, s: string, pos: nat) returns (k: nat)
    requires 1 <= v <= 31 && pos + 2 <= |s| && s[pos..pos + 2] == Fixed(v, 2)
    ensures PicksAlt(FieldOf(Day), k, s, pos, 2)
  {
    Fixed2(v);
    assert s[pos] == Digit(v / 10) && s[pos + 1] == Digit(v % 10);
    var alts := FieldOf(Day);
    if v >= 30 {
      k := 0;
    } else if v >= 10 {
      k := 1;
      FailsAt(alts[0], s, pos, 0);
    } else {
      k := 2;
      FailsAt(alts[0], s, pos, 0);
      FailsAt(alts[1], s, pos, 0);
    }
    MatchesTwo(alts[k], s, pos);
  }

  lemma HourPick(v: int, s: string, pos: nat) returns (k: nat)
    requires 0 <= v < 24 && pos + 2 <= |s| && s[pos..pos + 2] == Fixed(v, 2)
    ensures PicksAlt(FieldOf(Hour), k, s, pos, 2)
  {
    Fixed2(v);
    assert s[pos] == Digit(v / 10) && s[pos + 1] == Digit(v % 10);
    var alts := FieldOf(Hour);
    if v >= 20 {
      k := 0;
    } else {
      k := 1;
      FailsAt(alts[0], s, pos, 0);
    }
    MatchesTwo(alts[k], s, pos);
  }

  lemma MinutePick(v: int, s: string, pos: nat) returns (k: nat)
    requires 0 <= v < 60 && pos + 2 <= |s| && s[pos..pos + 2] == Fixed(v, 2)
    ensures PicksAlt(FieldOf(Minute), k, s, pos, 2)
  {
    Fixed2(v);
    assert s[pos] == Digit(v / 10) && s[pos + 1] == Digit(v % 10);
    k := 0;
    MatchesTwo(FieldOf(Minute)[0], s, pos);
  }

  lemma SecondPick(v: int, s: string, pos: nat) returns (k: nat)
    requires 0 <= v < 60 && pos + 2 <= |s| && s[pos..pos + 2] == Fixed(v, 2)
    ensures PicksAlt(FieldOf(Second), k, s, pos, 2)
  {
    Fixed2(v);
    assert s[pos] == Digit(v / 10) && s[pos + 1] == Digit(v % 10);
    var alts := FieldOf(Second);
    k := 1;
    FailsAt(alts[0], s, pos, 0);
    MatchesTwo(alts[1], s, pos);
  }

  lemma YearPick(v: int, s: string, pos: nat) returns (k: nat)
    requires 0 <= v < 10000 && pos + 4 <= |s| && s[pos..pos + 4] == Fixed(v, 4)
    ensures PicksAlt(FieldOf(Year), k, s, pos, 4)
  {
    var f := Fixed(v, 4);
    var alt := FieldOf(Year)[0];
    assert alt == [AnyDigit, AnyDigit, AnyDigit, AnyDigit];
    forall q | 0 <= q < |alt| ensures alt[q] == AnyDigit && IsDigit(s[pos + q]) {
      assert s[pos..pos + 4][q] == s[pos + q];
      assert IsDigit(f[q]);
    }
    k := 0;
    MatchesDigits(alt, s, pos);
  }

  /** %f is greedy: alternatives longer than the text run past its end. */
  lemma FractionPick(v: int, s: string, pos: nat) returns (k: nat)
    requires 0 <= v < 1000000 && pos + |Str(v)| == |s| && s[pos..] == Str(v)
    ensures PicksAlt(FieldOf(Fraction), k, s, pos, |Str(v)|)
  {
    StrShort(v);
    FractionAlts();
    assert forall q :: 0 <= q < |Str(v)| ==> s[pos + q] == Str(v)[q];
    k := 6 - |Str(v)|;
    MatchesDigits(FieldOf(Fraction)[k], s, pos);
  }

  /** In canonical text each directive's field picks the alternative that
      consumes exactly the rendered text. */
  lemma CanonicalPick(d: Directive, v: int, s: string, pos: nat) returns (k: nat)
    requires InRange(d, v)
    requires pos + |Render(d, v)| <= |s| && s[pos..pos + |Render(d, v)|] == Render(d, v)
    requires d == Fraction ==> pos + |Render(d, v)| == |s|
    ensures PicksAlt(FieldOf(d), k, s, pos, |Render(d, v)|)
  {
    match d {
      case Year => k := YearPick(v, s, pos);
      case Month => k := MonthPick(v, s, pos);
      case Day => k := DayPick(v, s, pos);
      case Hour => k := HourPick(v, s, pos);
      case Minute => k := MinutePick(v, s, pos);
      case Second => k := SecondPick(v, s, pos);
      case Fraction => k := FractionPick(v, s, pos);
      case Lit(c) =>
        k := 0;
        assert s[pos + 0] == c;
    }
  }

  /** Backtracking settles on alternative k when every earlier one fails on
      the spot and the remaining fields match after k. */
  lemma {:induction false} PickAlt(fields: seq<Field>, a: nat, k: nat, s: string, pos: nat,
                                   rest: (seq<string>, nat))
    requires fields != [] && a <= k < |fields[0]| && pos <= |s|
    requires forall b :: a <= b < k ==> !AltMatches(fields[0][b], s, pos)
    requires AltMatches(fields[0][k], s, pos)
    requires MatchFields(fields[1..], s, pos + |fields[0][k]|) == Some(rest)
    ensures TryAlts(fields, a, s, pos) == Some(([s[pos..pos + |fields[0][k]|]] + rest.0, rest.1))
    decreases k - a
  {
    if a < k { PickAlt(fields, a + 1, k, s, pos, rest); }
  }

  predicate FractionLast(fmt: seq<Directive>) {
    forall i :: 0 <= i < |fmt| - 1 ==> fmt[i] != Fraction
  }

  /** strptime's regular expression matches canonical text to its end,
      each field capturing exactly its rendered text. */
  lemma {:induction false} CanonicalMatch(fmt: seq<Directive>, vals: seq<int>, s: string, pos: nat)
    requires AllInRange(fmt, vals) && FractionLast(fmt)
    requires pos <= |s| && s[pos..] == Flatten(RenderEach(fmt, vals))
    ensures MatchFields(Fields(fmt), s, pos) == Some((RenderEach(fmt, vals), |s|))
    decreases |fmt|
  {
    if fmt != [] {
      var text := Render(fmt[0], vals[0]);
      var rest := RenderEach(fmt[1..], vals[1..]);
      CanonicalSplit(fmt, vals, s, pos);
      var k := CanonicalPick(fmt[0], vals[0], s, pos);
      CanonicalMatch(fmt[1..], vals[1..], s, pos + |text|);
      assert Fields(fmt)[0] == FieldOf(fmt[0]) && Fields(fmt)[1..] == Fields(fmt[1..]);
      FieldStep(Fields(fmt), k, s, pos, text, rest);
    }
  }

  /** Canonical text starts with the first directive's rendering, and the
      rest of it is the canonical text of the other directives. */
  lemma CanonicalSplit(fmt: seq<Directive>, vals: seq<int>, s: string, pos: nat)
    requires fmt != [] && AllInRange(fmt, vals) && FractionLast(fmt)
    requires pos <= |s| && s[pos..] == Flatten(RenderEach(fmt, vals))
    ensures AllInRange(fmt[1..], vals[1..]) && FractionLast(fmt[1..])
    ensures var text := Render(fmt[0], vals[0]);
            pos + |text| <= |s| && s[pos..pos + |text|] == text
            && s[pos + |text|..] == Flatten(RenderEach(fmt[1..], vals[1..]))
            && (fmt[0] == Fraction ==> pos + |text| == |s|)
  {
    InRangeTail(fmt, vals);
    var text := Render(fmt[0], vals[0]);
    var rest := RenderEach(fmt[1..], vals[1..]);
    assert RenderEach(fmt, vals) == [text] + rest;
    assert ([text] + rest)[1..] == rest;
    PrefixSplit(s, pos, text, Flatten(rest));
    if fmt[0] == Fraction {
      assert |fmt| == 1;
      assert rest == [];
    }
    assert forall i :: 0 <= i < |fmt[1..]| - 1 ==> fmt[1..][i] == fmt[i + 1];
  }

  lemma PrefixSplit(s: string, pos: nat, a: string, b: string)
    requires pos <= |s| && s[pos..] == a + b
    ensures pos + |a| <= |s| && s[pos..pos + |a|] == a && s[pos + |a|..] == b
  {
    assert s[pos..][..|a|] == a && s[pos..][|a|..] == b;
  }

  /** The first field picks its alternative `k` and the others match the
      rest of the text. */
  lemma FieldStep(fields: seq<Field>, k: nat, s: string, pos: nat, text: string, rest: seq<string>)
    requires fields != [] && pos + |text| <= |s| && s[pos..pos + |text|] == text
    requires PicksAlt(fields[0], k, s, pos, |text|)
    requires MatchFields(fields[1..], s, pos + |text|) == Some((rest, |s|))
    ensures MatchFields(fields, s, pos) == Some(([text] + rest, |s|))
  {
    PickAlt(fields, 0, k, s, pos, (rest, |s|));
  }

  /** Assembling the rendered captures sets each field to its value. */
  lemma {:induction false} AssembleRendered(fmt: seq<Directive>, vals: seq<int>, acc: DateTime)
    requires AllInRange(fmt, vals)
    ensures Assemble(fmt, RenderEach(fmt, vals), acc) == AssembleValues(fmt, vals, acc)
    decreases |fmt|
  {
    if fmt != [] {
      var d, v := fmt[0], vals[0];
      match d {
        case Year => FixedValue(v, 4);
        case Month => FixedValue(v, 2);
        case Day => FixedValue(v, 2);
        case Hour => FixedValue(v, 2);
        case Minute => FixedValue(v, 2);
        case Second => FixedValue(v, 2);
        case Fraction =>
        case Lit(_) =>
      }
      assert SetField(acc, d, Render(d, v)) == SetValue(acc, d, v);
      InRangeTail(fmt, vals);
      assert RenderEach(fmt, vals)[1..] == RenderEach(fmt[1..], vals[1..]);
      AssembleRendered(fmt[1..], vals[1..], SetValue(acc, d, v));
    }
  }

  /** strptime reads canonical text back: the match covers all of it and
      the fields take the rendered values. */
  lemma StrptimeCanonical(fmt: seq<Directive>, vals: seq<int>)
    requires AllInRange(fmt, vals) && FractionLast(fmt)
    ensures Strptime(Flatten(RenderEach(fmt, vals)), fmt)
            == (var t := AssembleValues(fmt, vals, Defaults); if Valid(t) then Some(t) else None)
  {
    var s := Flatten(RenderEach(fmt, vals));
    CanonicalMatch(fmt, vals, s, 0);
    AssembleRendered(fmt, vals, Defaults);
  }

  // ----- the formats the pipeline uses ----------------------------------

  function CompactValues(t: DateTime): seq<int> {
    [t.year, t.month, t.day, 0, t.hour, t.minute, t.second]
  }

  /** t.strftime("%Y%m%dT%H%M%S"), the year zero-padded to four digits. */
  function CompactText(t: DateTime): string
    requires Valid(t)
  {
    assert AllInRange(CompactFormat, CompactValues(t));
    Flatten(RenderEach(CompactFormat, CompactValues(t)))
  }

  lemma CompactTextShape(t: DateTime)
    requires Valid(t)
    ensures |CompactText(t)| == 15
    ensures CompactText(t) == Fixed(t.year, 4) + Fixed(t.month, 2) + Fixed(t.day, 2) + "T"
                              + Fixed(t.hour, 2) + Fixed(t.minute, 2) + Fixed(t.second, 2)
  {
    CompactPieces(t);
    FlattenSeven(Fixed(t.year, 4), Fixed(t.month, 2), Fixed(t.day, 2), "T",
                 Fixed(t.hour, 2), Fixed(t.minute, 2), Fixed(t.second, 2));
  }

  lemma CompactPieces(t: DateTime)
    requires Valid(t)
    ensures AllInRange(CompactFormat, CompactValues(t))
    ensures RenderEach(CompactFormat, CompactValues(t))
            == [Fixed(t.year, 4), Fixed(t.month, 2), Fixed(t.day, 2), "T",
                Fixed(t.hour, 2), Fixed(t.minute, 2), Fixed(t.second, 2)]
  {
    assert t.day <= 31;
    CompactRender(t.year, t.month, t.day, t.hour, t.minute, t.second);
  }

  lemma CompactRender(y: int, mo: int, d: int, h: int, mi: int, se: int)
    requires 0 <= y < 10000 && 1 <= mo <= 12 && 1 <= d <= 31 && 0 <= h < 24 && 0 <= mi < 60 && 0 <= se < 60
    ensures AllInRange(CompactFormat, [y, mo, d, 0, h, mi, se])
    ensures RenderEach(CompactFormat, [y, mo, d, 0, h, mi, se])
            == [Fixed(y, 4), Fixed(mo, 2), Fixed(d, 2), "T", Fixed(h, 2), Fixed(mi, 2), Fixed(se, 2)]
  {
    var f := CompactFormat;
    var v := [y, mo, d, 0, h, mi, se];
    assert InRange(f[0], v[0]) && InRange(f[1], v[1]) && InRange(f[2], v[2]) && InRange(f[3], v[3]);
    assert InRange(f[4], v[4]) && InRange(f[5], v[5]) && InRange(f[6], v[6]);
    var r := RenderEach(f, v);
    assert r[0] == Render(Year, y) && r[1] == Render(Month, mo) && r[2] == Render(Day, d);
    assert r[3] == Render(Lit('T'), 0) && r[4] == Render(Hour, h);
    assert r[5] == Render(Minute, mi) && r[6] == Render(Second, se);
    SevenParts(r, Fixed(y, 4), Fixed(mo, 2), Fixed(d, 2), "T", Fixed(h, 2), Fixed(mi, 2), Fixed(se, 2));
  }

  lemma SevenParts(r: seq<string>, a: string, b: string, c: string, d: string, e: string, f: string, g: string)
    requires |r| == 7 && r[0] == a && r[1] == b && r[2] == c && r[3] == d && r[4] == e && r[5] == f && r[6] == g
    ensures r == [a, b, c, d, e, f, g]
  {
  }

  lemma FlattenSeven(a: string, b: string, c: string, d: string, e: string, f: string, g: string)
    ensures Flatten([a, b, c, d, e, f, g]) == a + b + c + d + e + f + g
  {
    assert Flatten([g]) == g by { assert [g][1..] == []; }
    assert Flatten([f, g]) == f + g by { assert [f, g][1..] == [g]; }
    assert Flatten([e, f, g]) == e + (f + g) by { assert [e, f, g][1..] == [f, g]; }
    assert Flatten([d, e, f, g]) == d + (e + (f + g)) by { assert [d, e, f, g][1..] == [e, f, g]; }
    assert Flatten([c, d, e, f, g]) == c + (d + (e + (f + g))) by {
      assert [c, d, e, f, g][1..] == [d, e, f, g];
    }
    assert Flatten([b, c, d, e, f, g]) == b + (c + (d + (e + (f + g)))) by {
      assert [b, c, d, e, f, g][1..] == [c, d, e, f, g];
    }
    assert [a, b, c, d, e, f, g][1..] == [b, c, d, e, f, g];
  }

  lemma AssembleCompact(t: DateTime, acc: DateTime)
    requires Valid(t)
    ensures AllInRange(CompactFormat, CompactValues(t))
    ensures AssembleValues(CompactFormat, CompactValues(t), acc) == t.(micro := acc.micro)
  {
    var f := CompactFormat;
    var v := CompactValues(t);
    assert AllInRange(f, v);
    assert f[1..][1..][1..][1..][1..][1..][1..] == [];
    var a1 := acc.(year := t.year);
    var a2 := a1.(month := t.month);
    var a3 := a2.(day := t.day);
    var a5 := a3.(hour := t.hour);
    var a6 := a5.(minute := t.minute);
    var a7 := a6.(second := t.second);
    assert AssembleValues(f[1..][1..][1..][1..][1..][1..], v[1..][1..][1..][1..][1..][1..], a6) == a7;
    assert AssembleValues(f[1..][1..][1..][1..][1..], v[1..][1..][1..][1..][1..], a5) == a7;
    assert AssembleValues(f[1..][1..][1..][1..], v[1..][1..][1..][1..], a3) == a7;
    assert AssembleValues(f[1..][1..][1..], v[1..][1..][1..], a3) == a7;
    assert AssembleValues(f[1..][1..], v[1..][1..], a2) == a7;
    assert AssembleValues(f[1..], v[1..], a1) == a7;
  }

  /** datetime.strptime(t.strftime("%Y%m%dT%H%M%S"), "%Y%m%dT%H%M%S") gives t
      back to the second. */
  lemma CompactRoundTrip(t: DateTime)
    requires Valid(t)
    ensures Strptime(CompactText(t), CompactFormat) == Some(t.(micro := 0))
  {
    AssembleCompact(t, Defaults);
    StrptimeCanonical(CompactFormat, CompactValues(t));
  }

  lemma {:induction false} PowAdd(a: nat, b: nat)
    ensures Pow10(a) * Pow10(b) == Pow10(a + b)
    decreases a
  {
    if a > 0 {
      PowAdd(a - 1, b);
    }
  }

  /** %f reads the digits of n as a fraction of a second: right-padded to six digits. */
  lemma FractionValueOfStr(n: nat)
    requires n < 1000000
    ensures |Str(n)| <= 6
    ensures FractionValue(Str(n)) == n * Pow10(6 - |Str(n)|)
    ensures 0 <= FractionValue(Str(n)) < 1000000
  {
    StrShort(n);
    StrSpec(n);
    var k := |Str(n)|;
    PowAdd(k, 6 - k);
    PowMono(0, 6 - k);
    MulBelow(n, Pow10(k), Pow10(6 - k));
    assert Pow10(6) == 1000000;
  }

  lemma MulBelow(n: nat, a: nat, b: nat)
    requires n < a && b >= 1
    ensures n * b < a * b
  {
    assert a * b - n * b == (a - n) * b;
  }

  function FractionalValues(t: DateTime, n: int): seq<int> {
    CompactValues(t) + [0, n]
  }

  lemma AllInRangeAppend(a: seq<Directive>, va: seq<int>, b: seq<Directive>, vb: seq<int>)
    requires AllInRange(a, va) && AllInRange(b, vb)
    ensures AllInRange(a + b, va + vb)
  {
    forall i | 0 <= i < |a + b| ensures InRange((a + b)[i], (va + vb)[i]) {
      if i >= |a| { assert (a + b)[i] == b[i - |a|] && (va + vb)[i] == vb[i - |a|]; }
    }
  }

  lemma AllInRangeTail(f: seq<Directive>, v: seq<int>)
    requires AllInRange(f, v) && f != []
    ensures AllInRange(f[1..], v[1..])
  {
    forall i | 0 <= i < |f[1..]| ensures InRange(f[1..][i], v[1..][i]) {
      assert f[1..][i] == f[i + 1] && v[1..][i] == v[i + 1];
    }
  }

  lemma RenderEachAppend(a: seq<Directive>, va: seq<int>, b: seq<Directive>, vb: seq<int>)
    requires AllInRange(a, va) && AllInRange(b, vb)
    ensures AllInRange(a + b, va + vb)
    ensures RenderEach(a + b, va + vb) == RenderEach(a, va) + RenderEach(b, vb)
  {
    AllInRangeAppend(a, va, b, vb);
  }

  lemma {:induction false} AssembleValuesAppend(a: seq<Directive>, va: seq<int>,
                                               b: seq<Directive>, vb: seq<int>, acc: DateTime)
    requires AllInRange(a, va) && AllInRange(b, vb)
    ensures AllInRange(a + b, va + vb)
    ensures AssembleValues(a + b, va + vb, acc) == AssembleValues(b, vb, AssembleValues(a, va, acc))
    decreases |a|
  {
    AllInRangeAppend(a, va, b, vb);
    if a != [] {
      assert (a + b)[1..] == a[1..] + b && (va + vb)[1..] == va[1..] + vb;
      assert (a + b)[0] == a[0] && (va + vb)[0] == va[0];
      AllInRangeTail(a, va);
      AssembleValuesAppend(a[1..], va[1..], b, vb, SetValue(acc, a[0], va[0]));
    } else {
      assert a + b == b && va + vb == vb;
    }
  }

  function FractionalText(t: DateTime, n: int): string
    requires Valid(t) && 0 <= n < 1000000
  {
    AllInRangeAppend(CompactFormat, CompactValues(t), [Lit('.'), Fraction], [0, n]);
    Flatten(RenderEach(FractionalFormat, FractionalValues(t, n)))
  }

  lemma FractionalTextShape(t: DateTime, n: int)
    requires Valid(t) && 0 <= n < 1000000
    ensures FractionalText(t, n) == CompactText(t) + "." + Str(n)
  {
    assert AllInRange(CompactFormat, CompactValues(t));
    RenderEachAppend(CompactFormat, CompactValues(t), [Lit('.'), Fraction], [0, n]);
    var tail := RenderEach([Lit('.'), Fraction], [0, n]);
    assert tail == [".", Str(n)];
    assert Flatten(tail) == "." + Str(n) by {
      assert Flatten(tail[1..]) == Str(n);
    }
    FlattenAppend(RenderEach(CompactFormat, CompactValues(t)), tail);
  }

  lemma AssembleFractional(t: DateTime, n: int)
    requires Valid(t) && 0 <= n < 1000000
    ensures AllInRange(FractionalFormat, FractionalValues(t, n))
    ensures AssembleValues(FractionalFormat, FractionalValues(t, n), Defaults)
            == t.(micro := FractionValue(Str(n)))
  {
    AssembleCompact(t, Defaults);
    AssembleValuesAppend(CompactFormat, CompactValues(t), [Lit('.'), Fraction], [0, n], Defaults);
    var mid := t.(micro := 0);
    assert AssembleValues([Lit('.'), Fraction], [0, n], mid) == mid.(micro := FractionValue(Str(n))) by {
      assert [Lit('.'), Fraction][1..] == [Fraction] && [0, n][1..] == [n];
    }
  }

  /** datetime.strptime(CompactText(t) + "." + str(n), "%Y%m%dT%H%M%S.%f")
      for 0 <= n < 10^6: t to the second, with the digits of n read as a
      right-padded fraction. */
  lemma FractionalRoundTrip(t: DateTime, n: int)
    requires Valid(t) && 0 <= n < 1000000
    ensures Strptime(CompactText(t) + "." + Str(n), FractionalFormat)
            == Some(t.(micro := FractionValue(Str(n))))
  {
    FractionalTextShape(t, n);
    AssembleFractional(t, n);
    StrptimeCanonical(FractionalFormat, FractionalValues(t, n));
    FractionValueOfStr(n);
  }

  /** "%Y-%m-%d" */
  const DashedDateFormat: seq<Directive> := [Year, Lit('-'), Month, Lit('-'), Day]
}
