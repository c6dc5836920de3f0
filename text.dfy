/** The Python string semantics the pipeline relies on: str.strip,
    str.lower, the `in` operator, str.replace, str.rsplit, code-point
    ordering and sorted(), int() of text and str() of integers. */
module Text {
  import opened Wrappers

  // ----- whitespace and case ---------------------------------------------

  /** str.isspace() of one character (the characters Python's str.strip removes). */
  predicate IsSpace(c: char) {
    c == ' ' || ('\t' <= c <= '\r') || ('\U{001C}' <= c <= '\U{001F}')
    || c == '\U{0085}' || c == '\U{00A0}' || c == '\U{1680}'
    || ('\U{2000}' <= c <= '\U{200A}') || c == '\U{2028}' || c == '\U{2029}'
    || c == '\U{202F}' || c == '\U{205F}' || c == '\U{3000}'
  }

  function StripLeft(s: string): (r: string)
    ensures |r| <= |s| && r == s[|s| - |r|..]
    ensures forall i :: 0 <= i < |s| - |r| ==> IsSpace(s[i])
    ensures r == [] || !IsSpace(r[0])
  {
    if s != [] && IsSpace(s[0]) then StripLeft(s[1..]) else s
  }

  function StripRight(s: string): (r: string)
    ensures |r| <= |s| && r == s[..|r|]
    ensures forall i :: |r| <= i < |s| ==> IsSpace(s[i])
    ensures r == [] || !IsSpace(r[|r| - 1])
  {
    if s != [] && IsSpace(s[|s| - 1]) then StripRight(s[..|s| - 1]) else s
  }

  /** str.strip() with no argument. */
  function Strip(s: string): string {
    StripRight(StripLeft(s))
  }

  /** str.lower() on one character; only ASCII letters change case here. */
  function LowerChar(c: char): char {
    if 'A' <= c <= 'Z' then (c as int + 32) as char else c
  }

  function Lower(s: string): string {
    seq(|s|, i requires 0 <= i < |s| => LowerChar(s[i]))
  }

  // ----- searching -------------------------------------------------------

  predicate StartsWith(s: string, p: string) {
    |p| <= |s| && s[..|p|] == p
  }

  predicate EndsWith(s: string, p: string) {
    |p| <= |s| && s[|s| - |p|..] == p
  }

  /** Python's `p in s` for strings: p occurs somewhere in s. */
  predicate Contains(s: string, p: string)
    decreases |s|
  {
    StartsWith(s, p) || (s != [] && Contains(s[1..], p))
  }

  lemma {:induction false} ContainsAt(s: string, p: string, i: nat)
    requires i + |p| <= |s| && s[i..i + |p|] == p
    ensures Contains(s, p)
    decreases i
  {
    if i > 0 {
      assert s[1..][i - 1..i - 1 + |p|] == s[i..i + |p|];
      ContainsAt(s[1..], p, i - 1);
    } else {
      assert s[..|p|] == p;
    }
  }

  lemma {:induction false} ContainsAppendLeft(a: string, b: string, p: string)
    requires Contains(b, p)
    ensures Contains(a + b, p)
    decreases |a|
  {
    if a != [] {
      assert (a + b)[1..] == a[1..] + b;
      ContainsAppendLeft(a[1..], b, p);
    } else {
      assert a + b == b;
    }
  }

  /** The position of the last `c` strictly before `end`. */
  function LastIndexBefore(s: string, c: char, end: nat): (r: Option<nat>)
    requires end <= |s|
    ensures r.Some? ==> r.value < end && s[r.value] == c
    ensures r.Some? ==> forall q :: r.value < q < end ==> s[q] != c
    ensures r.None? ==> forall q :: 0 <= q < end ==> s[q] != c
    decreases end
  {
    if end == 0 then None
    else if s[end - 1] == c then Some(end - 1)
    else LastIndexBefore(s, c, end - 1)
  }

  predicate OccursAt(s: string, p: string, q: int) {
    0 <= q && q + |p| <= |s| && s[q..q + |p|] == p
  }

  /** The start of the last occurrence of `p` that ends at or before `end`. */
  function LastOccurrence(s: string, p: string, end: nat): (r: Option<nat>)
    requires end <= |s|
    ensures r.Some? ==> r.value + |p| <= end && OccursAt(s, p, r.value)
    ensures r.Some? ==> forall q :: r.value < q && q + |p| <= end ==> !OccursAt(s, p, q)
    ensures r.None? ==> forall q :: 0 <= q && q + |p| <= end ==> !OccursAt(s, p, q)
    decreases end
  {
    if end < |p| then None
    else if s[end - |p|..end] == p then Some(end - |p|)
    else LastOccurrence(s, p, end - 1)
  }

  /** The prefix of s before its first line break (what `.` in a regex can span). */
  function FirstLine(s: string): (r: string)
    ensures |r| <= |s| && r == s[..|r|]
    ensures forall q :: 0 <= q < |r| ==> r[q] != '\n'
    ensures |r| < |s| ==> s[|r|] == '\n'
  {
    if s == [] || s[0] == '\n' then [] else [s[0]] + FirstLine(s[1..])
  }

  /** A substitution whose pattern never spans a '\n', applied line by
      line: f rewrites one line. */
  function PerLine(s: string, f: string -> string): string
    decreases |s|
  {
    var l := FirstLine(s);
    if |l| == |s| then f(s) else f(l) + "\n" + PerLine(s[|l| + 1..], f)
  }

  // ----- rewriting -------------------------------------------------------

  /** s.replace(a, b) for a non-empty a: leftmost occurrence first, then on after it. */
  function ReplaceAll(s: string, a: string, b: string): string
    requires a != []
    decreases |s|
  {
    if s == [] then []
    else if StartsWith(s, a) then b + ReplaceAll(s[|a|..], a, b)
    else [s[0]] + ReplaceAll(s[1..], a, b)
  }

  lemma {:induction false} ReplaceAllAbsent(s: string, a: string, b: string)
    requires a != [] && !Contains(s, a)
    ensures ReplaceAll(s, a, b) == s
    decreases |s|
  {
    if s != [] {
      ReplaceAllAbsent(s[1..], a, b);
    }
  }

  /** s.replace(a, b) where a and b are single characters. */
  function ReplaceChar(s: string, a: char, b: char): string {
    seq(|s|, i requires 0 <= i < |s| => if s[i] == a then b else s[i])
  }

  /** s.rsplit('.', 1)[0]: everything before the last '.', or all of s. */
  function StemBeforeLastDot(s: string): string {
    match LastIndexBefore(s, '.', |s|)
    case Some(i) => s[..i]
    case None => s
  }

  function StripTrailingSlashes(s: string): (r: string)
    ensures |r| <= |s| && r == s[..|r|]
  {
    if s != [] && s[|s| - 1] == '/' then StripTrailingSlashes(s[..|s| - 1]) else s
  }

  /** Path(p).name: the last component of a slash-separated path. */
  function BaseName(p: string): string {
    var t := StripTrailingSlashes(p);
    match LastIndexBefore(t, '/', |t|)
    case Some(i) => t[i + 1..]
    case None => t
  }

  /** Path(dir).joinpath(name) */
  function JoinPath(dir: string, name: string): string {
    dir + "/" + name
  }

  predicate NoChar(s: string, c: char) {
    forall i :: 0 <= i < |s| ==> s[i] != c
  }

  lemma NoCharConcat(a: string, b: string, c: char)
    requires NoChar(a, c) && NoChar(b, c)
    ensures NoChar(a + b, c)
  {
    forall i | 0 <= i < |a + b| ensures (a + b)[i] != c {
      if i >= |a| { assert (a + b)[i] == b[i - |a|]; }
    }
  }

  /** The last component of a joined path is the name joined. */
  lemma BaseNameJoin(dir: string, name: string)
    requires name != [] && NoChar(name, '/')
    ensures BaseName(JoinPath(dir, name)) == name
  {
    var p := JoinPath(dir, name);
    assert p[|p| - 1] == name[|name| - 1];
    assert StripTrailingSlashes(p) == p;
    assert p[|dir|] == '/';
    forall q | |dir| < q < |p| ensures p[q] != '/' {
      assert p[q] == name[q - |dir| - 1];
    }
    assert LastIndexBefore(p, '/', |p|) == Some(|dir|);
    assert p[|dir| + 1..] == name;
  }

  // ----- ordering --------------------------------------------------------

  /** Python's `a <= b` on str: lexicographic by code point. */
  predicate LexLe(a: string, b: string)
    decreases |a|
  {
    a == [] || (b != [] && (a[0] < b[0] || (a[0] == b[0] && LexLe(a[1..], b[1..]))))
  }

  lemma {:induction false} LexLeRefl(a: string)
    ensures LexLe(a, a)
    decreases |a|
  {
    if a != [] { LexLeRefl(a[1..]); }
  }

  lemma {:induction false} LexLeTotal(a: string, b: string)
    ensures LexLe(a, b) || LexLe(b, a)
    decreases |a|
  {
    if a != [] && b != [] && a[0] == b[0] { LexLeTotal(a[1..], b[1..]); }
  }

  lemma {:induction false} LexLeAntisym(a: string, b: string)
    requires LexLe(a, b) && LexLe(b, a)
    ensures a == b
    decreases |a|
  {
    if a != [] {
      LexLeAntisym(a[1..], b[1..]);
      assert a == [a[0]] + a[1..] && b == [b[0]] + b[1..];
    }
  }

  lemma {:induction false} LexLeTrans(a: string, b: string, c: string)
    requires LexLe(a, b) && LexLe(b, c)
    ensures LexLe(a, c)
    decreases |a|
  {
    if a != [] && a[0] == b[0] && b[0] == c[0] { LexLeTrans(a[1..], b[1..], c[1..]); }
  }

  predicate Sorted(s: seq<string>) {
    forall i, j :: 0 <= i < j < |s| ==> LexLe(s[i], s[j])
  }

  function Insert(x: string, s: seq<string>): seq<string> {
    if s == [] then [x]
    else if LexLe(x, s[0]) then [x] + s
    else [s[0]] + Insert(x, s[1..])
  }

  /** sorted(s), as an insertion sort. */
  function SortStrings(s: seq<string>): seq<string> {
    if s == [] then [] else Insert(s[0], SortStrings(s[1..]))
  }

  lemma {:induction false} InsertMultiset(x: string, s: seq<string>)
    ensures multiset(Insert(x, s)) == multiset(s) + multiset{x}
    decreases |s|
  {
    if s != [] {
      assert s == [s[0]] + s[1..];
      if !LexLe(x, s[0]) {
        InsertMultiset(x, s[1..]);
      }
    }
  }

  lemma {:induction false} InsertSpec(x: string, s: seq<string>)
    requires Sorted(s)
    ensures Sorted(Insert(x, s))
    ensures multiset(Insert(x, s)) == multiset(s) + multiset{x}
    decreases |s|
  {
    InsertMultiset(x, s);
    if s != [] {
      if LexLe(x, s[0]) {
        forall j | 0 <= j < |s| ensures LexLe(x, s[j]) {
          if j > 0 { LexLeTrans(x, s[0], s[j]); }
        }
      } else {
        InsertSpec(x, s[1..]);
        InsertAboveHead(x, s);
      }
    }
  }

  /** The head of `s` stays below everything inserted after it. */
  lemma InsertAboveHead(x: string, s: seq<string>)
    requires s != [] && Sorted(s) && !LexLe(x, s[0])
    requires multiset(Insert(x, s[1..])) == multiset(s[1..]) + multiset{x}
    ensures forall j :: 0 <= j < |Insert(x, s[1..])| ==> LexLe(s[0], Insert(x, s[1..])[j])
  {
    LexLeTotal(x, s[0]);
    var t := Insert(x, s[1..]);
    forall j | 0 <= j < |t| ensures LexLe(s[0], t[j]) {
      assert t[j] in multiset(t);
      if t[j] != x {
        assert t[j] in multiset(s[1..]);
        var k :| 0 <= k < |s[1..]| && s[1..][k] == t[j];
        assert s[k + 1] == t[j];
      }
    }
  }

  lemma {:induction false} SortStringsSpec(s: seq<string>)
    ensures Sorted(SortStrings(s))
    ensures multiset(SortStrings(s)) == multiset(s)
    decreases |s|
  {
    if s != [] {
      var t := SortStrings(s[1..]);
      SortStringsSpec(s[1..]);
      InsertSpec(s[0], t);
      assert s == [s[0]] + s[1..];
      assert multiset(s) == multiset(s[1..]) + multiset{s[0]};
    }
  }

  lemma SortedHeadLeast(a: seq<string>, x: string)
    requires Sorted(a) && x in multiset(a)
    ensures LexLe(a[0], x)
  {
    var i :| 0 <= i < |a| && a[i] == x;
    if i == 0 { LexLeRefl(x); }
  }

  lemma TailMultiset(a: seq<string>)
    requires a != []
    ensures multiset(a[1..]) == multiset(a) - multiset{a[0]}
  {
    assert a == [a[0]] + a[1..];
  }

  /** Two sorted arrangements of the same strings are the same sequence, so
      any correct sort, Python's included, gives SortStrings's answer. */
  lemma {:induction false} SortedUnique(a: seq<string>, b: seq<string>)
    requires Sorted(a) && Sorted(b) && multiset(a) == multiset(b)
    ensures a == b
    decreases |a|
  {
    assert |a| == |multiset(a)| == |multiset(b)| == |b|;
    if a != [] {
      SortedHeadLeast(b, a[0]);
      SortedHeadLeast(a, b[0]);
      LexLeAntisym(a[0], b[0]);
      TailMultiset(a);
      TailMultiset(b);
      SortedUnique(a[1..], b[1..]);
      assert a == [a[0]] + a[1..] && b == [b[0]] + b[1..];
    }
  }

  /** pd.Index.unique(): first occurrences, in order. The three clauses
      fix r: its values are those of s, each once, and a value comes
      before another in r exactly when it occurs in s before the other
      first does. */
  function Unique(s: seq<string>): (r: seq<string>)
    ensures forall x :: x in r <==> x in s
    ensures forall i, j :: 0 <= i < j < |r| ==> r[i] != r[j]
    ensures forall i, j, p :: 0 <= i < j < |r| && 0 <= p < |s| && s[p] == r[j] ==> r[i] in s[..p]
    decreases |s|
  {
    if s == [] then []
    else
      var init := s[..|s| - 1];
      var x := s[|s| - 1];
      var u := Unique(init);
      assert forall y :: y in s <==> y in init || y == x;
      assert forall p :: 0 <= p < |s| - 1 ==> s[..p] == init[..p];
      if x in u then u
      else
        var r := u + [x];
        assert forall i, j, p :: 0 <= i < j < |r| && 0 <= p < |s| && s[p] == r[j] ==> r[i] in s[..p] by {
          forall i, j, p | 0 <= i < j < |r| && 0 <= p < |s| && s[p] == r[j] ensures r[i] in s[..p] {
            if p == |s| - 1 {
              assert s[..p] == init && r[i] == u[i];
            } else {
              assert s[p] == init[p];
            }
          }
        }
        r
  }

  // ----- digits, str() and int() ----------------------------------------

  predicate IsDigit(c: char) {
    '0' <= c <= '9'
  }

  predicate AllDigits(s: string) {
    forall i :: 0 <= i < |s| ==> IsDigit(s[i])
  }

  function Digit(n: nat): char
    requires n < 10
  {
    ('0' as int + n) as char
  }

  function DigitValue(c: char): nat {
    if IsDigit(c) then c as int - '0' as int else 0
  }

  /** The decimal value of a string of digits, most significant first. */
  function DigitsValue(s: string): nat
    decreases |s|
  {
    if s == [] then 0 else DigitsValue(s[..|s| - 1]) * 10 + DigitValue(s[|s| - 1])
  }

  function Pow10(k: nat): nat {
    if k == 0 then 1 else 10 * Pow10(k - 1)
  }

  /** f"{n:0{w}d}" for n < 10^w: exactly w digits, zero-padded. */
  function Fixed(n: nat, w: nat): (r: string)
    ensures |r| == w && AllDigits(r)
  {
    if w == 0 then [] else Fixed(n / 10, w - 1) + [Digit(n % 10)]
  }

  /** str(n) for n >= 0: the digits of n, no leading zero. */
  function Str(n: nat): (r: string)
    ensures r != [] && AllDigits(r)
    decreases n
  {
    if n < 10 then [Digit(n)] else Str(n / 10) + [Digit(n % 10)]
  }

  /** str(n) for any integer. */
  function IntText(n: int): string {
    if n < 0 then "-" + Str(-n) else Str(n)
  }

  lemma {:induction false} FixedValue(n: nat, w: nat)
    requires n < Pow10(w)
    ensures DigitsValue(Fixed(n, w)) == n
    decreases w
  {
    if w > 0 {
      FixedValue(n / 10, w - 1);
      var f := Fixed(n, w);
      assert f[..|f| - 1] == Fixed(n / 10, w - 1);
    }
  }

  /** str(n) is the shortest decimal text of n: its value is n, and it has
      k digits exactly when 10^(k-1) <= n < 10^k (or n == 0 and k == 1). */
  lemma {:induction false} StrSpec(n: nat)
    ensures DigitsValue(Str(n)) == n
    ensures n < Pow10(|Str(n)|)
    ensures |Str(n)| > 1 ==> Pow10(|Str(n)| - 1) <= n
    ensures Str(n)[0] != '0' || n == 0
    decreases n
  {
    if n >= 10 {
      StrSpec(n / 10);
      var s := Str(n);
      assert s[..|s| - 1] == Str(n / 10);
    }
  }

  predicate DigitGroups(b: string) {
    && b != []
    && IsDigit(b[0]) && IsDigit(b[|b| - 1])
    && (forall i :: 0 <= i < |b| ==> IsDigit(b[i]) || b[i] == '_')
    && (forall i :: 0 <= i < |b| - 1 ==> b[i] == '_' ==> b[i + 1] != '_')
  }

  function WithoutUnderscores(b: string): (r: string)
    ensures |r| <= |b|
  {
    if b == [] then [] else (if b[0] == '_' then [] else [b[0]]) + WithoutUnderscores(b[1..])
  }

  /** int(text) in base 10: surrounding whitespace, an optional sign, and
      digits with single underscores between them; None where Python raises
      ValueError. */
  function PyInt(text: string): Option<int> {
    var t := Strip(text);
    if t == [] then None
    else
      var body := if t[0] == '-' || t[0] == '+' then t[1..] else t;
      var magnitude: int := DigitsValue(WithoutUnderscores(body));
      if !DigitGroups(body) then None
      else if t[0] == '-' then Some(-magnitude)
      else Some(magnitude)
  }

  lemma {:induction false} WithoutUnderscoresDigits(b: string)
    requires AllDigits(b)
    ensures WithoutUnderscores(b) == b
    decreases |b|
  {
    if b != [] {
      WithoutUnderscoresDigits(b[1..]);
      assert b == [b[0]] + b[1..];
    }
  }

  /** int() reads back any non-empty run of ASCII digits, leading zeros included. */
  lemma PyIntDigits(d: string)
    requires d != [] && AllDigits(d)
    ensures PyInt(d) == Some(DigitsValue(d))
  {
    assert !IsSpace(d[0]) && !IsSpace(d[|d| - 1]);
    assert StripLeft(d) == d;
    assert StripRight(d) == d;
    assert Strip(d) == d;
    assert d[0] != '-' && d[0] != '+';
    assert DigitGroups(d);
    WithoutUnderscoresDigits(d);
  }
}
