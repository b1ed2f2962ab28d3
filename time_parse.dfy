/** The time-expression parser of app/utils.py (`parse_datetime`).

    The anchored pattern `(\d+y)?(\d+M)?(\d+w)?(\d+d)?(\d+h)?(\d+m)?(\d+s)?`
    is modelled as a deterministic left-to-right scan: each optional group
    needs its suffix letter straight after a maximal digit run, so a greedy
    `\d+` never has to give digits back and the first match attempt is the
    one `re.match` reports. Instants are integer seconds; `now`, the calendar
    addition of years and months (dateutil's `relativedelta`) and the general
    date parser (dateutil's `parse`) are parameters. */
module TimeParse {
  import opened Wrappers

  /** Suffix letters of the seven groups, in the order the pattern lists them:
      years, months, weeks, days, hours, minutes, seconds. */
  const Units: string := "yMwdhms"

  const SecondsPerMinute: nat := 60
  const SecondsPerHour: nat := 3600
  const SecondsPerDay: nat := 86400
  const SecondsPerWeek: nat := 604800

  predicate IsDigit(c: char) {
    '0' <= c <= '9'
  }

  function DigitValue(c: char): nat {
    if IsDigit(c) then (c as int) - ('0' as int) else 0
  }

  function DigitChar(d: nat): (c: char)
    requires d < 10
    ensures IsDigit(c) && DigitValue(c) == d
  {
    ('0' as int + d) as char
  }

  /** Python's `int()` of a run of decimal digits. */
  function DigitsValue(ds: string): nat {
    if ds == [] then 0 else 10 * DigitsValue(ds[..|ds| - 1]) + DigitValue(ds[|ds| - 1])
  }

  /** The shortest decimal spelling of `n`, as `str(n)` writes it. */
  function Decimal(n: nat): (s: string)
    ensures |s| > 0
    ensures forall k :: 0 <= k < |s| ==> IsDigit(s[k])
  {
    if n < 10 then [DigitChar(n)] else Decimal(n / 10) + [DigitChar(n % 10)]
  }

  lemma {:induction false} DecimalValue(n: nat)
    ensures DigitsValue(Decimal(n)) == n
  {
    if n >= 10 {
      var s := Decimal(n);
      assert s[..|s| - 1] == Decimal(n / 10);
      DecimalValue(n / 10);
    }
  }

  /** Length of the maximal run of digits that starts at `i`. */
  function DigitRun(s: string, i: nat): (n: nat)
    requires i <= |s|
    ensures i + n <= |s|
    ensures forall k :: i <= k < i + n ==> IsDigit(s[k])
    ensures i + n == |s| || !IsDigit(s[i + n])
    decreases |s| - i
  {
    if i < |s| && IsDigit(s[i]) then 1 + DigitRun(s, i + 1) else 0
  }

  /** A digit run is determined by its end: the run is exactly the digits up to
      the first non-digit. */
  lemma {:induction false} DigitRunIs(s: string, i: nat, n: nat)
    requires i + n <= |s|
    requires forall k :: i <= k < i + n ==> IsDigit(s[k])
    requires i + n == |s| || !IsDigit(s[i + n])
    ensures DigitRun(s, i) == n
    decreases n
  {
    if n > 0 {
      DigitRunIs(s, i + 1, n - 1);
    }
  }

  /** One optional group `(\d+u)?` tried at position `i`: its value when it
      matches, and the position where the scan continues. */
  function Group(s: string, i: nat, u: char): (r: (Option<nat>, nat))
    requires i <= |s|
    ensures r.1 <= |s|
    ensures r.0.None? ==> r.1 == i
    ensures r.0.Some? ==> i < r.1 && s[r.1 - 1] == u
    ensures r.0.Some? ==>
      && i + 1 < r.1 && r.1 == i + DigitRun(s, i) + 1
      && (forall k :: i <= k < r.1 - 1 ==> IsDigit(s[k]))
      && r.0.value == DigitsValue(s[i..r.1 - 1])
    ensures r.0.Some? <==> DigitRun(s, i) > 0 && i + DigitRun(s, i) < |s| && s[i + DigitRun(s, i)] == u
  {
    var n := DigitRun(s, i);
    if n > 0 && i + n < |s| && s[i + n] == u then (Some(DigitsValue(s[i..i + n])), i + n + 1)
    else (None, i)
  }

  /** `\d+u` read at `i`: wherever a non-empty run of digits is followed by the
      unit letter, the group takes exactly that run and its value. */
  lemma GroupReads(s: string, i: nat, u: char, n: nat)
    requires !IsDigit(u) && 0 < n && i + n < |s| && s[i + n] == u
    requires forall k :: i <= k < i + n ==> IsDigit(s[k])
    ensures Group(s, i, u) == (Some(DigitsValue(s[i..i + n])), i + n + 1)
  {
    DigitRunIs(s, i, n);
  }

  /** The groups for `units`, scanned from position `i`, and the end of the
      matched prefix. */
  function ScanFrom(s: string, i: nat, units: string): (r: (seq<Option<nat>>, nat))
    requires i <= |s|
    ensures |r.0| == |units|
    ensures i <= r.1 <= |s|
    decreases |units|
  {
    if units == [] then ([], i)
    else
      var first := Group(s, i, units[0]);
      var rest := ScanFrom(s, first.1, units[1..]);
      ([first.0] + rest.0, rest.1)
  }

  /** The match groups of `re.match` on the whole input: seven entries, one
      per unit, `None` where the group did not take part. */
  function Groups(s: string): (g: seq<Option<nat>>)
    ensures |g| == 7
  {
    ScanFrom(s, 0, Units).0
  }

  /** The three ways the parser can go, and the text handed on in the last. */
  datatype Outcome =
    | Relative(groups: seq<Option<nat>>)
    | Tomorrow
    | NextWeek
    | Fallback(text: string)

  predicate AnyPresent(g: seq<Option<nat>>) {
    exists k :: 0 <= k < |g| && g[k].Some?
  }

  /** Branch selection of `parse_datetime` (app/utils.py:39-70). */
  function Parse(s: string): (o: Outcome)
    ensures o.Relative? ==> o.groups == Groups(s)
  {
    var g := Groups(s);
    if AnyPresent(g) then Relative(g) else Named(s)
  }

  /** The two literals the parser names, otherwise the general parser. */
  function Named(s: string): (o: Outcome)
    ensures !o.Relative?
  {
    if s == "tomorrow" then Tomorrow
    else if s == "next week" then NextWeek
    else Fallback(s)
  }

  /** The amount of the `k`-th group, 0 when it did not match. */
  function Amount(g: seq<Option<nat>>, k: nat): nat
    requires k < |g|
  {
    if g[k].Some? then g[k].value else 0
  }

  function Years(g: seq<Option<nat>>): nat requires |g| == 7 { Amount(g, 0) }
  function Months(g: seq<Option<nat>>): nat requires |g| == 7 { Amount(g, 1) }

  /** Seconds of the fixed-length `timedelta` built from weeks to seconds. */
  function FixedSeconds(g: seq<Option<nat>>): nat
    requires |g| == 7
  {
    Amount(g, 2) * SecondsPerWeek + Amount(g, 3) * SecondsPerDay + Amount(g, 4) * SecondsPerHour
      + Amount(g, 5) * SecondsPerMinute + Amount(g, 6)
  }

  /** The instant the outcome denotes: `now` plus the fixed part, then the
      calendar part only when years or months are nonzero; the named literals;
      or whatever the general parser makes of the text (`None` for its
      `ParserError`). */
  function Resolve(now: int, o: Outcome, calendar: (int, nat, nat) -> int, fallback: string -> Option<int>): Option<int>
    requires o.Relative? ==> |o.groups| == 7
  {
    match o
    case Relative(g) =>
      var shifted := now + FixedSeconds(g);
      if Years(g) != 0 || Months(g) != 0 then Some(calendar(shifted, Years(g), Months(g))) else Some(shifted)
    case Tomorrow => Some(now + SecondsPerDay)
    case NextWeek => Some(now + SecondsPerWeek)
    case Fallback(text) => fallback(text)
  }

  /** `parse_datetime(input)` evaluated at instant `now`. */
  function ParseDatetime(now: int, s: string, calendar: (int, nat, nat) -> int, fallback: string -> Option<int>): (r: Option<int>)
    ensures r.None? ==> Parse(s) == Fallback(s) && fallback(s).None?
    ensures Parse(s) == Fallback(s) ==> r == fallback(s)
  {
    Resolve(now, Parse(s), calendar, fallback)
  }

  // ---------------------------------------------------------------------
  // The canonical spelling of a set of groups, and the scan reading it back

  /** The text `re.match` reads back as groups `g`: each present amount in
      decimal followed by its unit letter, in unit order. */
  function Render(g: seq<Option<nat>>, units: string): string
    requires |g| == |units|
  {
    if g == [] then []
    else (if g[0].Some? then Decimal(g[0].value) + [units[0]] else []) + Render(g[1..], units[1..])
  }

  predicate DistinctLetters(units: string) {
    (forall k :: 0 <= k < |units| ==> !IsDigit(units[k]))
    && (forall i, j :: 0 <= i < j < |units| ==> units[i] != units[j])
  }

  /** `w` occurs in `s` at position `i`. */
  ghost predicate At(s: string, i: nat, w: string) {
    i + |w| <= |s| && forall k {:trigger w[k]} :: 0 <= k < |w| ==> s[i + k] == w[k]
  }

  /** What follows position `e` cannot extend a digit run. */
  predicate Stops(s: string, e: nat) {
    e >= |s| || !IsDigit(s[e])
  }

  lemma AtConcat(s: string, i: nat, a: string, b: string)
    requires At(s, i, a + b)
    ensures At(s, i, a) && At(s, i + |a|, b)
  {
    forall k | 0 <= k < |a| ensures s[i + k] == a[k] {
      assert (a + b)[k] == a[k];
    }
    forall k | 0 <= k < |b| ensures s[i + |a| + k] == b[k] {
      assert (a + b)[|a| + k] == b[k];
    }
  }

  lemma AtSame(s: string, i: nat, w: string, v: string)
    requires At(s, i, w) && w == v
    ensures At(s, i, v)
  {
  }

  lemma AtOne(s: string, i: nat, c: char)
    requires At(s, i, [c])
    ensures i < |s| && s[i] == c
  {
    assert [c][0] == c;
  }

  lemma RenderSplit(g: seq<Option<nat>>, units: string)
    requires |g| == |units| && g != [] && g[0].Some?
    ensures Render(g, units) == Decimal(g[0].value) + ([units[0]] + Render(g[1..], units[1..]))
  {
  }

  /** The rendering of groups whose first is present: its digits, its letter,
      then the rest. */
  lemma RenderedHead(s: string, i: nat, g: seq<Option<nat>>, units: string)
    requires |g| == |units| && g != [] && g[0].Some? && At(s, i, Render(g, units))
    ensures var d := Decimal(g[0].value);
      && At(s, i, d) && i + |d| < |s| && s[i + |d|] == units[0]
      && At(s, i + |d| + 1, Render(g[1..], units[1..]))
      && |Render(g, units)| == |d| + 1 + |Render(g[1..], units[1..])|
  {
    var d := Decimal(g[0].value);
    var rest := Render(g[1..], units[1..]);
    RenderSplit(g, units);
    AtSame(s, i, Render(g, units), d + ([units[0]] + rest));
    HeadAt(s, i, d, units[0], rest);
  }

  lemma HeadAt(s: string, i: nat, d: string, u: char, rest: string)
    requires At(s, i, d + ([u] + rest))
    ensures At(s, i, d) && i + |d| < |s| && s[i + |d|] == u && At(s, i + |d| + 1, rest)
  {
    AtConcat(s, i, d, [u] + rest);
    AtConcat(s, i + |d|, [u], rest);
    AtOne(s, i + |d|, u);
  }

  /** A digit run of `d` followed by the letter `v`: a group for letter `u`
      reads it when `u` is `v`, and fails without moving otherwise. */
  lemma GroupAtDigits(s: string, i: nat, d: string, v: char, u: char)
    requires |d| > 0 && (forall k :: 0 <= k < |d| ==> IsDigit(d[k])) && !IsDigit(v)
    requires At(s, i, d) && i + |d| < |s| && s[i + |d|] == v
    ensures Group(s, i, u) == if u == v then (Some(DigitsValue(d)), i + |d| + 1) else (None, i)
  {
    forall k | i <= k < i + |d| ensures IsDigit(s[k]) {
      assert s[i + (k - i)] == d[k - i];
    }
    DigitRunIs(s, i, |d|);
    assert s[i..i + |d|] == d;
  }

  /** A group for a letter the rendering does not use fails at the start of
      a rendered text: its digit run is followed by another letter, or there
      is no digit run at all. */
  lemma {:induction false} GroupMissesOtherUnit(s: string, i: nat, g: seq<Option<nat>>, units: string, u: char)
    requires |g| == |units| && u !in units
    requires forall k :: 0 <= k < |units| ==> !IsDigit(units[k])
    requires At(s, i, Render(g, units)) && Stops(s, i + |Render(g, units)|)
    ensures Group(s, i, u) == (None, i)
  {
    if g == [] {
    } else if g[0].Some? {
      RenderedHead(s, i, g, units);
      GroupAtDigits(s, i, Decimal(g[0].value), units[0], u);
    } else {
      assert Render(g, units) == Render(g[1..], units[1..]);
      GroupMissesOtherUnit(s, i, g[1..], units[1..], u);
    }
  }

  lemma DistinctTail(units: string)
    requires units != [] && DistinctLetters(units)
    ensures DistinctLetters(units[1..]) && units[0] !in units[1..]
  {
    forall i, j | 0 <= i < j < |units[1..]| ensures units[1..][i] != units[1..][j] {
      assert units[1..][i] == units[i + 1] && units[1..][j] == units[j + 1];
    }
    forall k | 0 <= k < |units[1..]| ensures units[1..][k] != units[0] {
      assert units[1..][k] == units[k + 1];
    }
  }

  lemma RenderSkip(g: seq<Option<nat>>, units: string)
    requires |g| == |units| && g != [] && g[0].None?
    ensures Render(g, units) == Render(g[1..], units[1..])
  {
  }

  /** One step of the round trip for a present first group: its value is
      read back and the scan moves past its digits and letter. */
  lemma ScanStepPresent(s: string, i: nat, g: seq<Option<nat>>, units: string)
    requires |g| == |units| && g != [] && g[0].Some? && DistinctLetters(units)
    requires At(s, i, Render(g, units))
    ensures var j := i + |Decimal(g[0].value)| + 1;
      && Group(s, i, units[0]) == (g[0], j)
      && At(s, j, Render(g[1..], units[1..]))
      && j + |Render(g[1..], units[1..])| == i + |Render(g, units)|
  {
    RenderedHead(s, i, g, units);
    GroupAtDigits(s, i, Decimal(g[0].value), units[0], units[0]);
    DecimalValue(g[0].value);
  }

  /** One step of the round trip for an absent first group: the group fails
      without moving. */
  lemma ScanStepAbsent(s: string, i: nat, g: seq<Option<nat>>, units: string)
    requires |g| == |units| && g != [] && g[0].None? && DistinctLetters(units)
    requires At(s, i, Render(g, units)) && Stops(s, i + |Render(g, units)|)
    ensures Group(s, i, units[0]) == (None, i)
      && At(s, i, Render(g[1..], units[1..]))
      && |Render(g[1..], units[1..])| == |Render(g, units)|
  {
    DistinctTail(units);
    RenderSkip(g, units);
    AtSame(s, i, Render(g, units), Render(g[1..], units[1..]));
    GroupMissesOtherUnit(s, i, g[1..], units[1..], units[0]);
  }

  /** One step of the round trip: the first group is read back (or, absent,
      fails without moving), and the rest of the rendering follows. */
  lemma ScanStep(s: string, i: nat, g: seq<Option<nat>>, units: string)
    requires |g| == |units| && g != [] && DistinctLetters(units)
    requires At(s, i, Render(g, units)) && Stops(s, i + |Render(g, units)|)
    ensures var j := if g[0].Some? then i + |Decimal(g[0].value)| + 1 else i;
      && Group(s, i, units[0]) == (g[0], j)
      && At(s, j, Render(g[1..], units[1..]))
      && j + |Render(g[1..], units[1..])| == i + |Render(g, units)|
  {
    if g[0].Some? {
      ScanStepPresent(s, i, g, units);
    } else {
      ScanStepAbsent(s, i, g, units);
    }
  }

  /** Round trip: scanning a rendered text followed by anything that does not
      start with a digit gives back exactly the rendered groups and stops at
      the end of the rendering. */
  lemma {:induction false} ScanRender(s: string, i: nat, g: seq<Option<nat>>, units: string)
    requires |g| == |units| && DistinctLetters(units)
    requires At(s, i, Render(g, units)) && Stops(s, i + |Render(g, units)|)
    ensures i <= |s| && ScanFrom(s, i, units) == (g, i + |Render(g, units)|)
    decreases |units|
  {
    if g != [] {
      var j := if g[0].Some? then i + |Decimal(g[0].value)| + 1 else i;
      ScanStep(s, i, g, units);
      DistinctTail(units);
      ScanRender(s, j, g[1..], units[1..]);
      ScanAssemble(s, i, units, g[0], j, g[1..], i + |Render(g, units)|);
      assert [g[0]] + g[1..] == g;
    }
  }

  /** A scan is its first group followed by the scan of the rest. */
  lemma ScanAssemble(s: string, i: nat, units: string, first: Option<nat>, j: nat, rest: seq<Option<nat>>, e: nat)
    requires i <= |s| && units != [] && Group(s, i, units[0]) == (first, j)
    requires j <= |s| && ScanFrom(s, j, units[1..]) == (rest, e)
    ensures ScanFrom(s, i, units) == ([first] + rest, e)
  {
  }

  // ---------------------------------------------------------------------
  // What parse_datetime promises

  lemma UnitsDistinct()
    ensures DistinctLetters(Units)
  {
  }

  /** A duration text: every group spelled in unit order, anything after it
      that does not start with a digit ignored. The result is `now` plus the
      fixed-length part, moved by the calendar part when years or months are
      nonzero. */
  lemma ParseDuration(now: int, g: seq<Option<nat>>, t: string, calendar: (int, nat, nat) -> int, fallback: string -> Option<int>)
    requires |g| == 7 && AnyPresent(g)
    requires t == [] || !IsDigit(t[0])
    ensures Parse(Render(g, Units) + t) == Relative(g)
    ensures var shifted := now + Amount(g, 2) * 604800 + Amount(g, 3) * 86400 + Amount(g, 4) * 3600
                                + Amount(g, 5) * 60 + Amount(g, 6);
      ParseDatetime(now, Render(g, Units) + t, calendar, fallback)
        == Some(if Amount(g, 0) != 0 || Amount(g, 1) != 0 then calendar(shifted, Amount(g, 0), Amount(g, 1)) else shifted)
  {
    var s := Render(g, Units) + t;
    RenderedGroups(g, t);
    assert Parse(s) == Relative(g);
    assert ParseDatetime(now, s, calendar, fallback) == Resolve(now, Relative(g), calendar, fallback);
    ResolveRelative(now, g, calendar, fallback);
  }

  /** Once the groups of a text are known and one of them matched, the text
      denotes `now` moved by those groups. */
  lemma DurationOfGroups(now: int, s: string, g: seq<Option<nat>>, calendar: (int, nat, nat) -> int, fallback: string -> Option<int>)
    requires Groups(s) == g && AnyPresent(g)
    ensures var shifted := now + Amount(g, 2) * 604800 + Amount(g, 3) * 86400 + Amount(g, 4) * 3600
                                + Amount(g, 5) * 60 + Amount(g, 6);
      ParseDatetime(now, s, calendar, fallback)
        == Some(if Amount(g, 0) != 0 || Amount(g, 1) != 0 then calendar(shifted, Amount(g, 0), Amount(g, 1)) else shifted)
  {
    assert Parse(s) == Relative(g);
    ResolveRelative(now, g, calendar, fallback);
  }

  lemma ResolveRelative(now: int, g: seq<Option<nat>>, calendar: (int, nat, nat) -> int, fallback: string -> Option<int>)
    requires |g| == 7
    ensures var shifted := now + Amount(g, 2) * 604800 + Amount(g, 3) * 86400 + Amount(g, 4) * 3600
                                + Amount(g, 5) * 60 + Amount(g, 6);
      Resolve(now, Relative(g), calendar, fallback)
        == Some(if Amount(g, 0) != 0 || Amount(g, 1) != 0 then calendar(shifted, Amount(g, 0), Amount(g, 1)) else shifted)
  {
  }

  lemma RenderedGroups(g: seq<Option<nat>>, t: string)
    requires |g| == 7
    requires t == [] || !IsDigit(t[0])
    ensures Groups(Render(g, Units) + t) == g
  {
    UnitsDistinct();
    var r := Render(g, Units);
    var s := r + t;
    assert At(s, 0, r) by {
      forall k | 0 <= k < |r| ensures s[0 + k] == r[k] {
      }
    }
    if t != [] {
      assert s[|r|] == t[0];
    }
    ScanRender(s, 0, g, Units);
  }

  /** Where no digit run starts, every group fails and the scan does not move. */
  lemma {:induction false} ScanNoDigits(s: string, i: nat, units: string)
    requires i <= |s| && (i == |s| || !IsDigit(s[i]))
    ensures ScanFrom(s, i, units).1 == i
    ensures forall k :: 0 <= k < |units| ==> ScanFrom(s, i, units).0[k].None?
    decreases |units|
  {
    if units != [] {
      assert Group(s, i, units[0]) == (None, i);
      ScanNoDigits(s, i, units[1..]);
    }
  }

  /** The duration branch is taken exactly when some group matched; a text
      that does not start with a digit never takes it. */
  lemma NoLeadingDigit(s: string)
    requires s == [] || !IsDigit(s[0])
    ensures !AnyPresent(Groups(s))
    ensures !Parse(s).Relative?
  {
    ScanNoDigits(s, 0, Units);
  }

  /** The named literals are recognised only as these exact strings, and
      every other text without a duration component goes to the general
      parser unchanged (app/utils.py:60-70). */
  lemma ParseBranches(s: string)
    ensures Parse(s).Relative? <==> AnyPresent(Groups(s))
    ensures Parse(s) == Tomorrow <==> s == "tomorrow"
    ensures Parse(s) == NextWeek <==> s == "next week"
    ensures Parse(s).Fallback? <==> !AnyPresent(Groups(s)) && s != "tomorrow" && s != "next week"
    ensures Parse(s).Fallback? ==> Parse(s).text == s
  {
    if s == "tomorrow" || s == "next week" {
      NoLeadingDigit(s);
    }
  }

  lemma NamedLiterals(now: int, calendar: (int, nat, nat) -> int, fallback: string -> Option<int>)
    ensures ParseDatetime(now, "tomorrow", calendar, fallback) == Some(now + 86400)
    ensures ParseDatetime(now, "next week", calendar, fallback) == Some(now + 604800)
    ensures ParseDatetime(now, "", calendar, fallback) == fallback("")
  {
    ParseBranches("tomorrow");
    ParseBranches("next week");
    ParseBranches("");
  }

  /** One step of the scan, for a unit list written as its first letter and
      the rest. */
  lemma ScanCons(s: string, i: nat, u: char, rest: string)
    requires i <= |s|
    ensures var first := Group(s, i, u);
      ScanFrom(s, i, [u] + rest).0 == [first.0] + ScanFrom(s, first.1, rest).0
    ensures ScanFrom(s, i, [u] + rest).1 == ScanFrom(s, Group(s, i, u).1, rest).1
  {
    assert ([u] + rest)[0] == u && ([u] + rest)[1..] == rest;
  }

  /** `"1dxyz"` is the rendering of one day followed by text that does not
      start with a digit, so the round trip reads back that one group. */
  lemma GroupsOneDayThenJunk(s: string)
    requires s == "1dxyz"
    ensures Groups(s) == OnlyAt(3, 1)
  {
    var g := OnlyAt(3, 1);
    assert Render(g, Units) == "1d" by {
      assert Decimal(1) == "1";
      RenderOne(g, Units, 3);
    }
    assert s == Render(g, Units) + "xyz";
    RenderedGroups(g, "xyz");
  }

  /** `"1825d"` is the rendering of 1825 days alone. */
  lemma GroupsFiveYearsInDays(s: string)
    requires s == "1825d"
    ensures Groups(s) == OnlyAt(3, 1825)
  {
    var g := OnlyAt(3, 1825);
    assert Render(g, Units) == "1825d" by {
      assert Decimal(1825) == "1825" by {
        assert Decimal(1) == "1";
        assert Decimal(18) == "18";
        assert Decimal(182) == "182";
      }
      RenderOne(g, Units, 3);
    }
    assert s == Render(g, Units) + "";
    RenderedGroups(g, "");
  }

  /** `"1825d"` is 1825 days after the clock reading. */
  lemma FiveYearsInDays(now: int, s: string, calendar: (int, nat, nat) -> int, fallback: string -> Option<int>)
    requires s == "1825d"
    ensures ParseDatetime(now, s, calendar, fallback) == Some(now + 1825 * SecondsPerDay)
  {
    GroupsFiveYearsInDays(s);
    OneComponent(now, s, 3, 1825, calendar, fallback);
  }

  /** `"1dxyz"` is one day: the text after the last component is ignored. */
  lemma OneDayThenJunk(now: int, s: string, calendar: (int, nat, nat) -> int, fallback: string -> Option<int>)
    requires s == "1dxyz"
    ensures ParseDatetime(now, s, calendar, fallback) == Some(now + 86400)
  {
    GroupsOneDayThenJunk(s);
    OneComponent(now, s, 3, 1, calendar, fallback);
  }

  lemma GroupsOfThirtyMinutes(s: string)
    requires s == "30m1h"
    ensures Group(s, 3, 's') == (None, 3)
    ensures Group(s, 0, 'm') == (Some(30), 3)
    ensures forall u :: u in "yMwdh" ==> Group(s, 0, u) == (None, 0)
  {
    DigitRunIs(s, 0, 2);
    DigitRunIs(s, 3, 1);
    assert DigitsValue(s[0..2]) == 30 by {
      assert s[0..2] == "30" && "30"[..1] == "3" && "3"[..0] == "";
    }
  }

  function Nones(n: nat): (r: seq<Option<nat>>)
    ensures |r| == n && forall k :: 0 <= k < n ==> r[k].None?
  {
    if n == 0 then [] else [None] + Nones(n - 1)
  }

  /** Units whose groups all fail at `i` contribute `None` each and leave
      the scan where it was. */
  lemma {:induction false} ScanSkipping(s: string, i: nat, skipped: string, rest: string)
    requires i <= |s|
    requires forall k :: 0 <= k < |skipped| ==> Group(s, i, skipped[k]) == (None, i)
    ensures ScanFrom(s, i, skipped + rest).0 == Nones(|skipped|) + ScanFrom(s, i, rest).0
    ensures ScanFrom(s, i, skipped + rest).1 == ScanFrom(s, i, rest).1
    decreases |skipped|
  {
    if skipped != [] {
      assert skipped + rest == [skipped[0]] + (skipped[1..] + rest);
      ScanCons(s, i, skipped[0], skipped[1..] + rest);
      assert Group(s, i, skipped[0]) == (None, i);
      ScanSkipping(s, i, skipped[1..], rest);
      var tail := ScanFrom(s, i, rest).0;
      assert ScanFrom(s, i, skipped + rest).0 == [None] + (Nones(|skipped| - 1) + tail);
      assert Nones(|skipped|) == [None] + Nones(|skipped| - 1);
      assert [None] + (Nones(|skipped| - 1) + tail) == ([None] + Nones(|skipped| - 1)) + tail;
      assert ([None] + Nones(|skipped| - 1)) + tail == Nones(|skipped|) + tail;
    } else {
      assert skipped + rest == rest;
      assert Nones(0) + ScanFrom(s, i, rest).0 == ScanFrom(s, i, rest).0;
    }
  }

  lemma ScanOfThirtyMinutes(s: string)
    requires s == "30m1h"
    ensures ScanFrom(s, 0, "ms") == ([Some(30), None], 3)
  {
    GroupsOfThirtyMinutes(s);
    assert "s" == ['s'] + [];
    ScanCons(s, 3, 's', []);
    assert [None] + ScanFrom(s, 3, []).0 == [None];
    assert ScanFrom(s, 3, "s") == ([None], 3);
    assert "ms" == ['m'] + "s";
    ScanCons(s, 0, 'm', "s");
    assert ScanFrom(s, 0, "ms").0 == [Some(30)] + [None] == [Some(30), None];
  }

  lemma GroupsMinutesBeforeHours(s: string)
    requires s == "30m1h"
    ensures Groups(s) == OnlyAt(5, 30)
  {
    GroupsOfThirtyMinutes(s);
    ScanOfThirtyMinutes(s);
    assert Units == "yMwdh" + "ms";
    ScanSkipping(s, 0, "yMwdh", "ms");
    assert Nones(5) == [None, None, None, None, None];
    assert OnlyAt(5, 30) == [None, None, None, None, None, Some(30), None];
  }

  /** `"30m1h"` is thirty minutes: hours come before minutes in the pattern,
      so the later `1h` is never read. */
  lemma MinutesBeforeHours(now: int, s: string, calendar: (int, nat, nat) -> int, fallback: string -> Option<int>)
    requires s == "30m1h"
    ensures ParseDatetime(now, s, calendar, fallback) == Some(now + 1800)
  {
    GroupsMinutesBeforeHours(s);
    OneComponent(now, s, 5, 30, calendar, fallback);
  }

  /** Groups where only the `k`-th matched, with amount `v`. */
  function OnlyAt(k: nat, v: nat): (g: seq<Option<nat>>)
    ensures |g| == 7
  {
    seq(7, j => if j == k then Some(v) else None)
  }

  /** Seconds per unit of the fixed-length components, by group index. */
  function UnitSeconds(k: nat): nat {
    if k == 2 then SecondsPerWeek else if k == 3 then SecondsPerDay else if k == 4 then SecondsPerHour
    else if k == 5 then SecondsPerMinute else if k == 6 then 1 else 0
  }

  /** A text with a single fixed-length component of amount `v` is `now` plus
      `v` of that unit. */
  lemma OneComponent(now: int, s: string, k: nat, v: nat, calendar: (int, nat, nat) -> int, fallback: string -> Option<int>)
    requires 2 <= k < 7 && Groups(s) == OnlyAt(k, v)
    ensures ParseDatetime(now, s, calendar, fallback) == Some(now + v * UnitSeconds(k))
  {
    var g := OnlyAt(k, v);
    FixedOnlyAt(k, v);
    FixedParse(now, s, g, calendar, fallback);
    Shift(ParseDatetime(now, s, calendar, fallback), now, FixedSeconds(g), v * UnitSeconds(k));
  }

  lemma Shift(r: Option<int>, now: int, a: int, b: int)
    requires r == Some(now + a) && a == b
    ensures r == Some(now + b)
  {
  }

  /** Groups without years and months denote `now` plus their fixed part. */
  lemma FixedParse(now: int, s: string, g: seq<Option<nat>>, calendar: (int, nat, nat) -> int, fallback: string -> Option<int>)
    requires |g| == 7 && Groups(s) == g && AnyPresent(g) && Years(g) == 0 && Months(g) == 0
    ensures ParseDatetime(now, s, calendar, fallback) == Some(now + FixedSeconds(g))
  {
    RelativeOf(s, g);
    FixedResolve(now, g, calendar, fallback);
  }

  lemma RelativeOf(s: string, g: seq<Option<nat>>)
    requires Groups(s) == g && AnyPresent(g)
    ensures Parse(s) == Relative(g)
  {
  }

  lemma FixedResolve(now: int, g: seq<Option<nat>>, calendar: (int, nat, nat) -> int, fallback: string -> Option<int>)
    requires |g| == 7 && Years(g) == 0 && Months(g) == 0
    ensures Resolve(now, Relative(g), calendar, fallback) == Some(now + FixedSeconds(g))
  {
  }

  lemma FixedOnlyAt(k: nat, v: nat)
    requires 2 <= k < 7
    ensures var g := OnlyAt(k, v);
      AnyPresent(g) && Years(g) == 0 && Months(g) == 0 && FixedSeconds(g) == v * UnitSeconds(k)
  {
    var g := OnlyAt(k, v);
    assert Amount(g, k) == v;
    assert forall j :: 0 <= j < 7 && j != k ==> Amount(g, j) == 0;
  }

  lemma GroupsOneUnit(s: string, k: nat)
    requires |s| == 2 && s[0] == '1' && k < 7 && s[1] == Units[k]
    ensures Groups(s) == OnlyAt(k, 1)
  {
    var g := OnlyAt(k, 1);
    UnitsDistinct();
    assert Render(g, Units) == s by {
      assert Decimal(1) == "1";
      RenderOne(g, Units, k);
    }
    RenderedGroups(g, []);
    assert s + [] == s;
  }

  /** The rendering of groups where only the `k`-th is present. */
  lemma {:induction false} RenderOne(g: seq<Option<nat>>, units: string, k: nat)
    requires |g| == |units| && k < |g| && g[k].Some?
    requires forall j :: 0 <= j < |g| && j != k ==> g[j].None?
    ensures Render(g, units) == Decimal(g[k].value) + [units[k]]
  {
    if k == 0 {
      RenderNone(g[1..], units[1..]);
    } else {
      RenderOne(g[1..], units[1..], k - 1);
    }
  }

  lemma {:induction false} RenderNone(g: seq<Option<nat>>, units: string)
    requires |g| == |units|
    requires forall j :: 0 <= j < |g| ==> g[j].None?
    ensures Render(g, units) == []
  {
    if g != [] {
      RenderNone(g[1..], units[1..]);
    }
  }

  lemma OnlyAtAmounts(k: nat, v: nat)
    requires k < 7
    ensures AnyPresent(OnlyAt(k, v))
    ensures forall j :: 0 <= j < 7 ==> Amount(OnlyAt(k, v), j) == if j == k then v else 0
  {
    assert OnlyAt(k, v)[k].Some?;
  }

  /** Case matters: `M` is months ... */
  lemma OneMonth(now: int, calendar: (int, nat, nat) -> int, fallback: string -> Option<int>)
    ensures ParseDatetime(now, "1M", calendar, fallback) == Some(calendar(now, 0, 1))
  {
    GroupsOneUnit("1M", 1);
    OnlyAtAmounts(1, 1);
    DurationOfGroups(now, "1M", OnlyAt(1, 1), calendar, fallback);
  }

  /** ... and `m` is minutes. */
  lemma OneMinute(now: int, calendar: (int, nat, nat) -> int, fallback: string -> Option<int>)
    ensures ParseDatetime(now, "1m", calendar, fallback) == Some(now + 60)
  {
    GroupsOneUnit("1m", 5);
    OneComponent(now, "1m", 5, 1, calendar, fallback);
  }
}
