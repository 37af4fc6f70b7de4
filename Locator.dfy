/**
  The latest-backup locator of Retrieve.py: `check_folder_for_pdf` and
  `find_latest_pdf` over the archive layout `Root/YYYY/YYYY-MM-DD/`, where a
  day folder may hold a `Mese successivo` ("next month") subfolder.

  The three-phase scan is specified by a flat probe schedule: every
  (probe kind, day) pair the scan visits, in visiting order. The locator
  returns the result of the first probe in that schedule that finds the file.
*/
module Locator {
  import opened Wrappers
  import opened Calendar
  import opened DateFormat
  import opened Paths
  import opened FileSys

  const MeseSuccessivo: Path := "Mese successivo"

  /**
    Dates on which `find_latest_pdf` returns: on earlier dates its day-by-day
    walk steps before 0001-01-01 and Python raises OverflowError.
  */
  predicate Supported(today: Date) {
    ValidDate(today) && !(today.year == MinYear && today.month <= 2)
  }

  /**
    Dates whose month has a month before it, so that the day before its 1st
    exists: each scan loop steps one day past the 1st before it stops.
    `Supported(today)` asks this of `today` and of the last day of the month
    before it, where the later loops start.
  */
  predicate Scannable(d: Date) {
    ValidDate(d) && !(d.year == MinYear && d.month == 1)
  }

  /** `os.path.join(base_folder, d.strftime('%Y'), d.strftime('%Y-%m-%d'))`. */
  function DayFolder(root: Path, d: Date): Path
    requires ValidDate(d)
  {
    Join(Join(root, YearName(d)), DateName(d))
  }

  /** A day folder's own name is the date's name, which reads back as the date. */
  lemma DayFolderName(root: Path, d: Date)
    requires ValidDate(d)
    ensures Basename(DayFolder(root, d)) == DateName(d)
    ensures ParseDateName(Basename(DayFolder(root, d))) == d
  {
    var name := DateName(d);
    assert Sep !in name by {
      forall i | 0 <= i < |name|
        ensures name[i] != Sep
      {
      }
    }
    BasenameOfJoin(Join(root, YearName(d)), name);
    DateNameRoundTrip(d);
  }

  /** `check_folder_for_pdf`: the folder itself first, then its `Mese successivo` subfolder. */
  function CheckFolderForPdf(fs: FileSystem, folder: Path, name: Path): (r: Option<Path>)
    reads fs
    ensures r.Some? ==> fs.Exists(r.value)
    ensures r.Some? ==> r.value == Join(folder, name) || r.value == Join(Join(folder, MeseSuccessivo), name)
    ensures fs.Exists(Join(folder, name)) ==> r == Some(Join(folder, name))
    ensures r.None? <==>
      && !fs.Exists(Join(folder, name))
      && !(fs.Exists(Join(folder, MeseSuccessivo)) && fs.Exists(Join(Join(folder, MeseSuccessivo), name)))
  {
    var direct := Join(folder, name);
    if fs.Exists(direct) then Some(direct)
    else
      var sub := Join(folder, MeseSuccessivo);
      if fs.Exists(sub) && fs.Exists(Join(sub, name)) then Some(Join(sub, name))
      else None
  }

  /** Phases 1 and 3 probe a day folder; phase 2 probes its `Mese successivo` subfolder. */
  datatype ProbeKind = InDayFolder | InOverflowFolder

  datatype Step = Step(kind: ProbeKind, date: Date)

  predicate StepsValid(s: seq<Step>) {
    forall i :: 0 <= i < |s| ==> ValidDate(s[i].date)
  }

  /** What one step of the scan finds. */
  function Probe(fs: FileSystem, root: Path, name: Path, s: Step): (r: Option<Path>)
    requires ValidDate(s.date)
    reads fs
    ensures r.Some? ==> fs.Exists(r.value)
  {
    match s.kind
    case InDayFolder => CheckFolderForPdf(fs, DayFolder(root, s.date), name)
    case InOverflowFolder =>
      var overflow := Join(DayFolder(root, s.date), MeseSuccessivo);
      if fs.Exists(overflow) then CheckFolderForPdf(fs, overflow, name) else None
  }

  /** The first present value of `xs`: the scan stops at its first hit. */
  function FirstSome<T>(xs: seq<Option<T>>): (r: Option<T>)
    ensures r.Some? ==> r in xs
    decreases |xs|
  {
    if xs == [] then None
    else if xs[0].Some? then xs[0]
    else FirstSome(xs[1..])
  }

  /** What each step of `s` finds, step by step. */
  function Hits(fs: FileSystem, root: Path, name: Path, s: seq<Step>): (r: seq<Option<Path>>)
    requires StepsValid(s)
    reads fs
    ensures |r| == |s|
    ensures forall i :: 0 <= i < |r| && r[i].Some? ==> fs.Exists(r[i].value)
    decreases |s|
  {
    if s == [] then [] else [Probe(fs, root, name, s[0])] + Hits(fs, root, name, s[1..])
  }

  /** Step `i` of the hits is what probe `i` finds. */
  lemma {:induction false} HitsAt(fs: FileSystem, root: Path, name: Path, s: seq<Step>, i: int)
    requires StepsValid(s) && 0 <= i < |s|
    ensures Hits(fs, root, name, s)[i] == Probe(fs, root, name, s[i])
    decreases |s|
  {
    if i > 0 {
      HitsAt(fs, root, name, s[1..], i - 1);
    }
  }

  /** The hits of a concatenated schedule are the concatenated hits. */
  lemma HitsAppend(fs: FileSystem, root: Path, name: Path, a: seq<Step>, b: seq<Step>)
    requires StepsValid(a) && StepsValid(b)
    ensures StepsValid(a + b)
    ensures Hits(fs, root, name, a + b) == Hits(fs, root, name, a) + Hits(fs, root, name, b)
  {
    var h := Hits(fs, root, name, a + b);
    var ha := Hits(fs, root, name, a);
    var hb := Hits(fs, root, name, b);
    forall i | 0 <= i < |h|
      ensures h[i] == (ha + hb)[i]
    {
      HitsAt(fs, root, name, a + b, i);
      if i < |a| {
        HitsAt(fs, root, name, a, i);
      } else {
        HitsAt(fs, root, name, b, i - |a|);
      }
    }
  }

  /** The result of the first step of `s` that finds the file. */
  function FirstHit(fs: FileSystem, root: Path, name: Path, s: seq<Step>): (r: Option<Path>)
    requires StepsValid(s)
    reads fs
    ensures r.Some? ==> fs.Exists(r.value)
  {
    FirstSome(Hits(fs, root, name, s))
  }

  /** Days `n`, `n-1`, ..., 1 of month `m` of year `y`. */
  function DaysDescending(y: int, m: int, n: nat): (r: seq<Date>)
    ensures |r| == n
    ensures forall i :: 0 <= i < n ==> r[i] == Date(y, m, n - i)
  {
    if n == 0 then [] else [Date(y, m, n)] + DaysDescending(y, m, n - 1)
  }

  /** The days a scan starting at `d` visits: `d` back to the 1st of its month. */
  function MonthUpTo(d: Date): seq<Date>
    requires ValidDate(d)
  {
    DaysDescending(d.year, d.month, d.day)
  }

  /** Phases 2 and 3: from the last day of the previous month back to its 1st. */
  function PrevMonthDays(today: Date): seq<Date>
    requires Supported(today)
  {
    MonthUpTo(LastDayOfPreviousMonth(today))
  }

  function Steps(kind: ProbeKind, days: seq<Date>): (r: seq<Step>)
    ensures |r| == |days|
    ensures forall i :: 0 <= i < |days| ==> r[i] == Step(kind, days[i])
  {
    seq(|days|, i requires 0 <= i < |days| => Step(kind, days[i]))
  }

  function Phase1(today: Date): seq<Step>
    requires ValidDate(today)
  {
    Steps(InDayFolder, MonthUpTo(today))
  }

  function Phase2(today: Date): seq<Step>
    requires Supported(today)
  {
    Steps(InOverflowFolder, PrevMonthDays(today))
  }

  function Phase3(today: Date): seq<Step>
    requires Supported(today)
  {
    Steps(InDayFolder, PrevMonthDays(today))
  }

  /** Every probe `find_latest_pdf` makes, in the order it makes them. */
  function Schedule(today: Date): (r: seq<Step>)
    requires Supported(today)
    ensures StepsValid(r)
  {
    Phase1(today) + Phase2(today) + Phase3(today)
  }

  // ---------------------------------------------------------------------------
  // The scan ranges

  /** Phase 1 visits exactly the days of `today`'s month up to `today`, latest first. */
  lemma Phase1Range(today: Date)
    requires ValidDate(today)
    ensures |MonthUpTo(today)| == today.day && MonthUpTo(today)[0] == today
    ensures forall e :: e in MonthUpTo(today) <==>
      ValidDate(e) && e.year == today.year && e.month == today.month && NotAfter(e, today)
    ensures forall i, j :: 0 <= i < j < |MonthUpTo(today)| ==> Before(MonthUpTo(today)[j], MonthUpTo(today)[i])
    ensures today.day == 1 ==> MonthUpTo(today) == [today]
  {
    var s := MonthUpTo(today);
    forall e | ValidDate(e) && e.year == today.year && e.month == today.month && NotAfter(e, today)
      ensures e in s
    {
      assert s[today.day - e.day] == e;
    }
  }

  /** Phases 2 and 3 visit exactly the days of the previous calendar month, latest first. */
  lemma PrevMonthRange(today: Date)
    requires Supported(today)
    ensures var s := PrevMonthDays(today);
      && s[0] == LastDayOfPreviousMonth(today)
      && s[|s| - 1] == FirstDayOfMonth(LastDayOfPreviousMonth(today))
      && (forall i, j :: 0 <= i < j < |s| ==> Before(s[j], s[i]))
    ensures forall e :: e in PrevMonthDays(today) <==>
      ValidDate(e) && (e.year, e.month) == PrevMonth(today.year, today.month)
  {
    var s := PrevMonthDays(today);
    var last := LastDayOfPreviousMonth(today);
    forall e | ValidDate(e) && (e.year, e.month) == PrevMonth(today.year, today.month)
      ensures e in s
    {
      assert s[last.day - e.day] == e;
    }
  }

  /** The schedule probe by probe: which kind of probe on which day, at each position. */
  lemma ScheduleAt(today: Date)
    requires Supported(today)
    ensures var n1 := today.day;
      var last := LastDayOfPreviousMonth(today);
      var n2 := last.day;
      var s := Schedule(today);
      && |s| == n1 + 2 * n2
      && (forall i :: 0 <= i < n1 ==> s[i] == Step(InDayFolder, Date(today.year, today.month, n1 - i)))
      && (forall i :: n1 <= i < n1 + n2 ==> s[i] == Step(InOverflowFolder, Date(last.year, last.month, n2 - (i - n1))))
      && (forall i :: n1 + n2 <= i < n1 + 2 * n2 ==> s[i] == Step(InDayFolder, Date(last.year, last.month, n2 - (i - n1 - n2))))
  {
  }

  // ---------------------------------------------------------------------------
  // First-hit semantics

  /** The first hit of a concatenation: the first part wins when it has any. */
  lemma {:induction false} FirstSomeAppend<T>(a: seq<Option<T>>, b: seq<Option<T>>)
    ensures FirstSome(a + b) == if FirstSome(a).Some? then FirstSome(a) else FirstSome(b)
    decreases |a|
  {
    if a == [] {
      assert a + b == b;
    } else {
      assert (a + b)[1..] == a[1..] + b;
      FirstSomeAppend(a[1..], b);
    }
  }

  /**
    The result is absent exactly when every element is; otherwise it is some
    element, and every earlier element is absent.
  */
  lemma {:induction false} FirstSomeCharacterization<T>(xs: seq<Option<T>>)
    ensures FirstSome(xs).None? <==> forall i :: 0 <= i < |xs| ==> xs[i].None?
    ensures FirstSome(xs).Some? ==>
      exists i :: 0 <= i < |xs| && FirstSome(xs) == xs[i] && forall j :: 0 <= j < i ==> xs[j].None?
    decreases |xs|
  {
    if xs != [] {
      FirstSomeCharacterization(xs[1..]);
      if xs[0].None? {
        forall i | 0 < i < |xs| ensures xs[i] == xs[1..][i - 1] { }
        if FirstSome(xs).Some? {
          var i :| 0 <= i < |xs[1..]| && FirstSome(xs[1..]) == xs[1..][i]
            && forall j :: 0 <= j < i ==> xs[1..][j].None?;
          assert FirstSome(xs) == xs[i + 1];
        }
      } else {
        assert FirstSome(xs) == xs[0];
      }
    }
  }

  /**
    The locator's result is absent exactly when every probe misses; otherwise
    it is what some probe found, and every earlier probe missed.
  */
  lemma FirstHitCharacterization(fs: FileSystem, root: Path, name: Path, s: seq<Step>)
    requires StepsValid(s)
    ensures FirstHit(fs, root, name, s).None? <==> forall i :: 0 <= i < |s| ==> Probe(fs, root, name, s[i]).None?
    ensures FirstHit(fs, root, name, s).Some? ==>
      exists i :: 0 <= i < |s| && FirstHit(fs, root, name, s) == Probe(fs, root, name, s[i])
        && forall j :: 0 <= j < i ==> Probe(fs, root, name, s[j]).None?
  {
    var hits := Hits(fs, root, name, s);
    forall i | 0 <= i < |s|
      ensures hits[i] == Probe(fs, root, name, s[i])
    {
      HitsAt(fs, root, name, s, i);
    }
    FirstSomeCharacterization(hits);
  }

  /** A found path always ends in the file name being looked for. */
  lemma FirstHitBasename(fs: FileSystem, root: Path, name: Path, s: seq<Step>)
    requires StepsValid(s)
    requires name != [] && Sep !in name
    ensures FirstHit(fs, root, name, s).Some? ==> Basename(FirstHit(fs, root, name, s).value) == name
  {
    var hits := Hits(fs, root, name, s);
    if FirstSome(hits).Some? {
      var i :| 0 <= i < |hits| && hits[i] == FirstSome(hits);
      HitsAt(fs, root, name, s, i);
      var folder := DayFolder(root, s[i].date);
      var base := if s[i].kind == InDayFolder then folder else Join(folder, MeseSuccessivo);
      assert hits[i].value == Join(base, name) || hits[i].value == Join(Join(base, MeseSuccessivo), name);
      BasenameOfJoin(base, name);
      BasenameOfJoin(Join(base, MeseSuccessivo), name);
    }
  }

  /** The three phases in order: a later phase is consulted only when every earlier one missed. */
  lemma LocateByPhases(fs: FileSystem, root: Path, name: Path, today: Date)
    requires Supported(today)
    ensures StepsValid(Phase1(today)) && StepsValid(Phase2(today)) && StepsValid(Phase3(today))
    ensures FirstHit(fs, root, name, Schedule(today)) ==
      if FirstHit(fs, root, name, Phase1(today)).Some? then FirstHit(fs, root, name, Phase1(today))
      else if FirstHit(fs, root, name, Phase2(today)).Some? then FirstHit(fs, root, name, Phase2(today))
      else FirstHit(fs, root, name, Phase3(today))
  {
    var h1 := Hits(fs, root, name, Phase1(today));
    var h2 := Hits(fs, root, name, Phase2(today));
    var h3 := Hits(fs, root, name, Phase3(today));
    HitsAppend(fs, root, name, Phase2(today), Phase3(today));
    HitsAppend(fs, root, name, Phase1(today), Phase2(today) + Phase3(today));
    assert Schedule(today) == Phase1(today) + (Phase2(today) + Phase3(today));
    FirstSomeAppend(h1, h2 + h3);
    FirstSomeAppend(h2, h3);
  }

  /**
    A previous-month `Mese successivo` hit is returned whenever the current
    month has none, whatever the previous month's day folders hold.
  */
  lemma OverflowPhasePreemptsMainFolders(fs: FileSystem, root: Path, name: Path, today: Date, d: Date)
    requires Supported(today)
    requires forall e :: e in MonthUpTo(today) ==> Probe(fs, root, name, Step(InDayFolder, e)).None?
    requires d in PrevMonthDays(today) && Probe(fs, root, name, Step(InOverflowFolder, d)).Some?
    ensures FirstHit(fs, root, name, Schedule(today)) == FirstHit(fs, root, name, Phase2(today))
    ensures FirstHit(fs, root, name, Schedule(today)).Some?
  {
    LocateByPhases(fs, root, name, today);
    var p1 := Phase1(today);
    var p2 := Phase2(today);
    FirstHitCharacterization(fs, root, name, p1);
    FirstHitCharacterization(fs, root, name, p2);
    assert forall i :: 0 <= i < |p1| ==> p1[i] == Step(InDayFolder, MonthUpTo(today)[i]);
    var k :| 0 <= k < |PrevMonthDays(today)| && PrevMonthDays(today)[k] == d;
    assert p2[k] == Step(InOverflowFolder, d);
  }

  // ---------------------------------------------------------------------------
  // find_latest_pdf


  /**
    The loop of phases 1 and 3: from `from` back to the 1st of its month,
    `check_folder_for_pdf` on each day folder; the first hit is returned.
  */
  method ScanDayFolders(fs: FileSystem, root: Path, name: Path, from: Date) returns (r: Option<Path>)
    requires Scannable(from)
    ensures StepsValid(Steps(InDayFolder, MonthUpTo(from)))
    ensures r == FirstHit(fs, root, name, Steps(InDayFolder, MonthUpTo(from)))
  {
    ghost var steps := Steps(InDayFolder, MonthUpTo(from));
    ghost var hits := Hits(fs, root, name, steps);
    ghost var n := from.day;
    ghost var rest := hits;  // what the probes not made yet would find
    ghost var k := 0;

    var monthStart := FirstDayOfMonth(from);
    assert monthStart == Date(from.year, from.month, 1);
    var current := from;
    while NotAfter(monthStart, current)
      invariant 0 <= k <= n && ValidDate(current)
      invariant k < n ==> current == Date(from.year, from.month, n - k)
      invariant k == n ==> Before(current, monthStart)
      invariant rest == hits[k..] && FirstSome(hits) == FirstSome(rest)
      decreases Ordinal(current)
    {
      var hit := CheckFolderForPdf(fs, DayFolder(root, current), name);
      assert steps[k] == Step(InDayFolder, current);
      HitsAt(fs, root, name, steps, k);
      assert rest[0] == hit;
      if hit.Some? {
        return hit;
      }
      assert rest[1..] == hits[k + 1..];
      PrevDayOrdinal(current);
      if k + 1 < n {
        assert PrevDay(current) == Date(from.year, from.month, n - k - 1);
      } else {
        assert current == monthStart;
      }
      current := PrevDay(current);
      rest := rest[1..];
      k := k + 1;
    }
    assert k == n && rest == [];
    r := None;
  }

  /**
    The loop of phase 2: from `from` back to the 1st of its month, on each day
    whose `Mese successivo` folder exists, `check_folder_for_pdf` on that
    folder; the first hit is returned.
  */
  method ScanOverflowFolders(fs: FileSystem, root: Path, name: Path, from: Date) returns (r: Option<Path>)
    requires Scannable(from)
    ensures StepsValid(Steps(InOverflowFolder, MonthUpTo(from)))
    ensures r == FirstHit(fs, root, name, Steps(InOverflowFolder, MonthUpTo(from)))
  {
    ghost var steps := Steps(InOverflowFolder, MonthUpTo(from));
    ghost var hits := Hits(fs, root, name, steps);
    ghost var n := from.day;
    ghost var rest := hits;  // what the probes not made yet would find
    ghost var k := 0;

    var monthStart := FirstDayOfMonth(from);
    assert monthStart == Date(from.year, from.month, 1);
    var current := from;
    while NotAfter(monthStart, current)
      invariant 0 <= k <= n && ValidDate(current)
      invariant k < n ==> current == Date(from.year, from.month, n - k)
      invariant k == n ==> Before(current, monthStart)
      invariant rest == hits[k..] && FirstSome(hits) == FirstSome(rest)
      decreases Ordinal(current)
    {
      var overflow := Join(DayFolder(root, current), MeseSuccessivo);
      assert steps[k] == Step(InOverflowFolder, current);
      HitsAt(fs, root, name, steps, k);
      if fs.Exists(overflow) {
        var hit := CheckFolderForPdf(fs, overflow, name);
        assert rest[0] == hit;
        if hit.Some? {
          return hit;
        }
      } else {
        assert rest[0] == None;
      }
      assert rest[1..] == hits[k + 1..];
      PrevDayOrdinal(current);
      if k + 1 < n {
        assert PrevDay(current) == Date(from.year, from.month, n - k - 1);
      } else {
        assert current == monthStart;
      }
      current := PrevDay(current);
      rest := rest[1..];
      k := k + 1;
    }
    assert k == n && rest == [];
    r := None;
  }

  /**
    `find_latest_pdf(base_folder, pdf_name)` with `datetime.now()` passed in as
    `today`: the three loops in order, each returning its first hit. It only
    reads the filesystem.
  */
  method FindLatestPdf(fs: FileSystem, root: Path, name: Path, today: Date) returns (r: Option<Path>)
    requires Supported(today)
    ensures r == FirstHit(fs, root, name, Schedule(today))
    ensures r.Some? ==> fs.Exists(r.value)
  {
    LocateByPhases(fs, root, name, today);
    // Phase 1: the current month, from today back to its first day.
    r := ScanDayFolders(fs, root, name, today);
    if r.Some? {
      return;
    }
    // Phase 2: the previous month's `Mese successivo` folders.
    var lastPrev := LastDayOfPreviousMonth(today);
    r := ScanOverflowFolders(fs, root, name, lastPrev);
    if r.Some? {
      return;
    }
    // Phase 3: the previous month's day folders.
    r := ScanDayFolders(fs, root, name, lastPrev);
  }
}
