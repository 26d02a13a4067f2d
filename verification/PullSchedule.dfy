/**
  Pull schedules: the windows, repeated every period, in which the fabric transport's pull thread may read
  from its peers.
 */
module PullSchedule {
  import opened Deadlines

  const ZERO := Time(0, 0)

  datatype Window = Window(offset: Time, duration: Time) {
    predicate Terminates() {
      offset == ZERO && duration == ZERO
    }

    predicate Negative() {
      offset.sec < 0 || offset.usec < 0 || duration.sec < 0 || duration.usec < 0
    }

    predicate Normal() {
      offset.Normal() && duration.Normal()
    }

    function Opens(): int {
      offset.Micros()
    }

    function Closes(): int {
      offset.Micros() + duration.Micros()
    }
  }

  /** timeradd */
  function TimerAdd(a: Time, b: Time): (sum: Time)
    requires a.Normal() && b.Normal()
    ensures sum.Normal() && sum.Micros() == a.Micros() + b.Micros()
  {
    var sum := Time(a.sec + b.sec, a.usec + b.usec);
    if sum.usec >= MICROS_PER_SECOND then Time(sum.sec + 1, sum.usec - MICROS_PER_SECOND) else sum
  }

  /** timersub */
  function TimerSub(a: Time, b: Time): (difference: Time)
    requires a.Normal() && b.Normal()
    ensures difference.Normal() && difference.Micros() == a.Micros() - b.Micros()
  {
    var difference := Time(a.sec - b.sec, a.usec - b.usec);
    if difference.usec < 0 then Time(difference.sec - 1, difference.usec + MICROS_PER_SECOND) else difference
  }

  // ---------- Accepting a schedule ----------

  /** The windows follow one another from 0 on and end with the period. */
  ghost predicate Fits(windows: seq<Window>, period: int) {
    && (windows != [] ==> windows[0].Opens() >= 0)
    && (forall i :: 0 <= i < |windows| ==> windows[i].Closes() <= period)
    && (forall i, j :: 0 <= i < j < |windows| && j == i + 1 ==> windows[i].Closes() <= windows[j].Opens())
  }

  ghost predicate Positive(windows: seq<Window>) {
    forall w <- windows :: w.Normal() && w.duration.Micros() > 0
  }

  /** A schedule fits exactly if its windows, in the order given, lie inside the period and each closes before the next opens. */
  lemma FitsIff(windows: seq<Window>, period: int)
    requires Positive(windows)
    ensures Fits(windows, period) <==>
      && (forall i :: 0 <= i < |windows| ==> 0 <= windows[i].Opens() && windows[i].Closes() <= period)
      && (forall i, j :: 0 <= i < j < |windows| ==> windows[i].Closes() <= windows[j].Opens())
  {
    if Fits(windows, period) {
      forall i | 0 <= i < |windows| ensures 0 <= windows[i].Opens() {
        Ascends(windows, period, i);
      }
      forall i, j | 0 <= i < j < |windows| ensures windows[i].Closes() <= windows[j].Opens() {
        ClosesFirst(windows, period, i, j);
      }
    }
  }

  /** Windows that fit are in order, apart from one another, and inside the period. */
  lemma FittingWindows(windows: seq<Window>, period: int, i: nat, j: nat)
    requires Fits(windows, period) && Positive(windows) && i < j < |windows|
    ensures 0 <= windows[i].Opens() < windows[i].Closes() <= windows[j].Opens() < windows[j].Closes() <= period
  {
    Ascends(windows, period, i);
    Ascends(windows, period, j);
    ClosesFirst(windows, period, i, j);
  }

  lemma {:induction false} ClosesFirst(windows: seq<Window>, period: int, i: nat, j: nat)
    requires Fits(windows, period) && Positive(windows) && i < j < |windows|
    ensures windows[i].Closes() <= windows[j].Opens()
    decreases j
  {
    if i < j - 1 {
      ClosesFirst(windows, period, i, j - 1);
      Ascends(windows, period, j - 1);
    } else {
      assert i == j - 1;
    }
  }

  lemma {:induction false} Ascends(windows: seq<Window>, period: int, i: nat)
    requires Fits(windows, period) && Positive(windows) && i < |windows|
    ensures 0 <= windows[i].Opens() < windows[i].Closes() <= period
  {
    assert windows[i] in windows;
    if i > 0 {
      Ascends(windows, period, i - 1);
    }
  }

  ghost predicate Ordered(windows: seq<Window>) {
    forall i, j :: 0 <= i < j < |windows| ==> windows[i].Opens() <= windows[j].Opens()
  }

  /** Sorting by offset what has been accepted changes nothing. */
  lemma {:induction false} SortingKeeps(windows: seq<Window>, sorted: seq<Window>, period: int)
    requires Fits(windows, period) && Positive(windows)
    requires Ordered(sorted) && multiset(sorted) == multiset(windows)
    ensures sorted == windows
  {
    forall i, j | 0 <= i < j < |windows| ensures windows[i].Opens() < windows[j].Opens() {
      FittingWindows(windows, period, i, j);
    }
    SortedIsUnique(windows, sorted);
  }

  lemma {:induction false} SortedIsUnique(windows: seq<Window>, sorted: seq<Window>)
    requires forall i, j :: 0 <= i < j < |windows| ==> windows[i].Opens() < windows[j].Opens()
    requires Ordered(sorted) && multiset(sorted) == multiset(windows)
    ensures sorted == windows
    decreases |windows|
  {
    if windows == [] {
      assert |sorted| == |multiset(sorted)|;
    } else {
      FirstsAgree(windows, sorted);
      assert windows == [windows[0]] + windows[1..] && sorted == [sorted[0]] + sorted[1..];
      SortedIsUnique(windows[1..], sorted[1..]);
    }
  }

  lemma FirstsAgree(windows: seq<Window>, sorted: seq<Window>)
    requires forall i, j :: 0 <= i < j < |windows| ==> windows[i].Opens() < windows[j].Opens()
    requires Ordered(sorted) && multiset(sorted) == multiset(windows) && windows != []
    ensures sorted != [] && sorted[0] == windows[0] && multiset(sorted[1..]) == multiset(windows[1..])
  {
    assert windows[0] in multiset(sorted);
    var i :| 0 <= i < |sorted| && sorted[i] == windows[0];
    assert sorted[0] in multiset(windows);
    var j :| 0 <= j < |windows| && windows[j] == sorted[0];
    assert sorted[0] == windows[0];
    FirstAndRest(windows);
    FirstAndRest(sorted);
    assert multiset(sorted[1..]) == multiset(sorted) - multiset{sorted[0]};
    assert multiset(windows[1..]) == multiset(windows) - multiset{windows[0]};
  }

  lemma FirstAndRest(windows: seq<Window>)
    requires windows != []
    ensures multiset(windows) == multiset{windows[0]} + multiset(windows[1..])
  {
    assert windows == [windows[0]] + windows[1..];
  }

  // ---------- What a schedule means ----------

  /** `now` is inside window `i` of the period `k` periods after the base. */
  predicate Inside(base: int, period: int, windows: seq<Window>, now: int, k: nat, i: nat) {
    i < |windows| && base + k * period + windows[i].Opens() < now < base + k * period + windows[i].Closes()
  }

  ghost predicate Open(base: int, period: int, windows: seq<Window>, now: int) {
    exists k, i :: Inside(base, period, windows, now, k, i)
  }

  /** What in_pull_period answers: it looks only at the first period after the base it is given. */
  ghost predicate OpenInFirst(base: int, windows: seq<Window>, now: int) {
    exists i :: 0 <= i < |windows| && windows[i].Opens() < now - base < windows[i].Closes()
  }

  lemma {:induction false} Periods(period: int, a: nat, b: nat)
    requires period > 0 && a < b
    ensures a * period + period <= b * period
    decreases b
  {
    AddPeriods(period, b - 1, 1);
    if a < b - 1 {
      Periods(period, a, b - 1);
    }
  }

  lemma AddPeriods(period: int, a: int, b: int)
    ensures (a + b) * period == a * period + b * period
  {
  }

  /** A time is inside at most one window. */
  lemma OneWindow(base: int, period: int, windows: seq<Window>, now: int, k: nat, i: nat, l: nat, j: nat)
    requires Fits(windows, period) && Positive(windows) && period > 0
    requires Inside(base, period, windows, now, k, i) && Inside(base, period, windows, now, l, j)
    ensures k == l && i == j
  {
    Ascends(windows, period, i);
    Ascends(windows, period, j);
    if k < l {
      Periods(period, k, l);
    } else if l < k {
      Periods(period, l, k);
    } else if i < j {
      FittingWindows(windows, period, i, j);
    } else if j < i {
      FittingWindows(windows, period, j, i);
    }
  }

  /** Up to one period after the base the answer is right; after that it is always no. */
  lemma RightWhileCurrent(base: int, period: int, windows: seq<Window>, now: int)
    requires Fits(windows, period) && Positive(windows) && period > 0
    ensures OpenInFirst(base, windows, now) ==> Open(base, period, windows, now) && now < base + period
    ensures now <= base + period ==> (OpenInFirst(base, windows, now) <==> Open(base, period, windows, now))
    ensures now > base + period ==> !OpenInFirst(base, windows, now)
  {
    if OpenInFirst(base, windows, now) {
      var i: nat :| i < |windows| && windows[i].Opens() < now - base < windows[i].Closes();
      Ascends(windows, period, i);
      assert Inside(base, period, windows, now, 0, i);
    }
    if now <= base + period && Open(base, period, windows, now) {
      var k, i :| Inside(base, period, windows, now, k, i);
      Ascends(windows, period, i);
      if k > 0 {
        Periods(period, 0, k);
      }
    }
  }

  /** So the answer is right exactly when the base was current or no window is open. */
  lemma RightIff(base: int, period: int, windows: seq<Window>, now: int)
    requires Fits(windows, period) && Positive(windows) && period > 0
    ensures (OpenInFirst(base, windows, now) <==> Open(base, period, windows, now)) <==>
      now <= base + period || !Open(base, period, windows, now)
  {
    RightWhileCurrent(base, period, windows, now);
  }

  /** A later base of the same schedule. */
  ghost predicate Later(base: int, period: int, later: int) {
    exists m: nat :: later == base + m * period
  }

  /** The base brought up to date: it moves on while a whole period lies before `now`. */
  function Refresh(base: int, period: int, now: int): int
    requires period > 0
    decreases now - base
  {
    if base + period < now then Refresh(base + period, period, now) else base
  }

  lemma {:induction false} RefreshIsCurrent(base: int, period: int, now: int)
    requires period > 0
    ensures var updated := Refresh(base, period, now);
      && Later(base, period, updated)
      && now <= updated + period
      && (updated == base || updated < now)
      && (base < now ==> updated < now)
    decreases now - base
  {
    if base + period < now {
      RefreshIsCurrent(base + period, period, now);
      var m: nat :| Refresh(base, period, now) == base + period + m * period;
      AddPeriods(period, m, 1);
      assert Refresh(base, period, now) == base + (m + 1) * period;
    } else {
      assert base == base + 0 * period;
    }
  }

  lemma RefreshTwice(base: int, period: int, now: int)
    requires period > 0
    ensures var updated := Refresh(base, period, now); Refresh(updated, period, now) == updated
  {
    RefreshIsCurrent(base, period, now);
  }

  /** Measured from the updated base, as it was meant to be, the answer would always be right. */
  lemma UpdatedIsRight(base: int, period: int, windows: seq<Window>, now: int)
    requires Fits(windows, period) && Positive(windows) && period > 0
    ensures OpenInFirst(Refresh(base, period, now), windows, now) <==> Open(base, period, windows, now)
  {
    var updated := Refresh(base, period, now);
    RefreshIsCurrent(base, period, now);
    RightWhileCurrent(updated, period, windows, now);
    hide OpenInFirst, Fits, Positive, Inside, Refresh;
    var m: nat :| updated == base + m * period;
    if Open(base, period, windows, now) {
      var k, i :| Inside(base, period, windows, now, k, i);
      StillInside(base, period, windows, now, updated, m, k, i);
    }
    if Open(updated, period, windows, now) {
      var k, i :| Inside(updated, period, windows, now, k, i);
      InsideBefore(base, period, windows, now, updated, m, k, i);
    }
  }

  lemma InsideBefore(base: int, period: int, windows: seq<Window>, now: int, updated: int, m: nat, k: nat, i: nat)
    requires updated == base + m * period && Inside(updated, period, windows, now, k, i)
    ensures Inside(base, period, windows, now, k + m, i)
  {
    AddPeriods(period, k, m);
  }

  lemma StillInside(base: int, period: int, windows: seq<Window>, now: int, updated: int, m: nat, k: nat, i: nat)
    requires Fits(windows, period) && Positive(windows) && period > 0
    requires updated == base + m * period && (m == 0 || updated < now)
    requires Inside(base, period, windows, now, k, i)
    ensures k >= m && Inside(updated, period, windows, now, k - m, i)
  {
    Ascends(windows, period, i);
    hide Fits, Positive;
    if k < m {
      Periods(period, k, m);
    }
    AddPeriods(period, k - m, m);
  }

  // ---------- Waking up ----------

  /** `t` is when window `i` of some period after the base opens. */
  predicate Starts(base: int, period: int, windows: seq<Window>, t: int, k: nat, i: nat) {
    i < |windows| && t == base + k * period + windows[i].Opens()
  }

  /** The first window to open after the given offset; all of them past, the number of windows. */
  function NextWindow(windows: seq<Window>, offset: int): (i: nat)
    ensures i <= |windows|
    ensures i < |windows| ==> windows[i].Opens() > offset
    ensures forall j :: 0 <= j < i ==> windows[j].Opens() <= offset
  {
    if windows == [] then 0
    else if windows[0].Opens() > offset then 0
    else
      var i := NextWindow(windows[1..], offset);
      assert forall j :: 0 < j < i + 1 ==> windows[j] == windows[1..][j - 1];
      i + 1
  }

  /** When the pull thread wakes after a look at `now` from a current base. */
  function WakeTime(base: int, period: int, windows: seq<Window>, now: int): int {
    var i := NextWindow(windows, now - base);
    if i < |windows| then base + windows[i].Opens()
    else base + period + (if windows == [] then 0 else windows[0].Opens())
  }

  /** A schedule without windows is looked at once a period. */
  lemma NoWindows(base: int, period: int, now: int)
    ensures WakeTime(base, period, [], now) == base + period
  {
  }

  /** On a current base the wake time opens a window, is not past, and no window opens strictly before it. */
  lemma WakesAtNextStart(base: int, period: int, windows: seq<Window>, now: int)
    requires Fits(windows, period) && Positive(windows) && period > 0 && windows != []
    requires base <= now <= base + period
    ensures var t := WakeTime(base, period, windows, now);
      && now <= t
      && (exists k: nat, i: nat :: Starts(base, period, windows, t, k, i))
      && (forall s: int, k: nat, i: nat :: Starts(base, period, windows, s, k, i) && s > now ==> s >= t)
  {
    var next := NextWindow(windows, now - base);
    var t := WakeTime(base, period, windows, now);
    Ascends(windows, period, 0);
    if next < |windows| {
      assert Starts(base, period, windows, t, 0, next);
    } else {
      assert Starts(base, period, windows, t, 1, 0);
    }
    forall s: int, k: nat, i: nat | Starts(base, period, windows, s, k, i) && s > now ensures s >= t {
      Ascends(windows, period, i);
      if next < |windows| {
        Ascends(windows, period, next);
      }
      if k == 0 {
        assert windows[i].Opens() > now - base;
        if next < i {
          FittingWindows(windows, period, next, i);
        }
      } else {
        if i > 0 {
          FittingWindows(windows, period, 0, i);
        }
        if k > 1 {
          Periods(period, 1, k);
        }
      }
    }
  }

  /** Looks at the schedule, each after sleeping at least as long as was asked for, and by the end of the next period. */
  ghost predicate Timed(base: int, period: int, windows: seq<Window>, now: int, looks: seq<int>)
    requires period > 0
    decreases |looks|
  {
    looks == [] ||
    (WakeTime(base, period, windows, now) <= looks[0] <= base + 2 * period &&
     Timed(Refresh(base, period, looks[0]), period, windows, looks[0], looks[1..]))
  }

  ghost predicate NeverOpen(base: int, period: int, windows: seq<Window>, looks: seq<int>)
    requires period > 0
    decreases |looks|
  {
    looks == [] ||
    (!OpenInFirst(base, windows, looks[0]) && NeverOpen(Refresh(base, period, looks[0]), period, windows, looks[1..]))
  }

  /**
    A sleep that lasts into the next period wakes on a stale base, so the answer is no although the first
    window of that period has just opened.
   */
  lemma MissesFirstWindow(base: int, period: int, windows: seq<Window>, now: int, wake: int)
    requires Fits(windows, period) && Positive(windows) && period > 0 && windows != []
    requires NextWindow(windows, now - base) == |windows| && wake >= WakeTime(base, period, windows, now)
    ensures !OpenInFirst(base, windows, wake)
  {
    Ascends(windows, period, 0);
    forall i: nat | i < |windows| ensures !(windows[i].Opens() < wake - base < windows[i].Closes()) {
      Ascends(windows, period, i);
    }
  }

  /** With a single window a thread that only its timer wakes never finds the schedule open again once it has opened. */
  lemma {:induction false} SingleWindowNeverOpens(base: int, period: int, windows: seq<Window>, now: int, looks: seq<int>)
    requires Fits(windows, period) && Positive(windows) && period > 0 && |windows| == 1
    requires base + windows[0].Opens() <= now <= base + period
    requires Timed(base, period, windows, now, looks)
    ensures NeverOpen(base, period, windows, looks)
    decreases |looks|
  {
    if looks != [] {
      Ascends(windows, period, 0);
      MissesFirstWindow(base, period, windows, now, looks[0]);
      assert Refresh(base, period, looks[0]) == if base + period < looks[0] then base + period else base;
      SingleWindowNeverOpens(Refresh(base, period, looks[0]), period, windows, looks[0], looks[1..]);
    }
  }

  // ---------- The schedule in the transport ----------

  /** The entries before the terminating one. */
  function Entries(given: seq<Window>): seq<Window>
    requires exists i :: 0 <= i < |given| && given[i].Terminates()
  {
    if given[0].Terminates() then [] else
      assert forall i :: 0 < i < |given| ==> given[i] == given[1..][i - 1];
      [given[0]] + Entries(given[1..])
  }

  lemma {:induction false} EntriesAre(given: seq<Window>, count: nat)
    requires count < |given| && given[count].Terminates()
    requires forall i :: 0 <= i < count ==> !given[i].Terminates()
    ensures Entries(given) == given[..count]
  {
    if count > 0 {
      assert given[1..][count - 1] == given[count];
      EntriesAre(given[1..], count - 1);
      assert given[..count] == [given[0]] + given[1..][..count - 1];
    }
  }

  lemma {:induction false} EntriesContain(given: seq<Window>, i: nat)
    requires i < |given| && (exists j :: i < j < |given| && given[j].Terminates())
    requires forall j :: 0 <= j <= i ==> !given[j].Terminates()
    ensures given[i] in Entries(given)
  {
    assert !given[0].Terminates();
    if i > 0 {
      var j :| i < j < |given| && given[j].Terminates();
      assert given[1..][j - 1] == given[j];
      EntriesContain(given[1..], i - 1);
    }
  }

  /** They are what comes before the first entry of which both times are zero. */
  lemma {:induction false} EntriesEnd(given: seq<Window>)
    requires exists i :: 0 <= i < |given| && given[i].Terminates()
    ensures var count := |Entries(given)|;
      && count < |given| && Entries(given) == given[..count] && given[count] == Window(ZERO, ZERO)
      && Window(ZERO, ZERO) !in given[..count]
  {
    if !given[0].Terminates() {
      assert forall i :: 0 < i < |given| ==> given[i] == given[1..][i - 1];
      EntriesEnd(given[1..]);
      var count := |Entries(given[1..])|;
      assert given[..count + 1] == [given[0]] + given[1..][..count];
    }
  }

  /** A window whose fields pass the checks is one of normal times that are not before zero. */
  lemma NegativeIff(w: Window)
    requires w.offset.usec < MICROS_PER_SECOND && w.duration.usec < MICROS_PER_SECOND
    ensures !w.Negative() <==> w.Normal() && w.Opens() >= 0 && w.Closes() >= w.Opens()
  {
  }

  /** The first loop: it counts the entries and stops at a negative one. */
  method CountGiven(given: seq<Window>) returns (negative: bool, count: nat)
    requires exists i :: 0 <= i < |given| && given[i].Terminates()
    ensures negative <==> exists w <- Entries(given) :: w.Negative()
    ensures !negative ==> count <= |given| && given[..count] == Entries(given)
  {
    ghost var end :| 0 <= end < |given| && given[end].Terminates();
    count := 0;
    while given[count].offset != ZERO || given[count].duration != ZERO
      invariant count <= end
      invariant forall i :: 0 <= i < count ==> !given[i].Terminates() && !given[i].Negative()
      decreases end - count
    {
      if given[count].Negative() {
        EntriesContain(given, count);
        return true, count;
      }
      count := count + 1;
    }
    EntriesAre(given, count);
    negative := false;
  }

  lemma FitsOneMore(windows: seq<Window>, period: int, i: nat)
    requires i < |windows| && Fits(windows[..i], period)
    requires windows[i].Closes() <= period && windows[i].Opens() >= if i == 0 then 0 else windows[i - 1].Closes()
    ensures Fits(windows[..i + 1], period)
  {
    hide Window.Opens, Window.Closes;
    var more, less := windows[..i + 1], windows[..i];
    assert forall j :: 0 <= j < i ==> more[j] == less[j];
    assert more[i] == windows[i] && (i > 0 ==> more[i - 1] == windows[i - 1]);
  }

  /** The second loop. */
  method CheckFits(windows: seq<Window>, period: Time) returns (fits: bool)
    requires period.Normal()
    requires forall w <- windows :: w.Normal() && !w.Negative()
    ensures fits <==> Fits(windows, period.Micros())
  {
    var lastEnd := ZERO;
    for i := 0 to |windows|
      invariant lastEnd.Normal() && lastEnd.Micros() == if i == 0 then 0 else windows[i - 1].Closes()
      invariant Fits(windows[..i], period.Micros())
    {
      var w := windows[i];
      assert w in windows;
      var end := TimerAdd(w.offset, w.duration);
      BeforeIsLess(period, end);
      BeforeIsLess(w.offset, lastEnd);
      if period.Before(end) || w.offset.Before(lastEnd) {
        return false;
      }
      lastEnd := end;
      FitsOneMore(windows, period.Micros(), i);
    }
    assert windows[..|windows|] == windows;
    fits := true;
  }

  /** Any other order of an accepted schedule is refused. */
  lemma OtherOrdersAreRefused(windows: seq<Window>, other: seq<Window>, period: int)
    requires Fits(windows, period) && Positive(windows)
    requires multiset(other) == multiset(windows) && other != windows
    ensures !Fits(other, period)
  {
    if Fits(other, period) {
      forall w | w in other ensures w.Normal() && w.duration.Micros() > 0 {
        assert w in multiset(windows);
      }
      forall i, j | 0 <= i < j < |other| ensures other[i].Opens() <= other[j].Opens() {
        FittingWindows(other, period, i, j);
      }
      SortingKeeps(windows, other, period);
    }
  }

  class Schedule {
    var base: Time
    var period: Time
    var avail: seq<Window>   // as allocated, with the terminating entry

    ghost predicate Valid()
      reads this
    {
      && base.Normal() && period.Normal() && period.Micros() > 0
      && |avail| > 0 && avail[|avail| - 1].Terminates()
      && Fits(Windows(), period.Micros()) && Positive(Windows())
    }

    ghost function Windows(): seq<Window>
      requires |avail| > 0
      reads this
    {
      avail[..|avail| - 1]
    }

    constructor (base: Time, period: Time)
      requires base.Normal() && period.Normal() && period.Micros() > 0
      ensures Valid() && this.base == base && this.period == period && Windows() == []
    {
      this.base, this.period, avail := base, period, [Window(ZERO, ZERO)];
    }

    /**
      INT_CMinstall_pull_schedule with the transport's part.  It looks at the windows in the order they are
      given and installs the sorted copy; `sorted` is what qsort makes of them.  The code is 0 both when the
      schedule is accepted and when a field of it is negative.
     */
    method Install(newBase: Time, newPeriod: Time, given: seq<Window>, sorted: seq<Window>) returns (code: int)
      requires exists i :: 0 <= i < |given| && given[i].Terminates()
      requires forall w <- given :: w.offset.usec < MICROS_PER_SECOND && w.duration.usec < MICROS_PER_SECOND
      requires newBase.Normal() && newPeriod.Normal()
      requires Ordered(sorted) && multiset(sorted) == multiset(Entries(given))
      modifies this
      ensures var windows := Entries(given);
        if exists w <- windows :: w.Negative() then code == 0 && base == old(base) && period == old(period) && avail == old(avail)
        else if !Fits(windows, newPeriod.Micros()) then
          code == -1 && base == old(base) && period == old(period) && avail == old(avail)
        else
          && code == 0 && base == newBase && period == newPeriod && avail == sorted + [Window(ZERO, ZERO)]
          && (Positive(windows) ==> Windows() == windows)
          && (Positive(windows) && newPeriod.Micros() > 0 ==> Valid())
    {
      var negative, count := CountGiven(given);
      if negative {
        return 0;
      }
      var fits := CheckFits(given[..count], newPeriod);
      if !fits {
        return -1;
      }
      base, period, avail := newBase, newPeriod, sorted + [Window(ZERO, ZERO)];
      assert avail[..|avail| - 1] == sorted;
      if Positive(given[..count]) {
        SortingKeeps(given[..count], sorted, newPeriod.Micros());
      }
      code := 0;
    }

    /** update_period_base. */
    method UpdatePeriodBase(now: Time)
      requires Valid() && now.Normal()
      modifies this`base
      ensures Valid() && base.Micros() == Refresh(old(base).Micros(), period.Micros(), now.Micros())
    {
      ghost var start, p := base.Micros(), period.Micros();
      var next := TimerAdd(base, period);
      BeforeIsLess(next, now);
      while next.Before(now)
        invariant next.Normal() && Valid()
        invariant next.Micros() == base.Micros() + p
        invariant Refresh(base.Micros(), p, now.Micros()) == Refresh(start, p, now.Micros())
        invariant next.Before(now) <==> next.Micros() < now.Micros()
        decreases now.Micros() - base.Micros()
      {
        base := next;
        next := TimerAdd(base, period);
        BeforeIsLess(next, now);
      }
    }

    /** The loop that looks for the end of the windows. */
    method Count() returns (count: nat)
      requires Valid()
      ensures count == |Windows()|
    {
      assert forall i :: 0 <= i < |Windows()| ==> Windows()[i] in Windows() && avail[i] == Windows()[i];
      count := 0;
      while avail[count].duration != ZERO
        invariant count <= |Windows()|
        decreases |avail| - count
      {
        count := count + 1;
      }
    }

    /** in_pull_period: the offset is taken before the base is brought up to date. */
    method InPullPeriod(now: Time) returns (inside: bool)
      requires Valid() && now.Normal()
      modifies this`base
      ensures Valid() && base.Micros() == Refresh(old(base).Micros(), period.Micros(), now.Micros())
      ensures inside == OpenInFirst(old(base).Micros(), Windows(), now.Micros())
    {
      hide Refresh, Fits, Positive;
      var offset := TimerSub(now, base);
      UpdatePeriodBase(now);
      inside := Search(offset);
    }

    method Search(offset: Time) returns (inside: bool)
      requires Valid() && offset.Normal()
      ensures inside == exists i :: 0 <= i < |Windows()| && Windows()[i].Opens() < offset.Micros() < Windows()[i].Closes()
    {
      hide Fits;
      ghost var windows := Windows();
      var count := Count();
      var i := 0;
      while i < count
        invariant i <= count
        invariant forall j :: 0 <= j < i ==> !(windows[j].Opens() < offset.Micros() < windows[j].Closes())
      {
        assert windows[i] == avail[i] && windows[i] in windows;
        var end := TimerAdd(avail[i].offset, avail[i].duration);
        BeforeIsLess(offset, end);
        BeforeIsLess(avail[i].offset, offset);
        if offset.Before(end) && avail[i].offset.Before(offset) {
          return true;
        }
        i := i + 1;
      }
      inside := false;
    }

    /** delay_until_wake, whose offset too is taken before the base is brought up to date. */
    method DelayUntilWake(now: Time) returns (delay: Time)
      requires Valid() && now.Normal()
      modifies this`base
      ensures Valid() && base.Micros() == Refresh(old(base).Micros(), period.Micros(), now.Micros())
      ensures delay.Normal()
      ensures now.Micros() + delay.Micros() == WakeTime(old(base).Micros(), period.Micros(), Windows(), now.Micros())
    {
      hide Refresh, Fits, Positive;
      var offset := TimerSub(now, base);
      UpdatePeriodBase(now);
      delay := DelayFrom(offset);
    }

    method DelayFrom(offset: Time) returns (delay: Time)
      requires Valid() && offset.Normal()
      ensures delay.Normal()
      ensures offset.Micros() + delay.Micros() == WakeTime(0, period.Micros(), Windows(), offset.Micros())
    {
      hide Fits;
      ghost var windows := Windows();
      var count := Count();
      var i := 0;
      while i < count
        invariant i <= count
        invariant forall j :: 0 <= j < i ==> windows[j].Opens() <= offset.Micros()
      {
        assert windows[i] == avail[i] && windows[i] in windows;
        BeforeIsLess(offset, avail[i].offset);
        if offset.Before(avail[i].offset) {
          assert NextWindow(windows, offset.Micros()) == i;
          delay := TimerSub(avail[i].offset, offset);
          return;
        }
        i := i + 1;
      }
      assert windows != [] ==> avail[0] == windows[0] && windows[0] in windows;
      delay := TimerAdd(period, avail[0].offset);
      delay := TimerSub(delay, offset);
    }

    /**
      One turn of pull_thread's loop, but for the reading and sleeping: the answer comes from the old base,
      and the sleep is measured from the base that the answer brought up to date.
     */
    method Turn(now: Time) returns (pulls: bool, delay: Time)
      requires Valid() && now.Normal()
      modifies this`base
      ensures Valid() && base.Micros() == Refresh(old(base).Micros(), period.Micros(), now.Micros())
      ensures pulls == OpenInFirst(old(base).Micros(), Windows(), now.Micros())
      ensures now.Micros() + delay.Micros() == WakeTime(base.Micros(), period.Micros(), Windows(), now.Micros())
    {
      hide Fits, Positive, OpenInFirst, WakeTime, Refresh;
      pulls := InPullPeriod(now);
      RefreshTwice(old(base).Micros(), period.Micros(), now.Micros());
      delay := DelayUntilWake(now);
    }
  }
}
