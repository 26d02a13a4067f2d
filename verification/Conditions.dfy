/**
  Conditions: what a thread waits on until a message arrives or a connection fails.  A condition is known by a
  number, and numbers are used again after 0xffffff allocations.
 */
module Conditions {
  import opened Bytes
  import opened Collections

  const RECYCLE_AT := 0xffffff

  /** The number given to the allocation that `birth` others came before. */
  function NumberOf(birth: nat): nat {
    (birth + 1) % RECYCLE_AT
  }

  /** Numbers start at 1, follow one another, and start over at 0 after 0xfffffe. */
  lemma NumbersFollow(birth: nat)
    ensures NumberOf(0) == 1
    ensures NumberOf(birth + 1) == if NumberOf(birth) == 0xfffffe then 0 else NumberOf(birth) + 1
  {
  }

  /** Two allocations get the same number exactly when a multiple of 0xffffff separates them. */
  lemma SameNumberIff(a: nat, b: nat)
    requires a <= b
    ensures NumberOf(a) == NumberOf(b) <==> (b - a) % RECYCLE_AT == 0
  {
    var apart := b - a;
    var q, r := apart / RECYCLE_AT, apart % RECYCLE_AT;
    var p, s := (a + 1) / RECYCLE_AT, (a + 1) % RECYCLE_AT;
    assert b + 1 == (p + q) * RECYCLE_AT + (s + r);
    if s + r < RECYCLE_AT {
      Remainder(p + q, s + r);
    } else {
      Remainder(p + q + 1, s + r - RECYCLE_AT);
    }
  }

  lemma Remainder(q: int, r: int)
    requires 0 <= r < RECYCLE_AT
    ensures (q * RECYCLE_AT + r) % RECYCLE_AT == r
  {
  }

  class Condition {
    const num: nat
    const conn: Option<nat>
    var waiting: nat
    var signaled: bool
    var failed: bool
    ghost const birth: nat

    constructor (num: nat, conn: Option<nat>, failed: bool, ghost birth: nat)
      ensures this.num == num && this.conn == conn && this.birth == birth
      ensures waiting == 0 && !signaled && this.failed == failed
    {
      this.num, this.conn, this.birth := num, conn, birth;
      waiting, signaled, this.failed := 0, false, failed;
    }
  }

  /** The newest first. */
  ghost predicate Descending(list: seq<Condition>) {
    forall i, j :: 0 <= i < j < |list| ==> list[i].birth > list[j].birth
  }

  ghost predicate Numbered(list: seq<Condition>) {
    forall c <- list :: c.num == NumberOf(c.birth)
  }

  ghost predicate DistinctNumbers(list: seq<Condition>) {
    forall i, j :: 0 <= i < j < |list| ==> list[i].num != list[j].num
  }

  /** Fewer than 0xffffff allocations separate any two of the conditions. */
  ghost predicate Young(list: seq<Condition>) {
    forall i, j :: 0 <= i < j < |list| ==> list[i].birth - list[j].birth < RECYCLE_AT
  }

  /** The numbers of live conditions are distinct exactly when no multiple of 0xffffff separates two of them. */
  lemma DistinctIff(list: seq<Condition>)
    requires Descending(list) && Numbered(list)
    ensures DistinctNumbers(list) <==> !exists i, j :: 0 <= i < j < |list| && Clash(list[i], list[j])
  {
    hide NumberOf, Clash;
    forall i, j | 0 <= i < j < |list| ensures list[i].num == list[j].num <==> Clash(list[i], list[j]) {
      ClashIff(list, i, j);
    }
  }

  /** A multiple of 0xffffff allocations lies between the two. */
  ghost predicate Clash(newer: Condition, older: Condition) {
    (newer.birth - older.birth) % RECYCLE_AT == 0
  }

  lemma ClashIff(list: seq<Condition>, i: nat, j: nat)
    requires Descending(list) && Numbered(list) && i < j < |list|
    ensures list[i].num == list[j].num <==> Clash(list[i], list[j])
    ensures list[i].birth - list[j].birth < RECYCLE_AT ==> !Clash(list[i], list[j])
  {
    assert list[i] in list && list[j] in list;
    SameNumberIff(list[j].birth, list[i].birth);
  }

  /** So they are distinct while fewer than 0xffffff allocations separate the oldest from the newest. */
  lemma YoungAreDistinct(list: seq<Condition>)
    requires Descending(list) && Numbered(list) && Young(list)
    ensures DistinctNumbers(list)
  {
    hide NumberOf, Clash, Numbered;
    forall i, j | 0 <= i < j < |list| ensures list[i].num != list[j].num {
      ClashIff(list, i, j);
    }
  }

  /** Where a number is found: at the first condition that has it. */
  ghost predicate FoundAt(list: seq<Condition>, num: nat, at: nat) {
    && at <= |list| && (forall i :: 0 <= i < at ==> list[i].num != num)
    && (at < |list| ==> list[at].num == num)
  }

  /** Every number finds its own condition exactly when the numbers are distinct. */
  lemma FindsItsOwnIff(list: seq<Condition>)
    ensures DistinctNumbers(list) <==> forall i :: 0 <= i < |list| ==> FoundAt(list, list[i].num, i)
  {
    if !DistinctNumbers(list) {
      var i, j :| 0 <= i < j < |list| && list[i].num == list[j].num;
      assert !FoundAt(list, list[j].num, j);
    }
  }

  /** What others do while a thread waits. */
  datatype Event =
    | Signal(num: nat)
    | Fail(num: nat)
    | FailConnection(failing: nat)
    | Get(conn: Option<nat>, connClosed: bool)
    | EndWait(num: nat)      // another thread's wait on the number ends, and destroys what the number finds
    | CloseList

  // ---------- Which conditions are in the list ----------

  predicate Falling(list: seq<nat>) {
    |list| > 1 ==> list[0] > list[1] && Falling(list[1..])
  }

  /** The first is greater than all the others. */
  lemma {:induction false} FirstIsGreatest(list: seq<nat>, b: nat)
    requires Falling(list) && b in list
    ensures b <= list[0] && (b == list[0] || b in list[1..])
  {
    if b != list[0] {
      assert list == [list[0]] + list[1..];
      FirstIsGreatest(list[1..], b);
    }
  }

  /** The allocations whose conditions are in the list, the newest first, and how many there have been. */
  datatype Live = Live(list: seq<nat>, births: nat) {
    ghost predicate Valid() {
      Falling(list) && (list != [] ==> list[0] < births)
    }
  }

  /** The list without the first condition of the given number. */
  function RemoveFirst(list: seq<nat>, num: nat): seq<nat> {
    if list == [] then []
    else if NumberOf(list[0]) == num then list[1..]
    else [list[0]] + RemoveFirst(list[1..], num)
  }

  function Step(s: Live, event: Event): Live {
    match event
    case Get(_, _) => Live([s.births] + s.list, s.births + 1)
    case EndWait(num) => s.(list := RemoveFirst(s.list, num))
    case _ => s
  }

  function Run(s: Live, events: seq<Event>): Live
    decreases |events|
  {
    if events == [] then s else Step(Run(s, events[..|events| - 1]), events[|events| - 1])
  }

  /** How often the number is given out in the course of the events, of which `births` allocations come before. */
  function Given(events: seq<Event>, births: nat, num: nat): (given: nat)
    decreases |events|
  {
    if events == [] then 0
    else
      var before, last := events[..|events| - 1], events[|events| - 1];
      Given(before, births, num) + if last.Get? && NumberOf(births + Allocations(before)) == num then 1 else 0
  }

  function Allocations(events: seq<Event>): nat
    decreases |events|
  {
    if events == [] then 0
    else Allocations(events[..|events| - 1]) + if events[|events| - 1].Get? then 1 else 0
  }

  /** How many waits on the number end. */
  function Ended(events: seq<Event>, num: nat): nat
    decreases |events|
  {
    if events == [] then 0
    else Ended(events[..|events| - 1], num) + if events[|events| - 1] == EndWait(num) then 1 else 0
  }

  /** At no time have more waits on the number ended than it has been given out. */
  predicate Outnumbered(events: seq<Event>, births: nat, num: nat) {
    forall k :: 0 <= k <= |events| ==> Ended(events[..k], num) <= Given(events[..k], births, num)
  }

  /** The live conditions newer than `b` that have its number. */
  function Newer(list: seq<nat>, b: nat): nat {
    if list == [] || list[0] <= b then 0
    else Newer(list[1..], b) + if NumberOf(list[0]) == NumberOf(b) then 1 else 0
  }

  lemma {:induction false} RemoveFirstFalls(list: seq<nat>, num: nat)
    requires Falling(list)
    ensures var less := RemoveFirst(list, num);
      && Falling(less) && (less != [] ==> list != [] && less[0] <= list[0])
      && (forall c <- less :: c in list)
  {
    hide NumberOf;
    if list != [] {
      var rest := list[1..];
      if NumberOf(list[0]) != num {
        RemoveFirstFalls(rest, num);
        assert RemoveFirst(list, num)[1..] == RemoveFirst(rest, num);
      }
      assert list == [list[0]] + rest;
    }
  }

  lemma {:induction false} RemoveFirstKeeps(list: seq<nat>, num: nat, b: nat)
    requires Falling(list) && b in list
    ensures var less := RemoveFirst(list, num);
      && (b in less <==> NumberOf(b) != num || Newer(list, b) > 0)
      && (b in less ==> Newer(less, b) == Newer(list, b) - if NumberOf(b) == num then 1 else 0)
  {
    hide NumberOf;
    var rest := list[1..];
    FirstIsGreatest(list, b);
    assert list == [list[0]] + rest;
    if NumberOf(list[0]) == num {
      if b == list[0] {
        if b in rest {
          FirstIsGreatest(rest, b);
          assert false;
        }
      }
      NewerInRest(list, b);
    } else if b == list[0] {
      assert RemoveFirst(list, num)[0] == b;
    } else {
      RemoveFirstKeeps(rest, num, b);
      assert RemoveFirst(list, num) == [list[0]] + RemoveFirst(rest, num);
      assert ([list[0]] + RemoveFirst(rest, num))[1..] == RemoveFirst(rest, num);
    }
  }

  lemma NewerInRest(list: seq<nat>, b: nat)
    requires list != []
    ensures list[0] > b ==> Newer(list, b) == Newer(list[1..], b) + if NumberOf(list[0]) == NumberOf(b) then 1 else 0
    ensures list[0] <= b ==> Newer(list, b) == 0
  {
  }

  /** One event, seen from a condition in the list. */
  lemma StepKeeps(s: Live, event: Event, b: nat)
    requires s.Valid()
    ensures Step(s, event).Valid() && Step(s, event).births == s.births + if event.Get? then 1 else 0
    ensures b < s.births && b !in s.list ==> b !in Step(s, event).list
    ensures b in s.list ==>
      && (b in Step(s, event).list <==> event != EndWait(NumberOf(b)) || Newer(s.list, b) > 0)
      && (b in Step(s, event).list ==>
           Newer(Step(s, event).list, b) == Newer(s.list, b)
             + (if event.Get? && NumberOf(s.births) == NumberOf(b) then 1 else 0)
             - (if event == EndWait(NumberOf(b)) then 1 else 0))
  {
    hide NumberOf;
    if event.EndWait? {
      RemoveFirstFalls(s.list, event.num);
      if b in s.list {
        RemoveFirstKeeps(s.list, event.num, b);
      }
    } else if event.Get? {
      assert ([s.births] + s.list)[1..] == s.list;
      if b in s.list {
        FirstIsGreatest(s.list, b);
      }
    }
  }

  /**
    A condition that its number finds at first stays in the list exactly as long as the waits on its number
    that ended have not outnumbered the times it was given out again; and as many newer ones of its number are
    in front of it as those are ahead.
   */
  lemma {:induction false} StaysIff(s: Live, events: seq<Event>, b: nat)
    requires s.Valid() && b in s.list && Newer(s.list, b) == 0
    ensures var num := NumberOf(b); var t := Run(s, events);
      && t.Valid() && t.births == s.births + Allocations(events)
      && (b in t.list <==> Outnumbered(events, s.births, num))
      && (b in t.list ==> Newer(t.list, b) == Given(events, s.births, num) - Ended(events, num))
    decreases |events|
  {
    hide NumberOf;
    var num := NumberOf(b);
    FirstIsGreatest(s.list, b);
    if events == [] {
      forall k | 0 <= k <= |events| ensures Ended(events[..k], num) <= Given(events[..k], s.births, num) {
        assert events[..k] == [];
      }
    } else {
      var before, last := events[..|events| - 1], events[|events| - 1];
      StaysIff(s, before, b);
      StepKeeps(Run(s, before), last, b);
      OutnumberedStep(events, s.births, num);
    }
  }

  lemma OutnumberedStep(events: seq<Event>, births: nat, num: nat)
    requires events != []
    ensures Outnumbered(events, births, num) <==>
      Outnumbered(events[..|events| - 1], births, num) && Ended(events, num) <= Given(events, births, num)
  {
    hide NumberOf, Ended, Given;
    var before := events[..|events| - 1];
    assert events[..|events|] == events;
    assert forall k :: 0 <= k <= |before| ==> before[..k] == events[..k];
    if Outnumbered(events, births, num) {
      forall k | 0 <= k <= |before| ensures Ended(before[..k], num) <= Given(before[..k], births, num) {
        assert Ended(events[..k], num) <= Given(events[..k], births, num);
      }
      assert Ended(events[..|events|], num) <= Given(events[..|events|], births, num);
    }
    if Outnumbered(before, births, num) && Ended(events, num) <= Given(events, births, num) {
      forall k | 0 <= k <= |events| ensures Ended(events[..k], num) <= Given(events[..k], births, num) {
        if k < |events| {
          assert Ended(before[..k], num) <= Given(before[..k], births, num);
        }
      }
    }
  }

  /** Who waits: a thread that polls the network itself, the server thread, or a thread that another one serves. */
  datatype Waiter = Polling | Server | Served

  // ---------- What becomes of a condition that is waited on ----------

  /** After these events the number still finds the condition that it found at first. */
  predicate Finds(events: seq<Event>, births: nat, num: nat) {
    Outnumbered(events, births, num) && Ended(events, num) == Given(events, births, num)
  }

  /** Some signal found the condition at its moment. */
  predicate SignaledIn(events: seq<Event>, births: nat, num: nat) {
    exists k :: 0 <= k < |events| && SignaledAt(events, k, births, num)
  }

  predicate SignaledAt(events: seq<Event>, k: nat, births: nat, num: nat)
    requires k < |events|
  {
    events[k] == Signal(num) && Finds(events[..k], births, num)
  }

  /** How a condition may come to fail. */
  datatype Fate = Fate(num: nat, conn: Option<nat>, server: bool, closed: bool)

  /**
    Some failure found the condition at its moment, or its connection failed while it was in the list, or the
    list was closed under the server thread that waits on it.
   */
  predicate FailedIn(events: seq<Event>, births: nat, fate: Fate) {
    exists k :: 0 <= k < |events| && FailedAt(events, k, births, fate)
  }

  predicate FailedAt(events: seq<Event>, k: nat, births: nat, fate: Fate)
    requires k < |events|
  {
    || (events[k] == Fail(fate.num) && Finds(events[..k], births, fate.num))
    || (fate.conn.Some? && events[k] == FailConnection(fate.conn.value) && Outnumbered(events[..k], births, fate.num))
    || (fate.server && (fate.closed || CloseList in events[..k + 1]))
  }

  lemma SignaledStep(events: seq<Event>, k: nat, births: nat, num: nat)
    requires k < |events|
    ensures SignaledIn(events[..k + 1], births, num) <==> SignaledIn(events[..k], births, num) || SignaledAt(events, k, births, num)
  {
    hide Finds;
    var before, after := events[..k], events[..k + 1];
    assert forall j :: 0 <= j <= k ==> after[..j] == events[..j];
    assert forall j :: 0 <= j < k ==> before[..j] == events[..j] && before[j] == events[j];
    assert forall j :: 0 <= j < k ==> SignaledAt(after, j, births, num) == SignaledAt(before, j, births, num);
    assert SignaledAt(after, k, births, num) == SignaledAt(events, k, births, num);
  }

  lemma FailedStep(events: seq<Event>, k: nat, births: nat, fate: Fate)
    requires k < |events|
    ensures FailedIn(events[..k + 1], births, fate) <==> FailedIn(events[..k], births, fate) || FailedAt(events, k, births, fate)
  {
    hide Finds, Outnumbered;
    var before, after := events[..k], events[..k + 1];
    forall j | 0 <= j < k ensures FailedAt(after, j, births, fate) == FailedAt(before, j, births, fate) {
      assert after[..j] == events[..j] == before[..j] && after[..j + 1] == events[..j + 1] == before[..j + 1];
    }
    assert after[..k] == events[..k] && after[..k + 1] == events[..k + 1];
    assert FailedAt(after, k, births, fate) == FailedAt(events, k, births, fate);
  }

  lemma StartFate(births: nat, fate: Fate)
    ensures !SignaledIn([], births, fate.num) && !FailedIn([], births, fate) && FirstAfter([], births, fate)
  {
  }

  lemma FirstAfterStep(events: seq<Event>, k: nat, births: nat, fate: Fate)
    requires k < |events|
    ensures FirstAfter(events[..k + 1], births, fate) <==>
      FirstAfter(events[..k], births, fate) && !SignaledIn(events[..k], births, fate.num) && !FailedIn(events[..k], births, fate)
  {
    hide SignaledIn, FailedIn;
    var before, after := events[..k], events[..k + 1];
    assert forall j :: 0 <= j <= k ==> after[..j] == events[..j];
    assert forall j :: 0 <= j < k ==> before[..j] == events[..j];
    assert after[..k] == events[..k];
  }

  /** The list when a wait on `cond` begins. */
  ghost predicate Origin(was: seq<Condition>, since: nat, cond: Condition, num: nat, at: nat) {
    && Descending(was) && Numbered(was) && (forall c <- was :: c.birth < since)
    && FoundAt(was, num, at) && at < |was| && was[at] == cond
  }

  /** The wait ends with the first event after which the condition is signaled or has failed. */
  predicate FirstAfter(events: seq<Event>, births: nat, fate: Fate) {
    forall k :: 0 <= k < |events| ==> !SignaledIn(events[..k], births, fate.num) && !FailedIn(events[..k], births, fate)
  }

  class ControlList {
    var conditions: seq<Condition>
    var nextNum: nat
    var closed: bool
    ghost var births: nat

    lemma IsOrigin(cond: Condition, num: nat, at: nat)
      requires Valid() && FoundAt(conditions, num, at) && at < |conditions| && conditions[at] == cond
      ensures Origin(conditions, births, cond, num, at) && Snapshot() == Live(BirthsOf(conditions), births)
    {
    }

    /** What the list looks like to a number. */
    ghost function Snapshot(): Live
      reads this`conditions, this`births
    {
      Live(BirthsOf(conditions), births)
    }

    ghost predicate Valid()
      reads this
    {
      && nextNum == NumberOf(births)
      && Descending(conditions) && Numbered(conditions)
      && (forall c <- conditions :: c.birth < births)
    }

    constructor ()
      ensures Valid() && conditions == [] && births == 0 && !closed
    {
      conditions, nextNum, closed, births := [], 1, false, 0;
    }

    /** INT_CMCondition_get; on a closed connection the condition has failed from the start. */
    method Allocate(conn: Option<nat>, connClosed: bool) returns (cond: Condition)
      requires Valid()
      modifies this`conditions, this`nextNum, this`births
      ensures Valid() && fresh(cond) && conditions == [cond] + old(conditions)
      ensures births == old(births) + 1 && cond.birth == old(births) && cond.conn == conn
      ensures cond.waiting == 0 && !cond.signaled && cond.failed == (conn.Some? && connClosed)
    {
      cond := new Condition(nextNum, conn, conn.Some? && connClosed, births);
      conditions := [cond] + conditions;
      nextNum := nextNum + 1;
      if nextNum >= RECYCLE_AT {
        nextNum := 0;
      }
      SameNumberIff(births, births + 1);
      births := births + 1;
    }

    /** CMCondition_find. */
    method Find(num: nat) returns (at: nat)
      ensures FoundAt(conditions, num, at)
    {
      at := 0;
      while at < |conditions|
        invariant at <= |conditions|
        invariant forall i :: 0 <= i < at ==> conditions[i].num != num
      {
        if conditions[at].num == num {
          return;
        }
        at := at + 1;
      }
    }

    /** INT_CMCondition_signal: it touches only the condition that the number finds. */
    method SignalNumber(num: nat) returns (at: nat)
      modifies conditions
      ensures FoundAt(conditions, num, at)
      ensures forall c <- conditions :: c.failed == old(c.failed) && c.waiting == old(c.waiting)
      ensures forall c <- conditions :: c.signaled == (old(c.signaled) || (at < |conditions| && c == conditions[at]))
    {
      at := Find(num);
      if at < |conditions| {
        conditions[at].signaled := true;
      }
    }

    /** INT_CMCondition_fail: it touches only the condition that the number finds. */
    method FailNumber(num: nat) returns (at: nat)
      modifies conditions
      ensures FoundAt(conditions, num, at)
      ensures forall c <- conditions :: c.signaled == old(c.signaled) && c.waiting == old(c.waiting)
      ensures forall c <- conditions :: c.failed == (old(c.failed) || (at < |conditions| && c == conditions[at]))
    {
      at := Find(num);
      if at < |conditions| {
        conditions[at].failed := true;
      }
    }

    /** CMconn_fail_conditions: exactly the connection's own conditions fail. */
    method FailConditions(conn: nat)
      modifies conditions
      ensures forall c <- conditions :: c.signaled == old(c.signaled) && c.waiting == old(c.waiting)
      ensures forall c <- conditions :: c.failed == (old(c.failed) || c.conn == Some(conn))
    {
      for i := 0 to |conditions|
        invariant forall c <- conditions :: c.signaled == old(c.signaled) && c.waiting == old(c.waiting)
        invariant forall c <- conditions :: c.failed == (old(c.failed) || (c.conn == Some(conn) && c in conditions[..i]))
      {
        assert conditions[..i + 1] == conditions[..i] + [conditions[i]];
        if conditions[i].conn == Some(conn) {
          conditions[i].failed := true;
        }
      }
      assert conditions[..|conditions|] == conditions;
    }

    /** CMCondition_destroy: it removes only the condition that the number finds. */
    method Destroy(num: nat) returns (at: nat)
      requires Valid()
      modifies this`conditions
      ensures Valid() && FoundAt(old(conditions), num, at)
      ensures conditions == if at < |old(conditions)| then Without(old(conditions), at) else old(conditions)
    {
      at := Find(num);
      if at < |conditions| {
        conditions := conditions[..at] + conditions[at + 1..];
      }
    }

    method AllocateForOther(conn: Option<nat>, connClosed: bool)
      requires Valid()
      modifies this`conditions, this`nextNum, this`births
      ensures Valid() && Snapshot() == Step(old(Snapshot()), Get(conn, connClosed)) && births == old(births) + 1
      ensures forall c <- conditions :: c in old(conditions) || (fresh(c) && c.birth >= old(births))
    {
      hide NumberOf, Descending, Numbered;
      var cond := Allocate(conn, connClosed);
      assert BirthsOf(conditions) == [cond.birth] + BirthsOf(old(conditions));
    }

    method DestroyForOther(num: nat)
      requires Valid()
      modifies this`conditions
      ensures Valid() && Snapshot() == Step(old(Snapshot()), EndWait(num))
      ensures forall c <- conditions :: c in old(conditions)
    {
      hide NumberOf, RemoveFirst, FoundAt, Descending, Numbered;
      var at := Destroy(num);
      RemovedFirst(old(conditions), num, at);
    }

    /** One thing done by others. */
    method Happen(event: Event)
      requires Valid()
      modifies this, conditions
      ensures Valid() && Snapshot() == Step(old(Snapshot()), event)
      ensures old(births) <= births && closed == (old(closed) || event == CloseList)
      ensures forall c <- old(conditions) ::
        c.signaled == (old(c.signaled) || (event == Signal(c.num) && Newest(old(conditions), c, c.num)))
      ensures forall c <- old(conditions) ::
        c.failed == (old(c.failed) || (event == Fail(c.num) && Newest(old(conditions), c, c.num))
                     || (event.FailConnection? && c.conn == Some(event.failing)))
      ensures forall c <- conditions :: c in old(conditions) || (fresh(c) && c.birth >= old(births))
    {
      hide NumberOf;
      match event {
        case Signal(num) =>
          var at := SignalNumber(num);
          FoundIsNewest(conditions, num, at);
        case Fail(num) =>
          var at := FailNumber(num);
          FoundIsNewest(conditions, num, at);
        case FailConnection(conn) => FailConditions(conn);
        case Get(conn, connClosed) => AllocateForOther(conn, connClosed);
        case EndWait(num) => DestroyForOther(num);
        case CloseList => closed := true;
      }
    }

    /** One turn of the waiting. */
    method AwaitOne(cond: Condition, ghost was: seq<Condition>, ghost since: nat, ghost fate: Fate, ghost at: nat,
                    waiter: Waiter, events: seq<Event>, k: nat)
      requires Valid() && k < |events| && Origin(was, since, cond, fate.num, at) && cond.conn == fate.conn
      requires fate.server == (waiter == Server) && since <= births
      requires Snapshot() == Run(Live(BirthsOf(was), since), events[..k])
      requires forall c <- conditions :: c in was || c.birth >= since
      requires cond.signaled == SignaledIn(events[..k], since, fate.num) && cond.failed == FailedIn(events[..k], since, fate)
      requires closed == (fate.closed || CloseList in events[..k])
      modifies this, conditions, cond
      ensures Valid() && since <= births && Snapshot() == Run(Live(BirthsOf(was), since), events[..k + 1])
      ensures forall c <- conditions :: c in old(conditions) || (fresh(c) && c.birth >= since)
      ensures cond.signaled == SignaledIn(events[..k + 1], since, fate.num)
      ensures cond.failed == FailedIn(events[..k + 1], since, fate)
      ensures closed == (fate.closed || CloseList in events[..k + 1])
    {
      hide Step, Run, SignaledIn, FailedIn, FoundAt, NumberOf, Outnumbered, Ended, Given, Newest;
      Settled(was, since, cond, fate.num, at, events[..k], conditions, births);
      SignaledStep(events, k, since, fate.num);
      FailedStep(events, k, since, fate);
      RunStep(Live(BirthsOf(was), since), events, k);
      assert events[..k + 1] == events[..k] + [events[k]];
      hide Valid, Snapshot;
      Happen(events[k]);
      if waiter == Server && closed {
        cond.failed := true;
      }
    }

    /**
      The waiting itself; `seen` of the events happen, and `done` is false when they run out first.  What
      becomes of the condition is decided by these events, and unless another thread serves this one it waits
      until the first of them that signals or fails it.
     */
    method Await(cond: Condition, num: nat, ghost at: nat, waiter: Waiter, events: seq<Event>) returns (done: bool, ghost seen: nat)
      requires Valid() && FoundAt(conditions, num, at) && at < |conditions| && conditions[at] == cond
      requires !cond.signaled && !cond.failed
      modifies this, conditions, cond
      ensures Valid() && seen <= |events| && Snapshot() == Run(old(Snapshot()), events[..seen])
      ensures forall c <- conditions :: c in old(conditions) || (fresh(c) && c.birth >= old(births))
      ensures cond.signaled == SignaledIn(events[..seen], old(births), num)
      ensures cond.failed == FailedIn(events[..seen], old(births), Fate(num, cond.conn, waiter == Server, old(closed)))
      ensures waiter != Served ==> FirstAfter(events[..seen], old(births), Fate(num, cond.conn, waiter == Server, old(closed)))
      ensures done <==> waiter == Served || cond.signaled || cond.failed
      ensures !done || waiter == Served ==> seen == |events|
    {
      hide Valid, Step, Run, Snapshot, SignaledIn, SignaledAt, FailedIn, FailedAt, FirstAfter, FoundAt, NumberOf, Outnumbered;
      ghost var fate, was, since := Fate(num, cond.conn, waiter == Server, closed), conditions, births;
      cond.waiting := cond.waiting + 1;
      seen := 0;
      var k := 0;
      StartRun(Snapshot());
      StartFate(births, fate);
      IsOrigin(cond, num, at);
      assert events[..0] == [];
      hide Origin;
      while k < |events| && (waiter == Served || !(cond.signaled || cond.failed))
        invariant seen == k <= |events|
        invariant Valid() && Snapshot() == Run(old(Snapshot()), events[..k]) && old(births) <= births
        invariant forall c <- conditions :: c in old(conditions) || (fresh(c) && c.birth >= old(births))
        invariant cond.signaled == SignaledIn(events[..k], since, num) && cond.failed == FailedIn(events[..k], since, fate)
        invariant waiter != Served ==> FirstAfter(events[..k], since, fate)
        invariant closed == (fate.closed || CloseList in events[..k])
      {
        assert forall i :: 0 <= i < |conditions| ==> conditions[i] in old(conditions) || fresh(conditions[i]);
        FirstAfterStep(events, k, since, fate);
        AwaitOne(cond, was, since, fate, at, waiter, events, k);
        k := k + 1;
        seen := k;
      }
      done := waiter == Served || cond.signaled || cond.failed;
    }

    /**
      What a wait that had to wait leaves behind.  `here` happened meanwhile, and `last` was the list when the
      wait was over.  The answer is 1 exactly if a signal found the condition, and a wait that no other
      thread serves ends with the first event that signals or fails it.  The condition is still there exactly if
      the waits of others on its number have at no time outnumbered the times that was given out again; then it
      goes exactly if no live newer condition has its number.
     */
    ghost predicate Waited(cond: Condition, fate: Fate, waiter: Waiter, here: seq<Event>, since: nat,
                           last: seq<Condition>, answer: Option<int>)
      reads this`conditions
    {
      var signaled, failed := SignaledIn(here, since, fate.num), FailedIn(here, since, fate);
      && answer == (if waiter == Served || signaled || failed then Some(if signaled then 1 else 0) else None)
      && (waiter != Served ==> FirstAfter(here, since, fate))
      && (cond in last <==> Outnumbered(here, since, fate.num))
      && (answer.None? ==> conditions == last)
      && (answer.Some? && cond in last ==>
           && (cond !in conditions <==> Newest(last, cond, fate.num))
           && (cond !in conditions <==> Ended(here, fate.num) == Given(here, since, fate.num)))
    }

    /** The part of INT_CMCondition_wait behind its early answers. */
    method WaitFor(cond: Condition, num: nat, ghost at: nat, waiter: Waiter, events: seq<Event>)
      returns (answer: Option<int>, ghost seen: nat, ghost last: seq<Condition>)
      requires Valid() && FoundAt(conditions, num, at) && at < |conditions| && conditions[at] == cond
      requires !cond.signaled && !cond.failed
      modifies this, conditions
      ensures Valid() && seen <= |events| && (answer.None? || waiter == Served ==> seen == |events|) && answer != Some(-1)
      ensures Waited(cond, Fate(num, cond.conn, waiter == Server, old(closed)), waiter, events[..seen], old(births), last, answer)
    {
      hide Run, Outnumbered, Given, Ended, NumberOf, Newer, Descending, Numbered, FoundAt, Without, SignaledIn, FailedIn, FirstAfter;
      var done;
      done, seen := Await(cond, num, at, waiter, events);
      last := conditions;
      Settled(old(conditions), old(births), cond, num, at, events[..seen], last, births);
      if !done {
        return None, seen, last;
      }
      answer := Some(if cond.signaled then 1 else 0);
      var gone := Destroy(num);
      DestroysIff(last, cond, num, gone);
    }

    /**
      INT_CMCondition_wait on the condition that `num` finds.  `seen` of the `events` happen meanwhile; the
      answer is None when they run out first.  A condition that was signaled or failed before stays in the list.
     */
    method Wait(num: nat, waiter: Waiter, events: seq<Event>)
      returns (answer: Option<int>, ghost at: nat, ghost seen: nat, ghost last: seq<Condition>)
      requires Valid()
      modifies this, conditions
      ensures Valid() && FoundAt(old(conditions), num, at) && seen <= |events|
      ensures answer == Some(-1) <==> at == |old(conditions)|
      ensures at == |old(conditions)| ==> conditions == old(conditions)
      ensures at < |old(conditions)| ==>
        var cond := old(conditions)[at];
        && (old(cond.signaled || cond.failed) ==>
             answer == Some(if old(cond.signaled) then 1 else 0) && conditions == old(conditions))
        && (!old(cond.signaled || cond.failed) ==>
             && (answer.None? || waiter == Served ==> seen == |events|)
             && Waited(cond, Fate(num, cond.conn, waiter == Server, old(closed)), waiter, events[..seen], old(births), last, answer))
    {
      hide Waited;
      var found := Find(num);
      at, seen, last := found, 0, conditions;
      if found == |conditions| {
        return Some(-1), at, seen, last;
      }
      var cond := conditions[found];
      if cond.signaled {
        return Some(1), at, seen, last;
      }
      if cond.failed {
        return Some(0), at, seen, last;
      }
      answer, seen, last := WaitFor(cond, num, at, waiter, events);
    }
  }

  ghost function BirthsOf(list: seq<Condition>): (births: seq<nat>)
    ensures |births| == |list| && forall i :: 0 <= i < |list| ==> births[i] == list[i].birth
  {
    seq(|list|, i requires 0 <= i < |list| => list[i].birth)
  }

  lemma {:induction false} RemoveFirstAt(list: seq<nat>, num: nat, at: nat)
    requires at <= |list| && (forall i :: 0 <= i < at ==> NumberOf(list[i]) != num)
    requires at < |list| ==> NumberOf(list[at]) == num
    ensures RemoveFirst(list, num) == if at < |list| then list[..at] + list[at + 1..] else list
    decreases at
  {
    hide NumberOf;
    if at > 0 {
      RemoveFirstAt(list[1..], num, at - 1);
      assert list == [list[0]] + list[1..];
      if at < |list| {
        assert list[..at] + list[at + 1..] == [list[0]] + (list[1..][..at - 1] + list[1..][at..]);
      }
    }
  }

  lemma RemovedFirst(list: seq<Condition>, num: nat, at: nat)
    requires Numbered(list) && FoundAt(list, num, at)
    ensures BirthsOf(if at < |list| then Without(list, at) else list) == RemoveFirst(BirthsOf(list), num)
  {
    hide NumberOf, RemoveFirst;
    var births := BirthsOf(list);
    assert forall i :: 0 <= i < |list| ==> list[i] in list && births[i] == list[i].birth;
    RemoveFirstAt(births, num, at);
    if at < |list| {
      assert BirthsOf(Without(list, at)) == births[..at] + births[at + 1..];
    }
  }

  lemma StartRun(s: Live)
    ensures Run(s, []) == s
  {
  }

  lemma RunStep(s: Live, events: seq<Event>, k: nat)
    requires k < |events|
    ensures Step(Run(s, events[..k]), events[k]) == Run(s, events[..k + 1])
  {
    assert events[..k + 1][..k] == events[..k];
  }

  lemma {:induction false} FallingOf(list: seq<Condition>)
    requires Descending(list)
    ensures Falling(BirthsOf(list))
  {
    if |list| > 1 {
      FallingOf(list[1..]);
      assert BirthsOf(list)[1..] == BirthsOf(list[1..]);
    }
  }

  lemma {:induction false} NewerAt(list: seq<nat>, i: nat)
    requires Falling(list) && i < |list|
    ensures Newer(list, list[i]) == 0 <==> forall j :: 0 <= j < i ==> NumberOf(list[j]) != NumberOf(list[i])
  {
    hide NumberOf;
    if i > 0 {
      var rest := list[1..];
      NewerAt(rest, i - 1);
      FirstIsGreatest(rest, rest[i - 1]);
      assert forall j :: 1 <= j < i ==> list[j] == rest[j - 1];
      assert forall j :: 0 <= j < i - 1 ==> rest[j] == list[j + 1];
    }
  }

  /** A condition has no newer one of its number in front of it exactly if the number finds it. */
  lemma NewerIs(list: seq<Condition>, i: nat)
    requires Descending(list) && Numbered(list) && i < |list|
    ensures Newer(BirthsOf(list), list[i].birth) == 0 <==> forall j :: 0 <= j < i ==> list[j].num != list[i].num
  {
    hide NumberOf, Newer;
    FallingOf(list);
    NewerAt(BirthsOf(list), i);
    assert forall j :: 0 <= j < |list| ==> list[j] in list && BirthsOf(list)[j] == list[j].birth;
  }

  /** Whether a condition is the newest live one of its number. */
  ghost predicate Newest(list: seq<Condition>, cond: Condition, num: nat) {
    forall c <- list :: c.birth > cond.birth ==> c.num != num
  }

  /** The condition that a number finds is the newest live one of it. */
  lemma FoundIsNewest(list: seq<Condition>, num: nat, at: nat)
    requires Descending(list) && FoundAt(list, num, at)
    ensures at < |list| ==> forall c <- list :: c == list[at] <==> c.num == num && Newest(list, c, num)
    ensures at == |list| ==> forall c <- list :: c.num != num
  {
    if at < |list| {
      forall c | c in list ensures c == list[at] <==> c.num == num && Newest(list, c, num) {
        var i :| 0 <= i < |list| && list[i] == c;
        if i == at {
          assert forall j :: 0 <= j < |list| && list[j].birth > c.birth ==> j < at;
        } else if c.num == num {
          assert at < i && list[at] in list;
        }
      }
    }
  }

  /** The list as a wait finds it at its end. */
  lemma Settled(was: seq<Condition>, since: nat, cond: Condition, num: nat, at: nat, here: seq<Event>,
                last: seq<Condition>, births: nat)
    requires Descending(was) && Numbered(was) && (forall c <- was :: c.birth < since)
    requires FoundAt(was, num, at) && at < |was| && was[at] == cond
    requires Descending(last) && Numbered(last) && forall c <- last :: c in was || c.birth >= since
    requires Live(BirthsOf(last), births) == Run(Live(BirthsOf(was), since), here)
    ensures cond.num == num
    ensures cond in last <==> Outnumbered(here, since, num)
    ensures cond in last ==> (Newest(last, cond, num) <==> Ended(here, num) == Given(here, since, num))
  {
    hide NumberOf, Run, Outnumbered, Given, Ended, Newer;
    WaitedFor(was, since, num, at, here, last, births);
    if cond in last {
      var gone := FirstWith(last, num);
      GoneIff(last, cond, num, gone);
    }
  }

  ghost function FirstWith(list: seq<Condition>, num: nat): (at: nat)
    ensures FoundAt(list, num, at)
  {
    if list == [] || list[0].num == num then 0
    else
      assert forall i :: 0 < i < |list| ==> list[i] == list[1..][i - 1];
      FirstWith(list[1..], num) + 1
  }

  lemma DestroysIff(last: seq<Condition>, cond: Condition, num: nat, gone: nat)
    requires Descending(last) && Numbered(last) && cond.num == num && FoundAt(last, num, gone)
    ensures cond in last ==> gone < |last| && (cond !in Without(last, gone) <==> Newest(last, cond, num))
  {
    hide NumberOf, Newer;
    if cond in last {
      GoneIff(last, cond, num, gone);
    }
  }

  /** What has become of the condition in the course of a wait. */
  lemma WaitedFor(was: seq<Condition>, since: nat, num: nat, at: nat, here: seq<Event>, last: seq<Condition>, births: nat)
    requires Descending(was) && Numbered(was) && (forall c <- was :: c.birth < since)
    requires FoundAt(was, num, at) && at < |was|
    requires Descending(last) && forall c <- last :: c in was || c.birth >= since
    requires Live(BirthsOf(last), births) == Run(Live(BirthsOf(was), since), here)
    ensures was[at] in last <==> Outnumbered(here, since, num)
    ensures was[at] in last ==> Newer(BirthsOf(last), was[at].birth) == Given(here, since, num) - Ended(here, num)
  {
    hide NumberOf, Run, Outnumbered, Given, Ended, Newer;
    var cond := was[at];
    assert cond in was && cond.num == num;
    NewerIs(was, at);
    FallingOf(was);
    assert BirthsOf(was)[at] == cond.birth;
    assert was[0] in was;
    StaysIff(Live(BirthsOf(was), since), here, cond.birth);
    if cond in last {
      var i :| 0 <= i < |last| && last[i] == cond;
      assert BirthsOf(last)[i] == cond.birth;
    }
    if cond.birth in BirthsOf(last) {
      var i :| 0 <= i < |last| && BirthsOf(last)[i] == cond.birth;
      assert last[i] in last && last[i] in was;
      var j :| 0 <= j < |was| && was[j] == last[i];
      assert j == at;
    }
  }

  /** Which of two conditions with one number is destroyed: the newest. */
  lemma GoneIff(last: seq<Condition>, cond: Condition, num: nat, gone: nat)
    requires Descending(last) && Numbered(last) && cond in last && cond.num == num && FoundAt(last, num, gone)
    ensures gone < |last|
    ensures cond !in Without(last, gone) <==> Newest(last, cond, num)
    ensures cond !in Without(last, gone) <==> Newer(BirthsOf(last), cond.birth) == 0
  {
    hide NumberOf, Newer;
    var i :| 0 <= i < |last| && last[i] == cond;
    NewerIs(last, i);
    assert gone <= i;
    if gone < i {
      assert Without(last, gone)[i - 1] == cond;
      assert last[gone] in last;
    } else {
      forall c | c in last && c.birth > cond.birth ensures c.num != num {
        var j :| 0 <= j < |last| && last[j] == c;
        assert j < i;
      }
    }
  }
}
