/**
  The epoll-based event loop's registrations: handler tables as in the select-based loop, and the interest the
  kernel is told of with epoll_ctl.
 */
module EpollMask {
  import opened Bytes
  import opened Dispatch

  /** EPOLLIN and EPOLLOUT. */
  datatype Mask = Mask(read: bool, write: bool)

  datatype Control = Add | Modify | Delete

  /** epoll_ctl: adding fails with EEXIST, changing and deleting with ENOENT. */
  function EpollCtl(interest: map<nat, Mask>, op: Control, fd: nat, mask: Mask): (Option<map<nat, Mask>>) {
    match op
    case Add => if fd in interest then None else Some(interest[fd := mask])
    case Modify => if fd in interest then Some(interest[fd := mask]) else None
    case Delete => if fd in interest then Some(interest - {fd}) else None
  }

  /** A registration call, as far as it concerns interest; in the select-based loop it changes the two sets. */
  datatype Registration =
    | Reading(fd: nat)
    | Writing(fd: nat, on: bool)
    | NotReading(fd: nat)

  /** The select-based loop's sets, which here are the descriptors with handlers. */
  datatype Sets = Sets(read: set<nat>, write: set<nat>) {
    function After(r: Registration): Sets {
      match r
      case Reading(fd) => Sets(read + {fd}, write)
      case Writing(fd, on) => Sets(read, if on then write + {fd} else write - {fd})
      case NotReading(fd) => Sets(read - {fd}, write)
    }
  }

  /** The kernel's interest after a registration call, given the tables before it. */
  function InterestAfter(interest: map<nat, Mask>, sets: Sets, r: Registration): map<nat, Mask> {
    match r
    case Reading(fd) => interest[fd := Mask(true, fd in interest)]
    case Writing(fd, on) =>
      if on then interest[fd := Mask(fd in interest, true)]
      else if fd !in interest then interest
      else if fd in sets.read then interest[fd := Mask(true, false)]
      else interest - {fd}
    case NotReading(fd) =>
      if fd !in interest then interest
      else if fd in sets.write then interest[fd := Mask(false, true)]
      else interest - {fd}
  }

  /** The kernel watches every registered direction, and no descriptor that has none. */
  ghost predicate Covers(interest: map<nat, Mask>, sets: Sets) {
    && (forall fd :: fd in interest <==> fd in sets.read || fd in sets.write)
    && (forall fd <- sets.read :: interest[fd].read)
    && (forall fd <- sets.write :: interest[fd].write)
  }

  /** The kernel watches nothing else. */
  ghost predicate Exact(interest: map<nat, Mask>, sets: Sets) {
    && Covers(interest, sets)
    && (forall fd <- interest :: interest[fd] == Mask(fd in sets.read, fd in sets.write))
  }

  /** A direction registered anew while it alone is armed. */
  predicate Repeats(sets: Sets, r: Registration) {
    match r
    case Reading(fd) => fd in sets.read && fd !in sets.write
    case Writing(fd, on) => on && fd in sets.write && fd !in sets.read
    case NotReading(_) => false
  }

  /** Runs of registration calls. */
  function SetsAfter(sets: Sets, run: seq<Registration>): Sets
    decreases |run|
  {
    if run == [] then sets else SetsAfter(sets.After(run[0]), run[1..])
  }

  function InterestAfterAll(interest: map<nat, Mask>, sets: Sets, run: seq<Registration>): map<nat, Mask>
    decreases |run|
  {
    if run == [] then interest
    else InterestAfterAll(InterestAfter(interest, sets, run[0]), sets.After(run[0]), run[1..])
  }

  /** Exact before every call of the run and after the last one. */
  ghost predicate ExactAllAlong(interest: map<nat, Mask>, sets: Sets, run: seq<Registration>)
    decreases |run|
  {
    && Exact(interest, sets)
    && (run != [] ==> ExactAllAlong(InterestAfter(interest, sets, run[0]), sets.After(run[0]), run[1..]))
  }

  predicate NeverRepeats(sets: Sets, run: seq<Registration>)
    decreases |run|
  {
    run == [] || (!Repeats(sets, run[0]) && NeverRepeats(sets.After(run[0]), run[1..]))
  }

  /** A call keeps the interest exact exactly when it repeats nothing. */
  lemma ExactIff(interest: map<nat, Mask>, sets: Sets, r: Registration)
    requires Exact(interest, sets)
    ensures Exact(InterestAfter(interest, sets, r), sets.After(r)) <==> !Repeats(sets, r)
  {
    var after := InterestAfter(interest, sets, r);
    if Repeats(sets, r) {
      assert r.fd in after && after[r.fd] == Mask(true, true);
    }
  }

  lemma WatchedIff(interest: map<nat, Mask>, sets: Sets, fd: nat)
    requires Covers(interest, sets)
    ensures fd in interest <==> fd in sets.read || fd in sets.write
  {
  }

  lemma CoversStill(interest: map<nat, Mask>, sets: Sets, r: Registration)
    requires Covers(interest, sets)
    ensures Covers(InterestAfter(interest, sets, r), sets.After(r))
  {
  }

  /** Whatever is registered and removed, the kernel watches every direction with a handler. */
  lemma {:induction false} AlwaysCovers(interest: map<nat, Mask>, sets: Sets, run: seq<Registration>)
    requires Covers(interest, sets)
    ensures Covers(InterestAfterAll(interest, sets, run), SetsAfter(sets, run))
    decreases |run|
  {
    hide Covers;
    if run != [] {
      CoversStill(interest, sets, run[0]);
      AlwaysCovers(InterestAfter(interest, sets, run[0]), sets.After(run[0]), run[1..]);
    }
  }

  /** It watches exactly select's two sets all along exactly when no direction is registered anew while it alone is armed. */
  lemma {:induction false} ExactAllAlongIff(interest: map<nat, Mask>, sets: Sets, run: seq<Registration>)
    requires Exact(interest, sets)
    ensures ExactAllAlong(interest, sets, run) <==> NeverRepeats(sets, run)
    decreases |run|
  {
    hide Exact;
    if run != [] {
      ExactIff(interest, sets, run[0]);
      if !Repeats(sets, run[0]) {
        ExactAllAlongIff(InterestAfter(interest, sets, run[0]), sets.After(run[0]), run[1..]);
      }
    }
  }

  /** The handlers the epoll-based loop calls when these descriptors are ready. */
  function Called(interest: map<nat, Mask>, sets: Sets, ready: Sets): Sets {
    Sets(set fd <- interest | fd in ready.read && interest[fd].read && fd in sets.read,
         set fd <- interest | fd in ready.write && interest[fd].write && fd in sets.write)
  }

  /** They are those the select-based loop calls, exact or not: excess events find no handler. */
  lemma SameHandlers(interest: map<nat, Mask>, sets: Sets, ready: Sets)
    requires Covers(interest, sets)
    ensures Called(interest, sets, ready) == Sets(sets.read * ready.read, sets.write * ready.write)
  {
  }

  class EpollData {
    var interest: map<nat, Mask>
    var selectItems: Table
    var writeItems: Table
    var number: nat

    function Registered(): Sets
      reads this
    {
      Sets(set fd | 0 <= fd < |selectItems| && selectItems[fd].Some?, set fd | 0 <= fd < |writeItems| && writeItems[fd].Some?)
    }

    ghost predicate Valid()
      reads this
    {
      |selectItems| == |writeItems| > 0 && Covers(interest, Registered())
    }

    constructor ()
      ensures Valid() && Registered() == Sets({}, {}) && interest == map[]
    {
      interest, selectItems, writeItems, number := map[], [None], [None], 0;
    }

    /** The realloc and the loop after it. */
    method Grow(fd: nat)
      requires |selectItems| == |writeItems|
      modifies this`selectItems, this`writeItems
      ensures |selectItems| == |writeItems| && fd < |selectItems|
      ensures |old(selectItems)| <= |selectItems| && Registered() == old(Registered())
      ensures old(selectItems) <= selectItems && old(writeItems) <= writeItems
    {
      while |selectItems| <= fd
        invariant |old(selectItems)| <= |selectItems| == |writeItems|
        invariant Registered() == old(Registered())
        invariant old(selectItems) <= selectItems && old(writeItems) <= writeItems
        decreases fd + 1 - |selectItems|
      {
        selectItems := selectItems + [None];
        writeItems := writeItems + [None];
      }
    }

    method Ctl(op: Control, fd: nat, mask: Mask) returns (ok: bool)
      modifies this`interest
      ensures var after := EpollCtl(old(interest), op, fd, mask);
        ok == after.Some? && interest == if ok then after.value else old(interest)
    {
      var after := EpollCtl(interest, op, fd, mask);
      ok := after.Some?;
      if ok {
        interest := after.value;
      }
    }

    method AddSelect(fd: nat, handler: Handler)
      requires Valid()
      modifies this
      ensures Valid() && number == old(number) + 1
      ensures Registered() == old(Registered()).After(Reading(fd))
      ensures interest == InterestAfter(old(interest), old(Registered()), Reading(fd))
      ensures fd < |selectItems| && selectItems[fd] == Some(handler) && old(writeItems) <= writeItems
      ensures |old(selectItems)| <= |selectItems|
      ensures forall i :: 0 <= i < |old(selectItems)| && i != fd ==> selectItems[i] == old(selectItems)[i]
    {
      hide Covers;
      number := number + 1;
      WatchedIff(interest, Registered(), fd);
      CoversStill(interest, Registered(), Reading(fd));
      Grow(fd);
      var ok := Ctl(Add, fd, Mask(true, false));
      if !ok {
        ok := Ctl(Modify, fd, Mask(true, true));
      }
      selectItems := selectItems[fd := Some(handler)];
      assert Registered() == old(Registered()).After(Reading(fd));
    }

    method WriteSelect(fd: nat, func: Option<Handler>)
      requires Valid()
      modifies this
      ensures Valid() && number == old(number) + 1
      ensures Registered() == old(Registered()).After(Writing(fd, func.Some?))
      ensures interest == InterestAfter(old(interest), old(Registered()), Writing(fd, func.Some?))
      ensures fd < |writeItems| && writeItems[fd] == func && old(selectItems) <= selectItems
      ensures |old(writeItems)| <= |writeItems|
      ensures forall i :: 0 <= i < |old(writeItems)| && i != fd ==> writeItems[i] == old(writeItems)[i]
    {
      hide Covers;
      number := number + 1;
      WatchedIff(interest, Registered(), fd);
      CoversStill(interest, Registered(), Writing(fd, func.Some?));
      Grow(fd);
      if func.Some? {
        var ok := Ctl(Add, fd, Mask(false, true));
        if !ok {
          ok := Ctl(Modify, fd, Mask(true, true));
        }
      } else if selectItems[fd].Some? {
        var _ := Ctl(Modify, fd, Mask(true, false));
      } else {
        var _ := Ctl(Delete, fd, Mask(false, false));
      }
      writeItems := writeItems[fd := func];
      assert Registered() == old(Registered()).After(Writing(fd, func.Some?));
    }

    /** Callers remove only descriptors they have added. */
    method RemoveSelect(fd: nat)
      requires Valid() && fd < |selectItems|
      modifies this
      ensures Valid() && number == old(number) + 1
      ensures Registered() == old(Registered()).After(NotReading(fd))
      ensures interest == InterestAfter(old(interest), old(Registered()), NotReading(fd))
      ensures selectItems == old(selectItems)[fd := None] && writeItems == old(writeItems)
    {
      hide Covers;
      number := number + 1;
      WatchedIff(interest, Registered(), fd);
      CoversStill(interest, Registered(), NotReading(fd));
      if writeItems[fd].Some? {
        var _ := Ctl(Modify, fd, Mask(false, true));
      } else {
        var _ := Ctl(Delete, fd, Mask(false, false));
      }
      selectItems := selectItems[fd := None];
      assert Registered() == old(Registered()).After(NotReading(fd));
    }
  }
}
