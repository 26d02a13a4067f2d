/**
  One pass of the select-based event loop.  The handlers it calls may register and remove handlers, remove
  tasks, close the loop and even poll again; a consistency number tells the pass when its view is out of date.
 */
module Dispatch {
  import opened Bytes

  /** A registered function with its two arguments. */
  datatype Handler = Handler(func: nat, arg1: nat, arg2: nat)

  type Table = seq<Option<Handler>>

  /** How the system call select comes back. */
  datatype Wakeup =
    | Ready(write: set<nat>, read: set<nat>)
    | Interrupted            // EINTR, or an error without a number
    | Again                  // EAGAIN
    | Bad(fds: set<nat>)     // EBADF: the read descriptors found to be bad

  /** What one handler, one task, or the other threads do while they have their turn. */
  datatype Script = Script(ops: seq<Op>)

  datatype Op =
    | AddSelect(fd: nat, handler: Handler)
    | WriteSelect(fd: nat, func: Option<Handler>)
    | RemoveSelect(fd: nat)
    | RemoveTask
    | Close
    | Poll(others: Script, wakeup: Wakeup, turns: seq<Script>, tasks: seq<Script>)

  /** A handler being called. */
  datatype Call = Call(fd: nat, write: bool, handler: Handler)

  // ---------- What a pass should call ----------

  function CallsAt(fd: nat, write: bool, ready: set<nat>, items: Table): seq<Call>
    requires fd < |items|
  {
    if fd in ready && items[fd].Some? then [Call(fd, write, items[fd].value)] else []
  }

  /** Descriptors upward from `fd`, each for writing before reading. */
  function CallsFrom(fd: nat, wr: set<nat>, rd: set<nat>, writing: Table, reading: Table): seq<Call>
    requires fd <= |writing| == |reading|
    decreases |writing| - fd
  {
    if fd == |writing| then []
    else CallsAt(fd, true, wr, writing) + CallsAt(fd, false, rd, reading) + CallsFrom(fd + 1, wr, rd, writing, reading)
  }

  /** A call a pass may make: its descriptor was ready and its handler is the registered one. */
  predicate Owed(c: Call, wr: set<nat>, rd: set<nat>, writing: Table, reading: Table) {
    if c.write then c.fd in wr && c.fd < |writing| && writing[c.fd] == Some(c.handler)
    else c.fd in rd && c.fd < |reading| && reading[c.fd] == Some(c.handler)
  }

  /** Strictly increasing in the order of descriptors, writing before reading. */
  predicate Before(a: Call, b: Call) {
    a.fd < b.fd || (a.fd == b.fd && a.write && !b.write)
  }

  /** CallsFrom lists every owed call from `fd` on and no other. */
  lemma {:induction false} CallsAreOwed(fd: nat, wr: set<nat>, rd: set<nat>, writing: Table, reading: Table, c: Call)
    requires fd <= |writing| == |reading|
    ensures c in CallsFrom(fd, wr, rd, writing, reading) <==> c.fd >= fd && Owed(c, wr, rd, writing, reading)
    decreases |writing| - fd
  {
    hide CallsFrom, CallsAt, Owed;
    if fd < |writing| {
      CallsAreOwed(fd + 1, wr, rd, writing, reading, c);
      CallsAtOwed(fd, wr, rd, writing, reading, c);
      CallsFromHas(fd, wr, rd, writing, reading, c);
    } else {
      NoCallsAtEnd(wr, rd, writing, reading, c);
    }
  }

  lemma NoCallsAtEnd(wr: set<nat>, rd: set<nat>, writing: Table, reading: Table, c: Call)
    requires |writing| == |reading|
    ensures c !in CallsFrom(|writing|, wr, rd, writing, reading)
    ensures Owed(c, wr, rd, writing, reading) ==> c.fd < |writing|
  {
  }

  lemma CallsAtOwed(fd: nat, wr: set<nat>, rd: set<nat>, writing: Table, reading: Table, c: Call)
    requires fd < |writing| == |reading|
    ensures c in CallsAt(fd, true, wr, writing) || c in CallsAt(fd, false, rd, reading) <==>
      c.fd == fd && Owed(c, wr, rd, writing, reading)
  {
  }

  lemma CallsFromHas(fd: nat, wr: set<nat>, rd: set<nat>, writing: Table, reading: Table, c: Call)
    requires fd < |writing| == |reading|
    ensures c in CallsFrom(fd, wr, rd, writing, reading) <==>
      c in CallsAt(fd, true, wr, writing) || c in CallsAt(fd, false, rd, reading)
      || c in CallsFrom(fd + 1, wr, rd, writing, reading)
  {
    hide CallsAt;
    var a, b, rest := CallsAt(fd, true, wr, writing), CallsAt(fd, false, rd, reading), CallsFrom(fd + 1, wr, rd, writing, reading);
    assert CallsFrom(fd, wr, rd, writing, reading) == a + b + rest;
  }

  predicate InOrder(calls: seq<Call>, fd: nat) {
    && (forall i :: 0 <= i < |calls| ==> calls[i].fd >= fd)
    && (forall i, j :: 0 <= i < j < |calls| ==> Before(calls[i], calls[j]))
  }

  /** It lists them in order, and so each only once. */
  lemma {:induction false} CallsInOrder(fd: nat, wr: set<nat>, rd: set<nat>, writing: Table, reading: Table)
    requires fd <= |writing| == |reading|
    ensures InOrder(CallsFrom(fd, wr, rd, writing, reading), fd)
    decreases |writing| - fd
  {
    if fd < |writing| {
      CallsInOrder(fd + 1, wr, rd, writing, reading);
      var a, b := CallsAt(fd, true, wr, writing), CallsAt(fd, false, rd, reading);
      InOrderPrepend(fd, a, b, CallsFrom(fd + 1, wr, rd, writing, reading));
      hide CallsAt, InOrder;
      assert CallsFrom(fd, wr, rd, writing, reading) == a + b + CallsFrom(fd + 1, wr, rd, writing, reading);
    }
  }

  lemma InOrderPrepend(fd: nat, a: seq<Call>, b: seq<Call>, rest: seq<Call>)
    requires |a| <= 1 && (a != [] ==> a[0].fd == fd && a[0].write)
    requires |b| <= 1 && (b != [] ==> b[0].fd == fd && !b[0].write)
    requires InOrder(rest, fd + 1)
    ensures InOrder(a + b + rest, fd)
  {
  }

  lemma CallsStep(fd: nat, wr: set<nat>, rd: set<nat>, writing: Table, reading: Table, calls: seq<Call>)
    requires fd < |writing| == |reading|
    ensures calls + CallsFrom(fd, wr, rd, writing, reading) ==
      calls + CallsAt(fd, true, wr, writing) + CallsAt(fd, false, rd, reading) + CallsFrom(fd + 1, wr, rd, writing, reading)
  {
  }

  lemma CallsEnd(fd: nat, wr: set<nat>, rd: set<nat>, writing: Table, reading: Table)
    requires fd == |writing| == |reading|
    ensures CallsFrom(fd, wr, rd, writing, reading) == []
  {
  }

  // ---------- The loop's data ----------

  class SelectData {
    var fdset: set<nat>
    var writeSet: set<nat>
    var selectItems: Table     // sel_item_max is one less than the length of either
    var writeItems: Table
    var closed: bool
    var number: nat            // select_consistency_number

    /** A descriptor in a set has a handler in the table that goes with it. */
    ghost predicate Valid()
      reads this
    {
      && |selectItems| == |writeItems| > 0
      && (forall fd <- fdset :: fd < |selectItems| && selectItems[fd].Some?)
      && (forall fd <- writeSet :: fd < |writeItems| && writeItems[fd].Some?)
    }

    /** What a holder of an unchanged consistency number may rely on. */
    twostate predicate Faithful()
      reads this
    {
      && old(number) <= number && (old(closed) ==> closed)
      && (number == old(number) ==> selectItems == old(selectItems) && writeItems == old(writeItems))
    }

    constructor ()
      ensures Valid() && fdset == {} && writeSet == {} && !closed && number == 0
      ensures selectItems == [None] && writeItems == [None]
    {
      fdset, writeSet, selectItems, writeItems, closed, number := {}, {}, [None], [None], false, 0;
    }

    /** The realloc and the loop after it. */
    method Grow(fd: nat)
      requires |selectItems| == |writeItems|
      modifies this`selectItems, this`writeItems
      ensures |selectItems| == |writeItems| && fd < |selectItems|
      ensures old(selectItems) <= selectItems && old(writeItems) <= writeItems
      ensures forall i :: |old(selectItems)| <= i < |selectItems| ==> selectItems[i] == None == writeItems[i]
    {
      if fd >= |selectItems| {
        ghost var before := |selectItems|;
        while |selectItems| <= fd
          invariant |selectItems| == |writeItems| >= before
          invariant old(selectItems) <= selectItems && old(writeItems) <= writeItems
          invariant forall i :: before <= i < |selectItems| ==> selectItems[i] == None == writeItems[i]
          decreases fd + 1 - |selectItems|
        {
          selectItems := selectItems + [None];
          writeItems := writeItems + [None];
        }
      }
    }

    method Add(fd: nat, handler: Handler)
      requires Valid()
      modifies this
      ensures Valid() && Faithful() && number == old(number) + 1 && closed == old(closed)
      ensures fdset == old(fdset) + {fd} && writeSet == old(writeSet)
      ensures fd < |selectItems| && selectItems[fd] == Some(handler)
      ensures |old(selectItems)| <= |selectItems| && old(writeItems) <= writeItems
      ensures forall i :: 0 <= i < |old(selectItems)| && i != fd ==> selectItems[i] == old(selectItems)[i]
    {
      number := number + 1;
      Grow(fd);
      fdset := fdset + {fd};
      selectItems := selectItems[fd := Some(handler)];
    }

    method Write(fd: nat, func: Option<Handler>)
      requires Valid()
      modifies this
      ensures Valid() && Faithful() && number == old(number) + 1 && closed == old(closed)
      ensures writeSet == (if func.Some? then old(writeSet) + {fd} else old(writeSet) - {fd}) && fdset == old(fdset)
      ensures fd < |writeItems| && writeItems[fd] == func
      ensures |old(writeItems)| <= |writeItems| && old(selectItems) <= selectItems
      ensures forall i :: 0 <= i < |old(writeItems)| && i != fd ==> writeItems[i] == old(writeItems)[i]
    {
      number := number + 1;
      Grow(fd);
      if func.Some? {
        writeSet := writeSet + {fd};
      } else {
        writeSet := writeSet - {fd};
      }
      writeItems := writeItems[fd := func];
    }

    /** Callers remove only descriptors they have added. */
    method Remove(fd: nat)
      requires Valid() && fd < |selectItems|
      modifies this`number, this`fdset, this`selectItems
      ensures Valid() && Faithful() && number == old(number) + 1
      ensures fdset == old(fdset) - {fd} && selectItems == old(selectItems)[fd := None]
    {
      number := number + 1;
      fdset := fdset - {fd};
      selectItems := selectItems[fd := None];
    }

    /** One thing done by a handler, a task or another thread. */
    method RunOp(op: Op)
      requires Valid()
      modifies this
      ensures Valid() && Faithful()
      ensures match op
        case AddSelect(fd, handler) =>
          number == old(number) + 1 && fdset == old(fdset) + {fd} && fd < |selectItems| && selectItems[fd] == Some(handler)
        case WriteSelect(fd, func) =>
          && number == old(number) + 1 && fd < |writeItems| && writeItems[fd] == func
          && writeSet == if func.Some? then old(writeSet) + {fd} else old(writeSet) - {fd}
        case RemoveSelect(fd) =>
          if fd < |old(selectItems)| then
            number == old(number) + 1 && fdset == old(fdset) - {fd} && selectItems == old(selectItems)[fd := None]
          else unchanged(this)
        case RemoveTask => number == old(number) + 1 && unchanged(this`fdset, this`writeSet, this`selectItems, this`writeItems, this`closed)
        case Close => closed && unchanged(this`fdset, this`writeSet, this`selectItems, this`writeItems, this`number)
        case Poll(_, _, _, _) => true
      decreases op, 3
    {
      match op {
        case AddSelect(fd, handler) => Add(fd, handler);
        case WriteSelect(fd, func) => Write(fd, func);
        case RemoveSelect(fd) =>
          if fd < |selectItems| {
            Remove(fd);
          }
        case RemoveTask => number := number + 1;
        case Close => closed := true;
        case Poll(others, wakeup, turns, tasks) =>
          ghost var calls, completed := SocketSelect(op);
      }
    }

    /** A whole script: it closes the loop if it says so, and every change of tables or tasks counts. */
    method RunOps(script: Script)
      requires Valid()
      modifies this
      ensures Valid() && Faithful()
      ensures script.ops == [] ==> unchanged(this)
      ensures Close in script.ops ==> closed
      ensures number >= old(number) + Changes(script.ops)
      decreases script
    {
      var i := 0;
      while i < |script.ops|
        invariant 0 <= i <= |script.ops|
        invariant Valid() && Faithful() && (i == 0 ==> unchanged(this))
        invariant Close in script.ops[..i] ==> closed
        invariant number >= old(number) + Changes(script.ops[..i])
      {
        assert script.ops[..i + 1] == script.ops[..i] + [script.ops[i]];
        RunOp(script.ops[i]);
        i := i + 1;
      }
      assert script.ops[..i] == script.ops;
    }

    /** A handler's turn.  It can be called only while it is the registered one. */
    method Invoke(poll: Op, turn: nat, call: Call) returns (ghost made: seq<Call>)
      requires Valid() && poll.Poll?
      requires call.fd < |selectItems| && (if call.write then writeItems else selectItems)[call.fd] == Some(call.handler)
      modifies this
      ensures Valid() && Faithful() && made == [call]
      ensures Quiet(poll) ==> unchanged(this)
      decreases poll, 0, 0
    {
      made := [call];
      if turn < |poll.turns| {
        RunOps(poll.turns[turn]);
      }
    }

    /**
      socket_select.  The calls it makes start the list of those owed by the tables as they were when the
      descriptor sets were copied, and a pass that completes makes all of them.
     */
    method SocketSelect(poll: Op) returns (ghost calls: seq<Call>, ghost completed: bool)
      requires Valid() && poll.Poll?
      modifies this
      ensures Valid() && Faithful()
      ensures calls <= OwedCalls(poll.wakeup, old(fdset), old(writeSet), old(selectItems), old(writeItems))
      ensures completed ==> number > old(number)
      ensures Quiet(poll) && !old(closed) && !poll.wakeup.Interrupted? ==> completed
      ensures Quiet(poll) ==>
        var bad := if poll.wakeup.Bad? && completed then poll.wakeup.fds * old(fdset) else {};
        && selectItems == old(selectItems) && writeItems == old(writeItems) && closed == old(closed)
        && fdset == old(fdset) - bad && writeSet == old(writeSet) - bad
        && number == old(number) + if completed then 1 else 0
      ensures !completed ==> closed || poll.wakeup.Interrupted? || number > old(number)
      ensures completed ==> calls == OwedCalls(poll.wakeup, old(fdset), old(writeSet), old(selectItems), old(writeItems))
      decreases poll, 2
    {
      calls, completed := [], false;
      var taken := number;
      if closed {
        return;
      }
      var rd, wr := fdset, writeSet;
      RunOps(poll.others);
      if closed || poll.wakeup.Interrupted? || number != taken {
        return;
      }
      if poll.wakeup.Bad? {
        var bad := poll.wakeup.fds * rd;
        fdset, writeSet := fdset - bad, writeSet - bad;
      }
      rd, wr := ReadReady(poll.wakeup, rd), WriteReady(poll.wakeup, wr);
      var open;
      open, calls := Handlers(poll, rd, wr, taken);
      if !open {
        return;
      }
      open := Tasks(poll, taken);
      if !open {
        return;
      }
      number := number + 1;
      completed := true;
    }

    /** One direction of one descriptor; a handler in the set is always there to be called. */
    method Visit(poll: Op, turn: nat, fd: nat, write: bool, ready: set<nat>) returns (next: nat, ghost made: seq<Call>)
      requires Valid() && poll.Poll? && fd < |selectItems|
      requires fd in ready ==> (if write then writeItems else selectItems)[fd].Some?
      modifies this
      ensures Valid() && Faithful()
      ensures made == CallsAt(fd, write, ready, if write then old(writeItems) else old(selectItems))
      ensures made == [] ==> number == old(number)
      ensures Quiet(poll) ==> unchanged(this)
      decreases poll, 0, 1
    {
      next, made := turn, [];
      if fd in ready {
        var item := if write then writeItems[fd] else selectItems[fd];
        if item.Some? {
          var call := Call(fd, write, item.value);
          made := Invoke(poll, turn, call);
          next := turn + 1;
        } else {
          assert false;
        }
      }
    }

    /** The loop over descriptors.  It goes on only while the tables are those the sets were copied from. */
    method Handlers(poll: Op, rd: set<nat>, wr: set<nat>, taken: nat) returns (open: bool, ghost calls: seq<Call>)
      requires Valid() && poll.Poll? && number == taken
      requires forall fd <- rd :: fd < |selectItems| && selectItems[fd].Some?
      requires forall fd <- wr :: fd < |writeItems| && writeItems[fd].Some?
      modifies this
      ensures Valid() && Faithful()
      ensures calls <= CallsFrom(0, wr, rd, old(writeItems), old(selectItems))
      ensures !open ==> closed || number > taken
      ensures Quiet(poll) ==> unchanged(this)
      ensures open ==> number == taken && calls == CallsFrom(0, wr, rd, old(writeItems), old(selectItems))
      decreases poll, 1, 0
    {
      hide CallsFrom;
      calls := [];
      var turn := 0;
      var i := 0;
      while i < |selectItems|
        invariant 0 <= i <= |selectItems|
        invariant Valid() && Faithful() && number == taken && (Quiet(poll) ==> unchanged(this))
        invariant CallsFrom(0, wr, rd, writeItems, selectItems) == calls + CallsFrom(i, wr, rd, writeItems, selectItems)
        decreases |selectItems| - i
      {
        if closed {
          return false, calls;
        }
        CallsStep(i, wr, rd, writeItems, selectItems, calls);
        ghost var made;
        turn, made := Visit(poll, turn, i, true, wr);
        calls := calls + made;
        if number != taken {
          return false, calls;
        }
        turn, made := Visit(poll, turn, i, false, rd);
        calls := calls + made;
        if number != taken {
          return false, calls;
        }
        i := i + 1;
      }
      CallsEnd(i, wr, rd, writeItems, selectItems);
      open := true;
    }

    /** The part of a pass that runs tasks, as far as it concerns the tables. */
    method Tasks(poll: Op, taken: nat) returns (open: bool)
      requires Valid() && poll.Poll? && number == taken
      modifies this
      ensures Valid() && Faithful() && (open ==> number == taken) && (!open ==> closed || number > taken)
      ensures Quiet(poll) ==> unchanged(this)
      decreases poll, 1, 0
    {
      var k := 0;
      while k < |poll.tasks|
        invariant Valid() && Faithful() && number == taken && (Quiet(poll) ==> unchanged(this))
      {
        RunOps(poll.tasks[k]);
        if closed || number != taken {
          return false;
        }
        k := k + 1;
      }
      open := true;
    }
  }

  function OwedCalls(wakeup: Wakeup, fdset: set<nat>, writeSet: set<nat>, selectItems: Table, writeItems: Table): seq<Call>
    requires |selectItems| == |writeItems|
  {
    CallsFrom(0, WriteReady(wakeup, writeSet), ReadReady(wakeup, fdset), writeItems, selectItems)
  }

  /** The descriptor sets select leaves behind; an error leaves them as they were given. */
  function WriteReady(wakeup: Wakeup, asked: set<nat>): set<nat> {
    match wakeup
    case Ready(write, _) => write * asked
    case Interrupted => {}
    case Again => asked
    case Bad(_) => asked
  }

  function ReadReady(wakeup: Wakeup, asked: set<nat>): set<nat> {
    match wakeup
    case Ready(_, read) => read * asked
    case Interrupted => {}
    case Again => asked
    case Bad(fds) => asked - fds
  }

  /**
    What a pass owes, by how select came back: calls for the descriptors it reported ready, among those that were
    asked for; none when it was interrupted; and when it failed otherwise calls for all of them, but for reading
    from descriptors found to be bad.
   */
  lemma OwedByWakeup(wakeup: Wakeup, fdset: set<nat>, writeSet: set<nat>, selectItems: Table, writeItems: Table, c: Call)
    requires |selectItems| == |writeItems|
    ensures c in OwedCalls(wakeup, fdset, writeSet, selectItems, writeItems) <==>
      && (if c.write then c.fd in writeSet && c.fd < |writeItems| && writeItems[c.fd] == Some(c.handler)
          else c.fd in fdset && c.fd < |selectItems| && selectItems[c.fd] == Some(c.handler))
      && match wakeup
         case Ready(write, read) => c.fd in if c.write then write else read
         case Interrupted => false
         case Again => true
         case Bad(fds) => c.write || c.fd !in fds
  {
    CallsAreOwed(0, WriteReady(wakeup, writeSet), ReadReady(wakeup, fdset), writeItems, selectItems, c);
  }

  /** Nobody registers, removes, closes or polls in its turn. */
  predicate Quiet(poll: Op)
    requires poll.Poll?
  {
    poll.others.ops == [] && (forall t <- poll.turns :: t.ops == []) && (forall t <- poll.tasks :: t.ops == [])
  }

  /** How many operations of a script change the tables or the tasks for certain. */
  function Changes(ops: seq<Op>): nat {
    if ops == [] then 0
    else
      var last := ops[|ops| - 1];
      Changes(ops[..|ops| - 1]) + if last.AddSelect? || last.WriteSelect? || last.RemoveTask? then 1 else 0
  }
}
