/**
  The life of a connection on the socket transport: the references that hold it, the CManager's list of
  connections, failure, and the loop by which a closing CManager disposes of them all.  The CManager lock is
  given up only while close handlers run, so a failure is two steps between which anything may happen.
 */
module Lifecycle {
  import opened Collections

  function One(b: bool): nat {
    if b then 1 else 0
  }

  class Connection {
    var refCount: int          // conn_ref_count
    var failed: bool
    var closed: bool
    var closeHandlers: nat     // length of close_list
    ghost var linked: bool     // the transport's own data still points here
    ghost var users: nat       // references the application holds
    ghost var handlers: nat    // references held by running message handlers
    ghost var frees: nat       // how often the record was given back to the allocator

    /** CMConnection_create, before add_conn_to_CM: one reference, for the transport. */
    constructor ()
      ensures refCount == 1 && !failed && !closed && closeHandlers == 0
      ensures linked && users == 0 && handlers == 0 && frees == 0
    {
      refCount, failed, closed, closeHandlers := 1, false, false, 0;
      linked, users, handlers, frees := true, 0, 0, 0;
    }

    /** The count is what its four kinds of holder add up to; the record is freed once, when they are all gone. */
    ghost predicate Balanced(listed: bool)
      reads this
    {
      && refCount == One(linked) + One(listed) + users + handlers
      && linked == !failed
      && frees == One(refCount == 0)
      && (!failed ==> listed)
    }

    /** INT_CMConnection_dereference; it is never the last reference of a connection that has not failed. */
    method Dereference()
      requires refCount > 0 && (refCount == 1 ==> failed)
      modifies this`refCount, this`closed, this`frees
      ensures refCount == old(refCount) - 1
      ensures closed == (old(closed) || refCount == 0)
      ensures frees == old(frees) + One(refCount == 0)
    {
      refCount := refCount - 1;
      if refCount > 0 {
        return;
      }
      if refCount < 0 {
        assert false;
      }
      closed := true;
      if !failed {
        assert false;
      }
      frees := frees + 1;
    }
  }

  class Manager {
    var connections: seq<Connection>   // the allocated array
    var count: nat                     // connection_count
    var abortReadAhead: bool
    ghost var all: set<Connection>     // every connection ever created
    ghost var failing: set<Connection> // those whose close handlers are running

    ghost function List(): seq<Connection>
      requires count <= |connections|
      reads this
    {
      connections[..count]
    }

    ghost predicate Shape()
      reads this
    {
      && count <= |connections|
      && Distinct(List())
      && (forall c <- List() :: c in all)
      && failing <= all
    }

    /**
      A connection is in the list exactly when it has not failed, but for those whose failure is under way,
      and every connection is held by exactly what its count says.
     */
    ghost predicate Valid()
      reads this, all
    {
      && Shape()
      && (forall c <- all :: c.Balanced(c in List()))
      && (forall c <- all :: c in List() <==> !c.failed || c in failing)
      && (forall c <- failing :: c.failed)
    }

    constructor ()
      ensures Valid() && List() == [] && all == {} && failing == {}
    {
      connections, count, abortReadAhead := [], 0, false;
      all, failing := {}, {};
    }

    /** CMConnection_create with add_conn_to_CM; `initiated` when initiate_conn adds the caller's reference. */
    method Create(initiated: bool) returns (conn: Connection)
      requires Valid()
      modifies this`connections, this`count, this`all
      ensures Valid() && fresh(conn) && all == old(all) + {conn}
      ensures List() == old(List()) + [conn]
      ensures !conn.failed && !conn.closed && conn.users == One(initiated) && conn.handlers == 0
      ensures conn.refCount == if initiated then 3 else 2
    {
      conn := new Connection();
      connections := connections[..count] + [conn];
      conn.refCount := conn.refCount + 1;
      count := count + 1;
      all := all + {conn};
      if initiated {
        conn.refCount := conn.refCount + 1;
        conn.users := 1;
      }
      ListGrew(old(List()), conn);
      assert List() == old(List()) + [conn];
    }

    /** INT_CMConnection_add_reference, by the application or for the time a message handler runs. */
    method AddReference(conn: Connection, user: bool)
      requires Valid() && conn in all && conn.refCount > 0
      modifies conn`refCount, conn`users, conn`handlers
      ensures Valid()
      ensures conn.users == old(conn.users) + One(user) && conn.handlers == old(conn.handlers) + One(!user)
    {
      conn.refCount := conn.refCount + 1;
      if user {
        conn.users := conn.users + 1;
      } else {
        conn.handlers := conn.handlers + 1;
      }
    }

    /**
      INT_CMConnection_dereference by a holder, or INT_CMConnection_close when `close`.  The record goes only
      with its last reference, and then it had failed and left the list before.
     */
    method DropReference(conn: Connection, user: bool, close: bool)
      requires Valid() && conn in all
      requires if user then conn.users > 0 else conn.handlers > 0
      modifies conn`refCount, conn`users, conn`handlers, conn`closed, conn`frees
      ensures Valid()
      ensures conn.users == old(conn.users) - One(user) && conn.handlers == old(conn.handlers) - One(!user)
      ensures conn.frees == One(conn.users == 0 && conn.handlers == 0 && conn.failed && conn !in failing)
      ensures old(conn.frees) == 0
      ensures conn.closed == (old(conn.closed) || close || conn.frees == 1)
    {
      hide Distinct;
      if close {
        conn.closed := true;
      }
      if user {
        conn.users := conn.users - 1;
      } else {
        conn.handlers := conn.handlers - 1;
      }
      conn.Dereference();
    }

    /**
      remove_conn_from_CM: copy the rest of the array down over the connection, whose reference goes on the way.
     */
    method Remove(conn: Connection, ghost at: nat)
      requires Shape() && at < count && connections[at] == conn
      requires conn.failed && conn.refCount > 0
      modifies this`connections, this`count, this`abortReadAhead, conn`refCount, conn`closed, conn`frees
      ensures count == old(count) - 1 && count <= |connections|
      ensures List() == Without(old(List()), at)
      ensures conn.refCount == old(conn.refCount) - 1
      ensures conn.frees == old(conn.frees) + One(conn.refCount == 0)
      ensures conn.closed == (old(conn.closed) || conn.refCount == 0)
      ensures abortReadAhead
    {
      ghost var was := connections;
      assert forall i :: 0 <= i < count ==> List()[i] == was[i];
      var i, found := 0, false;
      while i < count
        invariant i <= count == old(count) && |connections| == |was|
        invariant found <==> i > at
        invariant if found then conn.refCount == old(conn.refCount) - 1
            && conn.frees == old(conn.frees) + One(conn.refCount == 0)
            && conn.closed == (old(conn.closed) || conn.refCount == 0)
          else conn.refCount == old(conn.refCount) && conn.frees == old(conn.frees) && conn.closed == old(conn.closed)
        invariant forall j :: 0 <= j < |was| && (j < at || i <= j) ==> connections[j] == was[j]
        invariant forall j :: at <= j < i - 1 ==> connections[j] == was[j + 1]
      {
        if connections[i] == conn {
          assert i == at;
          found := true;
          conn.Dereference();
        } else if found {
          connections := connections[i - 1 := connections[i]];
        }
        i := i + 1;
      }
      count := count - 1;
      abortReadAhead := true;
    }

    /**
      INT_CMConnection_failed up to its close handlers: the transport shuts the connection down, which gives up
      the transport's reference.  Nothing happens to a connection that failed before.
     */
    method BeginFailed(conn: Connection) returns (began: bool)
      requires Valid() && conn in all
      modifies this`failing, conn`failed, conn`refCount, conn`linked, conn`closeHandlers, conn`closed, conn`frees
      ensures Valid()
      ensures began == !old(conn.failed)
      ensures failing == if began then old(failing) + {conn} else old(failing)
      ensures conn.failed && conn.frees == old(conn.frees) && conn.closed == old(conn.closed)
      ensures began ==> !conn.linked && conn.closeHandlers == 0 && conn.refCount == old(conn.refCount) - 1 > 0
      ensures !began ==> conn.closeHandlers == old(conn.closeHandlers) && conn.linked == old(conn.linked)
      ensures !began ==> conn.refCount == old(conn.refCount)
    {
      if conn.failed {
        return false;
      }
      conn.failed := true;
      failing := failing + {conn};
      conn.linked := false;
      conn.Dereference();
      conn.closeHandlers := 0;
      began := true;
    }

    /** The rest of INT_CMConnection_failed, once the last close handler has returned. */
    method FinishFailed(conn: Connection)
      requires Valid() && conn in failing
      modifies this`connections, this`count, this`abortReadAhead, this`failing
      modifies conn`refCount, conn`closed, conn`frees
      ensures Valid()
      ensures failing == old(failing) - {conn} && conn.closed && abortReadAhead
      ensures conn !in List() && count == old(count) - 1
      ensures exists at :: 0 <= at < |old(List())| && old(List())[at] == conn && List() == Without(old(List()), at)
      ensures old(conn.frees) == 0 && conn.frees == One(conn.users == 0 && conn.handlers == 0)
    {
      hide Distinct;
      assert conn in List();
      ghost var at :| 0 <= at < count && List()[at] == conn;
      conn.closed := true;
      Remove(conn, at);
      failing := failing - {conn};
      ListShrank(old(List()), at);
    }

    /**
      One turn of the loop in INT_CManager_close.  It gets somewhere exactly when the first connection is not
      one whose failure is already under way.
     */
    method CloseFirst()
      requires Valid() && count > 0
      modifies this`connections, this`count, this`abortReadAhead, this`failing
      modifies connections[0]
      ensures Valid() && failing == old(failing)
      ensures old(connections[0]).users == old(connections[0].users)
      ensures old(connections[0]).handlers == old(connections[0].handlers)
      ensures !old(connections[0].failed) ==> List() == old(List())[1..] && count == old(count) - 1
      ensures old(connections[0].failed) ==>
        && connections == old(connections) && count == old(count) && abortReadAhead == old(abortReadAhead)
        && connections[0] in failing && connections[0].closed && connections[0].failed
        && connections[0].refCount == old(connections[0].refCount) && connections[0].frees == old(connections[0].frees)
        && connections[0].linked == old(connections[0].linked)
        && connections[0].closeHandlers == old(connections[0].closeHandlers)
    {
      var first := connections[0];
      assert first == List()[0];
      first.closed := true;
      var began := BeginFailed(first);
      if began {
        FinishFailed(first);
        ghost var at :| 0 <= at < |old(List())| && old(List())[at] == first && List() == Without(old(List()), at);
        assert Without(old(List()), 0) == old(List())[1..];
      }
    }

    /**
      The loop as a whole, from any state.  Its turns dispose of the connections in front of the first one whose
      failure is under way; there it stays, each further turn changing nothing, so that it ends exactly when
      no failure is under way.  Then every connection has failed, is out of the list, and is freed unless the
      application or a running handler still holds it.  `ends` is false for a loop that does not.
     */
    method CloseAll() returns (ends: bool)
      requires Valid()
      modifies this`connections, this`count, this`abortReadAhead, this`failing
      modifies all
      ensures Valid() && failing == old(failing) && all == old(all)
      ensures List() == FromFirst(old(List()), failing)
      ensures ends <==> failing == {}
      ensures ends <==> List() == []
      ensures !ends ==> connections[0] in failing
      ensures forall c <- all :: c.users == old(c.users) && c.handlers == old(c.handlers)
      ensures ends ==> forall c <- all :: c.failed && c.frees == One(c.users == 0 && c.handlers == 0)
    {
      while count != 0
        invariant Valid() && failing == old(failing) && all == old(all)
        invariant FromFirst(List(), failing) == FromFirst(old(List()), failing)
        invariant forall c <- all :: c.users == old(c.users) && c.handlers == old(c.handlers)
        decreases count
      {
        ghost var list := List();
        assert connections[0] == list[0];
        var before := count;
        CloseFirst();
        if count == before {
          // this turn left the loop's state as it was, and every further one will
          return false;
        }
      }
      ends := true;
    }

  }

  /**
    A run in which the loop does not end: a connection is created and fails, and while its close handlers run
    the CManager is closed.
   */
  method CloseDuringFailure() returns (m: Manager, conn: Connection, ends: bool)
    ensures m.Valid() && m.List() == [conn] && conn in m.failing && !ends
  {
    m := new Manager();
    conn := m.Create(true);
    var began := m.BeginFailed(conn);
    m.CloseFirst();
    ends := m.CloseAll();
  }

  /** A list from its first member of `from` on. */
  ghost function FromFirst(list: seq<Connection>, from: set<Connection>): (rest: seq<Connection>)
    ensures rest != [] ==> rest[0] in from
    ensures rest == [] <==> forall c <- list :: c !in from
  {
    if list == [] || list[0] in from then list else FromFirst(list[1..], from)
  }

  /** Membership in a list of distinct connections that grew by a new one. */
  lemma ListGrew(list: seq<Connection>, conn: Connection)
    requires conn !in list
    ensures forall c :: c in list + [conn] <==> c in list || c == conn
    ensures Distinct(list) ==> Distinct(list + [conn])
  {
  }

  /** Membership in a list of distinct connections that lost one. */
  lemma ListShrank(list: seq<Connection>, at: nat)
    requires at < |list| && Distinct(list)
    ensures var less := Without(list, at);
      Distinct(less) && forall c :: c in less <==> c in list && c != list[at]
  {
    var less := Without(list, at);
    forall c | c in list && c != list[at] ensures c in less {
      var i :| 0 <= i < |list| && list[i] == c;
      assert less[if i < at then i else i - 1] == c;
    }
  }
}
