/** The selector of src/gselector.cpp: a map of selected sockets kept in step
    with the live sources of the main loop by incremental updates. */
module GSelectorModel {
  import opened Common
  import opened IoCondition
  import opened Timing
  import opened SelectorSpec

  datatype Source =
    | IoWatch(sock: Socket, mask: PollCond)
    | Timer(sock: Socket, due: int)

  /** A connection is the id of the source it was made for; 0 is the empty one. */
  type Connection = nat
  const UNCONNECTED: Connection := 0

  datatype SelectedSocket = SelectedSocket(
    cond: NetCond, ioChan: bool, ioConn: Connection,
    timeoutBegin: Stamp, timeout: ULong, timeConn: Connection)

  const FRESH := SelectedSocket(IO_NONE, false, UNCONNECTED, TimeVal(0, 0), 0, UNCONNECTED)

  /** The main loop, as far as the selector uses it: ids are never reused, a
      disconnected source is gone, and only live sources are dispatched. */
  class MainLoop {
    var live: map<nat, Source>
    var nextId: nat
    var now: Micros
    var running: bool      // a handler is being run
    var dispatched: nat    // the source whose handler is being run
    ghost var tally: Tally

    constructor (now: Micros)
      ensures live == map[] && nextId == 1 && this.now == now && !running && dispatched == 0 && tally == NO_TALLY
    {
      live, nextId, this.now, running, dispatched, tally := map[], 1, now, false, 0, NO_TALLY;
    }

    predicate Connected(conn: Connection) reads this { conn in live }

    method Connect(source: Source) returns (conn: Connection)
      modifies `live, `nextId
      ensures conn == old(nextId) && nextId == conn + 1 && live == old(live)[conn := source]
    {
      conn := nextId;
      live, nextId := live[conn := source], nextId + 1;
    }

    /** Without a channel there is nothing to watch and no source comes to life. */
    method ConnectIo(sock: Socket, channel: bool, mask: PollCond) returns (conn: Connection)
      modifies `live, `nextId
      ensures channel ==>
        conn == old(nextId) && nextId == conn + 1 && live == old(live)[conn := IoWatch(sock, mask)]
      ensures !channel ==> conn == UNCONNECTED && nextId == old(nextId) && live == old(live)
    {
      if channel {
        conn := Connect(IoWatch(sock, mask));
      } else {
        conn := UNCONNECTED;
      }
    }

    /** A timer that is due `timeout` milliseconds from now, as an `unsigned int`. */
    method ConnectTimeout(sock: Socket, timeout: ULong) returns (conn: Connection)
      modifies `live, `nextId, `tally
      ensures conn == old(nextId) && nextId == conn + 1
      ensures live == old(live)[conn := Timer(sock, Arming(now, timeout).Due())]
      ensures tally == old(tally).(armed := old(tally).armed + multiset{sock})
    {
      conn := Connect(Timer(sock, Arming(now, timeout).Due()));
      tally := tally.(armed := tally.armed + multiset{sock});
    }

    method Disconnect(conn: Connection)
      modifies `live, `tally
      ensures live == old(live) - {conn}
      ensures tally == old(TallyWithout(conn, live, running, dispatched, tally))
    {
      tally := TallyWithout(conn, live, running, dispatched, tally);
      live := live - {conn};
    }

    method DisconnectIfConnected(conn: Connection)
      modifies `live, `tally
      ensures live == old(live) - {conn}
      ensures tally == old(TallyWithout(conn, live, running, dispatched, tally))
    {
      if Connected(conn) {
        Disconnect(conn);
      }
    }
  }

  /** Disconnecting a timer cancels it, unless it is the one being dispatched. */
  ghost function TallyWithout(conn: Connection, live: map<nat, Source>,
                              running: bool, dispatched: nat, tally: Tally): Tally
  {
    if conn in live && live[conn].Timer? && !(running && conn == dispatched)
    then tally.(cancelled := tally.cancelled + multiset{live[conn].sock}) else tally
  }

  /** The sources of the loop and the entries of the map refer to each other:
      no source without its entry, no entry without the sources it calls for. */
  ghost predicate Consistent(m: map<Socket, SelectedSocket>, live: map<nat, Source>, nextId: nat) {
    && 0 < nextId
    && (forall id :: id in live ==> 0 < id < nextId && Owned(m, id, live[id]))
    && (forall s :: s in m ==> EntryOk(s, m[s], live, nextId))
  }

  ghost predicate Owned(m: map<Socket, SelectedSocket>, id: nat, source: Source) {
    source.sock in m && id == if source.IoWatch? then m[source.sock].ioConn else m[source.sock].timeConn
  }

  ghost predicate EntryOk(s: Socket, e: SelectedSocket, live: map<nat, Source>, nextId: nat) {
    && e.cond != IO_NONE && e.ioConn < nextId && e.timeConn < nextId
    && (e.ioConn in live <==> e.cond.HasIo() && e.ioChan)
    && (e.ioConn in live ==> live[e.ioConn] == IoWatch(s, GCond(e.cond)))
    && (e.timeConn in live ==> e.cond.timeout && live[e.timeConn] == Timer(s, ArmingOf(e).Due()))
  }

  ghost function ArmingOf(e: SelectedSocket): Arming {
    Arming(e.timeoutBegin.Total(), e.timeout)
  }

  ghost function Interests(m: map<Socket, SelectedSocket>): map<Socket, Interest> {
    map s | s in m :: Interest(m[s].cond, m[s].ioChan)
  }

  ghost function Armings(m: map<Socket, SelectedSocket>, live: map<nat, Source>): map<Socket, Arming> {
    map s | s in m && m[s].timeConn in live :: ArmingOf(m[s])
  }

  ghost function PhaseOf(live: map<nat, Source>, running: bool, dispatched: nat): Phase {
    if !running then Idle
    else if dispatched in live && live[dispatched].Timer? then Handling(Some(live[dispatched].sock))
    else Handling(None)
  }

  ghost function ViewOf(m: map<Socket, SelectedSocket>, live: map<nat, Source>,
                        running: bool, dispatched: nat, now: Micros, tally: Tally): View
  {
    View(Interests(m), Armings(m, live), PhaseOf(live, running, dispatched), now, tally)
  }

  /** A source that is gone never comes back under the same id, and one that
      lives on is unchanged. */
  ghost predicate NoneRevived(live: map<nat, Source>, n: nat, live': map<nat, Source>, n': nat) {
    n <= n' && forall id :: id in live' && id < n ==> id in live && live'[id] == live[id]
  }

  /** The sources change only for socket `s`: some of its own go, some with
      fresh ids come. */
  ghost predicate ChangedFor(s: Socket, live: map<nat, Source>, nextId: nat, live': map<nat, Source>) {
    && (forall id :: id in live' ==> if id in live then live'[id] == live[id] else id >= nextId && live'[id].sock == s)
    && (forall id :: id in live && live[id].sock != s ==> id in live')
  }

  lemma EntryReplaced(m: map<Socket, SelectedSocket>, live: map<nat, Source>, n: nat,
                      s: Socket, e: SelectedSocket, live': map<nat, Source>, n': nat)
    requires Consistent(m, live, n) && n <= n' && ChangedFor(s, live, n, live')
    requires EntryOk(s, e, live', n')
    requires forall id :: id in live' && live'[id].sock == s ==> id < n' && Owned(m[s := e], id, live'[id])
    ensures Consistent(m[s := e], live', n')
  {
    forall t | t in m && t != s ensures EntryOk(t, m[t], live', n') {
      assert EntryOk(t, m[t], live, n);
    }
  }

  lemma EntryRemoved(m: map<Socket, SelectedSocket>, live: map<nat, Source>, n: nat, s: Socket, live': map<nat, Source>)
    requires Consistent(m, live, n) && ChangedFor(s, live, n, live')
    requires forall id :: id in live' ==> live'[id].sock != s
    ensures Consistent(m - {s}, live', n)
    ensures Armings(m - {s}, live') == Armings(m, live) - {s}
  {
    forall t | t in m && t != s
      ensures EntryOk(t, m[t], live', n) && (m[t].timeConn in live' <==> m[t].timeConn in live)
    {
      assert EntryOk(t, m[t], live, n);
    }
  }

  lemma ArmingsReplaced(m: map<Socket, SelectedSocket>, live: map<nat, Source>, n: nat,
                        s: Socket, e: SelectedSocket, live': map<nat, Source>)
    requires Consistent(m, live, n) && ChangedFor(s, live, n, live')
    ensures Armings(m[s := e], live') ==
      if e.timeConn in live' then Armings(m, live)[s := ArmingOf(e)] else Armings(m, live) - {s}
  {
    forall t | t in m && t != s ensures m[t].timeConn in live' <==> m[t].timeConn in live {
      assert EntryOk(t, m[t], live, n);
    }
  }

  /** What `add_socket` leaves behind. */
  lemma EntryAdded(m: map<Socket, SelectedSocket>, live: map<nat, Source>, n: nat, s: Socket, e: SelectedSocket)
    requires Consistent(m, live, n) && s !in m && e.cond != IO_NONE
    requires e == FRESH.(cond := e.cond) || (e.cond.HasIo() && e == FRESH.(cond := e.cond, ioChan := true, ioConn := n))
    ensures var live' := if e.ioChan then live[n := IoWatch(s, GCond(e.cond))] else live;
      var n' := if e.ioChan then n + 1 else n;
      Consistent(m[s := e], live', n') && Armings(m[s := e], live') == Armings(m, live) && s !in Armings(m, live)
  {
    var live', n' := if e.ioChan then live[n := IoWatch(s, GCond(e.cond))] else live, if e.ioChan then n + 1 else n;
    EntryReplaced(m, live, n, s, e, live', n');
    ArmingsReplaced(m, live, n, s, e, live');
  }

  lemma Added(m: map<Socket, SelectedSocket>, live: map<nat, Source>, n: nat, s: Socket, e: SelectedSocket,
              nonblocking: bool, running: bool, dispatched: nat, now: Micros, tally: Tally)
    requires Consistent(m, live, n) && s !in m && e.cond != IO_NONE && dispatched < n
    requires e == FRESH.(cond := e.cond) || (e.cond.HasIo() && e == FRESH.(cond := e.cond, ioChan := true, ioConn := n))
    requires e.ioChan <==> e.cond.HasIo() && nonblocking
    ensures var live' := if e.ioChan then live[n := IoWatch(s, GCond(e.cond))] else live;
      var n' := if e.ioChan then n + 1 else n;
      && Consistent(m[s := e], live', n') && NoneRevived(live, n, live', n')
      && ViewOf(m[s := e], live', running, dispatched, now, tally) ==
           ViewOf(m, live, running, dispatched, now, tally).SetInterest(s, e.cond, nonblocking)
  {
    hide Consistent, Armings, Interests, GCond;
    EntryAdded(m, live, n, s, e);
    InterestsReplaced(m, s, e);
    OldIds(m, live, n);
  }

  lemma OldIds(m: map<Socket, SelectedSocket>, live: map<nat, Source>, n: nat)
    requires Consistent(m, live, n)
    ensures forall id :: id in live ==> id < n
  {
  }

  lemma InterestsReplaced(m: map<Socket, SelectedSocket>, s: Socket, e: SelectedSocket)
    ensures Interests(m[s := e]) == Interests(m)[s := Interest(e.cond, e.ioChan)]
    ensures Interests(m - {s}) == Interests(m) - {s}
    ensures Interests(m).Keys == m.Keys && (s in m ==> Interests(m)[s] == Interest(m[s].cond, m[s].ioChan))
  {
  }

  lemma ArmedSockets(m: map<Socket, SelectedSocket>, live: map<nat, Source>)
    ensures Armings(m, live).Keys == set s | s in m && m[s].timeConn in live
    ensures forall s :: s in Armings(m, live) ==> Armings(m, live)[s] == ArmingOf(m[s])
  {
  }

  /** All there is to know about the sources of one selected socket. */
  lemma OwnSources(m: map<Socket, SelectedSocket>, live: map<nat, Source>, n: nat, s: Socket)
    requires Consistent(m, live, n) && s in m
    ensures 0 < n && EntryOk(s, m[s], live, n)
    ensures forall id :: id in live ==> 0 < id < n && (live[id].sock == s ==> Owned(m, id, live[id]))
    ensures s in Armings(m, live) <==> m[s].timeConn in live
    ensures s in Armings(m, live) ==> Armings(m, live)[s] == ArmingOf(m[s])
  {
  }

  lemma IoConnIsNoTimer(m: map<Socket, SelectedSocket>, live: map<nat, Source>, n: nat, s: Socket)
    requires Consistent(m, live, n) && s in m
    ensures m[s].ioConn in live ==> live[m[s].ioConn].IoWatch?
  {
  }

  /** `Disarm` is what disconnecting the timer of a socket amounts to. */
  lemma DisarmIsDisconnect(m: map<Socket, SelectedSocket>, live: map<nat, Source>, n: nat, s: Socket,
                           running: bool, dispatched: nat, now: Micros, tally: Tally)
    requires Consistent(m, live, n) && s in m
    ensures var v := ViewOf(m, live, running, dispatched, now, tally);
      v.Disarm(s) == v.(arming := v.arming - {s},
                              phase := PhaseOf(live - {m[s].timeConn}, running, dispatched),
                              tally := TallyWithout(m[s].timeConn, live, running, dispatched, v.tally))
  {
    hide Consistent, Armings;
    OwnSources(m, live, n, s);
    var v := ViewOf(m, live, running, dispatched, now, tally);
    if s !in v.arming {
      assert v.arming - {s} == v.arming && live - {m[s].timeConn} == live;
    }
  }

  /** The entry, the sources and the next id after the I/O part of
      `modify_socket`, which replaces the source only if the I/O flags change. */
  ghost predicate Rewired(before: SelectedSocket, live: map<nat, Source>, n: nat, s: Socket, cond: NetCond,
                          e: SelectedSocket, live': map<nat, Source>, n': nat)
  {
    if before.cond.And(IO_FLAGS) == cond.And(IO_FLAGS) then
      e == before && live' == live && n' == n
    else if cond.HasIo() && before.ioChan then
      e == before.(ioConn := n) && live' == (live - {before.ioConn})[n := IoWatch(s, GCond(cond))] && n' == n + 1
    else
      && e == before.(ioConn := if cond.HasIo() then UNCONNECTED else before.ioConn)
      && live' == live - {before.ioConn} && n' == n
  }

  lemma SourcesModified(m: map<Socket, SelectedSocket>, live: map<nat, Source>, n: nat, s: Socket, cond: NetCond,
                        e: SelectedSocket, live1: map<nat, Source>, n': nat)
    requires Consistent(m, live, n) && s in m && cond != IO_NONE
    requires Rewired(m[s], live, n, s, cond, e, live1, n')
    ensures var live' := if m[s].cond.timeout != cond.timeout then live1 - {e.timeConn} else live1;
      && ChangedFor(s, live, n, live') && NoneRevived(live, n, live', n') && n <= n'
      && forall id :: id in live' && live'[id].sock == s ==> id < n' && Owned(m[s := e.(cond := cond)], id, live'[id])
  {
    hide Consistent, EntryOk, NetCond.And, NetCond.HasIo, GCond;
    OwnSources(m, live, n, s);
  }

  lemma EntryStaysOk(m: map<Socket, SelectedSocket>, live: map<nat, Source>, n: nat, s: Socket, cond: NetCond,
                     e: SelectedSocket, live1: map<nat, Source>, n': nat)
    requires Consistent(m, live, n) && s in m && cond != IO_NONE
    requires Rewired(m[s], live, n, s, cond, e, live1, n')
    ensures var live' := if m[s].cond.timeout != cond.timeout then live1 - {e.timeConn} else live1;
      EntryOk(s, e.(cond := cond), live', n')
  {
    hide Consistent, Owned;
    OwnSources(m, live, n, s);
  }

  /** What `modify_socket` leaves behind; the timer goes only when the timeout
      flag changes. */
  lemma EntryModified(m: map<Socket, SelectedSocket>, live: map<nat, Source>, n: nat, s: Socket, cond: NetCond,
                      e: SelectedSocket, live1: map<nat, Source>, n': nat)
    requires Consistent(m, live, n) && s in m && cond != IO_NONE
    requires Rewired(m[s], live, n, s, cond, e, live1, n')
    ensures var live' := if m[s].cond.timeout != cond.timeout then live1 - {e.timeConn} else live1;
      && ChangedFor(s, live, n, live') && NoneRevived(live, n, live', n')
      && EntryOk(s, e.(cond := cond), live', n')
      && Consistent(m[s := e.(cond := cond)], live', n')
  {
    hide Consistent, Rewired, NoneRevived, ChangedFor, EntryOk;
    var live' := if m[s].cond.timeout != cond.timeout then live1 - {e.timeConn} else live1;
    SourcesModified(m, live, n, s, cond, e, live1, n');
    EntryStaysOk(m, live, n, s, cond, e, live1, n');
    EntryReplaced(m, live, n, s, e.(cond := cond), live', n');
  }

  lemma ArmingsModified(m: map<Socket, SelectedSocket>, live: map<nat, Source>, n: nat, s: Socket, cond: NetCond,
                        e: SelectedSocket, live1: map<nat, Source>, n': nat)
    requires Consistent(m, live, n) && s in m && cond != IO_NONE
    requires Rewired(m[s], live, n, s, cond, e, live1, n')
    ensures var live' := if m[s].cond.timeout != cond.timeout then live1 - {e.timeConn} else live1;
      Armings(m[s := e.(cond := cond)], live') == if cond.timeout then Armings(m, live) else Armings(m, live) - {s}
  {
    hide Consistent, Armings, ChangedFor;
    var live' := if m[s].cond.timeout != cond.timeout then live1 - {e.timeConn} else live1;
    OwnSources(m, live, n, s);
    EntryModified(m, live, n, s, cond, e, live1, n');
    ArmingsReplaced(m, live, n, s, e.(cond := cond), live');
  }

  /** What it leaves of the timer being dispatched and of the tally. */
  lemma TimerModified(m: map<Socket, SelectedSocket>, live: map<nat, Source>, n: nat, s: Socket, cond: NetCond,
                      e: SelectedSocket, live1: map<nat, Source>, n': nat,
                      running: bool, dispatched: nat, tally: Tally)
    requires Consistent(m, live, n) && s in m && dispatched < n
    requires Rewired(m[s], live, n, s, cond, e, live1, n')
    ensures var timed := m[s].cond.timeout != cond.timeout;
      var live' := if timed then live1 - {e.timeConn} else live1;
      var tally' := if timed then TallyWithout(e.timeConn, live1, running, dispatched, tally) else tally;
      && PhaseOf(live', running, dispatched) ==
           PhaseOf(if cond.timeout then live else live - {m[s].timeConn}, running, dispatched)
      && tally' == if cond.timeout then tally else TallyWithout(m[s].timeConn, live, running, dispatched, tally)
  {
    hide Consistent;
    OwnSources(m, live, n, s);
  }

  lemma Modified(m: map<Socket, SelectedSocket>, live: map<nat, Source>, n: nat, s: Socket, cond: NetCond,
                 e: SelectedSocket, live1: map<nat, Source>, n': nat,
                 running: bool, dispatched: nat, now: Micros, tally: Tally)
    requires Consistent(m, live, n) && s in m && cond != IO_NONE && dispatched < n
    requires Rewired(m[s], live, n, s, cond, e, live1, n')
    ensures var timed := m[s].cond.timeout != cond.timeout;
      var live' := if timed then live1 - {e.timeConn} else live1;
      var tally' := if timed then TallyWithout(e.timeConn, live1, running, dispatched, tally) else tally;
      && Consistent(m[s := e.(cond := cond)], live', n') && dispatched < n' && NoneRevived(live, n, live', n')
      && ViewOf(m[s := e.(cond := cond)], live', running, dispatched, now, tally') ==
           ViewOf(m, live, running, dispatched, now, tally).SetInterest(s, cond, true)
  {
    hide Consistent, Armings, Interests, PhaseOf, TallyWithout, NoneRevived;
    DisarmIsDisconnect(m, live, n, s, running, dispatched, now, tally);
    EntryModified(m, live, n, s, cond, e, live1, n');
    ArmingsModified(m, live, n, s, cond, e, live1, n');
    TimerModified(m, live, n, s, cond, e, live1, n', running, dispatched, tally);
    InterestsReplaced(m, s, e.(cond := cond));
  }

  /** What `delete_socket` leaves behind. */
  lemma Deleted(m: map<Socket, SelectedSocket>, live: map<nat, Source>, n: nat, s: Socket,
                running: bool, dispatched: nat, now: Micros, tally: Tally)
    requires Consistent(m, live, n) && s in m && dispatched < n
    ensures var live' := live - {m[s].ioConn} - {m[s].timeConn};
      var tally' := TallyWithout(m[s].timeConn, live - {m[s].ioConn}, running, dispatched, tally);
      && Consistent(m - {s}, live', n)
      && ViewOf(m - {s}, live', running, dispatched, now, tally') ==
           ViewOf(m, live, running, dispatched, now, tally).SetInterest(s, IO_NONE, true)
  {
    hide Consistent, Armings, Interests;
    OwnSources(m, live, n, s);
    EntryRemoved(m, live, n, s, live - {m[s].ioConn} - {m[s].timeConn});
    DisarmIsDisconnect(m, live, n, s, running, dispatched, now, tally);
    InterestsReplaced(m, s, m[s]);
  }

  lemma EntryRearmed(m: map<Socket, SelectedSocket>, live: map<nat, Source>, n: nat,
                     s: Socket, timeout: ULong, now: Micros)
    requires Consistent(m, live, n) && s in m && m[s].cond.timeout
    ensures var live' := (live - {m[s].timeConn})[n := Timer(s, Arming(now, timeout).Due())];
      var e := m[s].(timeoutBegin := Now(now), timeout := timeout, timeConn := n);
      && Consistent(m[s := e], live', n + 1)
      && Armings(m[s := e], live') == (Armings(m, live) - {s})[s := Arming(now, timeout)]
  {
    hide Consistent, Armings, GCond, NetCond.HasIo;
    var live' := (live - {m[s].timeConn})[n := Timer(s, Arming(now, timeout).Due())];
    var e := m[s].(timeoutBegin := Now(now), timeout := timeout, timeConn := n);
    OwnSources(m, live, n, s);
    EntryReplaced(m, live, n, s, e, live', n + 1);
    ArmingsReplaced(m, live, n, s, e, live');
  }

  lemma DispatchedAfterRearming(live: map<nat, Source>, n: nat, id: nat, source: Source, running: bool, dispatched: nat)
    requires dispatched < n
    ensures PhaseOf((live - {id})[n := source], running, dispatched) == PhaseOf(live - {id}, running, dispatched)
  {
  }

  /** What a successful `set_timeout` leaves behind. */
  lemma Rearmed(m: map<Socket, SelectedSocket>, live: map<nat, Source>, n: nat, s: Socket, timeout: ULong,
                running: bool, dispatched: nat, now: Micros, tally: Tally)
    requires Consistent(m, live, n) && s in m && m[s].cond.timeout && dispatched < n
    ensures var live' := (live - {m[s].timeConn})[n := Timer(s, Arming(now, timeout).Due())];
      var tally' := TallyWithout(m[s].timeConn, live, running, dispatched, tally);
      var tally'' := tally'.(armed := tally'.armed + multiset{s});
      var e := m[s].(timeoutBegin := Now(now), timeout := timeout, timeConn := n);
      && Consistent(m[s := e], live', n + 1)
      && ViewOf(m[s := e], live', running, dispatched, now, tally'') ==
           ViewOf(m, live, running, dispatched, now, tally).Arm(s, timeout)
  {
    hide Consistent, Armings, Interests, TallyWithout, View.Disarm;
    var live' := (live - {m[s].timeConn})[n := Timer(s, Arming(now, timeout).Due())];
    var e := m[s].(timeoutBegin := Now(now), timeout := timeout, timeConn := n);
    EntryRearmed(m, live, n, s, timeout, now);
    DispatchedAfterRearming(live, n, m[s].timeConn, live'[n], running, dispatched);
    DisarmIsDisconnect(m, live, n, s, running, dispatched, now, tally);
    InterestsReplaced(m, s, e);
  }

  /** Entering the handler of a dispatched source; a timer always emits. */
  lemma Entered(m: map<Socket, SelectedSocket>, live: map<nat, Source>, n: nat, id: nat, reported: PollCond,
                dispatched: nat, now: Micros, tally: Tally)
    requires Consistent(m, live, n) && id in live
    ensures 0 < id < n && Owned(m, id, live[id])
    ensures var s, v := live[id].sock, ViewOf(m, live, false, dispatched, now, tally);
      if live[id].IoWatch? then
        && Emission(v, DispatchIo(s, reported)) ==
             (if GCond(m[s].cond).And(reported) != G_NONE then Some(NCond(reported)) else None)
        && (Emission(v, DispatchIo(s, reported)).Some? ==>
             ViewOf(m, live, true, id, now, tally) == Next(v, DispatchIo(s, reported)))
      else
        && m[s].cond.timeout && Emission(v, DispatchTimeout(s)) == Some(IO_TIMEOUT)
        && ViewOf(m, live, true, id, now, tally.(fired := tally.fired + multiset{s})) == Next(v, DispatchTimeout(s))
  {
    hide Consistent, Interests, Armings;
    SourceHasEntry(m, live, n, id);
    OwnSources(m, live, n, live[id].sock);
    InterestsReplaced(m, live[id].sock, FRESH);
  }

  /** Coming back from the handler: a timer is removed if it is still there. */
  lemma Returned(m: map<Socket, SelectedSocket>, live: map<nat, Source>, n: nat,
                 id: nat, timer: bool, now: Micros, tally: Tally)
    requires Consistent(m, live, n) && (id in live ==> live[id].Timer? == timer)
    ensures var live' := if timer then live - {id} else live;
      && Consistent(m, live', n)
      && ViewOf(m, live', false, id, now, tally) == Next(ViewOf(m, live, true, id, now, tally), Return)
  {
    hide Consistent, Armings, Interests;
    if id in live && timer {
      var s := live[id].sock;
      SourceHasEntry(m, live, n, id);
      OwnSources(m, live, n, s);
      assert m[s := m[s]] == m;
      EntryReplaced(m, live, n, s, m[s], live - {id}, n);
      ArmingsReplaced(m, live, n, s, m[s], live - {id});
    } else {
      assert live - {id} == if id in live then live - {id} else live;
    }
  }

  /** What the callback of a source emits to a socket selected for `cond`. */
  ghost function EmissionTo(cond: NetCond, source: Source, reported: PollCond): Option<NetCond> {
    if source.Timer? then (if cond.timeout then Some(IO_TIMEOUT) else None)
    else if GCond(cond).And(reported) != G_NONE then Some(NCond(reported))
    else None
  }

  lemma StillTheSame(live: map<nat, Source>, n: nat, live': map<nat, Source>, n': nat, id: nat)
    requires NoneRevived(live, n, live', n') && id in live && id < n
    ensures id in live' ==> live'[id] == live[id]
    ensures NoneRevived(live, n, live' - {id}, n')
  {
  }

  lemma ThereAndBack(m: map<Socket, SelectedSocket>, live: map<nat, Source>,
                     id: nat, dispatched: nat, now: Micros, tally: Tally)
    requires id in live
    ensures live[id].IoWatch? ==>
      Next(ViewOf(m, live, true, id, now, tally), Return) == ViewOf(m, live, false, dispatched, now, tally)
  {
    hide Interests, Armings;
  }

  lemma SourceHasEntry(m: map<Socket, SelectedSocket>, live: map<nat, Source>, n: nat, id: nat)
    requires Consistent(m, live, n) && id in live
    ensures 0 < id < n && Owned(m, id, live[id])
  {
  }

  /** The sources that a state of the selector calls for. */
  ghost function Wanted(v: View): set<Source> {
    (set s | s in v.interest && v.Watched(s) :: IoWatch(s, GCond(v.interest[s].cond))) +
    (set s | s in v.arming :: Timer(s, v.arming[s].Due()))
  }

  /** No socket has two watches or two timers. */
  ghost predicate EachOnce(live: map<nat, Source>) {
    forall i, j | i in live && j in live && live[i].sock == live[j].sock &&
                  live[i].IoWatch? == live[j].IoWatch? :: i == j
  }

  /** The loop holds the wanted sources, each of them once, and no others. */
  lemma LiveSourcesAreTheWantedOnes(m: map<Socket, SelectedSocket>, live: map<nat, Source>, n: nat,
                                    running: bool, dispatched: nat, now: Micros, tally: Tally)
    requires Consistent(m, live, n)
    ensures live.Values == Wanted(ViewOf(m, live, running, dispatched, now, tally))
    ensures EachOnce(live)
  {
    hide Consistent, Interests, Armings;
    var v := ViewOf(m, live, running, dispatched, now, tally);
    ArmedSockets(m, live);
    forall id | id in live ensures live[id] in Wanted(v) && Owned(m, id, live[id]) {
      SourceHasEntry(m, live, n, id);
      OwnSources(m, live, n, live[id].sock);
      InterestsReplaced(m, live[id].sock, FRESH);
    }
    forall source | source in Wanted(v) ensures source in live.Values {
      InterestsReplaced(m, source.sock, FRESH);
      OwnSources(m, live, n, source.sock);
      var id := if source.IoWatch? then m[source.sock].ioConn else m[source.sock].timeConn;
      assert id in live && live[id] == source;
    }
  }

  /** What the process goes through: time passes, someone calls the selector
      from outside a handler, or a source is ready. */
  datatype Event =
    | Tick(now: Micros)
    | Outside(call: Call)
    | Ready(id: nat, reported: PollCond, handler: seq<HandlerStep>)

  function DispatchOf(source: Source, reported: PollCond): Step {
    if source.IoWatch? then DispatchIo(source.sock, reported) else DispatchTimeout(source.sock)
  }

  /** What an event amounts to for the machine in state `v`, given the sources
      that are live when it comes. */
  ghost function StepsFor(event: Event, live: map<nat, Source>, v: View): seq<Step> {
    match event
    case Tick(now) => [Clock(now)]
    case Outside(call) => [Request(call)]
    case Ready(id, reported, handler) =>
      if id in live && Emission(v, DispatchOf(live[id], reported)).Some?
      then Dispatched(DispatchOf(live[id], reported), handler) else []
  }

  /** The steps of each kind of event. */
  lemma StepsForIs(live: map<nat, Source>, v: View, now: Micros, call: Call,
                   id: nat, reported: PollCond, handler: seq<HandlerStep>)
    ensures StepsFor(Tick(now), live, v) == [Clock(now)]
    ensures StepsFor(Outside(call), live, v) == [Request(call)]
    ensures id !in live ==> StepsFor(Ready(id, reported, handler), live, v) == []
    ensures id in live ==>
      var s := live[id].sock;
      var step := if live[id].IoWatch? then DispatchIo(s, reported) else DispatchTimeout(s);
      StepsFor(Ready(id, reported, handler), live, v) ==
        if Emission(v, step).Some? then [step] + handler + [Return] else []
  {
  }

  /** The main loop's sources at some moment. */
  datatype Sources = Sources(live: map<nat, Source>, nextId: nat)

  /** The same for a sequence of events, given the sources at each. */
  ghost function AllSteps(v: View, events: seq<Event>, past: seq<Sources>): seq<Step>
    requires |past| == |events|
  {
    if events == [] then []
    else
      var n := |events| - 1;
      var before := AllSteps(v, events[..n], past[..n]);
      before + StepsFor(events[n], past[n].live, SelectorSpec.Run(v, before))
  }

  lemma StepsOfOneMore(v: View, events: seq<Event>, past: seq<Sources>, event: Event, sources: Sources)
    requires |past| == |events|
    ensures var before := AllSteps(v, events, past);
      var steps := StepsFor(event, sources.live, SelectorSpec.Run(v, before));
      && AllSteps(v, events + [event], past + [sources]) == before + steps
      && SelectorSpec.Run(v, AllSteps(v, events + [event], past + [sources])) ==
           SelectorSpec.Run(SelectorSpec.Run(v, before), steps)
  {
    hide StepsFor, SelectorSpec.Run;
    assert (events + [event])[..|events|] == events && (past + [sources])[..|past|] == past;
    var before := AllSteps(v, events, past);
    RunAppend(v, before, StepsFor(event, sources.live, SelectorSpec.Run(v, before)));
  }

  /** The live sources are the wanted ones, each once, whenever an event comes. */
  ghost predicate WantedAllAlong(v: View, events: seq<Event>, past: seq<Sources>)
    requires |past| == |events|
  {
    forall k :: 0 <= k < |events| ==>
      && EachOnce(past[k].live)
      && past[k].live.Values == Wanted(SelectorSpec.Run(v, AllSteps(v, events[..k], past[..k])))
  }

  /** Through all the moments and up to the last, a source keeps its id and its
      meaning, and an id that is gone stays gone. */
  ghost predicate KeptAllAlong(past: seq<Sources>, last: Sources) {
    && (forall i, j :: 0 <= i < j < |past| ==>
          NoneRevived(past[i].live, past[i].nextId, past[j].live, past[j].nextId))
    && (forall i :: 0 <= i < |past| ==> NoneRevived(past[i].live, past[i].nextId, last.live, last.nextId))
  }

  /** What is said of the moments of a run, in plain terms. */
  lemma AllAlongIs(v: View, events: seq<Event>, past: seq<Sources>, last: Sources)
    requires |past| == |events| && WantedAllAlong(v, events, past) && KeptAllAlong(past, last)
    ensures forall k, a, b | 0 <= k < |past| && a in past[k].live && b in past[k].live && a != b ::
      past[k].live[a].sock != past[k].live[b].sock || past[k].live[a].IoWatch? != past[k].live[b].IoWatch?
    ensures forall k :: 0 <= k < |past| ==>
      past[k].live.Values == Wanted(SelectorSpec.Run(v, AllSteps(v, events[..k], past[..k])))
    ensures forall i, j, id :: 0 <= i < j < |past| && id in past[j].live && id < past[i].nextId ==>
      id in past[i].live && past[j].live[id] == past[i].live[id]
    ensures forall i, id :: 0 <= i < |past| && id in last.live && id < past[i].nextId ==>
      id in past[i].live && last.live[id] == past[i].live[id]
  {
    hide AllSteps, SelectorSpec.Run, Wanted;
  }

  lemma NoSteps(v: View)
    ensures SelectorSpec.Run(v, AllSteps(v, [], [])) == v && WantedAllAlong(v, [], [])
  {
  }

  lemma WantedOnceMore(v: View, events: seq<Event>, past: seq<Sources>, event: Event, sources: Sources)
    requires |past| == |events| && WantedAllAlong(v, events, past) && EachOnce(sources.live)
    requires sources.live.Values == Wanted(SelectorSpec.Run(v, AllSteps(v, events, past)))
    ensures WantedAllAlong(v, events + [event], past + [sources])
  {
    hide AllSteps, SelectorSpec.Run, Wanted, EachOnce;
    var events', past' := events + [event], past + [sources];
    forall k | 0 <= k < |events'|
      ensures EachOnce(past'[k].live)
      ensures past'[k].live.Values == Wanted(SelectorSpec.Run(v, AllSteps(v, events'[..k], past'[..k])))
    {
      assert events'[..k] == events[..k] && past'[..k] == past[..k];
      assert events[..|events|] == events && past[..|past|] == past;
    }
  }

  lemma NothingKept(last: Sources)
    ensures KeptAllAlong([], last)
  {
  }

  lemma KeptOnceMore(past: seq<Sources>, last: Sources, next: Sources)
    requires KeptAllAlong(past, last) && NoneRevived(last.live, last.nextId, next.live, next.nextId)
    ensures KeptAllAlong(past + [last], next)
  {
    forall i | 0 <= i < |past| ensures NoneRevived(past[i].live, past[i].nextId, next.live, next.nextId) {
      assert NoneRevived(past[i].live, past[i].nextId, last.live, last.nextId);
    }
  }

  /** What the interests call for: a watch for every socket that waits for I/O and
      a timer for every armed one. */
  ghost function CalledFor(v: View): set<Source> {
    (set s | s in v.interest && v.interest[s].cond.HasIo() :: IoWatch(s, GCond(v.interest[s].cond))) +
    (set s | s in v.arming :: Timer(s, v.arming[s].Due()))
  }

  /** What is wanted: a watch for who is watched, a timer for who is armed. */
  lemma WantedIs(v: View)
    ensures forall s: Socket, mask :: IoWatch(s, mask) in Wanted(v) <==>
      && s in v.interest && v.interest[s].channel && mask == GCond(v.interest[s].cond)
      && (v.interest[s].cond.incoming || v.interest[s].cond.outgoing || v.interest[s].cond.error)
    ensures forall s: Socket, due :: Timer(s, due) in Wanted(v) <==> s in v.arming && due == v.arming[s].Due()
    ensures forall s: Socket, mask :: IoWatch(s, mask) in CalledFor(v) <==>
      && s in v.interest && mask == GCond(v.interest[s].cond)
      && (v.interest[s].cond.incoming || v.interest[s].cond.outgoing || v.interest[s].cond.error)
    ensures forall s: Socket, due :: Timer(s, due) in CalledFor(v) <==> s in v.arming && due == v.arming[s].Due()
  {
  }

  lemma WantedIsCalledFor(v: View)
    requires NobodyDeaf(v)
    ensures Wanted(v) == CalledFor(v)
  {
    forall s | s in v.interest ensures v.Watched(s) <==> v.interest[s].cond.HasIo() { assert !v.Deaf(s); }
  }

  /** If no call of the run asks for I/O that cannot be watched, the sources in
      the end are those the interests call for. */
  lemma RunWatchesAll(v: View, steps: seq<Step>)
    requires NobodyDeaf(v) && NoneDeafens(v, steps)
    ensures Wanted(SelectorSpec.Run(v, steps)) == CalledFor(SelectorSpec.Run(v, steps))
  {
    hide SelectorSpec.Run, NobodyDeaf, NoneDeafens, Wanted, CalledFor;
    OthersAreWatched(v, steps);
    assert steps[..|steps|] == steps;
    WantedIsCalledFor(SelectorSpec.Run(v, steps));
  }

  /** An entry has a live watch exactly if it waits for I/O and owns a channel, and
      a live timer only if it waits for one; each with what the entry calls for,
      and there is no other source. */
  ghost predicate EntriesAndSources(m: map<Socket, SelectedSocket>, live: map<nat, Source>) {
    && (forall s :: s in m ==> var e := m[s]; var c := e.cond;
          && (c.incoming || c.outgoing || c.error || c.timeout)
          && (e.ioConn in live <==> (c.incoming || c.outgoing || c.error) && e.ioChan)
          && (e.ioConn in live ==>
                live[e.ioConn] == IoWatch(s, PollCond(c.incoming, false, c.outgoing, c.error, c.error, c.error)))
          && (e.timeConn in live ==>
                && c.timeout
                && live[e.timeConn] == Timer(s, e.timeoutBegin.Total() + 1000 * (e.timeout % 0x1_0000_0000))))
    && (forall id :: id in live ==> var source := live[id];
          source.sock in m && id == if source.IoWatch? then m[source.sock].ioConn else m[source.sock].timeConn)
  }

  lemma EntriesAndSourcesAgree(m: map<Socket, SelectedSocket>, live: map<nat, Source>, n: nat)
    requires Consistent(m, live, n)
    ensures EntriesAndSources(m, live)
  {
    forall s | s in m ensures EntryOk(s, m[s], live, n) {}
  }

  /** What the machine sees of the map and the main loop. */
  lemma ViewIs(m: map<Socket, SelectedSocket>, live: map<nat, Source>,
               running: bool, dispatched: nat, now: Micros, tally: Tally)
    ensures var v := ViewOf(m, live, running, dispatched, now, tally);
      && v.interest.Keys == m.Keys
      && (forall s :: s in m ==> v.interest[s].cond == m[s].cond && v.interest[s].channel == m[s].ioChan)
      && (forall s :: s in v.arming <==> s in m && m[s].timeConn in live)
      && (forall s :: s in v.arming ==>
            v.arming[s].begin == m[s].timeoutBegin.Total() && v.arming[s].timeout == m[s].timeout)
      && v.now == now && v.tally == tally && (v.phase.Idle? <==> !running)
  {
  }

  /** What `set` amounts to for the entries and the sources. */
  lemma SetShows(m: map<Socket, SelectedSocket>, live: map<nat, Source>, tally: Tally,
                 m': map<Socket, SelectedSocket>, live': map<nat, Source>, n': nat, tally': Tally,
                 running: bool, dispatched: nat, now: Micros, s: Socket, cond: NetCond, nonblocking: bool)
    requires Consistent(m', live', n') && m' - {s} == m - {s}
    requires ViewOf(m', live', running, dispatched, now, tally') ==
      ViewOf(m, live, running, dispatched, now, tally).SetInterest(s, cond, nonblocking)
    ensures var io := cond.incoming || cond.outgoing || cond.error;
      && (s in m' <==> io || cond.timeout)
      && (s in m' ==> m'[s].cond == cond)
      && (s in m' ==> (m'[s].ioChan <==> if s in m then m[s].ioChan else io && nonblocking))
      && (s in m' && m'[s].ioChan && io ==>
            && m'[s].ioConn in live'
            && live'[m'[s].ioConn] ==
                 IoWatch(s, PollCond(cond.incoming, false, cond.outgoing, cond.error, cond.error, cond.error)))
    ensures (exists id :: id in live' && live'[id].IoWatch? && live'[id].sock == s) <==>
      s in m' && m'[s].ioChan && (cond.incoming || cond.outgoing || cond.error)
    ensures (exists id :: id in live' && live'[id].Timer? && live'[id].sock == s) <==>
      s in m && m[s].timeConn in live && cond.timeout
    ensures forall t :: t in m' && t != s ==> t in m && (m'[t].timeConn in live' <==> m[t].timeConn in live)
  {
    hide Consistent, ViewOf, View.SetInterest;
    var v, w := ViewOf(m, live, running, dispatched, now, tally), ViewOf(m', live', running, dispatched, now, tally');
    ViewIs(m, live, running, dispatched, now, tally);
    ViewIs(m', live', running, dispatched, now, tally');
    SetIs(v, s, cond, nonblocking);
    EntriesAndSourcesAgree(m', live', n');
    assert s in w.arming ==> live'[m'[s].timeConn].sock == s;
    forall t | t in m' && t != s ensures t in m && (m'[t].timeConn in live' <==> m[t].timeConn in live) {
      assert t in m' - {s} && t in m - {s};
      assert t in w.arming - {s} <==> t in v.arming - {s};
    }
  }

  /** Deselecting what is not selected does nothing, and `fcntl` is not asked
      about sockets that are in the map. */
  lemma SetOfThese(v: View, s: Socket, nonblocking: bool, cond: NetCond)
    ensures s !in v.interest && s !in v.arming ==> v.SetInterest(s, IO_NONE, nonblocking) == v
    ensures s in v.interest || cond == IO_NONE ==> v.SetInterest(s, cond, nonblocking) == v.SetInterest(s, cond, true)
  {
  }

  lemma Unrevived(live: map<nat, Source>, n: nat)
    ensures NoneRevived(live, n, live, n)
  {
  }

  class GSelector {
    const loop: MainLoop
    var m_map: map<Socket, SelectedSocket>

    ghost predicate Valid() reads this, loop {
      Consistent(m_map, loop.live, loop.nextId) && loop.dispatched < loop.nextId
    }

    ghost function View(): SelectorSpec.View reads this, loop {
      ViewOf(m_map, loop.live, loop.running, loop.dispatched, loop.now, loop.tally)
    }

    /** What the map and the main loop promise each other, in plain terms. */
    lemma ValidIs()
      requires Valid()
      ensures EntriesAndSources(m_map, loop.live)
    {
      EntriesAndSourcesAgree(m_map, loop.live, loop.nextId);
    }

    constructor (loop: MainLoop)
      requires loop.live == map[] && loop.nextId == 1 && !loop.running && loop.dispatched == 0 && loop.tally == NO_TALLY
      ensures this.loop == loop && m_map == map[] && Valid() && View() == Start(loop.now)
    {
      this.loop := loop;
      m_map := map[];
    }

    method AddSocket(sock: Socket, cond: NetCond, nonblocking: bool) returns (ok: bool)
      requires Valid() && sock !in m_map && cond != IO_NONE
      modifies `m_map, loop`live, loop`nextId, loop`tally
      ensures NoneRevived(old(loop.live), old(loop.nextId), loop.live, loop.nextId)
      ensures Valid() && View() == old(View()).SetInterest(sock, cond, nonblocking)
      ensures ok <==> !cond.HasIo() || nonblocking
      ensures m_map - {sock} == old(m_map) - {sock}
    {
      hide Consistent, ViewOf, SelectorSpec.View.SetInterest, NoneRevived, GCond;
      m_map := m_map[sock := FRESH.(cond := cond)];
      ok := !cond.HasIo() || nonblocking;
      if cond.HasIo() && ok {
        m_map := m_map[sock := m_map[sock].(ioChan := true)];
        var conn := loop.Connect(IoWatch(sock, GCond(cond)));
        m_map := m_map[sock := m_map[sock].(ioConn := conn)];
      }
      assert m_map == old(m_map)[sock := m_map[sock]];
      Added(old(m_map), old(loop.live), old(loop.nextId), sock, m_map[sock], nonblocking,
        loop.running, loop.dispatched, loop.now, loop.tally);
    }

    method ModifySocket(sock: Socket, cond: NetCond)
      requires Valid() && sock in m_map && cond != IO_NONE
      modifies `m_map, loop`live, loop`nextId, loop`tally
      ensures NoneRevived(old(loop.live), old(loop.nextId), loop.live, loop.nextId)
      ensures Valid() && View() == old(View()).SetInterest(sock, cond, true)
      ensures m_map - {sock} == old(m_map) - {sock}
    {
      hide Consistent, ViewOf, NoneRevived, EntryOk, SelectorSpec.View.SetInterest;
      var e := m_map[sock];
      if e.cond.And(IO_FLAGS) != cond.And(IO_FLAGS) {
        IoConnIsNoTimer(m_map, loop.live, loop.nextId, sock);
        loop.DisconnectIfConnected(e.ioConn);
        if cond.HasIo() {
          var conn := loop.ConnectIo(sock, e.ioChan, GCond(cond));
          m_map := m_map[sock := m_map[sock].(ioConn := conn)];
        }
      }
      Modified(old(m_map), old(loop.live), old(loop.nextId), sock, cond, m_map[sock], loop.live, loop.nextId,
        loop.running, loop.dispatched, loop.now, loop.tally);
      if e.cond.timeout != cond.timeout {
        loop.DisconnectIfConnected(e.timeConn);
      }
      m_map := m_map[sock := m_map[sock].(cond := cond)];
      assert m_map == old(m_map)[sock := m_map[sock]];
    }

    method DeleteSocket(sock: Socket)
      requires Valid() && sock in m_map
      modifies `m_map, loop`live, loop`nextId, loop`tally
      ensures NoneRevived(old(loop.live), old(loop.nextId), loop.live, loop.nextId)
      ensures Valid() && View() == old(View()).SetInterest(sock, IO_NONE, true)
      ensures m_map - {sock} == old(m_map) - {sock}
    {
      hide Consistent, ViewOf, SelectorSpec.View.SetInterest;
      OwnSources(m_map, loop.live, loop.nextId, sock);
      Deleted(m_map, loop.live, loop.nextId, sock, loop.running, loop.dispatched, loop.now, loop.tally);
      loop.DisconnectIfConnected(m_map[sock].ioConn);
      loop.DisconnectIfConnected(m_map[sock].timeConn);
      m_map := m_map - {sock};
    }

    method Get(sock: Socket) returns (cond: NetCond)
      ensures cond == if sock in View().interest then View().interest[sock].cond else IO_NONE
      ensures cond == if sock in m_map then m_map[sock].cond else NetCond(false, false, false, false)
    {
      cond := if sock !in m_map then IO_NONE else m_map[sock].cond;
    }

    /** `nonblocking` tells whether `fcntl` can make the socket non-blocking. The
        socket is in the map afterwards exactly if it is to wait for anything, with
        just the condition given; if it owns a channel the main loop watches it
        for that; a running timer stays exactly if it is still waited for. Nothing
        changes for other sockets. */
    method Set(sock: Socket, cond: NetCond, nonblocking: bool) returns (ok: bool)
      requires Valid()
      modifies `m_map, loop`live, loop`nextId, loop`tally
      ensures NoneRevived(old(loop.live), old(loop.nextId), loop.live, loop.nextId)
      ensures Valid() && View() == old(View()).SetInterest(sock, cond, nonblocking)
      ensures ok == Accepts(old(View()), Call.Set(sock, cond, nonblocking))
      ensures var io := cond.incoming || cond.outgoing || cond.error;
        && (ok <==> sock in old(m_map) || !io || nonblocking)
        && (sock in m_map <==> io || cond.timeout)
        && (sock in m_map ==> m_map[sock].cond == cond)
        && (sock in m_map ==>
              (m_map[sock].ioChan <==> if sock in old(m_map) then old(m_map)[sock].ioChan else io && nonblocking))
        && (sock in m_map && m_map[sock].ioChan && io ==>
              && m_map[sock].ioConn in loop.live
              && loop.live[m_map[sock].ioConn] ==
                   IoWatch(sock, PollCond(cond.incoming, false, cond.outgoing, cond.error, cond.error, cond.error)))
      ensures (exists id :: id in loop.live && loop.live[id].IoWatch? && loop.live[id].sock == sock) <==>
        sock in m_map && m_map[sock].ioChan && (cond.incoming || cond.outgoing || cond.error)
      ensures (exists id :: id in loop.live && loop.live[id].Timer? && loop.live[id].sock == sock) <==>
        sock in old(m_map) && old(m_map)[sock].timeConn in old(loop.live) && cond.timeout
      ensures m_map - {sock} == old(m_map) - {sock}
      ensures forall t :: t in m_map && t != sock ==>
        t in old(m_map) && (m_map[t].timeConn in loop.live <==> old(m_map)[t].timeConn in old(loop.live))
    {
      hide Consistent, ViewOf, SelectorSpec.View.SetInterest, NoneRevived;
      ghost var before := View();
      ViewIs(m_map, loop.live, loop.running, loop.dispatched, loop.now, loop.tally);
      SetOfThese(before, sock, nonblocking, cond);
      SetIs(before, sock, cond, nonblocking);
      Unrevived(loop.live, loop.nextId);
      ok := true;
      if cond != IO_NONE {
        if sock !in m_map {
          ok := AddSocket(sock, cond, nonblocking);
        } else {
          ModifySocket(sock, cond);
        }
      } else if sock in m_map {
        DeleteSocket(sock);
      }
      SetShows(old(m_map), old(loop.live), old(loop.tally), m_map, loop.live, loop.nextId, loop.tally,
        loop.running, loop.dispatched, loop.now, sock, cond, nonblocking);
    }

    method GetTimeout(sock: Socket) returns (timeout: ULong)
      requires Valid()
      ensures timeout == var v := View();
        if sock in v.arming then Answer(Now(v.now), Now(v.arming[sock].begin), v.arming[sock].timeout) else 0
      ensures timeout == 0 <==> !(sock in m_map && m_map[sock].timeConn in loop.live)
      ensures timeout != 0 ==> var elapsed := loop.now - m_map[sock].timeoutBegin.Total();
        var left := m_map[sock].timeout - elapsed / 1000;
        elapsed >= 0 ==> timeout == if left > 1 then left else 1
    {
      hide Consistent, Interests, Armings, PhaseOf, ElapsedMillis;
      ArmedSockets(m_map, loop.live);
      if sock !in m_map {
        return 0;
      }
      if !loop.Connected(m_map[sock].timeConn) {
        return 0;
      }
      AnswerIsRemaining(loop.now, m_map[sock].timeoutBegin.Total(), m_map[sock].timeout);
      var val := Now(loop.now);
      val := val.Minus(m_map[sock].timeoutBegin);
      var elapsed := ElapsedMillis(val);
      if elapsed >= m_map[sock].timeout {
        return 1;
      }
      return m_map[sock].timeout - elapsed;
    }

    /** Fails, changing nothing, where the source throws a logic error. */
    method SetTimeout(sock: Socket, timeout: ULong) returns (ok: bool)
      requires Valid()
      modifies `m_map, loop`live, loop`nextId, loop`tally
      ensures NoneRevived(old(loop.live), old(loop.nextId), loop.live, loop.nextId)
      ensures Valid() && View() == SelectorSpec.Perform(old(View()), Call.SetTimeout(sock, timeout))
      ensures ok == Accepts(old(View()), Call.SetTimeout(sock, timeout))
      ensures ok <==> sock in old(m_map) && old(m_map)[sock].cond.timeout
      ensures !ok ==> m_map == old(m_map) && loop.live == old(loop.live)
      ensures ok ==> sock in m_map && m_map[sock].timeConn in loop.live
      ensures ok ==> var e := m_map[sock];
        && m_map == old(m_map)[sock := e]
        && e == old(m_map)[sock].(timeoutBegin := e.timeoutBegin, timeout := timeout, timeConn := e.timeConn)
        && e.timeoutBegin.Total() == loop.now
        && loop.live - {e.timeConn} == old(loop.live) - {old(m_map)[sock].timeConn}
      ensures ok ==>
        (loop.live[m_map[sock].timeConn] == Timer(sock, loop.now + 1000 * timeout) <==> timeout < 0x1_0000_0000)
    {
      hide Consistent, Interests, Armings, PhaseOf, SelectorSpec.View.Arm;
      ok := sock in m_map && m_map[sock].cond.timeout;
      InterestsReplaced(m_map, sock, FRESH);
      if ok {
        OwnSources(m_map, loop.live, loop.nextId, sock);
        Rearmed(m_map, loop.live, loop.nextId, sock, timeout, loop.running, loop.dispatched, loop.now, loop.tally);
        loop.DisconnectIfConnected(m_map[sock].timeConn);
        m_map := m_map[sock := m_map[sock].(timeoutBegin := Now(loop.now))];
        m_map := m_map[sock := m_map[sock].(timeout := timeout)];
        var conn := loop.ConnectTimeout(sock, timeout);
        DueAtDeadlineExactly(Arming(loop.now, timeout));
        assert loop.live - {conn} == old(loop.live) - {old(m_map)[sock].timeConn};
        m_map := m_map[sock := m_map[sock].(timeConn := conn)];
        assert m_map == old(m_map)[sock := m_map[sock]];
      }
    }

    /** A call whose failure, if it fails, is caught by the caller. */
    method Perform(call: Call)
      requires Valid()
      modifies `m_map, loop`live, loop`nextId, loop`tally
      ensures NoneRevived(old(loop.live), old(loop.nextId), loop.live, loop.nextId)
      ensures Valid() && View() == SelectorSpec.Perform(old(View()), call)
    {
      hide Consistent, ViewOf, NoneRevived;
      var ok;
      match call {
        case Set(sock, cond, nonblocking) => ok := Set(sock, cond, nonblocking);
        case SetTimeout(sock, timeout) => ok := SetTimeout(sock, timeout);
      }
    }

    method SetClock(now: Micros)
      requires Valid()
      modifies loop`now
      ensures Valid() && View() == Next(old(View()), Clock(now))
    {
      loop.now := now;
    }

    /** Emits to a socket: its handler makes its calls on the selector, in any
        number and order, while time passes, and comes back. */
    method Emit(handler: seq<HandlerStep>)
      requires Valid()
      modifies `m_map, loop`live, loop`nextId, loop`tally, loop`now
      ensures NoneRevived(old(loop.live), old(loop.nextId), loop.live, loop.nextId)
      ensures Valid() && View() == SelectorSpec.Run(old(View()), handler)
    {
      hide Consistent, ViewOf, SelectorSpec.Perform;
      RunNothing(View());
      for i := 0 to |handler|
        invariant Valid() && View() == SelectorSpec.Run(old(View()), handler[..i])
        invariant NoneRevived(old(loop.live), old(loop.nextId), loop.live, loop.nextId)
      {
        match handler[i] {
          case Clock(now) => SetClock(now);
          case Request(call) => Perform(call);
        }
        assert handler[..i + 1][..i] == handler[..i];
      }
      assert handler[..|handler|] == handler;
    }

    method OnIo(cond: PollCond, sock: Socket, handler: seq<HandlerStep>)
        returns (again: bool, emission: Option<NetCond>)
      requires Valid()
      modifies `m_map, loop`live, loop`nextId, loop`tally, loop`now
      ensures NoneRevived(old(loop.live), old(loop.nextId), loop.live, loop.nextId)
      ensures Valid() && View() == if emission.Some? then SelectorSpec.Run(old(View()), handler) else old(View())
      ensures again <==> sock in old(m_map)
      ensures emission == if sock in old(m_map) && GCond(old(m_map)[sock].cond).And(cond) != G_NONE
                          then Some(NCond(cond)) else None
    {
      if sock !in m_map {
        return false, None;
      }
      if GCond(m_map[sock].cond).And(cond) == G_NONE {
        return true, None;
      }
      emission := Some(NCond(cond));
      Emit(handler);
      again := true;
    }

    method OnTimeout(sock: Socket, handler: seq<HandlerStep>) returns (again: bool, emission: Option<NetCond>)
      requires Valid()
      modifies `m_map, loop`live, loop`nextId, loop`tally, loop`now
      ensures NoneRevived(old(loop.live), old(loop.nextId), loop.live, loop.nextId)
      ensures Valid() && View() == if emission.Some? then SelectorSpec.Run(old(View()), handler) else old(View())
      ensures !again
      ensures emission == if sock in old(m_map) && old(m_map)[sock].cond.timeout then Some(IO_TIMEOUT) else None
    {
      again, emission := false, None;
      if sock !in m_map {
        return;
      }
      if !m_map[sock].cond.timeout {
        return;
      }
      emission := Some(IO_TIMEOUT);
      Emit(handler);
    }

    /** The main loop takes up a live source, of which there is always an entry. */
    method Enter(id: nat, reported: PollCond)
      requires Valid() && !loop.running && id in loop.live
      modifies loop`running, loop`dispatched, loop`tally
      ensures Valid() && loop.running && loop.dispatched == id
      ensures var source, step := loop.live[id], DispatchOf(loop.live[id], reported);
        && source.sock in m_map && id < loop.nextId
        && Emission(old(View()), step) == EmissionTo(m_map[source.sock].cond, source, reported)
        && (Emission(old(View()), step).Some? ==> View() == Next(old(View()), step))
        && (source.Timer? ==> Emission(old(View()), step).Some?)
        && (Emission(old(View()), step).None? ==> Next(View(), Return) == old(View()))
    {
      hide Consistent, ViewOf, Next, Emission, GCond, NCond, PollCond.And;
      Entered(m_map, loop.live, loop.nextId, id, reported, loop.dispatched, loop.now, loop.tally);
      ThereAndBack(m_map, loop.live, id, loop.dispatched, loop.now, loop.tally);
      var source := loop.live[id];
      loop.running, loop.dispatched := true, id;
      if source.Timer? {
        loop.tally := loop.tally.(fired := loop.tally.fired + multiset{source.sock});
      }
    }

    /** The callback that a source is bound to. */
    method Invoke(source: Source, reported: PollCond, handler: seq<HandlerStep>)
        returns (again: bool, emission: Option<NetCond>)
      requires Valid() && source.sock in m_map
      modifies `m_map, loop`live, loop`nextId, loop`tally, loop`now
      ensures NoneRevived(old(loop.live), old(loop.nextId), loop.live, loop.nextId)
      ensures Valid() && View() == if emission.Some? then SelectorSpec.Run(old(View()), handler) else old(View())
      ensures again == source.IoWatch?
      ensures emission == EmissionTo(old(m_map)[source.sock].cond, source, reported)
    {
      hide Consistent, ViewOf, NoneRevived, SelectorSpec.Run, GCond, NCond, PollCond.And;
      if source.IoWatch? {
        again, emission := OnIo(reported, source.sock, handler);
      } else {
        again, emission := OnTimeout(source.sock, handler);
      }
    }

    /** Back in the main loop, which removes the source if its callback said so. */
    method Leave(again: bool)
      requires Valid() && loop.running
      requires loop.dispatched in loop.live ==> loop.live[loop.dispatched].IoWatch? == again
      modifies loop`live, loop`running
      ensures Valid() && !loop.running && View() == Next(old(View()), Return)
      ensures loop.live == if again then old(loop.live) else old(loop.live) - {loop.dispatched}
    {
      hide Consistent, ViewOf, Next;
      Returned(m_map, loop.live, loop.nextId, loop.dispatched, !again, loop.now, loop.tally);
      if !again {
        loop.live := loop.live - {loop.dispatched};
      }
      loop.running := false;
    }

    /** One iteration of the main loop that dispatches source `id`. */
    method Dispatch(id: nat, reported: PollCond, handler: seq<HandlerStep>)
      returns (ghost step: Step, emission: Option<NetCond>, again: bool)
      requires Valid() && !loop.running && id in loop.live
      modifies `m_map, loop
      ensures Valid() && !loop.running
      ensures step == DispatchOf(old(loop.live[id]), reported)
      ensures emission == Emission(old(View()), step)
      ensures again == old(loop.live[id]).IoWatch?
      ensures !again ==> emission.Some? && id !in loop.live
      ensures NoneRevived(old(loop.live), old(loop.nextId), loop.live, loop.nextId)
      ensures View() == if emission.Some? then Next(SelectorSpec.Run(Next(old(View()), step), handler), Return)
                        else old(View())
    {
      hide Consistent, ViewOf, Next, Emission, SelectorSpec.Run, NoneRevived, EmissionTo, DispatchOf;
      var source := loop.live[id];
      step := DispatchOf(source, reported);
      Enter(id, reported);
      again, emission := Invoke(source, reported, handler);
      StillTheSame(old(loop.live), old(loop.nextId), loop.live, loop.nextId, id);
      Leave(again);
    }

    /** One event is just its steps of the machine. */
    method Handle(event: Event)
      requires Valid() && !loop.running
      modifies `m_map, loop
      ensures Valid() && !loop.running
      ensures View() == SelectorSpec.Run(old(View()), StepsFor(event, old(loop.live), old(View())))
      ensures event.Tick? ==> View() == old(View()).(now := event.now)
      ensures event.Outside? ==> View() == SelectorSpec.Perform(old(View()), event.call)
      ensures event.Ready? && event.id !in old(loop.live) ==> View() == old(View())
      ensures event.Ready? && event.id in old(loop.live) ==>
        var v, source := old(View()), old(loop.live)[event.id];
        var step := if source.IoWatch? then DispatchIo(source.sock, event.reported) else DispatchTimeout(source.sock);
        View() == if Emission(v, step).Some? then Next(SelectorSpec.Run(Next(v, step), event.handler), Return) else v
      ensures NoneRevived(old(loop.live), old(loop.nextId), loop.live, loop.nextId)
    {
      hide Consistent, ViewOf, Emission, SelectorSpec.Perform, SelectorSpec.Run, Dispatched;
      ghost var v := View();
      match event {
        case Tick(now) =>
          SetClock(now);
          RunOne(v, Clock(now));
        case Outside(call) =>
          Perform(call);
          RunOne(v, Request(call));
        case Ready(id, reported, handler) =>
          RunNothing(v);
          if id in loop.live {
            ghost var step;
            var emission, again;
            step, emission, again := Dispatch(id, reported, handler);
            RunOfDispatched(v, step, handler);
          }
      }
    }

    ghost function Present(): Sources reads loop {
      Sources(loop.live, loop.nextId)
    }

    /** Any sequence of events, with any handlers, is just its steps of the
        machine, one event after the other; `past` holds the sources before each
        of them, which are always the wanted ones. Unless a call asks for I/O
        that cannot be watched, they are all those the map calls for. */
    method Run(events: seq<Event>) returns (ghost past: seq<Sources>)
      requires Valid() && !loop.running
      modifies `m_map, loop
      ensures Valid() && !loop.running
      ensures |past| == |events| && WantedAllAlong(old(View()), events, past) && KeptAllAlong(past, Present())
      ensures events != [] ==> past[0] == old(Present())
      ensures View() == SelectorSpec.Run(old(View()), AllSteps(old(View()), events, past))
      ensures loop.live.Values == Wanted(View()) && EachOnce(loop.live)
      ensures NobodyDeaf(old(View())) && NoneDeafens(old(View()), AllSteps(old(View()), events, past)) ==>
        loop.live.Values == CalledFor(View())
      ensures NoneRevived(old(loop.live), old(loop.nextId), loop.live, loop.nextId)
    {
      hide Consistent, ViewOf, SelectorSpec.Run, StepsFor, AllSteps, WantedAllAlong, KeptAllAlong;
      hide Wanted, CalledFor, EachOnce, NobodyDeaf, NoneDeafens;
      past := [];
      ghost var v := View();
      NoSteps(v);
      NothingKept(Present());
      for k := 0 to |events|
        invariant Valid() && !loop.running
        invariant |past| == k && WantedAllAlong(v, events[..k], past) && KeptAllAlong(past, Present())
        invariant if k == 0 then Present() == old(Present()) else past[0] == old(Present())
        invariant View() == SelectorSpec.Run(v, AllSteps(v, events[..k], past))
        invariant NoneRevived(old(loop.live), old(loop.nextId), loop.live, loop.nextId)
      {
        ghost var now := Present();
        LiveSourcesAreTheWantedOnes(m_map, loop.live, loop.nextId, loop.running, loop.dispatched, loop.now, loop.tally);
        WantedOnceMore(v, events[..k], past, events[k], now);
        StepsOfOneMore(v, events[..k], past, events[k], now);
        assert events[..k + 1] == events[..k] + [events[k]];
        Handle(events[k]);
        KeptOnceMore(past, now, Present());
        past := past + [now];
      }
      assert events[..|events|] == events;
      LiveSourcesAreTheWantedOnes(m_map, loop.live, loop.nextId, loop.running, loop.dispatched, loop.now, loop.tally);
      if NobodyDeaf(v) && NoneDeafens(v, AllSteps(v, events, past)) {
        RunWatchesAll(v, AllSteps(v, events, past));
      }
    }
  }
}
