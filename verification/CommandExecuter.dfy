/** Collecting the output of spawned commands (src/command_executer.cpp:96-143):
    interleaved readiness events on many descriptors, one message for each. */
module CommandExecuterModel {

  type Fd = int

  /** What the system answers to `read`. */
  datatype ReadResult = Data(bytes: string) | EndOfFile | ReadError

  /** One wake-up of a descriptor: the reported conditions, and the answer to a
      `read` if one is made. */
  datatype Event = Event(fd: Fd, failed: bool, input: bool, read: ReadResult)

  datatype Message = Message(fd: Fd, text: string)

  /** An event that ends the collection for its descriptor. */
  predicate Ends(e: Event) {
    e.failed || (e.input && !e.read.Data?)
  }

  /** The bytes an event brings in. */
  function Brings(e: Event): string {
    if !e.failed && e.input && e.read.Data? then e.read.bytes else ""
  }

  /** The events of one descriptor. */
  function Own(events: seq<Event>, fd: Fd): seq<Event> {
    if events == [] then []
    else Own(events[..|events| - 1], fd) + (if events[|events| - 1].fd == fd then [events[|events| - 1]] else [])
  }

  function Collected(events: seq<Event>): string {
    if events == [] then "" else Collected(events[..|events| - 1]) + Brings(events[|events| - 1])
  }

  /** The messages sent for one descriptor. */
  function SentFor(sent: seq<Message>, fd: Fd): seq<string> {
    if sent == [] then []
    else SentFor(sent[..|sent| - 1], fd) + (if sent[|sent| - 1].fd == fd then [sent[|sent| - 1].text] else [])
  }

  /** How many bytes have been read. */
  function ReadLength(events: seq<Event>): nat {
    if events == [] then 0
    else
      var last := events[|events| - 1];
      ReadLength(events[..|events| - 1]) +
        if !last.failed && last.input && last.read.Data? then |last.read.bytes| else 0
  }

  /** One more event at a time: what has been collected is what the reads brought,
      in their order. */
  lemma OneMoreEvent(events: seq<Event>, e: Event)
    ensures Collected([]) == "" && ReadLength([]) == 0
    ensures var data := !e.failed && e.input && e.read.Data?;
      && Collected(events + [e]) == Collected(events) + (if data then e.read.bytes else "")
      && ReadLength(events + [e]) == ReadLength(events) + (if data then |e.read.bytes| else 0)
  {
    assert (events + [e])[..|events|] == events;
  }

  /** What the system reports for a command that writes `output`: a read brings the
      next bytes, and reaches the end only when there are no more. */
  ghost predicate Delivers(events: seq<Event>, output: string) {
    forall i :: 0 <= i < |events| && !events[i].failed && events[i].input ==>
      var at := ReadLength(events[..i]);
      match events[i].read
      case Data(bytes) => 0 < |bytes| <= 2048 && at + |bytes| <= |output| && bytes == output[at..at + |bytes|]
      case EndOfFile => at == |output|
      case ReadError => true
  }

  /** What is collected of a command is the beginning of its output that has been
      read, and all of it if the last thing was a read that reached the end. */
  lemma {:induction false} CollectsOwnOutput(events: seq<Event>, output: string)
    requires Delivers(events, output)
    ensures ReadLength(events) <= |output| && Collected(events) == output[..ReadLength(events)]
    ensures events != [] && (var last := events[|events| - 1]; !last.failed && last.input && last.read.EndOfFile?) ==>
      Collected(events) == output
    decreases |events|
  {
    hide Collected, ReadLength, Delivers;
    if events == [] {
      OneMoreEvent([], Event(0, true, true, EndOfFile));
    } else {
      var before, last := events[..|events| - 1], events[|events| - 1];
      assert events == before + [last];
      DeliversOneMore(before, last, output);
      CollectsOwnOutput(before, output);
      OneMoreEvent(before, last);
      var at := ReadLength(before);
      if !last.failed && last.input && last.read.Data? {
        assert output[..at] + output[at..at + |last.read.bytes|] == output[..at + |last.read.bytes|];
      }
    }
  }

  lemma DeliversOneMore(events: seq<Event>, e: Event, output: string)
    ensures Delivers(events + [e], output) <==>
      && Delivers(events, output)
      && (!e.failed && e.input ==>
            var at := ReadLength(events);
            match e.read
            case Data(bytes) => 0 < |bytes| <= 2048 && at + |bytes| <= |output| && bytes == output[at..at + |bytes|]
            case EndOfFile => at == |output|
            case ReadError => true)
  {
    hide ReadLength;
    var more := events + [e];
    assert more[|events|] == e && more[..|events|] == events;
    assert forall i :: 0 <= i < |events| ==> more[i] == events[i] && more[..i] == events[..i];
  }

  /** A hang-up reported together with pending input loses that input. */
  lemma HangUpLosesPendingInput(fd: Fd, output: string)
    requires output != ""
    ensures var events := [Event(fd, true, true, EndOfFile)];
      Delivers(events, output) && Ends(events[0]) && Collected(events) == "" != output
  {
    OneMoreEvent([], Event(fd, true, true, EndOfFile));
    assert [] + [Event(fd, true, true, EndOfFile)] == [Event(fd, true, true, EndOfFile)];
  }

  /** Exactly when a finished command's output has been collected as a whole: when
      it had all been read as the event arrived that ended it. A read that reaches
      the end never comes too early; a hang-up or a failing read may. */
  lemma CompleteExactly(before: seq<Event>, last: Event, output: string)
    requires Delivers(before + [last], output) && Ends(last)
    ensures ReadLength(before) <= |output|
    ensures Collected(before + [last]) == Collected(before) == output[..ReadLength(before)]
    ensures Collected(before + [last]) == output <==> ReadLength(before) == |output|
    ensures !last.failed && last.read.EndOfFile? ==> ReadLength(before) == |output|
  {
    hide Collected, ReadLength, Delivers;
    DeliversOneMore(before, last, output);
    CollectsOwnOutput(before, output);
    OneMoreEvent(before, last);
  }

  /** The bookkeeping of one descriptor. While it runs, it has its own output so
      far in the table and has sent nothing; once finished, it has sent exactly
      one message, all it collected, and has no entry. */
  ghost predicate Accounted(own: seq<Event>, running: bool, entry: string, sent: seq<string>) {
    if running then
      sent == [] && (forall i :: 0 <= i < |own| ==> !Ends(own[i])) && entry == Collected(own)
    else if own == [] then
      sent == [] && entry == ""
    else
      && Ends(own[|own| - 1]) && (forall i :: 0 <= i < |own| - 1 ==> !Ends(own[i]))
      && sent == [Collected(own)] && entry == ""
  }

  lemma AccountsForOneMore(own: seq<Event>, entry: string, sent: seq<string>, e: Event)
    requires Accounted(own, true, entry, sent)
    ensures Ends(e) ==> Accounted(own + [e], false, "", sent + [entry])
    ensures !Ends(e) ==> Accounted(own + [e], true, entry + Brings(e), sent)
  {
    assert (own + [e])[..|own|] == own;
    if Ends(e) { assert Collected(own) + "" == Collected(own); }
  }

  lemma OwnAppend(events: seq<Event>, e: Event, fd: Fd)
    ensures Own([], fd) == []
    ensures Own(events + [e], fd) == Own(events, fd) + (if e.fd == fd then [e] else [])
  {
    assert (events + [e])[..|events|] == events;
  }

  lemma SentAppend(sent: seq<Message>, m: Message, fd: Fd)
    ensures SentFor([], fd) == []
    ensures SentFor(sent + [m], fd) == SentFor(sent, fd) + (if m.fd == fd then [m.text] else [])
  {
    assert (sent + [m])[..|sent|] == sent;
  }

  function EntryOf(table: map<Fd, string>, fd: Fd): string {
    if fd in table then table[fd] else ""
  }

  class CommandExecuter {
    var m_command_out: map<Fd, string>
    var watched: set<Fd>        // descriptors with a live watch on the main loop
    var sent: seq<Message>
    ghost var past: seq<Event>  // the events so far

    ghost predicate Valid() reads this {
      m_command_out.Keys <= watched && forall fd :: AccountedFor(fd)
    }

    ghost predicate AccountedFor(fd: Fd) reads this {
      Accounted(Own(past, fd), fd in watched, EntryOf(m_command_out, fd), SentFor(sent, fd))
    }

    constructor ()
      ensures Valid() && past == [] && watched == {} && sent == []
    {
      m_command_out, watched, sent, past := map[], {}, [], [];
    }

    /** The registration of a new command. Its descriptor was never used before:
        descriptors are not closed. */
    method Watch(fd: Fd)
      requires Valid() && fd !in watched && Own(past, fd) == []
      modifies `watched
      ensures Valid() && watched == old(watched) + {fd}
    {
      watched := watched + {fd};
      forall g ensures AccountedFor(g) { assert old(AccountedFor(g)); }
    }

    method OnOut(failed: bool, input: bool, fd: Fd, read: ReadResult) returns (again: bool)
      modifies `m_command_out, `sent
      ensures var e := Event(fd, failed, input, read);
        && again == !Ends(e)
        && sent == (if Ends(e) then old(sent) + [Message(fd, EntryOf(old(m_command_out), fd))] else old(sent))
        && m_command_out - {fd} == old(m_command_out) - {fd}
        && (fd in m_command_out <==> !Ends(e) && (fd in old(m_command_out) || (input && read.Data?)))
        && (!Ends(e) ==> EntryOf(m_command_out, fd) == EntryOf(old(m_command_out), fd) + Brings(e))
      ensures var entry := if fd in old(m_command_out) then old(m_command_out)[fd] else "";
        if failed || (input && !read.Data?) then
          !again && sent == old(sent) + [Message(fd, entry)] && m_command_out == old(m_command_out) - {fd}
        else
          && again && sent == old(sent)
          && m_command_out == if input then old(m_command_out)[fd := entry + read.bytes] else old(m_command_out)
    {
      var done := failed;
      if !done && input {
        match read {
          case Data(bytes) => m_command_out := m_command_out[fd := EntryOf(m_command_out, fd) + bytes];
          case _ => done := true;
        }
      }
      if done {
        sent := sent + [Message(fd, EntryOf(m_command_out, fd))];
        m_command_out := m_command_out - {fd};
        return false;
      }
      return true;
    }

    /** The main loop wakes up a live watch, and drops it if it is done. */
    method Dispatch(e: Event)
      requires Valid() && e.fd in watched
      modifies this
      ensures Valid() && past == old(past) + [e]
      ensures watched == if Ends(e) then old(watched) - {e.fd} else old(watched)
      ensures if e.failed || (e.input && !e.read.Data?) then
                && watched == old(watched) - {e.fd} && m_command_out == old(m_command_out) - {e.fd}
                && sent == old(sent) + [Message(e.fd, EntryOf(old(m_command_out), e.fd))]
              else watched == old(watched) && sent == old(sent)
    {
      hide Accounted, Own, SentFor;
      var again := OnOut(e.failed, e.input, e.fd, e.read);
      if !again {
        watched := watched - {e.fd};
      }
      past := past + [e];
      assert e == Event(e.fd, e.failed, e.input, e.read);
      assert forall fd :: fd in m_command_out && fd != e.fd ==> fd in m_command_out - {e.fd};
      assert m_command_out.Keys <= watched;
      forall fd ensures AccountedFor(fd) {
        assert old(AccountedFor(fd));
        OwnAppend(old(past), e, fd);
        if fd == e.fd {
          AccountsForOneMore(Own(old(past), fd), EntryOf(old(m_command_out), fd), SentFor(old(sent), fd), e);
          SentAppend(old(sent), Message(fd, EntryOf(old(m_command_out), fd)), fd);
        } else {
          assert Own(past, fd) == Own(old(past), fd);
          assert EntryOf(old(m_command_out) - {e.fd}, fd) == EntryOf(old(m_command_out), fd);
          assert EntryOf(m_command_out - {e.fd}, fd) == EntryOf(m_command_out, fd);
          SentAppend(old(sent), Message(e.fd, EntryOf(old(m_command_out), e.fd)), fd);
          assert SentFor(sent, fd) == SentFor(old(sent), fd);
        }
      }
    }

    /** Over every interleaving of wake-ups: a command whose descriptor delivers
        `output` has so far in the table just what has been read of it. Once it has
        finished it has sent one message, what had been read of its own output,
        and that is the whole of it exactly when all had been read as the event
        arrived that ended it, as is the case if a read reached the end. */
    lemma OneMessagePerCommand(fd: Fd, output: string)
      requires Valid() && Delivers(Own(past, fd), output)
      ensures ReadLength(Own(past, fd)) <= |output|
      ensures fd in watched ==>
        SentFor(sent, fd) == [] && EntryOf(m_command_out, fd) == output[..ReadLength(Own(past, fd))]
      ensures fd !in watched ==> fd !in m_command_out
      ensures fd !in watched && Own(past, fd) != [] ==>
        && var own := Own(past, fd); var before, last := own[..|own| - 1], own[|own| - 1];
        && ReadLength(before) <= |output|
        && SentFor(sent, fd) == [output[..ReadLength(before)]]
        && (SentFor(sent, fd)[0] == output <==> ReadLength(before) == |output|)
        && (!last.failed && last.read.EndOfFile? ==> SentFor(sent, fd)[0] == output)
    {
      assert AccountedFor(fd);
      var own := Own(past, fd);
      CollectsOwnOutput(own, output);
      if fd !in watched && own != [] {
        var before, last := own[..|own| - 1], own[|own| - 1];
        assert own == before + [last];
        CompleteExactly(before, last, output);
      }
    }

    /** The books, in plain terms: a watched descriptor has sent nothing, and one
        that is not watched has no entry and has sent one message if it ever was. */
    lemma ValidIs(fd: Fd)
      requires Valid()
      ensures fd in watched ==>
        && SentFor(sent, fd) == [] && EntryOf(m_command_out, fd) == Collected(Own(past, fd))
        && forall i :: 0 <= i < |Own(past, fd)| ==> !Ends(Own(past, fd)[i])
      ensures fd !in watched ==> fd !in m_command_out
      ensures fd !in watched && Own(past, fd) != [] ==> SentFor(sent, fd) == [Collected(Own(past, fd))]
    {
      assert AccountedFor(fd);
    }
  }
}
