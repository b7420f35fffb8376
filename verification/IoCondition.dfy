/** The two condition masks of src/gselector.cpp and the conversions between
    them: net6's interest flags and the poll conditions of the main loop. A mask
    is a record with one field for each of its bits. */
module IoCondition {

  datatype NetCond = NetCond(incoming: bool, outgoing: bool, error: bool, timeout: bool) {
    function And(other: NetCond): NetCond {
      NetCond(incoming && other.incoming, outgoing && other.outgoing, error && other.error, timeout && other.timeout)
    }

    predicate HasIo() { incoming || outgoing || error }
  }

  datatype PollCond = PollCond(inp: bool, pri: bool, out: bool, err: bool, hup: bool, nval: bool) {
    function And(other: PollCond): PollCond {
      PollCond(inp && other.inp, pri && other.pri, out && other.out,
               err && other.err, hup && other.hup, nval && other.nval)
    }
  }

  const IO_NONE := NetCond(false, false, false, false)
  const IO_INCOMING := NetCond(true, false, false, false)
  const IO_TIMEOUT := NetCond(false, false, false, true)
  const IO_FLAGS := NetCond(true, true, true, false)

  const G_NONE := PollCond(false, false, false, false, false, false)
  /** The bits some net6 flag stands for: all but urgent data. */
  const G_KNOWN := PollCond(true, false, true, true, true, true)

  function GCond(cond: NetCond): PollCond {
    PollCond(cond.incoming, false, cond.outgoing, cond.error, cond.error, cond.error)
  }

  function NCond(cond: PollCond): NetCond {
    NetCond(cond.inp, cond.out, cond.hup || cond.nval || cond.err, false)
  }

  /** Bit by bit: what an interest asks the main loop for, when a report meets it,
      and what a report tells the socket. Urgent data is never asked for. */
  lemma BitByBit(p: PollCond, interest: NetCond)
    ensures var mask := GCond(interest);
      && (mask.inp <==> interest.incoming) && (mask.out <==> interest.outgoing) && !mask.pri
      && (mask.err <==> interest.error) && (mask.hup <==> interest.error) && (mask.nval <==> interest.error)
    ensures GCond(interest).And(p) != G_NONE <==>
      || (interest.incoming && p.inp) || (interest.outgoing && p.out)
      || (interest.error && (p.err || p.hup || p.nval))
    ensures var told := NCond(p);
      && (told.incoming <==> p.inp) && (told.outgoing <==> p.out) && !told.timeout
      && (told.error <==> p.err || p.hup || p.nval)
    ensures interest.HasIo() <==> interest.And(IO_FLAGS) != IO_NONE
    ensures interest.HasIo() <==> interest.incoming || interest.outgoing || interest.error
    ensures interest.And(IO_TIMEOUT) != IO_NONE <==> interest.timeout
    ensures interest == IO_NONE <==>
      !interest.incoming && !interest.outgoing && !interest.error && !interest.timeout
  {
  }

  /** The guard of `on_io` and what it emits fit together: the reported poll
      condition meets the mask of an interest exactly when the emitted
      condition meets the interest itself. */
  lemma MeetsMaskIffMeetsInterest(p: PollCond, interest: NetCond)
    ensures GCond(interest).And(p) != G_NONE <==> NCond(p).And(interest) != IO_NONE
  {
  }

  /** The conversions form a Galois connection: the reported poll bits stay
      inside the mask of an interest exactly when the emitted condition stays
      inside the interest. Going there and back loses only the timeout flag. */
  lemma Galois(p: PollCond, interest: NetCond)
    ensures GCond(interest).And(p) == G_KNOWN.And(p) <==> interest.And(NCond(p)) == NCond(p)
    ensures NCond(GCond(interest)) == interest.And(IO_FLAGS)
  {
  }
}
