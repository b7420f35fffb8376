/** The clock arithmetic of `GSelector::get_timeout` (src/gselector.cpp:177-194). */
module Timing {

  const SECOND := 1_000_000
  const UINT_SIZE := 0x1_0000_0000
  const ULONG_SIZE := 0x1_0000_0000_0000_0000

  /** Microseconds since the epoch, as far as a signed 64-bit count reaches. */
  type Micros = t: int | 0 <= t < 0x8000_0000_0000_0000
  type ULong = n: int | 0 <= n < ULONG_SIZE

  /** A normalised `Glib::TimeVal`. */
  datatype TimeVal = TimeVal(sec: int, usec: int) {
    predicate Normal() { 0 <= usec < SECOND }
    function Total(): int { sec * SECOND + usec }

    function Minus(other: TimeVal): TimeVal {
      if usec < other.usec then TimeVal(sec - 1 - other.sec, usec + SECOND - other.usec)
      else TimeVal(sec - other.sec, usec - other.usec)
    }
  }

  /** A time value read off the clock. */
  type Stamp = v: TimeVal | v.Normal() && 0 <= v.Total() < 0x8000_0000_0000_0000 witness TimeVal(0, 0)

  function Now(t: Micros): (v: Stamp)
    ensures v.Total() == t
  {
    TimeVal(t / SECOND, t % SECOND)
  }

  /** `unsigned long elapsed = val.tv_sec * 1000 + val.tv_usec / 1000`, with the
      wrap of the conversion to `unsigned long`. */
  function ElapsedMillis(val: TimeVal): ULong {
    (val.sec * 1000 + val.usec / 1000) % ULONG_SIZE
  }

  /** What `get_timeout` answers for an armed socket. */
  function Answer(now: TimeVal, begin: TimeVal, timeout: ULong): ULong {
    var elapsed := ElapsedMillis(now.Minus(begin));
    if elapsed >= timeout then 1 else timeout - elapsed
  }

  /** One arming of a one-shot timer, by the clock reading and the delay in
      milliseconds that `set_timeout` stores. The main loop takes the delay as an
      `unsigned int`, so what it is due is not always what was asked for. */
  datatype Arming = Arming(begin: Micros, timeout: ULong) {
    function Deadline(): int { begin + 1000 * timeout }
    function Due(): int { begin + 1000 * (timeout % UINT_SIZE) }
  }

  /** The timer is due at its deadline exactly for delays that fit, and too early
      for all others. */
  lemma DueAtDeadlineExactly(a: Arming)
    ensures a.Due() == a.Deadline() <==> a.timeout < 0x1_0000_0000
    ensures a.begin <= a.Due() <= a.Deadline() && a.Due() < a.begin + 1000 * 0x1_0000_0000
    ensures (a.Deadline() - a.Due()) % (1000 * 0x1_0000_0000) == 0
  {
    assert a.timeout == UINT_SIZE * (a.timeout / UINT_SIZE) + a.timeout % UINT_SIZE;
    assert a.Deadline() - a.Due() == (1000 * UINT_SIZE) * (a.timeout / UINT_SIZE);
  }

  /** The answer with the arithmetic on split seconds taken away. A clock set
      back makes the subtraction wrap, which reads as "expired". */
  lemma AnswerIsRemaining(now: Micros, begin: Micros, timeout: ULong)
    ensures begin <= now ==>
      Answer(Now(now), Now(begin), timeout) ==
      if timeout - (now - begin) / 1000 > 1 then timeout - (now - begin) / 1000 else 1
    ensures now < begin && timeout <= 0x8000_0000_0000_0000 ==> Answer(Now(now), Now(begin), timeout) == 1
  {
    var val := Now(now).Minus(Now(begin));
    assert val.Total() == now - begin && val.Normal();
    assert val.sec * 1000 + val.usec / 1000 == (now - begin) / 1000;
  }

  lemma AnswerNeverIncreases(begin: Micros, timeout: ULong, earlier: Micros, later: Micros)
    requires begin <= earlier <= later
    ensures 1 <= Answer(Now(later), Now(begin), timeout) <= Answer(Now(earlier), Now(begin), timeout)
  {
    AnswerIsRemaining(earlier, begin, timeout);
    AnswerIsRemaining(later, begin, timeout);
  }

  /** Re-arming a socket at some instant with the answer of `get_timeout` at
      that same instant. */
  function Rearm(a: Arming, at: Micros): Arming {
    Arming(at, Answer(Now(at), Now(a.begin), a.timeout))
  }

  lemma RearmMovesDeadlineByRemainder(a: Arming, at: Micros)
    requires a.begin <= at < a.Deadline()
    ensures Rearm(a, at).Deadline() == a.Deadline() + (at - a.begin) % 1000
  {
    AnswerIsRemaining(at, a.begin, a.timeout);
  }

  lemma RearmedBegins(a: Arming, at: Micros)
    ensures Rearm(a, at).begin == at
  {
  }

  function Rearms(a: Arming, instants: seq<Micros>): Arming
    decreases |instants|
  {
    if instants == [] then a else Rearms(Rearm(a, instants[0]), instants[1..])
  }

  /** Every re-arming happens while the timer of the previous one is pending. */
  ghost predicate Pending(a: Arming, instants: seq<Micros>)
    decreases |instants|
  {
    instants != [] ==>
      a.begin <= instants[0] < a.Deadline() && Pending(Rearm(a, instants[0]), instants[1..])
  }

  lemma {:induction false} RearmsDriftForward(a: Arming, instants: seq<Micros>)
    requires Pending(a, instants)
    ensures a.Deadline() <= Rearms(a, instants).Deadline() <= a.Deadline() + 999 * |instants|
    decreases |instants|
  {
    if instants != [] {
      RearmMovesDeadlineByRemainder(a, instants[0]);
      RearmsDriftForward(Rearm(a, instants[0]), instants[1..]);
    }
  }

  /** The bound is reached: re-arming 999 microseconds after each arming moves
      the deadline by the full 999 microseconds every time. */
  lemma {:induction false} DriftBoundIsTight(a: Arming, instants: seq<Micros>)
    requires a.timeout >= 1
    requires forall i :: 0 <= i < |instants| ==> instants[i] == a.begin + 999 * (i + 1)
    ensures Pending(a, instants) && Rearms(a, instants).Deadline() == a.Deadline() + 999 * |instants|
    decreases |instants|
  {
    hide Rearm;
    if instants != [] {
      var b, rest := Rearm(a, instants[0]), instants[1..];
      RearmedBegins(a, instants[0]);
      RearmMovesDeadlineByRemainder(a, instants[0]);
      assert b.Deadline() == a.Deadline() + 999 && b.timeout == a.timeout;
      forall i | 0 <= i < |rest| ensures rest[i] == b.begin + 999 * (i + 1) {
        assert rest[i] == instants[i + 1];
      }
      DriftBoundIsTight(b, rest);
    }
  }
}
