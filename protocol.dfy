/**
 * The protocol of static/inner.js as seen by one participant: role
 * negotiation (`isSender`), the pulse loop that modulates the number of held
 * sockets (`sendInteger`), and the probing loop that reads it back
 * (`receiveInteger`).
 *
 * The other tab is not modelled. Its effect reaches this participant only
 * through which new sockets come up dead, so every `consume` takes the set of
 * dead handles as a parameter. Sleeping is replaced by returning the instants
 * the loops would sleep until.
 */
module Protocol {

  import opened Arith
  import opened Codec
  import opened Clock
  import opened Pool

  // ---------------------------------------------------------------------
  // Role negotiation
  // ---------------------------------------------------------------------

  datatype Negotiation = Negotiation(after: State, sender: bool)

  /**
   * `isSender`: release every held socket, consume `maxSlots`, and become the
   * sender when at least half of `maxSlots` came up live (`size < maxSlots / 2`
   * makes a receiver, so a tie goes to the sender); a receiver releases
   * everything again.
   */
  function Negotiate(st: State, maxSlots: nat, dead: set<Handle>): Negotiation
  {
    var drained := Released(st, |st.sockets|).after;
    var filled := Consumed(drained, maxSlots, dead).after;
    if 2 * |filled.sockets| < maxSlots then Negotiation(Released(filled, |filled.sockets|).after, false)
    else Negotiation(filled, true)
  }

  /** The first step of `isSender` always empties the pool, whatever it held. */
  lemma NegotiationDrainsFirst(st: State)
    requires WellFormed(st)
    ensures Released(st, |st.sockets|).after.sockets == []
    ensures WellFormed(Released(st, |st.sockets|).after)
  {
    ReleaseSpec(st, |st.sockets|);
  }

  /**
   * The outcome of `isSender`: a receiver holds nothing; a sender holds at
   * least half of `maxSlots` and never more than `maxSlots`, all of them new.
   */
  lemma NegotiationOutcome(st: State, maxSlots: nat, dead: set<Handle>)
    requires WellFormed(st)
    ensures WellFormed(Negotiate(st, maxSlots, dead).after)
    ensures !Negotiate(st, maxSlots, dead).sender ==> Negotiate(st, maxSlots, dead).after.sockets == []
    ensures Negotiate(st, maxSlots, dead).sender ==>
              maxSlots <= 2 * |Negotiate(st, maxSlots, dead).after.sockets| &&
              |Negotiate(st, maxSlots, dead).after.sockets| <= maxSlots
    ensures forall h :: h in Negotiate(st, maxSlots, dead).after.sockets ==> h !in st.sockets
  {
    var drained := Released(st, |st.sockets|).after;
    NegotiationDrainsFirst(st);
    var filled := Consumed(drained, maxSlots, dead).after;
    ConsumedWellFormed(drained, maxSlots, dead);
    ConsumeKeepsLive(drained, maxSlots, dead);
    ReleaseSpec(filled, |filled.sockets|);
    assert drained.next == st.next;
  }

  /**
   * Negotiation under no competition: when none of the new sockets dies
   * (no other tab holds slots), the participant holds exactly `maxSlots`
   * sockets and becomes the sender.
   */
  lemma SoleParticipantSends(st: State, maxSlots: nat, dead: set<Handle>)
    requires WellFormed(st)
    requires forall h :: h in dead ==> h < st.next || st.next + maxSlots <= h
    ensures Negotiate(st, maxSlots, dead).sender
    ensures |Negotiate(st, maxSlots, dead).after.sockets| == maxSlots
  {
    var drained := Released(st, |st.sockets|).after;
    NegotiationDrainsFirst(st);
    ReleaseSpec(st, |st.sockets|);
    FreshMembers(st.next, maxSlots);
    assert drained.sockets + Fresh(drained.next, maxSlots) == Fresh(st.next, maxSlots);
    LiveNoneDead(Fresh(st.next, maxSlots), dead);
  }

  /**
   * Negotiation against a full cap: when every new socket dies (another tab
   * already holds all slots), the participant becomes a receiver.
   */
  lemma SaturatedCapReceives(st: State, maxSlots: nat, dead: set<Handle>)
    requires WellFormed(st) && maxSlots > 0
    requires forall h :: st.next <= h < st.next + maxSlots ==> h in dead
    ensures !Negotiate(st, maxSlots, dead).sender
    ensures Negotiate(st, maxSlots, dead).after.sockets == []
  {
    var drained := Released(st, |st.sockets|).after;
    NegotiationDrainsFirst(st);
    ReleaseSpec(st, |st.sockets|);
    FreshMembers(st.next, maxSlots);
    assert drained.sockets + Fresh(drained.next, maxSlots) == Fresh(st.next, maxSlots);
    LiveAllDead(Fresh(st.next, maxSlots), dead);
    NegotiationOutcome(st, maxSlots, dead);
  }

  /** `isSender` on a pool object. */
  method IsSender(pool: SocketPool, dead: set<Handle>) returns (sender: bool)
    requires pool.Valid()
    modifies pool
    ensures pool.Valid()
    ensures Negotiation(pool.Snapshot(), sender) == Negotiate(old(pool.Snapshot()), pool.config.maxSlots, dead)
    ensures !sender ==> pool.sockets == []
    ensures sender ==> pool.config.maxSlots <= 2 * |pool.sockets| <= 2 * pool.config.maxSlots
  {
    ghost var st := pool.Snapshot();
    var released := pool.Release(|pool.sockets|);
    var consumed := pool.Consume(pool.config.maxSlots, dead);
    if 2 * |pool.sockets| < pool.config.maxSlots {
      released := pool.Release(|pool.sockets|);
      sender := false;
    } else {
      sender := true;
    }
    NegotiationOutcome(st, pool.config.maxSlots, dead);
  }

  // ---------------------------------------------------------------------
  // Sending
  // ---------------------------------------------------------------------

  /** What the non-Firefox branch of `sendInteger` does at the start of a pulse. */
  datatype Action = ReleaseSlots(n: nat) | ConsumeSlots(n: nat)

  /** Reach `integer` free slots from `lastInteger`: release `delta` if positive, else consume `-delta`. */
  function PulseAction(lastInteger: int, integer: int): Action
  {
    var delta := integer - lastInteger;
    if delta > 0 then ReleaseSlots(delta) else ConsumeSlots(-delta)
  }

  /** Slots an action frees (negative when it takes slots). */
  function NetReleased(a: Action): int
  {
    match a
    case ReleaseSlots(n) => n
    case ConsumeSlots(n) => -(n as int)
  }

  /** The value of `lastInteger` when pulse `i` begins. */
  function LastInteger(list: seq<int>, i: nat): int
    requires i <= |list|
  {
    if i == 0 then 0 else 1 + list[i - 1]
  }

  /** The slots freed by the first `n` pulses together. */
  function TotalReleased(list: seq<int>, n: nat): int
    requires n <= |list|
  {
    if n == 0 then 0
    else TotalReleased(list, n - 1) + NetReleased(PulseAction(LastInteger(list, n - 1), 1 + list[n - 1]))
  }

  /** Each pulse frees exactly the difference between the new and the previous target. */
  lemma PulseActionFreesDifference(lastInteger: int, integer: int)
    ensures NetReleased(PulseAction(lastInteger, integer)) == integer - lastInteger
    ensures PulseAction(lastInteger, integer).ReleaseSlots? <==> integer > lastInteger
  {
  }

  /**
   * The pulses telescope: after pulse `n - 1` the slots freed since the first
   * pulse add up to `1 + list[n - 1]`, so even a digit 0 leaves one slot free.
   */
  lemma {:induction false} DeltaTelescopes(list: seq<int>, n: nat)
    requires n <= |list|
    ensures TotalReleased(list, n) == LastInteger(list, n)
    ensures n > 0 && list[n - 1] >= 0 ==> TotalReleased(list, n) >= 1
  {
    if n > 0 {
      DeltaTelescopes(list, n - 1);
      PulseActionFreesDifference(LastInteger(list, n - 1), 1 + list[n - 1]);
    }
  }

  /** One pulse of `sendInteger` (the Firefox branch consumes `lastInteger + 5`, then releases `integer`). */
  function Pulse(st: State, lastInteger: int, integer: int, firefox: bool, dead: set<Handle>): State
  {
    if firefox then Released(Consumed(st, lastInteger + 5, dead).after, integer).after
    else
      match PulseAction(lastInteger, integer)
      case ReleaseSlots(n) => Released(st, n).after
      case ConsumeSlots(n) => Consumed(st, n, dead).after
  }

  /** The pool after the first `n` pulses for the digits `list`. */
  function SentPulses(st: State, list: seq<int>, n: nat, firefox: bool, deads: seq<set<Handle>>): State
    requires n <= |list| && n <= |deads|
  {
    if n == 0 then st
    else Pulse(SentPulses(st, list, n - 1, firefox, deads), LastInteger(list, n - 1), 1 + list[n - 1], firefox, deads[n - 1])
  }

  /** Every pulse, in either branch, keeps the pool well formed. */
  lemma PulseWellFormed(st: State, lastInteger: int, integer: int, firefox: bool, dead: set<Handle>)
    requires WellFormed(st)
    ensures WellFormed(Pulse(st, lastInteger, integer, firefox, dead))
    ensures Pulse(st, lastInteger, integer, firefox, dead).next >= st.next
  {
    ConsumedWellFormed(st, lastInteger + 5, dead);
    ConsumeKeepsLive(st, lastInteger + 5, dead);
    ReleaseSpec(Consumed(st, lastInteger + 5, dead).after, integer);
    match PulseAction(lastInteger, integer)
    case ReleaseSlots(k) => ReleaseSpec(st, k);
    case ConsumeSlots(k) => ConsumedWellFormed(st, k, dead); ConsumeKeepsLive(st, k, dead);
  }

  /**
   * One pulse of the non-Firefox branch with no socket dying moves the pool
   * size by exactly the difference of the targets, provided the pool holds
   * enough sockets to release.
   */
  lemma PulseOccupancy(st: State, lastInteger: int, integer: int)
    requires WellFormed(st)
    requires integer - lastInteger <= |st.sockets|
    ensures |Pulse(st, lastInteger, integer, false, {}).sockets| == |st.sockets| - (integer - lastInteger)
  {
    match PulseAction(lastInteger, integer)
    case ReleaseSlots(k) =>
      ReleaseSpec(st, k);
    case ConsumeSlots(k) =>
      ConsumeKeepsLive(st, k, {});
      LiveNoneDead(st.sockets, {});
      LiveNoneDead(Fresh(st.next, k), {});
  }

  lemma {:induction false} SentPulsesWellFormed(st: State, list: seq<int>, n: nat, firefox: bool, deads: seq<set<Handle>>)
    requires WellFormed(st) && n <= |list| && n <= |deads|
    ensures WellFormed(SentPulses(st, list, n, firefox, deads))
  {
    if n > 0 {
      SentPulsesWellFormed(st, list, n - 1, firefox, deads);
      PulseWellFormed(SentPulses(st, list, n - 1, firefox, deads), LastInteger(list, n - 1), 1 + list[n - 1], firefox, deads[n - 1]);
    }
  }

  /**
   * The sender's occupancy (non-Firefox branch): if no socket dies while
   * sending and the pool starts with at least `1 + list[j]` sockets for every
   * digit, then after pulse `n - 1` it holds exactly `1 + list[n - 1]` fewer
   * sockets than it started with.
   */
  lemma {:induction false} SenderFreesTarget(st: State, list: seq<int>, n: nat, deads: seq<set<Handle>>)
    requires WellFormed(st) && n <= |list| && n <= |deads|
    requires forall j :: 0 <= j < n ==> 0 <= list[j] && 1 + list[j] <= |st.sockets|
    requires forall j :: 0 <= j < n ==> deads[j] == {}
    ensures |SentPulses(st, list, n, false, deads).sockets| == |st.sockets| - LastInteger(list, n)
  {
    if n > 0 {
      var prev := SentPulses(st, list, n - 1, false, deads);
      SenderFreesTarget(st, list, n - 1, deads);
      SentPulsesWellFormed(st, list, n - 1, false, deads);
      assert LastInteger(list, n - 1) >= 0;
      PulseOccupancy(prev, LastInteger(list, n - 1), 1 + list[n - 1]);
    }
  }

  /** One pulse of `sendInteger` on a pool object. */
  method SendPulse(pool: SocketPool, lastInteger: int, integer: int, firefox: bool, dead: set<Handle>)
    requires pool.Valid()
    modifies pool
    ensures pool.Valid()
    ensures pool.Snapshot() == Pulse(old(pool.Snapshot()), lastInteger, integer, firefox, dead)
  {
    ghost var st := pool.Snapshot();
    if firefox {
      var consumed := pool.Consume(lastInteger + 5, dead);
      var released := pool.Release(integer);
    } else {
      var delta := integer - lastInteger;
      if delta > 0 {
        var released := pool.Release(delta);
      } else {
        var consumed := pool.Consume(-delta, dead);
      }
    }
  }

  /**
   * `sendInteger`: split the integer into digits, fill the pool up to
   * `maxSlots`, then at each pulse boundary move to `1 + digit` free slots.
   * Returns the hexadecimal rendering of the integer and the instants the
   * loop sleeps until.
   */
  method SendInteger(pool: SocketPool, bigInteger: int, startTime: int, firefox: bool,
                     fillDead: set<Handle>, deads: seq<set<Handle>>)
    returns (hex: string, wakeups: seq<int>)
    requires pool.Valid()
    requires pool.config.maxValue > 0
    requires |deads| >= pool.config.listSize
    modifies pool
    ensures pool.Valid()
    ensures hex == BigIntegerToHex(bigInteger, NumBits(pool.config))
    ensures |wakeups| == pool.config.listSize
    ensures forall i :: 0 <= i < |wakeups| ==> wakeups[i] == SendBoundary(startTime, i, pool.config.pulseMs)
    ensures var filled := Consumed(old(pool.Snapshot()), pool.config.maxSlots - |old(pool.sockets)|, fillDead).after;
            var list := Digits(bigInteger, pool.config.listSize, pool.config.maxValue);
            pool.Snapshot() == SentPulses(filled, list, pool.config.listSize, firefox, deads)
  {
    var cfg := pool.config;
    var list := BigIntegerToList(bigInteger, cfg.listSize, cfg.maxValue);
    var consumed := pool.Consume(cfg.maxSlots - |pool.sockets|, fillDead);
    ghost var filled := pool.Snapshot();
    var lastInteger := 0;
    wakeups := [];
    for i := 0 to cfg.listSize
      invariant pool.Valid()
      invariant lastInteger == LastInteger(list, i)
      invariant pool.Snapshot() == SentPulses(filled, list, i, firefox, deads)
      invariant |wakeups| == i
      invariant forall j :: 0 <= j < i ==> wakeups[j] == SendBoundary(startTime, j, cfg.pulseMs)
    {
      wakeups := wakeups + [SendBoundary(startTime, i, cfg.pulseMs)];
      var integer := 1 + list[i];
      SendPulse(pool, lastInteger, integer, firefox, deads[i]);
      lastInteger := integer;
    }
    hex := BigIntegerToHex(bigInteger, NumBits(cfg));
  }

  // ---------------------------------------------------------------------
  // Receiving
  // ---------------------------------------------------------------------

  datatype Reception = Reception(after: State, counts: seq<int>)

  /** The pool and the probe counts after the first `n` probes of `receiveInteger`. */
  function Received(st: State, maxValue: int, deads: seq<set<Handle>>, n: nat): (r: Reception)
    requires n <= |deads|
    ensures |r.counts| == n
  {
    if n == 0 then Reception(st, [])
    else
      var r := Received(st, maxValue, deads, n - 1);
      var p := Probed(r.after, maxValue, deads[n - 1]);
      Reception(p.after, r.counts + [p.count])
  }

  /** The digits `receiveInteger` pushes: each probe count minus one, unchecked. */
  function CountsToDigits(counts: seq<int>): (ds: seq<int>)
    ensures |ds| == |counts|
    ensures forall i :: 0 <= i < |counts| ==> ds[i] == counts[i] - 1
  {
    if counts == [] then [] else [counts[0] - 1] + CountsToDigits(counts[1..])
  }

  /** The decode of `receiveInteger`: digits from counts, recombined, rendered in hexadecimal. */
  function DecodeCounts(counts: seq<int>, listSize: nat, maxValue: int, numBits: nat): string
    requires listSize <= |counts|
  {
    BigIntegerToHex(Value(CountsToDigits(counts)[..listSize], maxValue), numBits)
  }

  /**
   * The decode inverts the sender's encoding: when every probe count is one
   * more than the sender's digit, the receiver renders the same hexadecimal
   * string as the sender, for every integer the digits can carry.
   */
  lemma DecodeMatchesSend(counts: seq<int>, v: int, listSize: nat, maxValue: int, numBits: nat)
    requires maxValue > 0 && 0 <= v < Pow(maxValue, listSize)
    requires |counts| == listSize
    requires forall i :: 0 <= i < listSize ==> counts[i] == 1 + Digits(v, listSize, maxValue)[i]
    ensures DecodeCounts(counts, listSize, maxValue, numBits) == BigIntegerToHex(v, numBits)
  {
    RoundTrip(v, listSize, maxValue);
    assert CountsToDigits(counts)[..listSize] == Digits(v, listSize, maxValue);
  }

  /** Digits whose values are all `d`. */
  function Repeat(d: int, n: nat): (ds: seq<int>)
    ensures |ds| == n && forall i :: 0 <= i < n ==> ds[i] == d
  {
    if n == 0 then [] else [d] + Repeat(d, n - 1)
  }

  lemma {:induction false} ValueOfAllTop(radix: int, n: nat)
    ensures Value(Repeat(radix - 1, n), radix) == Pow(radix, n) - 1
  {
    if n > 0 {
      ValueOfAllTop(radix, n - 1);
      assert Repeat(radix - 1, n)[1..] == Repeat(radix - 1, n - 1);
      MulDistrib(radix, Pow(radix, n - 1), -1);
    }
  }

  /**
   * With no sender active every probe gets all `maxValue` slots, and the
   * receiver decodes `maxValue^listSize - 1` (for the browsers' constants,
   * `7ffffffff`): an idle channel reads as a well-formed value, not as
   * "no signal".
   */
  lemma IdleChannelReadsTopValue(counts: seq<int>, listSize: nat, maxValue: int, numBits: nat)
    requires |counts| == listSize
    requires forall i :: 0 <= i < listSize ==> counts[i] == maxValue
    ensures DecodeCounts(counts, listSize, maxValue, numBits) == BigIntegerToHex(Pow(maxValue, listSize) - 1, numBits)
  {
    assert CountsToDigits(counts)[..listSize] == Repeat(maxValue - 1, listSize);
    ValueOfAllTop(maxValue, listSize);
  }

  lemma {:induction false} ValueOfZeros(radix: int, n: nat)
    ensures Value(Repeat(0, n), radix) == 0
  {
    if n > 0 {
      ValueOfZeros(radix, n - 1);
      assert Repeat(0, n)[1..] == Repeat(0, n - 1);
    }
  }

  /**
   * A probe count of 0 is not rejected: a first probe that finds no free slot
   * followed by probes that each find one decodes to -1, whose rendering is
   * one character shorter than the fixed width.
   */
  lemma EmptyFirstProbeGivesShortHex(counts: seq<int>, listSize: nat, maxValue: int, numBits: nat)
    requires listSize >= 1 && |counts| == listSize
    requires counts[0] == 0 && forall i :: 1 <= i < listSize ==> counts[i] == 1
    requires HexWidth(numBits) >= 1
    ensures Value(CountsToDigits(counts), maxValue) == -1
    ensures |DecodeCounts(counts, listSize, maxValue, numBits)| < HexWidth(numBits)
  {
    var ds := CountsToDigits(counts);
    assert ds[1..] == Repeat(0, listSize - 1);
    ValueOfZeros(maxValue, listSize - 1);
    assert ds[..listSize] == ds;
    PowPositive(16, HexWidth(numBits));
    NegativeHexIsShort(-1, numBits);
  }

  /**
   * A receiver starts with an empty pool and its probes keep it empty; every
   * probe count lies in `[0, maxValue]`, so every digit lies in `[-1, maxValue - 1]`.
   */
  lemma {:induction false} ReceiverStaysEmpty(st: State, maxValue: nat, deads: seq<set<Handle>>, n: nat)
    requires WellFormed(st) && st.sockets == [] && n <= |deads|
    ensures WellFormed(Received(st, maxValue, deads, n).after)
    ensures Received(st, maxValue, deads, n).after.sockets == []
    ensures |Received(st, maxValue, deads, n).counts| == n
    ensures forall i :: 0 <= i < n ==> 0 <= Received(st, maxValue, deads, n).counts[i] <= maxValue
  {
    if n > 0 {
      var r := Received(st, maxValue, deads, n - 1);
      ReceiverStaysEmpty(st, maxValue, deads, n - 1);
      ProbeFromEmpty(r.after, maxValue, deads[n - 1]);
      ProbeConservesCount(r.after, maxValue, deads[n - 1]);
    }
  }

  /**
   * `receiveInteger`: at each sample instant probe for `maxValue` slots,
   * keep the count minus one as a digit, then recombine and render in
   * hexadecimal. Returns the rendering and the sample instants in quarter
   * milliseconds.
   */
  method ReceiveInteger(pool: SocketPool, startTime: int, deads: seq<set<Handle>>)
    returns (hex: string, wakeups: seq<int>)
    requires pool.Valid()
    requires |deads| >= pool.config.listSize
    modifies pool
    ensures pool.Valid()
    ensures var r := Received(old(pool.Snapshot()), pool.config.maxValue, deads, pool.config.listSize);
            pool.Snapshot() == r.after &&
            hex == DecodeCounts(r.counts, pool.config.listSize, pool.config.maxValue, NumBits(pool.config))
    ensures |wakeups| == pool.config.listSize
    ensures forall i :: 0 <= i < |wakeups| ==> wakeups[i] == ReceiveSampleQuarters(startTime, i, pool.config.pulseMs)
  {
    var cfg := pool.config;
    ghost var st := pool.Snapshot();
    var integerList := [];
    ghost var counts := [];
    wakeups := [];
    for i := 0 to cfg.listSize
      invariant pool.Valid()
      invariant Received(st, cfg.maxValue, deads, i) == Reception(pool.Snapshot(), counts)
      invariant |integerList| == |counts| == i
      invariant forall j :: 0 <= j < i ==> integerList[j] == counts[j] - 1
      invariant |wakeups| == i
      invariant forall j :: 0 <= j < i ==> wakeups[j] == ReceiveSampleQuarters(startTime, j, cfg.pulseMs)
    {
      wakeups := wakeups + [ReceiveSampleQuarters(startTime, i, cfg.pulseMs)];
      ghost var before := pool.Snapshot();
      var integer := pool.Probe(cfg.maxValue, deads[i]);
      integerList := integerList + [integer - 1];
      counts := counts + [integer];
      assert Received(st, cfg.maxValue, deads, i + 1).after == Probed(before, cfg.maxValue, deads[i]).after;
    }
    assert integerList == CountsToDigits(counts);
    var value := ListToBigInteger(integerList, cfg.listSize, cfg.maxValue);
    hex := BigIntegerToHex(value, NumBits(cfg));
  }
}
