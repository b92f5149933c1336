/**
 * The socket pool of static/inner.js: a capped set of WebSockets held in
 * insertion order, grown by `consume`, shrunk from the front by `release`,
 * measured by `probe`, with every step sampled into `trace`.
 *
 * A WebSocket is an abstract handle: each `consume` issues new handles from a
 * counter, and the `readyState === 3` test of the sweep becomes a set of dead
 * handles given to `consume`. The module-level `sockets` set and `trace`
 * array become the fields of a `SocketPool` object. Sleeping for the
 * settling time is not modelled, and neither are the timestamps of the trace
 * samples: a sample is the number of held sockets.
 */
module Pool {

  import opened Arith
  import opened Codec

  type Handle = nat

  // ---------------------------------------------------------------------
  // Configuration (the `SocketPool` constructor's constants)
  // ---------------------------------------------------------------------

  datatype Browser = Chrome | Firefox

  datatype Config = Config(listSize: nat, maxSlots: nat, maxValue: nat, pulseMs: nat, settlingTimeMs: nat)

  function ConfigFor(browser: Browser): Config
  {
    match browser
    case Chrome => Config(5, 255, 128, 50, 0)
    case Firefox => Config(5, 255, 128, 350, 50)
  }

  /** The base-2 logarithm, rounded down. */
  function Log2(n: nat): nat
  {
    if n <= 1 then 0 else 1 + Log2(n / 2)
  }

  /** `listSize * log2(maxValue)`; `Math.log` is exact for the power-of-two radix both browsers use. */
  function NumBits(c: Config): nat
  {
    c.listSize * Log2(c.maxValue)
  }

  /**
   * Every value the digits can carry fits the hexadecimal width: with a
   * radix of 128 and five digits, `128^5 = 2^35 <= 16^9`.
   */
  lemma ConfigDigitsFitHex(browser: Browser)
    ensures ConfigFor(browser).maxValue > 0
    ensures Pow(ConfigFor(browser).maxValue, ConfigFor(browser).listSize) <= Pow(16, HexWidth(NumBits(ConfigFor(browser))))
  {
    var c := ConfigFor(browser);
    assert Log2(c.maxValue) == 7;
    assert c.maxValue == Pow(2, 7);
    RadixFitsHexWidth(7, c.listSize);
  }

  // ---------------------------------------------------------------------
  // The pool's state and what each operation does to it
  // ---------------------------------------------------------------------

  /** The held sockets in insertion order, the trace of sizes, and the next fresh handle. */
  datatype State = State(sockets: seq<Handle>, trace: seq<int>, next: nat)

  /** A step's new state and the number it returns. */
  datatype Outcome = Outcome(after: State, count: int)

  predicate Distinct(s: seq<Handle>)
  {
    forall i, j :: 0 <= i < j < |s| ==> s[i] != s[j]
  }

  /** A JavaScript `Set` holds each socket once; every held handle was issued before `next`. */
  predicate WellFormed(st: State)
  {
    Distinct(st.sockets) && forall h :: h in st.sockets ==> h < st.next
  }

  /** `n` new sockets, as `pool.consumeOne()` creates them one after another. */
  function Fresh(from: nat, n: nat): (hs: seq<Handle>)
    ensures |hs| == n
    ensures forall i :: 0 <= i < n ==> hs[i] == from + i
  {
    if n == 0 then [] else Fresh(from, n - 1) + [from + n - 1]
  }

  /** The sockets that survive the sweep of `consume`, in their original order. */
  function Live(hs: seq<Handle>, dead: set<Handle>): seq<Handle>
  {
    if hs == [] then []
    else Live(hs[..|hs| - 1], dead) + (if hs[|hs| - 1] in dead then [] else [hs[|hs| - 1]])
  }

  /** The sizes sampled while sockets are added one at a time: `from + 1, ..., from + n`. */
  function Rising(from: int, n: nat): (r: seq<int>)
    ensures |r| == n
    ensures forall i :: 0 <= i < n ==> r[i] == from + i + 1
  {
    if n == 0 then [] else Rising(from, n - 1) + [from + n]
  }

  /** The sizes sampled while sockets are closed one at a time: `from - 1, ..., from - n`. */
  function Falling(from: int, n: nat): (r: seq<int>)
    ensures |r| == n
    ensures forall i :: 0 <= i < n ==> r[i] == from - i - 1
  {
    if n == 0 then [] else Falling(from, n - 1) + [from - n]
  }

  /**
   * `consume(pool, max)`: sample, add `max` new sockets (sampling after each),
   * drop every dead socket, sample, and return the net change in size.
   */
  function Consumed(st: State, max: int, dead: set<Handle>): Outcome
  {
    var n := if max > 0 then max else 0;
    var start := |st.sockets|;
    var swept := Live(st.sockets + Fresh(st.next, n), dead);
    Outcome(State(swept, st.trace + [start] + Rising(start, n) + [|swept|], st.next + n), |swept| - start)
  }

  /**
   * `release(pool, max)`: sample; unless `max` is 0, close the first
   * `Math.min(max, size)` sockets (sampling after each), sample again and
   * return that minimum, which is negative when `max` is.
   */
  function Released(st: State, max: int): Outcome
  {
    var start := |st.sockets|;
    if max == 0 then Outcome(st.(trace := st.trace + [start]), 0)
    else
      var k := if max < start then max else start;
      var m := if k > 0 then k else 0;
      Outcome(State(st.sockets[m..], st.trace + [start] + Falling(start, m) + [start - m], st.next), k)
  }

  /** `probe(pool, max)`: consume, then release as many as the consume returned. */
  function Probed(st: State, max: int, dead: set<Handle>): Outcome
  {
    var c := Consumed(st, max, dead);
    Outcome(Released(c.after, c.count).after, c.count)
  }

  // ---------------------------------------------------------------------
  // Facts about the sweep and the fresh handles
  // ---------------------------------------------------------------------

  lemma {:induction false} LiveMembers(hs: seq<Handle>, dead: set<Handle>)
    ensures forall h :: h in Live(hs, dead) <==> h in hs && h !in dead
    ensures |Live(hs, dead)| <= |hs|
    decreases |hs|
  {
    if hs != [] {
      var init := hs[..|hs| - 1];
      LiveMembers(init, dead);
      assert hs == init + [hs[|hs| - 1]];
    }
  }

  /** The sweep keeps the survivors in order: sweeping a concatenation sweeps each part. */
  lemma {:induction false} LiveAppend(a: seq<Handle>, b: seq<Handle>, dead: set<Handle>)
    ensures Live(a + b, dead) == Live(a, dead) + Live(b, dead)
    decreases |b|
  {
    if b == [] {
      assert a + b == a;
    } else {
      var init := b[..|b| - 1];
      LiveAppend(a, init, dead);
      assert (a + b)[..|a + b| - 1] == a + init;
    }
  }

  lemma {:induction false} LiveNoneDead(hs: seq<Handle>, dead: set<Handle>)
    requires forall h :: h in hs ==> h !in dead
    ensures Live(hs, dead) == hs
    decreases |hs|
  {
    if hs != [] {
      var init := hs[..|hs| - 1];
      LiveNoneDead(init, dead);
      assert hs == init + [hs[|hs| - 1]];
    }
  }

  lemma {:induction false} LiveAllDead(hs: seq<Handle>, dead: set<Handle>)
    requires forall h :: h in hs ==> h in dead
    ensures Live(hs, dead) == []
    decreases |hs|
  {
    if hs != [] {
      LiveAllDead(hs[..|hs| - 1], dead);
    }
  }

  /** A dead held socket makes the sweep strictly shrink the sequence. */
  lemma {:induction false} LiveShrinks(hs: seq<Handle>, dead: set<Handle>, h: Handle)
    requires h in hs && h in dead
    ensures |Live(hs, dead)| < |hs|
    decreases |hs|
  {
    var init, last := hs[..|hs| - 1], hs[|hs| - 1];
    assert hs == init + [last];
    LiveMembers(init, dead);
    if last != h {
      LiveShrinks(init, dead, h);
    }
  }

  lemma DistinctSnoc(s: seq<Handle>, x: Handle)
    requires Distinct(s) && x !in s
    ensures Distinct(s + [x])
  {
  }

  lemma {:induction false} LiveDistinct(hs: seq<Handle>, dead: set<Handle>)
    requires Distinct(hs)
    ensures Distinct(Live(hs, dead))
    decreases |hs|
  {
    if hs != [] {
      var init, last := hs[..|hs| - 1], hs[|hs| - 1];
      LiveDistinct(init, dead);
      LiveMembers(init, dead);
      forall k | 0 <= k < |init|
        ensures init[k] != last
      {
        assert init[k] == hs[k];
      }
      if last !in dead {
        DistinctSnoc(Live(init, dead), last);
      }
    }
  }

  lemma DistinctConcat(a: seq<Handle>, b: seq<Handle>)
    requires Distinct(a) && Distinct(b)
    requires forall x :: x in a ==> x !in b
    ensures Distinct(a + b)
  {
    var c := a + b;
    forall i, j | 0 <= i < j < |c|
      ensures c[i] != c[j]
    {
      if j < |a| {
        assert c[i] == a[i] && c[j] == a[j];
      } else if i >= |a| {
        assert c[i] == b[i - |a|] && c[j] == b[j - |a|];
      } else {
        assert c[i] in a && c[j] in b;
      }
    }
  }

  lemma FreshMembers(from: nat, n: nat)
    ensures Distinct(Fresh(from, n))
    ensures forall h :: h in Fresh(from, n) <==> from <= h < from + n
  {
    var f := Fresh(from, n);
    forall h | from <= h < from + n
      ensures h in f
    {
      assert f[h - from] == h;
    }
  }

  // ---------------------------------------------------------------------
  // Properties of consume, release and probe
  // ---------------------------------------------------------------------

  /** `consume` keeps every socket distinct and every handle issued. */
  lemma ConsumedWellFormed(st: State, max: int, dead: set<Handle>)
    requires WellFormed(st)
    ensures WellFormed(Consumed(st, max, dead).after)
  {
    var n := if max > 0 then max else 0;
    var grown := st.sockets + Fresh(st.next, n);
    FreshMembers(st.next, n);
    DistinctConcat(st.sockets, Fresh(st.next, n));
    LiveDistinct(grown, dead);
    LiveMembers(grown, dead);
  }

  /**
   * What `consume` does to the held sockets: it adds `max` new ones, removes
   * exactly the dead ones, never drops a live socket it already held, keeps
   * the survivors in insertion order (older first), and returns the net
   * change of size, at most `max`.
   */
  lemma ConsumeKeepsLive(st: State, max: int, dead: set<Handle>)
    requires WellFormed(st)
    ensures var n := if max > 0 then max else 0;
            Consumed(st, max, dead).after.sockets == Live(st.sockets, dead) + Live(Fresh(st.next, n), dead)
    ensures forall h :: h in st.sockets && h !in dead ==> h in Consumed(st, max, dead).after.sockets
    ensures var n := if max > 0 then max else 0;
            forall h :: h in Consumed(st, max, dead).after.sockets <==>
              h !in dead && (h in st.sockets || st.next <= h < st.next + n)
    ensures Consumed(st, max, dead).count == |Consumed(st, max, dead).after.sockets| - |st.sockets|
    ensures Consumed(st, max, dead).count <= if max > 0 then max else 0
    ensures Consumed(st, max, dead).after.next == st.next + if max > 0 then max else 0
  {
    var n := if max > 0 then max else 0;
    var newOnes := Fresh(st.next, n);
    LiveAppend(st.sockets, newOnes, dead);
    LiveMembers(st.sockets + newOnes, dead);
    LiveMembers(st.sockets, dead);
    LiveMembers(newOnes, dead);
    FreshMembers(st.next, n);
  }

  /** `consume` can return a negative number: a held socket that died is swept out. */
  lemma ConsumeCanShrink(st: State, max: int, dead: set<Handle>, h: Handle)
    requires WellFormed(st) && max <= 0
    requires h in st.sockets && h in dead
    ensures Consumed(st, max, dead).count < 0
  {
    assert st.sockets + Fresh(st.next, 0) == st.sockets;
    LiveShrinks(st.sockets, dead, h);
  }

  /**
   * `consume` appends `max + 2` samples to the trace: the starting size, the
   * size after each new socket, and finally the size after the sweep.
   */
  lemma ConsumeTrace(st: State, max: int, dead: set<Handle>)
    ensures var n := if max > 0 then max else 0;
            var t := Consumed(st, max, dead).after.trace;
            |t| == |st.trace| + n + 2 && t[..|st.trace|] == st.trace &&
            t[|st.trace|] == |st.sockets| &&
            t[|st.trace| + 1..|st.trace| + 1 + n] == Rising(|st.sockets|, n) &&
            t[|t| - 1] == |Consumed(st, max, dead).after.sockets|
  {
  }

  /**
   * What `release` does: with `max` 0 it returns 0 and only samples once;
   * otherwise it closes exactly the first `min(max, size)` sockets, keeps the
   * rest in order, returns that minimum and samples `min(max, size) + 2`
   * times. A negative `max` (a probe whose consume shrank) closes nothing and
   * is returned as it is.
   */
  lemma ReleaseSpec(st: State, max: int)
    requires WellFormed(st)
    ensures WellFormed(Released(st, max).after)
    ensures Released(st, max).after.next == st.next
    ensures var o := Released(st, max);
            max == 0 ==> o.count == 0 && o.after.sockets == st.sockets && o.after.trace == st.trace + [|st.sockets|]
    ensures var o := Released(st, max);
            max > 0 ==> o.count == (if max < |st.sockets| then max else |st.sockets|) &&
                        st.sockets == st.sockets[..o.count] + o.after.sockets &&
                        |o.after.trace| == |st.trace| + o.count + 2
    ensures var o := Released(st, max);
            max < 0 ==> o.count == max && o.after.sockets == st.sockets &&
                        o.after.trace == st.trace + [|st.sockets|, |st.sockets|]
    ensures var t := Released(st, max).after.trace;
            t[..|st.trace|] == st.trace && t[|t| - 1] == |Released(st, max).after.sockets|
  {
    var o := Released(st, max);
    if max > 0 {
      assert st.sockets == st.sockets[..o.count] + st.sockets[o.count..];
      forall h | h in o.after.sockets
        ensures h < st.next
      {
        var k :| 0 <= k < |o.after.sockets| && o.after.sockets[k] == h;
        assert st.sockets[o.count + k] == h;
        assert st.sockets[o.count + k] in st.sockets;
      }
    }
  }

  /**
   * `probe` returns what its `consume` returned and, when that is not
   * negative, ends with as many sockets as it started with. It does so by
   * closing the OLDEST sockets, not the ones it has just opened.
   */
  lemma ProbeConservesCount(st: State, max: int, dead: set<Handle>)
    requires WellFormed(st)
    ensures WellFormed(Probed(st, max, dead).after)
    ensures Probed(st, max, dead).count == Consumed(st, max, dead).count
    ensures var c := Consumed(st, max, dead);
            c.count >= 0 ==> Probed(st, max, dead).after.sockets == c.after.sockets[c.count..] &&
                             |Probed(st, max, dead).after.sockets| == |st.sockets|
    ensures var c := Consumed(st, max, dead);
            c.count < 0 ==> Probed(st, max, dead).after.sockets == c.after.sockets
  {
    var c := Consumed(st, max, dead);
    ConsumedWellFormed(st, max, dead);
    ConsumeKeepsLive(st, max, dead);
    ReleaseSpec(c.after, c.count);
  }

  /**
   * Membership is not preserved by `probe`: when no held socket died, the
   * oldest held socket is among those it closes.
   */
  lemma ProbeClosesOldest(st: State, max: int, dead: set<Handle>)
    requires WellFormed(st) && st.sockets != []
    requires forall h :: h in st.sockets ==> h !in dead
    ensures Consumed(st, max, dead).count >= 0
    ensures Consumed(st, max, dead).count > 0 ==> st.sockets[0] !in Probed(st, max, dead).after.sockets
  {
    var c := Consumed(st, max, dead);
    ConsumeKeepsLive(st, max, dead);
    LiveNoneDead(st.sockets, dead);
    ProbeConservesCount(st, max, dead);
    ConsumedWellFormed(st, max, dead);
    var all := c.after.sockets;
    var p := Probed(st, max, dead).after.sockets;
    assert all[0] == st.sockets[0];
    if c.count > 0 {
      forall k | 0 <= k < |p|
        ensures p[k] != st.sockets[0]
      {
        assert p[k] == all[c.count + k];
      }
    }
  }

  /**
   * ... while every socket the probe opened that came up live is still held
   * afterwards (when the probe gained no more sockets than were held before).
   */
  lemma ProbeKeepsNewest(st: State, max: int, dead: set<Handle>)
    requires WellFormed(st)
    requires forall h :: h in st.sockets ==> h !in dead
    requires Consumed(st, max, dead).count <= |st.sockets|
    ensures var n := if max > 0 then max else 0;
            forall h :: h in Live(Fresh(st.next, n), dead) ==> h in Probed(st, max, dead).after.sockets
  {
    var n := if max > 0 then max else 0;
    var newOnes := Live(Fresh(st.next, n), dead);
    var c := Consumed(st, max, dead);
    ConsumeKeepsLive(st, max, dead);
    LiveNoneDead(st.sockets, dead);
    ProbeConservesCount(st, max, dead);
    var all := c.after.sockets;
    assert all == st.sockets + newOnes;
    assert c.count >= 0;
    var p := Probed(st, max, dead).after.sockets;
    assert p == all[c.count..];
    forall h | h in newOnes
      ensures h in p
    {
      var k :| 0 <= k < |newOnes| && newOnes[k] == h;
      assert all[|st.sockets| + k] == h;
      assert p[|st.sockets| + k - c.count] == h;
    }
  }

  /**
   * A pool holding nothing stays empty across a `probe`, and the probe's
   * count is the number of new sockets that came up live: between 0 and `max`.
   */
  lemma ProbeFromEmpty(st: State, max: int, dead: set<Handle>)
    requires WellFormed(st) && st.sockets == []
    ensures Probed(st, max, dead).after.sockets == []
    ensures 0 <= Probed(st, max, dead).count <= if max > 0 then max else 0
    ensures Probed(st, max, dead).after.next == st.next + if max > 0 then max else 0
  {
    var n := if max > 0 then max else 0;
    assert st.sockets + Fresh(st.next, n) == Fresh(st.next, n);
    LiveMembers(Fresh(st.next, n), dead);
    ProbeConservesCount(st, max, dead);
  }

  // ---------------------------------------------------------------------
  // The pool object
  // ---------------------------------------------------------------------

  /**
   * A pool of sockets for one browser: its constants, the held sockets in
   * insertion order, the trace, and the counter that names new sockets.
   */
  class SocketPool {
    const config: Config
    var sockets: seq<Handle>
    var trace: seq<int>
    var next: nat

    function Snapshot(): State
      reads this
    {
      State(sockets, trace, next)
    }

    ghost predicate Valid()
      reads this
    {
      WellFormed(Snapshot())
    }

    constructor (browser: Browser)
      ensures config == ConfigFor(browser)
      ensures Snapshot() == State([], [], 0) && Valid()
    {
      config := ConfigFor(browser);
      sockets, trace, next := [], [], 0;
    }

    /** `capture`: record the number of held sockets in the trace. */
    method Capture()
      modifies this
      ensures sockets == old(sockets) && next == old(next)
      ensures trace == old(trace) + [|sockets|]
    {
      trace := trace + [|sockets|];
    }

    /** `consume`: open `max` sockets, sweep the dead ones, return the net change. */
    method Consume(max: int, dead: set<Handle>) returns (count: int)
      requires Valid()
      modifies this
      ensures Valid()
      ensures Outcome(Snapshot(), count) == Consumed(old(Snapshot()), max, dead)
    {
      Capture();
      var nStart := |sockets|;
      var i := 0;
      while i < max
        invariant 0 <= i <= (if max > 0 then max else 0)
        invariant sockets == old(sockets) + Fresh(old(next), i)
        invariant next == old(next) + i
        invariant trace == old(trace) + [nStart] + Rising(nStart, i)
      {
        sockets := sockets + [next];
        next := next + 1;
        Capture();
        i := i + 1;
      }
      // The sweep: every socket that reports itself dead is deleted.
      var survivors := [];
      var j := 0;
      while j < |sockets|
        invariant 0 <= j <= |sockets|
        invariant survivors == Live(sockets[..j], dead)
      {
        assert sockets[..j + 1][..j] == sockets[..j];
        if sockets[j] !in dead {
          survivors := survivors + [sockets[j]];
        }
        j := j + 1;
      }
      assert sockets[..j] == sockets;
      sockets := survivors;
      var nFinish := |sockets|;
      Capture();
      count := nFinish - nStart;
      ConsumedWellFormed(old(Snapshot()), max, dead);
    }

    /** `release`: close the first `min(max, size)` sockets and return that number. */
    method Release(max: int) returns (count: int)
      requires Valid()
      modifies this
      ensures Valid()
      ensures Outcome(Snapshot(), count) == Released(old(Snapshot()), max)
    {
      Capture();
      if max == 0 {
        return 0;
      }
      var numberToRelease := if max < |sockets| then max else |sockets|;
      var start := |sockets|;
      var i := 0;
      while i < numberToRelease
        invariant 0 <= i <= (if numberToRelease > 0 then numberToRelease else 0)
        invariant sockets == old(sockets)[i..] && next == old(next)
        invariant trace == old(trace) + [start] + Falling(start, i)
      {
        // `sockets.values().next().value` is the oldest socket; it is closed and deleted.
        sockets := sockets[1..];
        Capture();
        i := i + 1;
      }
      Capture();
      count := numberToRelease;
      ghost var st := State(old(sockets), old(trace), old(next));
      assert old(Snapshot()) == st;
      ReleaseSpec(st, max);
    }

    /** `probe`: consume up to `max`, release as many as were consumed, return that count. */
    method Probe(max: int, dead: set<Handle>) returns (consumedCount: int)
      requires Valid()
      modifies this
      ensures Valid()
      ensures Outcome(Snapshot(), consumedCount) == Probed(old(Snapshot()), max, dead)
    {
      consumedCount := Consume(max, dead);
      var released := Release(consumedCount);
    }
  }
}
