/** Delays on the 24-bit ACPI power management timer (section 4.8.2.1 of the ACPI Specification 5.0)
    and the conversions between its ticks and time. */
module AcpiTimer {
  import opened Bytes

  const FREQUENCY: nat := 3579545
  const COUNT_SIZE: nat := 0x100_0000
  const HALF: nat := 0x80_0000
  const PIECE: nat := 0x40_0000
  const MICRO: nat := 1_000_000
  const NANO: nat := 1_000_000_000

  /** The total tick counts at successive polls of the counter; time never runs backwards. */
  ghost predicate Monotone(ticks: seq<nat>) {
    forall i, j :: 0 <= i <= j < |ticks| ==> ticks[i] <= ticks[j]
  }

  /** Between polls the counter advances by at least one and at most `p` ticks. */
  ghost predicate Paced(ticks: seq<nat>, p: nat) {
    forall i :: 0 <= i && i + 1 < |ticks| ==> 1 <= ticks[i + 1] - ticks[i] <= p
  }

  /** The exit test of the wait loop, in the 32-bit arithmetic of the code. */
  predicate Expired(target: nat, now: nat) {
    (target - now) % U32 / HALF % 2 == 1
  }

  /** A reading of the 32-bit register: 24 counter bits, and upper bits that mean nothing. */
  function Reading(ticks: nat, upper: byte): (r: nat)
    ensures r < U32
  {
    ticks % COUNT_SIZE + COUNT_SIZE * upper as int
  }

  /** The exit test on counter bits alone. */
  lemma ExpiredLow(start: nat, now: nat, delay: nat)
    requires start <= now && delay <= PIECE
    ensures Expired(start % COUNT_SIZE + delay, now % COUNT_SIZE) <==>
              delay < (now - start) % COUNT_SIZE <= delay + HALF
  {
    var a := (now - start) % COUNT_SIZE;
    var d := start % COUNT_SIZE + delay - now % COUNT_SIZE;
    var q := now / COUNT_SIZE - start / COUNT_SIZE;
    assert now - start == q * COUNT_SIZE + (now % COUNT_SIZE - start % COUNT_SIZE);
    if now % COUNT_SIZE >= start % COUNT_SIZE {
      assert a == now % COUNT_SIZE - start % COUNT_SIZE by {
        ModUnique(now - start, q, now % COUNT_SIZE - start % COUNT_SIZE);
      }
      assert d == delay - a;
    } else {
      assert a == now % COUNT_SIZE - start % COUNT_SIZE + COUNT_SIZE by {
        ModUnique(now - start, q - 1, now % COUNT_SIZE - start % COUNT_SIZE + COUNT_SIZE);
      }
      assert d == delay - a + COUNT_SIZE;
    }
  }

  lemma SameBit(x: int, y: int, k: int)
    requires x == y + COUNT_SIZE * k
    ensures x % COUNT_SIZE == y % COUNT_SIZE
  {
  }

  /** The exit test looks at one bit, which depends on the difference modulo the counter range. */
  lemma TestedBit(x: int)
    ensures x % U32 / HALF % 2 == 1 <==> x % COUNT_SIZE >= HALF
  {
    var y := x % U32;
    SameBit(x, y, 256 * (x / U32));
    var h := y / HALF;
    ModUnique(y, h / 2, h % 2 * HALF + y % HALF);
  }

  /** Whatever the upper bits are, the test fires exactly when the counter has advanced past the delay by
      at most half its range, counted modulo the range. */
  lemma ExpiredExactly(start: nat, now: nat, delay: nat, u: byte, w: byte)
    requires start <= now && delay <= PIECE
    ensures Expired((Reading(start, u) + delay) % U32, Reading(now, w)) <==>
              delay < (now - start) % COUNT_SIZE <= delay + HALF
  {
    ExpiredLow(start, now, delay);
    var low := start % COUNT_SIZE + delay - now % COUNT_SIZE;
    var target := (Reading(start, u) + delay) % U32;
    var k := (Reading(start, u) + delay) / U32;
    SameBit(target - Reading(now, w), low, u as int - w as int - 256 * k);
    TestedBit(low);
    TestedBit(target - Reading(now, w));
  }

  lemma ModUnique(x: int, q: int, r: int)
    requires x == q * COUNT_SIZE + r && 0 <= r < COUNT_SIZE
    ensures x % COUNT_SIZE == r
  {
  }

  lemma NextTick(ticks: seq<nat>, i: nat, p: nat)
    requires Monotone(ticks) && 0 < i
    ensures i < |ticks| ==> ticks[i - 1] <= ticks[i]
    ensures i < |ticks| && Paced(ticks, p) ==> 1 <= ticks[i] - ticks[i - 1] <= p
  {
  }

  /** The slack of `n` polls that see up to `p` ticks each. */
  function Slack(n: nat, p: nat): nat {
    n * p
  }

  lemma SlackStep(n: nat, p: nat)
    ensures Slack(1, p) == p && Slack(n + 2, p) == Slack(n, p) + p + p
  {
  }

  /** The counter as a run of polls sees it. A run is a finite list of observations; code that still
      waits at its end has not returned. */
  class AcpiCounter {
    const ticks: seq<nat>
    const upper: nat -> byte
    var polls: nat

    constructor (ticks: seq<nat>, upper: nat -> byte)
      ensures this.ticks == ticks && this.upper == upper && polls == 0
    {
      this.ticks, this.upper, polls := ticks, upper, 0;
    }

    /** InternalAcpiGetTimerTick: the register with the low 24 bits of the tick count. */
    method GetTimerTick() returns (tick: nat)
      requires polls < |ticks|
      modifies this
      ensures polls == old(polls) + 1 && tick == Reading(ticks[old(polls)], upper(old(polls)))
    {
      tick := Reading(ticks[polls], upper(polls));
      polls := polls + 1;
    }

    /** Ticks that pass from poll `from` to the latest poll. */
    ghost function Elapsed(from: nat): int
      requires from < polls <= |ticks|
      reads this
    {
      (ticks[polls - 1] as int) - ticks[from]
    }

    /** One wait for at most 2^22 ticks. */
    method Wait(delay: nat, ghost p: nat) returns (returned: bool)
      requires Monotone(ticks) && delay <= PIECE && polls <= |ticks|
      modifies this
      ensures old(polls) <= polls <= |ticks|
      ensures returned ==> old(polls) < polls && Elapsed(old(polls)) > delay
      ensures Paced(ticks, p) && p <= HALF ==>
                && (returned ==> Elapsed(old(polls)) <= delay + p && polls - old(polls) <= delay + 2)
                && (|ticks| - old(polls) >= delay + 2 ==> returned)
    {
      hide Expired, Reading;
      if polls == |ticks| {
        return false;
      }
      ghost var from := polls;
      var target := GetTimerTick();
      target := (target + delay) % U32;
      while polls < |ticks|
        invariant from < polls <= |ticks|
        invariant target == (Reading(ticks[from], upper(from)) + delay) % U32
        invariant Paced(ticks, p) && p <= HALF ==> polls - from - 1 <= Elapsed(from) <= delay
      {
        var now := GetTimerTick();
        ExpiredExactly(ticks[from], ticks[polls - 1], delay, upper(from), upper(polls - 1));
        SmallAdvance(ticks[polls - 1] - ticks[from], delay);
        if Expired(target, now) {
          return true;
        }
      }
      return false;
    }

    /** InternalAcpiDelay. If it returns, the counter has advanced by more than `delay` ticks, however
        the polls fall. If each poll sees between 1 and `p` <= 2^23 new ticks, it does return, and each
        of its waits and each step between two waits adds at most `p` ticks to the delay. */
    method InternalAcpiDelay(delay: nat, ghost p: nat) returns (returned: bool)
      requires Monotone(ticks) && delay < U32 && polls <= |ticks|
      modifies this
      ensures old(polls) <= polls <= |ticks|
      ensures returned ==> old(polls) < polls && Elapsed(old(polls)) > delay
      ensures Paced(ticks, p) && p <= HALF ==>
                && (returned ==> Elapsed(old(polls)) <= delay + Slack(2 * (delay / PIECE) + 1, p))
                && (|ticks| - old(polls) >= delay + 2 * (delay / PIECE + 1) ==> returned)
    {
      hide Slack, Monotone, Paced;
      var times := delay / PIECE;
      var piece := delay % PIECE;
      ghost var from: nat, sum: nat, rounds: nat := polls, piece, 0;
      returned := Wait(piece, p);
      SlackStep(0, p);
      while returned && times > 0
        invariant 0 <= times && rounds + times == delay / PIECE
        invariant from <= polls <= |ticks|
        invariant sum + times * PIECE == delay
        invariant returned ==> from < polls && Elapsed(from) > sum
        invariant Paced(ticks, p) && p <= HALF ==>
                    && (returned ==> Elapsed(from) <= sum + Slack(2 * rounds + 1, p))
                    && (returned ==> polls - from <= sum + 2 * (rounds + 1))
                    && (|ticks| - from >= sum + 2 * (rounds + 1) ==> returned)
        decreases times
      {
        ghost var before := polls;
        NextTick(ticks, before, p);
        returned := Wait(PIECE, p);
        SlackStep(2 * rounds + 1, p);
        times := times - 1;
        sum := sum + PIECE;
        rounds := rounds + 1;
        assert returned ==> Elapsed(from) == (ticks[before - 1] as int) - ticks[from]
                                             + (ticks[before] as int) - ticks[before - 1] + Elapsed(before);
      }
    }
  }

  /** Advances up to `delay` + 2^23 do not wrap, so a test that has not fired means a short advance. */
  lemma SmallAdvance(a: int, delay: nat)
    requires 0 <= a && delay <= PIECE
    ensures a % COUNT_SIZE <= a
    ensures a <= delay + HALF ==> a % COUNT_SIZE == a
  {
  }

  // Ticks and time.

  /** DivU64x32 (MultU64x32 (units, frequency), perSecond), cast to 32 bits: the tick count that
      MicroSecondDelay and NanoSecondDelay ask for. */
  function RequestedTicks(units: nat, perSecond: nat): nat
    requires perSecond > 0
  {
    units * FREQUENCY % U64 / perSecond % U32
  }

  /** GetTimeInNanoSecond, with its 64-bit arithmetic. */
  function GetTimeInNanoSecond(ticks: nat): nat {
    var whole := ticks / FREQUENCY * NANO % U64;
    var remainder := ticks % FREQUENCY;
    (whole + remainder * NANO % U64 / FREQUENCY) % U64
  }

  /** The split computation equals the exact floor of ticks * 10^9 / frequency modulo 2^64, for every
      64-bit tick count, and its remainder term never overflows. */
  lemma NanoSecondsExact(ticks: nat)
    requires ticks < U64
    ensures GetTimeInNanoSecond(ticks) == ticks * 1_000_000_000 / 3579545 % U64
    ensures ticks % 3579545 * 1_000_000_000 < U64
  {
    var q, r := ticks / FREQUENCY, ticks % FREQUENCY;
    assert ticks * NANO == q * NANO * FREQUENCY + r * NANO;
    assert ticks * NANO / FREQUENCY == q * NANO + r * NANO / FREQUENCY;
    AddMod(q * NANO, r * NANO / FREQUENCY);
  }

  lemma AddMod(x: nat, y: nat)
    ensures (x % U64 + y) % U64 == (x + y) % U64
  {
  }

  lemma FloorBounds(x: nat, d: nat)
    requires d > 0
    ensures x / d * d <= x < (x / d + 1) * d
  {
  }

  lemma Scale(x: int, y: int, k: nat)
    requires x >= y
    ensures x * k >= y * k
  {
  }

  /** One tick more than the request outlasts the time asked for, despite both floors, exactly when the
      exact tick count fits the 32-bit cast. */
  lemma RequestSuffices(units: nat, perSecond: nat)
    requires perSecond in {MICRO, NANO}
    ensures (RequestedTicks(units, perSecond) + 1) * perSecond > units * FREQUENCY <==>
              units * FREQUENCY / perSecond < U32
  {
  }

  /** About twenty minutes are too long for MicroSecondDelay: the cast leaves a request of no ticks. */
  lemma TwentyMinutes()
    ensures var us := 1_199_864_032;
            us * FREQUENCY / MICRO == U32 && RequestedTicks(us, MICRO) == 0
  {
  }

  /** Rounding down to nanoseconds and down again to ticks loses at most one tick. */
  lemma TwoFloors(ticks: nat)
    ensures var ns := ticks * NANO / FREQUENCY; ticks - 1 <= ns * FREQUENCY / NANO <= ticks
  {
  }

  /** Converting a tick count to nanoseconds and back loses at most one tick. */
  lemma TickRoundTrip(ticks: nat)
    requires ticks < U32
    ensures ticks - 1 <= RequestedTicks(GetTimeInNanoSecond(ticks), NANO) <= ticks
  {
    hide GetTimeInNanoSecond;
    NanoSecondsExact(ticks);
    TwoFloors(ticks);
    var ns := ticks * NANO / FREQUENCY;
    FloorBounds(ticks * NANO, FREQUENCY);
    assert ns * FREQUENCY <= ticks * NANO < U64;
  }

  /** Polls this close together cannot make up for what the 32-bit cast cuts off. */
  const CLOSE: nat := 0x20_0000

  /** A cut request is short of the exact tick count by at least the range of the cast. */
  lemma CutIsShort(units: nat, perSecond: nat)
    requires perSecond in {MICRO, NANO} && units * FREQUENCY / perSecond >= U32
    ensures RequestedTicks(units, perSecond) + U32 <= units * FREQUENCY / perSecond
  {
    var product := units * FREQUENCY;
    if product < U64 {
      CutBelow(product / perSecond);
    } else {
      RequestFits(units, perSecond);
      WrappedIsLong(product, perSecond);
    }
  }

  lemma CutBelow(exact: nat)
    requires exact >= U32
    ensures exact % U32 + U32 <= exact
  {
  }

  lemma WrappedIsLong(product: nat, perSecond: nat)
    requires product >= U64 && perSecond in {MICRO, NANO}
    ensures product / perSecond >= 2 * U32
  {
  }

  lemma CloseSlack(request: nat, p: nat)
    requires request < U32 && p <= CLOSE
    ensures Slack(2 * (request / PIECE) + 1, p) < U32
  {
    assert 2 * (request / PIECE) + 1 <= 2047;
    Scale(2047, 2 * (request / PIECE) + 1, p);
  }

  /** With polls close together, a delay that lasted no longer than its request and slack allow is too
      short for the time asked for, if the cast has cut the request. */
  lemma CutIsTooShort(units: nat, perSecond: nat, elapsed: int, p: nat)
    requires perSecond in {MICRO, NANO} && units * FREQUENCY / perSecond >= U32 && p <= CLOSE
    requires var request := RequestedTicks(units, perSecond);
             elapsed <= request + Slack(2 * (request / PIECE) + 1, p)
    ensures elapsed * perSecond < units * FREQUENCY
  {
    hide RequestedTicks, Slack;
    RequestFits(units, perSecond);
    CutIsShort(units, perSecond);
    CloseSlack(RequestedTicks(units, perSecond), p);
    FloorBounds(units * FREQUENCY, perSecond);
    Scale(units * FREQUENCY / perSecond - 1, elapsed, perSecond);
  }

  lemma RequestFits(units: nat, perSecond: nat)
    requires perSecond > 0
    ensures RequestedTicks(units, perSecond) < U32
  {
  }

  /** MicroSecondDelay outlasts the requested time, measured in exact rational ticks, as long as the
      tick count fits the cast. If it does not fit and polls are close together, the delay ends too
      early. The return guarantee and the overshoot are those of the request. */
  method MicroSecondDelay(c: AcpiCounter, microSeconds: nat, ghost p: nat) returns (returned: bool)
    requires Monotone(c.ticks) && c.polls <= |c.ticks|
    modifies c
    ensures old(c.polls) <= c.polls <= |c.ticks| && (returned ==> old(c.polls) < c.polls)
    ensures returned && microSeconds * 3579545 / 1_000_000 < U32 ==>
              c.Elapsed(old(c.polls)) * 1_000_000 > microSeconds * 3579545
    ensures returned && microSeconds * 3579545 / 1_000_000 >= U32 && Paced(c.ticks, p) && p <= 0x20_0000 ==>
              c.Elapsed(old(c.polls)) * 1_000_000 < microSeconds * 3579545
    ensures Paced(c.ticks, p) && p <= HALF ==>
              var request := RequestedTicks(microSeconds, MICRO);
              && (returned ==> c.Elapsed(old(c.polls)) <= request + Slack(2 * (request / 0x40_0000) + 1, p))
              && (|c.ticks| - old(c.polls) >= request + 2 * (request / 0x40_0000 + 1) ==> returned)
  {
    hide Paced, Monotone, Slack, RequestedTicks;
    RequestSuffices(microSeconds, MICRO);
    RequestFits(microSeconds, MICRO);
    returned := c.InternalAcpiDelay(RequestedTicks(microSeconds, MICRO), p);
    if returned {
      var elapsed := c.Elapsed(old(c.polls));
      if microSeconds * FREQUENCY / MICRO < U32 {
        Scale(elapsed, RequestedTicks(microSeconds, MICRO) + 1, MICRO);
      } else if Paced(c.ticks, p) && p <= CLOSE {
        CutIsTooShort(microSeconds, MICRO, elapsed, p);
      }
    }
  }

  /** NanoSecondDelay, likewise; waiting for the time that `t` ticks take lets at least `t` ticks
      pass. */
  method NanoSecondDelay(c: AcpiCounter, nanoSeconds: nat, ghost p: nat) returns (returned: bool)
    requires Monotone(c.ticks) && c.polls <= |c.ticks|
    modifies c
    ensures old(c.polls) <= c.polls <= |c.ticks| && (returned ==> old(c.polls) < c.polls)
    ensures returned && nanoSeconds * 3579545 / 1_000_000_000 < U32 ==>
              c.Elapsed(old(c.polls)) * 1_000_000_000 > nanoSeconds * 3579545
    ensures returned && nanoSeconds * 3579545 / 1_000_000_000 >= U32 && Paced(c.ticks, p) && p <= 0x20_0000 ==>
              c.Elapsed(old(c.polls)) * 1_000_000_000 < nanoSeconds * 3579545
    ensures Paced(c.ticks, p) && p <= HALF ==>
              var request := RequestedTicks(nanoSeconds, NANO);
              && (returned ==> c.Elapsed(old(c.polls)) <= request + Slack(2 * (request / 0x40_0000) + 1, p))
              && (|c.ticks| - old(c.polls) >= request + 2 * (request / 0x40_0000 + 1) ==> returned)
    ensures returned ==>
              forall t: nat {:trigger GetTimeInNanoSecond(t)} | t < U32 && GetTimeInNanoSecond(t) == nanoSeconds ::
                c.Elapsed(old(c.polls)) >= t
  {
    hide Paced, Monotone, Slack, RequestedTicks, GetTimeInNanoSecond;
    RequestSuffices(nanoSeconds, NANO);
    RequestFits(nanoSeconds, NANO);
    returned := c.InternalAcpiDelay(RequestedTicks(nanoSeconds, NANO), p);
    if returned {
      var elapsed := c.Elapsed(old(c.polls));
      if nanoSeconds * FREQUENCY / NANO < U32 {
        Scale(elapsed, RequestedTicks(nanoSeconds, NANO) + 1, NANO);
      } else if Paced(c.ticks, p) && p <= CLOSE {
        CutIsTooShort(nanoSeconds, NANO, elapsed, p);
      }
      forall t: nat {:trigger GetTimeInNanoSecond(t)} | t < U32 && GetTimeInNanoSecond(t) == nanoSeconds
        ensures c.Elapsed(old(c.polls)) >= t
      {
        TickRoundTrip(t);
      }
    }
  }
}
