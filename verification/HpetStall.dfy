/** The PEI stall service: a wait on the low 32 bits of the HPET main counter. */
module HpetStall {
  import opened AcpiTimer
  import opened Bytes

  /** HPET ticks per microsecond, as the code counts them. */
  const HPET_1US: nat := 15

  /** The wait in ticks, with its 32-bit product. */
  function StallTicks(microseconds: nat): nat {
    microseconds % U32 * HPET_1US % U32
  }

  /** The exit test on one reading. */
  predicate StallDone(start: nat, finish: nat, now: nat) {
    if finish > start then now >= finish else now < start && now >= finish
  }

  /** How far behind the wait a reading is still recognised: up to the next wrap of the counter, or
      all the way round if the wait itself wraps. A zero wait is never recognised. */
  function Window(start: nat, wait: nat): int {
    if wait == 0 then 0 else if start + wait < U32 then U32 - start - wait else U32 - wait
  }

  /** The exit test fires exactly inside the window, counted modulo the range of the counter. */
  lemma DoneExactly(start: nat, now: nat, wait: nat)
    requires start <= now && wait < U32
    ensures StallDone(start % U32, (start % U32 + wait) % U32, now % U32) <==>
              wait <= (now - start) % U32 < wait + Window(start % U32, wait)
  {
    var e, s := (now - start) % U32, start % U32;
    assert now % U32 == (s + e) % U32 by {
      assert now == start + (now - start);
    }
    if s + wait < U32 {
      assert (s + wait) % U32 == s + wait;
    } else {
      assert (s + wait) % U32 == s + wait - U32;
    }
    if s + e < U32 {
      assert (s + e) % U32 == s + e;
    } else {
      assert (s + e) % U32 == s + e - U32;
    }
  }

  lemma Reduced(e: nat)
    ensures e % U32 <= e && (e < U32 ==> e % U32 == e)
  {
  }

  lemma ZeroWindow(start: nat)
    ensures Window(start, 0) == 0
  {
  }

  lemma WindowFits(start: nat, wait: nat)
    requires start < U32 && wait < U32
    ensures wait + Window(start, wait) <= U32
  {
  }

  /** A poll that ends the stall has seen the wait pass; one that does not, and came before the window
      closed, came before the wait had passed. */
  lemma PollVerdict(from: nat, now: nat, wait: nat)
    requires from <= now && wait < U32
    ensures var done := StallDone(from % U32, (from % U32 + wait) % U32, now % U32);
            && (done ==> now - from >= wait > 0)
            && (!done && now - from < wait + Window(from % U32, wait) ==> now - from < wait)
  {
    hide StallDone, Window;
    DoneExactly(from, now, wait);
    Reduced(now - from);
    ZeroWindow(from % U32);
    WindowFits(from % U32, wait);
  }

  lemma TicksFit(microseconds: nat)
    ensures StallTicks(microseconds) < U32
    ensures microseconds * 15 < U32 ==> StallTicks(microseconds) == microseconds * 15
  {
  }

  class HpetCounter {
    const ticks: seq<nat>
    var polls: nat

    constructor (ticks: seq<nat>)
      ensures this.ticks == ticks && polls == 0
    {
      this.ticks, polls := ticks, 0;
    }

    method Read() returns (value: nat)
      requires polls < |ticks|
      modifies this
      ensures polls == old(polls) + 1 && value == ticks[old(polls)] % U32
    {
      value := ticks[polls] % U32;
      polls := polls + 1;
    }

    ghost function Elapsed(from: nat): int
      requires from < polls <= |ticks|
      reads this
    {
      (ticks[polls - 1] as int) - ticks[from]
    }

    /** Stall. A return means that the wait has passed, and the time asked for if its product fits 32
        bits. A wait of zero ticks never returns. When polls are at most as far apart as the window is
        wide, the stall returns. */
    method Stall(microseconds: nat, ghost p: nat) returns (returned: bool)
      requires Monotone(ticks) && polls <= |ticks|
      modifies this
      ensures old(polls) <= polls <= |ticks|
      ensures returned ==> old(polls) < polls && Elapsed(old(polls)) >= StallTicks(microseconds)
      ensures returned && microseconds * 15 < U32 ==> Elapsed(old(polls)) >= microseconds * 15
      ensures StallTicks(microseconds) == 0 ==> !returned
      ensures (&& |ticks| - old(polls) >= StallTicks(microseconds) + 2
               && Paced(ticks, p)
               && p <= Window(ticks[old(polls)] % U32, StallTicks(microseconds))) ==> returned
    {
      hide StallDone, Window, Monotone, Paced, StallTicks;
      if polls == |ticks| {
        return false;
      }
      ghost var from := polls;
      var wait := StallTicks(microseconds);
      TicksFit(microseconds);
      var start := Read();
      ZeroWindow(start);
      var finish := (start + wait) % U32;
      ghost var steady := Paced(ticks, p) && p <= Window(ticks[from] % U32, wait);
      while polls < |ticks|
        invariant from < polls <= |ticks| && 0 <= Elapsed(from)
        invariant start == ticks[from] % U32 && finish == (start + wait) % U32
        invariant steady ==> polls - from - 1 <= Elapsed(from)
        invariant steady && polls > from + 1 ==> Elapsed(from) < wait
      {
        NextTick(ticks, polls, p);
        var now := Read();
        PollVerdict(ticks[from], ticks[polls - 1], wait);
        if StallDone(start, finish, now) {
          return true;
        }
      }
      return false;
    }
  }
}
