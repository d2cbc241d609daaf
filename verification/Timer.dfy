/** 64-bit timer registers on a 32-bit bus: read_mtime and set_mtimecmp while mtime advances
    between the bus accesses (RISC-V Privileged ISA, section 3.2.1; the read loop follows
    Unprivileged ISA, section 10.1). */
module Timer {
  import opened Bits

  function Hi(t: word64): word { t / W }

  function Lo(t: word64): word { t % W }

  function Join(high: word, low: word): word64 { high * W + low }

  lemma JoinSplit(t: word64)
    ensures Join(Hi(t), Lo(t)) == t
  {
  }

  datatype Offset = MtimeLo | MtimeHi | CompareLo | CompareHi

  /** What mtime shows at each bus access: any nondecreasing sequence. This covers every
      interleaving of the firmware's accesses with the advancing counter. */
  type Clock = nat -> word64

  ghost predicate Nondecreasing(clock: Clock) {
    forall i: nat, j: nat :: i <= j ==> clock(i) <= clock(j)
  }

  /** The comparator output. */
  predicate Pending(mtime: word64, compare: word64) {
    mtime >= compare
  }

  /** An attempt of the read loop that begins at access n sees the same high word twice. */
  predicate Stable(clock: Clock, n: nat) {
    Hi(clock(n)) == Hi(clock(n + 2))
  }

  lemma StableReadIsExact(clock: Clock, n: nat)
    requires Nondecreasing(clock) && Stable(clock, n)
    ensures Join(Hi(clock(n + 2)), Lo(clock(n + 1))) == clock(n + 1)
  {
    assert clock(n) <= clock(n + 1) <= clock(n + 2);
    HiMonotone(clock(n), clock(n + 1));
    HiMonotone(clock(n + 1), clock(n + 2));
    JoinSplit(clock(n + 1));
  }

  lemma SameHighWord(clock: Clock, n: nat)
    ensures Stable(clock, n) <==> Hi(clock(n)) == Hi(clock(n + 2))
  {
  }

  lemma HiMonotone(a: word64, b: word64)
    requires a <= b
    ensures Hi(a) <= Hi(b)
  {
  }

  /** A failed attempt leaves the high word strictly higher. */
  lemma UnstableAdvances(clock: Clock, n: nat)
    requires Nondecreasing(clock) && !Stable(clock, n)
    ensures Hi(clock(n)) < Hi(clock(n + 2)) <= Hi(clock(n + 3))
  {
    assert clock(n) <= clock(n + 2) <= clock(n + 3);
    HiMonotone(clock(n), clock(n + 2));
    HiMonotone(clock(n + 2), clock(n + 3));
  }

  /** Two consecutive attempts that span less than 2^32 ticks cannot both fail. */
  lemma TwoAttemptsSuffice(clock: Clock, n: nat)
    requires Nondecreasing(clock) && clock(n + 5) - clock(n) < W
    ensures Stable(clock, n) || Stable(clock, n + 3)
  {
    hide Hi;
    HiGap(clock(n), clock(n + 5));
    assert clock(n) <= clock(n + 5);
    if !Stable(clock, n) {
      UnstableAdvances(clock, n);
      if !Stable(clock, n + 3) {
        UnstableAdvances(clock, n + 3);
      }
    }
  }

  lemma HiGap(a: word64, b: word64)
    ensures a <= b && b - a < W ==> Hi(b) <= Hi(a) + 1
  {
  }

  /** The attempt numbered k of a read that begins at access `start` fails. */
  predicate Fails(clock: Clock, start: nat, k: nat) {
    !Stable(clock, start + 3 * k)
  }

  class TimerBus {
    const clock: Clock
    var now: nat              // bus accesses made so far
    var compareHi: word
    var compareLo: word
    ghost var comparands: seq<word64>  // the comparand after each write

    constructor (clock: Clock, compare: word64)
      ensures this.clock == clock && now == 0 && Compare() == compare && comparands == []
    {
      this.clock := clock;
      now := 0;
      compareHi, compareLo := Hi(compare), Lo(compare);
      comparands := [];
      new;
      JoinSplit(compare);
    }

    function Compare(): word64
      reads this
    {
      Join(compareHi, compareLo)
    }

    method TimerRead(offset: Offset) returns (v: word)
      modifies this`now
      ensures now == old(now) + 1
      ensures v == match offset
                   case MtimeLo => Lo(clock(old(now)))
                   case MtimeHi => Hi(clock(old(now)))
                   case CompareLo => compareLo
                   case CompareHi => compareHi
      ensures offset == MtimeLo ==> v == clock(old(now)) % 0x1_0000_0000
      ensures offset == MtimeHi ==> v == clock(old(now)) / 0x1_0000_0000
    {
      var t := clock(now);
      now := now + 1;
      match offset
      case MtimeLo => v := Lo(t);
      case MtimeHi => v := Hi(t);
      case CompareLo => v := compareLo;
      case CompareHi => v := compareHi;
    }

    /** A write to one half of the comparand; firmware does not write mtime. */
    method TimerWrite(high: bool, v: word)
      modifies this
      ensures now == old(now) + 1
      ensures compareHi == (if high then v else old(compareHi))
      ensures compareLo == (if high then old(compareLo) else v)
      ensures comparands == old(comparands) + [Compare()]
    {
      now := now + 1;
      if high {
        compareHi := v;
      } else {
        compareLo := v;
      }
      comparands := comparands + [Compare()];
    }

    /** read_mtime: the exact value of mtime at the accepted low read. The loop ends, after
        the first attempt that is stable, because each failed one raises the high word. */
    method ReadMtime() returns (t: word64, ghost attempts: nat)
      requires Nondecreasing(clock)
      modifies this`now
      ensures attempts > 0 && now == old(now) + 3 * attempts
      ensures t == clock(now - 2)
      ensures !Fails(clock, old(now), attempts - 1)
      ensures forall k :: 0 <= k < attempts - 1 ==> Fails(clock, old(now), k)
      ensures clock(old(now) + 5) - clock(old(now)) < W ==> attempts <= 2
    {
      hide Hi, Lo, Join, Stable, Nondecreasing;
      ghost var start := now;
      attempts := 0;
      while true
        invariant start == old(now) && now == start + 3 * attempts
        invariant forall k :: 0 <= k < attempts ==> Fails(clock, start, k)
        decreases W - Hi(clock(now))
      {
        var high0 := TimerRead(MtimeHi);
        var low := TimerRead(MtimeLo);
        var high1 := TimerRead(MtimeHi);
        SameHighWord(clock, now - 3);
        attempts := attempts + 1;
        if high0 == high1 {
          StableReadIsExact(clock, now - 3);
          t := Join(high1, low);
          break;
        }
        UnstableAdvances(clock, now - 3);
      }
      if clock(start + 5) - clock(start) < W {
        TwoAttemptsSuffice(clock, start);
        assert Fails(clock, start, 0) <==> !Stable(clock, start);
        assert Fails(clock, start, 1) <==> !Stable(clock, start + 3);
      }
    }

    /** set_mtimecmp: after every write the comparand is at least the lower of the old and
        the new one, so no interleaving with an mtime below both raises the timer. */
    method SetMtimecmp(value: word64)
      modifies this
      ensures Compare() == value
      ensures var high := 0xFFFF_FFFF * 0x1_0000_0000;
              comparands == old(comparands)
                + [high + old(Compare()) % 0x1_0000_0000, high + value % 0x1_0000_0000, value]
      ensures comparands == old(comparands) + UpdateSequence(old(Compare()), value)[1..]
      ensures forall k :: |old(comparands)| <= k < |comparands| ==>
                comparands[k] >= if old(Compare()) < value then old(Compare()) else value
    {
      ghost var before := Compare();
      TimerWrite(true, 0xFFFF_FFFF);
      TimerWrite(false, Lo(value));
      TimerWrite(true, Hi(value));
      JoinSplit(value);
      JoinSplit(before);
      AllOnesIsHighest(before, before);
      AllOnesIsHighest(value, value);
      assert Lo(before) == old(compareLo);
    }
  }

  lemma AllOnesIsHighest(t: word64, low: word64)
    ensures Join(0xFFFF_FFFF, Lo(t)) >= t
  {
    JoinSplit(t);
  }

  /** The comparands an update of `before` to `value` passes through, the old one included. */
  function UpdateSequence(before: word64, value: word64): seq<word64> {
    [before, Join(0xFFFF_FFFF, Lo(before)), Join(0xFFFF_FFFF, Lo(value)), value]
  }

  /** While mtime stays below both comparands, the timer is pending at no step of the update,
      whatever mtime does. */
  lemma NoSpuriousMatch(before: word64, value: word64, k: nat, mtime: word64)
    requires k < 4 && mtime < before && mtime < value
    ensures !Pending(mtime, UpdateSequence(before, value)[k])
  {
    AllOnesIsHighest(before, before);
    AllOnesIsHighest(value, value);
  }

  /** Writing the low half first, without the all-ones step, passes through a comparand that
      some mtime below both reaches, exactly when the update raises the high word and lowers
      the low word. */
  lemma LowHalfFirstCanFire(before: word64, value: word64)
    ensures (exists mtime: word64 :: mtime < before && mtime < value && Pending(mtime, Join(Hi(before), Lo(value))))
      <==> Hi(before) < Hi(value) && Lo(value) < Lo(before)
  {
    hide Hi, Lo;
    var mixed := Join(Hi(before), Lo(value));
    JoinSplit(before);
    JoinSplit(value);
    if mixed < before && mixed < value {
      assert Pending(mixed, mixed);
    }
  }
}
