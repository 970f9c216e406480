/** The due-check of the scheduler: the minute key a tick stamps on the jobs it fires, when a job
    is due, and what stamping the fired jobs does to the next tick. */
module Schedule {
  import opened Tree
  import opened Config
  import Text

  /** The clock reading one tick takes: the calendar fields of datetime.now() and its weekday()
      (Monday is 0). */
  datatype Clock = Clock(year: int, month: int, day: int, hour: int, minute: int, weekday: int)

  /** The readings datetime can produce. */
  predicate ValidClock(c: Clock) {
    && 1 <= c.year <= 9999 && 1 <= c.month <= 12 && 1 <= c.day <= 31
    && 0 <= c.hour <= 23 && 0 <= c.minute <= 59 && 0 <= c.weekday <= 6
  }

  function Pow10(w: nat): nat {
    if w == 0 then 1 else 10 * Pow10(w - 1)
  }

  /** The last w decimal digits of n, zero-padded. */
  function Pad(n: nat, w: nat): (s: string)
    ensures |s| == w && Text.AllDigits(s)
  {
    if w == 0 then "" else Pad(n / 10, w - 1) + ['0' + (n % 10) as char]
  }

  /** A number below 10^w reads back from its w padded digits. */
  lemma {:induction false} PadValue(n: nat, w: nat)
    requires n < Pow10(w)
    ensures Text.DigitsValue(Pad(n, w)) == n
  {
    if w > 0 {
      PadValue(n / 10, w - 1);
      var s := Pad(n, w);
      assert s[..|s| - 1] == Pad(n / 10, w - 1);
    }
  }

  /** now.strftime("%Y%m%d_%H%M"): one string per calendar minute. */
  function MinuteKey(c: Clock): (k: string)
    requires ValidClock(c)
  {
    Pad(c.year, 4) + Pad(c.month, 2) + Pad(c.day, 2) + "_" + Pad(c.hour, 2) + Pad(c.minute, 2)
  }

  predicate SameMinute(c1: Clock, c2: Clock) {
    c1.year == c2.year && c1.month == c2.month && c1.day == c2.day && c1.hour == c2.hour && c1.minute == c2.minute
  }

  /** Two readings share a minute key exactly when they fall in the same calendar minute. */
  lemma MinuteKeyInjective(c1: Clock, c2: Clock)
    requires ValidClock(c1) && ValidClock(c2)
    ensures MinuteKey(c1) == MinuteKey(c2) <==> SameMinute(c1, c2)
  {
    if MinuteKey(c1) == MinuteKey(c2) {
      KeyFields(c1);
      KeyFields(c2);
    }
  }

  /** Each field of the clock reads back from its slice of the key. */
  lemma KeyFields(c: Clock)
    requires ValidClock(c)
    ensures var k := MinuteKey(c);
      && Text.DigitsValue(k[..4]) == c.year && Text.DigitsValue(k[4..6]) == c.month
      && Text.DigitsValue(k[6..8]) == c.day && Text.DigitsValue(k[9..11]) == c.hour
      && Text.DigitsValue(k[11..13]) == c.minute
  {
    var k := MinuteKey(c);
    assert k[..4] == Pad(c.year, 4) && k[4..6] == Pad(c.month, 2) && k[6..8] == Pad(c.day, 2);
    assert k[9..11] == Pad(c.hour, 2) && k[11..13] == Pad(c.minute, 2);
    assert Pow10(2) == 100 && Pow10(4) == 10000;
    PadValue(c.year, 4);
    PadValue(c.month, 2);
    PadValue(c.day, 2);
    PadValue(c.hour, 2);
    PadValue(c.minute, 2);
  }

  /** The guards of _run_due_jobs other than the minute key: the job is enabled and scheduled,
      today is one of its days, and the time is its hour and minute. */
  predicate Scheduled(j: Job, c: Clock) {
    j.enabled && j.scheduleEnabled && c.weekday in j.days && c.hour == j.hour && c.minute == j.minute
  }

  /** The job fires at this tick: every guard holds and it has not fired in this minute. */
  predicate Due(j: Job, c: Clock)
    requires ValidClock(c)
  {
    Scheduled(j, c) && j.lastRunKey != MinuteKey(c)
  }

  /** The indices from i on of the jobs due at c, in configuration order. */
  function DueFrom(jobs: seq<Job>, c: Clock, i: nat): (r: seq<nat>)
    requires ValidClock(c) && i <= |jobs|
    ensures forall k | k in r :: i <= k < |jobs| && Due(jobs[k], c)
    ensures forall k | i <= k < |jobs| && Due(jobs[k], c) :: k in r
    decreases |jobs| - i
  {
    if i == |jobs| then []
    else if Due(jobs[i], c) then [i] + DueFrom(jobs, c, i + 1)
    else DueFrom(jobs, c, i + 1)
  }

  /** r lists strictly increasing indices. */
  predicate Ascending(r: seq<nat>) {
    forall a, b | 0 <= a < b < |r| :: r[a] < r[b]
  }

  /** The due jobs come in configuration order, each once. */
  lemma {:induction false} DueFromIncreasing(jobs: seq<Job>, c: Clock, i: nat)
    requires ValidClock(c) && i <= |jobs|
    ensures Ascending(DueFrom(jobs, c, i))
    decreases |jobs| - i
  {
    if i < |jobs| {
      DueFromIncreasing(jobs, c, i + 1);
      var rest := DueFrom(jobs, c, i + 1);
      if Due(jobs[i], c) {
        var r := [i] + rest;
        assert DueFrom(jobs, c, i) == r;
        forall a, b | 0 <= a < b < |r| ensures r[a] < r[b] {
          assert r[b] == rest[b - 1] && rest[b - 1] in rest;
          if a > 0 {
            assert r[a] == rest[a - 1];
          }
        }
      }
    }
  }

  /** The indices of the jobs due at c. */
  function DueIndices(jobs: seq<Job>, c: Clock): seq<nat>
    requires ValidClock(c)
  {
    DueFrom(jobs, c, 0)
  }

  /** The jobs after a tick at c has fired every due job before index n: those carry the
      minute key, all others are untouched. */
  function StampedUpTo(jobs: seq<Job>, c: Clock, n: nat): (r: seq<Job>)
    requires ValidClock(c) && n <= |jobs|
    ensures |r| == |jobs|
  {
    seq(|jobs|, k requires 0 <= k < |jobs| =>
      if k < n && Due(jobs[k], c) then jobs[k].(lastRunKey := MinuteKey(c)) else jobs[k])
  }

  /** Going past job i stamps it exactly when it is due and leaves every other job as it was. */
  lemma StampStep(jobs: seq<Job>, c: Clock, i: nat)
    requires ValidClock(c) && i < |jobs|
    ensures StampedUpTo(jobs, c, i)[i] == jobs[i]
    ensures StampedUpTo(jobs, c, i + 1) ==
      StampedUpTo(jobs, c, i)[i := if Due(jobs[i], c) then jobs[i].(lastRunKey := MinuteKey(c)) else jobs[i]]
  {
  }

  /** Going past job i adds it to the jobs fired so far exactly when it is due; the jobs fired
      so far are always a prefix of the due jobs. */
  lemma DueStep(jobs: seq<Job>, c: Clock, i: nat, fired: seq<nat>)
    requires ValidClock(c) && i < |jobs| && fired + DueFrom(jobs, c, i) == DueIndices(jobs, c)
    ensures var next := if Due(jobs[i], c) then fired + [i] else fired;
      && next + DueFrom(jobs, c, i + 1) == DueIndices(jobs, c)
      && |next| <= |DueIndices(jobs, c)| && DueIndices(jobs, c)[..|next|] == next
  {
    if Due(jobs[i], c) {
      assert (fired + [i]) + DueFrom(jobs, c, i + 1) == fired + DueFrom(jobs, c, i);
    }
  }

  /** After a tick has gone through every job, a second tick in the same minute fires nothing. */
  lemma NothingDueTwice(jobs: seq<Job>, c: Clock, c2: Clock)
    requires ValidClock(c) && ValidClock(c2) && SameMinute(c, c2) && c2.weekday == c.weekday
    ensures DueIndices(StampedUpTo(jobs, c, |jobs|), c2) == []
  {
    MinuteKeyInjective(c, c2);
    var s := StampedUpTo(jobs, c, |jobs|);
    var d := DueIndices(s, c2);
    assert forall k | 0 <= k < |s| :: !Due(s[k], c2);
    NoneDue(s, c2, 0);
  }

  lemma {:induction false} NoneDue(jobs: seq<Job>, c: Clock, i: nat)
    requires ValidClock(c) && i <= |jobs|
    requires forall k | i <= k < |jobs| :: !Due(jobs[k], c)
    ensures DueFrom(jobs, c, i) == []
    decreases |jobs| - i
  {
    if i < |jobs| {
      NoneDue(jobs, c, i + 1);
    }
  }

  /** A tick that stopped at a failing job leaves the jobs it did not reach as due as they were,
      and the ones it fired not due for the rest of the minute. */
  lemma StampedPrefix(jobs: seq<Job>, c: Clock, n: nat, c2: Clock)
    requires ValidClock(c) && ValidClock(c2) && n <= |jobs| && SameMinute(c, c2) && c2.weekday == c.weekday
    ensures forall k | n <= k < |jobs| :: Due(StampedUpTo(jobs, c, n)[k], c2) == Due(jobs[k], c2)
    ensures forall k | 0 <= k < n :: !Due(StampedUpTo(jobs, c, n)[k], c2)
  {
    MinuteKeyInjective(c, c2);
  }

  /** Stamping a job at one tick blocks it only for that calendar minute: at any other reading its
      guards alone decide, so a job fires at most once per minute and again at its next slot. */
  lemma StampBlocksOnlyItsMinute(j: Job, c1: Clock, c2: Clock)
    requires ValidClock(c1) && ValidClock(c2)
    ensures Due(j.(lastRunKey := MinuteKey(c1)), c2) <==> Scheduled(j, c2) && !SameMinute(c1, c2)
  {
    MinuteKeyInjective(c1, c2);
  }

  /** An example: a Monday 03:00 job fires at 03:00 on a Monday and not a minute
      later, nor at 03:00 on a Tuesday. */
  lemma MondayExample(j: Job, mon: Clock, later: Clock, tue: Clock)
    requires j.enabled && j.scheduleEnabled && j.days == [0] && j.hour == 3 && j.minute == 0 && j.lastRunKey == ""
    requires mon == Clock(2024, 1, 1, 3, 0, 0) && later == mon.(minute := 1) && tue == Clock(2024, 1, 2, 3, 0, 1)
    ensures Due(j, mon)
    ensures !Due(j.(lastRunKey := MinuteKey(mon)), mon)
    ensures !Due(j, later) && !Due(j, tue)
  {
    assert |MinuteKey(mon)| == 13;
  }
}
