/**
 * The statistics panel, `getStats`: searches today, searches in the last
 * week, whole days since the first search and the average per day, all
 * derived from the timestamp history, the count and the current time.
 */
module Statistics {
  import opened Wrappers
  import opened Time

  /** What the panel shows. `avgPerDay` is the exact quotient before `toFixed(1)`. */
  datatype Stats = Stats(todayCount: nat, weekCount: nat, avgPerDay: real, daysSince: int)

  /** `history.filter(d => midnight(d) == today).length`. */
  function CountSameDay(history: seq<Timestamp>, midnight: Timestamp -> Timestamp, today: Timestamp): (n: nat)
    ensures n <= |history|
    ensures n == 0 <==> forall i :: 0 <= i < |history| ==> midnight(history[i]) != today
    decreases |history|
  {
    if history == [] then 0
    else (if midnight(history[0]) == today then 1 else 0) + CountSameDay(history[1..], midnight, today)
  }

  /** `history.filter(d => d > bound).length`. */
  function CountAfter(history: seq<Timestamp>, bound: Timestamp): (n: nat)
    ensures n <= |history|
    ensures n == |history| <==> forall i :: 0 <= i < |history| ==> history[i] > bound
    decreases |history|
  {
    if history == [] then 0
    else (if history[0] > bound then 1 else 0) + CountAfter(history[1..], bound)
  }

  /**
   * `getStats()` read at time `now`: absent on an empty history; otherwise
   * the two filtered counts, `Math.floor((now - history[0]) / DAY)` and
   * `count / daysSince`, or `count` itself when `daysSince` is not positive.
   */
  function GetStats(history: seq<Timestamp>, count: nat, now: Timestamp,
                    midnight: Timestamp -> Timestamp, weekStart: Timestamp -> Timestamp): (r: Option<Stats>)
    ensures r.None? <==> history == []
    ensures r.Some? ==> r.value.todayCount <= |history| && r.value.weekCount <= |history|
    ensures r.Some? ==> r.value.daysSince * DAY <= now - history[0] < (r.value.daysSince + 1) * DAY
    ensures r.Some? && r.value.daysSince > 0 ==> r.value.avgPerDay * (r.value.daysSince as real) == count as real
    ensures r.Some? && r.value.daysSince <= 0 ==> r.value.avgPerDay == count as real
  {
    if history == [] then None
    else
      var today := midnight(now);
      var todayCount := CountSameDay(history, midnight, today);
      var weekCount := CountAfter(history, weekStart(now));
      var daysSince := (now - history[0]) / DAY;
      var avgPerDay := if daysSince > 0 then count as real / daysSince as real else count as real;
      Some(Stats(todayCount, weekCount, avgPerDay, daysSince))
  }

  /** Every entry from today lies after the start of the week window. */
  lemma {:induction false} SameDayWithinWeek(history: seq<Timestamp>, now: Timestamp,
                                             midnight: Timestamp -> Timestamp, weekStart: Timestamp -> Timestamp)
    requires IsCalendar(midnight, weekStart)
    ensures CountSameDay(history, midnight, midnight(now)) <= CountAfter(history, weekStart(now))
    decreases |history|
  {
    if history != [] {
      SameDayWithinWeek(history[1..], now, midnight, weekStart);
      if midnight(history[0]) == midnight(now) {
        assert history[0] >= midnight(history[0]) > weekStart(now);
      }
    }
  }

  /** The panel's counts are ordered: today, then the week, then everything. */
  lemma StatsOrdered(history: seq<Timestamp>, count: nat, now: Timestamp,
                     midnight: Timestamp -> Timestamp, weekStart: Timestamp -> Timestamp)
    requires IsCalendar(midnight, weekStart)
    requires history != []
    ensures var st := GetStats(history, count, now, midnight, weekStart).value;
      st.todayCount <= st.weekCount <= |history|
  {
    SameDayWithinWeek(history, now, midnight, weekStart);
  }

  /** Counting over a concatenation adds the counts of the two parts. */
  lemma {:induction false} CountsAppend(a: seq<Timestamp>, b: seq<Timestamp>, midnight: Timestamp -> Timestamp,
                                        today: Timestamp, bound: Timestamp)
    ensures CountSameDay(a + b, midnight, today) == CountSameDay(a, midnight, today) + CountSameDay(b, midnight, today)
    ensures CountAfter(a + b, bound) == CountAfter(a, bound) + CountAfter(b, bound)
    decreases |a|
  {
    if a != [] {
      assert (a + b)[0] == a[0] && (a + b)[1..] == a[1..] + b;
      CountsAppend(a[1..], b, midnight, today, bound);
    } else {
      assert a + b == b;
    }
  }

  /**
   * A search recorded now adds one to today's and the week's counts and
   * leaves the day count alone: what the panel shows right after a click.
   */
  lemma StatsAfterClick(history: seq<Timestamp>, count: nat, now: Timestamp,
                        midnight: Timestamp -> Timestamp, weekStart: Timestamp -> Timestamp)
    requires IsCalendar(midnight, weekStart)
    requires history != []
    ensures var before := GetStats(history, count, now, midnight, weekStart).value;
      var after := GetStats(history + [now], count + 1, now, midnight, weekStart).value;
      && after.todayCount == before.todayCount + 1
      && after.weekCount == before.weekCount + 1
      && after.daysSince == before.daysSince
  {
    CountsAppend(history, [now], midnight, midnight(now), weekStart(now));
    assert now >= midnight(now) > weekStart(now);
    assert (history + [now])[0] == history[0];
  }

  /** One search, made just now: one today, one this week, zero days, average = count. */
  lemma SingleEntry(count: nat, now: Timestamp, midnight: Timestamp -> Timestamp, weekStart: Timestamp -> Timestamp)
    requires IsCalendar(midnight, weekStart)
    ensures GetStats([now], count, now, midnight, weekStart) == Some(Stats(1, 1, count as real, 0))
  {
  }
}
