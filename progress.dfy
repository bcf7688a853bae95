/**
 * The counter's progress state and the transitions the app's handlers make
 * on it: click, undo, reset and the mute toggle. Each transition is a pure
 * function of the old state; the `Tracker` class performs the same steps by
 * updating its fields, and its methods are proved equal to these functions.
 */
module Progress {
  import opened Wrappers
  import opened Time
  import opened Achievements

  /** The four persisted pieces of state of the app component. */
  datatype State = State(count: nat, history: seq<Timestamp>, unlocked: seq<int>, isMuted: bool)

  /** The state the component starts with before anything is restored. */
  const Initial: State := State(0, [], [], false)

  /** No threshold is listed twice. */
  predicate NoDuplicates(u: seq<int>)
  {
    forall i, j :: 0 <= i < j < |u| ==> u[i] != u[j]
  }

  /**
   * The invariant the handlers keep: one timestamp per counted search, and
   * every unlocked threshold a catalog key, each listed once.
   */
  predicate Valid(catalog: Catalog, s: State)
  {
    && |s.history| == s.count
    && NoDuplicates(s.unlocked)
    && forall k :: k in s.unlocked ==> k in catalog
  }

  /** What `checkAchievements` produces: the new unlocked list and the notification. */
  datatype Checked = Checked(unlocked: seq<int>, shown: Option<Record>)

  /**
   * `checkAchievements(newCount)`: when `newCount` is a threshold, show its
   * record (even when it was unlocked before) and add it to `unlocked`
   * unless it is already there.
   */
  function CheckAchievements(catalog: Catalog, unlocked: seq<int>, newCount: int): (r: Checked)
    ensures r.shown.Some? <==> newCount in catalog
    ensures r.shown.Some? ==> r.shown.value == catalog[newCount]
    ensures |unlocked| <= |r.unlocked| <= |unlocked| + 1
    ensures r.unlocked[..|unlocked|] == unlocked
    ensures forall k :: k in r.unlocked <==> k in unlocked || (k == newCount && newCount in catalog)
    ensures newCount !in catalog || newCount in unlocked ==> r.unlocked == unlocked
    ensures NoDuplicates(unlocked) ==> NoDuplicates(r.unlocked)
  {
    match Lookup(catalog, newCount)
    case Some(achievement) =>
      Checked(if newCount !in unlocked then unlocked + [newCount] else unlocked, Some(achievement))
    case None =>
      Checked(unlocked, None)
  }

  /** The outcome of a click: the new state and the notification to show. */
  datatype Clicked = Clicked(state: State, shown: Option<Record>)

  /**
   * `handleClick` at time `now`: count one more search, record its
   * timestamp at the end of the history, then check the achievements.
   */
  function Click(catalog: Catalog, s: State, now: Timestamp): (r: Clicked)
    ensures r.state.count == s.count + 1
    ensures |r.state.history| == |s.history| + 1
    ensures r.state.history[..|s.history|] == s.history && r.state.history[|s.history|] == now
    ensures r.state.isMuted == s.isMuted
    ensures r.shown.Some? <==> s.count + 1 in catalog
    ensures r.shown.Some? ==> r.shown.value == catalog[s.count + 1]
    ensures |s.unlocked| <= |r.state.unlocked| <= |s.unlocked| + 1
    ensures r.state.unlocked[..|s.unlocked|] == s.unlocked
    ensures forall k :: k in r.state.unlocked <==> k in s.unlocked || (k == s.count + 1 && k in catalog)
    ensures s.count + 1 !in catalog || s.count + 1 in s.unlocked ==> r.state.unlocked == s.unlocked
    ensures Valid(catalog, s) ==> Valid(catalog, r.state)
  {
    var newCount := s.count + 1;
    var checked := CheckAchievements(catalog, s.unlocked, newCount);
    Clicked(State(newCount, s.history + [now], checked.unlocked, s.isMuted), checked.shown)
  }

  /**
   * `handleUndo`: at zero nothing happens; otherwise the count drops by one
   * and `history.slice(0, -1)` drops the last timestamp. Unlocks stay.
   */
  function Undo(s: State): (r: State)
    ensures s.count == 0 ==> r == s
    ensures s.count > 0 ==> r.count == s.count - 1
    ensures s.count > 0 && s.history != [] ==> r.history + [s.history[|s.history| - 1]] == s.history
    ensures s.count > 0 && s.history == [] ==> r.history == []
    ensures r.unlocked == s.unlocked && r.isMuted == s.isMuted
    ensures |s.history| == s.count ==> |r.history| == r.count
  {
    if s.count > 0 then
      s.(count := s.count - 1, history := if s.history == [] then [] else s.history[..|s.history| - 1])
    else
      s
  }

  /**
   * `handleReset`, with the answer to the confirmation dialog as `confirmed`:
   * when confirmed, everything but the mute setting returns to its default.
   */
  function Reset(s: State, confirmed: bool): (r: State)
    ensures !confirmed ==> r == s
    ensures confirmed ==> r.count == 0 && r.history == [] && r.unlocked == []
    ensures r.isMuted == s.isMuted
    ensures confirmed ==> r == Initial.(isMuted := s.isMuted)
  {
    if confirmed then s.(count := 0, history := [], unlocked := []) else s
  }

  /** The mute button: flips `isMuted` and nothing else. */
  function ToggleMute(s: State): (r: State)
    ensures r.isMuted == !s.isMuted
    ensures r.(isMuted := s.isMuted) == s
  {
    s.(isMuted := !s.isMuted)
  }

  /** What the user can do, in the order the handlers receive it. */
  datatype Action = Clicking(now: Timestamp) | Undoing | Resetting(confirmed: bool) | Muting

  /** One handler call. */
  function Step(catalog: Catalog, s: State, a: Action): (r: State)
    ensures Valid(catalog, s) ==> Valid(catalog, r)
  {
    match a
    case Clicking(now) => Click(catalog, s, now).state
    case Undoing => Undo(s)
    case Resetting(confirmed) => Reset(s, confirmed)
    case Muting => ToggleMute(s)
  }

  /** A sequence of handler calls, first to last. */
  function Run(catalog: Catalog, s: State, actions: seq<Action>): (r: State)
    decreases |actions|
  {
    if actions == [] then s else Run(catalog, Step(catalog, s, actions[0]), actions[1..])
  }

  /** `n` presses of the undo button. */
  function Undos(n: nat): (r: seq<Action>)
  {
    if n == 0 then [] else [Undoing] + Undos(n - 1)
  }

  /** One click per timestamp, in order. */
  function Clicks(times: seq<Timestamp>): (r: seq<Action>)
  {
    if times == [] then [] else [Clicking(times[0])] + Clicks(times[1..])
  }

  /** Every sequence of handler calls keeps the invariant. */
  lemma {:induction false} RunPreservesValid(catalog: Catalog, s: State, actions: seq<Action>)
    requires Valid(catalog, s)
    ensures Valid(catalog, Run(catalog, s, actions))
    decreases |actions|
  {
    if actions != [] {
      RunPreservesValid(catalog, Step(catalog, s, actions[0]), actions[1..]);
    }
  }

  /**
   * Unlocks are permanent: without a confirmed reset, a threshold once
   * unlocked stays unlocked whatever is clicked, undone or toggled.
   */
  lemma {:induction false} UnlocksPermanent(catalog: Catalog, s: State, actions: seq<Action>, k: int)
    requires forall i :: 0 <= i < |actions| ==> actions[i] != Resetting(true)
    requires k in s.unlocked
    ensures k in Run(catalog, s, actions).unlocked
    decreases |actions|
  {
    if actions != [] {
      assert actions[0] != Resetting(true);
      UnlocksPermanent(catalog, Step(catalog, s, actions[0]), actions[1..], k);
    }
  }

  /**
   * Pressing undo `n` times removes the last `n` timestamps (or all of
   * them), stops at zero and leaves the unlocked list as it was.
   */
  lemma {:induction false} UndosKeepUnlocks(catalog: Catalog, s: State, n: nat)
    requires |s.history| == s.count
    ensures var r := Run(catalog, s, Undos(n));
      && r.count == (if n <= s.count then s.count - n else 0)
      && r.history == s.history[..r.count]
      && r.unlocked == s.unlocked
      && r.isMuted == s.isMuted
    decreases n
  {
    if n > 0 {
      assert Undos(n)[0] == Undoing && Undos(n)[1..] == Undos(n - 1);
      var u := Undo(s);
      assert Run(catalog, s, Undos(n)) == Run(catalog, u, Undos(n - 1));
      UndosKeepUnlocks(catalog, u, n - 1);
      if s.count > 0 {
        var r := Run(catalog, u, Undos(n - 1));
        assert u.history == s.history[..s.count - 1];
        assert r.history == s.history[..s.count - 1][..r.count];
      }
    }
  }

  /** Clicking at each of `times` counts them all and appends them, in order. */
  lemma {:induction false} ClicksAppend(catalog: Catalog, s: State, times: seq<Timestamp>)
    ensures var r := Run(catalog, s, Clicks(times));
      r.count == s.count + |times| && r.history == s.history + times && r.isMuted == s.isMuted
    decreases |times|
  {
    if times != [] {
      var c := Click(catalog, s, times[0]).state;
      assert Clicks(times)[0] == Clicking(times[0]) && Clicks(times)[1..] == Clicks(times[1..]);
      ClicksAppend(catalog, c, times[1..]);
      assert c.history == s.history + [times[0]];
      assert times == [times[0]] + times[1..];
    }
  }

  /** From the initial state, `N` clicks give count `N` and exactly their timestamps. */
  lemma ClicksFromInitial(catalog: Catalog, times: seq<Timestamp>)
    ensures Run(catalog, Initial, Clicks(times)).count == |times|
    ensures Run(catalog, Initial, Clicks(times)).history == times
  {
    ClicksAppend(catalog, Initial, times);
  }

  /**
   * Undo is the inverse of click on the count and the history; the
   * unlock the click may have made is kept.
   */
  lemma UndoAfterClick(catalog: Catalog, s: State, now: Timestamp)
    ensures var c := Click(catalog, s, now).state;
      Undo(c) == s.(unlocked := c.unlocked)
  {
  }

  /** The set of thresholds listed in `u`. */
  function Elements(u: seq<int>): (r: set<int>)
  {
    set k | k in u
  }

  /** A list without duplicates has as many elements as its set. */
  lemma {:induction false} DistinctCardinality(u: seq<int>)
    requires NoDuplicates(u)
    ensures |Elements(u)| == |u|
    decreases |u|
  {
    if u != [] {
      var rest := u[1..];
      assert NoDuplicates(rest) by {
        forall i, j | 0 <= i < j < |rest| ensures rest[i] != rest[j] {
          assert rest[i] == u[i + 1] && rest[j] == u[j + 1];
        }
      }
      DistinctCardinality(rest);
      assert u[0] !in rest by {
        forall i | 0 <= i < |rest| ensures rest[i] != u[0] {
          assert rest[i] == u[i + 1];
        }
      }
      assert Elements(u) == Elements(rest) + {u[0]};
    }
  }

  /** A subset is no larger than its superset. */
  lemma SubsetCardinality(small: set<int>, large: set<int>)
    requires small <= large
    ensures |small| <= |large|
  {
    assert large == small + (large - small);
  }

  /** The achievements heading: how many are unlocked out of how many exist. */
  datatype Tally = Tally(unlocked: nat, total: nat)

  /** `unlockedAchievements.length` over `Object.keys(achievementsList).length`. */
  function Score(catalog: Catalog, s: State): (r: Tally)
    ensures Valid(catalog, s) ==> r.unlocked <= r.total
  {
    if Valid(catalog, s) then
      DistinctCardinality(s.unlocked);
      SubsetCardinality(Elements(s.unlocked), catalog.Keys);
      Tally(|s.unlocked|, |catalog|)
    else
      Tally(|s.unlocked|, |catalog|)
  }

  /** `unlockedAchievements.includes(key)`: the badge for `key` is drawn open. */
  predicate IsUnlocked(s: State, key: int)
  {
    key in s.unlocked
  }

  /** The tally's numerator is the number of catalog entries drawn as unlocked. */
  lemma TallyCountsBadges(catalog: Catalog, s: State)
    requires Valid(catalog, s)
    ensures Score(catalog, s).unlocked == |set k | k in catalog && IsUnlocked(s, k)|
  {
    DistinctCardinality(s.unlocked);
    assert (set k | k in catalog && IsUnlocked(s, k)) == Elements(s.unlocked);
  }

  /** The first two clicks of the worked example: the first unlocks 1, the second nothing. */
  lemma TwoClicksExample(t1: Timestamp, t2: Timestamp)
    ensures var catalog := map[1 := Record("First!", "a"), 3 := Record("Triple", "b")];
      var c1 := Click(catalog, Initial, t1);
      var c2 := Click(catalog, c1.state, t2);
      && c1.shown == Some(Record("First!", "a"))
      && c2.shown == None
      && c2.state == State(2, [t1, t2], [1], false)
  {
    var catalog := map[1 := Record("First!", "a"), 3 := Record("Triple", "b")];
    var c1 := Click(catalog, Initial, t1);
    assert c1.state == State(1, [t1], [1], false);
    assert 2 !in catalog;
  }

  /**
   * The worked example: with thresholds 1 and 3, three clicks from the
   * initial state notify on the first and third and unlock [1, 3].
   */
  lemma ThreeClicksExample(t1: Timestamp, t2: Timestamp, t3: Timestamp)
    ensures var catalog := map[1 := Record("First!", "a"), 3 := Record("Triple", "b")];
      var c1 := Click(catalog, Initial, t1);
      var c2 := Click(catalog, c1.state, t2);
      var c3 := Click(catalog, c2.state, t3);
      && c1.shown == Some(Record("First!", "a"))
      && c2.shown == None
      && c3.shown == Some(Record("Triple", "b"))
      && c3.state == State(3, [t1, t2, t3], [1, 3], false)
  {
    TwoClicksExample(t1, t2);
  }
}
