/**
 * The app component's state and its event handlers. Each field is one
 * `useState` slot; each handler reassigns the slots the component's setters
 * reassign, and its postcondition ties the new state to the matching
 * transition of `Progress`, so every lemma there applies to the object.
 */
module App {
  import opened Wrappers
  import opened Time
  import opened Achievements
  import Progress

  class Tracker {
    /** `achievementsList`, fixed for the lifetime of the component. */
    const catalog: Catalog
    var count: nat
    var history: seq<Timestamp>
    var unlocked: seq<int>
    var isMuted: bool

    /** The component's persisted state as a value. */
    function Snapshot(): Progress.State
      reads this
    {
      Progress.State(count, history, unlocked, isMuted)
    }

    /** The invariant the handlers keep. */
    predicate Valid()
      reads this
    {
      Progress.Valid(catalog, Snapshot())
    }

    /**
     * A component with catalog `catalog` whose state was restored as `saved`
     * (`Progress.Initial` when nothing was stored).
     */
    constructor (catalog: Catalog, saved: Progress.State)
      ensures this.catalog == catalog && Snapshot() == saved
      ensures Progress.Valid(catalog, saved) ==> Valid()
    {
      this.catalog := catalog;
      count := saved.count;
      history := saved.history;
      unlocked := saved.unlocked;
      isMuted := saved.isMuted;
    }

    /**
     * `checkAchievements(newCount)`: when `newCount` is a threshold, return
     * its record for the notification and append it to `unlocked` unless
     * it is already there.
     */
    method CheckAchievements(newCount: int) returns (shown: Option<Record>)
      modifies this`unlocked
      ensures shown == (if newCount in catalog then Some(catalog[newCount]) else None)
      ensures unlocked == (if newCount in catalog && newCount !in old(unlocked)
                           then old(unlocked) + [newCount] else old(unlocked))
      ensures Progress.CheckAchievements(catalog, old(unlocked), newCount) == Progress.Checked(unlocked, shown)
    {
      shown := None;
      if newCount in catalog {
        var achievement := catalog[newCount];
        shown := Some(achievement);
        if newCount !in unlocked {
          unlocked := unlocked + [newCount];
        }
      }
    }

    /** `handleClick` at time `now`; returns the notification to show, if any. */
    method HandleClick(now: Timestamp) returns (shown: Option<Record>)
      modifies this
      ensures count == old(count) + 1
      ensures history == old(history) + [now]
      ensures isMuted == old(isMuted)
      ensures Progress.Click(catalog, old(Snapshot()), now) == Progress.Clicked(Snapshot(), shown)
      ensures old(Valid()) ==> Valid()
    {
      var newCount := count + 1;
      count := newCount;
      history := history + [now];
      shown := CheckAchievements(newCount);
    }

    /** `handleUndo`: nothing at zero; otherwise one search and its timestamp fewer. */
    method HandleUndo()
      modifies this
      ensures old(count) == 0 ==> Snapshot() == old(Snapshot())
      ensures old(count) > 0 ==> count == old(count) - 1
      ensures unlocked == old(unlocked) && isMuted == old(isMuted)
      ensures Snapshot() == Progress.Undo(old(Snapshot()))
      ensures old(Valid()) ==> Valid()
    {
      if count > 0 {
        count := count - 1;
        if history != [] {
          history := history[..|history| - 1];
        }
      }
    }

    /** `handleReset`; `confirmed` is the answer to `window.confirm`. */
    method HandleReset(confirmed: bool)
      modifies this
      ensures confirmed ==> count == 0 && history == [] && unlocked == []
      ensures !confirmed ==> Snapshot() == old(Snapshot())
      ensures isMuted == old(isMuted)
      ensures Snapshot() == Progress.Reset(old(Snapshot()), confirmed)
      ensures old(Valid()) ==> Valid()
    {
      if confirmed {
        count := 0;
        history := [];
        unlocked := [];
      }
    }

    /** The mute button's `setIsMuted(!isMuted)`. */
    method ToggleMute()
      modifies this`isMuted
      ensures isMuted == !old(isMuted)
      ensures Snapshot() == Progress.ToggleMute(old(Snapshot()))
    {
      isMuted := !isMuted;
    }
  }

  /**
   * A session on one component: three clicks against a two-entry catalog,
   * an undo and another click. The undo keeps the unlock of 3, and the
   * click that reaches 3 again shows its notification again.
   */
  method Session(t1: Timestamp, t2: Timestamp, t3: Timestamp, t4: Timestamp)
  {
    var first := Record("First!", "a");
    var triple := Record("Triple", "b");
    var tracker := new Tracker(map[1 := first, 3 := triple], Progress.Initial);
    var shown := tracker.HandleClick(t1);
    assert shown == Some(first);
    shown := tracker.HandleClick(t2);
    assert shown == None;
    shown := tracker.HandleClick(t3);
    assert shown == Some(triple) && tracker.unlocked == [1, 3];
    tracker.HandleUndo();
    assert tracker.count == 2 && tracker.history == [t1, t2] && tracker.unlocked == [1, 3];
    shown := tracker.HandleClick(t4);
    assert shown == Some(triple) && tracker.unlocked == [1, 3];
    tracker.HandleReset(false);
    assert tracker.count == 3;
    tracker.HandleReset(true);
    assert tracker.Snapshot() == Progress.Initial;
  }
}
