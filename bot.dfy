/**
 * The bot's state and commands: the `games` and `rewards` tables and the
 * messages sent to the alert channel, updated in place by the `/add` and
 * `/remove` commands and by one run of the hourly drop check.
 */
module Bot {
  import opened Wrappers
  import opened Text
  import opened EndTime
  import opened Tables
  import opened DropCheck

  datatype Outcome = Completed | Aborted(error: CycleError)

  class Notifier {
    /** The `games` table: one row per `/add`, duplicates allowed. */
    var games: seq<Subscription>
    /** The `rewards` table: the ledger of announced reward ids, append-only. */
    var rewards: seq<LedgerRow>
    /** The messages sent to the alert channel, oldest first. */
    var outbox: seq<Notification>

    /** The ledger is keyed by lower-cased game names. */
    ghost predicate Valid()
      reads this
    {
      forall row :: row in rewards ==> IsLower(row.gameName)
    }

    constructor ()
      ensures Valid() && games == [] && rewards == [] && outbox == []
    {
      games, rewards, outbox := [], [], [];
    }

    /** `/add game`: appends one row, with no check for an existing one. */
    method Add(userId: string, game: string)
      requires Valid()
      modifies this
      ensures Valid()
      ensures games == old(games) + [Subscription(userId, game)]
      ensures rewards == old(rewards) && outbox == old(outbox)
    {
      games := games + [Subscription(userId, game)];
    }

    /** `/remove game`: deletes every row with this user and this exact name. */
    method Remove(userId: string, game: string)
      requires Valid()
      modifies this
      ensures Valid()
      ensures games == Without(old(games), Subscription(userId, game))
      ensures rewards == old(rewards) && outbox == old(outbox)
    {
      games := Without(games, Subscription(userId, game));
    }

    /** `/game_list`: every tracked name once, whoever tracks it. */
    method GameList() returns (names: seq<string>)
      ensures forall n :: n in names <==> exists g :: g in games && g.gameName == n
      ensures NoDuplicates(names)
    {
      names := DistinctNames(games);
    }

    /**
     * One run of `drop_check` on the feed snapshot `feed` (`None` when the
     * request or its decoding fails). The ledger gains exactly the rows the
     * run inserts and the channel exactly its messages, in order; the
     * subscriptions are untouched.
     */
    method DropCheck(feed: Option<seq<Drop>>) returns (outcome: Outcome)
      requires Valid()
      modifies this
      ensures Valid() && games == old(games)
      ensures var t := RunCycle(old(games), old(rewards), feed);
        && rewards == old(rewards) + Inserted(t)
        && outbox == old(outbox) + Notes(t.deliveries)
        && outcome == (if t.halt.None? then Completed else Aborted(t.halt.value.error))
    {
      if feed.None? {
        return Aborted(FeedUnavailable);
      }
      var failure;
      ghost var t;
      failure, t := CheckGames(DistinctNames(games), feed.value, NotifiedIds(rewards));
      outcome := if failure.Some? then Aborted(failure.value) else Completed;
    }

    /**
     * The outer loop of `drop_check` over the tracked names, against the
     * feed `data` and the reward ids `notified` already in the ledger.
     * Returns the error that stops the run, if any.
     */
    method CheckGames(tracked: seq<string>, data: seq<Drop>, notified: set<string>)
      returns (failure: Option<CycleError>, ghost t: Trace)
      requires Valid()
      modifies this
      ensures Valid() && games == old(games)
      ensures t == ScanGames(Fresh, tracked, data, notified)
      ensures failure == (if t.halt.Some? then Some(t.halt.value.error) else None)
      ensures Written(old(rewards), old(outbox), t, rewards, outbox)
    {
      t := Fresh;
      var i := 0;
      while i < |tracked|
        invariant 0 <= i <= |tracked|
        invariant games == old(games) && Valid()
        invariant t == ScanGames(Fresh, tracked[..i], data, notified) && t.halt.None?
        invariant Written(old(rewards), old(outbox), t, rewards, outbox)
      {
        assert tracked[..i + 1][..i] == tracked[..i];
        failure, t := CheckGame(tracked[i], data, notified, t, old(rewards), old(outbox));
        if failure.Some? {
          OuterStops(Fresh, tracked, data, notified, i + 1);
          return;
        }
        i := i + 1;
      }
      assert tracked[..i] == tracked;
      failure := None;
    }

    /**
     * The inner loop of `drop_check` for the tracked name `gameName`, from
     * the run so far `t0` (`ledger0` and `outbox0` are the tables before the
     * run). Returns the error that stops the run, if any.
     */
    method CheckGame(gameName: string, data: seq<Drop>, notified: set<string>, ghost t0: Trace,
                     ghost ledger0: seq<LedgerRow>, ghost outbox0: seq<Notification>)
      returns (failure: Option<CycleError>, ghost t: Trace)
      requires Valid() && t0.halt.None?
      requires Written(ledger0, outbox0, t0, rewards, outbox)
      modifies this
      ensures Valid() && games == old(games)
      ensures t == ScanDrops(t0, gameName, data, notified)
      ensures failure == (if t.halt.Some? then Some(t.halt.value.error) else None)
      ensures Written(ledger0, outbox0, t, rewards, outbox)
    {
      t := t0;
      var j := 0;
      while j < |data|
        invariant 0 <= j <= |data|
        invariant games == old(games) && Valid()
        invariant t == ScanDrops(t0, gameName, data[..j], notified) && t.halt.None?
        invariant Written(ledger0, outbox0, t, rewards, outbox)
      {
        ScanDropsStep(t0, gameName, data, j, notified);
        ghost var step := StepOf(gameName, data[j], notified);
        WrittenStep(ledger0, outbox0, t, step, rewards, outbox);
        failure := CheckDrop(gameName, data[j], notified);
        t := Extend(t, step);
        if failure.Some? {
          InnerStops(t0, gameName, data, notified, j + 1);
          return;
        }
        j := j + 1;
      }
      assert data[..j] == data;
      failure := None;
    }

    /**
     * The body of the inner loop of `drop_check` (app.py lines 142-175) for
     * one tracked name and one drop: the ledger and the channel grow by what
     * the step writes, and the step's error, if any, is returned.
     */
    method CheckDrop(gameName: string, drop: Drop, notified: set<string>) returns (failure: Option<CycleError>)
      requires Valid()
      modifies this
      ensures Valid() && games == old(games)
      ensures var step := StepOf(gameName, drop, notified);
        && rewards == old(rewards) + StepRows(step)
        && outbox == old(outbox) + StepNotes(step)
        && failure == (if step.Fail? then Some(step.halt.error) else None)
    {
      failure := None;
      if Lower(drop.gameDisplayName) == Lower(gameName) {
        if |drop.rewards| == 0 {
          return Some(NoRewards(drop.gameDisplayName));
        }
        var rewardId := drop.rewards[0].id;
        if rewardId !in notified {
          rewards := rewards + [LedgerRow(Lower(gameName), rewardId)];
          var endsAt := EndAtUtc(drop.endAt);
          if endsAt.None? {
            return Some(BadEndAt(drop.endAt));
          }
          outbox := outbox + [Notification(drop.gameDisplayName, drop.rewards[0].name, drop.rewards[0].imageURL, endsAt.value)];
        }
      }
    }
  }
}
