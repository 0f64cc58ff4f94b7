/**
 * One run of the hourly drop check, as a pure specification: the feed
 * snapshot, the distinct tracked names and the ledger's reward ids read once
 * at the start; then, for each tracked name (outer) and each drop (inner), a
 * step that skips, records and announces, or raises. A raised error ends the
 * run; rows already inserted and messages already sent stay.
 */
module DropCheck {
  import opened Wrappers
  import opened Text
  import opened EndTime
  import opened Tables

  datatype Reward = Reward(id: string, name: string, imageURL: string)

  /** One element of the feed: `gameDisplayName`, `rewards`, `endAt`. */
  datatype Drop = Drop(gameDisplayName: string, rewards: seq<Reward>, endAt: string)

  /** The payload of the message sent to the channel: title, reward name, image and end second. */
  datatype Notification = Notification(title: string, rewardName: string, imageURL: string, endsAt: int)

  datatype CycleError =
    | FeedUnavailable          // the request or its JSON decoding failed
    | NoRewards(game: string)  // `drop['rewards'][0]` on an empty list (IndexError)
    | BadEndAt(endAt: string)  // `datetime.fromisoformat` rejected the end time (ValueError)

  datatype Delivery = Delivery(row: LedgerRow, note: Notification)

  /** Why a run stopped, and the ledger row it inserted just before, if any. */
  datatype Halt = Halt(error: CycleError, partial: Option<LedgerRow>)

  datatype Step = Skip | Deliver(delivery: Delivery) | Fail(halt: Halt)

  /** What a run has done so far: the deliveries in order, and whether it has stopped. */
  datatype Trace = Trace(deliveries: seq<Delivery>, halt: Option<Halt>)

  const Fresh := Trace([], None)

  /** The body of the inner loop (app.py lines 142-175) for one tracked name and one drop. */
  function StepOf(gameName: string, drop: Drop, notified: set<string>): Step {
    if !SameGame(drop.gameDisplayName, gameName) then Skip
    else if |drop.rewards| == 0 then Fail(Halt(NoRewards(drop.gameDisplayName), None))
    else
      var reward := drop.rewards[0];
      if reward.id in notified then Skip
      else
        var row := LedgerRow(Lower(gameName), reward.id);
        match EndAtUtc(drop.endAt)
        case None => Fail(Halt(BadEndAt(drop.endAt), Some(row)))
        case Some(ts) => Deliver(Delivery(row, Notification(drop.gameDisplayName, reward.name, reward.imageURL, ts)))
  }

  /** Runs one step, unless the run has already stopped. */
  function Extend(t: Trace, s: Step): Trace {
    if t.halt.Some? then t
    else match s
      case Skip => t
      case Deliver(d) => Trace(t.deliveries + [d], None)
      case Fail(h) => Trace(t.deliveries, Some(h))
  }

  /** The inner loop over the drops `ds`, from the trace `t`. */
  function ScanDrops(t: Trace, gameName: string, ds: seq<Drop>, notified: set<string>): Trace
    decreases |ds|
  {
    if ds == [] then t
    else Extend(ScanDrops(t, gameName, ds[..|ds| - 1], notified), StepOf(gameName, ds[|ds| - 1], notified))
  }

  /** One more drop in the inner loop is one more step. */
  lemma ScanDropsStep(t: Trace, g: string, ds: seq<Drop>, j: nat, notified: set<string>)
    requires j < |ds|
    ensures ScanDrops(t, g, ds[..j + 1], notified) == Extend(ScanDrops(t, g, ds[..j], notified), StepOf(g, ds[j], notified))
  {
    assert ds[..j + 1][..j] == ds[..j];
  }

  /** The outer loop over the tracked names `gs`, each scanning the whole feed. */
  function ScanGames(t: Trace, gs: seq<string>, feed: seq<Drop>, notified: set<string>): Trace
    decreases |gs|
  {
    if gs == [] then t
    else ScanDrops(ScanGames(t, gs[..|gs| - 1], feed, notified), gs[|gs| - 1], feed, notified)
  }

  /** A whole run on the tables `games` and `ledger` as they were when it started. */
  function RunCycle(games: seq<Subscription>, ledger: seq<LedgerRow>, feed: Option<seq<Drop>>): Trace {
    match feed
    case None => Trace([], Some(Halt(FeedUnavailable, None)))
    case Some(data) => ScanGames(Fresh, DistinctNames(games), data, NotifiedIds(ledger))
  }

  function Rows(ds: seq<Delivery>): (r: seq<LedgerRow>)
    ensures |r| == |ds| && forall k :: 0 <= k < |ds| ==> r[k] == ds[k].row
  {
    if ds == [] then [] else Rows(ds[..|ds| - 1]) + [ds[|ds| - 1].row]
  }

  function Notes(ds: seq<Delivery>): (r: seq<Notification>)
    ensures |r| == |ds| && forall k :: 0 <= k < |ds| ==> r[k] == ds[k].note
  {
    if ds == [] then [] else Notes(ds[..|ds| - 1]) + [ds[|ds| - 1].note]
  }

  lemma RowsNotesSnoc(ds: seq<Delivery>, d: Delivery)
    ensures Rows(ds + [d]) == Rows(ds) + [d.row]
    ensures Notes(ds + [d]) == Notes(ds) + [d.note]
  {
    assert (ds + [d])[..|ds|] == ds;
  }

  /** The ledger rows one step inserts. */
  function StepRows(s: Step): seq<LedgerRow> {
    match s
    case Skip => []
    case Deliver(d) => [d.row]
    case Fail(h) => if h.partial.Some? then [h.partial.value] else []
  }

  /** The messages one step sends. */
  function StepNotes(s: Step): seq<Notification> {
    if s.Deliver? then [s.delivery.note] else []
  }

  /** The tables a running trace has written grow by what the next step writes. */
  lemma ExtendTables(t: Trace, s: Step)
    requires t.halt.None?
    ensures Inserted(Extend(t, s)) == Inserted(t) + StepRows(s)
    ensures Notes(Extend(t, s).deliveries) == Notes(t.deliveries) + StepNotes(s)
  {
    if s.Deliver? {
      RowsNotesSnoc(t.deliveries, s.delivery);
    }
  }

  /** The ledger and the channel hold what they held before the run, then what the run `t` has written. */
  predicate Written(ledger0: seq<LedgerRow>, outbox0: seq<Notification>, t: Trace,
                    ledger: seq<LedgerRow>, outbox: seq<Notification>) {
    ledger == ledger0 + Inserted(t) && outbox == outbox0 + Notes(t.deliveries)
  }

  /** Writing what one more step writes keeps the tables in step with the extended run. */
  lemma WrittenStep(ledger0: seq<LedgerRow>, outbox0: seq<Notification>, t: Trace, s: Step,
                    ledger: seq<LedgerRow>, outbox: seq<Notification>)
    requires t.halt.None? && Written(ledger0, outbox0, t, ledger, outbox)
    ensures Written(ledger0, outbox0, Extend(t, s), ledger + StepRows(s), outbox + StepNotes(s))
  {
    ExtendTables(t, s);
    assert ledger0 + Inserted(t) + StepRows(s) == ledger0 + (Inserted(t) + StepRows(s));
    assert outbox0 + Notes(t.deliveries) + StepNotes(s) == outbox0 + (Notes(t.deliveries) + StepNotes(s));
  }

  /** The rows a run appends to the ledger: one per delivery, plus the one inserted before a failed end-time parse. */
  function Inserted(t: Trace): seq<LedgerRow> {
    Rows(t.deliveries) + (if t.halt.Some? && t.halt.value.partial.Some? then [t.halt.value.partial.value] else [])
  }

  /**
   * One ledger row per message, in the same order: the k-th message of a run
   * goes with its k-th inserted row; a failed end-time parse adds one row
   * with no message.
   */
  lemma OneRowPerMessage(t: Trace)
    ensures |Inserted(t)| == |Notes(t.deliveries)| + (if t.halt.Some? && t.halt.value.partial.Some? then 1 else 0)
    ensures forall k :: 0 <= k < |t.deliveries| ==>
      Inserted(t)[k] == t.deliveries[k].row && Notes(t.deliveries)[k] == t.deliveries[k].note
  {
  }

  /**
   * The ledger row `row` is what the check records for the tracked name `g`
   * and the drop `d`: the names match ignoring case, the drop has a reward,
   * the row holds the lower-cased tracked name and the FIRST reward's id,
   * and that id was not in the ledger when the run began.
   */
  predicate Records(row: LedgerRow, g: string, d: Drop, notified: set<string>) {
    SameGame(d.gameDisplayName, g) && |d.rewards| > 0
    && row == LedgerRow(Lower(g), d.rewards[0].id) && d.rewards[0].id !in notified
  }

  /** The message announces the drop's first reward, with the end time read as UTC. */
  predicate Announces(note: Notification, d: Drop) {
    |d.rewards| > 0
    && note == Notification(d.gameDisplayName, d.rewards[0].name, d.rewards[0].imageURL, note.endsAt)
    && EndAtUtc(d.endAt) == Some(note.endsAt)
  }

  /** Every delivery of `t`, and its partial row, comes from a tracked name and a drop of the feed. */
  predicate Justified(t: Trace, gs: seq<string>, feed: seq<Drop>, notified: set<string>) {
    (forall del :: del in t.deliveries ==>
       exists g, d :: g in gs && d in feed && Records(del.row, g, d, notified) && Announces(del.note, d))
    && (t.halt.Some? && t.halt.value.partial.Some? ==>
       exists g, d :: g in gs && d in feed && Records(t.halt.value.partial.value, g, d, notified)
                      && EndAtUtc(d.endAt) == None)
  }

  /** One step keeps a run justified. */
  lemma ExtendJustified(t: Trace, g: string, d: Drop, gs: seq<string>, feed: seq<Drop>, notified: set<string>)
    requires Justified(t, gs, feed, notified)
    requires g in gs && d in feed
    ensures Justified(Extend(t, StepOf(g, d, notified)), gs, feed, notified)
  {
    var t' := Extend(t, StepOf(g, d, notified));
    if t.halt.None? {
      match StepOf(g, d, notified)
      case Skip =>
      case Deliver(del) =>
        assert Records(del.row, g, d, notified) && Announces(del.note, d);
        assert t'.deliveries == t.deliveries + [del];
        forall x | x in t'.deliveries
          ensures exists g, d :: g in gs && d in feed && Records(x.row, g, d, notified) && Announces(x.note, d)
        {
          if x != del {
            assert x in t.deliveries;
          }
        }
      case Fail(h) =>
        if h.partial.Some? {
          assert Records(h.partial.value, g, d, notified) && EndAtUtc(d.endAt) == None;
        }
    }
  }

  lemma {:induction false} ScanDropsJustified(t: Trace, g: string, ds: seq<Drop>, gs: seq<string>, feed: seq<Drop>, notified: set<string>)
    requires Justified(t, gs, feed, notified)
    requires g in gs && forall d :: d in ds ==> d in feed
    ensures Justified(ScanDrops(t, g, ds, notified), gs, feed, notified)
  {
    if ds != [] {
      var init, last := ds[..|ds| - 1], ds[|ds| - 1];
      assert forall d :: d in init ==> d in ds;
      ScanDropsJustified(t, g, init, gs, feed, notified);
      assert last in ds;
      ExtendJustified(ScanDrops(t, g, init, notified), g, last, gs, feed, notified);
    }
  }

  lemma {:induction false} ScanGamesJustified(t: Trace, hs: seq<string>, gs: seq<string>, feed: seq<Drop>, notified: set<string>)
    requires Justified(t, gs, feed, notified)
    requires forall h :: h in hs ==> h in gs
    ensures Justified(ScanGames(t, hs, feed, notified), gs, feed, notified)
  {
    if hs != [] {
      var init := hs[..|hs| - 1];
      assert forall h :: h in init ==> h in hs;
      ScanGamesJustified(t, init, gs, feed, notified);
      ScanDropsJustified(ScanGames(t, init, feed, notified), hs[|hs| - 1], feed, gs, feed, notified);
    }
  }

  /**
   * Soundness of a run: every ledger row it inserts and every message it
   * sends is for a tracked name and a feed drop that match ignoring case,
   * carries that drop's FIRST reward, and names a reward id that was NOT in
   * the ledger when the run began. A row inserted just before a failure
   * belongs to a drop whose end time does not parse.
   */
  lemma RunIsJustified(games: seq<Subscription>, ledger: seq<LedgerRow>, feed: seq<Drop>)
    ensures Justified(RunCycle(games, ledger, Some(feed)), DistinctNames(games), feed, NotifiedIds(ledger))
  {
    ScanGamesJustified(Fresh, DistinctNames(games), DistinctNames(games), feed, NotifiedIds(ledger));
  }

  /** No reward id already in the ledger is recorded again, or announced, by a run. */
  lemma NoRepeatOfLedger(games: seq<Subscription>, ledger: seq<LedgerRow>, feed: Option<seq<Drop>>)
    ensures forall row :: row in Inserted(RunCycle(games, ledger, feed)) ==> row.rewardId !in NotifiedIds(ledger)
  {
    if feed.Some? {
      RunIsJustified(games, ledger, feed.value);
      JustifiedRowsAreNew(RunCycle(games, ledger, feed), DistinctNames(games), feed.value, NotifiedIds(ledger));
    }
  }

  /** A justified run records only ids outside `notified`. */
  lemma JustifiedRowsAreNew(t: Trace, gs: seq<string>, feed: seq<Drop>, notified: set<string>)
    requires Justified(t, gs, feed, notified)
    ensures forall row :: row in Inserted(t) ==> row.rewardId !in notified
  {
    forall row | row in Inserted(t)
      ensures row.rewardId !in notified
    {
      if row in Rows(t.deliveries) {
        var k :| 0 <= k < |t.deliveries| && Rows(t.deliveries)[k] == row;
        assert t.deliveries[k] in t.deliveries;
      }
    }
  }

  /** A failed feed request touches neither table. */
  lemma FeedFailureChangesNothing(games: seq<Subscription>, ledger: seq<LedgerRow>)
    ensures RunCycle(games, ledger, None).deliveries == [] && Inserted(RunCycle(games, ledger, None)) == []
    ensures RunCycle(games, ledger, None).halt == Some(Halt(FeedUnavailable, None))
  {
  }

  /** A stopped run ignores the rest of the loop. */
  lemma {:induction false} ScanDropsHalted(t: Trace, g: string, ds: seq<Drop>, notified: set<string>)
    requires t.halt.Some?
    ensures ScanDrops(t, g, ds, notified) == t
  {
    if ds != [] {
      ScanDropsHalted(t, g, ds[..|ds| - 1], notified);
    }
  }

  lemma {:induction false} ScanGamesHalted(t: Trace, gs: seq<string>, feed: seq<Drop>, notified: set<string>)
    requires t.halt.Some?
    ensures ScanGames(t, gs, feed, notified) == t
  {
    if gs != [] {
      ScanGamesHalted(t, gs[..|gs| - 1], feed, notified);
      ScanDropsHalted(t, gs[|gs| - 1], feed, notified);
    }
  }

  /** The inner loop over `a + b` is the loop over `a` followed by the loop over `b`. */
  lemma {:induction false} ScanDropsSplit(t: Trace, g: string, a: seq<Drop>, b: seq<Drop>, notified: set<string>)
    ensures ScanDrops(t, g, a + b, notified) == ScanDrops(ScanDrops(t, g, a, notified), g, b, notified)
  {
    if b == [] {
      assert a + b == a;
    } else {
      assert (a + b)[..|a + b| - 1] == a + b[..|b| - 1];
      ScanDropsSplit(t, g, a, b[..|b| - 1], notified);
    }
  }

  lemma {:induction false} ScanGamesSplit(t: Trace, a: seq<string>, b: seq<string>, feed: seq<Drop>, notified: set<string>)
    ensures ScanGames(t, a + b, feed, notified) == ScanGames(ScanGames(t, a, feed, notified), b, feed, notified)
  {
    if b == [] {
      assert a + b == a;
    } else {
      assert (a + b)[..|a + b| - 1] == a + b[..|b| - 1];
      ScanGamesSplit(t, a, b[..|b| - 1], feed, notified);
    }
  }

  lemma InnerStops(t: Trace, g: string, feed: seq<Drop>, notified: set<string>, j: nat)
    requires j <= |feed| && ScanDrops(t, g, feed[..j], notified).halt.Some?
    ensures ScanDrops(t, g, feed, notified) == ScanDrops(t, g, feed[..j], notified)
  {
    assert feed == feed[..j] + feed[j..];
    ScanDropsSplit(t, g, feed[..j], feed[j..], notified);
    ScanDropsHalted(ScanDrops(t, g, feed[..j], notified), g, feed[j..], notified);
  }

  lemma OuterStops(t: Trace, gs: seq<string>, feed: seq<Drop>, notified: set<string>, i: nat)
    requires i <= |gs| && ScanGames(t, gs[..i], feed, notified).halt.Some?
    ensures ScanGames(t, gs, feed, notified) == ScanGames(t, gs[..i], feed, notified)
  {
    assert gs == gs[..i] + gs[i..];
    ScanGamesSplit(t, gs[..i], gs[i..], feed, notified);
    ScanGamesHalted(ScanGames(t, gs[..i], feed, notified), gs[i..], feed, notified);
  }

  /** Extending only appends deliveries, and a stopped run stays stopped. */
  lemma {:induction false} ScanDropsGrows(t: Trace, g: string, ds: seq<Drop>, notified: set<string>)
    ensures var t' := ScanDrops(t, g, ds, notified);
      t.deliveries <= t'.deliveries && (t'.halt.None? ==> t.halt.None?)
  {
    if ds != [] {
      ScanDropsGrows(t, g, ds[..|ds| - 1], notified);
    }
  }

  lemma {:induction false} ScanGamesGrows(t: Trace, gs: seq<string>, feed: seq<Drop>, notified: set<string>)
    ensures var t' := ScanGames(t, gs, feed, notified);
      t.deliveries <= t'.deliveries && (t'.halt.None? ==> t.halt.None?)
  {
    if gs != [] {
      var init := gs[..|gs| - 1];
      ScanGamesGrows(t, init, feed, notified);
      ScanDropsGrows(ScanGames(t, init, feed, notified), gs[|gs| - 1], feed, notified);
    }
  }

  /**
   * The pair (`g`, `d`) has been dealt with by `t`: they do not match, or the
   * drop has a first reward whose id was already in the ledger or has been
   * recorded for `g` by `t`.
   */
  predicate Covered(t: Trace, g: string, d: Drop, notified: set<string>) {
    SameGame(d.gameDisplayName, g) ==>
      |d.rewards| > 0
      && (d.rewards[0].id in notified
          || exists del :: del in t.deliveries && del.row == LedgerRow(Lower(g), d.rewards[0].id))
  }

  lemma CoveredGrows(t: Trace, t': Trace, g: string, d: Drop, notified: set<string>)
    requires Covered(t, g, d, notified) && t.deliveries <= t'.deliveries
    ensures Covered(t', g, d, notified)
  {
    if SameGame(d.gameDisplayName, g) && d.rewards[0].id !in notified {
      var del :| del in t.deliveries && del.row == LedgerRow(Lower(g), d.rewards[0].id);
      assert del in t'.deliveries;
    }
  }

  lemma {:induction false} ScanDropsComplete(t: Trace, g: string, ds: seq<Drop>, notified: set<string>)
    requires ScanDrops(t, g, ds, notified).halt.None?
    ensures forall d :: d in ds ==> Covered(ScanDrops(t, g, ds, notified), g, d, notified)
  {
    if ds != [] {
      var init, last := ds[..|ds| - 1], ds[|ds| - 1];
      var before := ScanDrops(t, g, init, notified);
      var after := ScanDrops(t, g, ds, notified);
      assert after == Extend(before, StepOf(g, last, notified));
      assert before.halt.None?;
      ScanDropsComplete(t, g, init, notified);
      assert before.deliveries <= after.deliveries;
      forall d | d in ds
        ensures Covered(after, g, d, notified)
      {
        if d == last {
          match StepOf(g, last, notified)
          case Skip =>
          case Deliver(del) =>
            assert del in after.deliveries;
        } else {
          assert d in init;
          CoveredGrows(before, after, g, d, notified);
        }
      }
    }
  }

  lemma {:induction false} ScanGamesComplete(t: Trace, gs: seq<string>, feed: seq<Drop>, notified: set<string>)
    requires ScanGames(t, gs, feed, notified).halt.None?
    ensures forall g, d :: g in gs && d in feed ==> Covered(ScanGames(t, gs, feed, notified), g, d, notified)
  {
    if gs != [] {
      var init, last := gs[..|gs| - 1], gs[|gs| - 1];
      var before := ScanGames(t, init, feed, notified);
      var after := ScanGames(t, gs, feed, notified);
      ScanDropsGrows(before, last, feed, notified);
      ScanGamesComplete(t, init, feed, notified);
      ScanDropsComplete(before, last, feed, notified);
      forall g, d | g in gs && d in feed
        ensures Covered(after, g, d, notified)
      {
        if g != last {
          assert g in init;
          CoveredGrows(before, after, g, d, notified);
        }
      }
    }
  }

  /**
   * Completeness of a run that finishes: every drop matching a tracked name
   * has a first reward, and its id was in the ledger already or is recorded
   * by the run. In particular a matching drop without rewards makes the run
   * fail instead of being skipped.
   */
  lemma CompletedRunCoversMatches(games: seq<Subscription>, ledger: seq<LedgerRow>, feed: seq<Drop>)
    requires RunCycle(games, ledger, Some(feed)).halt.None?
    ensures forall g, d :: g in DistinctNames(games) && d in feed ==>
      Covered(RunCycle(games, ledger, Some(feed)), g, d, NotifiedIds(ledger))
  {
    ScanGamesComplete(Fresh, DistinctNames(games), feed, NotifiedIds(ledger));
  }

  /**
   * Reference count of what the inner loop delivers when nothing raises:
   * one delivery for each drop whose step delivers, in feed order.
   */
  function DropDeliveries(g: string, ds: seq<Drop>, notified: set<string>): (r: seq<Delivery>)
    ensures |r| <= |ds|
    decreases |ds|
  {
    if ds == [] then []
    else
      var s := StepOf(g, ds[|ds| - 1], notified);
      DropDeliveries(g, ds[..|ds| - 1], notified) + (if s.Deliver? then [s.delivery] else [])
  }

  /** Reference count of what the outer loop delivers: the inner loops' deliveries, name after name. */
  function GameDeliveries(gs: seq<string>, feed: seq<Drop>, notified: set<string>): (r: seq<Delivery>)
    ensures |r| <= |gs| * |feed|
    decreases |gs|
  {
    if gs == [] then []
    else
      assert |gs| * |feed| == (|gs| - 1) * |feed| + |feed|;
      GameDeliveries(gs[..|gs| - 1], feed, notified) + DropDeliveries(gs[|gs| - 1], feed, notified)
  }

  /** An inner loop that does not raise appends exactly its reference deliveries. */
  lemma {:induction false} ScanDropsDeliveries(t: Trace, g: string, ds: seq<Drop>, notified: set<string>)
    requires ScanDrops(t, g, ds, notified).halt.None?
    ensures ScanDrops(t, g, ds, notified).deliveries == t.deliveries + DropDeliveries(g, ds, notified)
  {
    if ds == [] {
      assert t.deliveries + [] == t.deliveries;
    } else {
      var init, last := ds[..|ds| - 1], ds[|ds| - 1];
      var before := ScanDrops(t, g, init, notified);
      var step := StepOf(g, last, notified);
      var extra := if step.Deliver? then [step.delivery] else [];
      assert ScanDrops(t, g, ds, notified) == Extend(before, step);
      assert before.halt.None? && !step.Fail?;
      ScanDropsDeliveries(t, g, init, notified);
      assert ScanDrops(t, g, ds, notified).deliveries == before.deliveries + extra;
      assert t.deliveries + DropDeliveries(g, init, notified) + extra
          == t.deliveries + (DropDeliveries(g, init, notified) + extra);
    }
  }

  /** An outer loop that does not raise appends exactly its reference deliveries. */
  lemma {:induction false} ScanGamesDeliveries(t: Trace, gs: seq<string>, feed: seq<Drop>, notified: set<string>)
    requires ScanGames(t, gs, feed, notified).halt.None?
    ensures ScanGames(t, gs, feed, notified).deliveries == t.deliveries + GameDeliveries(gs, feed, notified)
  {
    if gs == [] {
      assert t.deliveries + [] == t.deliveries;
    } else {
      var init, last := gs[..|gs| - 1], gs[|gs| - 1];
      var before := ScanGames(t, init, feed, notified);
      ScanDropsGrows(before, last, feed, notified);
      ScanGamesDeliveries(t, init, feed, notified);
      ScanDropsDeliveries(before, last, feed, notified);
      assert t.deliveries + GameDeliveries(init, feed, notified) + DropDeliveries(last, feed, notified)
          == t.deliveries + (GameDeliveries(init, feed, notified) + DropDeliveries(last, feed, notified));
    }
  }

  /**
   * A run that completes delivers once per delivering pair of a tracked name
   * and a drop, names in read order and drops in feed order, and nothing
   * else: no pair is announced twice and none is merged with another that
   * writes the same row.
   */
  lemma CompletedRunDeliveries(games: seq<Subscription>, ledger: seq<LedgerRow>, feed: seq<Drop>)
    requires RunCycle(games, ledger, Some(feed)).halt.None?
    ensures RunCycle(games, ledger, Some(feed)).deliveries
         == GameDeliveries(DistinctNames(games), feed, NotifiedIds(ledger))
  {
    ScanGamesDeliveries(Fresh, DistinctNames(games), feed, NotifiedIds(ledger));
    assert Fresh.deliveries + GameDeliveries(DistinctNames(games), feed, NotifiedIds(ledger))
        == GameDeliveries(DistinctNames(games), feed, NotifiedIds(ledger));
  }

  /** In a run that completes, every drop matching a tracked name has a reward. */
  lemma CompletedRunHasRewards(games: seq<Subscription>, ledger: seq<LedgerRow>, feed: seq<Drop>, g: string, d: Drop)
    requires RunCycle(games, ledger, Some(feed)).halt.None?
    requires g in DistinctNames(games) && d in feed && SameGame(d.gameDisplayName, g)
    ensures |d.rewards| > 0
  {
    CompletedRunCoversMatches(games, ledger, feed);
    assert Covered(RunCycle(games, ledger, Some(feed)), g, d, NotifiedIds(ledger));
  }

  /** A tracked game with a drop that lists no reward stops the run with an error. */
  lemma EmptyRewardsAbort(games: seq<Subscription>, ledger: seq<LedgerRow>, feed: seq<Drop>, g: Subscription, d: Drop)
    requires g in games && d in feed && SameGame(d.gameDisplayName, g.gameName) && d.rewards == []
    ensures RunCycle(games, ledger, Some(feed)).halt.Some?
  {
    assert g.gameName in DistinctNames(games);
    if RunCycle(games, ledger, Some(feed)).halt.None? {
      CompletedRunHasRewards(games, ledger, feed, g.gameName, d);
    }
  }

  lemma {:induction false} ScanDropsSkipping(t: Trace, g: string, ds: seq<Drop>, notified: set<string>)
    requires forall d :: d in ds ==> StepOf(g, d, notified) == Skip
    ensures ScanDrops(t, g, ds, notified) == t
  {
    if ds != [] {
      assert forall d :: d in ds[..|ds| - 1] ==> d in ds;
      ScanDropsSkipping(t, g, ds[..|ds| - 1], notified);
      assert ds[|ds| - 1] in ds;
    }
  }

  lemma {:induction false} ScanGamesSkipping(t: Trace, gs: seq<string>, feed: seq<Drop>, notified: set<string>)
    requires forall g, d :: g in gs && d in feed ==> StepOf(g, d, notified) == Skip
    ensures ScanGames(t, gs, feed, notified) == t
  {
    if gs != [] {
      assert forall g :: g in gs[..|gs| - 1] ==> g in gs;
      ScanGamesSkipping(t, gs[..|gs| - 1], feed, notified);
      assert gs[|gs| - 1] in gs;
      ScanDropsSkipping(t, gs[|gs| - 1], feed, notified);
    }
  }

  /**
   * At-most-once delivery: after a run that finishes, a second run on the
   * same subscriptions and the same feed, against the ledger the first one
   * left, records and announces nothing.
   */
  lemma RerunIsSilent(games: seq<Subscription>, ledger: seq<LedgerRow>, feed: seq<Drop>)
    requires RunCycle(games, ledger, Some(feed)).halt.None?
    ensures RunCycle(games, ledger + Inserted(RunCycle(games, ledger, Some(feed))), Some(feed)) == Fresh
  {
    var t := RunCycle(games, ledger, Some(feed));
    var ledger' := ledger + Inserted(t);
    var tracked, s, s' := DistinctNames(games), NotifiedIds(ledger), NotifiedIds(ledger');
    CompletedRunCoversMatches(games, ledger, feed);
    forall g, d | g in tracked && d in feed
      ensures StepOf(g, d, s') == Skip
    {
      assert Covered(t, g, d, s);
      if SameGame(d.gameDisplayName, g) {
        var id := d.rewards[0].id;
        if id in s {
          var row :| row in ledger && row.rewardId == id;
          assert row in ledger';
        } else {
          var del :| del in t.deliveries && del.row == LedgerRow(Lower(g), id);
          var k :| 0 <= k < |t.deliveries| && t.deliveries[k] == del;
          assert Inserted(t)[k] == del.row;
          assert del.row in ledger';
        }
      }
    }
    ScanGamesSkipping(Fresh, tracked, feed, s');
  }

  /** A step depends on the tracked name only up to case: two spellings of one game act alike. */
  lemma StepIgnoresCase(a: string, b: string, d: Drop, notified: set<string>)
    requires SameGame(a, b)
    ensures StepOf(a, d, notified) == StepOf(b, d, notified)
  {
  }

  /** Two subscriptions to different names are read back as those two names. */
  lemma DistinctOfTwo(games: seq<Subscription>)
    requires |games| == 2 && games[0].gameName != games[1].gameName
    ensures DistinctNames(games) == [games[0].gameName, games[1].gameName]
  {
    assert games[..1][..0] == [] && games[..|games| - 1] == games[..1];
    assert DistinctNames(games[..1]) == [games[0].gameName];
  }

  /** The inner loop over a single drop is one step. */
  lemma ScanOneDrop(t: Trace, g: string, d: Drop, notified: set<string>)
    ensures ScanDrops(t, g, [d], notified) == Extend(t, StepOf(g, d, notified))
  {
    assert [d][..0] == [];
  }

  /** The outer loop over two tracked names is two inner loops. */
  lemma ScanTwoNames(t: Trace, a: string, b: string, feed: seq<Drop>, notified: set<string>)
    ensures ScanGames(t, [a, b], feed, notified) == ScanDrops(ScanDrops(t, a, feed, notified), b, feed, notified)
  {
    assert [a, b][..1] == [a];
    assert [a][..0] == [];
    assert ScanGames(t, [a], feed, notified) == ScanDrops(t, a, feed, notified);
  }

  /** Helper: a completed run of two deliveries inserts their two rows. */
  lemma InsertedOfTwo(a: Delivery, b: Delivery)
    ensures Inserted(Trace([a, b], None)) == [a.row, b.row]
  {
    RowsNotesSnoc([a], b);
    RowsNotesSnoc([], a);
    assert [a] + [b] == [a, b];
  }

  /**
   * The ledger is read once, before the loops: a new reward tracked under
   * two spellings of one game (`/add Apex Legends`, `/add apex legends`) is
   * recorded twice and announced twice in the same run.
   */
  lemma TwoSpellingsAnnounceTwice(games: seq<Subscription>, ledger: seq<LedgerRow>, d: Drop)
    requires |games| == 2 && games[0].gameName != games[1].gameName
    requires SameGame(d.gameDisplayName, games[0].gameName) && SameGame(games[0].gameName, games[1].gameName)
    requires |d.rewards| > 0 && d.rewards[0].id !in NotifiedIds(ledger) && EndAtUtc(d.endAt).Some?
    ensures var t := RunCycle(games, ledger, Some([d]));
      && t.halt.None? && |t.deliveries| == 2 && t.deliveries[0] == t.deliveries[1]
      && Inserted(t) == [t.deliveries[0].row, t.deliveries[0].row]
  {
    var a, b := games[0].gameName, games[1].gameName;
    var n := NotifiedIds(ledger);
    DistinctOfTwo(games);
    StepIgnoresCase(a, b, d, n);
    var step := StepOf(a, d, n);
    assert step.Deliver?;
    var once := Trace([step.delivery], None);
    var twice := Trace([step.delivery, step.delivery], None);
    ScanOneDrop(Fresh, a, d, n);
    assert ScanDrops(Fresh, a, [d], n) == once;
    ScanOneDrop(once, b, d, n);
    assert ScanDrops(once, b, [d], n) == twice;
    ScanTwoNames(Fresh, a, b, [d], n);
    assert RunCycle(games, ledger, Some([d])) == twice;
    InsertedOfTwo(step.delivery, step.delivery);
  }

  /** A step on a matching drop whose new first reward's end time parses records and announces it. */
  lemma StepDelivers(g: string, d: Drop, notified: set<string>)
    requires SameGame(d.gameDisplayName, g) && |d.rewards| > 0 && d.rewards[0].id !in notified
    requires EndAtUtc(d.endAt).Some?
    ensures StepOf(g, d, notified).Deliver?
    ensures var del := StepOf(g, d, notified).delivery;
      del.row == LedgerRow(Lower(g), d.rewards[0].id) && Announces(del.note, d)
  {
  }

  /** The outer loop over one tracked name, and the inner loop over two drops. */
  lemma ScanOneNameTwoDrops(t: Trace, g: string, d1: Drop, d2: Drop, notified: set<string>)
    ensures ScanGames(t, [g], [d1, d2], notified)
         == Extend(Extend(t, StepOf(g, d1, notified)), StepOf(g, d2, notified))
  {
    assert [g][..0] == [];
    assert [d1, d2][..1] == [d1];
    ScanOneDrop(t, g, d1, notified);
  }

  /** A run with one tracked name over a feed of two drops is two steps. */
  lemma OneNameTwoDrops(games: seq<Subscription>, ledger: seq<LedgerRow>, d1: Drop, d2: Drop)
    requires |games| == 1
    ensures var a, n := games[0].gameName, NotifiedIds(ledger);
      RunCycle(games, ledger, Some([d1, d2])) == Extend(Extend(Fresh, StepOf(a, d1, n)), StepOf(a, d2, n))
  {
    var a := games[0].gameName;
    assert games[..0] == [];
    assert DistinctNames(games) == [a];
    ScanOneNameTwoDrops(Fresh, a, d1, d2, NotifiedIds(ledger));
  }

  /**
   * The ledger is read once, before the loops: two drops of one tracked
   * game that share a new first reward id are both recorded and both
   * announced in the same run, each with its own message.
   */
  lemma TwoDropsOneReward(games: seq<Subscription>, ledger: seq<LedgerRow>, d1: Drop, d2: Drop)
    requires |games| == 1
    requires SameGame(d1.gameDisplayName, games[0].gameName) && SameGame(d2.gameDisplayName, games[0].gameName)
    requires |d1.rewards| > 0 && |d2.rewards| > 0 && d1.rewards[0].id == d2.rewards[0].id
    requires d1.rewards[0].id !in NotifiedIds(ledger)
    requires EndAtUtc(d1.endAt).Some? && EndAtUtc(d2.endAt).Some?
    ensures var t := RunCycle(games, ledger, Some([d1, d2]));
      && t.halt.None? && |t.deliveries| == 2
      && t.deliveries[0].row == t.deliveries[1].row == LedgerRow(Lower(games[0].gameName), d1.rewards[0].id)
      && Announces(t.deliveries[0].note, d1) && Announces(t.deliveries[1].note, d2)
      && Inserted(t) == [t.deliveries[0].row, t.deliveries[0].row]
  {
    var a := games[0].gameName;
    var n := NotifiedIds(ledger);
    StepDelivers(a, d1, n);
    StepDelivers(a, d2, n);
    var del1, del2 := StepOf(a, d1, n).delivery, StepOf(a, d2, n).delivery;
    OneNameTwoDrops(games, ledger, d1, d2);
    var once := Extend(Fresh, StepOf(a, d1, n));
    assert once == Trace([del1], None);
    assert [del1] + [del2] == [del1, del2];
    InsertedOfTwo(del1, del2);
  }
}
