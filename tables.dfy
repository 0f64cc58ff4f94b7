/**
 * The two SQLite tables as sequences of rows: `games (user_id, game_name)`,
 * written by the add and remove commands, and `rewards (game_name,
 * rewards_id)`, the ledger of rewards already announced.
 */
module Tables {

  datatype Subscription = Subscription(userId: string, gameName: string)

  datatype LedgerRow = LedgerRow(gameName: string, rewardId: string)

  /**
   * `DELETE FROM games WHERE user_id = ? AND game_name = ?`: every row equal
   * to `row` in both fields goes, every other row stays, in order.
   */
  function Without(games: seq<Subscription>, row: Subscription): (r: seq<Subscription>)
    ensures forall x :: x in r <==> x in games && x != row
  {
    if games == [] then []
    else
      assert games == [games[0]] + games[1..];
      (if games[0] == row then [] else [games[0]]) + Without(games[1..], row)
  }

  /** Deletion takes every copy of `row` and leaves every other row's count as it was. */
  lemma {:induction false} WithoutCounts(games: seq<Subscription>, row: Subscription)
    ensures multiset(Without(games, row)) == multiset(games)[row := 0]
  {
    if games != [] {
      assert games == [games[0]] + games[1..];
      WithoutCounts(games[1..], row);
    }
  }

  /** Deleting a pair that is not in the table changes nothing. */
  lemma {:induction false} WithoutAbsent(games: seq<Subscription>, row: Subscription)
    requires row !in games
    ensures Without(games, row) == games
  {
    if games != [] {
      assert games == [games[0]] + games[1..];
      assert games[0] != row && row !in games[1..];
      WithoutAbsent(games[1..], row);
      assert Without(games, row) == [games[0]] + Without(games[1..], row);
    }
  }

  /** The rows that survive keep their relative order: deletion works piecewise. */
  lemma {:induction false} WithoutAppend(a: seq<Subscription>, b: seq<Subscription>, row: Subscription)
    ensures Without(a + b, row) == Without(a, row) + Without(b, row)
  {
    if a == [] {
      assert a + b == b;
    } else {
      assert (a + b)[1..] == a[1..] + b;
      WithoutAppend(a[1..], b, row);
    }
  }

  /** Deleting twice is deleting once. */
  lemma WithoutIdempotent(games: seq<Subscription>, row: Subscription)
    ensures Without(Without(games, row), row) == Without(games, row)
  {
    WithoutAbsent(Without(games, row), row);
  }

  /** What `n` identical `/add` commands append: `n` copies of `row`. */
  function Copies(row: Subscription, n: nat): (r: seq<Subscription>)
    ensures |r| == n && forall x :: x in r ==> x == row
  {
    if n == 0 then [] else Copies(row, n - 1) + [row]
  }

  /**
   * Adding a pair `n` times to a table that does not hold it and then
   * removing it once gives back the table as it was: add does not
   * deduplicate, and remove takes every copy.
   */
  lemma {:induction false} RemoveUndoesAdds(games: seq<Subscription>, row: Subscription, n: nat)
    requires row !in games
    ensures Without(games + Copies(row, n), row) == games
  {
    if n == 0 {
      assert games + Copies(row, n) == games;
      WithoutAbsent(games, row);
    } else {
      var before := games + Copies(row, n - 1);
      RemoveUndoesAdds(games, row, n - 1);
      assert games + Copies(row, n) == before + [row];
      WithoutAppend(before, [row], row);
      assert Without([row], row) == [];
    }
  }

  predicate NoDuplicates(s: seq<string>) {
    forall i, j :: 0 <= i < j < |s| ==> s[i] != s[j]
  }

  /**
   * `SELECT DISTINCT game_name FROM games`: every tracked name exactly once
   * (in order of first appearance) and nothing else.
   */
  function DistinctNames(games: seq<Subscription>): (r: seq<string>)
    ensures forall n :: n in r <==> exists g :: g in games && g.gameName == n
    ensures NoDuplicates(r)
    ensures |r| <= |games|
  {
    if games == [] then []
    else
      var init := games[..|games| - 1];
      var last := games[|games| - 1];
      assert games == init + [last];
      var r := DistinctNames(init);
      if last.gameName in r then r else r + [last.gameName]
  }

  /** Duplicate subscriptions do not change the distinct read: a second add of a name is invisible to it. */
  lemma {:induction false} DistinctIgnoresRepeat(games: seq<Subscription>, row: Subscription)
    requires exists g :: g in games && g.gameName == row.gameName
    ensures DistinctNames(games + [row]) == DistinctNames(games)
  {
    var s := games + [row];
    assert s[..|s| - 1] == games;
    assert row.gameName in DistinctNames(games);
  }

  /** `SELECT DISTINCT rewards_id FROM rewards`, used only for membership. */
  function NotifiedIds(ledger: seq<LedgerRow>): (ids: set<string>)
    ensures forall row :: row in ledger ==> row.rewardId in ids
    ensures forall id :: id in ids ==> exists row :: row in ledger && row.rewardId == id
  {
    set row | row in ledger :: row.rewardId
  }
}
