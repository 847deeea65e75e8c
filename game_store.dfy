/**
 * The player store of lib/game-store.ts: one mutable list of rental records,
 * the actions that replace it, the two counters, and the two subscription
 * handlers that overwrite it with a list received from elsewhere.
 *
 * Every list the actions commit is built by a pure function below; the
 * `Store` class holds the list and a ghost log of the `playersUpdated`
 * events it has dispatched.
 */
module GameStore {
  import opened Wrappers
  import opened SeqFilter

  datatype Status = Active | Expired

  /** One rental. `duration` is in minutes, `startTime` and `createdAt` in milliseconds. */
  datatype Player = Player(
    id: string,
    name: string,
    startTime: int,
    duration: int,
    status: Status,
    createdAt: int)

  /** The persisted key the storage handler listens to (the `persist` name). */
  const StorageKey: string := "game-store"

  predicate IsActive(p: Player) {
    p.status == Active
  }

  function IdIsNot(id: string): Player -> bool {
    (p: Player) => p.id != id
  }

  predicate HasId(ps: seq<Player>, id: string) {
    exists i :: 0 <= i < |ps| && ps[i].id == id
  }

  /** The record `addPlayer` creates; `id` and `now` stand for the generated id and `Date.now()`. */
  function NewPlayer(id: string, name: string, duration: int, now: int): (p: Player)
    ensures IsActive(p) && p.startTime == p.createdAt == now
    ensures p.id == id && p.name == name && p.duration == duration
  {
    Player(id, name, now, duration, Active, now)
  }

  /** The list `updatePlayerStatus(id, status)` commits: a `map` that rewrites the status of matching records. */
  function WithStatus(ps: seq<Player>, id: string, status: Status): (r: seq<Player>)
    ensures |r| == |ps|
    ensures forall i :: 0 <= i < |ps| ==>
      r[i] == ps[i].(status := if ps[i].id == id then status else ps[i].status)
  {
    if ps == [] then []
    else [if ps[0].id == id then ps[0].(status := status) else ps[0]] + WithStatus(ps[1..], id, status)
  }

  /** The list `deletePlayer(id)` commits. */
  function WithoutPlayer(ps: seq<Player>, id: string): (r: seq<Player>)
    ensures |r| <= |ps|
    ensures forall i :: 0 <= i < |r| ==> r[i].id != id
  {
    Filter(ps, IdIsNot(id))
  }

  /** The list `clearExpiredPlayers` commits, and the list `getActivePlayersCount` measures. */
  function ActivePlayers(ps: seq<Player>): (r: seq<Player>)
    ensures |r| <= |ps|
    ensures forall i :: 0 <= i < |r| ==> IsActive(r[i])
  {
    Filter(ps, IsActive)
  }

  function ActiveCount(ps: seq<Player>): (n: nat)
    ensures n <= |ps|
  {
    |ActivePlayers(ps)|
  }

  /** `Array.prototype.find` by id: the first record with that id, if any. */
  function Find(ps: seq<Player>, id: string): (r: Option<Player>)
    ensures r.None? <==> !HasId(ps, id)
    ensures r.Some? ==> exists i :: 0 <= i < |ps| && ps[i] == r.value && r.value.id == id &&
                                    forall j :: 0 <= j < i ==> ps[j].id != id
  {
    if ps == [] then None
    else if ps[0].id == id then Some(ps[0])
    else
      var r := Find(ps[1..], id);
      if r.Some? then
        var k :| 0 <= k < |ps[1..]| && ps[1..][k] == r.value && r.value.id == id &&
                 forall j :: 0 <= j < k ==> ps[1..][j].id != id;
        assert ps[k + 1] == r.value;
        r
      else
        assert forall i :: 1 <= i < |ps| ==> ps[i] == ps[1..][i - 1];
        r
  }

  // ---------------------------------------------------------------- addPlayer

  /** Adding an active record raises the total count by one and the active count by one. */
  lemma AddedCounts(ps: seq<Player>, p: Player)
    requires IsActive(p)
    ensures |[p] + ps| == |ps| + 1
    ensures ActiveCount([p] + ps) == ActiveCount(ps) + 1
  {
  }

  /** Deleting a freshly added record by its id restores the list as it was. */
  lemma AddThenDelete(ps: seq<Player>, p: Player)
    requires !HasId(ps, p.id)
    ensures WithoutPlayer([p] + ps, p.id) == ps
  {
    FilterConcat([p], ps, IdIsNot(p.id));
    assert [p][1..] == [];
    FilterAllKept(ps, IdIsNot(p.id));
  }

  // ------------------------------------------------------- updatePlayerStatus

  /** An id that no record carries leaves the list identical. */
  lemma WithStatusAbsent(ps: seq<Player>, id: string, status: Status)
    requires !HasId(ps, id)
    ensures WithStatus(ps, id, status) == ps
  {
  }

  /** Applying the same update twice is applying it once. */
  lemma WithStatusIdempotent(ps: seq<Player>, id: string, status: Status)
    ensures WithStatus(WithStatus(ps, id, status), id, status) == WithStatus(ps, id, status)
  {
  }

  /** After the update, the record `find` returns for `id` is the old one with the new status. */
  lemma {:induction false} FindWithStatus(ps: seq<Player>, id: string, status: Status)
    ensures Find(WithStatus(ps, id, status), id) ==
      if Find(ps, id).Some? then Some(Find(ps, id).value.(status := status)) else None
  {
    if ps != [] {
      var r := WithStatus(ps, id, status);
      assert r[1..] == WithStatus(ps[1..], id, status);
      FindWithStatus(ps[1..], id, status);
    }
  }

  // ------------------------------------------------------------- deletePlayer

  /** No record with the deleted id remains, and every other record stays, in its original order. */
  lemma WithoutPlayerSpec(ps: seq<Player>, id: string)
    ensures !HasId(WithoutPlayer(ps, id), id)
    ensures forall i :: 0 <= i < |ps| && ps[i].id != id ==> ps[i] in WithoutPlayer(ps, id)
    ensures SelectsInOrder(WithoutPlayer(ps, id), ps, IdIsNot(id), KeptIndices(ps, IdIsNot(id)), 0)
  {
    var r := WithoutPlayer(ps, id);
    assert forall i :: 0 <= i < |r| ==> IdIsNot(id)(r[i]);
    FilterKeepsOrder(ps, IdIsNot(id));
  }

  /** Deleting an absent id is a no-op. */
  lemma WithoutPlayerAbsent(ps: seq<Player>, id: string)
    requires !HasId(ps, id)
    ensures WithoutPlayer(ps, id) == ps
  {
    FilterAllKept(ps, IdIsNot(id));
  }

  /** Deleting twice is deleting once. */
  lemma WithoutPlayerIdempotent(ps: seq<Player>, id: string)
    ensures WithoutPlayer(WithoutPlayer(ps, id), id) == WithoutPlayer(ps, id)
  {
    FilterIdempotent(ps, IdIsNot(id));
  }

  // ------------------------------------------------------ clearExpiredPlayers

  /** Clearing keeps exactly the active records, in order; afterwards every record is active. */
  lemma ActivePlayersSpec(ps: seq<Player>)
    ensures forall i :: 0 <= i < |ActivePlayers(ps)| ==> IsActive(ActivePlayers(ps)[i])
    ensures forall i :: 0 <= i < |ps| && IsActive(ps[i]) ==> ps[i] in ActivePlayers(ps)
    ensures SelectsInOrder(ActivePlayers(ps), ps, IsActive, KeptIndices(ps, IsActive), 0)
    ensures ActiveCount(ActivePlayers(ps)) == |ActivePlayers(ps)|
  {
    FilterKeepsOrder(ps, IsActive);
    FilterIdempotent(ps, IsActive);
  }

  /** A second clear changes nothing. */
  lemma ClearExpiredIdempotent(ps: seq<Player>)
    ensures ActivePlayers(ActivePlayers(ps)) == ActivePlayers(ps)
  {
    FilterIdempotent(ps, IsActive);
  }

  // ------------------------------------------------------------------ getters

  /** The active count is the number of active records, never more than the total. */
  lemma {:induction false} ActiveCountBounds(ps: seq<Player>)
    ensures ActiveCount(ps) <= |ps|
    ensures ActiveCount(ps) == |ps| <==> forall i :: 0 <= i < |ps| ==> IsActive(ps[i])
  {
    if ps != [] {
      ActiveCountBounds(ps[1..]);
      assert forall i :: 1 <= i < |ps| ==> ps[i] == ps[1..][i - 1];
    }
  }

  // ------------------------------------------------------------- broadcasting

  /** The `detail` of a `playersUpdated` event: the committed list and the action that produced it. */
  datatype SyncEvent =
    | PlayerAdded(players: seq<Player>, player: Player)
    | StatusUpdated(players: seq<Player>, playerId: string, status: Status)
    | PlayerDeleted(players: seq<Player>, deleted: Option<Player>)
    | ExpiredCleared(players: seq<Player>)

  /**
   * What `JSON.parse(e.newValue || "{}")` yields for a storage event:
   * a parse failure, or a document whose `state.players` may be missing.
   */
  datatype StorageValue = Unparsable | Parsed(statePlayers: Option<seq<Player>>)

  class Store {
    var players: seq<Player>
    /** Every `playersUpdated` event this store has dispatched, oldest first. */
    ghost var broadcasts: seq<SyncEvent>

    /** Each dispatched event carries the list that was committed with it; the last one is the current list. */
    ghost predicate InSync()
      reads this
    {
      broadcasts != [] ==> broadcasts[|broadcasts| - 1].players == players
    }

    constructor ()
      ensures players == [] && broadcasts == []
    {
      players := [];
      broadcasts := [];
    }

    method AddPlayer(id: string, name: string, duration: int, now: int)
      modifies this
      ensures players == [NewPlayer(id, name, duration, now)] + old(players)
      ensures IsActive(players[0]) && players[0].startTime == now && players[0].createdAt == now
      ensures players[1..] == old(players)
      ensures |players| == |old(players)| + 1 && ActiveCount(players) == ActiveCount(old(players)) + 1
      ensures broadcasts == old(broadcasts) + [PlayerAdded(players, players[0])] && InSync()
    {
      var newPlayer := NewPlayer(id, name, duration, now);
      AddedCounts(players, newPlayer);
      var updated := [newPlayer] + players;
      assert updated[1..] == players;
      broadcasts := broadcasts + [PlayerAdded(updated, newPlayer)];
      players := updated;
    }

    method UpdatePlayerStatus(id: string, status: Status)
      modifies this
      ensures players == WithStatus(old(players), id, status)
      ensures !HasId(old(players), id) ==> players == old(players)
      ensures broadcasts == old(broadcasts) + [StatusUpdated(players, id, status)] && InSync()
    {
      if !HasId(players, id) {
        WithStatusAbsent(players, id, status);
      }
      var updated := WithStatus(players, id, status);
      broadcasts := broadcasts + [StatusUpdated(updated, id, status)];
      players := updated;
    }

    method DeletePlayer(id: string)
      modifies this
      ensures players == WithoutPlayer(old(players), id)
      ensures !HasId(players, id)
      ensures !HasId(old(players), id) ==> players == old(players)
      ensures broadcasts == old(broadcasts) + [PlayerDeleted(players, Find(old(players), id))] && InSync()
    {
      var playerToDelete := Find(players, id);
      WithoutPlayerSpec(players, id);
      if !HasId(players, id) {
        WithoutPlayerAbsent(players, id);
      }
      var updated := WithoutPlayer(players, id);
      broadcasts := broadcasts + [PlayerDeleted(updated, playerToDelete)];
      players := updated;
    }

    method ClearExpiredPlayers()
      modifies this
      ensures players == ActivePlayers(old(players))
      ensures ActiveCount(players) == |players|
      ensures broadcasts == old(broadcasts) + [ExpiredCleared(players)] && InSync()
    {
      ActivePlayersSpec(players);
      var updated := ActivePlayers(players);
      broadcasts := broadcasts + [ExpiredCleared(updated)];
      players := updated;
    }

    method GetActivePlayersCount() returns (n: nat)
      ensures n == ActiveCount(players)
      ensures n <= |players|
      ensures n == |players| <==> forall i :: 0 <= i < |players| ==> IsActive(players[i])
    {
      ActiveCountBounds(players);
      n := |ActivePlayers(players)|;
    }

    method GetTotalPlayersCount() returns (n: nat)
      ensures n == |players|
    {
      n := |players|;
    }

    /** The same-tab `playersUpdated` listener: adopt the event's list wholesale. */
    method OnPlayersUpdated(e: SyncEvent)
      modifies this
      ensures players == e.players && broadcasts == old(broadcasts)
    {
      players := e.players;
    }

    /**
     * The cross-tab `storage` listener: adopt `state.players` only for the
     * store's own key, a value that parsed, and a `players` field that is present.
     */
    method OnStorageChange(key: string, value: StorageValue)
      modifies this
      ensures key == StorageKey && value.Parsed? && value.statePlayers.Some? ==>
        players == value.statePlayers.value
      ensures !(key == StorageKey && value.Parsed? && value.statePlayers.Some?) ==>
        players == old(players)
      ensures broadcasts == old(broadcasts)
    {
      if key == StorageKey {
        match value
        case Unparsable =>
        case Parsed(statePlayers) =>
          if statePlayers.Some? {
            players := statePlayers.value;
          }
      }
    }
  }
}
