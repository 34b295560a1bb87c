/**
  The roster state holder of the team app: one list of players that the
  "new player" screen appends to and the main screen deletes from.

  The list contents are modelled as a value (`seq<Player>`); the holder is a
  class whose field the two operations reassign.  A ghost history of the
  operations applied so far ties the field to `Replay`, a pure account of the
  same operations, about which the id properties are proved.
*/
module Roster {

  /** A roster entry.  `id` is assigned by the holder when the player is added. */
  datatype Player = Player(id: int, name: string, surname: string, yearOfBirth: int)

  /** The operations the holder offers, as values, so that traces can be stated. */
  datatype Action =
    | Add(name: string, surname: string, yearOfBirth: int)
    | Delete(player: Player)

  /** The index of the first element of `ps` equal to `p`. */
  function FirstIndex(ps: seq<Player>, p: Player): (k: nat)
    requires p in ps
    ensures k < |ps| && ps[k] == p
    ensures forall j :: 0 <= j < k ==> ps[j] != p
  {
    if ps[0] == p then 0 else 1 + FirstIndex(ps[1..], p)
  }

  /**
    Removing one element from a list by equality: the first equal element
    goes, and nothing happens when there is none.
  */
  function RemoveFirst(ps: seq<Player>, p: Player): (r: seq<Player>)
    ensures p !in ps ==> r == ps
    ensures p in ps ==> |r| == |ps| - 1
    ensures forall q :: q in r ==> q in ps
  {
    if |ps| == 0 then []
    else if ps[0] == p then ps[1..]
    else [ps[0]] + RemoveFirst(ps[1..], p)
  }

  /**
    Removal of a present player cuts out exactly the element at its first
    index; everything before stays in place and everything after moves up by
    one, in the same order.
  */
  lemma {:induction false} RemoveFirstSplices(ps: seq<Player>, p: Player)
    requires p in ps
    ensures RemoveFirst(ps, p) == ps[..FirstIndex(ps, p)] + ps[FirstIndex(ps, p) + 1..]
  {
    if ps[0] != p {
      RemoveFirstSplices(ps[1..], p);
      var k := FirstIndex(ps[1..], p);
      assert ps[..k + 1] == [ps[0]] + ps[1..][..k];
      assert ps[k + 2..] == ps[1..][k + 1..];
    }
  }

  /** The id the holder gives to a player added to `ps`: the current size plus one. */
  function NextId(ps: seq<Player>): int
  {
    |ps| + 1
  }

  /** The list after one operation, as the holder performs it. */
  function Step(ps: seq<Player>, a: Action): seq<Player>
  {
    match a
    case Add(name, surname, yearOfBirth) => ps + [Player(NextId(ps), name, surname, yearOfBirth)]
    case Delete(p) => RemoveFirst(ps, p)
  }

  /** The list after a whole trace of operations, starting from the empty list. */
  function Replay(trace: seq<Action>): seq<Player>
  {
    if |trace| == 0 then [] else Step(Replay(trace[..|trace| - 1]), trace[|trace| - 1])
  }

  /** The id of the player at each index is that index plus one. */
  predicate IdsSequential(ps: seq<Player>)
  {
    forall i :: 0 <= i < |ps| ==> ps[i].id == i + 1
  }

  /** No two players in `ps` share an id. */
  predicate IdsDistinct(ps: seq<Player>)
  {
    forall i, j :: 0 <= i < j < |ps| ==> ps[i].id != ps[j].id
  }

  /** The trace holds additions only. */
  predicate OnlyAdds(trace: seq<Action>)
  {
    forall i :: 0 <= i < |trace| ==> trace[i].Add?
  }

  lemma SequentialIdsAreDistinct(ps: seq<Player>)
    requires IdsSequential(ps)
    ensures IdsDistinct(ps)
  {
  }

  /**
    As long as no player has been deleted, the player at index i has id
    i + 1, so all ids are distinct.
  */
  lemma {:induction false} AddsOnlyKeepIdsSequential(trace: seq<Action>)
    requires OnlyAdds(trace)
    ensures IdsSequential(Replay(trace)) && IdsDistinct(Replay(trace))
  {
    if |trace| > 0 {
      var front := trace[..|trace| - 1];
      assert OnlyAdds(front) by {
        forall i | 0 <= i < |front| ensures front[i].Add? {
          assert front[i] == trace[i];
        }
      }
      AddsOnlyKeepIdsSequential(front);
      assert trace[|trace| - 1].Add?;
    }
    SequentialIdsAreDistinct(Replay(trace));
  }

  /**
    Deleting any player but the last from a roster whose ids are still
    sequential, and then adding a player, gives the new player the id that the
    last player already has.
  */
  lemma DeleteThenAddRepeatsId(ps: seq<Player>, p: Player, name: string, surname: string, yearOfBirth: int)
    requires IdsSequential(ps)
    requires p in ps && p != ps[|ps| - 1]
    ensures var after := Step(Step(ps, Delete(p)), Add(name, surname, yearOfBirth));
      |after| == |ps| && after[|ps| - 2].id == after[|ps| - 1].id == |ps|
    ensures !IdsDistinct(Step(Step(ps, Delete(p)), Add(name, surname, yearOfBirth)))
  {
    var k := FirstIndex(ps, p);
    RemoveFirstSplices(ps, p);
    var removed := RemoveFirst(ps, p);
    assert k < |ps| - 1;
    assert removed[|removed| - 1] == ps[|ps| - 1];
    var after := Step(removed, Add(name, surname, yearOfBirth));
    assert after[|ps| - 2] == ps[|ps| - 1];
  }

  /** The smallest trace that shows it: add, add, delete the first player, add. */
  lemma DuplicateIdTrace()
    ensures var trace := [Add("A", "B", 2000), Add("C", "D", 2001),
                          Delete(Player(1, "A", "B", 2000)), Add("E", "F", 2002)];
      Replay(trace) == [Player(2, "C", "D", 2001), Player(2, "E", "F", 2002)]
  {
    var trace := [Add("A", "B", 2000), Add("C", "D", 2001),
                  Delete(Player(1, "A", "B", 2000)), Add("E", "F", 2002)];
    assert trace[..1] == [Add("A", "B", 2000)];
    assert trace[..2] == [Add("A", "B", 2000), Add("C", "D", 2001)];
    assert trace[..3] == trace[..2] + [Delete(Player(1, "A", "B", 2000))];
    assert Replay(trace[..1]) == [Player(1, "A", "B", 2000)];
    assert Replay(trace[..2]) == [Player(1, "A", "B", 2000), Player(2, "C", "D", 2001)];
    assert Replay(trace[..3]) == [Player(2, "C", "D", 2001)];
  }

  // ---------------------------------------------------------------------
  // Id assignment that survives deletion: one more than the largest id.

  /** The largest id in `ps`, or 0 when no id is above 0. */
  function MaxId(ps: seq<Player>): (m: int)
    ensures forall i :: 0 <= i < |ps| ==> ps[i].id <= m
    ensures m == 0 || exists i :: 0 <= i < |ps| && ps[i].id == m
    ensures m >= 0
    ensures |ps| == 0 ==> m == 0
  {
    if |ps| == 0 then 0
    else
      var m := MaxId(ps[..|ps| - 1]);
      var last := ps[|ps| - 1].id;
      assert forall i :: 0 <= i < |ps| - 1 ==> ps[i] == ps[..|ps| - 1][i];
      if last > m then last else m
  }

  /** One operation, with new ids taken past the largest id in use. */
  function StepFresh(ps: seq<Player>, a: Action): seq<Player>
  {
    match a
    case Add(name, surname, yearOfBirth) => ps + [Player(MaxId(ps) + 1, name, surname, yearOfBirth)]
    case Delete(p) => RemoveFirst(ps, p)
  }

  /** A whole trace under `StepFresh`, from the empty list. */
  function ReplayFresh(trace: seq<Action>): seq<Player>
  {
    if |trace| == 0 then [] else StepFresh(ReplayFresh(trace[..|trace| - 1]), trace[|trace| - 1])
  }

  /** On a roster whose ids are still sequential, the largest id is the size. */
  lemma MaxIdOfSequential(ps: seq<Player>)
    requires IdsSequential(ps)
    ensures MaxId(ps) == |ps|
  {
  }

  /**
    The corrected rule keeps present ids apart but may hand out an id again:
    on a roster with sequential ids, deleting the last player and then adding
    one gives the new player the deleted player's id.
  */
  lemma FreshIdReusedAfterDeletingLargest(ps: seq<Player>, name: string, surname: string, yearOfBirth: int)
    requires IdsSequential(ps) && |ps| > 0
    ensures var after := StepFresh(StepFresh(ps, Delete(ps[|ps| - 1])), Add(name, surname, yearOfBirth));
      |after| == |ps| && after[|ps| - 1] == Player(ps[|ps| - 1].id, name, surname, yearOfBirth)
  {
    var last := ps[|ps| - 1];
    var k := FirstIndex(ps, last);
    assert k == |ps| - 1;
    RemoveFirstSplices(ps, last);
    var front := ps[..|ps| - 1];
    assert RemoveFirst(ps, last) == front;
    assert IdsSequential(front) by {
      forall i | 0 <= i < |front| ensures front[i].id == i + 1 {
        assert front[i] == ps[i];
      }
    }
    MaxIdOfSequential(front);
  }

  /** Removing a player keeps the other ids apart. */
  lemma RemoveFirstKeepsIdsDistinct(ps: seq<Player>, p: Player)
    requires IdsDistinct(ps)
    ensures IdsDistinct(RemoveFirst(ps, p))
  {
    if p in ps {
      var k := FirstIndex(ps, p);
      RemoveFirstSplices(ps, p);
      var r := RemoveFirst(ps, p);
      forall i, j | 0 <= i < j < |r| ensures r[i].id != r[j].id {
        var i' := if i < k then i else i + 1;
        var j' := if j < k then j else j + 1;
        assert r[i] == ps[i'] && r[j] == ps[j'];
      }
    }
  }

  /** With fresh ids, after any trace no two players present at once share an id. */
  lemma {:induction false} FreshIdsStayDistinct(trace: seq<Action>)
    ensures IdsDistinct(ReplayFresh(trace))
  {
    if |trace| > 0 {
      var before := ReplayFresh(trace[..|trace| - 1]);
      FreshIdsStayDistinct(trace[..|trace| - 1]);
      match trace[|trace| - 1]
      case Add(name, surname, yearOfBirth) =>
        var after := StepFresh(before, Add(name, surname, yearOfBirth));
        forall i, j | 0 <= i < j < |after| ensures after[i].id != after[j].id {
          if j == |before| {
            assert after[i] == before[i];
          } else {
            assert after[i] == before[i] && after[j] == before[j];
          }
        }
      case Delete(p) =>
        RemoveFirstKeepsIdsDistinct(before, p);
    }
  }

  // ---------------------------------------------------------------------
  // The state holder itself.

  class TeamViewModel {
    /** The published list of players. */
    var players: seq<Player>
    /** The operations applied since the holder was created. */
    ghost var history: seq<Action>

    ghost predicate Valid()
      reads this
    {
      players == Replay(history)
    }

    constructor ()
      ensures Valid() && history == [] && players == []
    {
      players := [];
      history := [];
    }

    /** Appends a player whose id is the current size plus one. */
    method AddPlayer(name: string, surname: string, yearOfBirth: int)
      requires Valid()
      modifies this
      ensures Valid() && history == old(history) + [Add(name, surname, yearOfBirth)]
      ensures |players| == |old(players)| + 1
      ensures players[..|old(players)|] == old(players)
      ensures players[|old(players)|] == Player(|old(players)| + 1, name, surname, yearOfBirth)
      ensures OnlyAdds(history) ==> IdsSequential(players) && IdsDistinct(players)
    {
      var id := |players| + 1;
      players := players + [Player(id, name, surname, yearOfBirth)];
      history := history + [Add(name, surname, yearOfBirth)];
      assert history[..|history| - 1] == old(history);
      if OnlyAdds(history) {
        AddsOnlyKeepIdsSequential(history);
      }
    }

    /** Republishes a copy of the list without the first player equal to `player`. */
    method DeletePlayer(player: Player)
      requires Valid()
      modifies this
      ensures Valid() && history == old(history) + [Delete(player)]
      ensures player !in old(players) ==> players == old(players)
      ensures player in old(players) ==>
        |players| == |old(players)| - 1 &&
        var k := FirstIndex(old(players), player);
        players == old(players)[..k] + old(players)[k + 1..]
    {
      var updatedPlayers := players;
      updatedPlayers := RemoveFirst(updatedPlayers, player);
      if player in players {
        RemoveFirstSplices(players, player);
      }
      players := updatedPlayers;
      history := history + [Delete(player)];
      assert history[..|history| - 1] == old(history);
    }
  }

  /**
    The duplicate-id trace run against the holder: two additions, deletion of
    the first player, one more addition.  Both remaining players have id 2.
  */
  method DeleteThenAddOnHolder() returns (ids: seq<int>)
    ensures ids == [2, 2]
  {
    var vm := new TeamViewModel();
    vm.AddPlayer("A", "B", 2000);
    vm.AddPlayer("C", "D", 2001);
    var first := vm.players[0];
    vm.DeletePlayer(first);
    vm.AddPlayer("E", "F", 2002);
    ids := [vm.players[0].id, vm.players[1].id];
  }
}
