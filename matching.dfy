/**
 * The `MatchingSystem` component (src/MatchingSystem.jsx) as a state machine: its state fields,
 * the two tables it reads and writes, and one atomic method per handler.
 */
module Matching {
  import opened Common
  import opened Ledger
  import opened Profiles

  const PerfectMatchToast: string := "¡Es un Match Perfecto!"
  const NewMatchToast: string := "¡Nuevo Match detectado!"

  /**
   * Whether an inserted `matches` row raises the toast for `me`: the channel's filter
   * `user_b = me` and the handler's test `status === 'matched'`.
   */
  predicate InsertNotifies(me: UserId, row: MatchRow)
  {
    row.userB == me && row.status == Matched
  }

  /**
   * Every row a swipe inserts is pending, so no sequence of swipes ever delivers an `INSERT`
   * event that raises the new-match toast, for any viewer: matched rows only come from updates.
   */
  lemma {:induction false} SwipesNeverRaiseInsertToast(t: MatchTable, swipes: seq<Swipe>, viewer: UserId)
    decreases |swipes|
    ensures forall row :: row in InsertedRows(t, swipes) ==> !InsertNotifies(viewer, row)
  {
    if swipes != [] {
      var s := swipes[0];
      var t1 := SwipeLedger(t, s.actor, s.target, s.dir, s.readFails, s.writeFails);
      SwipesNeverRaiseInsertToast(t1, swipes[1..], viewer);
      forall row | row in t1[|t|..] ensures !InsertNotifies(viewer, row) {
        var k :| 0 <= k < |t1[|t|..]| && t1[|t|..][k] == row;
        assert t1[|t| + k] == row;
      }
    }
  }

  class MatchingSystem {
    /** The signed-in user (`user.id`). */
    const me: UserId
    /** The store's `profiles` table. */
    var profiles: seq<Profile>
    /** The store's `matches` table. */
    var ledger: MatchTable
    var potentialMatches: seq<Profile>
    var currentIndex: nat
    var matchNotification: Option<string>
    var loading: bool

    ghost predicate Valid()
      reads this
    {
      && WellFormed(ledger)
      && |potentialMatches| <= CandidateLimit
      && forall p :: p in potentialMatches ==> p.id != me
    }

    /** The component's initial state over a given store. */
    constructor (me: UserId, profiles: seq<Profile>, ledger: MatchTable)
      requires WellFormed(ledger)
      ensures Valid()
      ensures this.me == me && this.profiles == profiles && this.ledger == ledger
      ensures potentialMatches == [] && currentIndex == 0 && matchNotification == None && loading
    {
      this.me := me;
      this.profiles := profiles;
      this.ledger := ledger;
      potentialMatches := [];
      currentIndex := 0;
      matchNotification := None;
      loading := true;
    }

    /** `fetchPotentialMatches`: a failed read keeps the previous list. */
    method FetchPotentialMatches(readFails: bool)
      requires Valid()
      modifies this`potentialMatches, this`loading
      ensures Valid()
      ensures potentialMatches == if readFails then old(potentialMatches) else Candidates(profiles, me)
      ensures !loading
    {
      loading := true;
      if !readFails {
        potentialMatches := Candidates(profiles, me);
      }
      loading := false;
    }

    /** Whether an event row agrees with the `matches` table: already there, or inserted with a free id and pair. */
    predicate InsertedMatch(row: MatchRow)
      reads this
    {
      row in ledger || (!HasId(ledger, row.id) && !HasPair(ledger, row.userA, row.userB))
    }

    /**
     * A row inserted into `matches`, by this client or another. The row is in the store, so it is
     * in `ledger` afterwards; the `my_matches` channel shows the toast when it passes its test. A
     * like addressed to `me` is now found by the reverse lookup of a right swipe on its sender.
     */
    method OnMatchInserted(row: MatchRow)
      requires Valid() && InsertedMatch(row)
      modifies this`ledger, this`matchNotification
      ensures Valid()
      ensures ledger == if row in old(ledger) then old(ledger) else old(ledger) + [row]
      ensures matchNotification == if InsertNotifies(me, row) then Some(NewMatchToast) else old(matchNotification)
      ensures row.userB == me ==> SwipeMatches(ledger, me, row.userA, Right, false)
    {
      var k: nat;
      if row !in ledger {
        assert forall i :: 0 <= i < |ledger| ==>
          ledger[i].id != row.id && (ledger[i].userA != row.userA || ledger[i].userB != row.userB);
        ledger := ledger + [row];
        k := |ledger| - 1;
      } else {
        k :| 0 <= k < |ledger| && ledger[k] == row;
      }
      SingleFindsPair(ledger, row.userA, row.userB, k);
      if row.userB == me && row.status == Matched {
        matchNotification := Some(NewMatchToast);
      }
    }

    /**
     * `handleSwipe` on the card on show: the table changes as the decision rule says, the cursor
     * moves on by one whatever the store answered, and only a found reverse like raises the toast.
     */
    method HandleSwipe(dir: Direction, target: UserId, readFails: bool, writeFails: bool)
      requires Valid()
      requires !Exhausted(currentIndex, potentialMatches) && target == potentialMatches[currentIndex].id
      modifies this`ledger, this`currentIndex, this`matchNotification
      ensures Valid()
      ensures ledger == SwipeLedger(old(ledger), me, target, dir, readFails, writeFails)
      ensures currentIndex == old(currentIndex) + 1
      ensures matchNotification ==
        if SwipeMatches(old(ledger), me, target, dir, readFails) then Some(PerfectMatchToast)
        else old(matchNotification)
    {
      ghost var before := ledger;
      ghost var after := SwipeLedger(before, me, target, dir, readFails, writeFails);
      if dir == Right {
        var existingLike := ReverseLike(ledger, me, target, readFails);
        if existingLike.Some? {
          if !writeFails {
            ledger := SetStatus(ledger, existingLike.value.id, Matched);
          }
          matchNotification := Some(PerfectMatchToast);
        } else if !writeFails {
          ledger := UpsertPending(ledger, me, target);
        }
      }
      assert ledger == after;
      currentIndex := currentIndex + 1;
    }

    /** The card on show: none exactly when the view is exhausted. */
    method CurrentProfile() returns (p: Option<Profile>)
      requires Valid()
      ensures p.None? <==> Exhausted(currentIndex, potentialMatches)
      ensures p.Some? ==> p.value == potentialMatches[currentIndex] && p.value.id != me
    {
      if Exhausted(currentIndex, potentialMatches) {
        p := None;
      } else {
        p := Some(potentialMatches[currentIndex]);
      }
    }

    /** The reload button: back to the first card, then fetch again. */
    method Reload(readFails: bool)
      requires Valid()
      modifies this`currentIndex, this`potentialMatches, this`loading
      ensures Valid()
      ensures currentIndex == 0
      ensures potentialMatches == if readFails then old(potentialMatches) else Candidates(profiles, me)
      ensures !loading
    {
      currentIndex := 0;
      FetchPotentialMatches(readFails);
    }

    /** The toast's close button. */
    method DismissNotification()
      modifies this`matchNotification
      ensures matchNotification == None
    {
      matchNotification := None;
    }
  }
}
