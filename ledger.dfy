/**
 * The `matches` table and the decision rule of a swipe (src/MatchingSystem.jsx, `handleSwipe`),
 * stated on values: a swipe maps the table before it to the table after it.
 */
module Ledger {
  import opened Common

  datatype Status = Pending | Matched

  /** A row of `matches`: `user_a` liked `user_b`; `Matched` once `user_b` liked back. */
  datatype MatchRow = MatchRow(id: nat, userA: UserId, userB: UserId, status: Status)

  type MatchTable = seq<MatchRow>

  datatype Direction = Left | Right

  /** One press of a swipe button, with the faults the store may answer it with. */
  datatype Swipe = Swipe(actor: UserId, target: UserId, dir: Direction, readFails: bool, writeFails: bool)

  predicate HasPair(t: MatchTable, a: UserId, b: UserId)
  {
    exists i :: 0 <= i < |t| && t[i].userA == a && t[i].userB == b
  }

  predicate HasId(t: MatchTable, id: nat)
  {
    exists i :: 0 <= i < |t| && t[i].id == id
  }

  /** `id` is the primary key. */
  predicate UniqueIds(t: MatchTable)
  {
    forall i, j :: 0 <= i < j < |t| ==> t[i].id != t[j].id
  }

  /** The uniqueness constraint on the ordered pair `(user_a, user_b)`. */
  predicate UniquePairs(t: MatchTable)
  {
    forall i, j :: 0 <= i < j < |t| ==> t[i].userA != t[j].userA || t[i].userB != t[j].userB
  }

  predicate WellFormed(t: MatchTable)
  {
    UniqueIds(t) && UniquePairs(t)
  }

  /** A status may stay as it is or go from pending to matched, never back. */
  predicate StatusStep(before: Status, after: Status)
  {
    before == after || (before == Pending && after == Matched)
  }

  /** The id the store assigns to a row inserted without one. */
  function FreshId(t: MatchTable): (r: nat)
    ensures forall i :: 0 <= i < |t| ==> t[i].id < r
  {
    FreshKey(t, (row: MatchRow) => row.id)
  }

  /** `select('*').eq('user_a', a).eq('user_b', b)`, in table order. */
  function Select(t: MatchTable, a: UserId, b: UserId): (r: MatchTable)
    ensures forall row :: row in r <==> row in t && row.userA == a && row.userB == b
    ensures !HasPair(t, a, b) ==> r == []
  {
    if t == [] then []
    else
      assert !HasPair(t, a, b) ==> !HasPair(t[1..], a, b) by {
        if HasPair(t[1..], a, b) {
          var k :| 0 <= k < |t[1..]| && t[1..][k].userA == a && t[1..][k].userB == b;
          assert t[k + 1] == t[1..][k];
        }
      }
      (if t[0].userA == a && t[0].userB == b then [t[0]] else []) + Select(t[1..], a, b)
  }

  /** The same query ended by `.single()`: a row only when exactly one row matches. */
  function Single(t: MatchTable, a: UserId, b: UserId): (r: Option<MatchRow>)
    ensures r.Some? ==> r.value in t && r.value.userA == a && r.value.userB == b
  {
    var rows := Select(t, a, b);
    if |rows| == 1 then (assert rows[0] in rows; Some(rows[0])) else None
  }

  lemma {:induction false} SelectAtMostOne(t: MatchTable, a: UserId, b: UserId)
    requires UniquePairs(t)
    ensures |Select(t, a, b)| <= 1
  {
    if t != [] {
      var tail := t[1..];
      assert UniquePairs(tail) by {
        forall i, j | 0 <= i < j < |tail|
          ensures tail[i].userA != tail[j].userA || tail[i].userB != tail[j].userB
        {
          assert tail[i] == t[i + 1] && tail[j] == t[j + 1];
        }
      }
      SelectAtMostOne(tail, a, b);
      if t[0].userA == a && t[0].userB == b {
        assert !HasPair(tail, a, b) by {
          forall k | 0 <= k < |tail| ensures !(tail[k].userA == a && tail[k].userB == b) {
            assert tail[k] == t[k + 1];
          }
        }
      }
    }
  }

  /** With the pair constraint in force, `.single()` finds the row of a recorded pair. */
  lemma SingleFindsPair(t: MatchTable, a: UserId, b: UserId, k: nat)
    requires UniquePairs(t)
    requires k < |t| && t[k].userA == a && t[k].userB == b
    ensures Single(t, a, b) == Some(t[k])
  {
    SelectAtMostOne(t, a, b);
    var rows := Select(t, a, b);
    assert t[k] in rows;
  }

  /** `.update({status: s}).eq('id', id)`. */
  function SetStatus(t: MatchTable, id: nat, s: Status): (r: MatchTable)
    ensures |r| == |t|
    ensures forall i :: 0 <= i < |t| ==> r[i] == (if t[i].id == id then t[i].(status := s) else t[i])
  {
    if t == [] then []
    else [if t[0].id == id then t[0].(status := s) else t[0]] + SetStatus(t[1..], id, s)
  }

  /**
   * `.upsert({user_a: me, user_b: target, status: 'pending'})`. The row carries no id, so the
   * store gives it a fresh one and the primary key never conflicts; the constraint on the pair
   * rejects it when `me` already liked `target`, and `handleSwipe` ignores that error.
   */
  function UpsertPending(t: MatchTable, me: UserId, target: UserId): (r: MatchTable)
    ensures HasPair(r, me, target)
    ensures |t| <= |r| <= |t| + 1 && r[..|t|] == t
    ensures forall i :: |t| <= i < |r| ==> r[i] == MatchRow(FreshId(t), me, target, Pending)
    ensures HasPair(t, me, target) ==> r == t
    ensures WellFormed(t) ==> WellFormed(r)
  {
    if HasPair(t, me, target) then t
    else
      var r := t + [MatchRow(FreshId(t), me, target, Pending)];
      assert r[|t|].userA == me && r[|t|].userB == target;
      r
  }

  /** The reverse lookup `(target -> me)` of a right swipe; a failed read returns no data. */
  function ReverseLike(t: MatchTable, me: UserId, target: UserId, readFails: bool): (r: Option<MatchRow>)
    ensures r.Some? ==> !readFails && r.value in t && r.value.userA == target && r.value.userB == me
  {
    if readFails then None else Single(t, target, me)
  }

  /** Whether the swipe raises the "perfect match" notification. */
  predicate SwipeMatches(t: MatchTable, me: UserId, target: UserId, dir: Direction, readFails: bool)
  {
    dir == Right && ReverseLike(t, me, target, readFails).Some?
  }

  /**
   * The `matches` table after `me` swipes `target`. A left swipe writes nothing; a right swipe
   * flips the reverse row to matched when there is one, and otherwise upserts a pending row.
   */
  function SwipeLedger(t: MatchTable, me: UserId, target: UserId, dir: Direction,
                       readFails: bool, writeFails: bool): (r: MatchTable)
    ensures dir == Left || writeFails ==> r == t
    ensures |t| <= |r| <= |t| + 1
    ensures forall i :: 0 <= i < |t| ==>
      r[i].id == t[i].id && r[i].userA == t[i].userA && r[i].userB == t[i].userB
      && StatusStep(t[i].status, r[i].status)
    ensures forall i :: |t| <= i < |r| ==> r[i].status == Pending && r[i].userA == me && r[i].userB == target
    ensures WellFormed(t) ==> WellFormed(r)
  {
    if dir == Left || writeFails then t
    else
      match ReverseLike(t, me, target, readFails)
      case Some(row) => SetStatus(t, row.id, Matched)
      case None => UpsertPending(t, me, target)
  }

  /**
   * A right swipe on someone who already liked `me` (and whose row the store returns) turns that
   * row to matched, inserts nothing, changes no other row and raises the notification.
   */
  lemma RightSwipeConfirms(t: MatchTable, me: UserId, target: UserId, k: nat)
    requires WellFormed(t)
    requires k < |t| && t[k].userA == target && t[k].userB == me
    ensures var r := SwipeLedger(t, me, target, Right, false, false);
      |r| == |t| && r[k] == t[k].(status := Matched)
      && (forall j :: 0 <= j < |t| && j != k ==> r[j] == t[j])
    ensures SwipeMatches(t, me, target, Right, false)
  {
    SingleFindsPair(t, target, me, k);
  }

  /**
   * A right swipe with no reverse row found records the pair `(me, target)`, makes no row
   * matched, and raises no notification.
   */
  lemma RightSwipeProposes(t: MatchTable, me: UserId, target: UserId, readFails: bool)
    requires WellFormed(t)
    requires readFails || !HasPair(t, target, me)
    ensures var r := SwipeLedger(t, me, target, Right, readFails, false);
      HasPair(r, me, target)
      && (forall i :: 0 <= i < |r| && r[i].status == Matched ==> i < |t| && t[i].status == Matched)
    ensures !SwipeMatches(t, me, target, Right, readFails)
  {
    var r := SwipeLedger(t, me, target, Right, readFails, false);
    assert r == UpsertPending(t, me, target);
  }

  /**
   * `matched` is written only by the update of the reverse row: a row that is matched after a
   * swipe and was not before is the row the reverse lookup of a right swipe returned.
   */
  lemma MatchedOnlyByUpdate(t: MatchTable, me: UserId, target: UserId, dir: Direction,
                            readFails: bool, writeFails: bool, i: nat)
    requires UniqueIds(t)
    requires var r := SwipeLedger(t, me, target, dir, readFails, writeFails);
      i < |r| && r[i].status == Matched && (i >= |t| || t[i].status == Pending)
    ensures dir == Right && !readFails && !writeFails
    ensures i < |t| && t[i].status == Pending && ReverseLike(t, me, target, readFails) == Some(t[i])
  {
    var r := SwipeLedger(t, me, target, dir, readFails, writeFails);
    assert i < |t| && r[i] != t[i];
    assert dir == Right && !writeFails;
    var found := ReverseLike(t, me, target, readFails);
    if found.None? {
      assert false;
    }
    var row := found.value;
    assert t[i].id == row.id by {
      assert r == SetStatus(t, row.id, Matched);
    }
    var k :| 0 <= k < |t| && t[k] == row;
    SameIdSameRow(t, k, i);
  }

  lemma SameIdSameRow(t: MatchTable, k: nat, i: nat)
    requires UniqueIds(t) && k < |t| && i < |t| && t[k].id == t[i].id
    ensures k == i
  {
  }

  /**
   * Two users who had no row between them like each other one after the other: one row,
   * `(a -> b)`, ends up matched; no `(b -> a)` row exists; only the second like notifies.
   */
  lemma MutualLikeResolves(t: MatchTable, a: UserId, b: UserId)
    requires WellFormed(t) && a != b
    requires !HasPair(t, a, b) && !HasPair(t, b, a)
    ensures var t1 := SwipeLedger(t, a, b, Right, false, false);
      var t2 := SwipeLedger(t1, b, a, Right, false, false);
      |t2| == |t| + 1 && t2[..|t|] == t
      && t2[|t|] == MatchRow(FreshId(t), a, b, Matched)
      && !HasPair(t2, b, a)
    ensures !SwipeMatches(t, a, b, Right, false)
    ensures SwipeMatches(SwipeLedger(t, a, b, Right, false, false), b, a, Right, false)
  {
    var t1 := SwipeLedger(t, a, b, Right, false, false);
    RightSwipeProposes(t, a, b, false);
    assert t1 == t + [MatchRow(FreshId(t), a, b, Pending)];
    RightSwipeConfirms(t1, b, a, |t|);
    var t2 := SwipeLedger(t1, b, a, Right, false, false);
    assert t2[..|t|] == t by {
      forall j | 0 <= j < |t| ensures t2[j] == t[j] {
        assert t1[j] == t[j];
      }
    }
    assert !HasPair(t2, b, a) by {
      forall j | 0 <= j < |t2| ensures !(t2[j].userA == b && t2[j].userB == a) {
        if j < |t| {
          assert t2[j] == t[j];
        }
      }
    }
  }

  /** The table after a sequence of swipes, each one atomic. */
  function Replay(t: MatchTable, swipes: seq<Swipe>): MatchTable
    decreases |swipes|
  {
    if swipes == [] then t
    else
      var s := swipes[0];
      Replay(SwipeLedger(t, s.actor, s.target, s.dir, s.readFails, s.writeFails), swipes[1..])
  }

  /**
   * After any sequence of swipes: at most one row per ordered pair and per id, no row removed,
   * no row's users changed, and no status gone back from matched to pending.
   */
  lemma {:induction false} ReplayKeepsLedger(t: MatchTable, swipes: seq<Swipe>)
    requires WellFormed(t)
    decreases |swipes|
    ensures var r := Replay(t, swipes);
      WellFormed(r) && |t| <= |r|
      && forall i :: 0 <= i < |t| ==>
        r[i].id == t[i].id && r[i].userA == t[i].userA && r[i].userB == t[i].userB
        && StatusStep(t[i].status, r[i].status)
  {
    if swipes != [] {
      var s := swipes[0];
      var t1 := SwipeLedger(t, s.actor, s.target, s.dir, s.readFails, s.writeFails);
      ReplayKeepsLedger(t1, swipes[1..]);
    }
  }

  /** The rows each swipe of the sequence inserts, in order: what the `INSERT` feed delivers. */
  function InsertedRows(t: MatchTable, swipes: seq<Swipe>): seq<MatchRow>
    decreases |swipes|
  {
    if swipes == [] then []
    else
      var s := swipes[0];
      var t1 := SwipeLedger(t, s.actor, s.target, s.dir, s.readFails, s.writeFails);
      t1[|t|..] + InsertedRows(t1, swipes[1..])
  }
}
