/**
 * The `rooms` and `room_members` tables as src/RoomManager.jsx uses them, and the store calls it
 * makes on them, stated on values.
 */
module RoomStore {
  import opened Common

  type RoomId = nat

  /** A row of `rooms`; `createdAt` is the store's `created_at` timestamp. */
  datatype Room = Room(id: RoomId, name: string, createdBy: UserId, createdAt: int)

  /** A row of `room_members`: the pair is the key, there is no other payload. */
  datatype Membership = Membership(roomId: RoomId, userId: UserId)

  /** An error the store answers with: PostgreSQL code, HTTP status, message. */
  datatype StoreError = StoreError(code: string, status: int, message: string)

  /** PostgreSQL's `unique_violation`. */
  const UniqueViolationCode: string := "23505"
  /** HTTP 409 Conflict. */
  const ConflictStatus: int := 409

  const DuplicateNameMessage: string := "Ya existe una sala con ese nombre. Prueba con otro."
  const JoinFailedMessage: string := "Error al unirse a la sala."
  const LoadFailedMessage: string := "No se pudieron cargar las salas."

  /** What the store answers an insert that breaks the unique room name. */
  const DuplicateNameError: StoreError :=
    StoreError(UniqueViolationCode, ConflictStatus, "duplicate key value violates unique constraint")

  predicate HasRoomNamed(rooms: seq<Room>, name: string)
  {
    exists i :: 0 <= i < |rooms| && rooms[i].name == name
  }

  predicate HasRoom(rooms: seq<Room>, id: RoomId)
  {
    exists i :: 0 <= i < |rooms| && rooms[i].id == id
  }

  /** The primary key `id` and the unique `name`. */
  predicate RoomsOk(rooms: seq<Room>)
  {
    forall i, j :: 0 <= i < j < |rooms| ==> rooms[i].id != rooms[j].id && rooms[i].name != rooms[j].name
  }

  /** `room_members` holds each `(room_id, user_id)` pair at most once. */
  predicate NoDuplicates(t: seq<Membership>)
  {
    forall i, j :: 0 <= i < j < |t| ==> t[i] != t[j]
  }

  /**
   * `.insert([{name, created_by}]).select()`: the store assigns a fresh id and the timestamp
   * `now`, refuses a name already taken with a unique violation, and may instead answer with
   * any other `fault`.
   */
  function InsertRoom(rooms: seq<Room>, name: string, creator: UserId, now: int,
                      fault: Option<StoreError>): (r: Result<Room, StoreError>)
    ensures r.Ok? <==> fault.None? && !HasRoomNamed(rooms, name)
    ensures fault.Some? ==> r == Err(fault.value)
    ensures fault.None? && HasRoomNamed(rooms, name) ==>
      r.Err? && r.error.code == UniqueViolationCode && r.error.status == ConflictStatus
    ensures r.Ok? ==>
      r.value.name == name && r.value.createdBy == creator && r.value.createdAt == now
      && !HasRoom(rooms, r.value.id)
    ensures r.Ok? && RoomsOk(rooms) ==> RoomsOk(rooms + [r.value])
  {
    if fault.Some? then Err(fault.value)
    else if HasRoomNamed(rooms, name) then Err(DuplicateNameError)
    else
      var room := Room(FreshKey(rooms, (x: Room) => x.id), name, creator, now);
      assert forall i :: 0 <= i < |rooms| ==> rooms[i].id != room.id && rooms[i].name != room.name;
      Ok(room)
  }

  /** The message the `catch` of `createRoom` shows for a failed insert. */
  function CreateErrorMessage(e: StoreError): string
  {
    if e.code == UniqueViolationCode || e.status == ConflictStatus then DuplicateNameMessage
    else e.message
  }

  /**
   * Creating a room under a name that is already taken fails with the duplicate-name message
   * and adds no row: after a first create of `name` succeeds, a second one is refused.
   */
  lemma SecondCreateOfNameRefused(rooms: seq<Room>, name: string, creator: UserId, creator2: UserId, t1: int, t2: int)
    requires InsertRoom(rooms, name, creator, t1, None).Ok?
    ensures var after := rooms + [InsertRoom(rooms, name, creator, t1, None).value];
      var second := InsertRoom(after, name, creator2, t2, None);
      second.Err? && CreateErrorMessage(second.error) == DuplicateNameMessage
  {
    var after := rooms + [InsertRoom(rooms, name, creator, t1, None).value];
    assert after[|rooms|].name == name;
  }

  /** Newest first: the order of `.order('created_at', { ascending: false })`. */
  predicate NewestFirst(rs: seq<Room>)
  {
    forall i, j :: 0 <= i < j < |rs| ==> rs[i].createdAt >= rs[j].createdAt
  }

  lemma HeadIsNewest(rs: seq<Room>)
    requires NewestFirst(rs) && rs != []
    ensures forall y :: y in rs ==> y.createdAt <= rs[0].createdAt
  {
    forall y | y in rs ensures y.createdAt <= rs[0].createdAt {
      var k :| 0 <= k < |rs| && rs[k] == y;
      if k > 0 {
        assert rs[0].createdAt >= rs[k].createdAt;
      }
    }
  }

  lemma PrependNewest(h: Room, rest: seq<Room>)
    requires NewestFirst(rest)
    requires forall y :: y in rest ==> y.createdAt <= h.createdAt
    ensures NewestFirst([h] + rest)
  {
    var r := [h] + rest;
    forall i, j | 0 <= i < j < |r| ensures r[i].createdAt >= r[j].createdAt {
      assert r[j] == rest[j - 1];
      if i > 0 {
        assert r[i] == rest[i - 1];
      } else {
        assert rest[j - 1] in rest;
      }
    }
  }

  function InsertNewestFirst(x: Room, rs: seq<Room>): (r: seq<Room>)
    requires NewestFirst(rs)
    ensures NewestFirst(r)
    ensures multiset(r) == multiset(rs) + multiset{x}
    ensures forall y :: y in r ==> y == x || y in rs
  {
    if rs == [] || x.createdAt >= rs[0].createdAt then
      if rs != [] then HeadIsNewest(rs); PrependNewest(x, rs); [x] + rs
      else [x]
    else
      var rest := InsertNewestFirst(x, rs[1..]);
      assert NewestFirst([rs[0]] + rest) by {
        HeadIsNewest(rs);
        assert forall y :: y in rs[1..] ==> y in rs;
        PrependNewest(rs[0], rest);
      }
      assert multiset([rs[0]] + rest) == multiset(rs) + multiset{x} by {
        assert rs == [rs[0]] + rs[1..];
      }
      [rs[0]] + rest
  }

  /** The rows of the `rooms` query: every row once, newest first (equal timestamps in any order). */
  function OrderByCreatedDesc(rs: seq<Room>): (r: seq<Room>)
    ensures NewestFirst(r)
    ensures multiset(r) == multiset(rs)
  {
    if rs == [] then []
    else
      assert rs == [rs[0]] + rs[1..];
      InsertNewestFirst(rs[0], OrderByCreatedDesc(rs[1..]))
  }

  /** `.select('user_id').eq('room_id', roomId)`, in table order. */
  function MembersOf(t: seq<Membership>, roomId: RoomId): (r: seq<UserId>)
    ensures forall u :: u in r <==> Membership(roomId, u) in t
    ensures NoDuplicates(t) ==> forall i, j :: 0 <= i < j < |r| ==> r[i] != r[j]
  {
    if t == [] then []
    else
      var rest := MembersOf(t[1..], roomId);
      assert NoDuplicates(t) ==> NoDuplicates(t[1..]) by {
        if NoDuplicates(t) {
          forall i, j | 0 <= i < j < |t[1..]| ensures t[1..][i] != t[1..][j] {
            assert t[1..][i] == t[i + 1] && t[1..][j] == t[j + 1];
          }
        }
      }
      assert NoDuplicates(t) ==> t[0] !in t[1..] by {
        if NoDuplicates(t) {
          forall k | 0 <= k < |t[1..]| ensures t[1..][k] != t[0] {
            assert t[1..][k] == t[k + 1];
          }
        }
      }
      if t[0].roomId == roomId then [t[0].userId] + rest else rest
  }

  /** `.upsert({room_id, user_id})`: the key is the pair, so an existing row stays as it is. */
  function UpsertMembership(t: seq<Membership>, m: Membership): (r: seq<Membership>)
    ensures forall x :: x in r <==> x in t || x == m
    ensures m in t ==> r == t
    ensures NoDuplicates(t) ==> NoDuplicates(r)
  {
    if m in t then t else t + [m]
  }

  lemma {:induction false} CountInDistinct(t: seq<Membership>, m: Membership)
    requires NoDuplicates(t)
    ensures multiset(t)[m] == if m in t then 1 else 0
  {
    if t != [] {
      assert t == [t[0]] + t[1..];
      assert NoDuplicates(t[1..]) by {
        forall i, j | 0 <= i < j < |t[1..]| ensures t[1..][i] != t[1..][j] {
          assert t[1..][i] == t[i + 1] && t[1..][j] == t[j + 1];
        }
      }
      CountInDistinct(t[1..], m);
      if m == t[0] {
        assert m !in t[1..] by {
          forall k | 0 <= k < |t[1..]| ensures t[1..][k] != m {
            assert t[1..][k] == t[k + 1];
          }
        }
      }
    }
  }

  /** Joining twice leaves exactly one row for the pair, the same table as joining once. */
  lemma JoinTwiceOneRow(t: seq<Membership>, m: Membership)
    requires NoDuplicates(t)
    ensures var once := UpsertMembership(t, m);
      UpsertMembership(once, m) == once && multiset(once)[m] == 1
  {
    CountInDistinct(UpsertMembership(t, m), m);
  }
}
