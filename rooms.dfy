/**
 * The `RoomManager` component (src/RoomManager.jsx) as a state machine: its state fields, the
 * `rooms` and `room_members` tables, and one atomic method per handler or realtime event.
 */
module Rooms {
  import opened Common
  import opened RoomStore

  class RoomManager {
    /** The signed-in user (`user.id`). */
    const user: UserId
    /** The store's `rooms` table. */
    var roomTable: seq<Room>
    /** The store's `room_members` table. */
    var memberTable: seq<Membership>

    var rooms: seq<Room>
    var newRoomName: string
    var currentRoom: Option<RoomId>
    /** The `user_id` column of the last member query. */
    var members: seq<UserId>
    var loading: bool
    var error: Option<string>
    /** The rooms whose `room_members` channel this component has opened; none is ever closed. */
    var memberChannels: set<RoomId>

    ghost predicate Valid()
      reads this
    {
      RoomsOk(roomTable) && NoDuplicates(memberTable)
    }

    /** Whether the membership upsert of a join goes through: the store is reachable and the room exists. */
    predicate JoinSucceeds(roomId: RoomId, writeFails: bool)
      reads this
    {
      !writeFails && HasRoom(roomTable, roomId)
    }

    /** The component's initial state over a given store. */
    constructor (user: UserId, roomTable: seq<Room>, memberTable: seq<Membership>)
      requires RoomsOk(roomTable) && NoDuplicates(memberTable)
      ensures Valid()
      ensures this.user == user && this.roomTable == roomTable && this.memberTable == memberTable
      ensures rooms == [] && newRoomName == [] && currentRoom == None && members == []
      ensures !loading && error == None && memberChannels == {}
    {
      this.user := user;
      this.roomTable := roomTable;
      this.memberTable := memberTable;
      rooms := [];
      newRoomName := [];
      currentRoom := None;
      members := [];
      loading := false;
      error := None;
      memberChannels := {};
    }

    /** `fetchRooms`: the error is cleared first; a read replaces the list, a failure reports it. */
    method FetchRooms(readFails: bool)
      requires Valid()
      modifies this`rooms, this`error
      ensures Valid()
      ensures rooms == if readFails then old(rooms) else OrderByCreatedDesc(roomTable)
      ensures error == if readFails then Some(LoadFailedMessage) else None
    {
      error := None;
      if readFails {
        error := Some(LoadFailedMessage);
      } else {
        rooms := OrderByCreatedDesc(roomTable);
      }
    }

    /** The name field's `onChange`. */
    method SetNewRoomName(name: string)
      modifies this`newRoomName
      ensures newRoomName == name
    {
      newRoomName := name;
    }

    /** The member query: the rows of the room, or the empty list when no data comes back. */
    method RefreshMembers(roomId: RoomId, readFails: bool)
      requires Valid()
      modifies this`members
      ensures Valid()
      ensures members == if readFails then [] else MembersOf(memberTable, roomId)
      ensures forall i, j :: 0 <= i < j < |members| ==> members[i] != members[j]
    {
      if readFails {
        members := [];
      } else {
        members := MembersOf(memberTable, roomId);
      }
    }

    /** `subscribeToMembers`: one member query, and the room's channel opened. */
    method SubscribeToMembers(roomId: RoomId, readFails: bool)
      requires Valid()
      modifies this`members, this`memberChannels
      ensures Valid()
      ensures members == if readFails then [] else MembersOf(memberTable, roomId)
      ensures memberChannels == old(memberChannels) + {roomId}
    {
      RefreshMembers(roomId, readFails);
      memberChannels := memberChannels + {roomId};
    }

    /**
     * `joinRoom`: on success the membership pair is in the table (once) and the room becomes
     * current; on failure only the error changes.
     */
    method JoinRoom(roomId: RoomId, writeFails: bool, readFails: bool)
      requires Valid()
      modifies this`memberTable, this`currentRoom, this`members, this`error, this`memberChannels
      ensures Valid()
      ensures memberTable ==
        if old(JoinSucceeds(roomId, writeFails)) then UpsertMembership(old(memberTable), Membership(roomId, user))
        else old(memberTable)
      ensures Membership(roomId, user) in memberTable <==>
        old(JoinSucceeds(roomId, writeFails)) || Membership(roomId, user) in old(memberTable)
      ensures currentRoom == if old(JoinSucceeds(roomId, writeFails)) then Some(roomId) else old(currentRoom)
      ensures members ==
        if !old(JoinSucceeds(roomId, writeFails)) then old(members)
        else if readFails then []
        else MembersOf(memberTable, roomId)
      ensures old(JoinSucceeds(roomId, writeFails)) && !readFails ==> user in members
      ensures memberChannels ==
        if old(JoinSucceeds(roomId, writeFails)) then old(memberChannels) + {roomId} else old(memberChannels)
      ensures error == if old(JoinSucceeds(roomId, writeFails)) then None else Some(JoinFailedMessage)
    {
      error := None;
      if JoinSucceeds(roomId, writeFails) {
        memberTable := UpsertMembership(memberTable, Membership(roomId, user));
        currentRoom := Some(roomId);
        SubscribeToMembers(roomId, readFails);
      } else {
        error := Some(JoinFailedMessage);
      }
    }

    /**
     * `createRoom`: an empty name does nothing at all. Otherwise a refused insert shows the
     * duplicate-name message for a uniqueness conflict and the store's own message for anything
     * else; a successful one clears the name and joins the new room. `loading` ends false.
     */
    method CreateRoom(now: int, insertFault: Option<StoreError>, joinFails: bool, readFails: bool)
      requires Valid()
      modifies this
      ensures Valid()
      ensures old(newRoomName) == [] ==>
        roomTable == old(roomTable) && memberTable == old(memberTable) && rooms == old(rooms)
        && newRoomName == old(newRoomName) && currentRoom == old(currentRoom) && members == old(members)
        && loading == old(loading) && error == old(error) && memberChannels == old(memberChannels)
      ensures old(newRoomName) != [] ==> !loading && rooms == old(rooms)
      ensures old(newRoomName) != [] ==>
        match InsertRoom(old(roomTable), old(newRoomName), user, now, insertFault)
        case Err(e) =>
          && (e.code == UniqueViolationCode || e.status == ConflictStatus ==> error == Some(DuplicateNameMessage))
          && (e.code != UniqueViolationCode && e.status != ConflictStatus ==> error == Some(e.message))
          && roomTable == old(roomTable) && memberTable == old(memberTable)
          && newRoomName == old(newRoomName) && currentRoom == old(currentRoom)
          && members == old(members) && memberChannels == old(memberChannels)
        case Ok(room) =>
          && roomTable == old(roomTable) + [room]
          && newRoomName == []
          && memberTable ==
            (if joinFails then old(memberTable) else UpsertMembership(old(memberTable), Membership(room.id, user)))
          && currentRoom == (if joinFails then old(currentRoom) else Some(room.id))
          && error == (if joinFails then Some(JoinFailedMessage) else None)
          && members == (if joinFails then old(members) else if readFails then [] else MembersOf(memberTable, room.id))
          && memberChannels == (if joinFails then old(memberChannels) else old(memberChannels) + {room.id})
    {
      if newRoomName == [] {
        return;
      }
      loading := true;
      error := None;
      var inserted := InsertRoom(roomTable, newRoomName, user, now, insertFault);
      match inserted {
        case Err(e) =>
          error := Some(CreateErrorMessage(e));
        case Ok(room) =>
          roomTable := roomTable + [room];
          newRoomName := [];
          assert roomTable[|roomTable| - 1] == room;
          JoinRoom(room.id, joinFails, readFails);
      }
      loading := false;
    }

    /** Whether an event row agrees with the `rooms` table: already there, or inserted with a free id and name. */
    predicate InsertedRoom(room: Room)
      reads this
    {
      room in roomTable || (!HasRoom(roomTable, room.id) && !HasRoomNamed(roomTable, room.name))
    }

    /**
     * The `public:rooms` channel delivering an inserted room: it goes in front, the rest keeps its
     * order. The row is in the store, so a room another client created is now in `roomTable` too
     * and can be joined.
     */
    method OnRoomInserted(room: Room)
      requires Valid() && InsertedRoom(room)
      modifies this`rooms, this`roomTable
      ensures Valid()
      ensures |rooms| == |old(rooms)| + 1 && rooms[0] == room && rooms[1..] == old(rooms)
      ensures roomTable == if room in old(roomTable) then old(roomTable) else old(roomTable) + [room]
      ensures JoinSucceeds(room.id, false)
    {
      rooms := [room] + rooms;
      if room !in roomTable {
        assert forall i :: 0 <= i < |roomTable| ==> roomTable[i].id != room.id && roomTable[i].name != room.name;
        roomTable := roomTable + [room];
        assert roomTable[|roomTable| - 1] == room;
      } else {
        var k :| 0 <= k < |roomTable| && roomTable[k] == room;
      }
    }

    /** Any event on the channel of a room joined earlier: the member query runs again. */
    method OnMembersChanged(roomId: RoomId, readFails: bool)
      requires Valid()
      requires roomId in memberChannels
      modifies this`members
      ensures Valid()
      ensures members == if readFails then [] else MembersOf(memberTable, roomId)
    {
      RefreshMembers(roomId, readFails);
    }

    /** The back and leave buttons: the room stops being current; its membership row and channel stay. */
    method Leave()
      modifies this`currentRoom
      ensures currentRoom == None
      ensures memberTable == old(memberTable) && memberChannels == old(memberChannels)
    {
      currentRoom := None;
    }
  }
}
