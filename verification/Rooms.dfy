/**
 Rooms in memory and the allocator of ephemeral rooms: internal/rooms/ephemeral.go with the parts of
 roommanager.go it relies on. Ids are issued in chunks; a chunk is freed as a whole.
 */
module Rooms {
  import opened Common

  datatype RoomExit = RoomExit(roomId: int, mapDirection: string)

  class Room {
    const roomId: int
    var exits: map<string, RoomExit>
    var players: seq<int>

    constructor (roomId: int, exits: map<string, RoomExit>)
      ensures this.roomId == roomId && this.exits == exits && players == []
    {
      this.roomId := roomId;
      this.exits, players := exits, [];
    }
  }

  datatype AllocError = NoRoomIdsProvided | InvalidRoomQuantity | EphemeralChunkLimit | EphemeralRoomLimit | NonUniqueRoomId | NothingCreated

  // ephemeralRoomIdMinimum on a 64-bit system
  const ROOM_ID_MINIMUM := 1_000_000_000

  const CHUNK_SIZE := 1000

  // The first id of a chunk; a chunk spans 1000 ids.
  function ChunkBase(c: int): int {
    ROOM_ID_MINIMUM + c * CHUNK_SIZE
  }

  predicate InChunk(id: int, c: int) {
    ChunkBase(c) <= id < ChunkBase(c + 1)
  }

  // math.Floor(float64(id-min) / 1000)
  function ChunkOf(id: int): int {
    (id - ROOM_ID_MINIMUM) / CHUNK_SIZE
  }

  // The division of TryEphemeralCleanup recovers the chunk of every id.
  lemma ChunkOfId(id: int, c: int)
    ensures ChunkOf(id) == c <==> InChunk(id, c)
    ensures InChunk(id, c) <==> 1_000_000_000 + 1000 * c <= id <= 1_000_000_999 + 1000 * c
  {
  }

  // The exits of a copied room: a target that was itself requested is replaced.
  function Renamed(exits: map<string, RoomExit>, replacements: map<int, int>): map<string, RoomExit> {
    map e | e in exits ::
      if exits[e].roomId in replacements then exits[e].(roomId := replacements[exits[e].roomId]) else exits[e]
  }

  // LoadRoomTemplate finds nothing for ephemeral ids, and room 0 is skipped.
  predicate Loadable(templates: map<int, map<string, RoomExit>>, id: int) {
    id != 0 && id < ROOM_ID_MINIMUM && id in templates
  }

  // Original to copy. A requested room whose template does not load is replaced by room 0.
  function Replacements(templates: map<int, map<string, RoomExit>>, roomIds: seq<int>, base: int): map<int, int>
  {
    if roomIds == [] then map[]
    else
      var n := |roomIds| - 1;
      Replacements(templates, roomIds[..n], base)[roomIds[n] := if Loadable(templates, roomIds[n]) then base + n else 0]
  }

  // The rooms copied, each with its copy: what CreateEphemeralRoomIds returns.
  function Copies(templates: map<int, map<string, RoomExit>>, roomIds: seq<int>, base: int): map<int, int> {
    var all := Replacements(templates, roomIds, base);
    map r | r in all && Loadable(templates, r) :: all[r]
  }

  lemma {:induction false} ReplacementAt(templates: map<int, map<string, RoomExit>>, roomIds: seq<int>, base: int)
    requires NoDuplicates(roomIds)
    ensures Replacements(templates, roomIds, base).Keys == set i | 0 <= i < |roomIds| :: roomIds[i]
    ensures forall i :: 0 <= i < |roomIds| ==>
      Replacements(templates, roomIds, base)[roomIds[i]] == if Loadable(templates, roomIds[i]) then base + i else 0
    decreases |roomIds|
  {
    if roomIds != [] {
      var n := |roomIds| - 1;
      ReplacementAt(templates, roomIds[..n], base);
    }
  }

  // Exactly the requested rooms that have a template are copied: not room 0, and no ephemeral room.
  lemma CopiedRooms(templates: map<int, map<string, RoomExit>>, roomIds: seq<int>, base: int)
    requires NoDuplicates(roomIds)
    ensures forall r :: r in Copies(templates, roomIds, base) <==> r in roomIds && r != 0 && r < 1_000_000_000 && r in templates
  {
    ReplacementAt(templates, roomIds, base);
  }

  // All ids in the chunks
  ghost predicate LiveIn(chunks: seq<seq<int>>, id: int) {
    0 <= ChunkOf(id) < |chunks| && id in chunks[ChunkOf(id)]
  }

  // id is the position of a loadable room, counted from the base.
  ghost predicate IdOf(templates: map<int, map<string, RoomExit>>, roomIds: seq<int>, base: int, id: int) {
    exists i :: 0 <= i < |roomIds| && Loadable(templates, roomIds[i]) && id == base + i
  }

  ghost predicate IdsOf(templates: map<int, map<string, RoomExit>>, roomIds: seq<int>, base: int, ids: seq<int>) {
    forall id :: id in ids <==> IdOf(templates, roomIds, base, id)
  }

  // The copies' ids are the positions of the loadable rooms, counted from the base.
  lemma CopyIds(templates: map<int, map<string, RoomExit>>, roomIds: seq<int>, base: int, ids: seq<int>)
    requires NoDuplicates(roomIds)
    requires IdsOf(templates, roomIds, base, ids)
    ensures forall id :: id in ids <==> id in Copies(templates, roomIds, base).Values
    ensures ids == [] <==> forall i :: 0 <= i < |roomIds| ==> !Loadable(templates, roomIds[i])
  {
    hide Loadable;
    ReplacementAt(templates, roomIds, base);
    var copies := Copies(templates, roomIds, base);
    forall id | id in ids
      ensures id in copies.Values
    {
      var i :| 0 <= i < |roomIds| && Loadable(templates, roomIds[i]) && id == base + i;
      assert roomIds[i] in copies && copies[roomIds[i]] == id;
    }
    forall id | id in copies.Values
      ensures id in ids
    {
      var r :| r in copies && copies[r] == id;
      var i :| 0 <= i < |roomIds| && roomIds[i] == r;
      assert IdOf(templates, roomIds, base, base + i);
    }
    forall i | 0 <= i < |roomIds| && Loadable(templates, roomIds[i])
      ensures base + i in ids
    {
      assert IdOf(templates, roomIds, base, base + i);
    }
    if ids != [] {
      assert ids[0] in ids;
    }
  }

  // m2 has every entry of m1.
  ghost predicate Keeps<T>(m1: map<int, T>, m2: map<int, T>) {
    forall id :: id in m1 ==> id in m2 && m2[id] == m1[id]
  }

  class RoomStore {
    var rooms: map<int, Room>            // roomManager.rooms
    var chunks: array<seq<int>>          // ephemeralRoomChunks; an empty slot is available
    var originalRoomIdLookups: map<int, int>

    ghost predicate Live(id: int)
      reads this`chunks, chunks
    {
      LiveIn(chunks[..], id)
    }

    ghost predicate Valid()
      reads this, chunks
    {
      && chunks.Length == 100
      && (forall c :: 0 <= c < 100 ==> NoDuplicates(chunks[c]) && forall id :: id in chunks[c] ==> InChunk(id, c))
      && (forall id :: id in originalRoomIdLookups <==> Live(id))
      && (forall id :: id in rooms ==> rooms[id].roomId == id)
      && (forall id :: id >= ROOM_ID_MINIMUM ==> (id in rooms <==> Live(id)))
    }

    constructor ()
      ensures Valid() && fresh(chunks) && rooms == map[] && forall id :: !Live(id)
    {
      rooms := map[];
      chunks := new seq<int>[100](_ => []);
      originalRoomIdLookups := map[];
    }

    // getNextAvailableChunk, with -1 for the error
    method GetNextAvailableChunk() returns (c: int)
      requires chunks.Length == 100
      ensures c == -1 ==> forall i :: 0 <= i < 100 ==> chunks[i] != []
      ensures c != -1 ==> 0 <= c < 100 && chunks[c] == [] && forall i :: 0 <= i < c ==> chunks[i] != []
    {
      for i := 0 to 100
        invariant forall j :: 0 <= j < i ==> chunks[j] != []
      {
        if |chunks[i]| == 0 {
          return i;
        }
      }
      return -1;
    }

    // addRoomToMemory keeps the room already stored under the id, if there is one.
    method AddRoomToMemory(room: Room)
      modifies this`rooms
      ensures rooms == if room.roomId in old(rooms) then old(rooms) else old(rooms)[room.roomId := room]
    {
      if room.roomId in rooms {
        return;
      }
      rooms := rooms[room.roomId := room];
    }

    // Valid, except that ids of the empty chunk c have been issued and not been recorded there yet.
    ghost predicate Pending(c: int, ids: seq<int>)
      reads this, chunks
    {
      && chunks.Length == 100 && 0 <= c < 100 && chunks[c] == []
      && NoDuplicates(ids) && (forall id :: id in ids ==> InChunk(id, c))
      && (forall d :: 0 <= d < 100 ==> NoDuplicates(chunks[d]) && forall id :: id in chunks[d] ==> InChunk(id, d))
      && (forall id :: id in originalRoomIdLookups <==> Live(id) || id in ids)
      && (forall id :: id in rooms ==> rooms[id].roomId == id)
      && (forall id :: id >= ROOM_ID_MINIMUM ==> (id in rooms <==> Live(id) || id in ids))
    }

    // No id of an empty chunk is in use.
    lemma EmptyChunkUnused(c: int, ids: seq<int>, id: int)
      requires Pending(c, ids) && InChunk(id, c) && id !in ids
      ensures !Live(id) && id !in rooms && id !in originalRoomIdLookups
    {
      ChunkOfId(id, c);
    }

    // Record a new room of chunk c with the room it was made from.
    method Issue(c: int, ghost ids: seq<int>, room: Room, original: int)
      requires Pending(c, ids) && InChunk(room.roomId, c) && room.roomId !in ids
      modifies this`rooms, this`originalRoomIdLookups
      ensures Pending(c, ids + [room.roomId])
      ensures room.roomId !in old(rooms) && rooms == old(rooms)[room.roomId := room]
      ensures room.roomId !in old(originalRoomIdLookups)
      ensures originalRoomIdLookups == old(originalRoomIdLookups)[room.roomId := original]
    {
      EmptyChunkUnused(c, ids, room.roomId);
      originalRoomIdLookups := originalRoomIdLookups[room.roomId := original];
      AddRoomToMemory(room);
    }

    method Commit(c: int, ids: seq<int>)
      requires Pending(c, ids)
      modifies chunks
      ensures Valid() && chunks[..] == old(chunks[..])[c := ids]
    {
      chunks[c] := ids;
      forall id
        ensures Live(id) <==> old(Live(id)) || id in ids
      {
        ChunkOfId(id, c);
        if id in ids {
          assert InChunk(id, c);
        }
      }
    }

    // Quantity ids of the first available chunk, each for a new empty room.
    method CreateEmptyEphemeralRooms(qty: int) returns (ids: seq<int>, err: Option<AllocError>, ghost c: int)
      requires Valid()
      modifies this`rooms, this`originalRoomIdLookups, chunks
      ensures Valid()
      ensures qty > 1000 ==> err == Some(EphemeralRoomLimit)
      ensures qty < 1 ==> err == Some(InvalidRoomQuantity)
      ensures 1 <= qty <= 1000 && (forall d :: 0 <= d < 100 ==> old(chunks[d]) != []) ==> err == Some(EphemeralChunkLimit)
      ensures 1 <= qty <= 1000 && (exists d :: 0 <= d < 100 && old(chunks[d]) == []) ==> err.None?
      ensures err.Some? ==> ids == [] && rooms == old(rooms) && originalRoomIdLookups == old(originalRoomIdLookups) && chunks[..] == old(chunks[..])
      ensures err.None? ==>
        && |ids| == qty && 0 <= c < 100 && old(chunks[c]) == [] && chunks[..] == old(chunks[..])[c := ids]
        && (forall k :: 0 <= k < qty ==> ids[k] == ChunkBase(c) + k)
        && (forall id :: id in ids ==> !old(Live(id)) && id !in old(rooms))
        && Keeps(old(rooms), rooms) && Keeps(old(originalRoomIdLookups), originalRoomIdLookups)
        && rooms.Keys == old(rooms).Keys + (set id | id in ids)
        && (forall id :: id in ids ==> id in rooms && fresh(rooms[id]) && rooms[id].exits == map[] && rooms[id].players == []
                                       && originalRoomIdLookups[id] == 0)
    {
      hide Live;
      ids, err, c := [], None, 0;
      if qty > 1000 {
        return [], Some(EphemeralRoomLimit), 0;
      }
      if qty < 1 {
        return [], Some(InvalidRoomQuantity), 0;
      }
      var chunkId := GetNextAvailableChunk();
      if chunkId == -1 {
        return [], Some(EphemeralChunkLimit), 0;
      }
      c := chunkId;
      NothingPending(chunkId);
      ids := CreateRooms(chunkId, qty);
      Commit(chunkId, ids);
    }

    // The loop of CreateEmptyEphemeralRooms
    method CreateRooms(chunkId: int, qty: int) returns (ids: seq<int>)
      requires Pending(chunkId, []) && 0 <= qty <= 1000
      modifies this`rooms, this`originalRoomIdLookups
      ensures Pending(chunkId, ids) && chunks[..] == old(chunks[..])
      ensures |ids| == qty && forall k :: 0 <= k < qty ==> ids[k] == ChunkBase(chunkId) + k
      ensures forall id :: id in ids ==> id !in old(rooms)
      ensures Keeps(old(rooms), rooms) && Keeps(old(originalRoomIdLookups), originalRoomIdLookups)
      ensures rooms.Keys == old(rooms).Keys + (set id | id in ids)
      ensures forall id :: id in ids ==> id in rooms && fresh(rooms[id]) && rooms[id].exits == map[] && rooms[id].players == []
      ensures forall id :: id in ids ==> id in originalRoomIdLookups && originalRoomIdLookups[id] == 0
    {
      hide Live, Pending;
      ids := [];
      for i := 0 to qty
        invariant Pending(chunkId, ids) && chunks[..] == old(chunks[..])
        invariant |ids| == i && forall k :: 0 <= k < i ==> ids[k] == ChunkBase(chunkId) + k
        invariant forall id :: id in ids ==> id !in old(rooms) && id !in old(originalRoomIdLookups)
        invariant Keeps(old(rooms), rooms) && Keeps(old(originalRoomIdLookups), originalRoomIdLookups)
        invariant rooms.Keys == old(rooms).Keys + (set id | id in ids)
        invariant forall id :: id in ids ==> id in rooms && fresh(rooms[id]) && rooms[id].exits == map[] && rooms[id].players == []
        invariant forall id :: id in ids ==> id in originalRoomIdLookups && originalRoomIdLookups[id] == 0
      {
        var room := new Room(ChunkBase(chunkId) + i, map[]);
        Issue(chunkId, ids, room, 0);
        ids := ids + [room.roomId];
      }
    }

    // Replace the targets of one room, exit by exit in any order.
    method RenameExits(room: Room, replacements: map<int, int>)
      modifies room`exits
      ensures room.exits == Renamed(old(room.exits), replacements)
    {
      var todo := room.exits.Keys;
      while todo != {}
        invariant room.exits.Keys == old(room.exits).Keys && todo <= room.exits.Keys
        invariant forall e :: e in room.exits ==>
          room.exits[e] == if e in todo then old(room.exits)[e] else Renamed(old(room.exits), replacements)[e]
        decreases todo
      {
        var exitName :| exitName in todo;
        todo := todo - {exitName};
        var exitInfo := room.exits[exitName];
        if exitInfo.roomId in replacements {
          room.exits := room.exits[exitName := exitInfo.(roomId := replacements[exitInfo.roomId])];
        }
      }
    }

    // ids are the copies issued so far, of the loadable rooms among the first n requested.
    ghost predicate Copied(templates: map<int, map<string, RoomExit>>, roomIds: seq<int>, base: int, n: int, ids: seq<int>)
      reads this, rooms.Values
    {
      && 0 <= n <= |roomIds|
      && (forall id :: id in ids <==> exists i :: 0 <= i < n && Loadable(templates, roomIds[i]) && id == base + i)
      && (forall i :: 0 <= i < n && Loadable(templates, roomIds[i]) ==>
            && base + i in rooms && rooms[base + i].roomId == base + i
            && rooms[base + i].exits == templates[roomIds[i]] && rooms[base + i].players == []
            && base + i in originalRoomIdLookups && originalRoomIdLookups[base + i] == roomIds[i])
    }

    method CheckUnique(roomIds: seq<int>) returns (unique: bool)
      ensures unique <==> NoDuplicates(roomIds)
    {
      var roomIdReplacements: map<int, int> := map[];
      for i := 0 to |roomIds|
        invariant NoDuplicates(roomIds[..i]) && roomIdReplacements.Keys == set k | 0 <= k < i :: roomIds[k]
      {
        if roomIds[i] in roomIdReplacements {
          return false;
        }
        roomIdReplacements := roomIdReplacements[roomIds[i] := 0];
      }
      assert roomIds[..|roomIds|] == roomIds;
      return true;
    }

    // The loop of CreateEphemeralRoomIds over the requested rooms.
    method CopyRooms(templates: map<int, map<string, RoomExit>>, roomIds: seq<int>, chunkId: int)
      returns (replacements: map<int, int>, ids: seq<int>)
      requires Pending(chunkId, []) && |roomIds| <= 1000
      modifies this`rooms, this`originalRoomIdLookups
      ensures Pending(chunkId, ids) && chunks[..] == old(chunks[..])
      ensures replacements == Replacements(templates, roomIds, ChunkBase(chunkId))
      ensures Copied(templates, roomIds, ChunkBase(chunkId), |roomIds|, ids)
      ensures forall id :: id in ids ==> id !in old(rooms) && id in rooms && fresh(rooms[id])
      ensures Keeps(old(rooms), rooms) && Keeps(old(originalRoomIdLookups), originalRoomIdLookups)
      ensures rooms.Keys == old(rooms).Keys + (set id | id in ids)
      ensures ids == [] ==> rooms == old(rooms) && originalRoomIdLookups == old(originalRoomIdLookups)
    {
      hide Live, Loadable, Copied, Pending;
      replacements, ids := map[], [];
      CopiedNone(templates, roomIds, ChunkBase(chunkId));
      var base := ChunkBase(chunkId);
      for i := 0 to |roomIds|
        invariant Pending(chunkId, ids) && chunks[..] == old(chunks[..])
        invariant replacements == Replacements(templates, roomIds[..i], base)
        invariant Copied(templates, roomIds, base, i, ids)
        invariant forall id :: id in ids ==> id !in old(rooms) && id in rooms && fresh(rooms[id])
        invariant Keeps(old(rooms), rooms) && Keeps(old(originalRoomIdLookups), originalRoomIdLookups)
        invariant rooms.Keys == old(rooms).Keys + (set id | id in ids)
        invariant ids == [] ==> rooms == old(rooms) && originalRoomIdLookups == old(originalRoomIdLookups)
      {
        var roomId := roomIds[i];
        assert roomIds[..i + 1][..i] == roomIds[..i];
        if !Loadable(templates, roomId) {
          CopiedSkip(templates, roomIds, base, i, ids);
          replacements := replacements[roomId := 0];
          continue;
        }
        CopyOne(templates, roomIds, chunkId, i, ids);
        replacements := replacements[roomId := base + i];
        ids := ids + [base + i];
      }
      assert roomIds[..|roomIds|] == roomIds;
    }

    lemma CopiedNone(templates: map<int, map<string, RoomExit>>, roomIds: seq<int>, base: int)
      ensures Copied(templates, roomIds, base, 0, [])
    {
    }

    lemma CopiedSkip(templates: map<int, map<string, RoomExit>>, roomIds: seq<int>, base: int, i: int, ids: seq<int>)
      requires Copied(templates, roomIds, base, i, ids) && i < |roomIds| && !Loadable(templates, roomIds[i])
      ensures Copied(templates, roomIds, base, i + 1, ids)
    {
    }

    lemma NotYetCopied(templates: map<int, map<string, RoomExit>>, roomIds: seq<int>, base: int, i: int, ids: seq<int>)
      requires Copied(templates, roomIds, base, i, ids)
      ensures base + i !in ids
    {
    }

    method CopyOne(templates: map<int, map<string, RoomExit>>, roomIds: seq<int>, chunkId: int, i: int, ghost ids: seq<int>)
      requires Pending(chunkId, ids) && 0 <= i < |roomIds| <= 1000
      requires Copied(templates, roomIds, ChunkBase(chunkId), i, ids) && Loadable(templates, roomIds[i])
      modifies this`rooms, this`originalRoomIdLookups
      ensures Pending(chunkId, ids + [ChunkBase(chunkId) + i])
      ensures Copied(templates, roomIds, ChunkBase(chunkId), i + 1, ids + [ChunkBase(chunkId) + i])
      ensures ChunkBase(chunkId) + i !in old(rooms) && rooms.Keys == old(rooms).Keys + {ChunkBase(chunkId) + i}
      ensures fresh(rooms[ChunkBase(chunkId) + i])
      ensures Keeps(old(rooms), rooms) && Keeps(old(originalRoomIdLookups), originalRoomIdLookups)
    {
      hide Pending, Live;
      NotYetCopied(templates, roomIds, ChunkBase(chunkId), i, ids);
      var room := new Room(ChunkBase(chunkId) + i, templates[roomIds[i]]);
      Issue(chunkId, ids, room, roomIds[i]);
    }

    // The copies of the loadable rooms; those in done have had their targets replaced.
    ghost predicate HalfRenamed(templates: map<int, map<string, RoomExit>>, roomIds: seq<int>, base: int, done: set<int>)
      reads this, rooms.Values
    {
      forall i :: 0 <= i < |roomIds| && Loadable(templates, roomIds[i]) ==>
        && base + i in rooms && rooms[base + i].roomId == base + i
        && (rooms[base + i].exits ==
            if base + i in done then Renamed(templates[roomIds[i]], Replacements(templates, roomIds, base)) else templates[roomIds[i]])
        && base + i in originalRoomIdLookups && originalRoomIdLookups[base + i] == roomIds[i]
    }

    // The copy of every loadable room has that room's exits, with the targets that were requested replaced.
    ghost predicate CopiedExits(templates: map<int, map<string, RoomExit>>, roomIds: seq<int>, base: int)
      reads this, rooms.Values
    {
      forall i :: 0 <= i < |roomIds| && Loadable(templates, roomIds[i]) ==>
        && base + i in rooms && rooms[base + i].roomId == base + i
        && rooms[base + i].exits == Renamed(templates[roomIds[i]], Replacements(templates, roomIds, base))
        && base + i in originalRoomIdLookups && originalRoomIdLookups[base + i] == roomIds[i]
    }

    // The body of the second loop of CreateEphemeralRoomIds.
    method RenameOne(room: Room, replacements: map<int, int>, ghost templates: map<int, map<string, RoomExit>>,
                     ghost roomIds: seq<int>, ghost base: int, ghost done: set<int>)
      requires HalfRenamed(templates, roomIds, base, done) && room.roomId !in done
      requires IdOf(templates, roomIds, base, room.roomId) && room.roomId in rooms && rooms[room.roomId] == room
      requires replacements == Replacements(templates, roomIds, base)
      modifies room`exits
      ensures HalfRenamed(templates, roomIds, base, done + {room.roomId})
    {
      hide Renamed, Replacements, Loadable;
      RenameExits(room, replacements);
    }

    method RenameAll(ids: seq<int>, replacements: map<int, int>, ghost templates: map<int, map<string, RoomExit>>,
                     ghost roomIds: seq<int>, ghost base: int)
      requires NoDuplicates(ids) && forall id :: id in ids ==> id in rooms && rooms[id].roomId == id
      requires HalfRenamed(templates, roomIds, base, {}) && IdsOf(templates, roomIds, base, ids)
      requires replacements == Replacements(templates, roomIds, base)
      modifies (set id | id in ids && id in rooms :: rooms[id])`exits
      ensures CopiedExits(templates, roomIds, base)
    {
      hide Renamed, Replacements, Loadable, HalfRenamed, IdOf, CopiedExits;
      ghost var done: set<int> := {};
      for k := 0 to |ids|
        invariant rooms == old(rooms) && HalfRenamed(templates, roomIds, base, done)
        invariant forall id :: id in done <==> id in ids[..k]
      {
        assert ids[..k + 1] == ids[..k] + [ids[k]];
        var id := ids[k];
        assert id in ids;
        assert id in rooms && rooms[id].roomId == id && id !in ids[..k];
        RenameOne(rooms[id], replacements, templates, roomIds, base, done);
        done := done + {id};
      }
      assert ids[..|ids|] == ids;
      AllRenamed(templates, roomIds, base, ids, done);
    }

    lemma AllRenamed(templates: map<int, map<string, RoomExit>>, roomIds: seq<int>, base: int, ids: seq<int>, done: set<int>)
      requires HalfRenamed(templates, roomIds, base, done) && IdsOf(templates, roomIds, base, ids)
      requires forall id :: id in ids ==> id in done
      ensures CopiedExits(templates, roomIds, base)
    {
      hide Renamed, Replacements, Loadable;
      forall i | 0 <= i < |roomIds| && Loadable(templates, roomIds[i])
        ensures base + i in done
      {
        assert IdOf(templates, roomIds, base, base + i);
      }
    }

    lemma CopiedIsHalf(templates: map<int, map<string, RoomExit>>, roomIds: seq<int>, base: int, ids: seq<int>)
      requires Copied(templates, roomIds, base, |roomIds|, ids)
      ensures HalfRenamed(templates, roomIds, base, {}) && IdsOf(templates, roomIds, base, ids)
    {
      hide Loadable, Renamed, Replacements;
    }

    method CopyAndRename(templates: map<int, map<string, RoomExit>>, roomIds: seq<int>, chunkId: int)
      returns (replacements: map<int, int>, ids: seq<int>)
      requires Pending(chunkId, []) && |roomIds| <= 1000
      modifies this`rooms, this`originalRoomIdLookups
      ensures Pending(chunkId, ids) && chunks[..] == old(chunks[..])
      ensures IdsOf(templates, roomIds, ChunkBase(chunkId), ids) && CopiedExits(templates, roomIds, ChunkBase(chunkId))
      ensures forall id :: id in ids ==> id !in old(rooms)
      ensures Keeps(old(rooms), rooms) && Keeps(old(originalRoomIdLookups), originalRoomIdLookups)
      ensures rooms.Keys == old(rooms).Keys + (set id | id in ids)
      ensures ids == [] ==> rooms == old(rooms) && originalRoomIdLookups == old(originalRoomIdLookups)
    {
      hide Live, Copied, CopiedExits, HalfRenamed, Renamed, Replacements, Pending, Loadable, IdsOf;
      replacements, ids := CopyRooms(templates, roomIds, chunkId);
      IssuedIds(chunkId, ids);
      CopiedIsHalf(templates, roomIds, ChunkBase(chunkId), ids);
      RenameAll(ids, replacements, templates, roomIds, ChunkBase(chunkId));
    }

    method CreateEphemeralRoomIds(templates: map<int, map<string, RoomExit>>, roomIds: seq<int>)
      returns (copies: map<int, int>, err: Option<AllocError>, ghost c: int)
      requires Valid()
      modifies this`rooms, this`originalRoomIdLookups, chunks
      ensures Valid()
      ensures roomIds == [] ==> err == Some(NoRoomIdsProvided)
      ensures |roomIds| > 1000 ==> err == Some(EphemeralRoomLimit)
      ensures 1 <= |roomIds| <= 1000 ==>
        if !NoDuplicates(roomIds) then err == Some(NonUniqueRoomId)
        else if forall d :: 0 <= d < 100 ==> old(chunks[d]) != [] then err == Some(EphemeralChunkLimit)
        else if forall i :: 0 <= i < |roomIds| ==> !Loadable(templates, roomIds[i]) then err == Some(NothingCreated)
        else err.None?
      ensures err.Some? ==>
        copies == map[] && chunks[..] == old(chunks[..]) && rooms == old(rooms) && originalRoomIdLookups == old(originalRoomIdLookups)
      ensures err.None? ==>
        && 0 <= c < 100 && old(chunks[c]) == [] && (forall d :: 0 <= d < c ==> old(chunks[d]) != [])
        && (forall r :: r in copies <==> r in roomIds && r != 0 && r < 1_000_000_000 && r in templates)
        && copies == Copies(templates, roomIds, ChunkBase(c))
        && CopiedExits(templates, roomIds, ChunkBase(c))
        && (forall id :: id in chunks[c] <==> id in copies.Values)
        && (forall d :: 0 <= d < 100 && d != c ==> chunks[d] == old(chunks[d]))
        && (forall id :: id in copies.Values ==> id !in old(rooms) && !old(Live(id)))
        && Keeps(old(rooms), rooms) && Keeps(old(originalRoomIdLookups), originalRoomIdLookups)
        && rooms.Keys == old(rooms).Keys + copies.Values
    {
      hide Live, CopiedExits, Pending, Loadable, Copies, LiveIn;
      c := 0;
      if |roomIds| == 0 {
        return map[], Some(NoRoomIdsProvided), c;
      }
      if |roomIds| > 1000 {
        return map[], Some(EphemeralRoomLimit), c;
      }
      var unique := CheckUnique(roomIds);
      if !unique {
        return map[], Some(NonUniqueRoomId), c;
      }
      var chunkId := GetNextAvailableChunk();
      if chunkId == -1 {
        return map[], Some(EphemeralChunkLimit), c;
      }
      c := chunkId;
      NothingPending(chunkId);
      var replacements, ids := CopyAndRename(templates, roomIds, chunkId);
      Commit(chunkId, ids);
      CopyIds(templates, roomIds, ChunkBase(chunkId), ids);
      if |ids| == 0 {
        // the source indexes the empty list of new ids when it logs
        return map[], Some(NothingCreated), c;
      }
      copies := Copies(templates, roomIds, ChunkBase(chunkId));
      CopiedRooms(templates, roomIds, ChunkBase(chunkId));
      return copies, None, c;
    }

    lemma IssuedIds(c: int, ids: seq<int>)
      requires Pending(c, ids)
      ensures NoDuplicates(ids)
      ensures forall id :: id in ids ==> id in rooms && rooms[id].roomId == id
    {
      forall id | id in ids
        ensures id in rooms
      {
        assert InChunk(id, c);
      }
    }

    lemma NothingPending(c: int)
      requires Valid() && 0 <= c < 100 && chunks[c] == []
      ensures Pending(c, [])
    {
    }

    // removeRoomFromMemory leaves a room with players alone.
    method RemoveRoomFromMemory(room: Room)
      modifies this`rooms
      ensures rooms == if room.roomId in old(rooms) && |old(rooms)[room.roomId].players| == 0 then old(rooms) - {room.roomId} else old(rooms)
    {
      if room.roomId !in rooms || |rooms[room.roomId].players| > 0 {
        return;
      }
      rooms := rooms - {room.roomId};
    }

    ghost predicate Occupied(c: int)
      requires 0 <= c < chunks.Length
      reads this`rooms, this`chunks, chunks, rooms.Values
    {
      exists id :: id in chunks[c] && id in rooms && |rooms[id].players| > 0
    }

    method AnyPlayers(c: int) returns (occupied: bool)
      requires 0 <= c < chunks.Length
      ensures occupied <==> Occupied(c)
    {
      for k := 0 to |chunks[c]|
        invariant forall j :: 0 <= j < k ==> chunks[c][j] in rooms ==> |rooms[chunks[c][j]].players| == 0
      {
        var id := chunks[c][k];
        if id !in rooms {
          continue;
        }
        if |rooms[id].players| > 0 {
          assert id in chunks[c];
          return true;
        }
      }
      return false;
    }

    // Frees the whole chunk the id belongs to, or nothing while a player is in any of its rooms.
    method TryEphemeralCleanup(ephemeralRoomId: int) returns (deleted: seq<int>)
      requires Valid() && 0 <= ChunkOf(ephemeralRoomId) < 100
      modifies this`rooms, this`originalRoomIdLookups, chunks
      ensures Valid()
      ensures old(exists id :: id in chunks[ChunkOf(ephemeralRoomId)] && id in rooms && rooms[id].players != []) ==>
        deleted == [] && rooms == old(rooms) && originalRoomIdLookups == old(originalRoomIdLookups) && chunks[..] == old(chunks[..])
      ensures !old(exists id :: id in chunks[ChunkOf(ephemeralRoomId)] && id in rooms && rooms[id].players != []) ==>
        && deleted == old(chunks[ChunkOf(ephemeralRoomId)])
        && chunks[..] == old(chunks[..])[ChunkOf(ephemeralRoomId) := []]
        && rooms == old(rooms) - (set id | id in deleted)
        && originalRoomIdLookups == old(originalRoomIdLookups) - (set id | id in deleted)
    {
      var c := ChunkOf(ephemeralRoomId);
      var occupied := AnyPlayers(c);
      if occupied {
        return [];
      }
      deleted := chunks[c];
      DeleteAll(c);
      ghost var before := chunks[..];
      chunks[c] := [];
      forall id
        ensures Live(id) <==> LiveIn(before, id) && id !in deleted
      {
        ChunkOfId(id, c);
      }
    }

    // The second loop of TryEphemeralCleanup.
    method DeleteAll(c: int)
      requires 0 <= c < chunks.Length && !Occupied(c)
      requires forall id :: id in chunks[c] ==> id in rooms && rooms[id].roomId == id
      requires NoDuplicates(chunks[c])
      modifies this`rooms, this`originalRoomIdLookups
      ensures rooms == old(rooms) - set id | id in chunks[c]
      ensures originalRoomIdLookups == old(originalRoomIdLookups) - set id | id in chunks[c]
    {
      var ids := chunks[c];
      for k := 0 to |ids|
        invariant rooms == old(rooms) - set id | id in ids[..k]
        invariant originalRoomIdLookups == old(originalRoomIdLookups) - set id | id in ids[..k]
      {
        var id := ids[k];
        assert id in ids;
        assert ids[..k + 1] == ids[..k] + [id];
        assert id !in ids[..k];
        assert forall x :: x in ids[..k + 1] <==> x in ids[..k] || x == id;
        var room := rooms[id];
        originalRoomIdLookups := originalRoomIdLookups - {room.roomId};
        RemoveRoomFromMemory(room);
      }
      assert ids[..|ids|] == ids;
    }

    method GetOriginalRoom(roomId: int) returns (original: int)
      requires Valid()
      ensures roomId < ROOM_ID_MINIMUM ==> original == roomId
      ensures roomId >= ROOM_ID_MINIMUM ==>
        original == if Live(roomId) then originalRoomIdLookups[roomId] else 0
    {
      if roomId < ROOM_ID_MINIMUM {
        return roomId;
      }
      return if roomId in originalRoomIdLookups then originalRoomIdLookups[roomId] else 0;
    }
  }

  // Where a copied exit leads: to the copy of its target if that was requested and loads, to room 0 if
  // it was requested and does not load, and otherwise to where it always led.
  lemma CopiedTarget(templates: map<int, map<string, RoomExit>>, roomIds: seq<int>, base: int, i: nat, e: string)
    requires NoDuplicates(roomIds) && i < |roomIds| && Loadable(templates, roomIds[i]) && e in templates[roomIds[i]]
    ensures var x := templates[roomIds[i]][e];
            var y := Renamed(templates[roomIds[i]], Replacements(templates, roomIds, base))[e];
            && y.mapDirection == x.mapDirection
            && (x.roomId !in roomIds ==> y == x)
            && (forall j :: 0 <= j < |roomIds| && roomIds[j] == x.roomId ==> y.roomId == if Loadable(templates, x.roomId) then base + j else 0)
  {
    hide Loadable;
    ReplacementAt(templates, roomIds, base);
  }

  // The copies are an image of the loadable originals - an exit of a copy leads to another copy exactly
  // when the original exit leads to its original - if and only if no original exit that leads out of the
  // rooms requested leads to the id of a copy.
  lemma CopiesMirrorOriginals(templates: map<int, map<string, RoomExit>>, roomIds: seq<int>, base: int)
    requires NoDuplicates(roomIds) && base > 0
    ensures (forall i, j, e :: CopiedExit(templates, roomIds, i, e) && 0 <= j < |roomIds| && Loadable(templates, roomIds[j]) ==>
               (Renamed(templates[roomIds[i]], Replacements(templates, roomIds, base))[e].roomId == base + j <==>
                templates[roomIds[i]][e].roomId == roomIds[j]))
        <==>
            (forall i, j, e :: CopiedExit(templates, roomIds, i, e) && 0 <= j < |roomIds| && Loadable(templates, roomIds[j]) &&
                               templates[roomIds[i]][e].roomId !in roomIds ==>
               templates[roomIds[i]][e].roomId != base + j)
  {
    hide Replacements;
    forall i, j, e | CopiedExit(templates, roomIds, i, e) && 0 <= j < |roomIds| && Loadable(templates, roomIds[j])
      ensures (Renamed(templates[roomIds[i]], Replacements(templates, roomIds, base))[e].roomId == base + j <==>
               templates[roomIds[i]][e].roomId == roomIds[j]) <==>
              (templates[roomIds[i]][e].roomId !in roomIds ==> templates[roomIds[i]][e].roomId != base + j)
    {
      CopiedTarget(templates, roomIds, base, i, e);
    }
  }

  ghost predicate CopiedExit(templates: map<int, map<string, RoomExit>>, roomIds: seq<int>, i: int, e: string) {
    0 <= i < |roomIds| && Loadable(templates, roomIds[i]) && e in templates[roomIds[i]]
  }

  // Exits to a room that was requested and does not load lead to room 0 in the copy, so every exit within
  // the rooms requested is mirrored if and only if the rooms led to load.
  lemma RequestedMirrored(templates: map<int, map<string, RoomExit>>, roomIds: seq<int>, base: int)
    requires NoDuplicates(roomIds) && base > 0
    ensures (forall i, j, e :: CopiedExit(templates, roomIds, i, e) && 0 <= j < |roomIds| && templates[roomIds[i]][e].roomId == roomIds[j] ==>
               Renamed(templates[roomIds[i]], Replacements(templates, roomIds, base))[e].roomId == base + j)
        <==>
            (forall i, j, e :: CopiedExit(templates, roomIds, i, e) && 0 <= j < |roomIds| && templates[roomIds[i]][e].roomId == roomIds[j] ==>
               Loadable(templates, roomIds[j]))
  {
    hide Replacements;
    forall i, j, e | CopiedExit(templates, roomIds, i, e) && 0 <= j < |roomIds| && templates[roomIds[i]][e].roomId == roomIds[j]
      ensures Renamed(templates[roomIds[i]], Replacements(templates, roomIds, base))[e].roomId == base + j <==> Loadable(templates, roomIds[j])
    {
      CopiedTarget(templates, roomIds, base, i, e);
    }
  }

  // No loadable room is requested.
  method NothingLoads() returns (err: Option<AllocError>)
    ensures err == Some(NothingCreated)
  {
    var store := new RoomStore();
    var copies;
    ghost var c;
    assert store.chunks[0] == [] by {
      if store.chunks[0] != [] {
        var id := store.chunks[0][0];
        assert id in store.chunks[0];
        ChunkOfId(id, 0);
        assert store.Live(id);
      }
    }
    copies, err, c := store.CreateEphemeralRoomIds(map[], [1]);
  }
}
