/** The repository: transactions over the tables, batch loading of child rows, the filtered
    listing and availability. */
module RoomRepo {
  import opened Models
  import opened Tables
  import opened Database
  import Q = QueryBuilder

  datatype RepoError = RecordNotFound | DatabaseError

  /** A room with its own child rows attached. */
  ghost function Hydrated(t: Tables, row: RoomRow): Room {
    Room(row, ChildrenOf(t.highlighted, row.id), ChildrenOf(t.categories, row.id))
  }

  /** Reading a Go map: a missing key gives the empty slice. */
  function Lookup<T>(m: map<Id, seq<T>>, id: Id): seq<T> {
    if id in m then m[id] else []
  }

  function RowsOfRooms(rooms: seq<Room>): (rows: seq<RoomRow>)
    ensures |rows| == |rooms| && forall i :: 0 <= i < |rooms| ==> rows[i] == rooms[i].row
  {
    seq(|rooms|, i requires 0 <= i < |rooms| => rooms[i].row)
  }

  lemma RankedByColumns(rooms: seq<Room>, t: RoomTable, f: Filter)
    requires Q.IsFilterPage(RowsOfRooms(rooms), t, f)
    ensures forall i, j :: 0 <= i < j < |rooms| ==>
      rooms[i].row.coef > rooms[j].row.coef ||
      (rooms[i].row.coef == rooms[j].row.coef && rooms[i].row.price <= rooms[j].row.price)
  {
    forall i, j | 0 <= i < j < |rooms|
      ensures rooms[i].row.coef > rooms[j].row.coef ||
              (rooms[i].row.coef == rooms[j].row.coef && rooms[i].row.price <= rooms[j].row.price)
    {
      Q.PageIsRanked(RowsOfRooms(rooms), t, f, i, j);
    }
  }

  class RoomRepo {
    const db: Database

    constructor (db: Database)
      ensures this.db == db
    {
      this.db := db;
    }

    // ---- Rooms ----

    /** Inserts all the rooms or none. */
    method CreateRooms(rooms: seq<Room>) returns (err: Option<RepoError>)
      requires db.Valid() && db.saved == None
      modifies db
      ensures db.Valid() && db.saved == None
      ensures err.None? ==> AllNew(old(db.tables).rooms, rooms)
      ensures err.None? ==> db.tables == PutRooms(old(db.tables), rooms)
      ensures err.None? ==> forall i :: 0 <= i < |rooms| ==>
        var row := rooms[i].row;
        row.id in db.tables.rooms &&
        db.tables.rooms[row.id] == row.(price := Decimal2(row.price), coef := Decimal4(row.coef))
      ensures err.Some? ==> db.tables == old(db.tables)
      ensures db.faults >= old(db.faults) && db.refusals >= old(db.refusals)
      ensures err.None? <==> db.faults == old(db.faults) && db.refusals == old(db.refusals)
      ensures AllNew(old(db.tables).rooms, rooms) ==> db.refusals == old(db.refusals)
    {
      var ok := db.Begin();
      if !ok {
        return Some(DatabaseError);
      }
      ghost var t := db.tables.rooms;
      ok := InsertAll(rooms);
      if ok {
        InsertedRows(t, rooms);
        ok := db.Commit();
      }
      db.Rollback();
      return if ok then None else Some(DatabaseError);
    }

    /** The insertions inside the transaction of `CreateRooms`; stops at the first failure. */
    method InsertAll(rooms: seq<Room>) returns (ok: bool)
      requires db.Valid()
      modifies db`tables, db`faults, db`refusals
      ensures db.Valid()
      ensures ok ==> AllNew(old(db.tables).rooms, rooms) && db.tables == PutRooms(old(db.tables), rooms)
      ensures db.faults >= old(db.faults) && db.refusals >= old(db.refusals)
      ensures ok <==> db.faults == old(db.faults) && db.refusals == old(db.refusals)
      ensures AllNew(old(db.tables).rooms, rooms) ==> db.refusals == old(db.refusals)
    {
      ghost var before := db.tables;
      for i := 0 to |rooms|
        invariant db.Valid()
        invariant AllNew(before.rooms, rooms[..i]) && db.tables == PutRooms(before, rooms[..i])
        invariant db.faults == old(db.faults) && db.refusals == old(db.refusals)
      {
        NextRoomIsNew(before.rooms, rooms, i);
        assert rooms[..i + 1][..i] == rooms[..i];
        var res := db.InsertRoom(rooms[i].row);
        if !res.Affected? {
          return false;
        }
      }
      assert rooms[..|rooms|] == rooms;
      return true;
    }

    method GetRoomByID(id: Id) returns (res: Result<Room, RepoError>)
      requires db.Valid()
      modifies db`faults
      ensures res.Ok? ==> id in db.tables.rooms && res.value == Hydrated(db.tables, db.tables.rooms[id])
      ensures db.refusals == old(db.refusals) && db.faults >= old(db.faults)
      ensures res.Ok? <==> id in db.tables.rooms && db.faults == old(db.faults)
      ensures res == Err(RecordNotFound) <==> id !in db.tables.rooms && db.faults == old(db.faults)
    {
      var found := db.QueryRoom(id);
      if found.QueryFault? {
        return Err(DatabaseError);
      }
      if found.value.None? {
        return Err(RecordNotFound);
      }
      var row := found.value.value;
      var amenities := GetHighlightedAmenitiesByRooms([id]);
      if amenities.Err? {
        return Err(amenities.error);
      }
      var categories := GetAmenityCategoriesByRooms([id]);
      if categories.Err? {
        return Err(categories.error);
      }
      return Ok(Room(row, Lookup(amenities.value, id), Lookup(categories.value, id)));
    }

    method UpdateRoom(room: Room) returns (err: Option<RepoError>)
      requires db.Valid()
      modifies db`tables, db`faults
      ensures db.Valid()
      ensures err.None? ==>
        && room.row.id in old(db.tables).rooms && old(db.tables).rooms[room.row.id].hotelId == room.row.hotelId
        && exists now: Time :: db.tables == PutRow(old(db.tables), room.row, now)
      ensures err.Some? ==> db.tables == old(db.tables)
      ensures db.refusals == old(db.refusals) && db.faults >= old(db.faults)
      ensures err.None? <==>
        (db.faults == old(db.faults)
        && room.row.id in old(db.tables).rooms && old(db.tables).rooms[room.row.id].hotelId == room.row.hotelId)
      ensures err == Some(RecordNotFound) <==>
        (db.faults == old(db.faults)
        && !(room.row.id in old(db.tables).rooms && old(db.tables).rooms[room.row.id].hotelId == room.row.hotelId))
    {
      var now := Now();
      var res := db.UpdateRoomRow(room.row, now);
      if res.Fault? {
        return Some(DatabaseError);
      }
      if res.rows == 0 {
        return Some(RecordNotFound);
      }
      return None;
    }

    method DeleteRoom(id: Id) returns (err: Option<RepoError>)
      requires db.Valid()
      modifies db`tables, db`faults
      ensures db.Valid()
      ensures err.None? ==> id in old(db.tables).rooms && db.tables == WithoutRoom(old(db.tables), id)
      ensures err.None? ==> db.tables.rooms == old(db.tables).rooms - {id}
      ensures err.None? ==>
        && db.tables.highlighted == (map k | k in old(db.tables).highlighted && old(db.tables).highlighted[k].roomId != id
                                       :: old(db.tables).highlighted[k])
        && db.tables.categories == (map k | k in old(db.tables).categories && old(db.tables).categories[k].roomId != id
                                      :: old(db.tables).categories[k])
      ensures err.Some? ==> db.tables == old(db.tables)
      ensures db.refusals == old(db.refusals) && db.faults >= old(db.faults)
      ensures err.None? <==> id in old(db.tables).rooms && db.faults == old(db.faults)
      ensures err == Some(RecordNotFound) <==> id !in old(db.tables).rooms && db.faults == old(db.faults)
    {
      var res := db.DeleteRoomRow(id);
      if res.Fault? {
        return Some(DatabaseError);
      }
      if res.rows == 0 {
        return Some(RecordNotFound);
      }
      return None;
    }

    // ---- Listings ----

    /** One page of the rooms the filter asks for, ranked, each with its own child rows; the
        reported total is the length of the page. */
    method GetRoomsByFilters(filter: Filter) returns (res: Result<(seq<Room>, nat), RepoError>)
      requires db.Valid()
      modifies db`faults
      ensures res.Ok? ==>
        var (rooms, total) := res.value;
        && Q.IsFilterPage(RowsOfRooms(rooms), db.tables.rooms, filter)
        && (forall i :: 0 <= i < |rooms| ==> rooms[i] == Hydrated(db.tables, rooms[i].row))
        && total == |rooms|
        && forall i, j :: 0 <= i < j < |rooms| ==>
             rooms[i].row.coef > rooms[j].row.coef ||
             (rooms[i].row.coef == rooms[j].row.coef && rooms[i].row.price <= rooms[j].row.price)
      ensures db.refusals == old(db.refusals) && db.faults >= old(db.faults)
      ensures res.Ok? <==> db.faults == old(db.faults)
    {
      var query, args := Q.BuildQuery(filter);
      var found := db.QueryRooms(query, args);
      if found.QueryFault? {
        return Err(DatabaseError);
      }
      var rows := found.value;
      Q.ExpressedMeaning(query, args, filter, db.tables.rooms, rows);
      var rooms := new Room[|rows|](i requires 0 <= i < |rows| => Room(rows[i], [], []));
      var err := Hydrate(rooms);
      if err.Some? {
        return Err(err.value);
      }
      assert RowsOfRooms(rooms[..]) == rows;
      RankedByColumns(rooms[..], db.tables.rooms, filter);
      return Ok((rooms[..], rooms.Length));
    }

    /** Attaches to each room what loading that room alone would attach. */
    method Hydrate(rooms: array<Room>) returns (err: Option<RepoError>)
      requires db.Valid()
      modifies rooms, db`faults
      ensures err.None? ==> forall i :: 0 <= i < rooms.Length ==> rooms[i] == Hydrated(db.tables, old(rooms[i]).row)
      ensures err.Some? ==> rooms[..] == old(rooms[..])
      ensures db.refusals == old(db.refusals) && db.faults >= old(db.faults)
      ensures err.None? <==> db.faults == old(db.faults)
    {
      if rooms.Length == 0 {
        return None;
      }
      var ids := RoomIds(rooms[..]);
      var amenities := GetHighlightedAmenitiesByRooms(ids);
      if amenities.Err? {
        return Some(amenities.error);
      }
      var categories := GetAmenityCategoriesByRooms(ids);
      if categories.Err? {
        return Some(categories.error);
      }
      assert forall i :: 0 <= i < rooms.Length ==> ids[i] == rooms[i].row.id;
      Attach(rooms, db.tables, amenities.value, categories.value);
      return None;
    }

    /** Gives each room of the slice what the maps hold under its id. */
    method Attach(rooms: array<Room>, ghost t: Tables, amenities: map<Id, seq<HighlightedAmenity>>,
                  categories: map<Id, seq<AmenityCategory>>)
      requires forall i :: 0 <= i < rooms.Length ==>
        Lookup(amenities, rooms[i].row.id) == ChildrenOf(t.highlighted, rooms[i].row.id)
      requires forall i :: 0 <= i < rooms.Length ==>
        Lookup(categories, rooms[i].row.id) == ChildrenOf(t.categories, rooms[i].row.id)
      modifies rooms
      ensures forall i :: 0 <= i < rooms.Length ==> rooms[i] == Hydrated(t, old(rooms[i]).row)
    {
      for i := 0 to rooms.Length
        invariant forall j :: 0 <= j < i ==> rooms[j] == Hydrated(t, old(rooms[j]).row)
        invariant forall j :: i <= j < rooms.Length ==> rooms[j] == old(rooms[j])
      {
        var id := rooms[i].row.id;
        rooms[i] := Room(rooms[i].row, Lookup(amenities, id), Lookup(categories, id));
      }
    }

    // ---- Availability and quantity ----

    method CheckAvailabilityByType(hotelId: string, roomType: string, name: string) returns (res: Result<nat, RepoError>)
      requires db.Valid()
      modifies db`faults
      ensures res.Ok? ==>
        res.value == |set k | k in db.tables.rooms && db.tables.rooms[k].hotelId == hotelId
                                && db.tables.rooms[k].roomType == roomType && db.tables.rooms[k].name == name|
      ensures db.refusals == old(db.refusals) && db.faults >= old(db.faults)
      ensures res.Ok? <==> db.faults == old(db.faults)
    {
      var count := db.QueryCount(hotelId, roomType, name);
      if count.QueryFault? {
        return Err(DatabaseError);
      }
      assert (set k | k in db.tables.rooms && db.tables.rooms[k].hotelId == hotelId
                && db.tables.rooms[k].roomType == roomType && db.tables.rooms[k].name == name)
        == set k | k in db.tables.rooms && HasKey(db.tables.rooms[k], hotelId, roomType, name);
      return Ok(count.value);
    }

    method UpdateRoomQuantity(hotelId: string, roomType: string, name: string, quantity: int) returns (err: Option<RepoError>)
      requires db.Valid()
      modifies db`tables, db`faults
      ensures db.Valid()
      ensures err.None? ==> exists now: Time :: 
        db.tables == PutQuantities(old(db.tables), hotelId, roomType, name, quantity, now)
      ensures err.None? ==> db.tables.rooms.Keys == old(db.tables).rooms.Keys
      ensures err.None? ==> forall k :: k in db.tables.rooms ==>
        var row, was := db.tables.rooms[k], old(db.tables).rooms[k];
        row == if was.hotelId == hotelId && was.roomType == roomType && was.name == name
               then was.(quantity := quantity, updatedAt := row.updatedAt) else was
      ensures err.Some? ==> db.tables == old(db.tables)
      ensures db.refusals == old(db.refusals) && db.faults >= old(db.faults)
      ensures err.None? <==> db.faults == old(db.faults)
    {
      var now := Now();
      var res := db.UpdateQuantities(hotelId, roomType, name, quantity, now);
      if res.Fault? {
        return Some(DatabaseError);
      }
      return None;
    }

    // ---- Highlighted amenities ----

    /** Replaces a room's highlighted amenities as a whole, or leaves the table untouched. */
    method UpsertHighlightedAmenities(roomId: Id, amenities: seq<HighlightedAmenity>) returns (err: Option<RepoError>)
      requires db.Valid() && db.saved == None
      modifies db
      ensures db.Valid() && db.saved == None
      ensures err.None? ==> Insertable(old(db.tables).highlighted, db.tables.rooms, roomId, amenities)
      ensures err.None? ==>
        db.tables == PutHighlights(old(db.tables), roomId, amenities)
      ensures err.Some? ==> db.tables == old(db.tables)
      ensures db.faults >= old(db.faults) && db.refusals >= old(db.refusals)
      ensures err.None? <==> db.faults == old(db.faults) && db.refusals == old(db.refusals)
      ensures Insertable(old(db.tables).highlighted, old(db.tables).rooms, roomId, amenities) ==>
        db.refusals == old(db.refusals)
    {
      var ok := db.Begin();
      if !ok {
        return Some(DatabaseError);
      }
      ghost var before := db.tables;
      var res := db.DeleteHighlightedOf(roomId);
      if !res.Affected? {
        db.Rollback();
        return Some(DatabaseError);
      }
      for i := 0 to |amenities|
        invariant db.Valid() && db.saved == Some(before)
        invariant Insertable(before.highlighted, before.rooms, roomId, amenities[..i])
        invariant db.tables == PutHighlights(before, roomId, amenities[..i])
        invariant db.faults == old(db.faults) && db.refusals == old(db.refusals)
      {
        NextInsertion(before.highlighted, before.rooms, roomId, amenities, i);
        assert amenities[..i + 1][..i] == amenities[..i];
        res := db.InsertHighlighted(amenities[i].(roomId := roomId));
        if !res.Affected? {
          db.Rollback();
          return Some(DatabaseError);
        }
      }
      assert amenities[..|amenities|] == amenities;
      ok := db.Commit();
      db.Rollback();
      if !ok {
        return Some(DatabaseError);
      }
      return None;
    }

    /** Loads the highlighted amenities of many rooms in one scan: each room asked for, however
        often, gets exactly its own rows in id order. */
    method GetHighlightedAmenitiesByRooms(roomIds: seq<Id>) returns (res: Result<map<Id, seq<HighlightedAmenity>>, RepoError>)
      modifies db`faults
      ensures res.Ok? ==> forall id ::
        Lookup(res.value, id) == if id in roomIds then ChildrenOf(db.tables.highlighted, id) else []
      ensures res.Err? ==> res.error == DatabaseError
      ensures db.refusals == old(db.refusals) && db.faults >= old(db.faults)
      ensures res.Ok? <==> db.faults == old(db.faults)
    {
      if |roomIds| == 0 {
        return Ok(map[]);
      }
      var found := db.QueryHighlighted(roomIds);
      if found.QueryFault? {
        return Err(DatabaseError);
      }
      var rows := found.value;
      var result: map<Id, seq<HighlightedAmenity>> := map[];
      for i := 0 to |rows|
        invariant forall id :: Lookup(result, id) == RowsOf(rows[..i], id)
      {
        assert rows[..i + 1][..i] == rows[..i];
        var a := rows[i];
        result := result[a.roomId := Lookup(result, a.roomId) + [a]];
      }
      assert rows[..|rows|] == rows;
      forall id ensures Lookup(result, id) == if id in roomIds then ChildrenOf(db.tables.highlighted, id) else [] {
        ScanSplitsByRoom(rows, db.tables.highlighted, (set k | k in roomIds), id);
      }
      return Ok(result);
    }

    // ---- Amenity categories ----

    /** Replaces a room's amenity categories as a whole, or leaves the table untouched. */
    method UpsertAmenityCategories(roomId: Id, categories: seq<AmenityCategory>) returns (err: Option<RepoError>)
      requires db.Valid() && db.saved == None
      modifies db
      ensures db.Valid() && db.saved == None
      ensures err.None? ==> Insertable(old(db.tables).categories, db.tables.rooms, roomId, categories)
      ensures err.None? ==>
        db.tables == PutCategories(old(db.tables), roomId, categories)
      ensures err.Some? ==> db.tables == old(db.tables)
      ensures db.faults >= old(db.faults) && db.refusals >= old(db.refusals)
      ensures err.None? <==> db.faults == old(db.faults) && db.refusals == old(db.refusals)
      ensures Insertable(old(db.tables).categories, old(db.tables).rooms, roomId, categories) ==>
        db.refusals == old(db.refusals)
    {
      var ok := db.Begin();
      if !ok {
        return Some(DatabaseError);
      }
      ghost var before := db.tables;
      var res := db.DeleteCategoriesOf(roomId);
      if !res.Affected? {
        db.Rollback();
        return Some(DatabaseError);
      }
      for i := 0 to |categories|
        invariant db.Valid() && db.saved == Some(before)
        invariant Insertable(before.categories, before.rooms, roomId, categories[..i])
        invariant db.tables == PutCategories(before, roomId, categories[..i])
        invariant db.faults == old(db.faults) && db.refusals == old(db.refusals)
      {
        NextInsertion(before.categories, before.rooms, roomId, categories, i);
        assert categories[..i + 1][..i] == categories[..i];
        res := db.InsertCategory(categories[i].(roomId := roomId));
        if !res.Affected? {
          db.Rollback();
          return Some(DatabaseError);
        }
      }
      assert categories[..|categories|] == categories;
      ok := db.Commit();
      db.Rollback();
      if !ok {
        return Some(DatabaseError);
      }
      return None;
    }

    /** Loads the amenity categories of many rooms in one scan, like the highlighted ones. */
    method GetAmenityCategoriesByRooms(roomIds: seq<Id>) returns (res: Result<map<Id, seq<AmenityCategory>>, RepoError>)
      modifies db`faults
      ensures res.Ok? ==> forall id ::
        Lookup(res.value, id) == if id in roomIds then ChildrenOf(db.tables.categories, id) else []
      ensures res.Err? ==> res.error == DatabaseError
      ensures db.refusals == old(db.refusals) && db.faults >= old(db.faults)
      ensures res.Ok? <==> db.faults == old(db.faults)
    {
      if |roomIds| == 0 {
        return Ok(map[]);
      }
      var found := db.QueryCategories(roomIds);
      if found.QueryFault? {
        return Err(DatabaseError);
      }
      var rows := found.value;
      var result: map<Id, seq<AmenityCategory>> := map[];
      for i := 0 to |rows|
        invariant forall id :: Lookup(result, id) == RowsOf(rows[..i], id)
      {
        assert rows[..i + 1][..i] == rows[..i];
        var c := rows[i];
        result := result[c.roomId := Lookup(result, c.roomId) + [c]];
      }
      assert rows[..|rows|] == rows;
      forall id ensures Lookup(result, id) == if id in roomIds then ChildrenOf(db.tables.categories, id) else [] {
        ScanSplitsByRoom(rows, db.tables.categories, (set k | k in roomIds), id);
      }
      return Ok(result);
    }
  }
}
