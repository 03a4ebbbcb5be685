/** The database: three tables with their primary keys, foreign keys and cascades, one open
    transaction at a time, and statements any of which may fail. */
module Database {
  import opened Models
  import opened Tables
  import Q = QueryBuilder
  import opened Paging

  datatype ExecResult = Fault | Refused | Affected(rows: nat)

  datatype QueryResult<+T> = QueryFault | Answer(value: T)

  /** Every child row refers to a room that exists. */
  ghost predicate References(t: Tables) {
    && (forall k :: k in t.highlighted ==> t.highlighted[k].roomId in t.rooms)
    && (forall k :: k in t.categories ==> t.categories[k].roomId in t.rooms)
  }

  /** DELETE FROM rooms WHERE id = ..., with ON DELETE CASCADE. */
  function WithoutRoom(t: Tables, id: Id): Tables {
    Tables(t.rooms - {id}, Without(t.highlighted, id), Without(t.categories, id))
  }

  /** UPDATE rooms SET quantity = ..., updated_at = ... WHERE hotel_id, type and name match. */
  function WithQuantities(rooms: RoomTable, hotelId: string, roomType: string, name: string, quantity: int, now: Time): RoomTable {
    map k | k in rooms ::
      if HasKey(rooms[k], hotelId, roomType, name) then rooms[k].(quantity := quantity, updatedAt := now) else rooms[k]
  }

  function PutQuantities(t: Tables, hotelId: string, roomType: string, name: string, quantity: int, now: Time): Tables {
    t.(rooms := WithQuantities(t.rooms, hotelId, roomType, name, quantity, now))
  }

  /** UPDATE rooms SET ... : everything but the key, the hotel and the creation time. */
  function WithColumnsOf(was: RoomRow, row: RoomRow, now: Time): RoomRow {
    ToColumns(row.(id := was.id, hotelId := was.hotelId, createdAt := was.createdAt, updatedAt := now))
  }

  function PutRow(t: Tables, row: RoomRow, now: Time): Tables
    requires row.id in t.rooms
  {
    t.(rooms := t.rooms[row.id := WithColumnsOf(t.rooms[row.id], row, now)])
  }

  /** A rewritten row, column by column: the written values, except for the key, the hotel and the
      creation time; nothing else in the tables changes. */
  lemma RewrittenRow(t: Tables, r: RoomRow, now: Time)
    requires r.id in t.rooms
    ensures var u := PutRow(t, r, now);
      && u.rooms.Keys == t.rooms.Keys && u.highlighted == t.highlighted && u.categories == t.categories
      && forall k :: k in t.rooms && k != r.id ==> u.rooms[k] == t.rooms[k]
    ensures var row, was := PutRow(t, r, now).rooms[r.id], t.rooms[r.id];
      && row.id == r.id && row.hotelId == was.hotelId && row.createdAt == was.createdAt && row.updatedAt == now
      && row.name == r.name && row.roomType == r.roomType && row.price == Decimal2(r.price)
      && row.capacity == r.capacity && row.description == r.description && row.spaceInfo == r.spaceInfo
      && row.bedDistribution == r.bedDistribution && row.quantity == r.quantity
      && row.amenityCount == r.amenityCount && row.coef == Decimal4(r.coef)
  {
  }

  class Database {
    /** What the current connection sees. */
    var tables: Tables
    /** The tables as they were when the open transaction began. */
    var saved: Option<Tables>
    /** Injected faults and constraint refusals so far. */
    ghost var faults: nat
    ghost var refusals: nat

    ghost predicate Valid()
      reads this
    {
      References(tables) && (saved.Some? ==> References(saved.value))
    }

    constructor ()
      ensures Valid() && tables == EMPTY && saved == None && faults == 0 && refusals == 0
    {
      tables, saved := EMPTY, None;
      faults, refusals := 0, 0;
    }

    /** Any statement may fail on the way. */
    method Fails() returns (f: bool)
      modifies this`faults
      ensures faults == old(faults) + (if f then 1 else 0)
    {
      f := *;
      if f {
        faults := faults + 1;
      }
    }

    // ---- Transactions ----

    method Begin() returns (ok: bool)
      requires Valid() && saved == None
      modifies this`saved, this`faults
      ensures Valid()
      ensures ok ==> saved == Some(tables) && faults == old(faults)
      ensures !ok ==> saved == None && faults == old(faults) + 1
    {
      var f := Fails();
      if f {
        return false;
      }
      saved := Some(tables);
      return true;
    }

    method Commit() returns (ok: bool)
      requires Valid() && saved.Some?
      modifies this`saved, this`faults
      ensures Valid()
      ensures ok ==> saved == None && faults == old(faults)
      ensures !ok ==> saved == old(saved) && faults == old(faults) + 1
    {
      var f := Fails();
      if f {
        return false;
      }
      saved := None;
      return true;
    }

    /** Undoes an open transaction; after a commit it does nothing. */
    method Rollback()
      requires Valid()
      modifies this`tables, this`saved
      ensures Valid() && saved == None
      ensures tables == (if old(saved).Some? then old(saved).value else old(tables))
    {
      if saved.Some? {
        tables, saved := saved.value, None;
      }
    }

    // ---- Statements ----

    method InsertRoom(row: RoomRow) returns (res: ExecResult)
      requires Valid()
      modifies this`tables, this`faults, this`refusals
      ensures Valid()
      ensures faults == old(faults) + (if res.Fault? then 1 else 0)
      ensures refusals == old(refusals) + (if res.Refused? then 1 else 0)
      ensures res.Refused? ==> row.id in old(tables).rooms
      ensures res.Affected? ==> row.id !in old(tables).rooms
      ensures res.Affected? ==> tables == old(tables).(rooms := old(tables).rooms[row.id := ToColumns(row)])
      ensures !res.Affected? ==> tables == old(tables)
    {
      var f := Fails();
      if f {
        return Fault;
      }
      if row.id in tables.rooms {
        refusals := refusals + 1;
        return Refused;
      }
      tables := tables.(rooms := tables.rooms[row.id := ToColumns(row)]);
      return Affected(1);
    }

    method InsertHighlighted(row: HighlightedAmenity) returns (res: ExecResult)
      requires Valid()
      modifies this`tables, this`faults, this`refusals
      ensures Valid()
      ensures faults == old(faults) + (if res.Fault? then 1 else 0)
      ensures refusals == old(refusals) + (if res.Refused? then 1 else 0)
      ensures res.Refused? ==> row.id in old(tables).highlighted || row.roomId !in old(tables).rooms
      ensures res.Affected? ==> row.id !in old(tables).highlighted && row.roomId in old(tables).rooms
      ensures res.Affected? ==> tables == old(tables).(highlighted := old(tables).highlighted[row.id := row])
      ensures !res.Affected? ==> tables == old(tables)
    {
      var f := Fails();
      if f {
        return Fault;
      }
      if row.id in tables.highlighted || row.roomId !in tables.rooms {
        refusals := refusals + 1;
        return Refused;
      }
      tables := tables.(highlighted := tables.highlighted[row.id := row]);
      return Affected(1);
    }

    method InsertCategory(row: AmenityCategory) returns (res: ExecResult)
      requires Valid()
      modifies this`tables, this`faults, this`refusals
      ensures Valid()
      ensures faults == old(faults) + (if res.Fault? then 1 else 0)
      ensures refusals == old(refusals) + (if res.Refused? then 1 else 0)
      ensures res.Refused? ==> row.id in old(tables).categories || row.roomId !in old(tables).rooms
      ensures res.Affected? ==> row.id !in old(tables).categories && row.roomId in old(tables).rooms
      ensures res.Affected? ==> tables == old(tables).(categories := old(tables).categories[row.id := row])
      ensures !res.Affected? ==> tables == old(tables)
    {
      var f := Fails();
      if f {
        return Fault;
      }
      if row.id in tables.categories || row.roomId !in tables.rooms {
        refusals := refusals + 1;
        return Refused;
      }
      tables := tables.(categories := tables.categories[row.id := row]);
      return Affected(1);
    }

    method DeleteHighlightedOf(roomId: Id) returns (res: ExecResult)
      requires Valid()
      modifies this`tables, this`faults
      ensures Valid() && !res.Refused?
      ensures faults == old(faults) + (if res.Fault? then 1 else 0)
      ensures tables == if res.Fault? then old(tables)
                        else old(tables).(highlighted := Without(old(tables).highlighted, roomId))
    {
      var f := Fails();
      if f {
        return Fault;
      }
      res := Affected(|KeysIn(tables.highlighted, {roomId})|);
      tables := tables.(highlighted := Without(tables.highlighted, roomId));
    }

    method DeleteCategoriesOf(roomId: Id) returns (res: ExecResult)
      requires Valid()
      modifies this`tables, this`faults
      ensures Valid() && !res.Refused?
      ensures faults == old(faults) + (if res.Fault? then 1 else 0)
      ensures tables == if res.Fault? then old(tables)
                        else old(tables).(categories := Without(old(tables).categories, roomId))
    {
      var f := Fails();
      if f {
        return Fault;
      }
      res := Affected(|KeysIn(tables.categories, {roomId})|);
      tables := tables.(categories := Without(tables.categories, roomId));
    }

    /** UPDATE rooms SET ... WHERE id = row.id AND hotel_id = row.hotelId */
    method UpdateRoomRow(row: RoomRow, now: Time) returns (res: ExecResult)
      requires Valid()
      modifies this`tables, this`faults
      ensures Valid() && !res.Refused?
      ensures faults == old(faults) + (if res.Fault? then 1 else 0)
      ensures res.Affected? ==>
        if row.id in old(tables).rooms && old(tables).rooms[row.id].hotelId == row.hotelId
        then res.rows == 1 && tables == PutRow(old(tables), row, now)
        else res.rows == 0 && tables == old(tables)
      ensures res.Fault? ==> tables == old(tables)
    {
      var f := Fails();
      if f {
        return Fault;
      }
      if row.id in tables.rooms && tables.rooms[row.id].hotelId == row.hotelId {
        tables := PutRow(tables, row, now);
        return Affected(1);
      }
      return Affected(0);
    }

    method DeleteRoomRow(id: Id) returns (res: ExecResult)
      requires Valid()
      modifies this`tables, this`faults
      ensures Valid() && !res.Refused?
      ensures faults == old(faults) + (if res.Fault? then 1 else 0)
      ensures res.Affected? ==>
        if id in old(tables).rooms then res.rows == 1 && tables == WithoutRoom(old(tables), id)
        else res.rows == 0 && tables == old(tables)
      ensures res.Fault? ==> tables == old(tables)
    {
      var f := Fails();
      if f {
        return Fault;
      }
      if id in tables.rooms {
        tables := WithoutRoom(tables, id);
        return Affected(1);
      }
      return Affected(0);
    }

    method UpdateQuantities(hotelId: string, roomType: string, name: string, quantity: int, now: Time) returns (res: ExecResult)
      requires Valid()
      modifies this`tables, this`faults
      ensures Valid() && !res.Refused?
      ensures faults == old(faults) + (if res.Fault? then 1 else 0)
      ensures tables == if res.Fault? then old(tables)
                        else PutQuantities(old(tables), hotelId, roomType, name, quantity, now)
    {
      var f := Fails();
      if f {
        return Fault;
      }
      res := Affected(|set k | k in tables.rooms && HasKey(tables.rooms[k], hotelId, roomType, name)|);
      tables := PutQuantities(tables, hotelId, roomType, name, quantity, now);
    }

    // ---- Queries ----

    method QueryRoom(id: Id) returns (res: QueryResult<Option<RoomRow>>)
      modifies this`faults
      ensures faults == old(faults) + (if res.QueryFault? then 1 else 0)
      ensures res.Answer? ==> res.value == if id in tables.rooms then Some(tables.rooms[id]) else None
    {
      var f := Fails();
      if f {
        return QueryFault;
      }
      return Answer(if id in tables.rooms then Some(tables.rooms[id]) else None);
    }

    /** SELECT ... WHERE room_id IN (...) ORDER BY room_id, id ASC */
    method QueryHighlighted(roomIds: seq<Id>) returns (res: QueryResult<seq<HighlightedAmenity>>)
      modifies this`faults
      ensures faults == old(faults) + (if res.QueryFault? then 1 else 0)
      ensures res.Answer? ==> IsScan(res.value, tables.highlighted, set id | id in roomIds)
    {
      var f := Fails();
      if f {
        return QueryFault;
      }
      SortedIsScan(tables.highlighted, set id | id in roomIds);
      return Answer(Sorted(tables.highlighted, KeysIn(tables.highlighted, set id | id in roomIds)));
    }

    method QueryCategories(roomIds: seq<Id>) returns (res: QueryResult<seq<AmenityCategory>>)
      modifies this`faults
      ensures faults == old(faults) + (if res.QueryFault? then 1 else 0)
      ensures res.Answer? ==> IsScan(res.value, tables.categories, set id | id in roomIds)
    {
      var f := Fails();
      if f {
        return QueryFault;
      }
      SortedIsScan(tables.categories, set id | id in roomIds);
      return Answer(Sorted(tables.categories, KeysIn(tables.categories, set id | id in roomIds)));
    }

    method QueryCount(hotelId: string, roomType: string, name: string) returns (res: QueryResult<nat>)
      modifies this`faults
      ensures faults == old(faults) + (if res.QueryFault? then 1 else 0)
      ensures res.Answer? ==>
        res.value == |set k | k in tables.rooms && HasKey(tables.rooms[k], hotelId, roomType, name)|
    {
      var f := Fails();
      if f {
        return QueryFault;
      }
      return Answer(|set k | k in tables.rooms && HasKey(tables.rooms[k], hotelId, roomType, name)|);
    }

    /** A parameterised listing.  The database chooses the order as far as the query leaves it open. */
    method QueryRooms(query: Q.Query, args: seq<Q.Value>) returns (res: QueryResult<seq<RoomRow>>)
      requires Q.Grammatical(query)
      modifies this`faults
      ensures faults == old(faults) + (if res.QueryFault? then 1 else 0)
      ensures res.Answer? ==> Q.Answers(res.value, query, args, tables.rooms)
    {
      var f := Fails();
      if f {
        return QueryFault;
      }
      var listing := List(tables.rooms, Q.SelectedBy(query, args, tables.rooms), Q.OrderByCoefThenPrice in query);
      return Answer(Q.Window(listing, Q.OffsetOf(query, args), Q.LimitOf(query, args)));
    }
  }

  // ---- Listing rows ----

  /** Lists the rows with these keys: ranked, as ORDER BY does, or in any order. */
  method List(t: RoomTable, keys: set<Id>, ranked: bool) returns (listing: seq<RoomRow>)
    requires keys <= t.Keys
    ensures Q.IsListing(listing, t, keys) && (ranked ==> Q.Ranked(listing))
  {
    listing := [];
    var left := keys;
    while left != {}
      invariant Listed(listing, t, keys, left)
      invariant ranked ==> RankedBefore(listing, t, left)
      decreases |left|
    {
      SomeRowRanksFirst(t, left);
      var m :| m in left && (ranked ==> forall k :: k in left ==> Q.RanksBefore(t[m], t[k]));
      ListedExtends(listing, t, keys, left, m);
      if ranked {
        RankedExtends(listing, t, left, m);
      }
      listing := listing + [t[m]];
      left := left - {m};
    }
    assert keys - {} == keys;
  }
}
