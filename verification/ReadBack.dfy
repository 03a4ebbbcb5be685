/** What each operation leaves in the meaning of the tables, column by column and list by list. */
module ReadBack {
  import opened Models
  import opened Coefficient
  import opened Tables
  import opened RoomView

  // ---- Creating ----

  /** Every copy of a create that added its rooms has its columns as requested, the price in
      cents, and of the lists what the create got to: both before `filled`, at `filled` the
      highlights if it was half-way, else none. */
  lemma CreatedReadsBack(rooms: Rooms, e: Event, i: nat)
    requires e.Created? && e.added && Possible(rooms, e) && i < |e.ids|
    ensures |e.ids| == e.req.quantity && e.ids[i] !in rooms && (i > 0 ==> e.ids[i - 1] < e.ids[i])
    ensures e.ids[i] in Effect(rooms, e)
    ensures var v := Effect(rooms, e)[e.ids[i]];
      && v.row.id == e.ids[i] && v.row.hotelId == e.hotelId && v.row.createdAt == e.now
      && v.row.name == e.req.name && v.row.roomType == e.req.roomType
      && v.row.capacity == e.req.capacity && v.row.quantity == e.req.quantity
      && v.row.description == e.req.description && v.row.spaceInfo == e.req.spaceInfo
      && v.row.bedDistribution == e.req.bedDistribution
      && -0.005 <= v.row.price - e.req.price <= 0.005 && v.row.price * 100.0 == (v.row.price * 100.0).Floor as real
      && v.row.coef == Coef(e.req.highlighted, e.req.categories)
      && v.highlights == (if i < e.filled || (i == e.filled && e.half) then e.req.highlighted else [])
      && v.categories == (if i < e.filled then e.req.categories else [])
    ensures forall id :: id in rooms ==> id in Effect(rooms, e) && Effect(rooms, e)[id] == rooms[id]
  {
    CreatedContents(rooms, e);
    CoefFitsColumn(e.req.highlighted, e.req.categories);
    Decimal2Properties(e.req.price);
  }

  /** The count of a created room adds up its categories' amenities: none give zero, and one more
      category gives exactly its own more. */
  lemma CreatedCountAddsUp(rooms: Rooms, e: Event, i: nat, cs: seq<Category>, c: Category)
    requires e.Created? && e.added && Possible(rooms, e) && i < |e.ids|
    ensures var none := e.(req := e.req.(categories := []));
      e.ids[i] in Effect(rooms, none) && Effect(rooms, none)[e.ids[i]].row.amenityCount == 0
    ensures var some, more := e.(req := e.req.(categories := cs)), e.(req := e.req.(categories := cs + [c]));
      && e.ids[i] in Effect(rooms, some) && e.ids[i] in Effect(rooms, more)
      && Effect(rooms, more)[e.ids[i]].row.amenityCount == Effect(rooms, some)[e.ids[i]].row.amenityCount + c.amenityCount
  {
    var none := e.(req := e.req.(categories := []));
    var some, more := e.(req := e.req.(categories := cs)), e.(req := e.req.(categories := cs + [c]));
    CreatedContents(rooms, none);
    CreatedContents(rooms, some);
    CreatedContents(rooms, more);
    CountOfOneMore(cs, c);
  }

  lemma CountOfOneMore(cs: seq<Category>, c: Category)
    ensures CountSum([]) == 0 && CountSum(cs + [c]) == CountSum(cs) + c.amenityCount
  {
    assert (cs + [c])[..|cs|] == cs;
  }

  // ---- Updating ----

  /** An update that wrote its row leaves each column the request names as requested, the price
      in cents, and all others as they were; of the lists it leaves what it got to. */
  lemma UpdatedReadsBack(rooms: Rooms, id: Id, req: UpdateRequest, p: Progress)
    requires id in rooms && p != Nothing
    ensures var r := Effect(rooms, Updated(id, req, p)); r.Keys == rooms.Keys && forall x :: x in rooms && x != id ==> r[x] == rooms[x]
    ensures var v, w := rooms[id], Effect(rooms, Updated(id, req, p))[id];
      && w.row.id == v.row.id && w.row.hotelId == v.row.hotelId && w.row.createdAt == v.row.createdAt
      && w.row.name == (if req.name != "" then req.name else v.row.name)
      && w.row.roomType == (if req.roomType != "" then req.roomType else v.row.roomType)
      && w.row.capacity == (if req.capacity > 0 then req.capacity else v.row.capacity)
      && w.row.quantity == (if req.quantity > 0 then req.quantity else v.row.quantity)
      && w.row.description == (if req.description != "" then req.description else v.row.description)
      && w.row.spaceInfo == (if req.spaceInfo != "" then req.spaceInfo else v.row.spaceInfo)
      && w.row.bedDistribution == (if req.bedDistribution != "" then req.bedDistribution else v.row.bedDistribution)
      && -0.005 <= w.row.price - (if req.price > 0.0 then req.price else v.row.price) <= 0.005
      && w.row.price * 100.0 == (w.row.price * 100.0).Floor as real
      && (req.price <= 0.0 && v.row.price * 100.0 == (v.row.price * 100.0).Floor as real ==> w.row.price == v.row.price)
  {
    var price := if req.price > 0.0 then req.price else rooms[id].row.price;
    Decimal2Properties(price);
    if price * 100.0 == (price * 100.0).Floor as real {
      CentsAreKept(price, (price * 100.0).Floor);
    }
  }

  /** The lists an update leaves: highlights replaced before categories, each only if given. */
  lemma UpdatedLists(rooms: Rooms, id: Id, req: UpdateRequest, p: Progress)
    requires id in rooms && p != Nothing
    ensures var v, w := rooms[id], Effect(rooms, Updated(id, req, p))[id];
      && w.highlights == (if p != RowWritten && req.highlighted.Some? then req.highlighted.value else v.highlights)
      && w.categories == (if p == Everything && req.categories.Some? then req.categories.value else v.categories)
      && w.row.coef == Coef(if req.highlighted.Some? then req.highlighted.value else v.highlights,
                            if req.categories.Some? then req.categories.value else v.categories)
      && (req.categories.None? ==> w.row.amenityCount == v.row.amenityCount)
  {
    CoefFitsColumn(Or(req.highlighted, rooms[id].highlights), Or(req.categories, rooms[id].categories));
  }

  /** The count an update writes adds up the amenities of the categories it brings. */
  lemma UpdatedCountAddsUp(rooms: Rooms, id: Id, req: UpdateRequest, p: Progress, cs: seq<Category>, c: Category)
    requires id in rooms && p != Nothing
    ensures Effect(rooms, Updated(id, req.(categories := Some([])), p))[id].row.amenityCount == 0
    ensures Effect(rooms, Updated(id, req.(categories := Some(cs + [c])), p))[id].row.amenityCount ==
            Effect(rooms, Updated(id, req.(categories := Some(cs)), p))[id].row.amenityCount + c.amenityCount
  {
    CountOfOneMore(cs, c);
  }

  // ---- Deleting and quantities ----

  /** A deletion takes its room and no other; a quantity update sets the quantity of the rooms with
      this hotel, type and name and changes nothing else. */
  lemma OthersReadBack(rooms: Rooms, id: Id, hotel: string, roomType: string, name: string, quantity: int, x: Id)
    ensures x in Effect(rooms, Deleted(id, true)) <==> x in rooms && x != id
    ensures x in rooms && x != id ==> Effect(rooms, Deleted(id, true))[x] == rooms[x]
    ensures var r := Effect(rooms, QuantitySet(hotel, roomType, name, quantity, true));
      && (x in r <==> x in rooms)
      && (x in rooms && rooms[x].row.hotelId == hotel && rooms[x].row.roomType == roomType && rooms[x].row.name == name ==>
           r[x] == rooms[x].(row := rooms[x].row.(quantity := quantity)))
      && (x in rooms && !(rooms[x].row.hotelId == hotel && rooms[x].row.roomType == roomType && rooms[x].row.name == name) ==>
           r[x] == rooms[x])
    ensures Effect(rooms, Deleted(id, false)) == rooms
    ensures Effect(rooms, QuantitySet(hotel, roomType, name, quantity, false)) == rooms
  {
  }

  // ---- What the tables mean ----

  /** A room means its row but for the time of its last change, and the contents of its child rows
      in the order of their ids. */
  lemma ViewReadsBack(t: Tables, id: Id)
    ensures id in View(t) <==> id in t.rooms
    ensures id in t.rooms ==> View(t)[id].row == t.rooms[id].(updatedAt := 0)
    ensures id in t.rooms ==> View(t)[id].highlights == Infos(ChildrenOf(t.highlighted, id))
    ensures id in t.rooms ==> View(t)[id].categories == Infos(ChildrenOf(t.categories, id))
  {
  }

  // ---- Availability ----

  /** The ledger's entries are the rooms with the key that came, went, or changed key. */
  lemma EntryIsExact(rooms: Rooms, e: Event, hotel: string, roomType: string, name: string)
    requires Possible(rooms, e)
    ensures var d, r := Entry(rooms, e, hotel, roomType, name), Effect(rooms, e);
      var was, now := KeyedRooms(rooms, hotel, roomType, name), KeyedRooms(r, hotel, roomType, name);
      && d.inserted == |now - rooms.Keys| && d.removed == |was - r.Keys|
      && d.movedIn == |now * rooms.Keys - was| && d.movedOut == |was * r.Keys - now|
  {
    match e {
      case Created(_, _, _, _, _, _, _) => CreatedEntry(rooms, e, hotel, roomType, name);
      case Updated(id, req, p) => UpdatedEntry(rooms, id, req, p, hotel, roomType, name);
      case Deleted(id, done) => DeletedEntry(rooms, id, done, hotel, roomType, name);
      case QuantitySet(_, _, _, _, _) => QuantityEntry(rooms, e, hotel, roomType, name);
    }
  }

  ghost predicate Enters(d: Ledger, rooms: Rooms, r: Rooms, hotel: string, roomType: string, name: string) {
    var was, now := KeyedRooms(rooms, hotel, roomType, name), KeyedRooms(r, hotel, roomType, name);
    && d.inserted == |now - rooms.Keys| && d.removed == |was - r.Keys|
    && d.movedIn == |now * rooms.Keys - was| && d.movedOut == |was * r.Keys - now|
  }

  lemma DeletedEntry(rooms: Rooms, id: Id, done: bool, hotel: string, roomType: string, name: string)
    requires done ==> id in rooms
    ensures var e := Deleted(id, done);
      Enters(Entry(rooms, e, hotel, roomType, name), rooms, Effect(rooms, e), hotel, roomType, name)
  {
    var r := Effect(rooms, Deleted(id, done));
    var was, now := KeyedRooms(rooms, hotel, roomType, name), KeyedRooms(r, hotel, roomType, name);
    assert now - rooms.Keys == {} && now * rooms.Keys - was == {} && was * r.Keys - now == {};
    assert was - r.Keys == if done && id in was then {id} else {};
  }

  lemma QuantityEntry(rooms: Rooms, e: Event, hotel: string, roomType: string, name: string)
    requires e.QuantitySet?
    ensures Enters(Entry(rooms, e, hotel, roomType, name), rooms, Effect(rooms, e), hotel, roomType, name)
  {
    var r := Effect(rooms, e);
    assert r.Keys == rooms.Keys;
    NothingEntered(rooms, r, hotel, roomType, name);
  }

  lemma NothingEntered(rooms: Rooms, r: Rooms, hotel: string, roomType: string, name: string)
    requires r.Keys == rooms.Keys
    requires forall x :: x in rooms ==> (HasKey(r[x].row, hotel, roomType, name) <==> HasKey(rooms[x].row, hotel, roomType, name))
    ensures Enters(Ledger(0, 0, 0, 0), rooms, r, hotel, roomType, name)
  {
    var was, now := KeyedRooms(rooms, hotel, roomType, name), KeyedRooms(r, hotel, roomType, name);
    assert now == was && was - rooms.Keys == {} && was * rooms.Keys - was == {};
  }

  lemma CreatedEntry(rooms: Rooms, e: Event, hotel: string, roomType: string, name: string)
    requires Possible(rooms, e) && e.Created?
    ensures Enters(Entry(rooms, e, hotel, roomType, name), rooms, Effect(rooms, e), hotel, roomType, name)
  {
    if e.added {
      var r := Effect(rooms, e);
      var was, now := KeyedRooms(rooms, hotel, roomType, name), KeyedRooms(r, hotel, roomType, name);
      CreatedContents(rooms, e);
      IdsAsSet(e.ids);
      CreatedKeys(rooms, e, hotel, roomType, name);
      assert was - r.Keys == {} && now * rooms.Keys - was == {} && was * r.Keys - now == {};
    } else {
      NothingEntered(rooms, rooms, hotel, roomType, name);
    }
  }

  lemma CreatedKeys(rooms: Rooms, e: Event, hotel: string, roomType: string, name: string)
    requires Possible(rooms, e) && e.Created? && e.added
    ensures KeyedRooms(Effect(rooms, e), hotel, roomType, name) - rooms.Keys ==
      if e.hotelId == hotel && e.req.roomType == roomType && e.req.name == name then IdSet(e.ids) else {}
  {
    CreatedContents(rooms, e);
    var r := Effect(rooms, e);
    forall x ensures x in KeyedRooms(r, hotel, roomType, name) - rooms.Keys <==>
        x in IdSet(e.ids) && e.hotelId == hotel && e.req.roomType == roomType && e.req.name == name
    {
      if x in e.ids {
        var i :| 0 <= i < |e.ids| && e.ids[i] == x;
        assert r[e.ids[i]] == CopyAt(e, i);
      }
    }
  }

  lemma OneRoomChanged(rooms: Rooms, id: Id, v: RoomView, hotel: string, roomType: string, name: string)
    requires id in rooms
    ensures var was, now := KeyedRooms(rooms, hotel, roomType, name), KeyedRooms(rooms[id := v], hotel, roomType, name);
      var before, after := HasKey(rooms[id].row, hotel, roomType, name), HasKey(v.row, hotel, roomType, name);
      && now - rooms.Keys == {} && was - rooms.Keys == {}
      && now * rooms.Keys - was == (if after && !before then {id} else {})
      && was * rooms.Keys - now == (if before && !after then {id} else {})
  {
  }

  lemma KeyOfUpdate(v: RoomView, req: UpdateRequest, p: Progress, hotel: string, roomType: string, name: string)
    requires p != Nothing
    ensures HasKey(UpdateTo(v, req, p).row, hotel, roomType, name) <==> HasKey(Patched(v.row, req), hotel, roomType, name)
  {
    UpdateAndQuantity(v, req, p, 0);
  }

  lemma UpdatedEntry(rooms: Rooms, id: Id, req: UpdateRequest, p: Progress, hotel: string, roomType: string, name: string)
    requires p != Nothing ==> id in rooms
    ensures var e := Updated(id, req, p);
      Enters(Entry(rooms, e, hotel, roomType, name), rooms, Effect(rooms, e), hotel, roomType, name)
  {
    if p == Nothing {
      NothingEntered(rooms, rooms, hotel, roomType, name);
    } else {
      var w := UpdateTo(rooms[id], req, p);
      KeyOfUpdate(rooms[id], req, p, hotel, roomType, name);
      OneRoomChanged(rooms, id, w, hotel, roomType, name);
      assert rooms[id := w].Keys == rooms.Keys;
    }
  }

  function IdSet(ids: seq<Id>): set<Id> {
    set x | x in ids
  }

  lemma {:induction false} IdsAsSet(ids: seq<Id>)
    requires AscendingIds(ids)
    ensures |IdSet(ids)| == |ids|
  {
    if ids != [] {
      var front, last := ids[..|ids| - 1], ids[|ids| - 1];
      IdsAsSet(front);
      assert forall i :: 0 <= i < |front| ==> front[i] < last;
      forall x ensures x in IdSet(ids) <==> x in IdSet(front) || x == last {
        assert ids == front + [last];
      }
      assert IdSet(ids) == IdSet(front) + {last};
    }
  }
}
