/** The service: creates, updates and deletes rooms over the repository.  A ghost log records
    what each operation got done; the meaning of the tables is always the replay of that log. */
module RoomService {
  import opened Models
  import opened Coefficient
  import opened Tables
  import opened Database
  import opened RoomRepo
  import opened RoomView
  import opened Refinement
  import Q = QueryBuilder

  datatype ServiceError = NotFound | CreateFailed | UpdateFailed | DeleteFailed | FetchFailed

  datatype Availability = Availability(available: bool, count: nat)

  /** UUIDv7: every new identifier sorts after all earlier ones. */
  class IdSource {
    var next: Id

    constructor (next: Id)
      ensures this.next == next
    {
      this.next := next;
    }

    method NewV7() returns (id: Id)
      modifies this
      ensures old(next) <= id < next
    {
      var skipped: int :| skipped >= 0;
      id := next + skipped;
      next := id + 1;
    }
  }

  /** No identifier in use is yet to be issued. */
  ghost predicate IdsBelow(t: Tables, next: Id) {
    && (forall k :: k in t.rooms ==> k < next)
    && (forall k :: k in t.highlighted ==> k < next)
    && (forall k :: k in t.categories ==> k < next)
  }

  ghost predicate ChildIdsBelow(t: Tables, from: Id) {
    && (forall k :: k in t.highlighted ==> k < from)
    && (forall k :: k in t.categories ==> k < from)
  }

  lemma BothReplaced(v: Rooms, id: Id, hs: seq<Highlight>, cs: seq<Category>)
    requires id in v
    ensures var w := v[id := v[id].(highlights := hs)];
      w[id := w[id].(categories := cs)] == v[id := v[id].(highlights := hs, categories := cs)]
  {
  }

  /** Child rows made from these inputs, with ids issued in order from a range. */
  ghost predicate Identified<P>(rows: seq<Child<P>>, inputs: seq<P>, roomId: Id, from: Id, to: Id) {
    && Infos(rows) == inputs
    && (forall i :: 0 <= i < |rows| ==> rows[i].roomId == roomId && from <= rows[i].id < to)
    && (forall i, j :: 0 <= i < j < |rows| ==> rows[i].id < rows[j].id)
  }

  lemma IdentifiedIsInsertable<P>(t: ChildTable<P>, rooms: RoomTable, rows: seq<Child<P>>, inputs: seq<P>, roomId: Id, from: Id, to: Id)
    requires forall k :: k in t ==> k < from
    requires roomId in rooms && Identified(rows, inputs, roomId, from, to)
    ensures Insertable(t, rooms, roomId, rows)
  {
  }

  lemma ReplacedIdsBelow<P>(t: ChildTable<P>, rows: seq<Child<P>>, roomId: Id, next: Id)
    requires forall k :: k in t ==> k < next
    requires forall i :: 0 <= i < |rows| ==> rows[i].id < next
    ensures forall k :: k in ReplaceRows(t, roomId, rows) ==> k < next
  {
    forall k | k in ReplaceRows(t, roomId, rows) ensures k < next {
      WithRowsElsewhere(Without(t, roomId), roomId, rows, k);
    }
  }

  lemma InsertedIdsBelow(t: RoomTable, rooms: seq<Room>, next: Id)
    requires forall k :: k in t ==> k < next
    requires forall i :: 0 <= i < |rooms| ==> rooms[i].row.id < next
    ensures forall k :: k in WithRooms(t, rooms) ==> k < next
  {
    forall k | k in WithRooms(t, rooms) ensures k < next {
      WithRoomsKeys(t, rooms, k);
    }
  }

  lemma LogExtends(base: Rooms, log: seq<Event>, e: Event)
    requires PossibleRun(base, log) && Possible(Replay(base, log), e)
    ensures PossibleRun(base, log + [e])
    ensures Replay(base, log + [e]) == Effect(Replay(base, log), e)
  {
    assert (log + [e])[..|log|] == log;
  }

  /** Replacing a room's highlights by newly identified ones: it cannot be refused, and it
      changes that list of that room only. */
  lemma HighlightsWritten(t: Tables, id: Id, rows: seq<HighlightedAmenity>, inputs: seq<Highlight>, from: Id, to: Id)
    requires id in t.rooms && IdsBelow(t, to) && Identified(rows, inputs, id, from, to)
    requires forall k :: k in t.highlighted ==> k < from
    ensures Insertable(t.highlighted, t.rooms, id, rows)
    ensures var u := PutHighlights(t, id, rows);
      View(u) == View(t)[id := View(t)[id].(highlights := inputs)] && IdsBelow(u, to)
  {
    IdentifiedIsInsertable(t.highlighted, t.rooms, rows, inputs, id, from, to);
    ViewAfterHighlights(t, id, rows);
    ReplacedIdsBelow(t.highlighted, rows, id, to);
  }

  lemma CategoriesWritten(t: Tables, id: Id, rows: seq<AmenityCategory>, inputs: seq<Category>, from: Id, to: Id)
    requires id in t.rooms && IdsBelow(t, to) && Identified(rows, inputs, id, from, to)
    requires forall k :: k in t.categories ==> k < from
    ensures Insertable(t.categories, t.rooms, id, rows)
    ensures var u := PutCategories(t, id, rows);
      View(u) == View(t)[id := View(t)[id].(categories := inputs)] && IdsBelow(u, to)
  {
    IdentifiedIsInsertable(t.categories, t.rooms, rows, inputs, id, from, to);
    ViewAfterCategories(t, id, rows);
    ReplacedIdsBelow(t.categories, rows, id, to);
  }

  /** The row an update writes is the patched and recomputed one, met by the columns. */
  lemma WrittenRow(was: RoomRow, written: RoomRow, v: RoomView, req: UpdateRequest, now: Time)
    requires v.row == Timeless(was) && written == UpdatedRow(v, req).(updatedAt := was.updatedAt)
    ensures v.(row := Timeless(WithColumnsOf(was, written, now))) == UpdateTo(v, req, RowWritten)
  {
  }

  /** The room an update returns is, met by the columns, what the store then means. */
  lemma RevisedMeaning(v: RoomView, req: UpdateRequest, room: Room, updatedAt: Time)
    requires room.row == UpdatedRow(v, req).(updatedAt := updatedAt)
    requires Infos(room.highlighted) == Or(req.highlighted, v.highlights)
    requires Infos(room.categories) == Or(req.categories, v.categories)
    ensures RoomView(Timeless(ToColumns(room.row)), Infos(room.highlighted), Infos(room.categories)) == UpdateTo(v, req, Everything)
  {
  }

  /** Rewriting a row leaves the identifiers in use as they are. */
  lemma PutRowKeepsIds(t: Tables, row: RoomRow, from: Id, next: Id)
    requires row.id in t.rooms && IdsBelow(t, next) && ChildIdsBelow(t, from)
    ensures forall now :: var u := PutRow(t, row, now);
      row.id in u.rooms && IdsBelow(u, next) && ChildIdsBelow(u, from)
  {
  }

  lemma RevisedRowMeans(t: Tables, id: Id, req: UpdateRequest, written: RoomRow)
    requires References(t) && id in t.rooms
    requires written == UpdatedRow(View(t)[id], req).(updatedAt := t.rooms[id].updatedAt)
    ensures written.id == id && written.hotelId == t.rooms[id].hotelId
    ensures forall now :: View(PutRow(t, written, now)) == Effect(View(t), Updated(id, req, RowWritten))
  {
    forall now ensures View(PutRow(t, written, now)) == Effect(View(t), Updated(id, req, RowWritten)) {
      ViewAfterRow(t, WithColumnsOf(t.rooms[id], written, now));
      WrittenRow(t.rooms[id], written, ViewOf(t, id), req, now);
    }
  }

  /** The table can take this row: it matches room `id`, and writing it, whenever that is, takes
      the meaning to where the update has its row written. */
  ghost predicate TakesRow(t: Tables, id: Id, req: UpdateRequest, written: RoomRow, from: Id, next: Id) {
    && id in t.rooms && written.id == id && written.hotelId == t.rooms[id].hotelId
    && forall now :: var u := PutRow(t, written, now);
         && id in u.rooms && IdsBelow(u, next) && ChildIdsBelow(u, from)
         && View(u) == Effect(View(t), Updated(id, req, RowWritten))
  }

  /** Every table can take a revised row. */
  lemma RevisedRowWritten(t: Tables, id: Id, req: UpdateRequest, written: RoomRow, from: Id, next: Id)
    requires References(t) && id in t.rooms && IdsBelow(t, next) && ChildIdsBelow(t, from)
    requires written == UpdatedRow(View(t)[id], req).(updatedAt := t.rooms[id].updatedAt)
    ensures TakesRow(t, id, req, written, from, next)
  {
    RevisedRowMeans(t, id, req, written);
    PutRowKeepsIds(t, written, from, next);
  }

  /** The lists an update brings, identified with ids from a range. */
  ghost predicate ListsGiven(room: Room, id: Id, req: UpdateRequest, from: Id, to: Id) {
    && (req.highlighted.Some? ==> Identified(room.highlighted, req.highlighted.value, id, from, to))
    && (req.categories.Some? ==> Identified(room.categories, req.categories.value, id, from, to))
  }

  /** Inserting the copies of a create is the create with no copy filled yet. */
  lemma RoomsInserted(t: Tables, rooms: seq<Room>, before: Rooms, e: Event)
    requires References(t) && AllNew(t.rooms, rooms) && before == View(t)
    requires e.Created? && e.added && e.filled == 0 && !e.half && e.ids == RoomIds(rooms)
    requires |rooms| == e.req.quantity
    requires forall i :: 0 <= i < |rooms| ==> rooms[i].row == NewRow(e.req, e.hotelId, e.now, e.ids[i])
    requires forall i, j :: 0 <= i < j < |rooms| ==> rooms[i].row.id < rooms[j].row.id
    ensures Possible(before, e)
    ensures View(PutRooms(t, rooms)) == Effect(before, e)
  {
    ViewAfterInsert(t, rooms);
    NoCopyFilledYet(before, e, rooms);
    assert forall i :: 0 <= i < |e.ids| ==> e.ids[i] !in before;
  }

  class RoomService {
    const r: RoomRepo
    const ids: IdSource

    /** The meaning of the store when the service started, and what happened since. */
    ghost const base: Rooms
    ghost var log: seq<Event>

    ghost predicate Ready()
      reads this, r.db, ids
    {
      r.db.Valid() && r.db.saved == None && IdsBelow(r.db.tables, ids.next)
    }

    ghost predicate Valid()
      reads this, r.db, ids
    {
      Ready() && PossibleRun(base, log) && View(r.db.tables) == Replay(base, log)
    }

    constructor (r: RoomRepo, ids: IdSource)
      requires r.db.Valid() && r.db.saved == None && IdsBelow(r.db.tables, ids.next)
      ensures Valid() && this.r == r && this.ids == ids
      ensures base == View(r.db.tables) && log == []
    {
      this.r := r;
      this.ids := ids;
      base := View(r.db.tables);
      log := [];
    }

    /** From an empty store, after any run of operations, each derived column of each stored room
        is that of its stored children exactly when the log says so. */
    lemma StoredColumnsAgreeIff(id: Id)
      requires Valid() && base == map[] && id in r.db.tables.rooms
      ensures r.db.tables.rooms[id].amenityCount == CountSum(Infos(ChildrenOf(r.db.tables.categories, id))) <==>
              CountInStep(log, id)
      ensures r.db.tables.rooms[id].coef ==
              Coef(Infos(ChildrenOf(r.db.tables.highlighted, id)), Infos(ChildrenOf(r.db.tables.categories, id))) <==>
              CoefInStep(log, id)
    {
      DerivedColumnsAgreeIff(log, id);
      assert View(r.db.tables)[id] == ViewOf(r.db.tables, id);
    }

    // ---- Making child rows ----

    method IdentifyHighlighted(inputs: seq<Highlight>, roomId: Id, now: Time) returns (rows: seq<HighlightedAmenity>)
      modifies ids
      ensures old(ids.next) <= ids.next && Identified(rows, inputs, roomId, old(ids.next), ids.next)
    {
      rows := [];
      for i := 0 to |inputs|
        invariant |rows| == i && old(ids.next) <= ids.next
        invariant Identified(rows, inputs[..i], roomId, old(ids.next), ids.next)
      {
        var id := ids.NewV7();
        rows := rows + [Child(id, roomId, inputs[i], now, now)];
      }
    }

    method IdentifyCategories(inputs: seq<Category>, roomId: Id, now: Time) returns (rows: seq<AmenityCategory>, total: int)
      modifies ids
      ensures old(ids.next) <= ids.next && Identified(rows, inputs, roomId, old(ids.next), ids.next)
      ensures total == CountSum(inputs)
    {
      rows, total := [], 0;
      for i := 0 to |inputs|
        invariant |rows| == i && old(ids.next) <= ids.next
        invariant Identified(rows, inputs[..i], roomId, old(ids.next), ids.next)
        invariant total == CountSum(inputs[..i])
      {
        assert inputs[..i + 1][..i] == inputs[..i];
        var id := ids.NewV7();
        rows := rows + [Child(id, roomId, inputs[i], now, now)];
        total := total + inputs[i].amenityCount;
      }
      assert inputs[..|inputs|] == inputs;
    }

    /** A copy of child rows for one room, with ids of its own. */
    method CloneWithRoomId<P>(src: seq<Child<P>>, roomId: Id) returns (rows: seq<Child<P>>)
      modifies ids
      ensures old(ids.next) <= ids.next && Identified(rows, Infos(src), roomId, old(ids.next), ids.next)
      ensures |rows| == |src| && forall i :: 0 <= i < |rows| ==>
        && rows[i].info == src[i].info && rows[i].roomId == roomId && old(ids.next) <= rows[i].id < ids.next
        && (i > 0 ==> rows[i - 1].id < rows[i].id)
    {
      var now := Now();
      rows := [];
      for i := 0 to |src|
        invariant |rows| == i && old(ids.next) <= ids.next
        invariant Identified(rows, Infos(src)[..i], roomId, old(ids.next), ids.next)
      {
        var id := ids.NewV7();
        rows := rows + [Child(id, roomId, src[i].info, now, now)];
      }
    }

    // ---- Creating ----

    method BuildCopies(req: CreateRequest, hotelId: string, now: Time, highlighted: seq<HighlightedAmenity>,
                       categories: seq<AmenityCategory>, total: int, coef: real) returns (rooms: seq<Room>)
      requires req.quantity >= 0
      requires total == CountSum(req.categories) && coef == Coef(req.highlighted, req.categories)
      modifies ids
      ensures old(ids.next) <= ids.next && |rooms| == req.quantity
      ensures forall i :: 0 <= i < |rooms| ==> old(ids.next) <= rooms[i].row.id < ids.next
      ensures forall i, j :: 0 <= i < j < |rooms| ==> rooms[i].row.id < rooms[j].row.id
      ensures forall i :: 0 <= i < |rooms| ==>
        rooms[i] == Room(NewRow(req, hotelId, now, rooms[i].row.id), highlighted, categories)
    {
      rooms := [];
      for i := 0 to req.quantity
        invariant |rooms| == i && old(ids.next) <= ids.next
        invariant forall j :: 0 <= j < i ==> old(ids.next) <= rooms[j].row.id < ids.next
        invariant forall j, k :: 0 <= j < k < i ==> rooms[j].row.id < rooms[k].row.id
        invariant forall j :: 0 <= j < i ==>
          rooms[j] == Room(NewRow(req, hotelId, now, rooms[j].row.id), highlighted, categories)
      {
        var id := ids.NewV7();
        var row := RoomRow(id, hotelId, req.name, req.roomType, req.price, req.capacity, req.description,
                           req.spaceInfo, req.bedDistribution, req.quantity, total, coef, now, now);
        rooms := rooms + [Room(row, highlighted, categories)];
      }
    }

    /** Creates `quantity` copies of a room and persists the children of each. */
    method CreateRooms(req: CreateRequest, hotelId: string) returns (res: Result<seq<Room>, ServiceError>, ghost e: Event)
      requires Valid() && req.quantity >= 0
      modifies r.db, ids, this`log
      ensures Valid()
      ensures e.Created? && e.req == req && e.hotelId == hotelId && log == old(log) + [e]
      ensures res.Ok? <==> e.Succeeds()
      ensures res.Ok? ==>
        && |res.value| == req.quantity && RoomIds(res.value) == e.ids
        && forall i :: 0 <= i < |res.value| ==>
             var row := res.value[i].row;
             && row.id == e.ids[i] && row.hotelId == hotelId && row.name == req.name && row.roomType == req.roomType
             && row.price == req.price && row.capacity == req.capacity && row.quantity == req.quantity
             && row.description == req.description && row.spaceInfo == req.spaceInfo
             && row.bedDistribution == req.bedDistribution && row.createdAt == row.updatedAt == e.now
             && row.amenityCount == CountSum(req.categories) && row.coef == Coef(req.highlighted, req.categories)
             && Infos(res.value[i].highlighted) == req.highlighted
             && Infos(res.value[i].categories) == req.categories
      ensures res.Err? ==> res.error == CreateFailed
      ensures r.db.refusals == old(r.db.refusals)
      ensures res.Ok? <==> r.db.faults == old(r.db.faults)
    {
      var now := Now();
      var highlighted := IdentifyHighlighted(req.highlighted, NO_ID, now);
      var categories, total := IdentifyCategories(req.categories, NO_ID, now);
      var coef := CalculateCoef(highlighted, categories);
      var rooms := BuildCopies(req, hotelId, now, highlighted, categories, total, coef);
      assert IdsBelow(r.db.tables, ids.next);

      var ok;
      ok, e := AddCopies(req, hotelId, now, rooms, highlighted, categories);
      Record(e);
      res := if ok then Ok(rooms) else Err(CreateFailed);
    }

    /** Adds the rows of all the copies, then the children of each. */
    method AddCopies(req: CreateRequest, hotelId: string, now: Time, rooms: seq<Room>,
                     highlighted: seq<HighlightedAmenity>, categories: seq<AmenityCategory>) returns (ok: bool, ghost e: Event)
      requires Ready() && |rooms| == req.quantity
      requires Infos(highlighted) == req.highlighted && Infos(categories) == req.categories
      requires forall i :: 0 <= i < |rooms| ==>
        rooms[i].row == NewRow(req, hotelId, now, rooms[i].row.id) && rooms[i].row.id < ids.next && rooms[i].row.id !in r.db.tables.rooms
      requires forall i, j :: 0 <= i < j < |rooms| ==> rooms[i].row.id < rooms[j].row.id
      modifies r.db, ids
      ensures Ready()
      ensures e.Created? && e.req == req && e.hotelId == hotelId && e.now == now && (ok ==> e.ids == RoomIds(rooms))
      ensures Possible(old(View(r.db.tables)), e) && View(r.db.tables) == Effect(old(View(r.db.tables)), e)
      ensures ok <==> e.Succeeds()
      ensures r.db.refusals == old(r.db.refusals) && r.db.faults >= old(r.db.faults)
      ensures ok <==> r.db.faults == old(r.db.faults)
    {
      ghost var t := r.db.tables;
      var err := r.CreateRooms(rooms);
      if err.Some? {
        return false, Created(req, hotelId, now, [], false, 0, false);
      }
      ghost var added := Created(req, hotelId, now, RoomIds(rooms), true, 0, false);
      RoomsInserted(t, rooms, View(t), added);
      InsertedIdsBelow(t.rooms, rooms, ids.next);
      ok, e := PersistChildren(rooms, highlighted, categories, View(t), added);
    }

    /** Gives every copy its own children, room by room; stops at the first failure. */
    method PersistChildren(rooms: seq<Room>, highlighted: seq<HighlightedAmenity>, categories: seq<AmenityCategory>,
                           ghost before: Rooms, ghost e: Event) returns (ok: bool, ghost done: Event)
      requires Ready()
      requires e.Created? && e.added && e.filled == 0 && !e.half && Possible(before, e)
      requires View(r.db.tables) == Effect(before, e)
      requires RoomIds(rooms) == e.ids && Infos(highlighted) == e.req.highlighted && Infos(categories) == e.req.categories
      modifies r.db, ids
      ensures Ready()
      ensures done.Created? && done == e.(filled := done.filled, half := done.half)
      ensures Possible(before, done) && View(r.db.tables) == Effect(before, done)
      ensures ok <==> done.Succeeds()
      ensures r.db.refusals == old(r.db.refusals) && r.db.faults >= old(r.db.faults)
      ensures ok <==> r.db.faults == old(r.db.faults)
    {
      ok := true;
      var i := 0;
      ghost var half := false;
      while i < |rooms| && ok
        invariant 0 <= i <= |rooms| && (if ok then !half else i < |rooms|)
        invariant Ready() && View(r.db.tables) == Effect(before, FilledTo(e, i, half))
        invariant r.db.refusals == old(r.db.refusals) && r.db.faults >= old(r.db.faults)
        invariant ok <==> r.db.faults == old(r.db.faults)
        decreases |rooms| - i, ok
      {
        assert e.ids[i] == rooms[i].row.id;
        HighlightsFilled(before, e, i);
        CopyFilled(before, e, i);
        ok, half := PersistOne(rooms[i].row.id, highlighted, categories, e.req);
        if ok {
          i, half := i + 1, false;
        }
      }
      done := FilledTo(e, i, half);
      ProgressIsPossible(before, e, i, half);
    }

    /** The children of one copy: both lists cloned, then the highlights and the categories replaced. */
    method PersistOne(id: Id, highlighted: seq<HighlightedAmenity>, categories: seq<AmenityCategory>, ghost req: CreateRequest)
      returns (ok: bool, ghost half: bool)
      requires Ready() && id in r.db.tables.rooms
      requires Infos(highlighted) == req.highlighted && Infos(categories) == req.categories
      modifies r.db, ids
      ensures Ready()
      ensures var v := old(View(r.db.tables));
        View(r.db.tables) ==
          if ok then v[id := v[id].(highlights := req.highlighted, categories := req.categories)]
          else if half then v[id := v[id].(highlights := req.highlighted)]
          else v
      ensures r.db.refusals == old(r.db.refusals) && r.db.faults >= old(r.db.faults)
      ensures ok <==> r.db.faults == old(r.db.faults)
    {
      ghost var n0 := ids.next;
      var roomHighlights := CloneWithRoomId(highlighted, id);
      var roomCategories := CloneWithRoomId(categories, id);
      ok, half := ReplaceBoth(id, roomHighlights, roomCategories, req.highlighted, req.categories, n0);
    }

    /** Both lists of a room, highlights first; stops at the first failure. */
    method ReplaceBoth(id: Id, highlighted: seq<HighlightedAmenity>, categories: seq<AmenityCategory>,
                       ghost hs: seq<Highlight>, ghost cs: seq<Category>, ghost from: Id) returns (ok: bool, ghost half: bool)
      requires Ready() && id in r.db.tables.rooms
      requires Identified(highlighted, hs, id, from, ids.next) && Identified(categories, cs, id, from, ids.next)
      requires ChildIdsBelow(r.db.tables, from)
      modifies r.db
      ensures Ready()
      ensures var v := old(View(r.db.tables));
        View(r.db.tables) ==
          if ok then v[id := v[id].(highlights := hs, categories := cs)]
          else if half then v[id := v[id].(highlights := hs)]
          else v
      ensures r.db.refusals == old(r.db.refusals) && r.db.faults >= old(r.db.faults)
      ensures ok <==> r.db.faults == old(r.db.faults)
    {
      ghost var v := View(r.db.tables);
      ok := ReplaceHighlights(id, highlighted, hs, from);
      half := ok;
      if ok {
        BothReplaced(v, id, hs, cs);
        ok := ReplaceCategories(id, categories, cs, from);
      }
    }

    // ---- One write, and what it means ----

    /** Replaces a room's highlights by rows with new ids: never refused, and all or nothing. */
    method ReplaceHighlights(id: Id, rows: seq<HighlightedAmenity>, ghost inputs: seq<Highlight>, ghost from: Id) returns (ok: bool)
      requires Ready() && id in r.db.tables.rooms
      requires Identified(rows, inputs, id, from, ids.next)
      requires forall k :: k in r.db.tables.highlighted ==> k < from
      modifies r.db
      ensures Ready()
      ensures var v := old(View(r.db.tables));
        View(r.db.tables) == if ok then v[id := v[id].(highlights := inputs)] else v
      ensures r.db.tables.rooms == old(r.db.tables).rooms && r.db.tables.categories == old(r.db.tables).categories
      ensures r.db.refusals == old(r.db.refusals) && r.db.faults >= old(r.db.faults)
      ensures ok <==> r.db.faults == old(r.db.faults)
    {
      HighlightsWritten(r.db.tables, id, rows, inputs, from, ids.next);
      var err := r.UpsertHighlightedAmenities(id, rows);
      return err.None?;
    }

    method ReplaceCategories(id: Id, rows: seq<AmenityCategory>, ghost inputs: seq<Category>, ghost from: Id) returns (ok: bool)
      requires Ready() && id in r.db.tables.rooms
      requires Identified(rows, inputs, id, from, ids.next)
      requires forall k :: k in r.db.tables.categories ==> k < from
      modifies r.db
      ensures Ready()
      ensures var v := old(View(r.db.tables));
        View(r.db.tables) == if ok then v[id := v[id].(categories := inputs)] else v
      ensures r.db.tables.rooms == old(r.db.tables).rooms && r.db.tables.highlighted == old(r.db.tables).highlighted
      ensures r.db.refusals == old(r.db.refusals) && r.db.faults >= old(r.db.faults)
      ensures ok <==> r.db.faults == old(r.db.faults)
    {
      CategoriesWritten(r.db.tables, id, rows, inputs, from, ids.next);
      var err := r.UpsertAmenityCategories(id, rows);
      return err.None?;
    }

    /** Writes the revised row of a room. */
    method WriteRow(existing: Room, id: Id, ghost req: UpdateRequest, ghost before: Rooms, ghost from: Id)
      returns (ok: bool)
      requires Ready()
      requires ChildIdsBelow(r.db.tables, from)
      requires before == View(r.db.tables) && TakesRow(r.db.tables, id, req, existing.row, from, ids.next)
      modifies r.db`tables, r.db`faults
      ensures Ready() && id in r.db.tables.rooms && ChildIdsBelow(r.db.tables, from)
      ensures View(r.db.tables) == Effect(before, Updated(id, req, if ok then RowWritten else Nothing))
      ensures r.db.refusals == old(r.db.refusals) && r.db.faults >= old(r.db.faults)
      ensures ok <==> r.db.faults == old(r.db.faults)
    {
      ghost var t := r.db.tables;
      var err := r.UpdateRoom(existing);
      ok := err.None?;
      if ok {
        ghost var now: Time :| r.db.tables == PutRow(t, existing.row, now);
      }
    }

    // ---- Reading ----

    method GetRoomByID(id: Id) returns (res: Result<Room, ServiceError>)
      requires Valid()
      modifies r.db`faults
      ensures Valid()
      ensures res.Ok? ==>
        && id in View(r.db.tables)
        && RoomView(Timeless(res.value.row), Infos(res.value.highlighted), Infos(res.value.categories)) == View(r.db.tables)[id]
        && id in r.db.tables.rooms && res.value.row == r.db.tables.rooms[id]
      ensures res.Err? ==> res.error == FetchFailed
      ensures res.Ok? <==> id in View(r.db.tables) && r.db.faults == old(r.db.faults)
    {
      var got := r.GetRoomByID(id);
      if got.Err? {
        return Err(FetchFailed);
      }
      return Ok(got.value);
    }

    method ListRooms(filter: Filter) returns (res: Result<(seq<Room>, nat), ServiceError>)
      requires Valid()
      modifies r.db`faults
      ensures Valid()
      ensures res.Ok? ==>
        var (rooms, total) := res.value;
        && Q.IsFilterPage(RowsOfRooms(rooms), r.db.tables.rooms, filter)
        && (forall i :: 0 <= i < |rooms| ==> rooms[i] == Hydrated(r.db.tables, rooms[i].row))
        && total == |rooms|
        && forall i, j :: 0 <= i < j < |rooms| ==>
             rooms[i].row.coef > rooms[j].row.coef ||
             (rooms[i].row.coef == rooms[j].row.coef && rooms[i].row.price <= rooms[j].row.price)
      ensures res.Err? ==> res.error == FetchFailed
      ensures res.Ok? <==> r.db.faults == old(r.db.faults)
    {
      var got := r.GetRoomsByFilters(filter);
      if got.Err? {
        return Err(FetchFailed);
      }
      return Ok(got.value);
    }

    method CheckAvailability(hotelId: string, roomType: string, name: string) returns (res: Result<Availability, ServiceError>)
      requires Valid()
      modifies r.db`faults
      ensures Valid()
      ensures res.Ok? ==>
        && res.value.count == CountOf(Replay(base, log), hotelId, roomType, name)
        && (res.value.available <==> res.value.count > 0)
        && res.value.count == |set k | k in r.db.tables.rooms && r.db.tables.rooms[k].hotelId == hotelId
                                 && r.db.tables.rooms[k].roomType == roomType && r.db.tables.rooms[k].name == name|
      ensures res.Err? ==> res.error == FetchFailed
      ensures res.Ok? <==> r.db.faults == old(r.db.faults)
    {
      var count := r.CheckAvailabilityByType(hotelId, roomType, name);
      if count.Err? {
        return Err(FetchFailed);
      }
      CountIsViewCount(r.db.tables, hotelId, roomType, name);
      return Ok(Availability(count.value > 0, count.value));
    }

    // ---- Updating ----

    /** A read-modify-write: patches the row, recomputes the derived columns from the lists the
        room will have, then replaces the lists that were given.  `read` is the fault count once
        the room has been read: a failed read is reported as a missing room. */
    method UpdateRoom(id: Id, req: UpdateRequest)
      returns (res: Result<Room, ServiceError>, ghost p: Progress, ghost read: nat)
      requires Valid()
      modifies r.db, ids, this`log
      ensures Valid()
      ensures log == old(log) + [Updated(id, req, p)]
      ensures res.Ok? <==> p == Everything
      ensures res.Ok? ==>
        && id in View(r.db.tables)
        && RoomView(Timeless(ToColumns(res.value.row)), Infos(res.value.highlighted), Infos(res.value.categories)) == View(r.db.tables)[id]
      ensures res.Ok? && req.price > 0.0 ==> res.value.row.price == req.price
      ensures r.db.refusals == old(r.db.refusals)
      ensures old(r.db.faults) <= read <= r.db.faults
      ensures res.Ok? <==> id in old(r.db.tables).rooms && r.db.faults == old(r.db.faults)
      ensures res == Err(NotFound) <==> id !in old(r.db.tables).rooms || read > old(r.db.faults)
      ensures res == Err(UpdateFailed) <==>
        id in old(r.db.tables).rooms && read == old(r.db.faults) && r.db.faults > read
    {
      res, p, read := ApplyUpdate(id, req);
      Record(Updated(id, req, p));
    }

    method ApplyUpdate(id: Id, req: UpdateRequest)
      returns (res: Result<Room, ServiceError>, ghost p: Progress, ghost read: nat)
      requires Ready()
      modifies r.db, ids
      ensures Ready()
      ensures var before := old(View(r.db.tables));
        && (p != Nothing ==> id in before)
        && View(r.db.tables) == Effect(before, Updated(id, req, p))
        && (res.Ok? <==> p == Everything)
        && (res.Ok? ==> RoomView(Timeless(ToColumns(res.value.row)), Infos(res.value.highlighted), Infos(res.value.categories))
                        == UpdateTo(before[id], req, Everything))
      ensures res.Ok? && req.price > 0.0 ==> res.value.row.price == req.price
      ensures r.db.refusals == old(r.db.refusals)
      ensures old(r.db.faults) <= read <= r.db.faults
      ensures res.Ok? <==> id in old(r.db.tables).rooms && r.db.faults == old(r.db.faults)
      ensures res == Err(NotFound) <==> id !in old(r.db.tables).rooms || read > old(r.db.faults)
      ensures res == Err(UpdateFailed) <==>
        id in old(r.db.tables).rooms && read == old(r.db.faults) && r.db.faults > read
    {
      p := Nothing;
      var got := r.GetRoomByID(id);
      read := r.db.faults;
      if got.Err? {
        return Err(NotFound), p, read;
      }
      ghost var before, n0 := View(r.db.tables), ids.next;
      var existing := Revise(got.value, id, req);
      var ok;
      ok, p := WriteRevision(existing, id, req, before, n0);
      RevisedMeaning(before[id], req, existing, got.value.row.updatedAt);
      res := if ok then Ok(existing) else Err(UpdateFailed);
    }

    /** The room as the request wants it: fields patched, given lists rebuilt with new ids, the
        count and the coefficient recomputed. */
    method Revise(room: Room, id: Id, req: UpdateRequest) returns (existing: Room)
      modifies ids
      ensures old(ids.next) <= ids.next
      ensures var v := RoomView(Timeless(room.row), Infos(room.highlighted), Infos(room.categories));
        existing.row == UpdatedRow(v, req).(updatedAt := room.row.updatedAt)
      ensures ListsGiven(existing, id, req, old(ids.next), ids.next)
      ensures req.highlighted.None? ==> existing.highlighted == room.highlighted
      ensures req.categories.None? ==> existing.categories == room.categories
    {
      existing := room;
      var row := Patch(existing.row, req);
      existing := existing.(row := row);
      var now := Now();
      if req.highlighted.Some? {
        var amenities := IdentifyHighlighted(req.highlighted.value, id, now);
        existing := existing.(highlighted := amenities);
      }
      if req.categories.Some? {
        var categories, total := IdentifyCategories(req.categories.value, id, now);
        existing := existing.(categories := categories, row := existing.row.(amenityCount := total));
      }
      var coef := CalculateCoef(existing.highlighted, existing.categories);
      existing := existing.(row := existing.row.(coef := coef));
    }

    /** Writes a revised room: the row, then each list that was given; stops at the first failure. */
    method WriteRevision(existing: Room, id: Id, req: UpdateRequest, ghost before: Rooms, ghost from: Id)
      returns (ok: bool, ghost p: Progress)
      requires Ready()
      requires ChildIdsBelow(r.db.tables, from)
      requires id in r.db.tables.rooms && before == View(r.db.tables)
      requires existing.row == UpdatedRow(before[id], req).(updatedAt := r.db.tables.rooms[id].updatedAt)
      requires ListsGiven(existing, id, req, from, ids.next)
      modifies r.db
      ensures Ready() && View(r.db.tables) == Effect(before, Updated(id, req, p))
      ensures ok <==> p == Everything
      ensures r.db.refusals == old(r.db.refusals) && r.db.faults >= old(r.db.faults)
      ensures ok <==> r.db.faults == old(r.db.faults)
    {
      p := Nothing;
      RevisedRowWritten(r.db.tables, id, req, existing.row, from, ids.next);
      ok := WriteRow(existing, id, req, before, from);
      if ok {
        ok, p := WriteLists(existing, id, req, before, from);
      }
    }

    method WriteLists(existing: Room, id: Id, req: UpdateRequest, ghost before: Rooms, ghost from: Id)
      returns (ok: bool, ghost p: Progress)
      requires Ready() && id in r.db.tables.rooms && id in before
      requires ChildIdsBelow(r.db.tables, from)
      requires View(r.db.tables) == Effect(before, Updated(id, req, RowWritten))
      requires ListsGiven(existing, id, req, from, ids.next)
      modifies r.db
      ensures Ready() && View(r.db.tables) == Effect(before, Updated(id, req, p))
      ensures ok <==> p == Everything
      ensures r.db.refusals == old(r.db.refusals) && r.db.faults >= old(r.db.faults)
      ensures ok <==> r.db.faults == old(r.db.faults)
    {
      ok, p := true, RowWritten;
      if req.highlighted.Some? {
        ok := ReplaceHighlights(id, existing.highlighted, req.highlighted.value, from);
      }
      if ok {
        UpdateReachesHighlights(before, id, req);
        p := HighlightsReplaced;
        if req.categories.Some? {
          ok := ReplaceCategories(id, existing.categories, req.categories.value, from);
        }
        if ok {
          UpdateReachesCategories(before, id, req);
          p := Everything;
        }
      }
    }

    /** Field by field, the request's present values over the row's. */
    method Patch(row: RoomRow, req: UpdateRequest) returns (patched: RoomRow)
      ensures patched == Patched(row, req)
    {
      patched := row;
      if req.name != "" {
        patched := patched.(name := req.name);
      }
      if req.roomType != "" {
        patched := patched.(roomType := req.roomType);
      }
      if req.price > 0.0 {
        patched := patched.(price := req.price);
      }
      if req.capacity > 0 {
        patched := patched.(capacity := req.capacity);
      }
      if req.description != "" {
        patched := patched.(description := req.description);
      }
      if req.spaceInfo != "" {
        patched := patched.(spaceInfo := req.spaceInfo);
      }
      if req.bedDistribution != "" {
        patched := patched.(bedDistribution := req.bedDistribution);
      }
      if req.quantity > 0 {
        patched := patched.(quantity := req.quantity);
      }
    }

    /** Adds to the log what the tables already show. */
    ghost method Record(e: Event)
      requires Ready() && PossibleRun(base, log)
      requires Possible(Replay(base, log), e) && View(r.db.tables) == Effect(Replay(base, log), e)
      modifies this`log
      ensures Valid() && log == old(log) + [e]
    {
      LogExtends(base, log, e);
      log := log + [e];
    }

    // ---- Deleting and quantities ----

    /** Reads the room, then deletes it; `read` is as for `UpdateRoom`. */
    method DeleteRoom(id: Id) returns (err: Option<ServiceError>, ghost read: nat)
      requires Valid()
      modifies r.db`tables, r.db`faults, this`log
      ensures Valid()
      ensures log == old(log) + [Deleted(id, err.None?)]
      ensures r.db.tables.rooms == if err.None? then old(r.db.tables).rooms - {id} else old(r.db.tables).rooms
      ensures r.db.refusals == old(r.db.refusals)
      ensures err.None? <==> id in old(r.db.tables).rooms && r.db.faults == old(r.db.faults)
      ensures old(r.db.faults) <= read <= r.db.faults
      ensures err == Some(NotFound) <==> id !in old(r.db.tables).rooms || read > old(r.db.faults)
      ensures err == Some(DeleteFailed) <==>
        id in old(r.db.tables).rooms && read == old(r.db.faults) && r.db.faults > read
    {
      ghost var t := r.db.tables;
      var got := r.GetRoomByID(id);
      read := r.db.faults;
      if got.Err? {
        Record(Deleted(id, false));
        return Some(NotFound), read;
      }
      var failed := r.DeleteRoom(id);
      if failed.Some? {
        Record(Deleted(id, false));
        return Some(DeleteFailed), read;
      }
      ViewAfterDelete(t, id);
      Record(Deleted(id, true));
      return None, read;
    }

    method UpdateRoomQuantity(hotelId: string, roomType: string, name: string, quantity: int) returns (err: Option<ServiceError>)
      requires Valid()
      modifies r.db`tables, r.db`faults, this`log
      ensures Valid()
      ensures log == old(log) + [QuantitySet(hotelId, roomType, name, quantity, err.None?)]
      ensures err.None? ==> r.db.tables.rooms.Keys == old(r.db.tables).rooms.Keys
      ensures err.None? ==> forall k :: k in r.db.tables.rooms ==>
        var row, was := r.db.tables.rooms[k], old(r.db.tables).rooms[k];
        row == if was.hotelId == hotelId && was.roomType == roomType && was.name == name
               then was.(quantity := quantity, updatedAt := row.updatedAt) else was
      ensures err.Some? ==> err == Some(UpdateFailed) && r.db.tables == old(r.db.tables)
      ensures r.db.refusals == old(r.db.refusals)
      ensures err.None? <==> r.db.faults == old(r.db.faults)
    {
      ghost var t := r.db.tables;
      var failed := r.UpdateRoomQuantity(hotelId, roomType, name, quantity);
      if failed.Some? {
        Record(QuantitySet(hotelId, roomType, name, quantity, false));
        return Some(UpdateFailed);
      }
      ghost var now: Time :| r.db.tables == PutQuantities(t, hotelId, roomType, name, quantity, now);
      ViewAfterQuantities(t, hotelId, roomType, name, quantity, now);
      Record(QuantitySet(hotelId, roomType, name, quantity, true));
      return None;
    }
  }
}
