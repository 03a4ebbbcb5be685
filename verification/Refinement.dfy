/** What each committed write does to the meaning of the tables. */
module Refinement {
  import opened Models
  import opened Tables
  import opened Database
  import opened RoomView

  lemma ViewAfterRow(t: Tables, row: RoomRow)
    requires row.id in t.rooms
    ensures View(t.(rooms := t.rooms[row.id := row])) == View(t)[row.id := View(t)[row.id].(row := Timeless(row))]
  {
  }

  lemma UpdatedAt(m: Rooms, n: Rooms, id: Id, v: RoomView)
    requires m.Keys == n.Keys && id in m
    requires forall x :: x in m ==> n[x] == if x == id then v else m[x]
    ensures n == m[id := v]
  {
  }

  lemma RoomAfterHighlights(t: Tables, id: Id, rows: seq<HighlightedAmenity>, x: Id)
    requires x in t.rooms && Insertable(t.highlighted, t.rooms, id, rows)
    requires forall i, j :: 0 <= i < j < |rows| ==> rows[i].id < rows[j].id
    ensures var v := ViewOf(t, x);
      ViewOf(PutHighlights(t, id, rows), x) == if x == id then v.(highlights := Infos(rows)) else v
  {
    ReplaceThenRead(t.highlighted, t.rooms, id, rows, x);
    assert Infos(Rehomed(rows, id)) == Infos(rows);
  }

  lemma ViewAfterHighlights(t: Tables, id: Id, rows: seq<HighlightedAmenity>)
    requires id in t.rooms && Insertable(t.highlighted, t.rooms, id, rows)
    requires forall i, j :: 0 <= i < j < |rows| ==> rows[i].id < rows[j].id
    ensures View(PutHighlights(t, id, rows)) ==
            View(t)[id := View(t)[id].(highlights := Infos(rows))]
  {
    var m, n := View(t), View(PutHighlights(t, id, rows));
    forall x | x in m ensures n[x] == if x == id then m[id].(highlights := Infos(rows)) else m[x] {
      RoomAfterHighlights(t, id, rows, x);
    }
    UpdatedAt(m, n, id, m[id].(highlights := Infos(rows)));
  }

  lemma RoomAfterCategories(t: Tables, id: Id, rows: seq<AmenityCategory>, x: Id)
    requires x in t.rooms && Insertable(t.categories, t.rooms, id, rows)
    requires forall i, j :: 0 <= i < j < |rows| ==> rows[i].id < rows[j].id
    ensures var v := ViewOf(t, x);
      ViewOf(PutCategories(t, id, rows), x) == if x == id then v.(categories := Infos(rows)) else v
  {
    ReplaceThenRead(t.categories, t.rooms, id, rows, x);
    assert Infos(Rehomed(rows, id)) == Infos(rows);
  }

  lemma ViewAfterCategories(t: Tables, id: Id, rows: seq<AmenityCategory>)
    requires id in t.rooms && Insertable(t.categories, t.rooms, id, rows)
    requires forall i, j :: 0 <= i < j < |rows| ==> rows[i].id < rows[j].id
    ensures View(PutCategories(t, id, rows)) ==
            View(t)[id := View(t)[id].(categories := Infos(rows))]
  {
    var m, n := View(t), View(PutCategories(t, id, rows));
    forall x | x in m ensures n[x] == if x == id then m[id].(categories := Infos(rows)) else m[x] {
      RoomAfterCategories(t, id, rows, x);
    }
    UpdatedAt(m, n, id, m[id].(categories := Infos(rows)));
  }

  /** Deleting a room takes its children and nothing else. */
  lemma ViewAfterDelete(t: Tables, id: Id)
    ensures View(WithoutRoom(t, id)) == View(t) - {id}
  {
    var u := WithoutRoom(t, id);
    forall x | x in u.rooms ensures View(u)[x] == View(t)[x] {
      ChildrenAgree(t.highlighted, u.highlighted, x);
      ChildrenAgree(t.categories, u.categories, x);
    }
  }

  lemma NoChildren<P>(t: ChildTable<P>, id: Id)
    requires forall k :: k in t ==> t[k].roomId != id
    ensures ChildrenOf(t, id) == []
  {
    ScanIs([], t, {id});
  }

  lemma ViewAfterOneInsert(t: Tables, row: RoomRow)
    requires References(t) && row.id !in t.rooms
    ensures View(t.(rooms := t.rooms[row.id := row])) == View(t)[row.id := RoomView(Timeless(row), [], [])]
  {
    NoChildrenAnywhere(t, row.id);
  }

  /** Freshly inserted rooms have no children. */
  lemma {:induction false} ViewAfterInsert(t: Tables, rooms: seq<Room>)
    requires References(t) && AllNew(t.rooms, rooms)
    ensures View(PutRooms(t, rooms)) == WithAll(View(t), RoomIds(rooms), BareViews(rooms))
  {
    if rooms == [] {
      assert t.(rooms := t.rooms) == t;
    } else {
      ViewAfterInsert(t, rooms[..|rooms| - 1]);
      LastInsert(t, rooms);
      BareViewsSplit(View(t), rooms);
    }
  }

  lemma LastInsert(t: Tables, rooms: seq<Room>)
    requires References(t) && rooms != [] && AllNew(t.rooms, rooms)
    ensures var front, row := rooms[..|rooms| - 1], ToColumns(rooms[|rooms| - 1].row);
      View(PutRooms(t, rooms)) ==
      View(PutRooms(t, front))[row.id := RoomView(Timeless(row), [], [])]
  {
    var front, row := rooms[..|rooms| - 1], ToColumns(rooms[|rooms| - 1].row);
    WithRoomsKeys(t.rooms, front, row.id);
    ReferencesAfterInsert(t, front);
    ViewAfterOneInsert(PutRooms(t, front), row);
  }

  lemma ReferencesAfterInsert(t: Tables, rooms: seq<Room>)
    requires References(t)
    ensures References(PutRooms(t, rooms))
  {
    forall x | x in t.rooms ensures x in WithRooms(t.rooms, rooms) {
      WithRoomsKeys(t.rooms, rooms, x);
    }
  }

  lemma BareViewsSplit(m: Rooms, rooms: seq<Room>)
    requires rooms != []
    ensures var n := |rooms| - 1;
      WithAll(m, RoomIds(rooms), BareViews(rooms)) ==
      WithAll(m, RoomIds(rooms[..n]), BareViews(rooms[..n]))[rooms[n].row.id := RoomView(Timeless(ToColumns(rooms[n].row)), [], [])]
  {
    var n := |rooms| - 1;
    assert RoomIds(rooms)[..n] == RoomIds(rooms[..n]);
    assert BareViews(rooms)[..n] == BareViews(rooms[..n]);
  }

  lemma NoChildrenAnywhere(t: Tables, id: Id)
    requires References(t) && id !in t.rooms
    ensures ChildrenOf(t.highlighted, id) == [] && ChildrenOf(t.categories, id) == []
  {
    NoChildren(t.highlighted, id);
    NoChildren(t.categories, id);
  }

  function BareViews(rooms: seq<Room>): (vs: seq<RoomView>)
    ensures |vs| == |rooms|
    ensures forall i :: 0 <= i < |rooms| ==> vs[i] == RoomView(Timeless(ToColumns(rooms[i].row)), [], [])
  {
    seq(|rooms|, i requires 0 <= i < |rooms| => RoomView(Timeless(ToColumns(rooms[i].row)), [], []))
  }

  lemma ViewAfterQuantities(t: Tables, hotelId: string, roomType: string, name: string, quantity: int, now: Time)
    ensures View(PutQuantities(t, hotelId, roomType, name, quantity, now)) ==
            WithQuantitiesSet(View(t), hotelId, roomType, name, quantity)
  {
    var m, n := View(t), View(PutQuantities(t, hotelId, roomType, name, quantity, now));
    var w := WithQuantitiesSet(m, hotelId, roomType, name, quantity);
    forall x | x in m ensures n[x] == w[x] {
      RoomAfterQuantities(t, hotelId, roomType, name, quantity, now, x);
    }
    SameEverywhere(n, w);
  }

  lemma SameEverywhere(m: Rooms, n: Rooms)
    requires m.Keys == n.Keys && forall x :: x in m ==> m[x] == n[x]
    ensures m == n
  {
  }

  lemma RoomAfterQuantities(t: Tables, hotelId: string, roomType: string, name: string, quantity: int, now: Time, x: Id)
    requires x in t.rooms
    ensures var v := ViewOf(t, x);
      ViewOf(PutQuantities(t, hotelId, roomType, name, quantity, now), x) ==
      if HasKey(v.row, hotelId, roomType, name) then WithQuantity(v, quantity) else v
  {
    assert HasKey(ViewOf(t, x).row, hotelId, roomType, name) <==> HasKey(t.rooms[x], hotelId, roomType, name);
  }

  /** Counting rows is counting rooms of the view. */
  lemma CountIsViewCount(t: Tables, hotelId: string, roomType: string, name: string)
    ensures |set k | k in t.rooms && t.rooms[k].hotelId == hotelId && t.rooms[k].roomType == roomType && t.rooms[k].name == name|
            == CountOf(View(t), hotelId, roomType, name)
  {
    assert (set k | k in t.rooms && t.rooms[k].hotelId == hotelId && t.rooms[k].roomType == roomType && t.rooms[k].name == name)
      == KeyedRooms(View(t), hotelId, roomType, name);
  }

  // ---- A create, write by write ----

  lemma NoCopyFilledYet(rooms: Rooms, e: Event, created: seq<Room>)
    requires e.Created? && e.added && e.filled == 0 && !e.half && |created| == |e.ids|
    requires forall i :: 0 <= i < |created| ==> created[i].row == NewRow(e.req, e.hotelId, e.now, e.ids[i])
    ensures Effect(rooms, e) == WithAll(rooms, RoomIds(created), BareViews(created))
  {
    assert RoomIds(created) == e.ids;
    assert Copies(e) == BareViews(created);
  }

  /** A create with its copies added, the first `filled` complete and the next one half-way. */
  function FilledTo(e: Event, filled: nat, half: bool): Event
    requires e.Created?
  {
    e.(filled := filled, half := half)
  }

  lemma ProgressIsPossible(rooms: Rooms, e: Event, filled: nat, half: bool)
    requires e.Created? && e.added && Possible(rooms, e) && filled <= |e.ids| && (half ==> filled < |e.ids|)
    ensures Possible(rooms, FilledTo(e, filled, half))
  {
  }

  /** The next copy gets its highlights. */
  lemma HighlightsFilled(rooms: Rooms, e: Event, i: nat)
    requires e.Created? && e.added && Possible(rooms, e) && i < |e.ids|
    ensures var id, r := e.ids[i], Effect(rooms, FilledTo(e, i, false));
      id in r && r[id := r[id].(highlights := e.req.highlighted)] == Effect(rooms, FilledTo(e, i, true))
  {
    ProgressIsPossible(rooms, e, i, false);
    ProgressIsPossible(rooms, e, i, true);
    CreatedContents(rooms, FilledTo(e, i, false));
    CreatedContents(rooms, FilledTo(e, i, true));
  }

  /** The next copy gets both its lists. */
  lemma CopyFilled(rooms: Rooms, e: Event, i: nat)
    requires e.Created? && e.added && Possible(rooms, e) && i < |e.ids|
    ensures var id, r := e.ids[i], Effect(rooms, FilledTo(e, i, false));
      && id in r
      && r[id := r[id].(highlights := e.req.highlighted, categories := e.req.categories)] ==
         Effect(rooms, FilledTo(e, i + 1, false))
  {
    ProgressIsPossible(rooms, e, i, false);
    ProgressIsPossible(rooms, e, i + 1, false);
    CreatedContents(rooms, FilledTo(e, i, false));
    CreatedContents(rooms, FilledTo(e, i + 1, false));
  }
}
