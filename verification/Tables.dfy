/** The three tables as values: keyed maps, ordered scans, and replacing a room's child rows. */
module Tables {
  import opened Models
  import Coefficient

  /** A table keyed by its primary key. */
  type ChildTable<P> = t: map<Id, Child<P>> | forall k :: k in t ==> t[k].id == k witness map[]

  type RoomTable = t: map<Id, RoomRow> | forall k :: k in t ==> t[k].id == k witness map[]

  datatype Tables = Tables(rooms: RoomTable, highlighted: ChildTable<Highlight>, categories: ChildTable<Category>)

  const EMPTY := Tables(map[], map[], map[])

  // ---- Column types ----

  /** Nearest whole number, halves away from zero, as NUMERIC columns round. */
  function Nearest(x: real): int {
    if x >= 0.0 then (x + 0.5).Floor else -((-x + 0.5).Floor)
  }

  /** DECIMAL(10,2), for values in range. */
  function Decimal2(x: real): real {
    Nearest(x * 100.0) as real / 100.0
  }

  /** DECIMAL(10,4), for values in range. */
  function Decimal4(x: real): real {
    Nearest(x * 10000.0) as real / 10000.0
  }

  /** What the `rooms` table keeps of a row. */
  function ToColumns(row: RoomRow): RoomRow {
    row.(price := Decimal2(row.price), coef := Decimal4(row.coef))
  }

  lemma NearestOfWhole(x: real, k: int)
    requires x == k as real
    ensures Nearest(x) == k
  {
  }

  /** A stored price is a whole number of cents, at most half a cent away, and further from zero
      when two are equally near; storing it again changes nothing. */
  lemma Decimal2Properties(x: real)
    ensures Decimal2(x) * 100.0 == (Decimal2(x) * 100.0).Floor as real
    ensures -0.005 <= Decimal2(x) - x <= 0.005
    ensures Decimal2(x) - x == 0.005 ==> x > 0.0
    ensures Decimal2(x) - x == -0.005 ==> x < 0.0
    ensures Decimal2(Decimal2(x)) == Decimal2(x)
  {
    NearestOfWhole(Decimal2(x) * 100.0, Nearest(x * 100.0));
  }

  /** An amount in whole cents is stored as it is. */
  lemma CentsAreKept(x: real, k: int)
    requires x * 100.0 == k as real
    ensures Decimal2(x) == x
  {
    NearestOfWhole(x * 100.0, k);
  }

  /** DECIMAL(10,4) is the nearest whole number of ten-thousandths. */
  lemma Decimal4Properties(x: real)
    ensures Decimal4(x) * 10000.0 == (Decimal4(x) * 10000.0).Floor as real
    ensures -0.00005 <= Decimal4(x) - x <= 0.00005
  {
  }

  /** DECIMAL(10,4) keeps a whole number of hundredths as it is. */
  lemma Decimal4IsExact(x: real)
    requires Coefficient.Whole(100.0 * x)
    ensures Decimal4(x) == x
  {
    var k := (100.0 * x).Floor;
    assert x * 10000.0 == (100 * k) as real;
    NearestOfWhole(x * 10000.0, 100 * k);
  }

  /** The stored coefficient is the computed one. */
  lemma CoefFitsColumn(hs: seq<Highlight>, cs: seq<Category>)
    ensures Decimal4(Coefficient.Coef(hs, cs)) == Coefficient.Coef(hs, cs)
  {
    Coefficient.CoefIsWholeHundredths(hs, cs);
    Decimal4IsExact(Coefficient.Coef(hs, cs));
  }

  // ---- Ordered scans ----

  /** ORDER BY room_id, id ASC */
  predicate Precedes<P>(a: Child<P>, b: Child<P>) {
    a.roomId < b.roomId || (a.roomId == b.roomId && a.id < b.id)
  }

  ghost predicate InOrder<P>(rows: seq<Child<P>>) {
    forall i, j :: 0 <= i < j < |rows| ==> Precedes(rows[i], rows[j])
  }

  /** SELECT ... WHERE room_id IN roomIds ORDER BY room_id, id ASC */
  ghost predicate IsScan<P>(rows: seq<Child<P>>, t: ChildTable<P>, roomIds: set<Id>) {
    && InOrder(rows)
    && (forall i :: 0 <= i < |rows| ==> rows[i].id in t && t[rows[i].id] == rows[i] && rows[i].roomId in roomIds)
    && (forall k :: k in t && t[k].roomId in roomIds ==> t[k] in rows)
  }

  function KeysIn<P>(t: ChildTable<P>, roomIds: set<Id>): set<Id> {
    set k | k in t && t[k].roomId in roomIds
  }

  predicate IsLast<P>(t: ChildTable<P>, keys: set<Id>, m: Id)
    requires keys <= t.Keys
  {
    m in keys && forall k | k in keys :: k == m || Precedes(t[k], t[m])
  }

  lemma {:induction false} SomeKeyIsLast<P>(t: ChildTable<P>, keys: set<Id>)
    requires keys != {} && keys <= t.Keys
    ensures exists m :: IsLast(t, keys, m)
    decreases |keys|
  {
    var k :| k in keys;
    if keys == {k} {
      assert IsLast(t, keys, k);
    } else {
      SomeKeyIsLast(t, keys - {k});
      var n :| IsLast(t, keys - {k}, n);
      assert IsLast(t, keys, if Precedes(t[k], t[n]) then n else k);
    }
  }

  /** The rows with these keys, in order. */
  function Sorted<P>(t: ChildTable<P>, keys: set<Id>): seq<Child<P>>
    requires keys <= t.Keys
    decreases |keys|
  {
    if keys == {} then []
    else
      SomeKeyIsLast(t, keys);
      var m :| m in keys && IsLast(t, keys, m);
      Sorted(t, keys - {m}) + [t[m]]
  }

  lemma {:induction false} SortedIsOrdered<P>(t: ChildTable<P>, keys: set<Id>)
    requires keys <= t.Keys
    ensures InOrder(Sorted(t, keys))
    ensures forall i :: 0 <= i < |Sorted(t, keys)| ==>
      Sorted(t, keys)[i].id in keys && t[Sorted(t, keys)[i].id] == Sorted(t, keys)[i]
    ensures forall k :: k in keys ==> t[k] in Sorted(t, keys)
    decreases |keys|
  {
    if keys != {} {
      var rows := Sorted(t, keys);
      var m, front := rows[|rows| - 1].id, rows[..|rows| - 1];
      SortedIsOrdered(t, keys - {m});
      assert front == Sorted(t, keys - {m});
      assert rows == front + [t[m]];
      forall k | k in keys ensures t[k] in rows {
        if k != m {
          assert t[k] in front;
        }
      }
    }
  }

  lemma SortedIsScan<P>(t: ChildTable<P>, roomIds: set<Id>)
    ensures IsScan(Sorted(t, KeysIn(t, roomIds)), t, roomIds)
  {
    SortedIsOrdered(t, KeysIn(t, roomIds));
  }

  /** The rows of a scan; `ScanIsUnique` says that there is only one way to list them. */
  ghost function Scan<P>(t: ChildTable<P>, roomIds: set<Id>): seq<Child<P>> {
    SortedIsScan(t, roomIds);
    var rows :| IsScan(rows, t, roomIds);
    rows
  }

  lemma ScanIsScan<P>(t: ChildTable<P>, roomIds: set<Id>)
    ensures IsScan(Scan(t, roomIds), t, roomIds)
  {
    SortedIsScan(t, roomIds);
  }

  /** A room's child rows, in id order. */
  ghost function ChildrenOf<P>(t: ChildTable<P>, roomId: Id): seq<Child<P>> {
    Scan(t, {roomId})
  }

  /** A room's children are its rows and no others, each once, by ascending id. */
  lemma ChildrenOfIsExact<P>(t: ChildTable<P>, roomId: Id)
    ensures var rows := ChildrenOf(t, roomId);
      && (forall i :: 0 <= i < |rows| ==> rows[i].id in t && t[rows[i].id] == rows[i] && rows[i].roomId == roomId)
      && (forall k :: k in t && t[k].roomId == roomId ==> t[k] in rows)
      && (forall i, j :: 0 <= i < j < |rows| ==> rows[i].id < rows[j].id)
  {
    ScanIsScan(t, {roomId});
    var rows := ChildrenOf(t, roomId);
    forall i, j | 0 <= i < j < |rows| ensures rows[i].id < rows[j].id {
      assert Precedes(rows[i], rows[j]) && rows[i].roomId == rows[j].roomId;
    }
  }

  /** A scan is determined by the table and the room ids. */
  lemma {:induction false} ScanIsUnique<P>(a: seq<Child<P>>, b: seq<Child<P>>)
    requires InOrder(a) && InOrder(b)
    requires forall i :: 0 <= i < |a| ==> a[i] in b
    requires forall i :: 0 <= i < |b| ==> b[i] in a
    ensures a == b
  {
    if a != [] {
      var x := a[|a| - 1];
      assert x in b;
      var y := b[|b| - 1];
      assert y in a;
      assert x == y;
      var a', b' := a[..|a| - 1], b[..|b| - 1];
      forall i | 0 <= i < |a'| ensures a'[i] in b' {
        assert a[i] in b && a[i] != x;
      }
      forall i | 0 <= i < |b'| ensures b'[i] in a' {
        assert b[i] in a && b[i] != x;
      }
      ScanIsUnique(a', b');
      assert a == a' + [x] && b == b' + [x];
    }
  }

  lemma ScanIs<P>(rows: seq<Child<P>>, t: ChildTable<P>, roomIds: set<Id>)
    requires IsScan(rows, t, roomIds)
    ensures rows == Scan(t, roomIds)
  {
    ScanIsScan(t, roomIds);
    ScanIsUnique(rows, Scan(t, roomIds));
  }

  /** Tables that hold the same rows for a room list the same children for it. */
  lemma ChildrenAgree<P>(t: ChildTable<P>, t': ChildTable<P>, roomId: Id)
    requires forall k :: k in t && t[k].roomId == roomId ==> k in t' && t'[k] == t[k]
    requires forall k :: k in t' && t'[k].roomId == roomId ==> k in t && t[k] == t'[k]
    ensures ChildrenOf(t', roomId) == ChildrenOf(t, roomId)
  {
    ScanIsScan(t', {roomId});
    ScanIs(ChildrenOf(t', roomId), t, {roomId});
  }

  // ---- Adding rows ----

  ghost predicate Distinct(ids: seq<Id>) {
    forall i, j :: 0 <= i < j < |ids| ==> ids[i] != ids[j]
  }

  ghost predicate AscendingIds(ids: seq<Id>) {
    forall i, j :: 0 <= i < j < |ids| ==> ids[i] < ids[j]
  }

  /** The entries added one by one. */
  function WithAll<V>(m: map<Id, V>, ids: seq<Id>, vs: seq<V>): map<Id, V>
    requires |ids| == |vs|
  {
    if ids == [] then m
    else
      var n := |ids| - 1;
      WithAll(m, ids[..n], vs[..n])[ids[n] := vs[n]]
  }

  lemma {:induction false} WithAllContents<V>(m: map<Id, V>, ids: seq<Id>, vs: seq<V>)
    requires |ids| == |vs| && Distinct(ids)
    ensures var r := WithAll(m, ids, vs);
      && (forall i :: 0 <= i < |ids| ==> ids[i] in r && r[ids[i]] == vs[i])
      && (forall k :: k in r <==> k in m || k in ids)
      && (forall k :: k in m && k !in ids ==> r[k] == m[k])
  {
    if ids != [] {
      var n := |ids| - 1;
      WithAllContents(m, ids[..n], vs[..n]);
      assert ids == ids[..n] + [ids[n]];
    }
  }

  /** INSERT INTO rooms, one by one. */
  function WithRooms(t: RoomTable, rooms: seq<Room>): RoomTable {
    if rooms == [] then t
    else
      var last := rooms[|rooms| - 1].row;
      WithRooms(t, rooms[..|rooms| - 1])[last.id := ToColumns(last)]
  }

  /** The tables after the rooms were inserted. */
  function PutRooms(t: Tables, rooms: seq<Room>): Tables {
    t.(rooms := WithRooms(t.rooms, rooms))
  }

  function RoomIds(rooms: seq<Room>): (ids: seq<Id>)
    ensures |ids| == |rooms| && forall i :: 0 <= i < |rooms| ==> ids[i] == rooms[i].row.id
  {
    seq(|rooms|, i requires 0 <= i < |rooms| => rooms[i].row.id)
  }

  function StoredRows(rooms: seq<Room>): (rows: seq<RoomRow>)
    ensures |rows| == |rooms| && forall i :: 0 <= i < |rooms| ==> rows[i] == ToColumns(rooms[i].row)
  {
    seq(|rooms|, i requires 0 <= i < |rooms| => ToColumns(rooms[i].row))
  }

  lemma {:induction false} WithRoomsAddsAll(t: RoomTable, rooms: seq<Room>)
    ensures WithRooms(t, rooms) == WithAll(t, RoomIds(rooms), StoredRows(rooms))
  {
    if rooms != [] {
      var n := |rooms| - 1;
      WithRoomsAddsAll(t, rooms[..n]);
      assert RoomIds(rooms)[..n] == RoomIds(rooms[..n]);
      assert StoredRows(rooms)[..n] == StoredRows(rooms[..n]);
    }
  }

  /** Inserted rows are stored column by column, the price in cents; the rows before stay. */
  lemma InsertedRows(t: RoomTable, rooms: seq<Room>)
    requires AllNew(t, rooms)
    ensures var u := WithRooms(t, rooms);
      && (forall k :: k in t ==> k in u && u[k] == t[k])
      && (forall k :: k in u && k !in t ==> exists i :: 0 <= i < |rooms| && rooms[i].row.id == k)
      && (forall i :: 0 <= i < |rooms| ==>
           var row := rooms[i].row;
           row.id in u && u[row.id] == row.(price := Decimal2(row.price), coef := Decimal4(row.coef)))
  {
    var ids, rows := RoomIds(rooms), StoredRows(rooms);
    WithRoomsAddsAll(t, rooms);
    WithAllContents(t, ids, rows);
    forall i | 0 <= i < |rooms|
      ensures var row := rooms[i].row;
        rooms[i].row.id in WithRooms(t, rooms) &&
        WithRooms(t, rooms)[row.id] == row.(price := Decimal2(row.price), coef := Decimal4(row.coef))
    {
      assert ids[i] in WithAll(t, ids, rows);
    }
    forall k | k in WithRooms(t, rooms) && k !in t ensures exists i :: 0 <= i < |rooms| && rooms[i].row.id == k {
      var i :| 0 <= i < |ids| && ids[i] == k;
      assert rooms[i].row.id == k;
    }
    forall k | k in t ensures k in WithRooms(t, rooms) && WithRooms(t, rooms)[k] == t[k] {
      assert k !in ids;
    }
  }

  ghost predicate HasRoomId(rooms: seq<Room>, k: Id) {
    exists i :: 0 <= i < |rooms| && rooms[i].row.id == k
  }

  lemma {:induction false} WithRoomsKeys(t: RoomTable, rooms: seq<Room>, k: Id)
    ensures k in WithRooms(t, rooms) <==> k in t || HasRoomId(rooms, k)
  {
    if rooms != [] {
      var front, last := rooms[..|rooms| - 1], rooms[|rooms| - 1];
      WithRoomsKeys(t, front, k);
      assert HasRoomId(rooms, k) <==> HasRoomId(front, k) || last.row.id == k by {
        assert last.row.id == k ==> rooms[|rooms| - 1].row.id == k;
        assert forall i :: 0 <= i < |front| ==> front[i] == rooms[i];
      }
    }
  }

  /** The rooms are new to the table and to each other. */
  ghost predicate AllNew(t: RoomTable, rooms: seq<Room>) {
    && (forall i, j :: 0 <= i < j < |rooms| ==> rooms[i].row.id != rooms[j].row.id)
    && (forall i :: 0 <= i < |rooms| ==> rooms[i].row.id !in t)
  }

  /** Whether the next insertion goes through is whether the rooms are new so far. */
  lemma NextRoomIsNew(t: RoomTable, rooms: seq<Room>, i: nat)
    requires i < |rooms| && AllNew(t, rooms[..i])
    ensures rooms[i].row.id !in WithRooms(t, rooms[..i]) <==> AllNew(t, rooms[..i + 1])
    ensures AllNew(t, rooms) ==> AllNew(t, rooms[..i + 1])
  {
    var front, upTo := rooms[..i], rooms[..i + 1];
    WithRoomsKeys(t, front, rooms[i].row.id);
    assert upTo[i] == rooms[i];
    assert forall j :: 0 <= j < i ==> upTo[j] == front[j];
    assert HasRoomId(front, rooms[i].row.id) <==> exists j :: 0 <= j < i && upTo[j].row.id == upTo[i].row.id by {
      assert forall j :: 0 <= j < i ==> front[j].row.id == upTo[j].row.id;
    }
  }

  // ---- Replacing a room's child rows ----

  /** DELETE ... WHERE room_id = roomId */
  function Without<P>(t: ChildTable<P>, roomId: Id): ChildTable<P> {
    map k | k in t && t[k].roomId != roomId :: t[k]
  }

  /** The rows inserted one by one under `roomId`. */
  function WithRows<P>(t: ChildTable<P>, roomId: Id, rows: seq<Child<P>>): ChildTable<P> {
    if rows == [] then t
    else
      var last := rows[|rows| - 1];
      WithRows(t, roomId, rows[..|rows| - 1])[last.id := last.(roomId := roomId)]
  }

  function ReplaceRows<P>(t: ChildTable<P>, roomId: Id, rows: seq<Child<P>>): ChildTable<P> {
    WithRows(Without(t, roomId), roomId, rows)
  }

  /** The tables after a room's highlighted amenities were replaced. */
  function PutHighlights(t: Tables, roomId: Id, rows: seq<HighlightedAmenity>): Tables {
    t.(highlighted := ReplaceRows(t.highlighted, roomId, rows))
  }

  function PutCategories(t: Tables, roomId: Id, rows: seq<AmenityCategory>): Tables {
    t.(categories := ReplaceRows(t.categories, roomId, rows))
  }

  ghost predicate DistinctIds<P>(rows: seq<Child<P>>) {
    forall i, j :: 0 <= i < j < |rows| ==> rows[i].id != rows[j].id
  }

  /** No row of the list would break a primary key, and the room they refer to exists. */
  ghost predicate Insertable<P>(t: ChildTable<P>, rooms: RoomTable, roomId: Id, rows: seq<Child<P>>) {
    && (rows != [] ==> roomId in rooms)
    && DistinctIds(rows)
    && (forall i :: 0 <= i < |rows| ==> rows[i].id !in t || t[rows[i].id].roomId == roomId)
  }

  function Rehomed<P>(rows: seq<Child<P>>, roomId: Id): (r: seq<Child<P>>)
    ensures |r| == |rows| && forall i :: 0 <= i < |rows| ==> r[i] == rows[i].(roomId := roomId)
  {
    seq(|rows|, i requires 0 <= i < |rows| => rows[i].(roomId := roomId))
  }

  ghost predicate HasId<P>(rows: seq<Child<P>>, k: Id) {
    exists i :: 0 <= i < |rows| && rows[i].id == k
  }

  lemma {:induction false} WithRowsElsewhere<P>(t: ChildTable<P>, roomId: Id, rows: seq<Child<P>>, k: Id)
    ensures var u := WithRows(t, roomId, rows);
      && (k in u <==> k in t || HasId(rows, k))
      && (k in t && !HasId(rows, k) ==> u[k] == t[k])
  {
    if rows != [] {
      var front, last := rows[..|rows| - 1], rows[|rows| - 1];
      WithRowsElsewhere(t, roomId, front, k);
      assert HasId(rows, k) <==> HasId(front, k) || last.id == k by {
        assert last.id == k ==> rows[|rows| - 1].id == k;
        assert forall i :: 0 <= i < |front| ==> front[i] == rows[i];
      }
    }
  }

  lemma {:induction false} WithRowsThere<P>(t: ChildTable<P>, roomId: Id, rows: seq<Child<P>>, i: nat)
    requires DistinctIds(rows) && i < |rows|
    ensures var u := WithRows(t, roomId, rows);
      rows[i].id in u && u[rows[i].id] == rows[i].(roomId := roomId)
  {
    if i < |rows| - 1 {
      WithRowsThere(t, roomId, rows[..|rows| - 1], i);
    }
  }

  /** Whether the next insertion of a replace-all goes through is whether the list is insertable so far. */
  lemma NextInsertion<P>(t: ChildTable<P>, rooms: RoomTable, roomId: Id, rows: seq<Child<P>>, i: nat)
    requires i < |rows| && Insertable(t, rooms, roomId, rows[..i])
    ensures roomId in rooms && rows[i].id !in ReplaceRows(t, roomId, rows[..i]) <==>
            Insertable(t, rooms, roomId, rows[..i + 1])
    ensures Insertable(t, rooms, roomId, rows) ==> Insertable(t, rooms, roomId, rows[..i + 1])
  {
    var front, upTo := rows[..i], rows[..i + 1];
    WithRowsElsewhere(Without(t, roomId), roomId, front, rows[i].id);
    assert upTo[i] == rows[i];
    assert forall j :: 0 <= j < i ==> upTo[j] == front[j];
    assert HasId(front, rows[i].id) <==> exists j :: 0 <= j < i && upTo[j].id == upTo[i].id by {
      assert forall j :: 0 <= j < i ==> front[j].id == upTo[j].id;
    }
  }

  /** After a replace-all, the room has exactly the given rows and every other room's rows are
      as they were. */
  lemma ReplaceRowsIsExact<P>(t: ChildTable<P>, rooms: RoomTable, roomId: Id, rows: seq<Child<P>>)
    requires Insertable(t, rooms, roomId, rows)
    ensures var u := ReplaceRows(t, roomId, rows);
      && (forall k :: k in u && u[k].roomId == roomId <==> HasId(rows, k))
      && (forall i :: 0 <= i < |rows| ==> rows[i].id in u && u[rows[i].id] == rows[i].(roomId := roomId))
      && (forall k :: k in t && t[k].roomId != roomId ==> k in u && u[k] == t[k])
      && (forall k :: k in u && u[k].roomId != roomId ==> k in t && t[k] == u[k])
  {
    var base := Without(t, roomId);
    var u := ReplaceRows(t, roomId, rows);
    forall i | 0 <= i < |rows| ensures rows[i].id in u && u[rows[i].id] == rows[i].(roomId := roomId) {
      WithRowsThere(base, roomId, rows, i);
    }
    forall k
      ensures k in u <==> k in base || HasId(rows, k)
      ensures k in base ==> !HasId(rows, k) && u[k] == t[k]
    {
      WithRowsElsewhere(base, roomId, rows, k);
    }
  }

  /** Reading a replaced list back gives the rows in the order given, when their ids ascend. */
  lemma ReplaceThenRead<P>(t: ChildTable<P>, rooms: RoomTable, roomId: Id, rows: seq<Child<P>>, other: Id)
    requires Insertable(t, rooms, roomId, rows)
    requires forall i, j :: 0 <= i < j < |rows| ==> rows[i].id < rows[j].id
    ensures var u := ReplaceRows(t, roomId, rows);
      ChildrenOf(u, other) == if other == roomId then Rehomed(rows, roomId) else ChildrenOf(t, other)
  {
    var u := ReplaceRows(t, roomId, rows);
    ReplaceRowsIsExact(t, rooms, roomId, rows);
    if other == roomId {
      var r := Rehomed(rows, roomId);
      forall k | k in u && u[k].roomId in {roomId} ensures u[k] in r {
        var i :| 0 <= i < |rows| && rows[i].id == k;
        assert r[i] == u[k];
      }
      ScanIs(r, u, {roomId});
    } else {
      ChildrenAgree(t, u, other);
    }
  }

  // ---- Sorting a scan back into rooms ----

  /** The rows of one room, in the order the scan met them. */
  function RowsOf<P>(rows: seq<Child<P>>, roomId: Id): seq<Child<P>> {
    if rows == [] then []
    else
      var last := rows[|rows| - 1];
      RowsOf(rows[..|rows| - 1], roomId) + (if last.roomId == roomId then [last] else [])
  }

  lemma {:induction false} RowsOfContents<P>(rows: seq<Child<P>>, roomId: Id)
    ensures var f := RowsOf(rows, roomId);
      && (forall i :: 0 <= i < |f| ==> f[i] in rows && f[i].roomId == roomId)
      && (forall i :: 0 <= i < |rows| && rows[i].roomId == roomId ==> rows[i] in f)
    ensures InOrder(rows) ==> InOrder(RowsOf(rows, roomId))
  {
    if rows != [] {
      var front, last := rows[..|rows| - 1], rows[|rows| - 1];
      RowsOfContents(front, roomId);
      assert rows == front + [last];
      var f := RowsOf(front, roomId);
      forall i | 0 <= i < |f| ensures f[i] in rows && (InOrder(rows) ==> Precedes(f[i], last)) {
        assert f[i] in front;
      }
      forall i | 0 <= i < |rows| && rows[i].roomId == roomId ensures rows[i] in RowsOf(rows, roomId) {
        if i < |front| {
          assert rows[i] == front[i] && front[i] in f;
        }
      }
    }
  }

  lemma {:induction false} NoRowsOf<P>(rows: seq<Child<P>>, roomId: Id)
    requires forall i :: 0 <= i < |rows| ==> rows[i].roomId != roomId
    ensures RowsOf(rows, roomId) == []
  {
    if rows != [] {
      NoRowsOf(rows[..|rows| - 1], roomId);
    }
  }

  /** One ordered scan over many rooms holds, for each of them, its own scan. */
  lemma ScanSplitsByRoom<P>(rows: seq<Child<P>>, t: ChildTable<P>, roomIds: set<Id>, roomId: Id)
    requires IsScan(rows, t, roomIds)
    ensures RowsOf(rows, roomId) == if roomId in roomIds then ChildrenOf(t, roomId) else []
  {
    var f := RowsOf(rows, roomId);
    if roomId in roomIds {
      RowsOfContents(rows, roomId);
      forall k | k in t && t[k].roomId in {roomId} ensures t[k] in f {
        assert t[k] in rows;
      }
      ScanIs(f, t, {roomId});
    } else {
      NoRowsOf(rows, roomId);
    }
  }
}
