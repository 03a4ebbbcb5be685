/** What the store means: each room with its request-level amenities, free of child ids and of
    update times; what every service operation does to that meaning, whether it succeeds or is
    cut short; and the laws of these effects. */
module RoomView {
  import opened Models
  import opened Coefficient
  import opened Tables

  datatype RoomView = RoomView(row: RoomRow, highlights: seq<Highlight>, categories: seq<Category>)

  type Rooms = map<Id, RoomView>

  function Timeless(row: RoomRow): RoomRow {
    row.(updatedAt := 0)
  }

  ghost function ViewOf(t: Tables, id: Id): RoomView
    requires id in t.rooms
  {
    RoomView(Timeless(t.rooms[id]), Infos(ChildrenOf(t.highlighted, id)), Infos(ChildrenOf(t.categories, id)))
  }

  /** The meaning of the three tables. */
  ghost function View(t: Tables): Rooms {
    map id | id in t.rooms :: ViewOf(t, id)
  }

  /** The derived columns are what the children say. */
  predicate Agrees(v: RoomView) {
    v.row.amenityCount == CountSum(v.categories) && v.row.coef == Coef(v.highlights, v.categories)
  }

  // ---- Creating ----

  /** The row of one copy, before it meets the columns. */
  function NewRow(req: CreateRequest, hotelId: string, now: Time, id: Id): RoomRow {
    RoomRow(id, hotelId, req.name, req.roomType, req.price, req.capacity, req.description, req.spaceInfo,
            req.bedDistribution, req.quantity, CountSum(req.categories),
            Coef(req.highlighted, req.categories), now, now)
  }

  function NewView(req: CreateRequest, hotelId: string, now: Time, id: Id, hs: seq<Highlight>, cs: seq<Category>): RoomView {
    RoomView(Timeless(ToColumns(NewRow(req, hotelId, now, id))), hs, cs)
  }

  // ---- Updating ----

  function Patched(row: RoomRow, req: UpdateRequest): RoomRow {
    row.(name := if req.name != "" then req.name else row.name,
         roomType := if req.roomType != "" then req.roomType else row.roomType,
         price := if req.price > 0.0 then req.price else row.price,
         capacity := if req.capacity > 0 then req.capacity else row.capacity,
         description := if req.description != "" then req.description else row.description,
         spaceInfo := if req.spaceInfo != "" then req.spaceInfo else row.spaceInfo,
         bedDistribution := if req.bedDistribution != "" then req.bedDistribution else row.bedDistribution,
         quantity := if req.quantity > 0 then req.quantity else row.quantity)
  }

  function Or<T>(o: Option<T>, default: T): T {
    if o.Some? then o.value else default
  }

  /** The row an update writes, before it meets the columns. */
  function UpdatedRow(v: RoomView, req: UpdateRequest): RoomRow {
    Patched(v.row, req).(
      amenityCount := if req.categories.Some? then CountSum(req.categories.value) else v.row.amenityCount,
      coef := Coef(Or(req.highlighted, v.highlights), Or(req.categories, v.categories)))
  }

  /** The last write an update got to commit. */
  datatype Progress = Nothing | RowWritten | HighlightsReplaced | Everything

  function UpdateTo(v: RoomView, req: UpdateRequest, p: Progress): RoomView {
    if p == Nothing then v
    else
      RoomView(Timeless(ToColumns(UpdatedRow(v, req))),
               if p == RowWritten then v.highlights else Or(req.highlighted, v.highlights),
               if p == Everything then Or(req.categories, v.categories) else v.categories)
  }

  // ---- Events ----

  /** A finished service operation.  In `Created`, `ids` are the rooms that were added; those
      before `filled` got both child lists, and the next one got its highlights if `half`. */
  datatype Event =
    | Created(req: CreateRequest, hotelId: string, now: Time, ids: seq<Id>, added: bool, filled: nat, half: bool)
    | Updated(id: Id, change: UpdateRequest, progress: Progress)
    | Deleted(id: Id, done: bool)
    | QuantitySet(hotel: string, roomType: string, name: string, quantity: int, done: bool)
  {
    predicate Succeeds() {
      match this
      case Created(_, _, _, ids, added, filled, _) => added && filled == |ids|
      case Updated(_, _, p) => p == Everything
      case Deleted(_, done) => done
      case QuantitySet(_, _, _, _, done) => done
    }

    predicate LeavesNoTrace() {
      match this
      case Created(_, _, _, _, added, _, _) => !added
      case Updated(_, _, p) => p == Nothing
      case Deleted(_, done) => !done
      case QuantitySet(_, _, _, _, done) => !done
    }
  }

  /** Events the service can produce in this state. */
  ghost predicate Possible(rooms: Rooms, e: Event) {
    match e
    case Created(req, _, _, ids, added, filled, half) =>
      added ==>
        && |ids| == req.quantity
        && AscendingIds(ids)
        && (forall i :: 0 <= i < |ids| ==> ids[i] !in rooms)
        && filled <= |ids|
        && (half ==> filled < |ids|)
    case Updated(id, _, p) => p != Nothing ==> id in rooms
    case Deleted(id, done) => done ==> id in rooms
    case QuantitySet(_, _, _, _, _) => true
  }

  /** Copy i of a create. */
  function CopyAt(e: Event, i: nat): RoomView
    requires e.Created? && i < |e.ids|
  {
    NewView(e.req, e.hotelId, e.now, e.ids[i],
            if i < e.filled || (i == e.filled && e.half) then e.req.highlighted else [],
            if i < e.filled then e.req.categories else [])
  }

  function Copies(e: Event): (vs: seq<RoomView>)
    requires e.Created?
    ensures |vs| == |e.ids|
  {
    seq(|e.ids|, i requires 0 <= i < |e.ids| => CopyAt(e, i))
  }

  function WithQuantity(v: RoomView, quantity: int): RoomView {
    v.(row := v.row.(quantity := quantity))
  }

  function WithQuantitiesSet(rooms: Rooms, hotel: string, roomType: string, name: string, quantity: int): Rooms {
    map id | id in rooms ::
      if HasKey(rooms[id].row, hotel, roomType, name) then WithQuantity(rooms[id], quantity) else rooms[id]
  }

  function Effect(rooms: Rooms, e: Event): Rooms {
    match e
    case Created(_, _, _, ids, added, _, _) =>
      if added then WithAll(rooms, ids, Copies(e)) else rooms
    case Updated(id, change, p) =>
      if p != Nothing && id in rooms then rooms[id := UpdateTo(rooms[id], change, p)] else rooms
    case Deleted(id, done) =>
      if done then rooms - {id} else rooms
    case QuantitySet(hotel, roomType, name, quantity, done) =>
      if done then WithQuantitiesSet(rooms, hotel, roomType, name, quantity) else rooms
  }

  /** An update whose row is written moves on to its highlights, if it brings any. */
  lemma UpdateReachesHighlights(rooms: Rooms, id: Id, req: UpdateRequest)
    requires id in rooms
    ensures var r := Effect(rooms, Updated(id, req, RowWritten));
      && id in r
      && Effect(rooms, Updated(id, req, HighlightsReplaced)) ==
         if req.highlighted.Some? then r[id := r[id].(highlights := req.highlighted.value)] else r
  {
  }

  /** An update whose highlights are replaced moves on to its categories, if it brings any. */
  lemma UpdateReachesCategories(rooms: Rooms, id: Id, req: UpdateRequest)
    requires id in rooms
    ensures var r := Effect(rooms, Updated(id, req, HighlightsReplaced));
      && id in r
      && Effect(rooms, Updated(id, req, Everything)) ==
         if req.categories.Some? then r[id := r[id].(categories := req.categories.value)] else r
  {
  }

  /** The state after a run of events. */
  function Replay(rooms: Rooms, log: seq<Event>): Rooms {
    if log == [] then rooms else Effect(Replay(rooms, log[..|log| - 1]), log[|log| - 1])
  }

  ghost predicate PossibleRun(rooms: Rooms, log: seq<Event>) {
    log != [] ==>
      && PossibleRun(rooms, log[..|log| - 1])
      && Possible(Replay(rooms, log[..|log| - 1]), log[|log| - 1])
  }

  /** What a create that added its rooms leaves: the copies, and everything else as it was. */
  lemma CreatedContents(rooms: Rooms, e: Event)
    requires e.Created? && e.added && Possible(rooms, e)
    ensures var r := Effect(rooms, e);
      && (forall i :: 0 <= i < |e.ids| ==> e.ids[i] in r && r[e.ids[i]] == CopyAt(e, i))
      && (forall id :: id in r <==> id in rooms || id in e.ids)
      && (forall id :: id in rooms ==> id !in e.ids && r[id] == rooms[id])
  {
    WithAllContents(rooms, e.ids, Copies(e));
  }

  // ---- Derived columns ----

  /** A successful update makes the coefficient agree whatever it found; it makes the count
      agree exactly when it brings categories or the count agreed before. */
  lemma AgreesAfterUpdateIff(v: RoomView, req: UpdateRequest)
    ensures var w := UpdateTo(v, req, Everything);
      && w.row.coef == Coef(w.highlights, w.categories)
      && (Agrees(w) <==> req.categories.Some? || v.row.amenityCount == CountSum(v.categories))
  {
    CoefFitsColumn(Or(req.highlighted, v.highlights), Or(req.categories, v.categories));
  }

  /** The categories stored when an update stopped count what the row by then says. */
  predicate CountKept(v: RoomView, req: UpdateRequest) {
    (if req.categories.Some? then CountSum(req.categories.value) else v.row.amenityCount) == CountSum(v.categories)
  }

  /** The lists stored when an update stopped weigh what the requested ones do. */
  predicate CoefKept(v: RoomView, req: UpdateRequest, p: Progress) {
    var hs, cs := Or(req.highlighted, v.highlights), Or(req.categories, v.categories);
    Coef(hs, cs) == Coef(if p == RowWritten then v.highlights else hs, v.categories)
  }

  /** An update cut short after its row write, or after its highlights: each derived column
      agrees exactly when the new lists count and weigh what the lists stored by then do. */
  lemma CutShortUpdateAgreesIff(v: RoomView, req: UpdateRequest, p: Progress)
    requires p == RowWritten || p == HighlightsReplaced
    ensures var w := UpdateTo(v, req, p);
      && (w.row.amenityCount == CountSum(w.categories) <==> CountKept(v, req))
      && (w.row.coef == Coef(w.highlights, w.categories) <==> CoefKept(v, req, p))
  {
    CoefFitsColumn(Or(req.highlighted, v.highlights), Or(req.categories, v.categories));
  }

  /** Copy i got its categories, or they count nothing. */
  predicate CopyCounted(e: Event, i: nat)
    requires e.Created?
  {
    i < e.filled || CountSum(e.req.categories) == 0
  }

  /** Copy i got both lists, or what it got weighs as much as both. */
  predicate CopyWeighed(e: Event, i: nat)
    requires e.Created?
  {
    i < e.filled ||
    Coef(e.req.highlighted, e.req.categories) == Coef(if i == e.filled && e.half then e.req.highlighted else [], [])
  }

  /** Copy i of a create agrees exactly when it got both lists, or the lists it missed would
      have counted and weighed nothing more. */
  lemma CopyAgreesIff(e: Event, i: nat)
    requires e.Created? && i < |e.ids|
    ensures var v := CopyAt(e, i);
      && (v.row.amenityCount == CountSum(v.categories) <==> CopyCounted(e, i))
      && (v.row.coef == Coef(v.highlights, v.categories) <==> CopyWeighed(e, i))
  {
    CoefFitsColumn(e.req.highlighted, e.req.categories);
  }

  /** Which copy of a create a room is. */
  ghost predicate IsCopy(e: Event, id: Id, i: nat) {
    e.Created? && e.added && i < |e.ids| && e.ids[i] == id
  }

  ghost predicate Creates(e: Event, id: Id) {
    exists i: nat :: IsCopy(e, id, i)
  }

  predicate Updates(e: Event, id: Id) {
    e.Updated? && e.id == id && e.progress != Nothing
  }

  /** Whether a run has left a room's count in step with its categories, told from the requests
      and the stored lists. */
  ghost predicate CountInStep(log: seq<Event>, id: Id) {
    log != [] ==>
      var before, e := log[..|log| - 1], log[|log| - 1];
      if Creates(e, id) then exists i: nat :: IsCopy(e, id, i) && CopyCounted(e, i)
      else if Updates(e, id) && e.change.categories.Some? && id in Replay(map[], before) then
        e.progress == Everything || CountKept(Replay(map[], before)[id], e.change)
      else CountInStep(before, id)
  }

  /** The same for its coefficient. */
  ghost predicate CoefInStep(log: seq<Event>, id: Id) {
    log != [] ==>
      var before, e := log[..|log| - 1], log[|log| - 1];
      if Creates(e, id) then exists i: nat :: IsCopy(e, id, i) && CopyWeighed(e, i)
      else if Updates(e, id) && id in Replay(map[], before) then
        e.progress == Everything || CoefKept(Replay(map[], before)[id], e.change, e.progress)
      else CoefInStep(before, id)
  }

  /** A room that an event neither creates nor updates keeps its lists and derived columns. */
  lemma UntouchedRoomKeeps(rooms: Rooms, e: Event, id: Id)
    requires Possible(rooms, e) && id in Effect(rooms, e)
    requires !Creates(e, id) && !Updates(e, id)
    ensures id in rooms
    ensures var v, w := rooms[id], Effect(rooms, e)[id];
      && w.highlights == v.highlights && w.categories == v.categories
      && w.row.amenityCount == v.row.amenityCount && w.row.coef == v.row.coef
  {
    if e.Created? && e.added {
      CreatedContents(rooms, e);
      assert id !in e.ids by {
        forall i | 0 <= i < |e.ids| ensures e.ids[i] != id {
          assert !IsCopy(e, id, i);
        }
      }
    }
  }

  ghost predicate ColumnsInStep(v: RoomView, log: seq<Event>, id: Id) {
    && (v.row.amenityCount == CountSum(v.categories) <==> CountInStep(log, id))
    && (v.row.coef == Coef(v.highlights, v.categories) <==> CoefInStep(log, id))
  }

  lemma CreatedRoomInStep(before: seq<Event>, e: Event, id: Id)
    requires Possible(Replay(map[], before), e) && Creates(e, id)
    ensures id in Effect(Replay(map[], before), e)
    ensures ColumnsInStep(Effect(Replay(map[], before), e)[id], before + [e], id)
  {
    assert (before + [e])[..|before|] == before;
    CreatedContents(Replay(map[], before), e);
    var i: nat :| IsCopy(e, id, i);
    assert forall j: nat :: IsCopy(e, id, j) ==> j == i;
    CopyAgreesIff(e, i);
  }

  lemma UpdatedRoomInStep(before: seq<Event>, e: Event, id: Id)
    requires Updates(e, id) && id in Replay(map[], before)
    requires ColumnsInStep(Replay(map[], before)[id], before, id)
    ensures ColumnsInStep(Effect(Replay(map[], before), e)[id], before + [e], id)
  {
    var v := Replay(map[], before)[id];
    assert (before + [e])[..|before|] == before;
    assert !Creates(e, id);
    if e.progress == Everything {
      AgreesAfterUpdateIff(v, e.change);
    } else {
      CutShortUpdateAgreesIff(v, e.change, e.progress);
    }
  }

  /** From an empty store, after any run of operations, finished or cut short: each derived
      column of each room agrees with its stored children exactly when the run left it in step. */
  lemma {:induction false} DerivedColumnsAgreeIff(log: seq<Event>, id: Id)
    requires PossibleRun(map[], log) && id in Replay(map[], log)
    ensures ColumnsInStep(Replay(map[], log)[id], log, id)
  {
    var before, e := log[..|log| - 1], log[|log| - 1];
    assert log == before + [e];
    if Creates(e, id) {
      CreatedRoomInStep(before, e, id);
    } else if Updates(e, id) {
      DerivedColumnsAgreeIff(before, id);
      UpdatedRoomInStep(before, e, id);
    } else {
      UntouchedRoomKeeps(Replay(map[], before), e, id);
      DerivedColumnsAgreeIff(before, id);
    }
  }

  ghost predicate Clean(log: seq<Event>) {
    forall i :: 0 <= i < |log| ==> log[i].Succeeds() || log[i].LeavesNoTrace()
  }

  lemma {:induction false} CleanRunStaysInStep(log: seq<Event>, id: Id)
    requires Clean(log)
    ensures CountInStep(log, id) && CoefInStep(log, id)
  {
    if log != [] {
      var before, e := log[..|log| - 1], log[|log| - 1];
      CleanRunStaysInStep(before, id);
      assert e.Succeeds() || e.LeavesNoTrace();
    }
  }

  /** In a run whose operations succeed or leave no trace, every room agrees with its children. */
  lemma CleanRunsAgree(log: seq<Event>)
    requires PossibleRun(map[], log) && Clean(log)
    ensures forall id :: id in Replay(map[], log) ==> Agrees(Replay(map[], log)[id])
  {
    forall id | id in Replay(map[], log) ensures Agrees(Replay(map[], log)[id]) {
      CleanRunStaysInStep(log, id);
      DerivedColumnsAgreeIff(log, id);
    }
  }

  /** A run that leaves a room disagreeing with its children: a create without amenities, then an
      update that brings two luxury ones and fails after its row write. */
  lemma CutShortRunDisagrees()
    ensures var bare := CreateRequest("Sea view", "Suite", 90.0, 2, "", "", "", 1, [], []);
      var change := UpdateRequest("", "", 0.0, 0, "", "", "", 0, None, Some([Category("Spa", "", "luxury", 2)]));
      var log := [Created(bare, "hotel", 0, [1], true, 1, false), Updated(1, change, RowWritten)];
      PossibleRun(map[], log) && 1 in Replay(map[], log) && !Agrees(Replay(map[], log)[1])
  {
    var bare := CreateRequest("Sea view", "Suite", 90.0, 2, "", "", "", 1, [], []);
    var spa := [Category("Spa", "", "luxury", 2)];
    var change := UpdateRequest("", "", 0.0, 0, "", "", "", 0, None, Some(spa));
    var first, second := Created(bare, "hotel", 0, [1], true, 1, false), Updated(1, change, RowWritten);
    var log := [first, second];
    assert log[..1] == [first] && [first][..0] == [];
    assert PossibleRun(map[], []) && Possible(map[], first);
    CreatedContents(map[], first);
    assert Replay(map[], [first]) == Effect(map[], first);
    assert first.ids[0] == 1;
    assert PossibleRun(map[], [first]);
    CutShortUpdateAgreesIff(Replay(map[], [first])[1], change, RowWritten);
    assert spa[..0] == [] && CountSum(spa) == 2;
  }

  // ---- Recovery by retry ----

  /** A cut-short attempt changes nothing about where the same request ends up. */
  lemma AttemptThenUpdate(v: RoomView, req: UpdateRequest, p: Progress)
    ensures UpdateTo(UpdateTo(v, req, p), req, Everything) == UpdateTo(v, req, Everything)
  {
    Decimal2Properties(if req.price > 0.0 then req.price else v.row.price);
  }

  /** An operation that leaves room `id` alone or fails without a trace, a quantity update, or an
      attempt at the update, which may get any distance. */
  predicate OtherOrAttempt(e: Event, id: Id, req: UpdateRequest) {
    match e
    case Created(_, _, _, _, _, _, _) => true
    case Updated(target, change, p) => target == id ==> p == Nothing || change == req
    case Deleted(target, done) => target == id ==> !done
    case QuantitySet(_, _, _, _, _) => true
  }

  ghost predicate OthersAndAttempts(log: seq<Event>, id: Id, req: UpdateRequest) {
    forall i :: 0 <= i < |log| ==> OtherOrAttempt(log[i], id, req)
  }

  /** The run with the attempts at room `id` left out. */
  function WithoutAttempts(log: seq<Event>, id: Id): seq<Event> {
    if log == [] then []
    else
      var e := log[|log| - 1];
      WithoutAttempts(log[..|log| - 1], id) + (if e.Updated? && e.id == id then [] else [e])
  }

  /** Some attempt wrote the room's row. */
  predicate Attempted(log: seq<Event>, id: Id) {
    log != [] && (Updates(log[|log| - 1], id) || Attempted(log[..|log| - 1], id))
  }

  predicate SetsQuantity(e: Event, row: RoomRow) {
    e.QuantitySet? && e.done && HasKey(row, e.hotel, e.roomType, e.name)
  }

  /** The quantity that the last update to name the room left it with, if the room goes by the
      key of `before` until an attempt writes its row and by that of `after` from then on. */
  function QuantityLeft(log: seq<Event>, id: Id, before: RoomRow, after: RoomRow): int {
    if log == [] then before.quantity
    else
      var front, e := log[..|log| - 1], log[|log| - 1];
      if SetsQuantity(e, if Attempted(front, id) then after else before) then e.quantity
      else QuantityLeft(front, id, before, after)
  }

  predicate SameKey(a: RoomRow, b: RoomRow) {
    a.hotelId == b.hotelId && a.roomType == b.roomType && a.name == b.name
  }

  /** The same room once the update is complete, but for its quantity. */
  predicate SameTarget(x: RoomView, y: RoomView, req: UpdateRequest) {
    WithQuantity(UpdateTo(x, req, Everything), 0) == WithQuantity(UpdateTo(y, req, Everything), 0)
  }

  /** The two stores differ at most in how far the update of `id` has got and in its quantity. */
  ghost predicate SameButAttempts(a: Rooms, b: Rooms, id: Id, req: UpdateRequest) {
    && a.Keys == b.Keys && id in a
    && (forall x :: x in a && x != id ==> a[x] == b[x])
    && SameTarget(a[id], b[id], req)
  }

  /** An update writes key and quantity as the patch has them, and everything else whatever the
      quantity was. */
  lemma UpdateAndQuantity(v: RoomView, req: UpdateRequest, p: Progress, quantity: int)
    ensures var w := UpdateTo(v, req, p).row;
      p != Nothing ==> SameKey(w, Patched(v.row, req)) && w.quantity == if req.quantity > 0 then req.quantity else v.row.quantity
    ensures WithQuantity(UpdateTo(WithQuantity(v, quantity), req, p), 0) == WithQuantity(UpdateTo(v, req, p), 0)
  {
  }

  lemma OtherEventsKeepPace(a: Rooms, b: Rooms, e: Event, id: Id, req: UpdateRequest)
    requires SameButAttempts(a, b, id, req) && Possible(a, e)
    requires OtherOrAttempt(e, id, req) && !(e.Updated? && e.id == id)
    ensures SameButAttempts(Effect(a, e), Effect(b, e), id, req)
    ensures Effect(a, e)[id] == if SetsQuantity(e, a[id].row) then WithQuantity(a[id], e.quantity) else a[id]
    ensures Effect(b, e)[id] == if SetsQuantity(e, b[id].row) then WithQuantity(b[id], e.quantity) else b[id]
  {
    if e.QuantitySet? {
      QuantityKeepsPace(a, b, e, id, req);
    } else if e.Created? && e.added {
      CreatedKeepsPace(a, b, e, id, req);
    }
  }

  lemma QuantityKeepsPace(a: Rooms, b: Rooms, e: Event, id: Id, req: UpdateRequest)
    requires SameButAttempts(a, b, id, req) && e.QuantitySet?
    ensures SameButAttempts(Effect(a, e), Effect(b, e), id, req)
    ensures Effect(a, e)[id] == if SetsQuantity(e, a[id].row) then WithQuantity(a[id], e.quantity) else a[id]
    ensures Effect(b, e)[id] == if SetsQuantity(e, b[id].row) then WithQuantity(b[id], e.quantity) else b[id]
  {
    UpdateAndQuantity(a[id], req, Everything, e.quantity);
    UpdateAndQuantity(b[id], req, Everything, e.quantity);
  }

  lemma CreatedKeepsPace(a: Rooms, b: Rooms, e: Event, id: Id, req: UpdateRequest)
    requires SameButAttempts(a, b, id, req) && Possible(a, e) && e.Created? && e.added
    ensures SameButAttempts(Effect(a, e), Effect(b, e), id, req)
    ensures Effect(a, e)[id] == a[id] && Effect(b, e)[id] == b[id]
  {
    CreatedContents(a, e);
    CreatedContents(b, e);
    forall x | x in Effect(a, e) && x != id ensures Effect(a, e)[x] == Effect(b, e)[x] {
      if x in e.ids {
        var i :| 0 <= i < |e.ids| && e.ids[i] == x;
      }
    }
  }

  /** What is known of the room over the run: its key, and its quantity if attempts keep it. */
  ghost predicate Tracked(x: RoomView, log: seq<Event>, id: Id, was: RoomRow, after: RoomRow, req: UpdateRequest) {
    && SameKey(x.row, if Attempted(log, id) then after else was)
    && (req.quantity <= 0 ==> x.row.quantity == QuantityLeft(log, id, was, after))
  }

  lemma OtherEventTracked(x: RoomView, before: seq<Event>, e: Event, id: Id, was: RoomRow, after: RoomRow, req: UpdateRequest)
    requires Tracked(x, before, id, was, after, req) && !Updates(e, id)
    ensures Tracked(if SetsQuantity(e, x.row) then WithQuantity(x, e.quantity) else x, before + [e], id, was, after, req)
  {
    assert (before + [e])[..|before|] == before;
    assert SetsQuantity(e, x.row) <==> SetsQuantity(e, if Attempted(before, id) then after else was);
  }

  lemma AttemptTracked(x: RoomView, before: seq<Event>, e: Event, id: Id, was: RoomRow, req: UpdateRequest)
    requires Tracked(x, before, id, was, Patched(was, req), req) && e.Updated? && e.id == id
    requires e.progress == Nothing || e.change == req
    ensures Tracked(UpdateTo(x, e.change, e.progress), before + [e], id, was, Patched(was, req), req)
  {
    assert (before + [e])[..|before|] == before;
    UpdateAndQuantity(x, req, e.progress, 0);
  }

  lemma AttemptUntracked(x: RoomView, before: seq<Event>, e: Event, id: Id, was: RoomRow, req: UpdateRequest)
    requires Tracked(x, before, id, was, was, req) && e.Updated?
    ensures Tracked(x, before + [e], id, was, was, req)
  {
    assert (before + [e])[..|before|] == before;
  }

  /** A store with the attempts and one without, after the same run. */
  ghost predicate Pace(a: Rooms, b: Rooms, log: seq<Event>, id: Id, was: RoomRow, req: UpdateRequest) {
    && SameButAttempts(a, b, id, req)
    && Tracked(a[id], log, id, was, Patched(was, req), req)
    && Tracked(b[id], log, id, was, was, req)
  }

  lemma AttemptKeepsPace(a: Rooms, b: Rooms, before: seq<Event>, e: Event, id: Id, was: RoomRow, req: UpdateRequest)
    requires Pace(a, b, before, id, was, req)
    requires e.Updated? && e.id == id && (e.progress == Nothing || e.change == req)
    ensures Pace(Effect(a, e), b, before + [e], id, was, req)
  {
    AttemptThenUpdate(a[id], req, e.progress);
    AttemptTracked(a[id], before, e, id, was, req);
    AttemptUntracked(b[id], before, e, id, was, req);
  }

  lemma OtherKeepsPace(a: Rooms, b: Rooms, before: seq<Event>, e: Event, id: Id, was: RoomRow, req: UpdateRequest)
    requires Pace(a, b, before, id, was, req) && Possible(a, e)
    requires OtherOrAttempt(e, id, req) && !(e.Updated? && e.id == id)
    ensures Pace(Effect(a, e), Effect(b, e), before + [e], id, was, req)
  {
    OtherEventsKeepPace(a, b, e, id, req);
    OtherEventTracked(a[id], before, e, id, was, Patched(was, req), req);
    OtherEventTracked(b[id], before, e, id, was, was, req);
  }

  lemma ReplayExtends(rooms: Rooms, log: seq<Event>, e: Event)
    ensures Replay(rooms, log + [e]) == Effect(Replay(rooms, log), e)
  {
    assert (log + [e])[..|log|] == log;
  }

  lemma {:induction false} AttemptsKeepPace(rooms: Rooms, log: seq<Event>, id: Id, req: UpdateRequest)
    requires id in rooms && PossibleRun(rooms, log) && OthersAndAttempts(log, id, req)
    ensures Pace(Replay(rooms, log), Replay(rooms, WithoutAttempts(log, id)), log, id, rooms[id].row, req)
  {
    if log != [] {
      var before, e := log[..|log| - 1], log[|log| - 1];
      AttemptsKeepPace(rooms, before, id, req);
      var a, kept := Replay(rooms, before), WithoutAttempts(before, id);
      var b := Replay(rooms, kept);
      assert OtherOrAttempt(e, id, req) && log == before + [e];
      ReplayExtends(rooms, before, e);
      ReplayExtends(rooms, kept, e);
      if e.Updated? && e.id == id {
        assert WithoutAttempts(log, id) == kept;
        AttemptKeepsPace(a, b, before, e, id, rooms[id].row, req);
      } else {
        assert WithoutAttempts(log, id) == kept + [e];
        OtherKeepsPace(a, b, before, e, id, rooms[id].row, req);
      }
    }
  }

  /** Repeating the request to success ends in the store that the one successful call would give. */
  ghost predicate Recovers(rooms: Rooms, log: seq<Event>, id: Id, req: UpdateRequest) {
    Effect(Replay(rooms, log), Updated(id, req, Everything)) ==
    Effect(Replay(rooms, WithoutAttempts(log, id)), Updated(id, req, Everything))
  }

  /** Recovery by retry: however often an update of a room was attempted, and whatever happened to
      other rooms and to quantities in between, repeating it recovers exactly when the request sets
      the quantity itself, or the last quantity update to name the room left it the same whether
      the room went by its patched key since the first attempt or by its old one throughout. */
  lemma RetryRecoversIff(rooms: Rooms, log: seq<Event>, id: Id, req: UpdateRequest)
    requires id in rooms && PossibleRun(rooms, log) && OthersAndAttempts(log, id, req)
    ensures var was := rooms[id].row;
      Recovers(rooms, log, id, req) <==>
        req.quantity > 0 || QuantityLeft(log, id, was, Patched(was, req)) == QuantityLeft(log, id, was, was)
  {
    AttemptsKeepPace(rooms, log, id, req);
    var a, b := Replay(rooms, log), Replay(rooms, WithoutAttempts(log, id));
    var x, y := UpdateTo(a[id], req, Everything), UpdateTo(b[id], req, Everything);
    AtOneRoom(a, b, id, x, y);
    UpdateAndQuantity(a[id], req, Everything, 0);
    UpdateAndQuantity(b[id], req, Everything, 0);
    SameButQuantity(x, y);
  }

  lemma AtOneRoom(a: Rooms, b: Rooms, id: Id, x: RoomView, y: RoomView)
    requires a.Keys == b.Keys && id in a && forall k :: k in a && k != id ==> a[k] == b[k]
    ensures a[id := x] == b[id := y] <==> x == y
  {
    assert x != y ==> a[id := x][id] != b[id := y][id];
  }

  lemma SameButQuantity(x: RoomView, y: RoomView)
    requires WithQuantity(x, 0) == WithQuantity(y, 0)
    ensures x == y <==> x.row.quantity == y.row.quantity
  {
    assert WithQuantity(WithQuantity(x, 0), x.row.quantity) == x;
    assert WithQuantity(WithQuantity(y, 0), y.row.quantity) == y;
  }

  /** A quantity update that cannot tell whether attempts were made: it failed, the request sets
      the quantity itself, or the request leaves the room's key alone. */
  predicate QuantityIsHarmless(e: Event, req: UpdateRequest) {
    e.QuantitySet? ==> !e.done || req.quantity > 0 || (req.name == "" && req.roomType == "")
  }

  lemma {:induction false} HarmlessQuantities(log: seq<Event>, id: Id, was: RoomRow, req: UpdateRequest)
    requires req.quantity <= 0 && forall i :: 0 <= i < |log| ==> QuantityIsHarmless(log[i], req)
    ensures QuantityLeft(log, id, was, Patched(was, req)) == QuantityLeft(log, id, was, was)
  {
    if log != [] {
      assert QuantityIsHarmless(log[|log| - 1], req);
      HarmlessQuantities(log[..|log| - 1], id, was, req);
    }
  }

  /** With harmless quantity updates only, retrying always recovers. */
  lemma RetryRecovers(rooms: Rooms, log: seq<Event>, id: Id, req: UpdateRequest)
    requires id in rooms && PossibleRun(rooms, log) && OthersAndAttempts(log, id, req)
    requires forall i :: 0 <= i < |log| ==> QuantityIsHarmless(log[i], req)
    ensures Recovers(rooms, log, id, req)
  {
    RetryRecoversIff(rooms, log, id, req);
    if req.quantity <= 0 {
      HarmlessQuantities(log, id, rooms[id].row, req);
    }
  }

  /** A run that is not recovered: an update that renames the room stops after its row write, the
      quantity is set under the old name, and the retry ends with the old quantity. */
  lemma QuantityUnderOldNameIsLost(rooms: Rooms, id: Id, quantity: int)
    requires id in rooms && rooms[id].row.name == "Old" && rooms[id].row.quantity != quantity
    ensures var req := UpdateRequest("New", "", 0.0, 0, "", "", "", 0, None, None);
      var e := QuantitySet(rooms[id].row.hotelId, rooms[id].row.roomType, "Old", quantity, true);
      !Recovers(rooms, [Updated(id, req, RowWritten), e], id, req)
  {
    var req := UpdateRequest("New", "", 0.0, 0, "", "", "", 0, None, None);
    var was := rooms[id].row;
    var attempt, e := Updated(id, req, RowWritten), QuantitySet(was.hotelId, was.roomType, "Old", quantity, true);
    var log := [attempt, e];
    assert log[..1] == [attempt] && [attempt][..0] == [];
    assert PossibleRun(rooms, []) && PossibleRun(rooms, [attempt]) && PossibleRun(rooms, log);
    RetryRecoversIff(rooms, log, id, req);
    assert Attempted([attempt], id) && Patched(was, req).name == "New";
    assert QuantityLeft([], id, was, was) == QuantityLeft([attempt], id, was, Patched(was, req)) == was.quantity;
  }

  // ---- Partial updates compose ----

  /** The fields of a row that a request may carry. */
  datatype Field = Name | RoomType | Price | Capacity | Description | SpaceInfo | BedDistribution | Quantity

  predicate SameIn(field: Field, a: RoomRow, b: RoomRow) {
    match field
    case Name => a.name == b.name
    case RoomType => a.roomType == b.roomType
    case Price => a.price == b.price
    case Capacity => a.capacity == b.capacity
    case Description => a.description == b.description
    case SpaceInfo => a.spaceInfo == b.spaceInfo
    case BedDistribution => a.bedDistribution == b.bedDistribution
    case Quantity => a.quantity == b.quantity
  }

  /** A request carries a field only if it is neither empty nor below one. */
  predicate Carriable(field: Field, row: RoomRow) {
    match field
    case Name => row.name != ""
    case RoomType => row.roomType != ""
    case Price => row.price > 0.0
    case Capacity => row.capacity > 0
    case Description => row.description != ""
    case SpaceInfo => row.spaceInfo != ""
    case BedDistribution => row.bedDistribution != ""
    case Quantity => row.quantity > 0
  }

  /** The request that carries these fields of a row, and no lists. */
  function RequestFor(row: RoomRow, fields: set<Field>): UpdateRequest {
    UpdateRequest(
      if Name in fields then row.name else "",
      if RoomType in fields then row.roomType else "",
      if Price in fields then row.price else 0.0,
      if Capacity in fields then row.capacity else 0,
      if Description in fields then row.description else "",
      if SpaceInfo in fields then row.spaceInfo else "",
      if BedDistribution in fields then row.bedDistribution else "",
      if Quantity in fields then row.quantity else 0,
      None, None)
  }

  /** Two rows that agree in everything a request cannot carry. */
  predicate SameBeyondFields(a: RoomRow, b: RoomRow) {
    && a.id == b.id && a.hotelId == b.hotelId && a.amenityCount == b.amenityCount && a.coef == b.coef
    && a.createdAt == b.createdAt && a.updatedAt == b.updatedAt
  }

  lemma SameRow(a: RoomRow, b: RoomRow)
    requires SameBeyondFields(a, b) && forall field :: SameIn(field, a, b)
    ensures a == b
  {
    assert SameIn(Name, a, b) && SameIn(RoomType, a, b) && SameIn(Price, a, b) && SameIn(Capacity, a, b);
    assert SameIn(Description, a, b) && SameIn(SpaceInfo, a, b) && SameIn(BedDistribution, a, b) && SameIn(Quantity, a, b);
  }

  /** Patching with any choice of fields of a target: these become the target's and all others
      stay the row's. */
  lemma PatchReachesTarget(row: RoomRow, target: RoomRow, fields: set<Field>)
    requires forall field :: field in fields ==> Carriable(field, target)
    ensures var patched := Patched(row, RequestFor(target, fields));
      && SameBeyondFields(patched, row)
      && forall field :: SameIn(field, patched, if field in fields then target else row)
  {
    forall field
      ensures SameIn(field, Patched(row, RequestFor(target, fields)), if field in fields then target else row)
    {
      assert field in fields ==> Carriable(field, target);
    }
  }

  predicate Present(field: Field, req: UpdateRequest) {
    match field
    case Name => req.name != ""
    case RoomType => req.roomType != ""
    case Price => req.price > 0.0
    case Capacity => req.capacity > 0
    case Description => req.description != ""
    case SpaceInfo => req.spaceInfo != ""
    case BedDistribution => req.bedDistribution != ""
    case Quantity => req.quantity > 0
  }

  /** Field by field, for any request: an absent field keeps the row's value whatever else is
      present, and a present one no longer depends on the row. */
  lemma PatchIsByField(row: RoomRow, other: RoomRow, req: UpdateRequest, field: Field)
    ensures SameIn(field, Patched(row, req), if Present(field, req) then Patched(other, req) else row)
    ensures SameBeyondFields(Patched(row, req), row)
  {
  }

  /** Such a patch is undone by the request for the row's own values of the same fields. */
  lemma PatchIsUndone(row: RoomRow, target: RoomRow, fields: set<Field>)
    requires forall field :: field in fields ==> Carriable(field, target) && Carriable(field, row)
    ensures Patched(Patched(row, RequestFor(target, fields)), RequestFor(row, fields)) == row
  {
    var patched := Patched(row, RequestFor(target, fields));
    var undone := Patched(patched, RequestFor(row, fields));
    PatchReachesTarget(row, target, fields);
    PatchReachesTarget(patched, row, fields);
    forall field ensures SameIn(field, undone, row) {
      assert SameIn(field, undone, if field in fields then row else patched);
      assert SameIn(field, patched, if field in fields then target else row);
    }
    SameRow(undone, row);
  }

  /** The second request's present fields over the first's. */
  function Overlay(first: UpdateRequest, second: UpdateRequest): UpdateRequest {
    UpdateRequest(
      if second.name != "" then second.name else first.name,
      if second.roomType != "" then second.roomType else first.roomType,
      if second.price > 0.0 then second.price else first.price,
      if second.capacity > 0 then second.capacity else first.capacity,
      if second.description != "" then second.description else first.description,
      if second.spaceInfo != "" then second.spaceInfo else first.spaceInfo,
      if second.bedDistribution != "" then second.bedDistribution else first.bedDistribution,
      if second.quantity > 0 then second.quantity else first.quantity,
      if second.highlighted.Some? then second.highlighted else first.highlighted,
      if second.categories.Some? then second.categories else first.categories)
  }

  /** Two successful updates of a room are one update with the overlaid request. */
  lemma UpdatesCompose(rooms: Rooms, id: Id, r1: UpdateRequest, r2: UpdateRequest)
    requires id in rooms
    ensures Effect(Effect(rooms, Updated(id, r1, Everything)), Updated(id, r2, Everything)) ==
            Effect(rooms, Updated(id, Overlay(r1, r2), Everything))
  {
    var v := rooms[id];
    Decimal2Properties(if r1.price > 0.0 then r1.price else v.row.price);
    assert UpdateTo(UpdateTo(v, r1, Everything), r2, Everything) == UpdateTo(v, Overlay(r1, r2), Everything);
  }

  // ---- Availability ----

  function CountOf(rooms: Rooms, hotel: string, roomType: string, name: string): nat {
    |KeyedRooms(rooms, hotel, roomType, name)|
  }

  function KeyedRooms(rooms: Rooms, hotel: string, roomType: string, name: string): set<Id> {
    set id | id in rooms && HasKey(rooms[id].row, hotel, roomType, name)
  }

  /** Rows that entered and left a (hotel, type, name) key. */
  datatype Ledger = Ledger(inserted: int, removed: int, movedIn: int, movedOut: int)

  function Entry(rooms: Rooms, e: Event, hotel: string, roomType: string, name: string): Ledger {
    match e
    case Created(req, hotelId, _, ids, added, _, _) =>
      Ledger(if added && hotelId == hotel && req.roomType == roomType && req.name == name then |ids| else 0, 0, 0, 0)
    case Updated(id, change, p) =>
      if p == Nothing || id !in rooms then Ledger(0, 0, 0, 0)
      else
        var was := HasKey(rooms[id].row, hotel, roomType, name);
        var now := HasKey(Patched(rooms[id].row, change), hotel, roomType, name);
        Ledger(0, 0, if now && !was then 1 else 0, if was && !now then 1 else 0)
    case Deleted(id, done) =>
      Ledger(0, if done && id in rooms && HasKey(rooms[id].row, hotel, roomType, name) then 1 else 0, 0, 0)
    case QuantitySet(_, _, _, _, _) => Ledger(0, 0, 0, 0)
  }

  function LedgerOf(rooms: Rooms, log: seq<Event>, hotel: string, roomType: string, name: string): Ledger {
    if log == [] then Ledger(0, 0, 0, 0)
    else
      var before := log[..|log| - 1];
      var l := LedgerOf(rooms, before, hotel, roomType, name);
      var d := Entry(Replay(rooms, before), log[|log| - 1], hotel, roomType, name);
      Ledger(l.inserted + d.inserted, l.removed + d.removed, l.movedIn + d.movedIn, l.movedOut + d.movedOut)
  }

  lemma AdditionIsEntered(rooms: Rooms, id: Id, v: RoomView, hotel: string, roomType: string, name: string)
    requires id !in rooms
    ensures CountOf(rooms[id := v], hotel, roomType, name) ==
            CountOf(rooms, hotel, roomType, name) + (if HasKey(v.row, hotel, roomType, name) then 1 else 0)
  {
    var before := KeyedRooms(rooms, hotel, roomType, name);
    assert KeyedRooms(rooms[id := v], hotel, roomType, name) ==
      if HasKey(v.row, hotel, roomType, name) then before + {id} else before;
  }

  lemma {:induction false} CopiesCounted(rooms: Rooms, ids: seq<Id>, vs: seq<RoomView>,
      hotel: string, roomType: string, name: string, keyed: bool)
    requires |ids| == |vs| && Distinct(ids) && (forall i :: 0 <= i < |ids| ==> ids[i] !in rooms)
    requires forall i :: 0 <= i < |vs| ==> HasKey(vs[i].row, hotel, roomType, name) == keyed
    ensures CountOf(WithAll(rooms, ids, vs), hotel, roomType, name) ==
            CountOf(rooms, hotel, roomType, name) + (if keyed then |ids| else 0)
  {
    if ids != [] {
      var n := |ids| - 1;
      CopiesCounted(rooms, ids[..n], vs[..n], hotel, roomType, name, keyed);
      WithAllContents(rooms, ids[..n], vs[..n]);
      AdditionIsEntered(WithAll(rooms, ids[..n], vs[..n]), ids[n], vs[n], hotel, roomType, name);
    }
  }

  lemma UpdateIsEntered(rooms: Rooms, id: Id, v: RoomView, hotel: string, roomType: string, name: string)
    requires id in rooms
    ensures CountOf(rooms[id := v], hotel, roomType, name) == CountOf(rooms, hotel, roomType, name)
      + (if HasKey(v.row, hotel, roomType, name) then 1 else 0)
      - (if HasKey(rooms[id].row, hotel, roomType, name) then 1 else 0)
  {
    var before := KeyedRooms(rooms, hotel, roomType, name);
    assert KeyedRooms(rooms[id := v], hotel, roomType, name) ==
      if HasKey(v.row, hotel, roomType, name) then before + {id} else before - {id};
  }

  lemma QuantityIsNotEntered(rooms: Rooms, e: Event, hotel: string, roomType: string, name: string)
    requires e.QuantitySet?
    ensures CountOf(Effect(rooms, e), hotel, roomType, name) == CountOf(rooms, hotel, roomType, name)
  {
    assert KeyedRooms(Effect(rooms, e), hotel, roomType, name) == KeyedRooms(rooms, hotel, roomType, name);
  }

  lemma EventIsEntered(rooms: Rooms, e: Event, hotel: string, roomType: string, name: string)
    requires Possible(rooms, e)
    ensures var d := Entry(rooms, e, hotel, roomType, name);
      CountOf(Effect(rooms, e), hotel, roomType, name) ==
      CountOf(rooms, hotel, roomType, name) + d.inserted - d.removed + d.movedIn - d.movedOut
  {
    match e {
      case Created(req, hotelId, _, ids, added, _, _) =>
        if added {
          CopiesCounted(rooms, ids, Copies(e), hotel, roomType, name,
                        hotelId == hotel && req.roomType == roomType && req.name == name);
        }
      case Updated(id, change, p) =>
        if p != Nothing {
          UpdateIsEntered(rooms, id, UpdateTo(rooms[id], change, p), hotel, roomType, name);
        }
      case Deleted(id, done) =>
        if done {
          assert KeyedRooms(rooms - {id}, hotel, roomType, name) == KeyedRooms(rooms, hotel, roomType, name) - {id};
        }
      case QuantitySet(_, _, _, _, _) =>
        QuantityIsNotEntered(rooms, e, hotel, roomType, name);
    }
  }

  /** Over any run the rows available under a key are those there before, plus the inserted and
      the moved in, minus the removed and the moved out; quantities play no part. */
  lemma {:induction false} AvailabilityIsConserved(rooms: Rooms, log: seq<Event>, hotel: string, roomType: string, name: string)
    requires PossibleRun(rooms, log)
    ensures var l := LedgerOf(rooms, log, hotel, roomType, name);
      CountOf(Replay(rooms, log), hotel, roomType, name) ==
      CountOf(rooms, hotel, roomType, name) + l.inserted - l.removed + l.movedIn - l.movedOut
  {
    if log != [] {
      var before := log[..|log| - 1];
      AvailabilityIsConserved(rooms, before, hotel, roomType, name);
      EventIsEntered(Replay(rooms, before), log[|log| - 1], hotel, roomType, name);
    }
  }

  /** A create is not recovered by retrying it: the rows end up as many as after one success
      exactly when the first attempt had added none. */
  lemma RetriedCreateIff(rooms: Rooms, first: Event, second: Event)
    requires first.Created? && Possible(rooms, first)
    requires second.Created? && second.added && second.req == first.req && second.hotelId == first.hotelId
    requires Possible(Effect(rooms, first), second)
    ensures var req := first.req;
      var before := CountOf(rooms, first.hotelId, req.roomType, req.name);
      var after := CountOf(Effect(Effect(rooms, first), second), first.hotelId, req.roomType, req.name);
      after == before + req.quantity <==> !first.added || req.quantity == 0
  {
    var req := first.req;
    EventIsEntered(rooms, first, first.hotelId, req.roomType, req.name);
    EventIsEntered(Effect(rooms, first), second, first.hotelId, req.roomType, req.name);
  }
}
