/** The filtered listing: what a filter asks for, what a parameterised query means, and the
    builder that turns one into the other. */
module QueryBuilder {
  import opened Models
  import opened Tables

  // ---- What a filter asks for ----

  /** The row meets every bound of the filter that is active. */
  predicate Meets(f: Filter, row: RoomRow) {
    && (f.hotelId != "" ==> row.hotelId == f.hotelId)
    && (f.roomType != "" ==> row.roomType == f.roomType)
    && (f.minCapacity > 0 ==> row.capacity >= f.minCapacity)
    && (f.maxCapacity > 0 ==> row.capacity <= f.maxCapacity)
    && (f.minPrice > 0.0 ==> row.price >= f.minPrice)
    && (f.maxPrice > 0.0 ==> row.price <= f.maxPrice)
    && (f.minCoef > 0.0 ==> row.coef >= f.minCoef)
    && (f.maxCoef > 0.0 ==> row.coef <= f.maxCoef)
  }

  /** ORDER BY recommendation_coef DESC, price ASC: a may stand before b. */
  predicate RanksBefore(a: RoomRow, b: RoomRow) {
    a.coef > b.coef || (a.coef == b.coef && a.price <= b.price)
  }

  /** The kept rows, each once, in any order. */
  ghost predicate IsListing(listing: seq<RoomRow>, t: RoomTable, keep: set<Id>) {
    && (forall i, j :: 0 <= i < j < |listing| ==> listing[i].id != listing[j].id)
    && (forall i :: 0 <= i < |listing| ==> listing[i].id in t && listing[i].id in keep && t[listing[i].id] == listing[i])
    && (forall k :: k in keep && k in t ==> t[k] in listing)
  }

  ghost predicate Ranked(listing: seq<RoomRow>) {
    forall i, j :: 0 <= i < j < |listing| ==> RanksBefore(listing[i], listing[j])
  }

  /** OFFSET then LIMIT. */
  function Window<T>(listing: seq<T>, offset: nat, limit: Option<nat>): seq<T> {
    var rest := if offset <= |listing| then listing[offset..] else [];
    if limit.Some? && limit.value <= |rest| then rest[..limit.value] else rest
  }

  /** A page of the kept rows in some order, which is ranked if asked for; ties come in any order. */
  ghost predicate IsPage(rows: seq<RoomRow>, t: RoomTable, keep: set<Id>, ranked: bool, offset: nat, limit: Option<nat>) {
    exists listing: seq<RoomRow> ::
      IsListing(listing, t, keep) && (ranked ==> Ranked(listing)) && rows == Window(listing, offset, limit)
  }

  /** The answers a filter asks for: a page of the rows that meet it, ranked. */
  ghost predicate IsFilterPage(rows: seq<RoomRow>, t: RoomTable, f: Filter) {
    IsPage(rows, t, Kept(f, t), true, OffsetAsked(f), LimitAsked(f))
  }

  function Kept(f: Filter, t: RoomTable): set<Id> {
    set k | k in t && Meets(f, t[k])
  }

  function OffsetAsked(f: Filter): nat {
    if f.offset > 0 then f.offset else 0
  }

  function LimitAsked(f: Filter): Option<nat> {
    if f.limit > 0 then Some(f.limit) else None
  }

  // ---- What a query means ----

  datatype Value = Text(s: string) | Int(n: int) | Float(x: real)

  datatype Column = HotelId | RoomType | Capacity | Price | RecommendationCoef

  datatype Comparison = Equal | AtLeast | AtMost

  /** The clauses after SELECT ... FROM rooms WHERE 1=1; `arg` is the number in $n. */
  datatype Clause =
    | And(column: Column, comparison: Comparison, arg: nat)
    | OrderByCoefThenPrice
    | Limit(arg: nat)
    | Offset(arg: nat)

  type Query = seq<Clause>

  function ColumnOf(row: RoomRow, column: Column): Value {
    match column
    case HotelId => Text(row.hotelId)
    case RoomType => Text(row.roomType)
    case Capacity => Int(row.capacity)
    case Price => Float(row.price)
    case RecommendationCoef => Float(row.coef)
  }

  predicate Compares(a: Value, comparison: Comparison, b: Value) {
    match (a, b)
    case (Text(x), Text(y)) => comparison == Equal && x == y
    case (Int(x), Int(y)) => (match comparison case Equal => x == y case AtLeast => x >= y case AtMost => x <= y)
    case (Float(x), Float(y)) => (match comparison case Equal => x == y case AtLeast => x >= y case AtMost => x <= y)
    case _ => false
  }

  predicate Holds(c: Clause, args: seq<Value>, row: RoomRow)
    requires c.And?
  {
    1 <= c.arg <= |args| && Compares(ColumnOf(row, c.column), c.comparison, args[c.arg - 1])
  }

  /** The row passes every WHERE clause. */
  predicate Selects(q: Query, args: seq<Value>, row: RoomRow) {
    forall i :: 0 <= i < |q| && q[i].And? ==> Holds(q[i], args, row)
  }

  function Bound(args: seq<Value>, arg: nat): nat {
    if 1 <= arg <= |args| && args[arg - 1].Int? && args[arg - 1].n >= 0 then args[arg - 1].n else 0
  }

  function OffsetOf(q: Query, args: seq<Value>): nat {
    if q == [] then 0
    else if q[|q| - 1].Offset? then Bound(args, q[|q| - 1].arg)
    else OffsetOf(q[..|q| - 1], args)
  }

  function LimitOf(q: Query, args: seq<Value>): Option<nat> {
    if q == [] then None
    else if q[|q| - 1].Limit? then Some(Bound(args, q[|q| - 1].arg))
    else LimitOf(q[..|q| - 1], args)
  }

  function SelectedBy(q: Query, args: seq<Value>, t: RoomTable): set<Id> {
    set k | k in t && Selects(q, args, t[k])
  }

  /** Where a clause stands in a SELECT statement. */
  function Place(c: Clause): nat {
    match c
    case And(_, _, _) => 0
    case OrderByCoefThenPrice => 1
    case Limit(_) => 2
    case Offset(_) => 3
  }

  /** Conditions, then at most one ORDER BY, then at most one LIMIT, then at most one OFFSET. */
  ghost predicate Grammatical(q: Query) {
    forall i, j :: 0 <= i < j < |q| ==> Place(q[i]) < Place(q[j]) || (q[i].And? && q[j].And?)
  }

  /** The answers a database may give to the query: ranked only if it has the ORDER BY clause. */
  ghost predicate Answers(rows: seq<RoomRow>, q: Query, args: seq<Value>, t: RoomTable) {
    IsPage(rows, t, SelectedBy(q, args, t), OrderByCoefThenPrice in q, OffsetOf(q, args), LimitOf(q, args))
  }

  // ---- Numbering ----

  /** The placeholders of a query, from left to right. */
  function Placeholders(q: Query): seq<nat> {
    if q == [] then []
    else
      var last := q[|q| - 1];
      Placeholders(q[..|q| - 1]) + (if last.OrderByCoefThenPrice? then [] else [last.arg])
  }

  /** Placeholders are $1, $2, ... in order, one for each argument. */
  ghost predicate Numbered(q: Query, args: seq<Value>) {
    Placeholders(q) == seq(|args|, i => i + 1)
  }

  lemma {:induction false} PlaceholdersAreBound(q: Query, args: seq<Value>, i: nat)
    requires i < |q| && !q[i].OrderByCoefThenPrice?
    ensures q[i].arg in Placeholders(q)
  {
    if i < |q| - 1 {
      PlaceholdersAreBound(q[..|q| - 1], args, i);
    }
  }

  lemma NumberedExtends(q: Query, args: seq<Value>, c: Clause, v: Value)
    requires Numbered(q, args) && !c.OrderByCoefThenPrice? && c.arg == |args| + 1
    ensures Numbered(q + [c], args + [v])
  {
    assert (q + [c])[..|q|] == q;
  }

  lemma BoundsAreWithin(q: Query, args: seq<Value>)
    requires Numbered(q, args)
    ensures forall i :: 0 <= i < |q| && !q[i].OrderByCoefThenPrice? ==> 1 <= q[i].arg <= |args|
  {
    forall i | 0 <= i < |q| && !q[i].OrderByCoefThenPrice? ensures 1 <= q[i].arg <= |args| {
      PlaceholdersAreBound(q, args, i);
    }
  }

  // ---- The builder ----

  /** An optional condition on one column. */
  datatype Bounding = Bounding(active: bool, column: Column, comparison: Comparison, value: Value)

  /** The k-th bound of a filter, in the builder's order. */
  function BoundAt(f: Filter, k: nat): Bounding
    requires k < 8
  {
    match k
    case 0 => Bounding(f.hotelId != "", HotelId, Equal, Text(f.hotelId))
    case 1 => Bounding(f.roomType != "", RoomType, Equal, Text(f.roomType))
    case 2 => Bounding(f.minCapacity > 0, Capacity, AtLeast, Int(f.minCapacity))
    case 3 => Bounding(f.maxCapacity > 0, Capacity, AtMost, Int(f.maxCapacity))
    case 4 => Bounding(f.minPrice > 0.0, Price, AtLeast, Float(f.minPrice))
    case 5 => Bounding(f.maxPrice > 0.0, Price, AtMost, Float(f.maxPrice))
    case 6 => Bounding(f.minCoef > 0.0, RecommendationCoef, AtLeast, Float(f.minCoef))
    case _ => Bounding(f.maxCoef > 0.0, RecommendationCoef, AtMost, Float(f.maxCoef))
  }

  predicate MeetsBound(f: Filter, row: RoomRow, k: nat)
    requires k < 8
  {
    var b := BoundAt(f, k);
    b.active ==> Compares(ColumnOf(row, b.column), b.comparison, b.value)
  }

  /** The clauses so far are conditions that test exactly the first n bounds. */
  ghost predicate Tests(q: Query, args: seq<Value>, f: Filter, n: nat)
    requires n <= 8
  {
    && Numbered(q, args)
    && (forall i :: 0 <= i < |q| ==> q[i].And?)
    && forall row :: Selects(q, args, row) <==> forall k :: 0 <= k < n ==> MeetsBound(f, row, k)
  }

  lemma ConditionAppended(q: Query, args: seq<Value>, c: Clause, v: Value, row: RoomRow)
    requires Numbered(q, args) && c.And? && c.arg == |args| + 1
    ensures Selects(q + [c], args + [v], row) <==>
            Selects(q, args, row) && Compares(ColumnOf(row, c.column), c.comparison, v)
  {
    BoundsAreWithin(q, args);
    var p := q + [c];
    assert Holds(p[|q|], args + [v], row) <==> Compares(ColumnOf(row, c.column), c.comparison, v);
    assert forall i :: 0 <= i < |q| && q[i].And? ==> (Holds(q[i], args, row) <==> Holds(p[i], args + [v], row));
    assert forall i :: 0 <= i < |q| ==> p[i] == q[i];
  }

  /** The clauses and arguments of the first n bounds. */
  function Built(f: Filter, n: nat): (r: (Query, seq<Value>))
    requires n <= 8
    ensures |r.1| <= n
  {
    if n == 0 then ([], [])
    else
      var (q, args) := Built(f, n - 1);
      var b := BoundAt(f, n - 1);
      if b.active then (q + [And(b.column, b.comparison, |args| + 1)], args + [b.value]) else (q, args)
  }

  lemma BoundAdded(q: Query, args: seq<Value>, f: Filter, k: nat)
    requires k < 8 && Tests(q, args, f, k) && BoundAt(f, k).active
    ensures var b := BoundAt(f, k);
      Tests(q + [And(b.column, b.comparison, |args| + 1)], args + [b.value], f, k + 1)
  {
    var b := BoundAt(f, k);
    var c := And(b.column, b.comparison, |args| + 1);
    NumberedExtends(q, args, c, b.value);
    forall row
      ensures Selects(q + [c], args + [b.value], row) <==> forall m :: 0 <= m < k + 1 ==> MeetsBound(f, row, m)
    {
      ConditionAppended(q, args, c, b.value, row);
      assert MeetsBound(f, row, k) <==> Compares(ColumnOf(row, c.column), c.comparison, b.value);
    }
  }

  lemma BoundSkipped(q: Query, args: seq<Value>, f: Filter, k: nat)
    requires k < 8 && Tests(q, args, f, k) && !BoundAt(f, k).active
    ensures Tests(q, args, f, k + 1)
  {
    forall row ensures Selects(q, args, row) <==> forall m :: 0 <= m < k + 1 ==> MeetsBound(f, row, m) {
      assert MeetsBound(f, row, k);
    }
  }

  lemma {:induction false} BuiltTestsBounds(f: Filter, n: nat)
    requires n <= 8
    ensures var (q, args) := Built(f, n); Tests(q, args, f, n)
  {
    if n > 0 {
      BuiltTestsBounds(f, n - 1);
      var (q, args) := Built(f, n - 1);
      var b := BoundAt(f, n - 1);
      if b.active {
        BoundAdded(q, args, f, n - 1);
        assert Built(f, n) == (q + [And(b.column, b.comparison, |args| + 1)], args + [b.value]);
      } else {
        BoundSkipped(q, args, f, n - 1);
        assert Built(f, n) == (q, args);
      }
    }
  }

  lemma AllBoundsMet(f: Filter, row: RoomRow)
    ensures Meets(f, row) <==> forall k :: 0 <= k < 8 ==> MeetsBound(f, row, k)
  {
    if forall k :: 0 <= k < 8 ==> MeetsBound(f, row, k) {
      assert MeetsBound(f, row, 0) && MeetsBound(f, row, 1) && MeetsBound(f, row, 2) && MeetsBound(f, row, 3);
      assert MeetsBound(f, row, 4) && MeetsBound(f, row, 5) && MeetsBound(f, row, 6) && MeetsBound(f, row, 7);
    }
  }

  /** A well-formed, numbered, ordered query that selects exactly the rows that meet the filter. */
  ghost predicate Filters(q: Query, args: seq<Value>, f: Filter) {
    && Grammatical(q) && Numbered(q, args) && OrderByCoefThenPrice in q
    && (forall row :: Selects(q, args, row) <==> Meets(f, row))
  }

  /** The query and arguments mean the filter: the same rows, ranked, the same page. */
  ghost predicate Expresses(q: Query, args: seq<Value>, f: Filter) {
    && Filters(q, args, f) && |args| <= 10
    && OffsetOf(q, args) == OffsetAsked(f) && LimitOf(q, args) == LimitAsked(f)
  }

  /** The first four bounds of the WHERE part. */
  method BuildPlaceBounds(f: Filter) returns (query: Query, args: seq<Value>, idx: nat)
    ensures (query, args) == Built(f, 4) && idx == |args| + 1
  {
    query, args, idx := [], [], 1;
    ghost var n := 0;
    if f.hotelId != "" {
      query, args, idx := query + [And(HotelId, Equal, idx)], args + [Text(f.hotelId)], idx + 1;
    }
    n := n + 1;
    assert (query, args) == Built(f, n) && idx == |args| + 1;
    if f.roomType != "" {
      query, args, idx := query + [And(RoomType, Equal, idx)], args + [Text(f.roomType)], idx + 1;
    }
    n := n + 1;
    assert (query, args) == Built(f, n) && idx == |args| + 1;
    if f.minCapacity > 0 {
      query, args, idx := query + [And(Capacity, AtLeast, idx)], args + [Int(f.minCapacity)], idx + 1;
    }
    n := n + 1;
    assert (query, args) == Built(f, n) && idx == |args| + 1;
    if f.maxCapacity > 0 {
      query, args, idx := query + [And(Capacity, AtMost, idx)], args + [Int(f.maxCapacity)], idx + 1;
    }
  }

  /** The WHERE part: the other four bounds follow. */
  method BuildConditions(f: Filter) returns (query: Query, args: seq<Value>, idx: nat)
    ensures Tests(query, args, f, 8) && |args| <= 8 && idx == |args| + 1
  {
    query, args, idx := BuildPlaceBounds(f);
    ghost var n := 4;
    if f.minPrice > 0.0 {
      query, args, idx := query + [And(Price, AtLeast, idx)], args + [Float(f.minPrice)], idx + 1;
    }
    n := n + 1;
    assert (query, args) == Built(f, n) && idx == |args| + 1;
    if f.maxPrice > 0.0 {
      query, args, idx := query + [And(Price, AtMost, idx)], args + [Float(f.maxPrice)], idx + 1;
    }
    n := n + 1;
    assert (query, args) == Built(f, n) && idx == |args| + 1;
    if f.minCoef > 0.0 {
      query, args, idx := query + [And(RecommendationCoef, AtLeast, idx)], args + [Float(f.minCoef)], idx + 1;
    }
    n := n + 1;
    assert (query, args) == Built(f, n) && idx == |args| + 1;
    if f.maxCoef > 0.0 {
      query, args, idx := query + [And(RecommendationCoef, AtMost, idx)], args + [Float(f.maxCoef)], idx + 1;
    }
    n := n + 1;
    assert (query, args) == Built(f, n);
    BuiltTestsBounds(f, n);
  }

  /** A clause after the WHERE part tests no rows. */
  lemma TailAppended(q: Query, args: seq<Value>, c: Clause, more: seq<Value>, row: RoomRow)
    requires Numbered(q, args) && !c.And?
    ensures Selects(q + [c], args + more, row) <==> Selects(q, args, row)
  {
    BoundsAreWithin(q, args);
    var p := q + [c];
    assert forall i :: 0 <= i < |q| ==> p[i] == q[i];
    assert forall i :: 0 <= i < |q| && q[i].And? ==> (Holds(q[i], args, row) <==> Holds(p[i], args + more, row));
  }

  /** The page clauses after the WHERE part and the ORDER BY are not read by the earlier ones. */
  lemma {:induction false} NoPageYet(q: Query, args: seq<Value>)
    requires UpTo(q, 1)
    ensures OffsetOf(q, args) == 0 && LimitOf(q, args) == None
  {
    if q != [] {
      NoPageYet(q[..|q| - 1], args);
    }
  }

  method BuildQuery(f: Filter) returns (query: Query, args: seq<Value>)
    ensures Expresses(query, args, f)
  {
    var idx: nat;
    query, args, idx := BuildConditions(f);
    OrderAppended(query, args, f);
    query := query + [OrderByCoefThenPrice];
    query, args := BuildPage(query, args, idx, f);
  }

  /** LIMIT and OFFSET, each if the filter asks for it. */
  method BuildPage(ordered: Query, given: seq<Value>, idx: nat, f: Filter) returns (query: Query, args: seq<Value>)
    requires Filters(ordered, given, f) && UpTo(ordered, 1) && |given| <= 8 && idx == |given| + 1
    ensures Expresses(query, args, f)
  {
    PageExpresses(ordered, given, f);
    query, args := ordered, given;
    var next := idx;
    if f.limit > 0 {
      query, args, next := query + [Limit(next)], args + [Int(f.limit)], next + 1;
    }
    assert (query, args) == WithLimit(ordered, given, f) && next == |args| + 1;
    if f.offset > 0 {
      query, args := query + [Offset(next)], args + [Int(f.offset)];
    }
  }

  function WithLimit(q: Query, args: seq<Value>, f: Filter): (Query, seq<Value>) {
    if f.limit > 0 then (q + [Limit(|args| + 1)], args + [Int(f.limit)]) else (q, args)
  }

  function WithOffset(q: Query, args: seq<Value>, f: Filter): (Query, seq<Value>) {
    if f.offset > 0 then (q + [Offset(|args| + 1)], args + [Int(f.offset)]) else (q, args)
  }

  /** No clause stands after the given place. */
  ghost predicate UpTo(q: Query, place: nat) {
    forall i :: 0 <= i < |q| ==> Place(q[i]) <= place
  }

  lemma OrderAppended(q: Query, args: seq<Value>, f: Filter)
    requires Tests(q, args, f, 8)
    ensures var q' := q + [OrderByCoefThenPrice]; Filters(q', args, f) && UpTo(q', 1)
  {
    var q' := q + [OrderByCoefThenPrice];
    forall row ensures Selects(q', args, row) <==> Meets(f, row) {
      AllBoundsMet(f, row);
      TailAppended(q, args, OrderByCoefThenPrice, [], row);
      assert args + [] == args;
    }
    assert q'[..|q|] == q && q'[|q|] == OrderByCoefThenPrice;
  }

  /** A page clause with its argument, in its place, leaves the selection as it is. */
  lemma PageClauseAppended(q: Query, args: seq<Value>, c: Clause, v: Value, f: Filter, place: nat)
    requires Filters(q, args, f) && UpTo(q, place) && place < Place(c) && 2 <= Place(c) && c.arg == |args| + 1
    ensures Filters(q + [c], args + [v], f) && UpTo(q + [c], Place(c))
  {
    NumberedExtends(q, args, c, v);
    forall row ensures Selects(q + [c], args + [v], row) <==> Meets(f, row) {
      TailAppended(q, args, c, [v], row);
    }
  }

  lemma LimitAppended(q: Query, args: seq<Value>, f: Filter)
    requires Filters(q, args, f) && UpTo(q, 1)
    ensures var (q', args') := WithLimit(q, args, f);
      && Filters(q', args', f) && UpTo(q', 2)
      && OffsetOf(q', args') == 0 && LimitOf(q', args') == LimitAsked(f)
  {
    if f.limit > 0 {
      var c := Limit(|args| + 1);
      PageClauseAppended(q, args, c, Int(f.limit), f, 1);
      NoPageYet(q, args + [Int(f.limit)]);
      assert (q + [c])[..|q|] == q;
    } else {
      NoPageYet(q, args);
    }
  }

  lemma OffsetAppended(q: Query, args: seq<Value>, f: Filter)
    requires Filters(q, args, f) && UpTo(q, 2) && OffsetOf(q, args) == 0
    ensures var (q', args') := WithOffset(q, args, f);
      Filters(q', args', f) && OffsetOf(q', args') == OffsetAsked(f) && LimitOf(q', args') == LimitOf(q, args)
  {
    if f.offset > 0 {
      var c, v := Offset(|args| + 1), Int(f.offset);
      PageClauseAppended(q, args, c, v, f, 2);
      BoundsAreWithin(q, args);
      LimitIsStable(q, args, [v]);
      assert (q + [c])[..|q|] == q;
    }
  }

  lemma PageExpresses(ordered: Query, given: seq<Value>, f: Filter)
    requires Filters(ordered, given, f) && UpTo(ordered, 1) && |given| <= 8
    ensures var (q, args) := WithLimit(ordered, given, f);
      var (q', args') := WithOffset(q, args, f);
      Expresses(q', args', f)
  {
    var (q, args) := WithLimit(ordered, given, f);
    LimitAppended(ordered, given, f);
    OffsetAppended(q, args, f);
  }

  lemma {:induction false} LimitIsStable(q: Query, args: seq<Value>, more: seq<Value>)
    requires forall i :: 0 <= i < |q| && !q[i].OrderByCoefThenPrice? ==> 1 <= q[i].arg <= |args|
    ensures LimitOf(q, args + more) == LimitOf(q, args)
  {
    if q != [] {
      LimitIsStable(q[..|q| - 1], args, more);
    }
  }

  /** Evaluating the built clauses with the built arguments is applying the filter: the same
      answers, for every table. */
  lemma ExpressedMeaning(q: Query, args: seq<Value>, f: Filter, t: RoomTable, rows: seq<RoomRow>)
    requires Expresses(q, args, f)
    ensures Answers(rows, q, args, t) <==> IsFilterPage(rows, t, f)
  {
    assert SelectedBy(q, args, t) == Kept(f, t);
  }

  // ---- In columns ----

  /** Two rows of a page, by their columns: coefficient descending, then price ascending. */
  lemma PageIsRanked(rows: seq<RoomRow>, t: RoomTable, f: Filter, i: nat, j: nat)
    requires IsFilterPage(rows, t, f) && i < j < |rows|
    ensures rows[i].coef > rows[j].coef || (rows[i].coef == rows[j].coef && rows[i].price <= rows[j].price)
  {
    var whole := PageInColumns(rows, t, f);
  }

  /** A page is cut from a listing of exactly the stored rows that meet the active bounds, each
      once, by descending coefficient and then ascending price: it begins at the offset, if there
      is one, and has the limit's length, if there is one, unless the listing ends before. */
  lemma PageInColumns(rows: seq<RoomRow>, t: RoomTable, f: Filter) returns (whole: seq<RoomRow>)
    requires IsFilterPage(rows, t, f)
    ensures forall i :: 0 <= i < |whole| ==> whole[i].id in t && t[whole[i].id] == whole[i]
    ensures forall i, j :: 0 <= i < j < |whole| ==> whole[i].id != whole[j].id
    ensures forall k :: k in t ==>
      (t[k] in whole <==>
        && (f.hotelId != "" ==> t[k].hotelId == f.hotelId)
        && (f.roomType != "" ==> t[k].roomType == f.roomType)
        && (f.minCapacity > 0 ==> t[k].capacity >= f.minCapacity)
        && (f.maxCapacity > 0 ==> t[k].capacity <= f.maxCapacity)
        && (f.minPrice > 0.0 ==> t[k].price >= f.minPrice)
        && (f.maxPrice > 0.0 ==> t[k].price <= f.maxPrice)
        && (f.minCoef > 0.0 ==> t[k].coef >= f.minCoef)
        && (f.maxCoef > 0.0 ==> t[k].coef <= f.maxCoef))
    ensures Ranked(whole) && forall i, j :: 0 <= i < j < |whole| ==>
      whole[i].coef > whole[j].coef || (whole[i].coef == whole[j].coef && whole[i].price <= whole[j].price)
    ensures var from := if f.offset > 0 then f.offset else 0;
      && |rows| == (if from >= |whole| then 0
                    else if 0 < f.limit < |whole| - from then f.limit
                    else |whole| - from)
      && forall i :: 0 <= i < |rows| ==> rows[i] == whole[from + i]
  {
    whole :| IsListing(whole, t, Kept(f, t)) && Ranked(whole) && rows == Window(whole, OffsetAsked(f), LimitAsked(f));
    forall k | k in t ensures t[k] in whole <==> Meets(f, t[k]) {
      KeptIsListed(whole, t, f, k);
    }
    RankedInColumns(whole);
    WindowInPlace(whole, f);
  }

  lemma KeptIsListed(whole: seq<RoomRow>, t: RoomTable, f: Filter, k: Id)
    requires IsListing(whole, t, Kept(f, t)) && k in t
    ensures t[k] in whole <==> Meets(f, t[k])
  {
    if Meets(f, t[k]) {
      assert k in Kept(f, t);
    }
  }

  lemma RankedInColumns(whole: seq<RoomRow>)
    requires Ranked(whole)
    ensures forall i, j :: 0 <= i < j < |whole| ==>
      whole[i].coef > whole[j].coef || (whole[i].coef == whole[j].coef && whole[i].price <= whole[j].price)
  {
    assert forall i, j :: 0 <= i < j < |whole| ==> RanksBefore(whole[i], whole[j]);
  }

  lemma WindowInPlace<T>(whole: seq<T>, f: Filter)
    ensures var rows, from := Window(whole, OffsetAsked(f), LimitAsked(f)), if f.offset > 0 then f.offset else 0;
      && |rows| == (if from >= |whole| then 0
                    else if 0 < f.limit < |whole| - from then f.limit
                    else |whole| - from)
      && forall i :: 0 <= i < |rows| ==> rows[i] == whole[from + i]
  {
  }

  /** A kept row that is not on a page ranks after every row on it or, only if there is an offset,
      before every row on it. */
  lemma NothingBetterIsLeftOff(rows: seq<RoomRow>, t: RoomTable, f: Filter, k: Id)
    requires IsFilterPage(rows, t, f) && k in t && Meets(f, t[k]) && t[k] !in rows
    ensures
      || (forall i :: 0 <= i < |rows| ==>
           rows[i].coef > t[k].coef || (rows[i].coef == t[k].coef && rows[i].price <= t[k].price))
      || (f.offset > 0 && forall i :: 0 <= i < |rows| ==>
           t[k].coef > rows[i].coef || (t[k].coef == rows[i].coef && t[k].price <= rows[i].price))
  {
    assert k in Kept(f, t);
    LeftOff(rows, t, f, k);
    assert forall i :: 0 <= i < |rows| && RanksBefore(rows[i], t[k]) ==>
      rows[i].coef > t[k].coef || (rows[i].coef == t[k].coef && rows[i].price <= t[k].price);
    assert forall i :: 0 <= i < |rows| && RanksBefore(t[k], rows[i]) ==>
      t[k].coef > rows[i].coef || (t[k].coef == rows[i].coef && t[k].price <= rows[i].price);
  }

  /** The row ranks after all the others or, if some rows are skipped, before them all. */
  ghost predicate RanksOff(rows: seq<RoomRow>, row: RoomRow, skipped: nat) {
    || (forall i :: 0 <= i < |rows| ==> RanksBefore(rows[i], row))
    || (skipped > 0 && forall i :: 0 <= i < |rows| ==> RanksBefore(row, rows[i]))
  }

  lemma LeftOff(rows: seq<RoomRow>, t: RoomTable, f: Filter, k: Id)
    requires IsFilterPage(rows, t, f) && k in Kept(f, t) && t[k] !in rows
    ensures RanksOff(rows, t[k], OffsetAsked(f))
  {
    var whole :| IsListing(whole, t, Kept(f, t)) && Ranked(whole) && rows == Window(whole, OffsetAsked(f), LimitAsked(f));
    assert t[k] in whole;
    var m :| 0 <= m < |whole| && whole[m] == t[k];
    OffPage(whole, OffsetAsked(f), LimitAsked(f), m);
  }

  lemma Between<T>(whole: seq<T>, rows: seq<T>, from: nat, m: nat)
    requires from <= m < from + |rows| <= |whole| && rows == whole[from..from + |rows|]
    ensures whole[m] in rows
  {
    assert rows[m - from] == whole[m];
  }

  lemma OffPage(whole: seq<RoomRow>, offset: nat, limit: Option<nat>, m: nat)
    requires Ranked(whole) && m < |whole| && whole[m] !in Window(whole, offset, limit)
    ensures RanksOff(Window(whole, offset, limit), whole[m], offset)
  {
    var rows := Window(whole, offset, limit);
    if rows != [] {
      assert rows == whole[offset..offset + |rows|];
      if offset <= m && m < offset + |rows| {
        Between(whole, rows, offset, m);
      }
    }
  }

  /** What a WHERE clause with a bound argument demands of a row's columns. */
  lemma ClauseInColumns(n: nat, args: seq<Value>, row: RoomRow, s: string, k: int, x: real)
    requires 1 <= n <= |args|
    ensures args[n - 1] == Text(s) ==> (Holds(And(HotelId, Equal, n), args, row) <==> row.hotelId == s)
    ensures args[n - 1] == Text(s) ==> (Holds(And(RoomType, Equal, n), args, row) <==> row.roomType == s)
    ensures args[n - 1] == Int(k) ==> (Holds(And(Capacity, AtLeast, n), args, row) <==> row.capacity >= k)
    ensures args[n - 1] == Int(k) ==> (Holds(And(Capacity, AtMost, n), args, row) <==> row.capacity <= k)
    ensures args[n - 1] == Float(x) ==> (Holds(And(Price, AtLeast, n), args, row) <==> row.price >= x)
    ensures args[n - 1] == Float(x) ==> (Holds(And(Price, AtMost, n), args, row) <==> row.price <= x)
    ensures args[n - 1] == Float(x) ==> (Holds(And(RecommendationCoef, AtLeast, n), args, row) <==> row.coef >= x)
    ensures args[n - 1] == Float(x) ==> (Holds(And(RecommendationCoef, AtMost, n), args, row) <==> row.coef <= x)
  {
  }

  /** What the page clauses mean: the last of each kind tells how many rows to skip, and how many to give. */
  lemma {:induction false} PageClausesMean(q: Query, args: seq<Value>, i: nat, n: nat)
    requires i < |q| && (q[i].Limit? || q[i].Offset?) && 1 <= q[i].arg <= |args| && args[q[i].arg - 1] == Int(n)
    requires forall j :: i < j < |q| ==> (q[i].Limit? ==> !q[j].Limit?) && (q[i].Offset? ==> !q[j].Offset?)
    ensures q[i].Limit? ==> LimitOf(q, args) == Some(n)
    ensures q[i].Offset? ==> OffsetOf(q, args) == n
  {
    if i < |q| - 1 {
      PageClausesMean(q[..|q| - 1], args, i, n);
    }
  }

  lemma {:induction false} NoPageClauses(q: Query, args: seq<Value>)
    ensures (forall j :: 0 <= j < |q| ==> !q[j].Limit?) ==> LimitOf(q, args) == None
    ensures (forall j :: 0 <= j < |q| ==> !q[j].Offset?) ==> OffsetOf(q, args) == 0
  {
    if q != [] {
      NoPageClauses(q[..|q| - 1], args);
    }
  }

  lemma {:induction false} PlaceholderAt(q: Query, i: nat)
    requires Grammatical(q) && i < |q| && !q[i].OrderByCoefThenPrice?
    ensures var n := |Placeholders(q[..i])|;
      && n == (if exists j :: 0 <= j < i && q[j].OrderByCoefThenPrice? then i - 1 else i)
      && n < |Placeholders(q)| && Placeholders(q)[n] == q[i].arg
    decreases |q|
  {
    var m := |q| - 1;
    PlaceholdersBefore(q, i);
    if i < m {
      PlaceholderAt(q[..m], i);
      assert q[..m][..i] == q[..i];
    }
  }

  lemma {:induction false} PlaceholdersBefore(q: Query, i: nat)
    requires Grammatical(q) && i <= |q|
    ensures |Placeholders(q[..i])| == if exists j :: 0 <= j < i && q[j].OrderByCoefThenPrice? then i - 1 else i
  {
    if i > 0 {
      PlaceholdersBefore(q, i - 1);
      assert q[..i][..i - 1] == q[..i - 1];
      assert q[i - 1].OrderByCoefThenPrice? ==> forall j :: 0 <= j < i - 1 ==> !q[j].OrderByCoefThenPrice?;
    }
  }

  /** The built query clause by clause: conditions, ORDER BY, LIMIT, OFFSET in this order, and the
      placeholder of clause i is its own place among the clauses that have one. */
  lemma ExpressedClauses(q: Query, args: seq<Value>, f: Filter, i: nat)
    requires Expresses(q, args, f) && i < |q|
    ensures OrderByCoefThenPrice in q && |args| <= 10
    ensures q[i].And? ==> q[i].arg == i + 1 <= |args| && forall j :: 0 <= j < i ==> q[j].And?
    ensures q[i].OrderByCoefThenPrice? ==> forall j :: 0 <= j < i ==> q[j].And?
    ensures q[i].Limit? ==> q[i].arg == i <= |args| && i > 0 && q[i - 1].OrderByCoefThenPrice?
    ensures q[i].Offset? ==> q[i].arg == i <= |args| && i == |q| - 1
  {
    var o :| 0 <= o < |q| && q[o] == OrderByCoefThenPrice;
    assert i != o ==> Place(q[i]) < 1 || Place(q[i]) > 1;
    if !q[i].OrderByCoefThenPrice? {
      PlaceholderAt(q, i);
      assert Placeholders(q)[|Placeholders(q[..i])|] == |Placeholders(q[..i])| + 1;
    }
  }
}
