/** The domain model: rooms, their amenities, the requests, and the coefficient's weights. */
module Models {

  datatype Option<+T> = None | Some(value: T)

  datatype Result<+T, +E> = Ok(value: T) | Err(error: E)

  /** A TEXT identifier, modelled by its rank in text order; 0 is the empty string. */
  type Id = nat

  type Time = int

  const NO_ID: Id := 0

  /** What a request says of one highlighted amenity. */
  datatype Highlight = Highlight(icon: string, text: string)

  /** What a request says of one amenity category. */
  datatype Category = Category(name: string, description: string, tier: string, amenityCount: int)

  /** A child row of a room: an identified, timestamped highlight or category. */
  datatype Child<+P> = Child(id: Id, roomId: Id, info: P, createdAt: Time, updatedAt: Time)

  type HighlightedAmenity = Child<Highlight>
  type AmenityCategory = Child<Category>

  /** The columns of the `rooms` table. */
  datatype RoomRow = RoomRow(
    id: Id, hotelId: string, name: string, roomType: string, price: real, capacity: int,
    description: string, spaceInfo: string, bedDistribution: string, quantity: int,
    amenityCount: int, coef: real, createdAt: Time, updatedAt: Time)

  /** The key availability is asked for. */
  predicate HasKey(row: RoomRow, hotelId: string, roomType: string, name: string) {
    row.hotelId == hotelId && row.roomType == roomType && row.name == name
  }

  /** A room as the service hands it around, with its child rows attached. */
  datatype Room = Room(row: RoomRow, highlighted: seq<HighlightedAmenity>, categories: seq<AmenityCategory>)

  datatype CreateRequest = CreateRequest(
    name: string, roomType: string, price: real, capacity: int, description: string,
    spaceInfo: string, bedDistribution: string, quantity: int,
    highlighted: seq<Highlight>, categories: seq<Category>)

  /** A partial update: empty strings, nonpositive numbers and `None` lists mean "leave alone".
      A list that is present but empty is `Some([])`. */
  datatype UpdateRequest = UpdateRequest(
    name: string, roomType: string, price: real, capacity: int, description: string,
    spaceInfo: string, bedDistribution: string, quantity: int,
    highlighted: Option<seq<Highlight>>, categories: Option<seq<Category>>)

  datatype Filter = Filter(
    hotelId: string, roomType: string, types: seq<string>, minCapacity: int, maxCapacity: int,
    minPrice: real, maxPrice: real, minCoef: real, maxCoef: real, limit: int, offset: int)

  const ICON_MULTIPLIERS: map<string, real> := map[
    "bed" := 1.5,
    "snowflake" := 1.2,
    "tv" := 1.1,
    "coffee" := 1.1,
    "sofa" := 1.2,
    "utensils" := 1.3,
    "headphones" := 1.1,
    "sparkle" := 1.4,
    "briefcase" := 1.1,
    "mountain" := 1.3,
    "lock" := 1.2,
    "info" := 1.0,
    "wifi" := 1.5
  ]

  const TIER_BASIC := "basic"

  const TIER_MULTIPLIERS: map<string, real> := map[
    TIER_BASIC := 0.8,
    "essential" := 1.0,
    "comfort" := 1.2,
    "luxury" := 1.5
  ]

  /** The clock's reading at some instant. */
  method Now() returns (now: Time) {
    now := *;
  }

  /** The part of each child row that came from a request. */
  function Infos<P>(rows: seq<Child<P>>): (infos: seq<P>)
    ensures |infos| == |rows|
    ensures forall i :: 0 <= i < |rows| ==> infos[i] == rows[i].info
  {
    seq(|rows|, i requires 0 <= i < |rows| => rows[i].info)
  }
}
