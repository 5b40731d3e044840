/** The Room schema: a required, trimmed and unique room number, an enumerated
    type, an occupancy flag defaulting to false and an optional reference to a
    patient defaulting to null. */
module RoomModel {
  import opened Text
  import opened Forms

  /** A room document (createdAt left out). `roomType` is the schema's `type`;
      an assigned patient is referred to by id. */
  datatype Room = Room(roomNumber: string, roomType: string, isOccupied: bool, assignedPatient: Option<nat>)

  /** type: one of the enumerated values. */
  predicate ValidRoomType(t: string) {
    t == "General" || t == "Private" || t == "ICU" || t == "Emergency"
  }

  /** The field checks a save applies: roomNumber trimmed then required, type in
      the enumeration. Nothing relates isOccupied to assignedPatient. */
  predicate ValidRoom(r: Room) {
    Trim(r.roomNumber) != [] && ValidRoomType(r.roomType)
  }

  /** The unique index on roomNumber: no two rooms share a number. */
  predicate UniqueNumbers(rooms: map<nat, Room>) {
    forall a, b :: a in rooms && b in rooms && rooms[a].roomNumber == rooms[b].roomNumber ==> a == b
  }

  /** A document built from the given fields, with the schema's defaults for the
      ones not given: not occupied, no assigned patient. */
  function NewRoom(roomNumber: string, roomType: string, isOccupied: Option<bool>): (r: Room)
    ensures r.roomNumber == roomNumber && r.roomType == roomType
    ensures r.isOccupied <==> isOccupied == Some(true)
    ensures r.assignedPatient == None
  {
    Room(roomNumber, roomType, if isOccupied.Some? then isOccupied.value else false, None)
  }

  /** Validity of a new room depends on its number and type only, so a room may
      be occupied with nobody assigned, or vacant with a patient assigned. */
  lemma OccupancyUnconstrained(roomNumber: string, roomType: string, patient: nat)
    requires Trim(roomNumber) != [] && ValidRoomType(roomType)
    ensures ValidRoom(NewRoom(roomNumber, roomType, Some(true)))
    ensures ValidRoom(NewRoom(roomNumber, roomType, None).(assignedPatient := Some(patient)))
  {
  }

  /** A room whose number is blank (empty or whitespace only) is rejected. */
  lemma BlankNumberRejected(r: Room)
    requires AllWhitespace(r.roomNumber)
    ensures !ValidRoom(r)
  {
    TrimEmptyIff(r.roomNumber);
  }

  /** Adding a room under a fresh id keeps numbers unique when its number is
      not already held. */
  lemma AddKeepsUnique(rooms: map<nat, Room>, id: nat, r: Room)
    requires UniqueNumbers(rooms) && id !in rooms
    requires forall k :: k in rooms ==> rooms[k].roomNumber != r.roomNumber
    ensures UniqueNumbers(rooms[id := r])
  {
  }

  /** Replacing a room keeps numbers unique when no other room holds its new number. */
  lemma ReplaceKeepsUnique(rooms: map<nat, Room>, id: nat, r: Room)
    requires UniqueNumbers(rooms)
    requires forall k :: k in rooms && k != id ==> rooms[k].roomNumber != r.roomNumber
    ensures UniqueNumbers(rooms[id := r])
  {
  }

  /** Removing a room keeps numbers unique. */
  lemma RemoveKeepsUnique(rooms: map<nat, Room>, id: nat)
    requires UniqueNumbers(rooms)
    ensures UniqueNumbers(rooms - {id})
  {
  }
}
