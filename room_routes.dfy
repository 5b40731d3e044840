/** The room handlers over an in-memory collection: list, create with a
    duplicate check, get, update with a duplicate check that leaves the room
    itself out, and delete. Every successful write keeps room numbers pairwise
    distinct. */
module RoomRoutes {
  import opened Text
  import opened Forms
  import opened Listing
  import opened RoomModel

  /** The submitted form; None is a field that was not sent. */
  datatype RoomForm = RoomForm(roomNumber: Option<string>, roomType: Option<string>, isOccupied: Option<string>)

  /** The create handler's presence check. */
  predicate BothPresent(f: RoomForm) {
    Present(f.roomNumber) && Present(f.roomType)
  }

  /** The checkbox convention: a ticked box sends "on", an unticked one nothing. */
  function Checked(box: Option<string>): bool {
    box == Some("on")
  }

  /** findOne({ roomNumber: n }) finds a room. */
  predicate NumberHeld(rooms: map<nat, Room>, n: string) {
    exists id :: id in rooms && rooms[id].roomNumber == n
  }

  /** findOne({ roomNumber: n, _id: { $ne: self } }) finds a room. */
  predicate NumberHeldByOther(rooms: map<nat, Room>, n: string, self: nat) {
    exists id :: id in rooms && id != self && rooms[id].roomNumber == n
  }

  /** The document the create handler builds. */
  function Built(f: RoomForm): Room
    requires BothPresent(f)
  {
    NewRoom(Trim(f.roomNumber.value), Trim(f.roomType.value), Some(Checked(f.isOccupied)))
  }

  /** The fetched document after the update handler's three assignments; the
      assigned patient is left as it was. */
  function Edited(r: Room, f: RoomForm): Room
    requires f.roomNumber.Some? && f.roomType.Some?
  {
    r.(roomNumber := Trim(f.roomNumber.value), roomType := Trim(f.roomType.value), isOccupied := Checked(f.isOccupied))
  }

  /** A created room holds the trimmed number and type, is occupied exactly
      when the box was ticked, and has nobody assigned. */
  lemma BuiltFields(f: RoomForm)
    requires BothPresent(f)
    ensures Built(f).roomNumber == Trim(f.roomNumber.value) && Built(f).roomType == Trim(f.roomType.value)
    ensures Built(f).isOccupied <==> f.isOccupied == Some("on")
    ensures Built(f).assignedPatient == None
  {
  }

  /** An edit replaces the number, the type and the occupancy flag, and keeps
      the assigned patient of the stored room. */
  lemma EditedFields(r: Room, f: RoomForm)
    requires f.roomNumber.Some? && f.roomType.Some?
    ensures Edited(r, f).roomNumber == Trim(f.roomNumber.value) && Edited(r, f).roomType == Trim(f.roomType.value)
    ensures Edited(r, f).isOccupied <==> f.isOccupied == Some("on")
    ensures Edited(r, f).assignedPatient == r.assignedPatient
  {
  }

  /** A room's own number is never held by another room, so resubmitting it
      does not count as a duplicate. */
  lemma OwnNumberIsFree(rooms: map<nat, Room>, id: nat)
    requires UniqueNumbers(rooms) && id in rooms
    ensures !NumberHeldByOther(rooms, rooms[id].roomNumber, id)
  {
  }

  function NumberOf(r: Room): string {
    r.roomNumber
  }

  /** The rooms collection with ids drawn from a counter. */
  class RoomStore {
    var rooms: map<nat, Room>
    var nextId: nat

    /** Ids are below the counter, numbers are unique and trimmed, and every
        stored room passed the schema's checks. */
    ghost predicate Valid()
      reads this
    {
      && (forall id :: id in rooms ==> id < nextId)
      && UniqueNumbers(rooms)
      && (forall id :: id in rooms ==> ValidRoom(rooms[id]) && Trim(rooms[id].roomNumber) == rooms[id].roomNumber)
    }

    constructor ()
      ensures Valid() && rooms == map[]
    {
      rooms := map[];
      nextId := 0;
    }

    /** GET /rooms/:id: the stored room, or None for an unknown id. */
    function Get(id: nat): (r: Option<Room>)
      reads this
      ensures r.Some? <==> id in rooms
      ensures r.Some? ==> r.value == rooms[id]
    {
      if id in rooms then Some(rooms[id]) else None
    }

    /** GET /rooms: every room, each once, ascending by room number. */
    function List(): (r: seq<Entry<Room>>)
      reads this
      requires Valid()
      ensures forall e :: e in r <==> e.id in rooms && e.rec == rooms[e.id]
      ensures DistinctIds(r)
      ensures SortedBy(r, NumberOf)
    {
      Query(rooms, nextId, (r: Room) => true, NumberOf)
    }

    /** POST /rooms: presence check, duplicate check on the trimmed number, then
        a save whose validation failure reaches the 500 handler. */
    method Create(form: RoomForm) returns (out: Outcome)
      requires Valid()
      modifies this
      ensures Valid()
      ensures out == MissingFields <==> !BothPresent(form)
      ensures out == Duplicate <==> BothPresent(form) && NumberHeld(old(rooms), Trim(form.roomNumber.value))
      ensures out == ServerError <==>
        BothPresent(form) && !NumberHeld(old(rooms), Trim(form.roomNumber.value)) && !ValidRoom(Built(form))
      ensures out.Ok? <==>
        BothPresent(form) && !NumberHeld(old(rooms), Trim(form.roomNumber.value)) && ValidRoom(Built(form))
      ensures out.Ok? ==> out.id !in old(rooms) && rooms == old(rooms)[out.id := Built(form)]
      ensures old(nextId) <= nextId && (out.Ok? ==> old(nextId) <= out.id)
      ensures !out.Ok? ==> rooms == old(rooms)
    {
      if !BothPresent(form) {
        return MissingFields;
      }
      var number := Trim(form.roomNumber.value);
      if NumberHeld(rooms, number) {
        return Duplicate;
      }
      var room := Built(form);
      if !ValidRoom(room) {
        return ServerError;
      }
      TrimIdempotent(form.roomNumber.value);
      AddKeepsUnique(rooms, nextId, room);
      out := Ok(nextId);
      rooms := rooms[nextId := room];
      nextId := nextId + 1;
    }

    /** PUT /rooms/:id: fetch, duplicate check against the other rooms, assign
        the three editable fields, save. Trimming an absent number or type
        throws, and that error, like a failed validation, reaches the 500
        handler. */
    method Update(id: nat, form: RoomForm) returns (out: Outcome)
      requires Valid()
      modifies this`rooms
      ensures Valid()
      ensures out == NotFound <==> id !in old(rooms)
      ensures out == Duplicate <==>
        id in old(rooms) && form.roomNumber.Some?
        && NumberHeldByOther(old(rooms), Trim(form.roomNumber.value), id)
      ensures out == ServerError <==>
        id in old(rooms)
        && (form.roomNumber.None?
            || (!NumberHeldByOther(old(rooms), Trim(form.roomNumber.value), id)
                && (form.roomType.None? || !ValidRoom(Edited(old(rooms)[id], form)))))
      ensures out.Ok? <==>
        id in old(rooms) && form.roomNumber.Some? && form.roomType.Some?
        && !NumberHeldByOther(old(rooms), Trim(form.roomNumber.value), id)
        && ValidRoom(Edited(old(rooms)[id], form))
      ensures out.Ok? ==> out.id == id && rooms == old(rooms)[id := Edited(old(rooms)[id], form)]
      ensures !out.Ok? ==> rooms == old(rooms)
    {
      if id !in rooms {
        return NotFound;
      }
      if form.roomNumber.None? {
        return ServerError;
      }
      var number := Trim(form.roomNumber.value);
      if NumberHeldByOther(rooms, number, id) {
        return Duplicate;
      }
      if form.roomType.None? {
        return ServerError;
      }
      var room := Edited(rooms[id], form);
      if !ValidRoom(room) {
        return ServerError;
      }
      TrimIdempotent(form.roomNumber.value);
      ReplaceKeepsUnique(rooms, id, room);
      rooms := rooms[id := room];
      out := Ok(id);
    }

    /** DELETE /rooms/:id: removes the room, or reports that there is none. */
    method Delete(id: nat) returns (out: Outcome)
      requires Valid()
      modifies this`rooms
      ensures Valid()
      ensures out == (if id in old(rooms) then Ok(id) else NotFound)
      ensures rooms == old(rooms) - {id}
      ensures Get(id) == None
    {
      out := if id in rooms then Ok(id) else NotFound;
      RemoveKeepsUnique(rooms, id);
      rooms := rooms - {id};
    }
  }

  /** A client of the store: a number with spaces around it is a duplicate of
      the trimmed number, a room keeps its own number through an update, and a
      deleted room is gone, so deleting it again finds nothing. */
  method RoomScenario()
  {
    var store := new RoomStore();
    UntrimmedStays("101");
    UntrimmedStays("ICU");
    var first := RoomForm(Some("101"), Some("ICU"), Some("on"));
    assert BothPresent(first);
    var created := store.Create(first);
    assert created.Ok?;
    var id := created.id;
    assert store.Get(id) == Some(Room("101", "ICU", true, None));

    var spaced := RoomForm(Some(" 101"), Some("General"), None);
    assert Trim(" 101") == "101" by {
      assert TrimStart(" 101") == TrimStart("101");
    }
    assert BothPresent(spaced) && NumberHeld(store.rooms, "101");
    var again := store.Create(spaced);
    assert again == Duplicate;

    UntrimmedStays("Private");
    var edit := RoomForm(Some("101"), Some("Private"), None);
    OwnNumberIsFree(store.rooms, id);
    var updated := store.Update(id, edit);
    assert updated == Ok(id);
    assert store.Get(id) == Some(Room("101", "Private", false, None));

    var deleted := store.Delete(id);
    assert deleted == Ok(id) && store.Get(id) == None;
    var deletedAgain := store.Delete(id);
    assert deletedAgain == NotFound;
  }

  /** A deleted room's id is not handed out again: after creating "101",
      deleting it and creating "102", the old id still finds nothing. */
  method IdNotReusedScenario()
  {
    var store := new RoomStore();
    UntrimmedStays("101");
    UntrimmedStays("ICU");
    var first := store.Create(RoomForm(Some("101"), Some("ICU"), None));
    assert first.Ok?;
    var id := first.id;
    var deleted := store.Delete(id);
    UntrimmedStays("102");
    var second := store.Create(RoomForm(Some("102"), Some("ICU"), None));
    assert second.Ok?;
    assert second.id != id && store.Get(id) == None;
  }
}
