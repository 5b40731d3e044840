/** The patient handlers over an in-memory collection: list with an optional
    name search, create, get and full-replace update. There is no delete. */
module PatientRoutes {
  import opened Text
  import opened Forms
  import opened Numbers
  import opened Listing
  import opened PatientModel

  /** The submitted form; None is a field that was not sent. */
  datatype PatientForm = PatientForm(
    name: Option<string>,
    age: Option<string>,
    gender: Option<string>,
    contactNumber: Option<string>,
    address: Option<string>)

  /** The handlers' presence check: every field truthy. */
  predicate AllPresent(f: PatientForm) {
    Present(f.name) && Present(f.age) && Present(f.gender) && Present(f.contactNumber) && Present(f.address)
  }

  /** The document the handlers build: string fields trimmed, age through
      parseInt. None when parseInt gives NaN, which the Number cast refuses. */
  function Draft(f: PatientForm): (r: Option<Patient>)
    requires AllPresent(f)
  {
    match ParseInt(f.age.value)
    case None => None
    case Some(age) =>
      Some(Patient(Trim(f.name.value), age, Trim(f.gender.value), Trim(f.contactNumber.value), Trim(f.address.value)))
  }

  /** A draft keeps exactly what was typed, less surrounding whitespace, and the
      age parseInt reads from the age field. */
  lemma DraftFields(f: PatientForm)
    requires AllPresent(f)
    ensures Draft(f).Some? <==> ParseInt(f.age.value).Some?
    ensures Draft(f).Some? ==>
      var p := Draft(f).value;
      && p.age == ParseInt(f.age.value).value
      && Trim(p.name) == p.name && Trim(p.gender) == p.gender
      && Trim(p.contactNumber) == p.contactNumber && Trim(p.address) == p.address
      && p.name == Trim(f.name.value) && p.gender == Trim(f.gender.value)
      && p.contactNumber == Trim(f.contactNumber.value) && p.address == Trim(f.address.value)
  {
    TrimIdempotent(f.name.value);
    TrimIdempotent(f.gender.value);
    TrimIdempotent(f.contactNumber.value);
    TrimIdempotent(f.address.value);
  }

  function NameOf(p: Patient): string {
    p.name
  }

  /** The list filter: a truthy search term keeps the patients whose name
      contains the trimmed term, ignoring case; no term keeps everyone. */
  function SearchFilter(search: Option<string>): Patient -> bool {
    if Present(search) then
      var term := Trim(search.value);
      (p: Patient) => ContainsIgnoringCase(p.name, term)
    else
      (p: Patient) => true
  }

  /** A term that is only whitespace trims to nothing and so keeps everyone. */
  lemma BlankSearchKeepsAll(search: Option<string>, p: Patient)
    requires search.Some? && AllWhitespace(search.value)
    ensures SearchFilter(search)(p)
  {
    TrimEmptyIff(search.value);
    EmptyTermMatchesAll(p.name);
  }

  /** The patients collection with ids drawn from a counter. */
  class PatientStore {
    var patients: map<nat, Patient>
    var nextId: nat

    ghost predicate Valid()
      reads this
    {
      forall id :: id in patients ==> id < nextId
    }

    constructor ()
      ensures Valid() && patients == map[]
    {
      patients := map[];
      nextId := 0;
    }

    /** GET /patients/:id: the stored record, or None for an unknown id. */
    function Get(id: nat): (r: Option<Patient>)
      reads this
      ensures r.Some? <==> id in patients
      ensures r.Some? ==> r.value == patients[id]
    {
      if id in patients then Some(patients[id]) else None
    }

    /** GET /patients[?search=term]: exactly the patients the filter keeps, each
        once, ascending by name. */
    function List(search: Option<string>): (r: seq<Entry<Patient>>)
      reads this
      requires Valid()
      ensures !Present(search) ==>
        forall e :: e in r <==> e.id in patients && e.rec == patients[e.id]
      ensures Present(search) ==>
        forall e :: e in r <==>
          e.id in patients && e.rec == patients[e.id] && ContainsIgnoringCase(e.rec.name, Trim(search.value))
      ensures DistinctIds(r)
      ensures SortedBy(r, NameOf)
    {
      Query(patients, nextId, SearchFilter(search), NameOf)
    }

    /** POST /patients: presence check, then a save that applies the schema. */
    method Create(form: PatientForm) returns (out: Outcome)
      requires Valid()
      modifies this
      ensures Valid()
      ensures out == MissingFields <==> !AllPresent(form)
      ensures out == SaveFailed <==>
        AllPresent(form) && (Draft(form).None? || !ValidPatient(Draft(form).value))
      ensures out.Ok? <==> AllPresent(form) && Draft(form).Some? && ValidPatient(Draft(form).value)
      ensures out.Ok? ==> out.id !in old(patients) && patients == old(patients)[out.id := Draft(form).value]
      ensures old(nextId) <= nextId && (out.Ok? ==> old(nextId) <= out.id)
      ensures !out.Ok? ==> patients == old(patients)
    {
      if !AllPresent(form) {
        return MissingFields;
      }
      var draft := Draft(form);
      if draft.None? || !ValidPatient(draft.value) {
        return SaveFailed;
      }
      out := Ok(nextId);
      patients := patients[nextId := draft.value];
      nextId := nextId + 1;
    }

    /** POST /patients/:id: presence check, then findByIdAndUpdate without
        validators. The update is cast (a NaN age fails whether or not the id
        exists) but the schema's checks are not applied, so any present value
        is written. */
    method Update(id: nat, form: PatientForm) returns (out: Outcome)
      requires Valid()
      modifies this`patients
      ensures Valid()
      ensures out == MissingFields <==> !AllPresent(form)
      ensures out == SaveFailed <==> AllPresent(form) && Draft(form).None?
      ensures out == NotFound <==> AllPresent(form) && Draft(form).Some? && id !in old(patients)
      ensures out.Ok? <==> AllPresent(form) && Draft(form).Some? && id in old(patients)
      ensures out.Ok? ==> out.id == id && patients == old(patients)[id := Draft(form).value]
      ensures !out.Ok? ==> patients == old(patients)
    {
      if !AllPresent(form) {
        return MissingFields;
      }
      var draft := Draft(form);
      if draft.None? {
        return SaveFailed;
      }
      if id !in patients {
        return NotFound;
      }
      patients := patients[id := draft.value];
      out := Ok(id);
    }
  }

  /** An update can store a record that a create would refuse: the form below
      passes the presence check and is written, yet its gender is outside the
      enumeration and its name is blank. */
  lemma UpdateAdmitsInvalidRecord()
    ensures exists f :: AllPresent(f) && Draft(f).Some? && !ValidPatient(Draft(f).value)
  {
    var f := PatientForm(Some(" "), Some("7"), Some("male"), Some("5"), Some("x"));
    ParseIntDecimal(7, []);
    assert Decimal(7) + [] == "7";
    assert Draft(f).Some?;
    assert Draft(f).value.gender == "male" by {
      assert TrimStart("male") == "male";
      assert TrimEnd("male") == "male";
    }
  }

  /** The creation example: the five fields come back trimmed and with age 34,
      and the record passes every schema check. */
  lemma CreateExample()
    ensures
      var f := PatientForm(Some("Alice Smith"), Some("34"), Some("Female"), Some("+1 555 2020"), Some("12 Elm St"));
      && AllPresent(f)
      && Draft(f) == Some(Patient("Alice Smith", 34, "Female", "+1 555 2020", "12 Elm St"))
      && ValidPatient(Draft(f).value)
  {
    ParseIntDecimal(34, []);
    assert Decimal(34) + [] == "34";
    UntrimmedStays("Alice Smith");
    UntrimmedStays("Female");
    UntrimmedStays("+1 555 2020");
    UntrimmedStays("12 Elm St");
  }

  /** The search example: "ali" finds both "Alice Smith" and "Bob Alison", and
      the listing shows them in that order. */
  lemma SearchExample()
    ensures Present(Some("ali")) && Trim("ali") == "ali"
    ensures ContainsIgnoringCase("Alice Smith", "ali") && ContainsIgnoringCase("Bob Alison", "ali")
    ensures !ContainsIgnoringCase("Carol White", "ali")
    ensures StrLe("Alice Smith", "Bob Alison") && !StrLe("Bob Alison", "Alice Smith")
  {
    UntrimmedStays("ali");
    assert ContainsIgnoringCase("Alice Smith", "ali") by { FoldsToAli("Alice Smith", 0); }
    assert ContainsIgnoringCase("Bob Alison", "ali") by { FoldsToAli("Bob Alison", 4); }
    assert !ContainsIgnoringCase("Carol White", "ali") by { NoAli("Carol White"); }
  }

  /** A name without the letter pair "al" in either case does not contain "ali". */
  lemma NoAli(text: string)
    requires forall k :: 0 <= k < |text| - 1 ==> Lower(text[k]) != 'a' || Lower(text[k + 1]) != 'l'
    ensures !ContainsIgnoringCase(text, "ali")
  {
    forall i | 0 <= i <= |text| - 3 ensures !MatchesAt(text, "ali", i) {
      assert LowerAll(text[i..i + 3])[0] == Lower(text[i]) && LowerAll(text[i..i + 3])[1] == Lower(text[i + 1]);
      assert LowerAll("ali")[0] == 'a' && LowerAll("ali")[1] == 'l';
    }
  }

  lemma FoldsToAli(text: string, i: nat)
    requires i + 3 <= |text| && text[i..i + 3] == "Ali"
    ensures ContainsIgnoringCase(text, "ali")
  {
    var folded := LowerAll("Ali");
    assert folded[0] == 'a' && folded[1] == 'l' && folded[2] == 'i';
    var term := LowerAll("ali");
    assert term[0] == 'a' && term[1] == 'l' && term[2] == 'i';
    assert MatchesAt(text, "ali", i);
  }

  /** A client of the store: the created example comes back unchanged from
      Get, a create with an empty age stores nothing, and an update writes a
      value that a create would refuse. */
  method PatientScenario()
  {
    var store := new PatientStore();
    var alice := PatientForm(Some("Alice Smith"), Some("34"), Some("Female"), Some("+1 555 2020"), Some("12 Elm St"));
    var record := Patient("Alice Smith", 34, "Female", "+1 555 2020", "12 Elm St");
    CreateExample();
    assert AllPresent(alice) && Draft(alice) == Some(record) && ValidPatient(record);
    var created := store.Create(alice);
    assert created.Ok?;
    var id := created.id;
    assert store.Get(id) == Some(record);

    var noAge := alice.(age := Some(""));
    assert !AllPresent(noAge);
    var missing := store.Create(noAge);
    assert missing == MissingFields && store.Get(id) == Some(record);

    var edited := alice.(gender := Some("female"));
    UntrimmedStays("female");
    assert AllPresent(edited) && Draft(edited) == Some(record.(gender := "female"));
    var updated := store.Update(id, edited);
    assert updated == Ok(id);
    assert store.Get(id) == Some(record.(gender := "female"));
  }
}
