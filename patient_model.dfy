/** The Patient schema: five business fields, each with its own check. A record
    is accepted by a save only when all five checks hold; one failing field
    rejects the whole record. */
module PatientModel {
  import opened Text

  /** A patient document as it is written to the collection (timestamps left out). */
  datatype Patient = Patient(name: string, age: int, gender: string, contactNumber: string, address: string)

  /** name: trimmed by the schema, then required (a string is present when non-empty). */
  predicate ValidName(name: string) {
    Trim(name) != []
  }

  /** age: a number, required, with minimum 0. */
  predicate ValidAge(age: int) {
    age >= 0
  }

  /** gender: one of the enumerated values. */
  predicate ValidGender(gender: string) {
    gender == "Male" || gender == "Female" || gender == "Other"
  }

  /** A character the contact-number pattern [\d\s+] admits. */
  predicate IsContactChar(c: char) {
    IsDigit(c) || IsWhitespace(c) || c == '+'
  }

  /** contactNumber: required (non-empty, not trimmed by the schema) and matching
      ^[\d\s+]+$ as a whole. */
  predicate ValidContactNumber(contact: string) {
    contact != [] && forall k :: 0 <= k < |contact| ==> IsContactChar(contact[k])
  }

  /** address: trimmed by the schema, then required. */
  predicate ValidAddress(address: string) {
    Trim(address) != []
  }

  predicate ValidPatient(p: Patient) {
    && ValidName(p.name)
    && ValidAge(p.age)
    && ValidGender(p.gender)
    && ValidContactNumber(p.contactNumber)
    && ValidAddress(p.address)
  }

  /** A name is accepted exactly when it holds some non-whitespace character:
      an empty or whitespace-only name is rejected. */
  lemma ValidNameIff(name: string)
    ensures ValidName(name) <==> exists k :: 0 <= k < |name| && !IsWhitespace(name[k])
  {
    TrimEmptyIff(name);
  }

  /** The same rule for the address. */
  lemma ValidAddressIff(address: string)
    ensures ValidAddress(address) <==> exists k :: 0 <= k < |address| && !IsWhitespace(address[k])
  {
    TrimEmptyIff(address);
  }

  /** Age 0 is the least accepted age: every negative age is rejected. */
  lemma AgeBoundary(age: int)
    ensures ValidAge(0) && (age < 0 ==> !ValidAge(age))
  {
  }

  /** The enumeration is case-sensitive and allows no surrounding space. */
  lemma GenderIsExact()
    ensures ValidGender("Male") && ValidGender("Female") && ValidGender("Other")
    ensures !ValidGender("male") && !ValidGender("Male ") && !ValidGender("")
  {
  }

  /** One character outside [\d\s+] anywhere, a letter or a dash say, makes a
      contact number invalid. */
  lemma {:induction false} ContactNumberLetters(pre: string, c: char, post: string)
    requires !IsContactChar(c)
    ensures !ValidContactNumber(pre + [c] + post)
  {
    assert (pre + [c] + post)[|pre|] == c;
  }
}
