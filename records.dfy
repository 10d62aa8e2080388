/** The student record of main.c (`StudentData`, `Date`), its contacts
    (father, mother, guardian), the contact invariant, the record that
    `addStudent` builds from the collected answers, and the field edits of
    `editStudent`. */
module Records {
  import opened Util

  /** The sentinel that marks an absent contact name or phone number. */
  const Absent: string := "-"

  /** Widths of the string fields: `char nisn[11]`, the 32-byte phone buffer
      and the 1024-byte line buffer, each less its terminator. */
  const NisnWidth: nat := 10
  const PhoneWidth: nat := 31
  const TextWidth: nat := 1023

  datatype Date = Date(day: int, month: int, year: int)

  /** A relative of the student: a name and a phone number, either of which
      may be the sentinel `Absent`. */
  datatype Contact = Contact(name: string, phone: string)

  datatype Relative = Father | Mother | Guardian

  datatype StudentData = StudentData(
    nisn: string,
    name: string,
    sex: char,
    birthPlace: string,
    birthDate: Date,
    address: string,
    phone: string,
    father: Contact,
    mother: Contact,
    guardian: Contact)

  function ContactOf(s: StudentData, who: Relative): Contact {
    match who
    case Father => s.father
    case Mother => s.mother
    case Guardian => s.guardian
  }

  /** `s` with the contact of `who` replaced and every other field kept. */
  function WithContact(s: StudentData, who: Relative, c: Contact): (r: StudentData)
    ensures ContactOf(r, who) == c
    ensures forall other :: other != who ==> ContactOf(r, other) == ContactOf(s, other)
    ensures r.nisn == s.nisn && r.name == s.name && r.sex == s.sex && r.birthPlace == s.birthPlace
    ensures r.birthDate == s.birthDate && r.address == s.address && r.phone == s.phone
  {
    match who
    case Father => s.(father := c)
    case Mother => s.(mother := c)
    case Guardian => s.(guardian := c)
  }

  /** A contact's phone is only meaningful when it has a name. */
  predicate ContactConsistent(c: Contact) {
    c.name == Absent ==> c.phone == Absent
  }

  predicate Consistent(s: StudentData) {
    ContactConsistent(s.father) && ContactConsistent(s.mother) && ContactConsistent(s.guardian)
  }

  /** The contact `addStudent` stores: when the name was left at its
      fallback `Absent` the phone is not asked for and is set to `Absent`. */
  function AdmitContact(c: Contact): (r: Contact)
    ensures ContactConsistent(r) && r.name == c.name
    ensures c.name != Absent ==> r.phone == c.phone
    ensures ContactConsistent(c) ==> r == c
  {
    if c.name == Absent then Contact(Absent, Absent) else c
  }

  /** The record `addStudent` links in, built from the answers it collected:
      the sex letter is upper-cased and each absent contact gets the absent
      phone, whatever phone answer was supplied for it. */
  function NewEntry(input: StudentData): (e: StudentData)
    ensures Consistent(e)
    ensures e.nisn == input.nisn && e.name == input.name && e.birthPlace == input.birthPlace
    ensures e.birthDate == input.birthDate && e.address == input.address && e.phone == input.phone
    ensures e.sex == ToUpper(input.sex)
    ensures forall who :: ContactOf(input, who).name != Absent ==> ContactOf(e, who) == ContactOf(input, who)
    ensures forall who :: ContactOf(input, who).name == Absent ==> ContactOf(e, who) == Contact(Absent, Absent)
  {
    input.(sex := ToUpper(input.sex),
           father := AdmitContact(input.father),
           mother := AdmitContact(input.mother),
           guardian := AdmitContact(input.guardian))
  }

  /** A record that already has upper-case sex and consistent contacts is
      stored exactly as given. */
  lemma NewEntryKeepsNormalRecord(input: StudentData)
    requires Consistent(input) && ToUpper(input.sex) == input.sex
    ensures NewEntry(input) == input
  {
    assert AdmitContact(input.father) == input.father;
    assert AdmitContact(input.mother) == input.mother;
    assert AdmitContact(input.guardian) == input.guardian;
  }

  /** One choice of the edit menu, with the values already read:
      choices 1-5 replace a field, 6/8/10 replace a contact's name (the
      fallback `Absent` clears it) and 7/9/11 replace a contact's phone,
      first taking a name when the contact had none. */
  datatype Edit =
    | EditName(name: string)
    | EditBirthPlace(place: string)
    | EditBirthDate(date: Date)
    | EditAddress(address: string)
    | EditPhone(phone: string)
    | EditContactName(who: Relative, newName: string)
    | EditContactPhone(who: Relative, nameIfAbsent: string, newPhone: string)

  /** The answer to the menu of `editStudent`: a field edit (choices 1-11),
      deleting the record (12), or leaving it as it is (13 and any other
      number). */
  datatype MenuChoice = Change(edit: Edit) | Remove | Cancel

  /** The record after one edit of `editStudent`. */
  function ApplyEdit(s: StudentData, e: Edit): (r: StudentData)
    ensures r.nisn == s.nisn && r.sex == s.sex
    ensures e.EditContactName? || e.EditContactPhone? ==>
      r == WithContact(s, e.who, ContactOf(r, e.who))
    ensures !(e.EditContactName? || e.EditContactPhone?) ==>
      r.father == s.father && r.mother == s.mother && r.guardian == s.guardian
  {
    match e
    case EditName(v) => s.(name := v)
    case EditBirthPlace(v) => s.(birthPlace := v)
    case EditBirthDate(d) => s.(birthDate := d)
    case EditAddress(v) => s.(address := v)
    case EditPhone(v) => s.(phone := v)
    case EditContactName(who, v) =>
      var c := ContactOf(s, who);
      var had := c.name != Absent;
      WithContact(s, who, Contact(v, if had && v == Absent then Absent else c.phone))
    case EditContactPhone(who, v, p) =>
      var c := ContactOf(s, who);
      var had := c.name != Absent;
      WithContact(s, who, Contact(if had then c.name else v, p))
  }

  /** The one edit that can break the contact invariant: a phone edit on a
      contact without a name, whose name is then read without a fallback and
      answered with a literal "-", while the phone is not "-". */
  predicate BreaksContact(s: StudentData, e: Edit) {
    e.EditContactPhone? && ContactOf(s, e.who).name == Absent
    && e.nameIfAbsent == Absent && e.newPhone != Absent
  }

  /** Every other edit keeps the invariant on every contact. */
  lemma EditKeepsConsistency(s: StudentData, e: Edit)
    requires Consistent(s)
    requires !BreaksContact(s, e)
    ensures Consistent(ApplyEdit(s, e))
  {
    var r := ApplyEdit(s, e);
    if e.EditContactName? || e.EditContactPhone? {
      assert ContactConsistent(ContactOf(s, Father));
      assert ContactConsistent(ContactOf(s, Mother));
      assert ContactConsistent(ContactOf(s, Guardian));
      forall who
        ensures ContactConsistent(ContactOf(r, who))
      {
        if who != e.who {
          assert ContactOf(r, who) == ContactOf(s, who);
        }
      }
      assert ContactConsistent(ContactOf(r, Father));
      assert ContactConsistent(ContactOf(r, Mother));
      assert ContactConsistent(ContactOf(r, Guardian));
    }
  }

  /** Clearing a contact's name that was present (choices 6/8/10 answered
      with an empty line) also clears its phone; nothing else changes. */
  lemma ClearingNameClearsPhone(s: StudentData, who: Relative)
    requires ContactOf(s, who).name != Absent
    ensures ContactOf(ApplyEdit(s, EditContactName(who, Absent)), who) == Contact(Absent, Absent)
    ensures forall other :: other != who ==>
      ContactOf(ApplyEdit(s, EditContactName(who, Absent)), other) == ContactOf(s, other)
  {
  }

  /** The phone edit on a nameless contact can leave a name "-" with a real
      phone (main.c:380-387). */
  lemma PhoneEditCanBreakContact()
    ensures var s := StudentData("1234567890", "Ana", 'P', "Jakarta", Date(1, 1, 2005), "Jl. A", "-",
                                 Contact("-", "-"), Contact("-", "-"), Contact("-", "-"));
            Consistent(s) && !Consistent(ApplyEdit(s, EditContactPhone(Father, "-", "0812")))
  {
  }
}
