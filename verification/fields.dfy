/** The record shape shared by the live crawl and the rebuild: the expected
    fields, a person as a map from field to text, the identity (fingerprint)
    of a person, and the output row stamped with its query. */
module Fields {
  import opened Wrappers
  import opened Text

  /** The eleven expected fields. `Prefix` is provenance (the query that
      found the row); the other ten are identity. */
  datatype Field = Name | Email | Title | Year | Department | Major | School | Prefix | Location | Phone | Mailstop

  /** The text under which a field is labelled on the page and named as an
      output column. Two of them keep the colon of their label. */
  function FieldName(f: Field): string {
    match f
    case Name => "Name"
    case Email => "Email:"
    case Title => "Title"
    case Year => "Year"
    case Department => "Department:"
    case Major => "Major"
    case School => "School"
    case Prefix => "Prefix"
    case Location => "Location"
    case Phone => "Phone"
    case Mailstop => "Mailstop"
  }

  /** `label in EXPECTED_FIELDS`, answering with the field it names. */
  function FieldNamed(text: string): (r: Option<Field>)
    ensures r.Some? ==> FieldName(r.value) == text
  {
    if text == "Name" then Some(Name)
    else if text == "Email:" then Some(Email)
    else if text == "Title" then Some(Title)
    else if text == "Year" then Some(Year)
    else if text == "Department:" then Some(Department)
    else if text == "Major" then Some(Major)
    else if text == "School" then Some(School)
    else if text == "Prefix" then Some(Prefix)
    else if text == "Location" then Some(Location)
    else if text == "Phone" then Some(Phone)
    else if text == "Mailstop" then Some(Mailstop)
    else None
  }

  /** Every field is found again from its own name: no two fields share a
      name, and the label lookup misses none of them. */
  lemma FieldNamedRoundTrip(f: Field)
    ensures FieldNamed(FieldName(f)) == Some(f)
  {
  }

  /** The output columns, in order. */
  const ExpectedFields: seq<Field> :=
    [Name, Email, Title, Year, Department, Major, School, Prefix, Location, Phone, Mailstop]

  lemma ExpectedFieldsComplete(f: Field)
    ensures f in ExpectedFields
  {
  }

  /** A harvested person: the fields that were found, with their values. */
  type Person = map<Field, string>

  /** The identity of a person: the values of the ten fields other than
      `Prefix`, "" for a field the person lacks. Python keeps it as the
      frozenset of a dictionary's items over these ten keys; with the keys
      fixed, that is the same as the ten values. */
  datatype Fingerprint = Fingerprint(
    name: string, email: string, title: string, year: string, department: string,
    major: string, school: string, location: string, phone: string, mailstop: string)

  /** The value a fingerprint records for an identity field. */
  function Recorded(fp: Fingerprint, f: Field): string
    requires f != Prefix
  {
    match f
    case Name => fp.name
    case Email => fp.email
    case Title => fp.title
    case Year => fp.year
    case Department => fp.department
    case Major => fp.major
    case School => fp.school
    case Location => fp.location
    case Phone => fp.phone
    case Mailstop => fp.mailstop
  }

  /** A fingerprint is determined by what it records. */
  lemma RecordedDetermines(a: Fingerprint, b: Fingerprint)
    requires forall f :: f != Prefix ==> Recorded(a, f) == Recorded(b, f)
    ensures a == b
  {
    assert Recorded(a, Name) == Recorded(b, Name) && Recorded(a, Email) == Recorded(b, Email);
    assert Recorded(a, Title) == Recorded(b, Title) && Recorded(a, Year) == Recorded(b, Year);
    assert Recorded(a, Department) == Recorded(b, Department) && Recorded(a, Major) == Recorded(b, Major);
    assert Recorded(a, School) == Recorded(b, School) && Recorded(a, Location) == Recorded(b, Location);
    assert Recorded(a, Phone) == Recorded(b, Phone) && Recorded(a, Mailstop) == Recorded(b, Mailstop);
  }

  /** `person.get(f, "")`. */
  function Get(p: Person, f: Field): string {
    if f in p then p[f] else ""
  }

  /** The fingerprint computed while crawling: every expected field other
      than `Prefix`, with "" for a field the person lacks. */
  function FingerprintOf(p: Person): (fp: Fingerprint)
    ensures forall f {:trigger Recorded(fp, f)} :: f != Prefix ==> Recorded(fp, f) == Get(p, f)
  {
    Fingerprint(Get(p, Name), Get(p, Email), Get(p, Title), Get(p, Year), Get(p, Department),
                Get(p, Major), Get(p, School), Get(p, Location), Get(p, Phone), Get(p, Mailstop))
  }

  /** The fingerprint records, for every field but `Prefix`, the person's
      value, "" when the field is missing. */
  lemma FingerprintRecords(p: Person, f: Field)
    requires f != Prefix
    ensures Recorded(FingerprintOf(p), f) == Get(p, f)
  {
  }

  /** Two persons share a fingerprint exactly when they agree, with "" for a
      missing field, on every field but `Prefix`. */
  lemma FingerprintEqualIff(p: Person, q: Person)
    ensures FingerprintOf(p) == FingerprintOf(q) <==> forall f :: f != Prefix ==> Get(p, f) == Get(q, f)
  {
    if forall f :: f != Prefix ==> Get(p, f) == Get(q, f) {
      forall f | f != Prefix ensures Recorded(FingerprintOf(p), f) == Recorded(FingerprintOf(q), f) {
        FingerprintRecords(p, f);
        FingerprintRecords(q, f);
      }
      RecordedDetermines(FingerprintOf(p), FingerprintOf(q));
    } else {
      var f :| f != Prefix && Get(p, f) != Get(q, f);
      FingerprintRecords(p, f);
      FingerprintRecords(q, f);
    }
  }

  /** Changing or adding `Prefix` never changes the fingerprint. */
  lemma FingerprintIgnoresPrefix(p: Person, v: string)
    ensures FingerprintOf(p[Prefix := v]) == FingerprintOf(p)
  {
    FingerprintEqualIff(p[Prefix := v], p);
  }

  /** Every value is whitespace-trimmed. */
  predicate AllTrimmed(p: Person) {
    forall f :: f in p ==> Trimmed(p[f])
  }

  /** One output row: the ten identity values and the `Prefix` column that
      records the query which found the person. */
  datatype Row = Row(identity: Fingerprint, prefix: string)

  /** The value of one column of a row. */
  function Column(row: Row, f: Field): string {
    if f == Prefix then row.prefix else Recorded(row.identity, f)
  }

  /** The shape of a row the scraper writes: every value other than
      `Prefix` whitespace-trimmed. */
  predicate IsScraperRow(row: Row) {
    forall f :: f != Prefix ==> Trimmed(Column(row, f))
  }

  /** The row written for a newly seen person: `Prefix` set to the search
      term, then every expected field filled in from the person, "" where
      missing. Its identity is the person's fingerprint. */
  function Stamp(p: Person, term: string): (row: Row)
    ensures row.identity == FingerprintOf(p)
    ensures forall f :: Column(row, f) == Get(p[Prefix := term], f)
  {
    Row(FingerprintOf(p), term)
  }

  /** A person read with trimmed values gives a row of the scraper's shape. */
  lemma StampScraperRow(p: Person, term: string)
    requires AllTrimmed(p)
    ensures IsScraperRow(Stamp(p, term))
  {
    forall f | f != Prefix ensures Trimmed(Column(Stamp(p, term), f)) {
      FingerprintRecords(p, f);
    }
  }
}
