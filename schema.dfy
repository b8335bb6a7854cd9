/** The server-side listing schema (models/Listing.js) as a validity
    predicate: enumerations, required fields, length bounds, defaults and the
    owner e-mail pattern. A document is the set of values a caller supplies;
    an absent value is None. */
module ListingSchema {
  import opened Common
  import opened Strings

  datatype ListingType = Book | Notes
  datatype Condition = Excellent | Good | Fair | Poor
  /** The schema's seven-value status enumeration. */
  datatype Status = Draft | PendingReview | Published | OnHold | Completed | Withdrawn | Expired

  function TypeName(t: ListingType): string {
    match t
    case Book => "BOOK"
    case Notes => "NOTES"
  }

  function ConditionName(c: Condition): string {
    match c
    case Excellent => "Excellent"
    case Good => "Good"
    case Fair => "Fair"
    case Poor => "Poor"
  }

  function StatusName(s: Status): string {
    match s
    case Draft => "DRAFT"
    case PendingReview => "PENDING_REVIEW"
    case Published => "PUBLISHED"
    case OnHold => "ON_HOLD"
    case Completed => "COMPLETED"
    case Withdrawn => "WITHDRAWN"
    case Expired => "EXPIRED"
  }

  /** The `type` enumeration check: exactly the names of the two types pass. */
  function ParseType(s: string): (r: Option<ListingType>)
    ensures r.Some? ==> TypeName(r.value) == s
    ensures r.None? ==> forall t: ListingType :: TypeName(t) != s
  {
    if s == "BOOK" then Some(Book)
    else if s == "NOTES" then Some(Notes)
    else None
  }

  /** The `condition` enumeration check. */
  function ParseCondition(s: string): (r: Option<Condition>)
    ensures r.Some? ==> ConditionName(r.value) == s
    ensures r.None? ==> forall c: Condition :: ConditionName(c) != s
  {
    if s == "Excellent" then Some(Excellent)
    else if s == "Good" then Some(Good)
    else if s == "Fair" then Some(Fair)
    else if s == "Poor" then Some(Poor)
    else None
  }

  /** The `status` enumeration check. */
  function ParseStatus(s: string): (r: Option<Status>)
    ensures r.Some? ==> StatusName(r.value) == s
    ensures r.None? ==> forall t: Status :: StatusName(t) != s
  {
    if s == "DRAFT" then Some(Draft)
    else if s == "PENDING_REVIEW" then Some(PendingReview)
    else if s == "PUBLISHED" then Some(Published)
    else if s == "ON_HOLD" then Some(OnHold)
    else if s == "COMPLETED" then Some(Completed)
    else if s == "WITHDRAWN" then Some(Withdrawn)
    else if s == "EXPIRED" then Some(Expired)
    else None
  }

  /** Every enumeration value's name is accepted back as that value. */
  lemma EnumRoundTrips(t: ListingType, c: Condition, s: Status)
    ensures ParseType(TypeName(t)) == Some(t)
    ensures ParseCondition(ConditionName(c)) == Some(c)
    ensures ParseStatus(StatusName(s)) == Some(s)
  {
  }

  /** The enumerations accept exactly the listed strings. */
  lemma EnumsExact(s: string)
    ensures ParseType(s).Some? <==> s in {"BOOK", "NOTES"}
    ensures ParseCondition(s).Some? <==> s in {"Excellent", "Good", "Fair", "Poor"}
    ensures ParseStatus(s).Some? <==>
      s in {"DRAFT", "PENDING_REVIEW", "PUBLISHED", "ON_HOLD", "COMPLETED", "WITHDRAWN", "EXPIRED"}
  {
  }

  const TITLE_MAX := 200
  const AUTHOR_SUBJECT_MAX := 100
  const DESCRIPTION_MAX := 1000
  const LOCATION_MAX := 100
  const TAG_MAX := 50
  const DEFAULT_STATUS := "PENDING_REVIEW"

  /** The values a caller supplies for a listing document. Timestamps are
      milliseconds since the epoch. */
  datatype Document = Document(
    listingType: Option<string>,
    title: Option<string>,
    authorSubject: Option<string>,
    description: Option<string>,
    condition: Option<string>,
    location: Option<string>,
    ownerEmail: Option<string>,
    images: seq<string>,
    tags: seq<string>,
    status: Option<string>,
    featured: Option<bool>,
    views: Option<int>,
    createdAt: Option<int>,
    updatedAt: Option<int>)

  /** The schema paths that can fail validation. */
  datatype Path =
    | TypePath | TitlePath | AuthorSubjectPath | DescriptionPath | ConditionPath
    | LocationPath | OwnerEmailPath | TagPath(index: nat) | StatusPath

  datatype Violation =
    | Required(path: Path)
    | NotInEnum(path: Path)
    | TooLong(path: Path, max: nat)
    | InvalidEmail

  /** A `required` string path is satisfied by a present, non-empty value. */
  predicate Present(v: Option<string>) {
    v.Some? && v.value != ""
  }

  function RequiredText(v: Option<string>, path: Path, max: nat): set<Violation> {
    if !Present(v) then {Required(path)}
    else if |v.value| > max then {TooLong(path, max)}
    else {}
  }

  function OptionalText(v: Option<string>, path: Path, max: nat): set<Violation> {
    if v.Some? && |v.value| > max then {TooLong(path, max)} else {}
  }

  function TagViolations(tags: seq<string>): set<Violation> {
    set i | 0 <= i < |tags| && |tags[i]| > TAG_MAX :: TooLong(TagPath(i), TAG_MAX)
  }

  function TypeViolations(v: Option<string>): set<Violation> {
    if !Present(v) then {Required(TypePath)}
    else if ParseType(v.value).None? then {NotInEnum(TypePath)}
    else {}
  }

  function ConditionViolations(v: Option<string>): set<Violation> {
    if !Present(v) then {Required(ConditionPath)}
    else if ParseCondition(v.value).None? then {NotInEnum(ConditionPath)}
    else {}
  }

  function EmailViolations(v: Option<string>): set<Violation> {
    if !Present(v) then {Required(OwnerEmailPath)}
    else if !EmailValidator(v.value) then {InvalidEmail}
    else {}
  }

  function StatusViolations(v: Option<string>): set<Violation> {
    if v.Some? && ParseStatus(v.value).None? then {NotInEnum(StatusPath)} else {}
  }

  /** All violations of a document, at most one per path, `required` first. */
  function Violations(d: Document): set<Violation> {
    TypeViolations(d.listingType)
      + RequiredText(d.title, TitlePath, TITLE_MAX)
      + RequiredText(d.authorSubject, AuthorSubjectPath, AUTHOR_SUBJECT_MAX)
      + RequiredText(d.description, DescriptionPath, DESCRIPTION_MAX)
      + ConditionViolations(d.condition)
      + OptionalText(d.location, LocationPath, LOCATION_MAX)
      + EmailViolations(d.ownerEmail)
      + TagViolations(d.tags)
      + StatusViolations(d.status)
  }

  predicate IsValid(d: Document) {
    Violations(d) == {}
  }

  /** Validity is exactly the conjunction of the schema's field rules. */
  lemma ValidIff(d: Document)
    ensures IsValid(d) <==>
      && Present(d.listingType) && ParseType(d.listingType.value).Some?
      && Present(d.title) && |d.title.value| <= TITLE_MAX
      && Present(d.authorSubject) && |d.authorSubject.value| <= AUTHOR_SUBJECT_MAX
      && Present(d.description) && |d.description.value| <= DESCRIPTION_MAX
      && Present(d.condition) && ParseCondition(d.condition.value).Some?
      && (d.location.Some? ==> |d.location.value| <= LOCATION_MAX)
      && Present(d.ownerEmail) && EmailValidator(d.ownerEmail.value)
      && (forall i :: 0 <= i < |d.tags| ==> |d.tags[i]| <= TAG_MAX)
      && (d.status.Some? ==> ParseStatus(d.status.value).Some?)
  {
    if forall i :: 0 <= i < |d.tags| ==> |d.tags[i]| <= TAG_MAX {
      assert TagViolations(d.tags) == {};
    } else {
      var i :| 0 <= i < |d.tags| && |d.tags[i]| > TAG_MAX;
      assert TooLong(TagPath(i), TAG_MAX) in TagViolations(d.tags);
    }
  }

  /** Every missing required field is reported, not only the first one. */
  lemma MissingFieldsAllReported(d: Document)
    ensures !Present(d.listingType) ==> Required(TypePath) in Violations(d)
    ensures !Present(d.title) ==> Required(TitlePath) in Violations(d)
    ensures !Present(d.authorSubject) ==> Required(AuthorSubjectPath) in Violations(d)
    ensures !Present(d.description) ==> Required(DescriptionPath) in Violations(d)
    ensures !Present(d.condition) ==> Required(ConditionPath) in Violations(d)
    ensures !Present(d.ownerEmail) ==> Required(OwnerEmailPath) in Violations(d)
    ensures Required(LocationPath) !in Violations(d)
  {
    assert !Present(d.listingType) ==> Required(TypePath) in TypeViolations(d.listingType);
    assert !Present(d.condition) ==> Required(ConditionPath) in ConditionViolations(d.condition);
    assert !Present(d.ownerEmail) ==> Required(OwnerEmailPath) in EmailViolations(d.ownerEmail);
    assert Required(LocationPath) !in TagViolations(d.tags);
  }

  /** Mongoose's defaults: status PENDING_REVIEW, featured false, views 0 and
      both timestamps `now`, each only where the caller gave no value. */
  function WithDefaults(d: Document, now: int): (e: Document)
    ensures e.status.Some? && e.featured.Some? && e.views.Some?
    ensures e.createdAt.Some? && e.updatedAt.Some?
    ensures d.status.None? ==> e.status == Some(DEFAULT_STATUS)
    ensures d.featured.None? ==> e.featured == Some(false)
    ensures d.views.None? ==> e.views == Some(0)
    ensures d.createdAt.None? ==> e.createdAt == Some(now)
    ensures d.updatedAt.None? ==> e.updatedAt == Some(now)
    ensures d.status.Some? ==> e.status == d.status
    ensures d.featured.Some? ==> e.featured == d.featured
    ensures d.views.Some? ==> e.views == d.views
    ensures e.(status := d.status, featured := d.featured, views := d.views,
               createdAt := d.createdAt, updatedAt := d.updatedAt) == d
  {
    d.(status := Some(if d.status.Some? then d.status.value else DEFAULT_STATUS),
       featured := Some(if d.featured.Some? then d.featured.value else false),
       views := Some(if d.views.Some? then d.views.value else 0),
       createdAt := Some(if d.createdAt.Some? then d.createdAt.value else now),
       updatedAt := Some(if d.updatedAt.Some? then d.updatedAt.value else now))
  }

  /** The default status is a member of the status enumeration, so filling in
      the defaults neither repairs nor breaks a document. */
  lemma DefaultsKeepViolations(d: Document, now: int)
    ensures ParseStatus(DEFAULT_STATUS) == Some(PendingReview)
    ensures Violations(WithDefaults(d, now)) == Violations(d)
  {
  }

  /** The schema puts no bound on the number of images: they never affect
      validity. */
  lemma ImagesUnbounded(d: Document, images: seq<string>)
    ensures Violations(d.(images := images)) == Violations(d)
  {
  }

  /** The characters the class [^\s@] of the e-mail pattern accepts. */
  predicate EmailChar(c: char) {
    !IsJsSpace(c) && c != '@'
  }

  /** s[lo..hi] is a non-empty run of e-mail characters. */
  predicate EmailRun(s: string, lo: int, hi: int) {
    0 <= lo < hi <= |s| && forall k :: lo <= k < hi ==> EmailChar(s[k])
  }

  /** The pattern ^[^\s@]+@[^\s@]+\.[^\s@]+$ matches s with its '@' at i and
      the '.' it uses at j. */
  predicate EmailMatchAt(s: string, i: int, j: int) {
    && EmailRun(s, 0, i) && 0 <= i < |s| && s[i] == '@'
    && EmailRun(s, i + 1, j) && 0 <= j < |s| && s[j] == '.'
    && EmailRun(s, j + 1, |s|)
  }

  /** The owner e-mail validator: the pattern matches somewhere. */
  predicate EmailValidator(s: string) {
    exists i, j | 0 <= i < j < |s| :: EmailMatchAt(s, i, j)
  }

  /** The domain part after the '@' at i holds a '.' that is neither its
      first nor its last character. */
  predicate HasInnerDot(s: string, i: int) {
    exists j | 0 <= j && i + 1 < j < |s| - 1 :: s[j] == '.'
  }

  /** The validator's acceptance in plain terms: no white space, exactly one
      '@' with something before it, and an inner '.' after it. */
  predicate WellFormedEmail(s: string) {
    && (forall k :: 0 <= k < |s| ==> !IsJsSpace(s[k]))
    && exists i | 0 < i < |s| ::
      && s[i] == '@'
      && (forall k :: 0 <= k < |s| && k != i ==> s[k] != '@')
      && HasInnerDot(s, i)
  }

  lemma EmailValidatorIff(s: string)
    ensures EmailValidator(s) <==> WellFormedEmail(s)
  {
    if EmailValidator(s) {
      var i, j :| 0 <= i < j < |s| && EmailMatchAt(s, i, j);
      assert forall k :: 0 <= k < |s| && k != i ==> EmailChar(s[k]) by {
        forall k | 0 <= k < |s| && k != i ensures EmailChar(s[k]) {
          if k < i {
            assert EmailRun(s, 0, i);
          } else if k < j {
            assert EmailRun(s, i + 1, j);
          } else if k > j {
            assert EmailRun(s, j + 1, |s|);
          }
        }
      }
      assert HasInnerDot(s, i);
    }
    if WellFormedEmail(s) {
      var i :| 0 < i < |s| && s[i] == '@' && (forall k :: 0 <= k < |s| && k != i ==> s[k] != '@') && HasInnerDot(s, i);
      var j :| 0 <= j && i + 1 < j < |s| - 1 && s[j] == '.';
      assert EmailMatchAt(s, i, j);
    }
  }

  /** A sample document the schema accepts. */
  lemma SampleDocumentValid(d: Document)
    requires d == Document(Some("BOOK"), Some("Organic Chemistry"), Some("Bruice"),
      Some("Essential textbook"), Some("Fair"), None, Some("a@b.co"), [], ["Chemistry"],
      None, None, None, None, None)
    ensures IsValid(d)
  {
    var e := "a@b.co";
    assert EmailMatchAt(e, 1, 3);
  }
}
