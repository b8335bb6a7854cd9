/** The listing record as the client keeps it in local storage, and how a
    submitted form becomes one (handleListingSubmit). */
module Listings {
  import opened Common
  import opened Strings
  import opened Screener
  import ListingSchema

  /** The statuses the client reads and writes: it stores PENDING or
      PUBLISHED, and its statistics also count REPORTED. */
  datatype ClientStatus = Pending | Published | Reported

  function StatusName(s: ClientStatus): string {
    match s
    case Pending => "PENDING"
    case Published => "PUBLISHED"
    case Reported => "REPORTED"
  }

  /** A listing record. */
  datatype Listing = Listing(
    id: string,
    listingType: string,
    title: string,
    authorSubject: string,
    description: string,
    condition: string,
    location: string,
    ownerEmail: string,
    tags: seq<string>,
    featured: bool,
    images: seq<string>,
    createdAt: string,
    status: ClientStatus)

  /** The values of the listing form. */
  datatype ListingForm = ListingForm(
    listingType: string,
    title: string,
    authorSubject: string,
    description: string,
    condition: string,
    location: string,
    ownerEmail: string,
    tags: string)

  /** A tag is stored without a comma and without surrounding white space. */
  predicate IsCleanTag(t: string) {
    && ',' !in t
    && (t != [] ==> !IsJsSpace(t[0]) && !IsJsSpace(t[|t| - 1]))
  }

  lemma TrimKeepsOut(s: string, c: char)
    requires c !in s
    ensures c !in Trim(s)
  {
    var r := Trim(s);
    var i :| TrimmedAt(s, r, i);
    forall k | 0 <= k < |r| ensures r[k] != c {
      assert r[k] == s[i + k];
    }
  }

  /** The tags field: an empty field gives no tags, otherwise one tag per
      comma-separated piece, each trimmed. */
  function ParseTags(raw: string): (tags: seq<string>)
    ensures raw == "" ==> tags == []
    ensures raw != "" ==> |tags| == |Split(raw, ',')|
    ensures raw != "" ==> forall i :: 0 <= i < |tags| ==> tags[i] == Trim(Split(raw, ',')[i])
    ensures forall i :: 0 <= i < |tags| ==> IsCleanTag(tags[i])
  {
    if raw == "" then []
    else
      var parts := Split(raw, ',');
      seq(|parts|, i requires 0 <= i < |parts| =>
        TrimKeepsOut(parts[i], ','); Trim(parts[i]))
  }

  /** Tags written without white space round the commas are read back as
      written. */
  lemma ParseTagsJoin(tags: seq<string>)
    requires |tags| >= 1 && Join(tags, ',') != ""
    requires forall i :: 0 <= i < |tags| ==> IsCleanTag(tags[i])
    ensures ParseTags(Join(tags, ',')) == tags
  {
    SplitJoin(tags, ',');
    forall i | 0 <= i < |tags| ensures Trim(tags[i]) == tags[i] {
      TrimOfClean(tags[i]);
    }
  }

  /** Tags written with white space round the commas are read back trimmed:
      "a , b" gives the tags "a" and "b". */
  lemma ParseTagsOfJoin(pieces: seq<string>)
    requires |pieces| >= 1 && Join(pieces, ',') != ""
    requires forall i :: 0 <= i < |pieces| ==> ',' !in pieces[i]
    ensures |ParseTags(Join(pieces, ','))| == |pieces|
    ensures forall i :: 0 <= i < |pieces| ==> ParseTags(Join(pieces, ','))[i] == Trim(pieces[i])
  {
    SplitJoin(pieces, ',');
  }

  /** Joining the parsed tags gives the field back when no piece had
      surrounding white space. */
  lemma JoinParseTags(raw: string)
    requires raw != ""
    requires forall i :: 0 <= i < |Split(raw, ',')| ==> Trim(Split(raw, ',')[i]) == Split(raw, ',')[i]
    ensures Join(ParseTags(raw), ',') == raw
  {
    assert ParseTags(raw) == Split(raw, ',');
    JoinSplit(raw, ',');
  }

  lemma TrimOfClean(t: string)
    requires IsCleanTag(t)
    ensures Trim(t) == t
  {
    if t != [] {
      assert SkipSpace(t, 0) == 0;
      assert SkipSpaceBack(t, 0, |t|) == |t|;
      assert t[0..|t|] == t;
    }
  }

  /** The record handleListingSubmit builds: the form's fields, the parsed
      tags, not featured, no images, and PUBLISHED exactly when the automated
      check approved the title (PENDING otherwise). */
  function NewListing(form: ListingForm, id: string, createdAt: string, verdict: Verdict): (l: Listing)
    ensures l.status == Published <==> verdict == Approved
    ensures l.status == Pending <==> verdict.Flagged?
    ensures !l.featured && l.images == []
    ensures l.id == id && l.createdAt == createdAt
    ensures l.title == form.title && l.listingType == form.listingType
    ensures l.authorSubject == form.authorSubject && l.description == form.description
    ensures l.condition == form.condition && l.location == form.location
    ensures l.ownerEmail == form.ownerEmail
    ensures l.tags == ParseTags(form.tags)
  {
    Listing(id, form.listingType, form.title, form.authorSubject, form.description,
      form.condition, form.location, form.ownerEmail, ParseTags(form.tags),
      false, [], createdAt, if verdict == Approved then Published else Pending)
  }

  /** The schema status a client status corresponds to: PENDING is the
      schema's PENDING_REVIEW, PUBLISHED is PUBLISHED, and REPORTED has no
      schema counterpart. */
  function ToSchemaStatus(s: ClientStatus): (r: Option<ListingSchema.Status>)
    ensures r.Some? <==> s != Reported
    ensures r.Some? ==> ListingSchema.StatusName(r.value) == (if s == Pending then ListingSchema.DEFAULT_STATUS else StatusName(s))
  {
    match s
    case Pending => Some(ListingSchema.PendingReview)
    case Published => Some(ListingSchema.Published)
    case Reported => None
  }

  /** No two listings share an id. */
  predicate UniqueIds(ls: seq<Listing>) {
    forall i, j :: 0 <= i < j < |ls| ==> ls[i].id != ls[j].id
  }
}
