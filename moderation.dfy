/** The admin actions on the stored listings (approve, reject, unpublish,
    delete, toggle featured) and the submission of a new listing, over a
    store that holds the listings array kept in local storage. */
module Moderation {
  import opened Common
  import opened Strings
  import opened Screener
  import opened Listings

  datatype NoticeKind = Success | Warning | Error

  /** A notification shown to the user. */
  datatype Notice = Notice(message: string, kind: NoticeKind)

  predicate HasId(ls: seq<Listing>, id: string) {
    exists i :: 0 <= i < |ls| && ls[i].id == id
  }

  /** Position i holds the first listing with this id. */
  predicate IsFirstWithId(ls: seq<Listing>, id: string, i: int) {
    && 0 <= i < |ls| && ls[i].id == id
    && forall k :: 0 <= k < i ==> ls[k].id != id
  }

  function FindIndexFrom(ls: seq<Listing>, id: string, from: nat): (r: Option<nat>)
    requires from <= |ls|
    ensures r.Some? ==> from <= r.value < |ls| && ls[r.value].id == id
    ensures forall k :: from <= k < (if r.Some? then r.value else |ls|) ==> ls[k].id != id
    decreases |ls| - from
  {
    if from == |ls| then None
    else if ls[from].id == id then Some(from)
    else FindIndexFrom(ls, id, from + 1)
  }

  /** Array.prototype.findIndex on the id: the first position holding the
      id, or nothing when no listing has it. */
  function FindIndex(ls: seq<Listing>, id: string): (r: Option<nat>)
    ensures r.Some? <==> HasId(ls, id)
    ensures r.Some? ==> IsFirstWithId(ls, id, r.value)
  {
    FindIndexFrom(ls, id, 0)
  }

  /** getListing (Array.prototype.find on the id): the first listing with the
      id, or nothing. */
  function GetListing(ls: seq<Listing>, id: string): (r: Option<Listing>)
    ensures r.None? <==> !HasId(ls, id)
    ensures r.Some? ==> exists i :: IsFirstWithId(ls, id, i) && r.value == ls[i]
  {
    match FindIndex(ls, id)
    case None => None
    case Some(i) => Some(ls[i])
  }

  /** Applies f to the first listing with the id; any other listing, and the
      whole array when no listing has the id, is left as it was. */
  function UpdateFirst(ls: seq<Listing>, id: string, f: Listing -> Listing): (r: seq<Listing>)
    ensures |r| == |ls|
    ensures forall i :: 0 <= i < |ls| ==>
      r[i] == if IsFirstWithId(ls, id, i) then f(ls[i]) else ls[i]
    ensures !HasId(ls, id) ==> r == ls
  {
    match FindIndex(ls, id)
    case None => ls
    case Some(i) => ls[i := f(ls[i])]
  }

  function SetPublished(l: Listing): Listing { l.(status := Published) }
  function SetPending(l: Listing): Listing { l.(status := Pending) }
  function FlipFeatured(l: Listing): Listing { l.(featured := !l.featured) }

  /** approveListing: the listing becomes PUBLISHED. */
  function Approve(ls: seq<Listing>, id: string): (r: seq<Listing>)
    ensures |r| == |ls|
    ensures forall i :: IsFirstWithId(ls, id, i) ==> r[i] == ls[i].(status := Published)
    ensures forall i :: 0 <= i < |ls| && !IsFirstWithId(ls, id, i) ==> r[i] == ls[i]
  {
    UpdateFirst(ls, id, SetPublished)
  }

  /** toggleFeaturedListing: the listing's featured flag is flipped. */
  function ToggleFeatured(ls: seq<Listing>, id: string): (r: seq<Listing>)
    ensures |r| == |ls|
    ensures forall i :: IsFirstWithId(ls, id, i) ==> r[i] == ls[i].(featured := !ls[i].featured)
    ensures forall i :: 0 <= i < |ls| && !IsFirstWithId(ls, id, i) ==> r[i] == ls[i]
  {
    UpdateFirst(ls, id, FlipFeatured)
  }

  /** unpublishListing as intended: the listing goes back to PENDING. */
  function Unpublish(ls: seq<Listing>, id: string): (r: seq<Listing>)
    ensures |r| == |ls|
    ensures forall i :: IsFirstWithId(ls, id, i) ==> r[i] == ls[i].(status := Pending)
    ensures forall i :: 0 <= i < |ls| && !IsFirstWithId(ls, id, i) ==> r[i] == ls[i]
  {
    UpdateFirst(ls, id, SetPending)
  }

  /** The filter predicate of rejectListing and deleteListing. */
  function OtherId(id: string): Listing -> bool {
    (l: Listing) => l.id != id
  }

  /** rejectListing and deleteListing: every listing with the id is dropped,
      the others keep their order. */
  function RemoveId(ls: seq<Listing>, id: string): (r: seq<Listing>)
    ensures IsSubsequence(r, ls)
    ensures !HasId(r, id)
    ensures forall i :: 0 <= i < |ls| && ls[i].id != id ==> ls[i] in r
    ensures |r| == |set i | 0 <= i < |ls| && ls[i].id != id|
  {
    FilterIsSubsequence(ls, OtherId(id));
    FilterCount(ls, OtherId(id));
    assert Where(ls, OtherId(id)) == set i | 0 <= i < |ls| && ls[i].id != id;
    Filter(ls, OtherId(id))
  }

  /** unpublishListing as written: the status change is made on a local copy,
      and the save refers to a name that is not defined, so a confirmed
      unpublish of an existing listing raises a ReferenceError and the store
      keeps its contents. The second component says whether the error is
      raised. */
  function UnpublishAsWritten(ls: seq<Listing>, id: string, confirmed: bool): (r: (seq<Listing>, bool))
    ensures r.1 <==> confirmed && HasId(ls, id)
    ensures r.0 == ls
  {
    (ls, confirmed && FindIndex(ls, id).Some?)
  }

  /** A confirmed unpublish of a published listing leaves it published, where
      the intended action makes it PENDING. */
  lemma UnpublishAsWrittenKeepsPublished(ls: seq<Listing>, id: string, i: nat)
    requires IsFirstWithId(ls, id, i) && ls[i].status == Published
    ensures UnpublishAsWritten(ls, id, true).0[i].status == Published
    ensures Unpublish(ls, id)[i].status == Pending
    ensures UnpublishAsWritten(ls, id, true).0 != Unpublish(ls, id)
  {
    assert Unpublish(ls, id)[i] == SetPending(ls[i]);
  }

  /** A function that keeps ids keeps every position's id, so the first
      position with an id is the same before and after. */
  lemma UpdateFirstKeepsIds(ls: seq<Listing>, id: string, f: Listing -> Listing, id': string)
    requires forall l :: f(l).id == l.id
    ensures forall i :: 0 <= i < |ls| ==> UpdateFirst(ls, id, f)[i].id == ls[i].id
    ensures forall i :: IsFirstWithId(UpdateFirst(ls, id, f), id', i) <==> IsFirstWithId(ls, id', i)
  {
    var r := UpdateFirst(ls, id, f);
    assert forall i :: 0 <= i < |ls| ==> r[i].id == ls[i].id by {
      forall i | 0 <= i < |ls| ensures r[i].id == ls[i].id {
        if IsFirstWithId(ls, id, i) {
          assert r[i] == f(ls[i]);
        }
      }
    }
  }

  /** Approving twice is approving once. */
  lemma ApproveIdempotent(ls: seq<Listing>, id: string)
    ensures Approve(Approve(ls, id), id) == Approve(ls, id)
  {
    var once := Approve(ls, id);
    UpdateFirstKeepsIds(ls, id, SetPublished, id);
    var twice := Approve(once, id);
    forall i | 0 <= i < |once| ensures twice[i] == once[i] {
      if IsFirstWithId(once, id, i) {
        assert once[i] == SetPublished(ls[i]);
      }
    }
  }

  /** Approving an existing listing publishes it. */
  lemma ApprovePublishes(ls: seq<Listing>, id: string)
    requires HasId(ls, id)
    ensures exists i :: IsFirstWithId(Approve(ls, id), id, i) && Approve(ls, id)[i].status == Published
  {
    var i := FindIndex(ls, id).value;
    UpdateFirstKeepsIds(ls, id, SetPublished, id);
    assert Approve(ls, id)[i] == SetPublished(ls[i]);
  }

  /** Toggling the featured flag twice restores the listings. */
  lemma ToggleTwice(ls: seq<Listing>, id: string)
    ensures ToggleFeatured(ToggleFeatured(ls, id), id) == ls
  {
    var once := ToggleFeatured(ls, id);
    UpdateFirstKeepsIds(ls, id, FlipFeatured, id);
    var twice := ToggleFeatured(once, id);
    forall i | 0 <= i < |ls| ensures twice[i] == ls[i] {
      if IsFirstWithId(ls, id, i) {
        assert once[i] == FlipFeatured(ls[i]);
      }
    }
  }

  /** Approving after the intended unpublish of a published listing restores
      the listings. */
  lemma ApproveUndoesUnpublish(ls: seq<Listing>, id: string, i: nat)
    requires IsFirstWithId(ls, id, i) && ls[i].status == Published
    ensures Approve(Unpublish(ls, id), id) == ls
  {
    var once := Unpublish(ls, id);
    UpdateFirstKeepsIds(ls, id, SetPending, id);
    var twice := Approve(once, id);
    forall k | 0 <= k < |ls| ensures twice[k] == ls[k] {
      if IsFirstWithId(ls, id, k) {
        assert k == i;
        assert once[k] == SetPending(ls[k]);
      }
    }
  }

  /** Every id-preserving update keeps ids unique. */
  lemma UpdateFirstKeepsUnique(ls: seq<Listing>, id: string, f: Listing -> Listing)
    requires UniqueIds(ls)
    requires forall l :: f(l).id == l.id
    ensures UniqueIds(UpdateFirst(ls, id, f))
  {
    UpdateFirstKeepsIds(ls, id, f, id);
  }

  /** Removal keeps ids unique. */
  lemma {:induction false} RemoveKeepsUnique(ls: seq<Listing>, id: string)
    requires UniqueIds(ls)
    ensures UniqueIds(RemoveId(ls, id))
  {
    if ls != [] {
      RemoveKeepsUnique(ls[1..], id);
      var rest := RemoveId(ls[1..], id);
      if ls[0].id != id {
        assert RemoveId(ls, id) == [ls[0]] + rest;
        forall j | 0 <= j < |rest| ensures rest[j].id != ls[0].id {
          var k :| 0 <= k < |ls[1..]| && ls[1..][k] == rest[j];
          assert ls[k + 1] == rest[j];
        }
      } else {
        assert RemoveId(ls, id) == rest;
      }
    }
  }

  /** With unique ids, removing an existing id drops exactly one listing and
      removing an unknown id drops none. */
  lemma {:induction false} RemoveCount(ls: seq<Listing>, id: string)
    requires UniqueIds(ls)
    ensures |RemoveId(ls, id)| == |ls| - (if HasId(ls, id) then 1 else 0)
  {
    if ls != [] {
      assert UniqueIds(ls[1..]);
      RemoveCount(ls[1..], id);
      if ls[0].id == id {
        assert !HasId(ls[1..], id);
        assert RemoveId(ls, id) == RemoveId(ls[1..], id);
      } else {
        assert RemoveId(ls, id) == [ls[0]] + RemoveId(ls[1..], id);
        assert HasId(ls, id) ==> HasId(ls[1..], id) by {
          if HasId(ls, id) {
            var k :| 0 <= k < |ls| && ls[k].id == id;
            assert ls[1..][k - 1].id == id;
          }
        }
        assert HasId(ls[1..], id) ==> HasId(ls, id) by {
          if HasId(ls[1..], id) {
            var k :| 0 <= k < |ls[1..]| && ls[1..][k].id == id;
            assert ls[k + 1].id == id;
          }
        }
      }
    }
  }

  /** Removing is idempotent. */
  lemma RemoveIdempotent(ls: seq<Listing>, id: string)
    ensures RemoveId(RemoveId(ls, id), id) == RemoveId(ls, id)
  {
    FilterIdempotent(ls, OtherId(id));
  }

  /** A submission with a fresh id keeps ids unique. */
  lemma AppendFreshKeepsUnique(ls: seq<Listing>, l: Listing)
    requires UniqueIds(ls) && !HasId(ls, l.id)
    ensures UniqueIds(ls + [l])
  {
  }

  /** The notification after a submission: success when published, a warning
      with the flagging reason when held for review, an error when the request
      failed. */
  function SubmitNotice(v: Verdict, requestOk: bool): (n: Notice)
    ensures n.kind == Error <==> !requestOk
    ensures n.kind == Success <==> requestOk && v == Approved
    ensures requestOk && v.Flagged? ==> n.kind == Warning && Contains(n.message, v.keyword)
  {
    if !requestOk then Notice("Error submitting resource. Please try again.", Error)
    else if v == Approved then Notice("Resource published successfully!", Success)
    else
      var reason := Reason(v);
      var message := reason + " An admin will review it shortly.";
      assert Contains(message, v.keyword) by {
        var k :| 0 <= k <= |reason| - |v.keyword| && OccursAt(reason, v.keyword, k);
        assert message[k..k + |v.keyword|] == reason[k..k + |v.keyword|];
        assert OccursAt(message, v.keyword, k);
      }
      Notice(message, Warning)
  }

  /** The listings array kept in local storage, with the actions that read,
      change and save it. */
  class ListingStore {
    var listings: seq<Listing>

    constructor(initial: seq<Listing>)
      ensures listings == initial
    {
      listings := initial;
    }

    /** handleListingSubmit: the title is screened before the request; when
        the request and its JSON reply succeed, the new record (PUBLISHED or
        PENDING by the verdict) is appended; otherwise nothing is saved.
        `requestOk` stands for the outcome of the network request. */
    method SubmitListing(form: ListingForm, id: string, createdAt: string, requestOk: bool)
      returns (notice: Notice)
      modifies this
      ensures requestOk ==>
        listings == old(listings) + [NewListing(form, id, createdAt, Screen(form.title))]
      ensures !requestOk ==> listings == old(listings)
      ensures notice == SubmitNotice(Screen(form.title), requestOk)
    {
      var verdict := AutomatedApprovalCheck(form.title);
      if requestOk {
        var record := NewListing(form, id, createdAt, verdict);
        listings := listings + [record];
      }
      notice := SubmitNotice(verdict, requestOk);
    }

    /** approveListing. */
    method ApproveListing(id: string) returns (notice: Option<Notice>)
      modifies this
      ensures listings == Approve(old(listings), id)
      ensures notice.Some? <==> HasId(old(listings), id)
      ensures notice.Some? ==> notice.value == Notice("Listing approved and published", Success)
    {
      var idx := FindIndex(listings, id);
      if idx.Some? {
        var i := idx.value;
        listings := listings[i := listings[i].(status := Published)];
        notice := Some(Notice("Listing approved and published", Success));
      } else {
        notice := None;
      }
    }

    /** toggleFeaturedListing: the notice reports the new flag. */
    method ToggleFeaturedListing(id: string) returns (notice: Option<Notice>)
      modifies this
      ensures listings == ToggleFeatured(old(listings), id)
      ensures notice.Some? <==> HasId(old(listings), id)
      ensures notice.Some? ==> exists i ::
        && IsFirstWithId(listings, id, i)
        && notice.value.kind == Success
        && notice.value.message == (if listings[i].featured then "Listing marked as featured" else "Listing unfeatured")
    {
      var idx := FindIndex(listings, id);
      if idx.Some? {
        var i := idx.value;
        UpdateFirstKeepsIds(listings, id, FlipFeatured, id);
        listings := listings[i := listings[i].(featured := !listings[i].featured)];
        notice := Some(Notice(
          if listings[i].featured then "Listing marked as featured" else "Listing unfeatured",
          Success));
      } else {
        notice := None;
      }
    }

    /** rejectListing: after confirmation, the listing is deleted. */
    method RejectListing(id: string, confirmed: bool) returns (notice: Option<Notice>)
      modifies this
      ensures listings == if confirmed then RemoveId(old(listings), id) else old(listings)
      ensures notice.Some? <==> confirmed
      ensures notice.Some? ==> notice.value == Notice("Listing rejected and deleted", Success)
    {
      if confirmed {
        listings := RemoveId(listings, id);
        notice := Some(Notice("Listing rejected and deleted", Success));
      } else {
        notice := None;
      }
    }

    /** deleteListing: after confirmation, the listing is deleted. */
    method DeleteListing(id: string, confirmed: bool) returns (notice: Option<Notice>)
      modifies this
      ensures listings == if confirmed then RemoveId(old(listings), id) else old(listings)
      ensures notice.Some? <==> confirmed
      ensures notice.Some? ==> notice.value == Notice("Listing deleted", Success)
    {
      if confirmed {
        listings := RemoveId(listings, id);
        notice := Some(Notice("Listing deleted", Success));
      } else {
        notice := None;
      }
    }

    /** unpublishListing as written: nothing is saved, and `referenceError`
        says whether the undefined name is reached. */
    method UnpublishListing(id: string, confirmed: bool) returns (referenceError: bool)
      modifies this
      ensures (listings, referenceError) == UnpublishAsWritten(old(listings), id, confirmed)
    {
      referenceError := false;
      if confirmed {
        var working := listings;
        var idx := FindIndex(working, id);
        if idx.Some? {
          working := working[idx.value := working[idx.value].(status := Pending)];
          referenceError := true;
        }
      }
    }
  }
}
