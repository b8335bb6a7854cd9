# SwapShelf listing moderation, modelled in Dafny

SwapShelf is a campus marketplace for used textbooks and notes. This project
models the listing moderation pipeline of its browser client and the record
constraints of its listing schema, then proves properties of both.

- **Store.** The client keeps every listing in one array in local storage. It
  reads the whole array, changes it and writes it back.
- **Screening.** A new listing's title is screened against an ordered denylist
  of keywords. The listing is published at once, or held as PENDING until an
  admin reviews it.
- **Admin actions.** Admins approve, reject, unpublish, delete and feature
  listings.
- **Public view.** Visitors browse the published listings with a search box,
  three selections and nine listings per page.
- **Statistics** count listings by status, type and location.
- **Images.** The create form accepts up to five images. The detail view shows
  a listing's images in a lightbox with wrap-around navigation.
- **Schema.** The server's Mongoose schema declares enumerations, required
  fields, length bounds, defaults and an e-mail pattern for a listing
  document.

Modules, one file each:

- `common.dfy` (`Common`): `Option`, the order-preserving `Filter`
  (`Array.prototype.filter`) and subsequences.
- `strings.dfy` (`Strings`): the JavaScript string operations the client uses.
  These are ASCII `toLowerCase`, `includes`, `startsWith`, `trim` with
  JavaScript's white-space set, and `split`/`join` on one character.
- `screener.dfy` (`Screener`): `automatedApprovalCheck`. It is a loop method
  proved against the specification function `ScreenWith`; `Screen` applies it
  to the fixed denylist.
- `listings.dfy` (`Listings`): the client's listing record and its three-value
  status vocabulary (PENDING, PUBLISHED, REPORTED). It also holds tag parsing,
  the record a submission builds, and the mapping to the schema's seven-value
  status enumeration.
- `moderation.dfy` (`Moderation`): the admin actions as functions on the
  listing sequence, and the class `ListingStore`. The class's field
  `listings` is reassigned by a method per action and by the submission
  method.
- `query.dfy` (`Query`): the public and admin views, page slicing, and the
  pager. The pager is built by a loop in `Browser.RenderPagination` and
  specified by `Pager`. The module also holds the statistics.
- `gallery.dfy` (`Gallery`): the lightbox as the class `Lightbox`, with its
  image list and position.
- `imageupload.dfy` (`ImageUpload`): image selection as the class
  `ImagePicker`, with the selected files, and the remove button.
- `schema.dfy` (`ListingSchema`): `models/Listing.js` as a validity predicate
  on documents.

Inputs the client takes from its environment become parameters:

- the outcome of the POST request and its JSON reply (`requestOk`);
- the generated id and the creation timestamp;
- the answers to `confirm()` prompts (`confirmed`);
- whether the visitor is an admin (`isAdmin`);
- the values of the form and filter controls;
- the file objects chosen in the file input (name, size, MIME type).

The client never sorts listings, checks no status transitions and writes
only PENDING and PUBLISHED; the model does the same.

The reason text of a PENDING verdict keeps the quotation-mark characters that
stand in `public/js/app.js` line 584. The file has the curly quotes in their
UTF-8 bytes read back as Windows-1252: "â€œ" before the keyword and "â€" after
it.

## Model

| member | source | states |
|---|---|---|
| Screener.ScreenWith | public/js/app.js:566-589 | the verdict is PENDING exactly when some keyword occurs in the lower-cased title, and it then names the first matching keyword in list order |
| Screener.FirstMatch | public/js/app.js:579-587 | the index found holds a keyword that occurs, and no keyword between the start position and it occurs |
| Screener.CheckTitle | public/js/app.js:578-589 | the early-return scan over the keywords computes the verdict `ScreenWith` specifies |
| Screener.AutomatedApprovalCheck | public/js/app.js:566-589 | the scan over the fixed 43-keyword denylist gives `Screen(title)` |
| Screener.Reason | public/js/app.js:583-586 | the reason text contains the flagged keyword |
| Screener.FirstMatchUnique | public/js/app.js:579-587 | the first match is unique |
| Screener.FlaggedInAnyCase | public/js/app.js:578-582 | a title containing a keyword in any mix of upper- and lower-case letters is deferred |
| Screener.ShadowedKeywordNeverReported | public/js/app.js:579-587 | a keyword that contains an earlier different keyword is never the one reported |
| Screener.ChildAbuseReportedEarlier | public/js/app.js:567-586 | a title containing "child abuse" is deferred for "abuse" or an earlier keyword, never for "child abuse" |
| Screener.BlankTitleApproved | public/js/app.js:578-589 | an all-white-space title is approved when every keyword starts with a letter |
| Screener.DenylistStartsWithLetters | public/js/app.js:567-577 | every keyword of the denylist starts with a lower-case letter |
| Screener.BlankTitleScreenedApproved | public/js/app.js:566-589 | an empty or all-white-space title is approved by the denylist |
| Screener.FirstKeywordWins | public/js/app.js:579-586 | once the first keyword occurs, it is the one reported |
| Screener.ScamTitleDeferred | public/js/app.js:566-589 | "Scam textbook bundle" is deferred for "scam" |
| Strings.LowerChar | public/js/app.js:578 | lower-casing a character maps A-Z to a-z and leaves every other character alone |
| Strings.Lower | public/js/app.js:578 | lower-casing keeps the length and lower-cases each character |
| Strings.LowerIdempotent | public/js/app.js:578 | lower-casing twice is lower-casing once |
| Strings.ContainsTransitive | public/js/app.js:581 | an occurrence inside an occurrence is an occurrence |
| Strings.ContainsAnyCase | public/js/app.js:578-581 | an occurrence survives lower-casing both strings |
| Strings.Trim | public/js/app.js:962 | the trimmed text neither starts nor ends with white space, and only white space surrounds it in the input |
| Strings.TrimIdempotent | public/js/app.js:962 | trimming twice is trimming once |
| Strings.Split | public/js/app.js:962 | splitting gives at least one piece, and no piece contains the separator |
| Strings.JoinSplit | public/js/app.js:962 | joining the pieces of a split gives the string back |
| Strings.SplitJoin | public/js/app.js:962 | splitting the join of separator-free pieces gives the pieces back |
| Listings.ParseTags | public/js/app.js:962 | an empty field gives no tags; otherwise tag i is comma-separated piece i with its surrounding white space removed, so it holds no comma and starts and ends with no white space |
| Listings.ParseTagsOfJoin | public/js/app.js:962 | pieces joined with commas parse to the pieces trimmed, so "a , b" gives "a" and "b" |
| Listings.ParseTagsJoin | public/js/app.js:962 | clean tags joined with commas parse back to themselves |
| Listings.JoinParseTags | public/js/app.js:962 | a field whose pieces have no surrounding white space is the join of its parsed tags |
| Listings.NewListing | public/js/app.js:953-979 | the new record is PUBLISHED exactly when the title was approved and PENDING exactly when it was flagged; it is not featured, has no images, and carries the form's fields and parsed tags |
| Listings.ToSchemaStatus | models/Listing.js:50-54 | PENDING maps to the schema's default PENDING_REVIEW and PUBLISHED to PUBLISHED; REPORTED has no schema value |
| Moderation.FindIndex | public/js/app.js:851 | a position is found exactly when some listing has the id, and it is the first such position |
| Moderation.GetListing | public/js/app.js:601-604 | the listing found is the first with the id; there is none exactly when no listing has it |
| Moderation.UpdateFirst | public/js/app.js:849-859 | only the first listing with the id is changed; with no such listing, nothing is |
| Moderation.Approve | public/js/app.js:849-859 | the first listing with the id becomes PUBLISHED, whatever its status was, and every other listing is unchanged |
| Moderation.ToggleFeatured | public/js/app.js:68-79 | the first listing with the id has its featured flag negated, and every other listing is unchanged |
| Moderation.Unpublish | public/js/app.js:871-883 | the intended unpublish: the first listing with the id becomes PENDING, and every other listing is unchanged |
| Moderation.RemoveId | public/js/app.js:861-869 | the result is a subsequence of the listings with no listing carrying the id, it keeps every listing with another id, and it has exactly one element per position holding another id, so repeated listings are all kept |
| Moderation.UnpublishAsWritten | public/js/app.js:871-883 | the store keeps its contents, and a ReferenceError is raised exactly when the unpublish is confirmed and the id exists |
| Moderation.UnpublishAsWrittenKeepsPublished | public/js/app.js:876-878 | a confirmed unpublish of a published listing leaves it published, unlike the intended action |
| Moderation.UpdateFirstKeepsIds | public/js/app.js:849-859 | an update that keeps ids keeps every id and every first position of an id |
| Moderation.ApproveIdempotent | public/js/app.js:849-859 | approving twice is approving once |
| Moderation.ApprovePublishes | public/js/app.js:849-859 | after approving an existing id, its first listing is PUBLISHED |
| Moderation.ToggleTwice | public/js/app.js:68-79 | toggling the featured flag twice restores the listings |
| Moderation.ApproveUndoesUnpublish | public/js/app.js:871-883 | approving after the intended unpublish of a published listing restores the listings |
| Moderation.UpdateFirstKeepsUnique | public/js/app.js:849-859 | approve, toggle and unpublish keep ids unique |
| Moderation.RemoveKeepsUnique | public/js/app.js:861-869 | reject and delete keep ids unique |
| Moderation.RemoveCount | public/js/app.js:885-893 | with unique ids, deleting an existing id drops exactly one listing and deleting an unknown id drops none |
| Moderation.RemoveIdempotent | public/js/app.js:885-893 | deleting twice is deleting once |
| Moderation.AppendFreshKeepsUnique | public/js/app.js:983-985 | appending a record with a fresh id keeps ids unique |
| Moderation.SubmitNotice | public/js/app.js:970-993 | a submission shows an error exactly when the request failed, success exactly when it succeeded with an approved title, and otherwise a warning containing the flagged keyword |
| Moderation.ListingStore.SubmitListing | public/js/app.js:932-997 | a successful request appends the new record, with its status chosen by the screening verdict, and every earlier listing is unchanged; a failed request saves nothing |
| Moderation.ListingStore.ApproveListing | public/js/app.js:849-859 | the in-place status update gives `Approve` of the old listings, with a notice exactly when the id exists |
| Moderation.ListingStore.ToggleFeaturedListing | public/js/app.js:68-79 | the in-place flag flip gives `ToggleFeatured` of the old listings; the notice reports the new flag |
| Moderation.ListingStore.RejectListing | public/js/app.js:861-869 | when confirmed, the listings become `RemoveId` of the old ones; otherwise nothing changes |
| Moderation.ListingStore.DeleteListing | public/js/app.js:885-893 | when confirmed, the listings become `RemoveId` of the old ones; otherwise nothing changes |
| Moderation.ListingStore.UnpublishListing | public/js/app.js:871-883 | the listings are unchanged, and the ReferenceError is reached exactly when `UnpublishAsWritten` says so |
| Query.FilterListings | public/js/app.js:730-755 | the results are a subsequence of the store in which every listing is PUBLISHED and passes the search and every chosen selection, results miss no such listing, and there is exactly one result per position that passes, so repeated listings are all kept |
| Query.NoFiltersShowsAllPublished | public/js/app.js:730-752 | with no search and no selection, every published listing is shown |
| Query.SearchIgnoresCase | public/js/app.js:735-745 | search text that differs only in letter case gives the same results |
| Query.SelectionNarrows | public/js/app.js:747-751 | choosing a type only removes results and keeps their order |
| Query.AdminListings | public/js/app.js:781-794 | a non-admin gets nothing; an admin gets every listing, or exactly those with the chosen status, in stored order, one per position with that status |
| Query.AdminPublishedIsPublicView | public/js/app.js:788-794 | an admin filtering by PUBLISHED sees exactly what a visitor sees with no filters |
| Query.TotalPages | public/js/app.js:1189 | the page count is the ceiling of items over page size, and zero only for no items |
| Query.Window | public/js/app.js:772-774 | the slice holds at most `size` elements, each of them the input element at the same offset from `start` |
| Query.PageOf | public/js/app.js:772-774 | page `p` holds at most `size` listings, the ones from position (p-1)·size on; it is empty when (p-1)·size ≥ n |
| Query.ItemOnItsPage | public/js/app.js:772-774 | item i is the (i mod size)-th listing on page i div size + 1 |
| Query.PagesCover | public/js/app.js:1189 | pages 1 to TotalPages are non-empty and every later page is empty |
| Query.PageButtons | public/js/app.js:1203-1206 | one button per page, numbered from 1, active on the current page |
| Query.Pager | public/js/app.js:1185-1214 | a single page gets no pager; otherwise Previous appears exactly when the current page is above 1, Next exactly when it is below the last, a page button is active exactly on the current page, Previous leads to the page before the current one and Next to the page after it, and every target is a page when the current page is one |
| Query.PagerOneActive | public/js/app.js:1203-1206 | exactly one page button is active when the current page is one of the pages, and none otherwise |
| Query.PagerNumbersPages | public/js/app.js:1203-1206 | the page buttons are numbered 1 to totalPages, in order |
| Query.Browser.constructor | public/js/app.js:84 | browsing starts on page 1 |
| Query.Browser.GoToPage | public/js/app.js:1216-1219 | the current page becomes the chosen one |
| Query.Browser.RenderPagination | public/js/app.js:1185-1214 | the buttons built one by one are exactly `Pager` of the page count and the current page |
| Query.Browser.RenderFilteredListings | public/js/app.js:757-778 | the empty state is shown exactly when nothing matches; otherwise the current page's slice is shown with the pager |
| Query.Locations | public/js/app.js:668 | the location list has one entry per listing |
| Query.UpdateStats | public/js/app.js:663-696 | published is what browsing shows with no filters and the number of published positions; books and notes are the numbers of published positions of each type; locations is the number of distinct locations of published listings; pending and reported are the numbers of positions with those statuses; the total is the number of listings; books plus notes and distinct locations do not exceed published, and published, pending and reported add up to the total |
| Query.StatusCount | public/js/app.js:665-690 | filtering by a status keeps exactly one listing per position with that status |
| Query.PublishedTypeCount | public/js/app.js:666-667 | counting a type among the published listings counts the positions that are published and of that type |
| Query.PublishedLocations | public/js/app.js:668 | the distinct locations of the published listings are exactly the locations of the listings that are published |
| Gallery.PrevIndex | public/js/app.js:1120-1127 | within range, Previous moves one back modulo the image count and stays in range |
| Gallery.NextIndex | public/js/app.js:1129-1136 | within range, Next moves one on modulo the image count and stays in range |
| Gallery.NavigationInverse | public/js/app.js:1120-1136 | Next then Previous, or Previous then Next, returns to the same image |
| Gallery.FullCycle | public/js/app.js:1129-1136 | pressing Next once per image returns to the first image shown |
| Gallery.Lightbox.Shown | public/js/app.js:1126 | an image is displayed exactly when the position is within the images, and it is one of them |
| Gallery.Lightbox.Open | public/js/app.js:1094-1117 | a missing listing or one without images changes nothing; otherwise its images are shown from the requested position |
| Gallery.Lightbox.Prev | public/js/app.js:1120-1127 | the position becomes `PrevIndex` of the old one |
| Gallery.Lightbox.Next | public/js/app.js:1129-1136 | the position becomes `NextIndex` of the old one |
| Gallery.Lightbox.Close | public/js/app.js:1139-1144 | closing clears the images and resets the position |
| ImageUpload.FileCheck | public/js/app.js:344-353 | a file is refused exactly when it is over 5 MB (checked first) or not of an image/ type |
| ImageUpload.AcceptedFiles | public/js/app.js:343-355 | the accepted files are at most the chosen ones, and all acceptable |
| ImageUpload.AcceptedIsFilter | public/js/app.js:343-355 | the accepted files are exactly the order-keeping filter of the chosen files by acceptability, hence a subsequence of them |
| ImageUpload.RefusedIndices | public/js/app.js:344-353 | the positions of refused files, increasing, each a refused file |
| ImageUpload.EveryFileAccountedFor | public/js/app.js:344-365 | every chosen file is either acceptable and has a preview, or refused and listed among the refused positions |
| ImageUpload.FileWarnings | public/js/app.js:343-353 | there is one warning per refused file, the k-th being the check's warning for the k-th refused file |
| ImageUpload.PreviewIndices | public/js/app.js:364 | each remove button, as written, holds the position of its file among all chosen files, in increasing order |
| ImageUpload.FixedPreviewIndices | public/js/app.js:355 | the corrected remove button holds the position of its file among the selected images |
| ImageUpload.Splice | public/js/app.js:380 | splice(index, 1) removes the element at the index and shifts the later ones down; an index past the end removes nothing |
| ImageUpload.FixedRemoveDropsClicked | public/js/app.js:380 | with the corrected indices, removing preview k removes exactly the k-th selected image |
| ImageUpload.AllAcceptedKept | public/js/app.js:343-355 | when every chosen file is acceptable, all of them are selected |
| ImageUpload.NoWarningsWhenAllAccepted | public/js/app.js:343-353 | when every chosen file is acceptable, no warning is shown |
| ImageUpload.IndicesAgreeWhenAllAccepted | public/js/app.js:364 | when every chosen file is acceptable, the written indices are the corrected ones |
| ImageUpload.RemoveButtonMisnumbered | public/js/app.js:364-371 | with a PDF chosen before two images, removing the first image's preview removes the second image |
| ImageUpload.ImagePicker.HandleImageSelection | public/js/app.js:329-376 | more than five files are refused with one warning and the selection kept; otherwise the selection becomes the acceptable files, with a warning per refused file and the written preview indices; at most five acceptable images stay selected |
| ImageUpload.ImagePicker.Reset | public/js/app.js:921-929 | when the form is on the page the selection is emptied, otherwise it is kept |
| ImageUpload.ImagePicker.RemoveImage | public/js/app.js:379-391 | the selection loses the image at the index, and the re-selection the change event triggers keeps it, with no warnings and previews renumbered from 0 |
| ListingSchema.ParseType | models/Listing.js:4-8 | exactly the names of the two listing types are accepted |
| ListingSchema.ParseCondition | models/Listing.js:24-28 | exactly the names of the four conditions are accepted |
| ListingSchema.ParseStatus | models/Listing.js:50-54 | exactly the names of the seven statuses are accepted |
| ListingSchema.EnumRoundTrips | models/Listing.js:4-54 | every enumeration value's name is accepted back as that value |
| ListingSchema.EnumsExact | models/Listing.js:4-54 | the accepted sets are exactly {BOOK, NOTES}, {Excellent, Good, Fair, Poor} and the seven status names |
| ListingSchema.ValidIff | models/Listing.js:3-71 | a document is valid exactly when the type, title, author or subject, description, condition and e-mail are present, the enumerations hold, title ≤ 200, author/subject ≤ 100, description ≤ 1000, location ≤ 100 when given, each tag ≤ 50, the e-mail matches, and any status given is in its enumeration |
| ListingSchema.MissingFieldsAllReported | models/Listing.js:4-42 | every missing required field is reported, and location is never required |
| ListingSchema.WithDefaults | models/Listing.js:50-70 | missing status, featured, views and timestamps get PENDING_REVIEW, false, 0 and now; given values are kept, and so is every other field |
| ListingSchema.DefaultsKeepViolations | models/Listing.js:50-54 | the default status is in its enumeration, so filling in defaults changes no violation |
| ListingSchema.ImagesUnbounded | models/Listing.js:43-45 | the images never affect validity, so any number of them passes |
| ListingSchema.EmailValidatorIff | models/Listing.js:36-40 | the pattern accepts exactly the strings with no white space, exactly one '@' with something before it, and a '.' after it that is neither first nor last in the domain |
| ListingSchema.SampleDocumentValid | models/Listing.js:3-71 | a complete sample document is valid |

## Left out

- Rendering, event wiring, modals and notifications are not modelled. The
  notices are returned as values instead of shown.
- The store's JSON serialisation in local storage is not modelled; the store
  is an in-memory sequence.
- The network requests are not modelled. The POST's outcome is the parameter
  `requestOk`, standing for "the request resolved and its reply parsed as
  JSON"; the client does not look at the HTTP status.
- `generateId` and `new Date()` are not modelled; the id and timestamp are
  parameters.
- `FileReader` and `DataTransfer` are not modelled. Previews are created
  asynchronously, so the order in which they appear is not modelled either.
- server.js, middleware/auth.js, utils/seedDatabase.js and test-db.js are not
  part of this model; being an admin is the boolean `isAdmin`.
- `loadFeaturedListings` is outside the modelled core.
- Strings.Lower: lower-cases the ASCII letters only, not the full Unicode
  mapping of `toLowerCase`.
- ListingSchema.ValidIff: counts lengths in Unicode scalar values, whereas
  `maxlength` counts UTF-16 code units.
- ListingSchema.ValidIff: does not model Mongoose's casting of non-string
  values or other validators running on absent values. It assumes that
  `required` rejects an absent value and the empty string, and that a path
  reports only its first failing rule.
- ImageUpload.Splice: takes a non-negative index only. The client passes
  preview indices, which are never negative, so the negative-index form of
  `splice` is not modelled.
- Query.Browser.RenderFilteredListings: requires the current page to be at
  least 1. The client starts on page 1 and its buttons never lead lower.
- Query.MatchesSearch: models `tags` as always present; the client's guard
  against a missing tag list is not needed for records it builds.
- Gallery.Lightbox.Open: does not check the requested position against the
  image count, as the client does not. Shown then displays nothing until
  Previous or Next brings the position back into range.

## Findings

| source | as written | input that shows it | evidently intended | confidence | as-written member | corrected member |
|---|---|---|---|---|---|---|
| public/js/app.js:871-883 | the status change is made on a local copy, then the save is passed `filteredListings`, which is not defined in the method, so a ReferenceError is raised and nothing is saved | confirming the unpublish of an existing PUBLISHED listing | save the changed `listings`, so the listing becomes PENDING | high; not executed | Moderation.UnpublishAsWritten | Moderation.Unpublish |
| public/js/app.js:343-371 | the remove button of a preview carries the file's position among all chosen files, but `removeImage` splices `selectedImages`, from which refused files are missing | choosing [scan.pdf (application/pdf), a.png, b.png] and removing a.png's preview removes b.png | the button carries the file's position among the selected images | high; not executed | ImageUpload.PreviewIndices | ImageUpload.FixedPreviewIndices |
