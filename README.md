# Chapter officers

This project models `Chapter::Officer`, the Rails model behind a chapter's
officer roster (`app/models/chapter/officer.rb`). An officer row holds a
name, a title, a position in the roster, contact text, an e-mail, a display
flag `disp` and an optional reference `dke_info_id` to the member who holds
the office. The model covers:

- the record's constructor, which places a new officer at the end of the
  roster unless it arrives through a transfer;
- `valid?`: the declared presence and case-insensitive uniqueness rules on
  name and title, plus the rule that a displayed officer needs a contact;
- the two read views: `contact_info`, the public contact list keyed by
  officer name, and `list_all`, the index-page listing;
- the two batch updates: `mass_update`, which reassigns members after an
  election, and `update_contacts`, which changes display flags and order.

The database table is the class `Chapter.OfficerTable`, holding its rows as
a sequence. The record being built and validated is the class
`Chapter.Officer`. Each loop of the Ruby code is a Dafny loop. Each loop is
proved against a specification function: `ContactInfoOf`, `Listing`,
`MassRun` or `ContactsRun`. The properties the code promises are then
proved about those functions as lemmas.

Modules, in dependency order:

- `Wrappers`: the `Option` type.
- `Text`: `blank?`, the helpers behind case-insensitive comparison, the id
  filter `/\A\d+\z/` and Ruby's `s[2..3]`.
- `Records`: rows and members, `find` and `maximum("position")`.
- `Ordering`: `where(disp: 1)` and `order(:position)`.
- `Validation`: `valid?` and table consistency.
- `Views`: `contact_info` and `list_all`.
- `Batches`: `mass_update` and `update_contacts`.
- `Chapter`: the two classes.

The association chain is given as an input map, `Records.Directory`, from
`dke_info` ids to the brother they lead to. A missing key means `dke_info`
is nil. A key mapped to `None` means the brother is nil. A brother
(`Records.Member`) carries `full_name` and, each optional on its own, the
text of `mit_info.year` and `user.uname`. `list_all` reads the name and the
year, never the user. `contact_info` reads the user only when the officer's
own e-mail is blank.

Behaviour of the code worth noting:

- The year shown is `year.to_s[2..3]`: characters 2 and 3 of the year's
  text, so "15" for "2015". A year text shorter than two characters gives
  nil, and a three-character one gives a single character.
- `contact_info` skips only officers whose `dke_info` is nil. It raises
  for a displayed officer whose `dke_info` exists but whose brother or MIT
  record is missing. It also raises when the user is missing and the
  officer's e-mail is blank. The model makes the absence of these cases a
  precondition: `DisplayedChainsIntact`. An officer with a stored e-mail
  and no user is listed normally.
- `mass_update` can end early: `find` raises RecordNotFound for an id
  naming no officer, and the entries after it are not applied. The model
  gives this the outcome `Stopped(NotFound(id))`. `update_contacts` ends
  the same way on an unknown id.
- `update_contacts` accepts any string of ASCII digits as an id, leading
  zeros included ("007" names officer 7).

## Model

| member | source | states |
|---|---|---|
| Records.MaxPosition | app/models/chapter/officer.rb:15 | `maximum("position")` over a non-empty table is at least every row's position and is the position of some row |
| Records.NextPosition | app/models/chapter/officer.rb:15 | the automatic position is greater than every existing position and is exactly one more than some row's position |
| Chapter.Officer.constructor | app/models/chapter/officer.rb:13-16 | all attributes are taken from the parameters; with `transfer` the supplied position is kept; otherwise the position is above every stored officer's and one more than the largest |
| Chapter.Officer.IsValid | app/models/chapter/officer.rb:20-31 | `errors` ends as the full error list of the declared validations and the contact rule; the answer is true exactly when that list is empty |
| Validation.ValidIff | app/models/chapter/officer.rb:5-6 | valid exactly when name and title are non-blank and unclaimed (ignoring case) by any other row, and a displayed officer has a non-empty contact |
| Validation.BaseFailureFails | app/models/chapter/officer.rb:21-30 | when the declared validations fail, `valid?` fails with exactly their errors and adds nothing on contact |
| Validation.DisplayedNeedsContact | app/models/chapter/officer.rb:22-24 | when the declared validations pass, a displayed officer with empty contact fails with exactly the one error "can't be blank and displayed" on contact |
| Validation.HiddenContactIrrelevant | app/models/chapter/officer.rb:22-27 | with `disp` false the contact plays no part: the errors are the declared validations' errors, and an empty contact is accepted whenever a filled one is |
| Validation.NameUniquenessIgnoresCase | app/models/chapter/officer.rb:5 | "President" counts as taken while "president" is stored, and the name error "has already been taken" is recorded |
| Validation.ErrorsSameKeys | app/models/chapter/officer.rb:5-6 | validation of a record depends on the other rows only through their ids, names and titles |
| Validation.SavePreservesConsistency | app/models/chapter/officer.rb:88 | saving a valid new version of a row with the same id, name and title keeps every row of the table valid and the ids distinct |
| Validation.ConsistentRefusal | app/models/chapter/officer.rb:97 | in a consistent table, an update that keeps name, title and contact is refused exactly when it displays an officer whose contact is empty |
| Validation.ConsistentDistinctNames | app/models/chapter/officer.rb:5 | in a consistent table no two rows share a name, so names are usable as hash keys |
| Text.YearSuffix | app/models/chapter/officer.rb:43 | `s[2..3]` is nil exactly when `s` is shorter than 2 characters; otherwise it holds the characters of `s` from index 2, at most two of them |
| Records.Find | app/models/chapter/officer.rb:88 | `find(id)` gives an index holding that id, and gives nothing exactly when no row has the id |
| Records.FindSameIds | app/models/chapter/officer.rb:97 | `find` answers alike on tables with the same ids in the same places |
| Records.FindUnique | app/models/chapter/officer.rb:88 | with distinct ids, `find` returns the one row holding the id |
| Ordering.Insert | app/models/chapter/officer.rb:39 | one insertion step of `order(:position)` adds exactly the new row |
| Ordering.InsertSorted | app/models/chapter/officer.rb:39 | inserting into a position-sorted list keeps it sorted |
| Ordering.ByPosition | app/models/chapter/officer.rb:63 | `order(:position)` is sorted by position and a permutation of the table |
| Ordering.Displayed | app/models/chapter/officer.rb:39 | `where(disp: 1)` keeps exactly the rows with `disp` true |
| Ordering.ByPositionKeys | app/models/chapter/officer.rb:39 | ordering keeps the set of ids or names and keeps them distinct |
| Ordering.DisplayedKeys | app/models/chapter/officer.rb:39 | filtering keeps distinct ids or names distinct |
| Views.Put | app/models/chapter/officer.rb:49-53 | `officers[name] = entry` sets that key to the entry and leaves every other key's value unchanged; a new key is appended at the end |
| Views.ContactRowsMembers | app/models/chapter/officer.rb:39 | the rows `contact_info` visits are exactly the displayed ones |
| Views.ContactRowsIntact | app/models/chapter/officer.rb:39-47 | every row `contact_info` visits can have its entry built without raising |
| Views.Selected | app/models/chapter/officer.rb:41 | the officers kept are exactly those with a `dke_info`; a position-sorted input stays sorted |
| Views.SelectedAppend | app/models/chapter/officer.rb:40-41 | filtering keeps the order of the rows: filtering `a + b` is filtering `a` followed by filtering `b` |
| Views.SelectedCounts | app/models/chapter/officer.rb:41 | every occurrence of an officer with a `dke_info` is kept, and none of any other officer |
| Views.SelectedDistinct | app/models/chapter/officer.rb:41 | filtering keeps only keys already present, and keeps distinct ids or names distinct |
| Views.FillContactsKeys | app/models/chapter/officer.rb:40-55 | the loop's hash ends with its initial keys plus the names of the officers it keeps |
| Views.FillContactsAppends | app/models/chapter/officer.rb:40-55 | with distinct names, the loop appends one entry per kept officer, in order |
| Views.ContactInfoKeys | app/models/chapter/officer.rb:37-57 | the keys of `contact_info` are exactly the names of the displayed officers whose `dke_info` is present |
| Views.ContactInfoListing | app/models/chapter/officer.rb:37-57 | on a consistent table, `contact_info` holds exactly one pair per displayed officer with a `dke_info`, in ascending position, no name twice, each built from that officer and its brother |
| Views.Entries | app/models/chapter/officer.rb:49-53 | pair `i` is keyed by officer `i`'s name and carries the entry built from that officer and its member |
| Views.ContactEmail | app/models/chapter/officer.rb:42-53 | the e-mail shown is the stored one unless it is blank, else `<uname>@mit.edu`; `full_name` is the brother's; the year is `s[2..3]` of the class year; `name` is the officer's title and `contact` its contact |
| Views.StoredEmailNeedsNoUser | app/models/chapter/officer.rb:44-47 | with an e-mail stored, the entry can be built whether or not the brother has a user, and it is the same either way |
| Views.Listing | app/models/chapter/officer.rb:64-80 | the listing has one entry per row |
| Views.ListAllOrdered | app/models/chapter/officer.rb:63 | `list_all` has one entry per officer, in ascending position |
| Views.ListAllDistinct | app/models/chapter/officer.rb:61-82 | with distinct ids no officer is listed twice |
| Views.ListAllCovers | app/models/chapter/officer.rb:61-82 | every officer's entry is listed, whatever its `disp` |
| Views.ListAllFromTable | app/models/chapter/officer.rb:61-82 | every entry listed is the entry of some officer of the table |
| Views.ListEntryFallback | app/models/chapter/officer.rb:65-79 | when the brother or his MIT record cannot be reached, `full_name` and `year` are blank and the other fields still come from the officer |
| Views.ListEntryResolved | app/models/chapter/officer.rb:65-79 | when the brother and his MIT record are reached, the entry carries his `full_name` and `s[2..3]` of the year, with the other fields from the officer |
| Views.ListEntryIgnoresUser | app/models/chapter/officer.rb:66-67 | whether the brother has a user changes no `list_all` entry |
| Batches.RunBatchSplit | app/models/chapter/officer.rb:95-101 | a batch over two runs of entries is the first run followed, only when it completed, by the second run on the table it left |
| Batches.RunBatchStops | app/models/chapter/officer.rb:97-99 | a batch that stops stopped at some entry: the table it leaves is what the earlier entries produced, and that entry halted with the batch's outcome |
| Batches.MassUpdateFrame | app/models/chapter/officer.rb:86-90 | `mass_update` changes nothing but member references, and leaves every officer the hash does not name as it was |
| Batches.MassUpdateConsistent | app/models/chapter/officer.rb:88 | `mass_update` keeps a consistent table consistent |
| Batches.MassUpdateOutcome | app/models/chapter/officer.rb:86-90 | `mass_update` completes exactly when every key names an officer; otherwise it stops with an id that names none; a refused save never stops it |
| Batches.MassUpdateAssigns | app/models/chapter/officer.rb:87-88 | on a consistent table, a completed `mass_update` leaves each named officer holding the member the hash gives it last |
| Batches.DigitKeyed | app/models/chapter/officer.rb:96 | an entry of the hash is kept exactly when its key is all digits, and nothing else is kept |
| Batches.ContactsSkipsEntry | app/models/chapter/officer.rb:96 | dropping one entry whose key is not all digits, anywhere in the hash, changes neither the table nor the outcome |
| Batches.ContactsSkipsNonDigitKeys | app/models/chapter/officer.rb:96-100 | entries whose key is not all digits have no effect on the table or the outcome |
| Batches.ContactsFrame | app/models/chapter/officer.rb:94-103 | `update_contacts` changes nothing but `disp` and `position`, and leaves every officer no digit key names as it was |
| Batches.ContactsOutcome | app/models/chapter/officer.rb:94-103 | on a consistent table, `update_contacts` keeps the table consistent and returns true exactly when every digit-keyed entry names an officer and does not display one whose contact is empty |
| Chapter.OfficerTable.Save | app/models/chapter/officer.rb:88 | `update_attributes` saves exactly when the new version passes `valid?` against the table, and otherwise leaves the table unchanged |
| Chapter.OfficerTable.ContactInfo | app/models/chapter/officer.rb:37-57 | the loop builds exactly `ContactInfoOf`, whose keys, order and entries `Views.ContactInfoKeys` and `Views.ContactInfoListing` state |
| Chapter.OfficerTable.ListAll | app/models/chapter/officer.rb:61-82 | the loop builds exactly the listing of the rows by position: one entry per officer, in ascending position, each officer's entry among them |
| Chapter.OfficerTable.MassUpdate | app/models/chapter/officer.rb:86-90 | the new table and outcome are those of `MassRun`; only member references change, and officers the hash does not name are unchanged |
| Chapter.OfficerTable.UpdateContacts | app/models/chapter/officer.rb:94-103 | the new table and outcome are those of `ContactsRun`: a refused save stops the loop with the earlier saves kept; only `disp` and `position` change, and officers no digit key names are unchanged |

## Left out

- SQL persistence: `where`, `order`, `maximum`, `find` and `update_attributes` are operations on the in-memory rows, and every save succeeds once validation passes.
- Records.MaxPosition: requires a non-empty table. On an empty table `maximum` returns nil and line 15 raises; the model does not cover that raise.
- Chapter.Officer.constructor: requires a non-empty table when not transferring, for the same reason.
- The read-then-write race on the position at line 15 is not modelled, because the model has no concurrency.
- Chapter.OfficerTable.ContactInfo: requires that every displayed officer with a `dke_info` reaches its brother and MIT record, and also its user when the officer's e-mail is blank. The source raises otherwise, and the model does not cover that raise.
- The association records (`dke_info`, `brother`, `user`, `mit_info`) are an input map. Their own models are not part of this model.
- Strong parameters (`params.require(id).permit(:disp, :position)`) are modelled only by their result: a patch with optional `disp` and `position`.
- Ruby's casting of submitted strings to booleans and integers is not modelled; the patch holds typed values and the `mass_update` hash holds integer ids.
- `has_many :public_pages` is not modelled; it carries no logic here.
- A nil `contact` (line 22) or nil `email` (line 44) is not modelled. Both are strings, with nil read as "". The same holds for a nil `full_name` or `uname`, and a nil year reads as "" as `to_s` makes it.
- White space for `blank?` and case folding for `case_sensitive: false` cover ASCII only.
- Ties in `order(:position)` keep table order. SQL leaves the order of ties unspecified.
- The errors ActiveRecord may add for attributes other than name, title and contact are not modelled.
- The `params` argument of `valid?` (a validation context in Rails) is not modelled, because the record declares no context-specific validations.
- A failing `update_attributes` inside `mass_update` leaves the row unsaved and the batch continues. The errors it records on the discarded object are not modelled.
