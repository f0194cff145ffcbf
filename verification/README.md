# FactorSeal in Dafny

A model of the parts of FactorSeal where a mistake would lose, duplicate or misdirect
something, with proofs about every input, every run or every reachable state.

* **Credential transfer.** CSV export and import in the 1Password and the KeePass dialect,
  conversion between flat legacy records and sectioned items, repair of repeated ids,
  unique names, and the decision whether the original of a Bitwarden item must be kept.
  `Utf8`, `Text`, `Csv`, `CsvTransfer`, `CsvRoundTrip`, `CsvSpelling`, `CsvWriting`,
  `CsvColumns`, `CsvAcceptance`, `JsonValues`, `Items`, `Legacy`, `LegacyRoundTrip`, `LegacyFields`,
  `ImportIds`, `ImportNames`, `SourceRetention`, `BitwardenItem`, `BitwardenSources`,
  `OneTimePassword`, `VaultTransfer`.
* **The masked text field.** A bounded UTF-8 buffer with byte, UTF-16 and display positions,
  driven by keys, clipboard and input methods, and the same field on characters, which it
  refines. `TextPositions`, `SecretInput`, `SecretEdits`, `SecretDocument`, `SecretField`.
* **Protocols.** The browser extension's coordinator (`Coordinator`, `CoordinatorRuns`,
  `CoordinatorOrder`, `Background`), the crash report ledger (`Delivery`), the desktop's worker supervisor
  (`Supervisor`), the activation file (`Activation`) and the parts of a sent image (`ImageParts`).
* **Settings and colours.** The lenient settings loader (`Settings`) and the contrast repair of
  themes (`Contrast`).

Code that changes things step by step is a method with a loop or a class whose methods update
its fields, proved against a function of the old state; the properties are lemmas about that
function. Protocols with several threads or processes are a step function over events, one
atomic action each, with an invariant kept by every step and so by every run.

What stands outside is an argument: the digest of an id (32 bytes, which differ for the
64-bit occurrence numbers of one id; `ImportIds.PaddedIsUsable` shows such a digest), whether
memory, a thread, a worker, a port or a file write was to be had, what a server or a host
answers, the clock, and how two colours mix.

Choices worth knowing:

* The `csv` crate is modelled as the writer and the byte-wise reader that the builder flags
  select: quoting where needed with doubled quotes, or quoting always with a backslash escape.
* An event of the extension runs to completion together with the continuations it makes ready,
  as JavaScript does. The reply to a hello and the assignment of its session are one step.
* A failed write of the delivery ledger leaves the old file.
* Colours are relative luminances over the reals, so there is no rounding.
* The KeePass exporter doubles backslashes itself because the writer escapes only quotes;
  `Csv.BackslashesMustBeDoubled` shows what happens otherwise.

Places where the code does not do what one might expect, each with the exact condition under
which it does:

* A generic item comes back from CSV as a login (`GenericBecomesLogin`, `LosslessExactly`).
* An item that the conversion to a legacy record accepts need not come back the same: a concealed
  card or identity field of any other name than five is shown in plain sight, and a reference whose
  value is neither a text nor a plain link loses it (`ConcealmentLost`, `SurvivesExactly`).
* A newline entered during a composition leaves the mark where it was, and a later query of the
  mark can then fail (`NewlineDuringCompositionStops`, `NewlineKeepsMarkExactly`).
* An empty array inside an array is never pruned, so it keeps the original of an item
  (`EmptyNestedArrayIsKept`, `HollowExactly`).
* A signaller that ends between its truncation and its write, and the truncation at startup,
  can lose a completed activation (`LostToAbandonment`, `LostAtStartup`, `StepCoversExactly`).
* A key that is taken for mapped need not be read: a card on a login is dropped with the
  original and lost (`CardOnLoginIsLost`, `LosesNothingExactly`).
* Text on a button with three unlike fills cannot always be made readable, and neither can the
  active row of a list (`NoColorReadsOnUnlikeFills`, `AlwaysReadableExactly`, `ActiveRowExactly`).
* One pass over stored settings is not enough, two are (`OnePassIsNotEnough`,
  `ThirdPassChangesNothing`).

Check everything with `dafny verify dfyconfig.toml`.

## Model

| member | source | states |
|---|---|---|
| Csv.ReadWrite | src/transfer.rs:679-691 | reading undoes writing in both dialects, for every list of non-empty records of arbitrary bytes (quotes, backslashes, commas, line ends) whose text does not begin with a byte order mark |
| Csv.BackslashesMustBeDoubled | src/transfer.rs:864-878 | the escaped dialect's writer alone turns the one-backslash field into an unterminated one, so the exporter must double backslashes |
| CsvTransfer.Export | src/transfer.rs:391-440 | the export refuses a list with any lossy record before writing anything and otherwise gives the file of the specification |
| CsvTransfer.WriteCsv | src/transfer.rs:826-885 | the writing loop produces the header row and one row per record, in order |
| CsvTransfer.HasRepeats | src/transfer.rs:732-735 | the set-based scan finds a repeated normalised header exactly when two are equal |
| CsvTransfer.ImportBody | src/transfer.rs:754-815 | the row loop gives the records of all rows, or the error of the first row that is refused |
| CsvTransfer.RowErrorDecides | src/transfer.rs:754-815 | once a prefix of the rows is refused, later rows cannot change the error |
| CsvTransfer.Import | src/transfer.rs:679-816 | the importer, with its size limit, dialect detection and header checks, computes the records of the specification |
| CsvRoundTrip.ReadExported | src/transfer.rs:679-692 | the importer reads an exported file in the dialect it was written in and gets back every header and field, whatever bytes they hold |
| CsvRoundTrip.ColumnNames | src/transfer.rs:900-906 | every exported column is found again under its normalised name |
| CsvRoundTrip.HeaderAccepted | src/transfer.rs:732-753 | an exported header has no duplicate or ambiguous column |
| CsvRoundTrip.TagsSurvive | src/transfer.rs:778-787 | splitting, trimming and filtering undoes joining with a comma and a space, for all tags that the export rule accepts |
| CsvRoundTrip.RowKept | src/transfer.rs:754-815 | the row of an accepted record is imported as what a CSV file keeps of it: a login, with empty texts dropped |
| CsvRoundTrip.ImportAfterExport | src/transfer.rs:391-440 | importing an exported file gives back every record in order, as what a CSV file keeps of it, and is refused exactly when the file is too large, the list too long or a title empty |
| CsvRoundTrip.LosslessExactly | src/transfer.rs:408-440 | exporting and importing a list is the identity exactly when the export accepts it, file and list are within the two limits, and every record is a titled login without empty texts |
| CsvRoundTrip.GenericBecomesLogin | src/transfer.rs:759-761 | whatever comes back from a file is a login, so a generic item does not come back as one |
| CsvWriting.FileSpelled | src/transfer.rs:826-885 | an exported file is the header and one row per record, each ended by LF, with every field spelled in the simplest way: for 1Password as it is unless it has a comma, a quote or a line end, for KeePass in quotes with quotes and backslashes guarded |
| CsvSpelling.ReadSpelledField | src/transfer.rs:679-691 | a field in any spelling, plain or quoted, with quotes inside a plain one and bytes after a closing quote, is read as its value |
| CsvSpelling.ReadFile | src/transfer.rs:679-691 | any text of rows and blank lines, each ended by LF, CR or CR LF, with or without a last line end or a byte order mark, is read as the values of its rows |
| CsvSpelling.ReadUnclosed | src/transfer.rs:679-691 | a quote still open at the end of the text is closed there, and what was read of its field is kept |
| CsvSpelling.LineEndsDoNotMatter | src/transfer.rs:679-816 | two files with the same rows give the same import, however their lines end and whatever blank lines follow the header |
| CsvColumns.CellCarried | src/transfer.rs:754-810 | every filled cell of an accepted row is carried into its record, under every name its column may have; a column of another name becomes a concealed custom field |
| CsvColumns.NothingInvented | src/transfer.rs:754-810 | each part of an imported record has a filled cell behind it, and what a row leaves out stays empty |
| CsvColumns.ExtraExactly | src/transfer.rs:799-809 | the custom fields of an imported record are exactly the columns of other names |
| CsvColumns.ExtraInOrder | src/transfer.rs:799-809 | and they are in the order of the columns |
| CsvColumns.ImportCarries | src/transfer.rs:679-816 | in every accepted file each filled cell under the header is carried into the record of its row, and the record holds nothing else |
| CsvColumns.NormalizedExactly | src/transfer.rs:900-906 | a header is known by its ASCII letters and digits, in lower case, whatever stands between and around them |
| CsvColumns.FlagExactly | src/transfer.rs:919-924 | a flag is set by 1, true or yes in any case with any white space around it, and by nothing else |
| CsvColumns.TagsExactly | src/transfer.rs:778-787 | the tags of a cell are its pieces between commas, trimmed, without the empty ones |
| CsvColumns.TagsInOrder | src/transfer.rs:778-787 | and they are in the order of the pieces |
| CsvAcceptance.ExportsExactly | src/transfer.rs:408-440 | an export succeeds exactly when every record is a login or generic item without custom fields, folder or second address, with tags a comma list can hold, and, for KeePass, without one-time password, flags and tags |
| CsvAcceptance.OnlyKindAndEmptyTexts | src/transfer.rs:391-440 | a list that is exported and imported again differs in nothing but the kind of generic items and empty texts |
| CsvAcceptance.HeaderExactly | src/transfer.rs:693-753 | a header is accepted exactly when no two columns have the same name or stand for the same part of a record |
| CsvAcceptance.RowExactly | src/transfer.rs:754-775 | a row is accepted exactly when it is text, has no more cells than there are columns and has a title, and is otherwise refused with the matching error |
| CsvAcceptance.ImportsExactly | src/transfer.rs:679-816 | a file is imported exactly when it is at most 128 MiB, its header is text and clear, and its rows, at most 100,000, are accepted |
| Items.Validate | src/personal.rs:462-500 | the validation loop with its hash set accepts exactly the items with a non-empty id, distinct section ids and valid sections |
| Items.ValidateFields | src/personal.rs:462-500 | the inner loop accepts exactly fields with distinct non-empty ids, fitting values and concealment where the type demands it |
| Items.FitsByShape | src/personal.rs:479-491 | which types a value fits, by its shape: a text fits all but a boolean, which spells out its truth value or is empty; a truth value and a number fit their own types and the free ones; anything else only the free ones |
| Items.ValidByCounting | src/personal.rs:462-500 | an item is valid exactly when it has an id, as many non-empty section ids as sections, and in every section as many non-empty field ids as fields, all fitting and concealed where they must be |
| Legacy.ConvertFromLegacy | src/personal.rs:503-615 | the conversion builds the item of the specification and refuses it when it is not valid |
| Legacy.ConvertGroup | src/personal.rs:554-612 | the loop over custom fields collects one group in order, numbering fields by their place in the whole list |
| Legacy.ConvertToLegacy | src/personal.rs:619-770 | the conversion back adds every field of every section to the record, or stops at the first that has no place |
| Legacy.RestoreFields | src/personal.rs:640-770 | the inner loop adds the fields of one section in order or fails with the first error |
| LegacyRoundTrip.AcceptedExactly | src/personal.rs:503-615 | a record becomes an item exactly when its card and identity fields have distinct non-empty names and no link, only reference or unknown types are linked, and booleans are written as such |
| LegacyRoundTrip.ThereAndBack | src/personal.rs:503-770 | an accepted record converted to an item and back gives the normalised record, or fails exactly when its kind or some field has no place in the legacy form |
| LegacyRoundTrip.NormalizedExactly | src/personal.rs:503-770 | normalising changes nothing but the stable grouping exactly when no account text is empty and card and identity fields carry no type |
| LegacyRoundTrip.RoundTripExactly | src/personal.rs:503-770 | an accepted record comes back unchanged, its fields stably grouped card, identity, custom, exactly under these conditions on kind, fields and empty texts |
| LegacyFields.ShownExactly | src/personal.rs:503-615 | the item of an accepted record shows exactly the record's fields, each in its section with its caption, type and value; user name and addresses in plain sight, password and one-time password concealed, card and identity fields concealed for the card's number and four other names, custom fields for type 1 and types above 3; the rest of the record is taken over |
| LegacyFields.SectionsInOrder | src/personal.rs:550-612 | no section is empty, and they come in the order account, card, identity, custom |
| LegacyFields.TransfersExactly | src/personal.rs:619-770 | which items the conversion back accepts, in terms of the item alone: no kept original, one of five kinds, known captions, and fields whose section and type have a place |
| Text.ParseExactly | src/personal.rs:744-748 | the number after the prefix of an unknown type is read exactly when it is a numeral, with zeros and a plus sign before it or not |
| LegacyFields.RecordHolds | src/personal.rs:619-770 | the record of an accepted item holds the account's texts, its non-empty addresses in order, and one legacy field for each other field, in order, with its name, text, type and link, and nothing else |
| LegacyFields.SurvivesExactly | src/personal.rs:503-770 | an accepted field comes back from the legacy record with its type, concealment and value exactly when its type is the one its name or number stands for and its value is a text or a plain link |
| LegacyFields.ConcealmentLost | src/personal.rs:575-592 | a card with a concealed field of another name is accepted, and the field comes back in plain sight |
| ImportIds.PaddedIsUsable | src/transfer.rs:35-41 | some digest meets what the search relies on |
| ImportIds.StorableExactly | src/personal.rs:458-460 | an id can be stored exactly when it is 1 to 1024 bytes of UTF-8 without a control character |
| ImportIds.CandidateUsable | src/transfer.rs:34-43 | every replacement id can be stored |
| ImportIds.CandidateInjective | src/transfer.rs:36-43 | the different 64-bit occurrence numbers of one id give different replacement ids |
| ImportIds.CandidateForm | src/transfer.rs:36-43 | a replacement id is a fixed word and 64 hexadecimal digits |
| ImportIds.FindFree | src/transfer.rs:35-47 | the search loop ends within one try per reserved id, before its 64-bit counter can overflow, and finds the first free candidate |
| ImportIds.RepairIds | src/transfer.rs:24-49 | for every list that fits in memory the loop over the items in place computes the repair of the specification |
| ImportIds.RepairGuarantees | src/transfer.rs:22-49 | for every list that fits in memory, after the repair all ids are distinct and storable, order and all other content are kept, first storable occurrences keep their id, and a replacement is none of the ids the import started with |
| ImportIds.RepairLeast | src/transfer.rs:33-47 | a repaired item gets the candidate of the least occurrence number from two on that is neither an id of the import nor one given out before |
| ImportIds.UnchangedExactly | src/transfer.rs:22-49 | the repair changes nothing exactly when the ids are distinct and storable |
| ImportIds.RepairIdempotent | src/transfer.rs:22-49 | repairing a second time changes nothing |
| ImportNames.NumberedInjective | src/transfer.rs:380-386 | the decimal suffix makes numbered names of one title distinct |
| ImportNames.AssignNames | src/transfer.rs:370-389 | the loop with its per-title counters and its set of used names computes the names of the specification |
| ImportNames.NamesGuarantee | src/transfer.rs:370-389 | all names differ, the first item with a title keeps it, every other is named by its title and a number of at least two, and no such name is any item's title |
| ImportNames.NamesLeast | src/transfer.rs:375-386 | a later item gets the least number from two on that neither a title nor an earlier name uses |
| SourceRetention.PruneEmpty | src/transfer.rs:178-201 | the pruning as it goes over the tree child by child computes the specification |
| SourceRetention.PruneKeepsLeaves | src/transfer.rs:178-201 | pruning keeps every non-null scalar, at its place and in order |
| SourceRetention.PruneIdempotent | src/transfer.rs:178-201 | a pruned value has nothing left to prune |
| SourceRetention.HollowExactly | src/transfer.rs:178-201 | pruning leaves nothing exactly when there is no non-null scalar and no array directly inside an array |
| SourceRetention.StripRest | src/transfer.rs:79-119 | removing the mapped keys removes exactly the scalars at mapped places |
| SourceRetention.DroppedExactly | src/transfer.rs:79-144 | the original of an item is dropped exactly when its type is none or one of four, its entries and its card and identity hold texts, every non-null scalar is at a mapped place and no array directly inside an array remains |
| SourceRetention.MappedExactly | src/transfer.rs:81-117 | the mapped places are ten keys of the item, three of its login and the text of each address |
| SourceRetention.DroppedIsMapped | src/transfer.rs:79-144 | whatever scalar a dropped original held was under a mapped key |
| SourceRetention.EmptyNestedArrayIsKept | src/transfer.rs:178-201 | an empty array inside an array keeps the original although it holds no value |
| BitwardenItem.LosesNothingExactly | src/transfer.rs:479-570 | the record read from an original that is then dropped holds every non-empty scalar of it exactly when each key has the type that is read, the folder is listed, a card is on a card and an identity on an identity, and the part for secure notes is blank |
| BitwardenItem.LoginExactly | src/transfer.rs:511-522 | the login of a dropped original is held exactly when user name, password, one-time password and addresses are texts |
| BitwardenItem.FieldsExactly | src/transfer.rs:523-540 | the fields of a dropped original are held exactly when they are a list whose types and links are numbers |
| BitwardenItem.GroupPartExactly | src/transfer.rs:541-568 | a card or identity part is held exactly when it is an object on an item of that kind, or blank |
| BitwardenItem.CardOnLoginIsLost | src/transfer.rs:541-568 | a card on a login is stripped, keeps no original and does not reach the record |
| BitwardenSources.NamedExactly | src/transfer.rs:494-499 | an item is read exactly when it has a name that is not all white space |
| BitwardenSources.NothingInvented | src/transfer.rs:479-570 | every part of the record is the text or number the original has in its place: kind by number, texts, addresses, folder, custom fields by entry, card and identity fields by member, and a default where there is none |
| OneTimePassword.ReplaceFirst | src/personal.rs:381-389 | the search sets the first one-time password field of all sections, if there is one |
| OneTimePassword.AddField | src/personal.rs:395-412 | the new field is appended to the custom section, or opens one |
| OneTimePassword.Editor.SetOneTimePassword | src/personal.rs:380-413 | the item becomes the item with the link written |
| OneTimePassword.SetChangesOneField | src/personal.rs:381-389 | setting replaces the value of the first one-time password field and no other |
| OneTimePassword.AddInsertsOneField | src/personal.rs:401-412 | adding inserts one field and keeps the others in order |
| OneTimePassword.ReadWritten | src/personal.rs:372-413 | reading after writing gives the written link, for every item |
| OneTimePassword.NewIdIsUnused | src/personal.rs:390-394 | among one more candidate id than there are fields one is unused, and the search finds it |
| OneTimePassword.NewPasswordPlaced | src/personal.rs:390-412 | an item without a one-time password gets one concealed field with the least free number at the end of its first custom section, or of a new one at the end, and nothing else changes |
| OneTimePassword.WrittenValid | src/personal.rs:380-413 | writing a one-time password keeps a valid item valid |
| CsvTransfer.ImportedAtMost | src/transfer.rs:811-813 | no import gives more records than the limit, so the repair of their ids always has room |
| VaultTransfer.VaultReturns | src/transfer.rs:22-75 | an exported vault imports again exactly when the file is within the limits and every item has a title; then the items have distinct ids, stand for the same records up to kind and empty texts, and export to the very same bytes |
| VaultTransfer.ExportedAgain | src/transfer.rs:206-217 | the records that come back from a file are exported to the same bytes |
| VaultTransfer.PlainReturns | src/personal.rs:503-770 | an imported row's record becomes an item and back itself, whatever id the repair gives the item |
| TextPositions.FindByteOffset | factorseal-desktop/src/secret_input.rs:123-132 | the counting loop over the characters computes the byte position of a UTF-16 offset |
| TextPositions.OffsetIsByteOffset | factorseal-desktop/src/secret_input.rs:123-132 | counted on the bytes the position is the one defined on the characters |
| TextPositions.OffsetsAdjoint | factorseal-desktop/src/secret_input.rs:123-135 | the byte position of an offset is the least character boundary with at least that many UTF-16 units before it, clamped to the end |
| TextPositions.ByteOffsetOfUtf16 | factorseal-desktop/src/secret_input.rs:123-135 | on character boundaries the byte position of the UTF-16 offset is the boundary itself |
| TextPositions.UnitsAreUtf16 | factorseal-desktop/src/secret_input.rs:133-135 | counting lead bytes counts the UTF-16 units of the text before a boundary |
| TextPositions.MaskedRoundTrip | factorseal-desktop/src/secret_input.rs:50-56 | a byte position shown among the dots and mapped back is the same position |
| TextPositions.MaskedPositionBoundary | factorseal-desktop/src/secret_input.rs:304-313 | any position among the dots maps to a character boundary, and shown again to the start of its dot |
| TextPositions.AdvanceIsMaskedPosition | factorseal-desktop/src/secret_input.rs:308-313 | stepping over boundaries finds the position of the dot |
| SecretInput.ReplacedSound | factorseal-desktop/src/secret_input.rs:92-122 | replacing a range keeps the text valid UTF-8, within 64 KiB and free of line ends unless multi-line, changes nothing when refused, and leaves both ends of the insertion on boundaries |
| SecretInput.InsertedSound | factorseal-desktop/src/secret_input.rs:451-470 | replacing an explicit range, the mark or the selection keeps field and mark sound |
| SecretInput.ComposedSound | factorseal-desktop/src/secret_input.rs:471-498 | a composition keeps the field sound, never stops on a good mark, and leaves a good mark |
| SecretInput.DeletedSound | factorseal-desktop/src/secret_input.rs:362-374 | backspace and delete keep field and mark sound |
| SecretInput.MovedSound | factorseal-desktop/src/secret_input.rs:375-411 | the arrow, home and end keys keep the selection ordered, in bounds and on boundaries |
| SecretInput.ClickedSound | factorseal-desktop/src/secret_input.rs:290-314 | a click puts the caret on a character boundary |
| SecretInput.StepSound | factorseal-desktop/src/secret_input.rs:315-498 | every event keeps the field sound; with a good mark none stops the field, and all but a newline during a composition keep the mark good |
| SecretInput.RunSound | factorseal-desktop/src/secret_input.rs:315-498 | over every sequence of events the field stays sound |
| SecretInput.RunNeverStops | factorseal-desktop/src/secret_input.rs:315-498 | over every sequence without a newline during a composition the field never stops, and its mark stays ordered, in bounds and on boundaries |
| SecretInput.NewFieldNeverStops | factorseal-desktop/src/secret_input.rs:199-219 | so does every such sequence from a new field |
| SecretInput.NewlineKeepsMarkExactly | factorseal-desktop/src/secret_input.rs:329-339 | a newline during a composition keeps the mark good exactly when each end is before the selection or lands on a boundary of the shifted text |
| SecretInput.NewlineDuringCompositionStops | factorseal-desktop/src/secret_input.rs:329-339 | composing, selecting all and entering a newline leaves a mark past the end, and a query of the mark then stops the field |
| SecretDocument.StepOnCharacters | factorseal-desktop/src/secret_input.rs:315-498 | every key, paste, composition, click and command does to the bytes exactly what it does to a text, a selection and a mark counted in characters: backspace takes the character before a caret and delete the one after, a paste replaces the mark or the selection, the arrows move by one character or collapse to the near end, home and end go to the ends, and escape empties a field that does not submit |
| SecretDocument.Represented | factorseal-desktop/src/secret_input.rs:42-122 | every sound field with a good mark is the bytes of such a text, selection and mark |
| SecretDocument.RunOnCharacters | factorseal-desktop/src/secret_input.rs:315-498 | so over every sequence of events without a newline during a composition the field is the text of characters |
| SecretEdits.NextIsOneChar | factorseal-desktop/src/secret_input.rs:369-371 | stepping forward passes exactly one character |
| SecretEdits.PreviousIsOneChar | factorseal-desktop/src/secret_input.rs:364-368 | stepping back passes exactly one character |
| SecretEdits.InsertingSplices | factorseal-desktop/src/secret_input.rs:451-470 | an insertion puts its text between the characters before and after the range, leaves the caret behind it and ends the composition |
| SecretEdits.ComposingMarks | factorseal-desktop/src/secret_input.rs:471-498 | a composition puts its text between the characters before and after its range, marks exactly that text, and without a sub-range leaves the caret behind it |
| SecretEdits.ComposedSelection | factorseal-desktop/src/secret_input.rs:487-495 | a sub-range of a composition selects between the least boundaries with as many UTF-16 units before them, counted from the start of the composed text |
| SecretEdits.EnteringSplices | factorseal-desktop/src/secret_input.rs:329-339 | a newline takes the place of the selected characters, and the caret follows it |
| SecretEdits.SettingHolds | factorseal-desktop/src/secret_input.rs:271-280 | a value that fits replaces everything, with the caret at its end |
| SecretEdits.BackspaceRemovesOne | factorseal-desktop/src/secret_input.rs:362-374 | backspace at a caret takes away the one character before it |
| SecretEdits.DeleteRemovesOne | factorseal-desktop/src/secret_input.rs:362-374 | delete at a caret takes away the one character after it |
| SecretEdits.BackspaceUndoesTyping | factorseal-desktop/src/secret_input.rs:362-374 | typing one character and pressing backspace restores text and caret |
| SecretEdits.QueryMatchesRange | factorseal-desktop/src/secret_input.rs:420-430 | the range reported with a queried text is as long as that text, masked or not |
| SecretField.Field.Replace | factorseal-desktop/src/secret_input.rs:95-122 | checking, allocating, copying into the new memory and swapping it in gives the replaced buffer; the old memory is not written |
| SecretField.Field.Insert | factorseal-desktop/src/secret_input.rs:451-470 | the field becomes the field with the text inserted |
| SecretField.Field.Compose | factorseal-desktop/src/secret_input.rs:471-498 | the field becomes the field with the text composed, or stops exactly when the range does not start on a boundary |
| SecretField.Field.SetValue | factorseal-desktop/src/secret_input.rs:271-280 | the field is cleared, holds the value if that is accepted, and has its caret at the end |
| SecretField.Field.PressEnter | factorseal-desktop/src/secret_input.rs:329-343 | a newline replaces the selection where the field takes one, and the mark is left alone |
| SecretField.Field.Erase | factorseal-desktop/src/secret_input.rs:362-374 | an empty selection is widened by one character and then removed |
| SecretField.Field.Move | factorseal-desktop/src/secret_input.rs:375-411 | the selection moves as specified and the composition ends |
| SecretField.Field.Click | factorseal-desktop/src/secret_input.rs:290-314 | the caret goes where the click falls |
| SecretField.Field.KeyDown | factorseal-desktop/src/secret_input.rs:315-416 | every key does the step of the specification, whose effect on the characters `SecretDocument.StepOnCharacters` states |
| SecretField.Field.Handle | factorseal-desktop/src/secret_input.rs:315-498 | every event does that step, or stops exactly when there is none |
| Coordinator.CalledKeeps | extensions/browser/background.js:22-32 | posting a call keeps the invariant, whether the post succeeds or throws |
| Coordinator.AnsweredKeeps | extensions/browser/background.js:49-60 | delivering a reply keeps the invariant |
| Coordinator.StepKeeps | extensions/browser/background.js:18-84 | every event keeps the invariant of slot, timers, session, sequence and history |
| Coordinator.RunKeeps | extensions/browser/background.js:18-84 | so does every run, whatever the browser, the host and the person do |
| CoordinatorRuns.OneCallOutstanding | extensions/browser/background.js:18-32 | in every run at most one call is unsettled; it is the one in the slot, its timer is armed, and the timer frees the queue |
| CoordinatorRuns.SignedUnderOwnHello | extensions/browser/background.js:74-84 | every signed message on a port carries the session of an earlier hello on that same port |
| CoordinatorRuns.OneHello | extensions/browser/background.js:45-60 | a port has at most one accepted hello |
| CoordinatorRuns.SequencesIncrease | extensions/browser/background.js:74-84 | the sequence numbers of the signed messages on a port strictly increase |
| CoordinatorRuns.RepliesOnOwnPort | extensions/browser/background.js:49-49 | a reply is delivered to a call posted on the port the reply came from, and a call gets at most one |
| CoordinatorRuns.LateRepliesIgnored | extensions/browser/background.js:49-56 | once a port is not current any more, no later run delivers a reply from it |
| CoordinatorRuns.GreetingHappens | extensions/browser/background.js:45-60 | a request without a connection can open a port, post a hello and take its session |
| CoordinatorRuns.ReplyHappens | extensions/browser/background.js:74-84 | a connected request can post under the session with the next sequence number, get its reply and leave the queue free |
| CoordinatorOrder.ServedInOrder | extensions/browser/background.js:18-18 | in every run requests are served in the order they were made: since the last start the queue is the end of what was asked, and the signed messages answer earlier requests, in their order |
| CoordinatorOrder.IdleOnlyYields | extensions/browser/background.js:74-77 | a request that only runs when nothing is active is dropped while something is; any other goes on over the present connection or greets a new port |
| CoordinatorOrder.IdleOnlyUnposted | extensions/browser/background.js:78-84 | and once signed it is posted exactly when the signature, the port and the post are there and it need not yield |
| CoordinatorOrder.RecoverWhenNeeded | extensions/browser/background.js:61-73 | a recovery connects only when nothing is active and the last status was a failure |
| CoordinatorOrder.HelloAnswered | extensions/browser/background.js:57-59 | a welcome gives the session and starts the count of sequence numbers again; any other answer ends the job and leaves the port without a session |
| CoordinatorOrder.FailureEnds | extensions/browser/background.js:26-31 | a port that cannot be opened and a post that is refused end the job and leave neither port nor session, with nothing posted |
| CoordinatorOrder.LossFrees | extensions/browser/background.js:21-25 | a lost connection and an overdue call leave neither port nor session nor anything waiting, and free the queue |
| Background.Extension.Rpc | extensions/browser/background.js:22-32 | arming the timer, taking the slot and posting gives the called state; a refused post undoes both and forgets the connection |
| Background.Extension.Connect | extensions/browser/background.js:45-60 | a connection with a session is used; otherwise the old port is dropped and a new one opened and greeted |
| Background.Extension.StartNext | extensions/browser/background.js:18-18 | the next queued request starts when none is running, unless it has become needless |
| Background.Extension.OnMessage | extensions/browser/background.js:49-60 | a message on the current port settles the call in the slot and gives the session when it answers a hello |
| Background.Extension.OnDisconnect | extensions/browser/background.js:50-56 | the loss of the current port forgets it and its session and rejects the call |
| Background.Extension.OnTimeout | extensions/browser/background.js:24-24 | a timer that fires frees the slot and forgets the connection |
| Background.Extension.OnSignature | extensions/browser/background.js:80-82 | a signed payload is posted unless the request became needless |
| Background.Extension.Handle | extensions/browser/background.js:18-84 | every event does the step of the specification and keeps the invariant |
| Delivery.Uploader.Deliver | factorseal-desktop/src/crash_reporting.rs:233-273 | the delivery loop with its early exits computes the pass of the specification: ledger, file, transmissions and error |
| Delivery.Uploader.Forget | factorseal-desktop/src/crash_reporting.rs:241-243 | the receipts of incidents no longer listed are dropped, the others kept in order |
| Delivery.PassKeeps | factorseal-desktop/src/crash_reporting.rs:233-273 | in every pass nothing older than the boundary is sent, receipts stay distinct and belong to listed incidents, no transmission follows a failure or a delay, and an error-free pass leaves the file in step with the ledger |
| Delivery.FollowsList | factorseal-desktop/src/crash_reporting.rs:244-271 | the transmissions are of listed and enabled incidents, in list order |
| Delivery.ReceiptRespected | factorseal-desktop/src/crash_reporting.rs:241-251 | a listed incident with a receipt is not sent and keeps its receipt in the ledger and in whatever is written |
| Delivery.ReceiptSaved | factorseal-desktop/src/crash_reporting.rs:252-270 | an accepted transmission of an error-free pass has its receipt in the file |
| Delivery.UnstoppedPassCompletes | factorseal-desktop/src/crash_reporting.rs:244-271 | a pass that does not stop leaves a receipt for every enabled incident not older than the boundary, and it does not stop when nothing fails and no delay is asked for |
| Delivery.StopsExactly | factorseal-desktop/src/crash_reporting.rs:244-271 | a pass that stops does so at an enabled incident not older than the boundary, because of its answer, or with an error because it has no envelope or the ledger could not be written |
| Delivery.RunKeeps | factorseal-desktop/src/crash_reporting.rs:168-231 | over every run of starts, polls and stops for one target nothing older than the boundary in the file is sent |
| Delivery.BoundaryStays | factorseal-desktop/src/crash_reporting.rs:168-187 | the boundary, once in the file, stays |
| Delivery.AcceptedLeavesReceipt | factorseal-desktop/src/crash_reporting.rs:252-270 | an accepted transmission whose receipt reached the file leaves it with file and process |
| Delivery.NeverSentAgain | factorseal-desktop/src/crash_reporting.rs:168-273 | through any passes and restarts an incident whose receipt was saved is never sent again while it stays listed |
| Delivery.LastDecides | factorseal-desktop/src/crash_reporting.rs:253-268 | the next attempt is due when the delay of the last transmission ends, counted from its answer in whole milliseconds rounded down, and never past the last 64-bit time |
| Delivery.DelayRespected | factorseal-desktop/src/crash_reporting.rs:212-268 | after an error-free pass that sent something, no poll a whole millisecond or more before the end of the delay last asked for sends anything, through any number of restarts |
| Delivery.DelayEnds | factorseal-desktop/src/crash_reporting.rs:212-268 | when that delay is over the next poll makes its pass |
| Delivery.FailureStops | factorseal-desktop/src/crash_reporting.rs:205-231 | a pass that ends with an error stops the process, and until it is started again nothing is sent |
| Delivery.FirstStart | factorseal-desktop/src/crash_reporting.rs:168-187 | a first start never sends what was recorded before it, through any later run, and has no delay to wait for |
| Supervisor.StepKeeps | factorseal-desktop/src/runtime.rs:270-353 | every atomic action of every thread keeps the invariant of flag, lifeline, pipes, lock and claims |
| Supervisor.RunKeeps | factorseal-desktop/src/runtime.rs:270-353 | so does every interleaving |
| Supervisor.OneHolder | factorseal-desktop/src/runtime.rs:665-726 | at most one thread holds a claim, the flag says whether one does, and a lifeline is only present while one does |
| Supervisor.ReleasedOnce | factorseal-desktop/src/runtime.rs:665-726 | every claim made has been released exactly once or is the one still held |
| Supervisor.ClaimAdvances | factorseal-desktop/src/runtime.rs:270-327 | no action of any thread, on a success or an error path, loses a claim or moves it back: it stays, passes on nearer to its release, or is released |
| Supervisor.HolderNotStuck | factorseal-desktop/src/runtime.rs:790-875 | whatever the outcome of the holder's next action, it brings the claim nearer to its release; a thread that cannot start and a failed initialisation release it at once |
| Supervisor.RepliesFromSameWorker | factorseal-desktop/src/runtime.rs:1287-1314 | a sync command reads its reply from the worker whose input it wrote, and always finds an output |
| Supervisor.InstallsBoth | factorseal-desktop/src/runtime.rs:824-848 | an install never finds a pipe end missing |
| Supervisor.SealDrops | factorseal-desktop/src/runtime.rs:342-352 | sealing takes the lifeline away and leaves flag, holder, claims, lock, threads and pipes as they were |
| Supervisor.SealedStaysSealed | factorseal-desktop/src/runtime.rs:342-352 | over every run, from a seal until an input is installed again no sync command is written, so only an exchange already written can still be completed |
| Supervisor.SyncCompletes | factorseal-desktop/src/runtime.rs:1287-1314 | with the lock free and a lifeline a sync command reaches the lifeline's worker and comes back from it, and leaves everything else as it was |
| Supervisor.UnlockServes | factorseal-desktop/src/runtime.rs:665-848 | an unlock that meets no error ends with the flag held and a new worker served, whose input is the lifeline and whose output is the one replies are read from |
| Supervisor.InitializesFirst | factorseal-desktop/src/runtime.rs:695-726 | an initialisation that succeeds goes on exactly as an unlock does |
| Supervisor.OutOfTurn | factorseal-desktop/src/runtime.rs:270-353 | an action out of turn, a second claim and a lock that is taken change nothing |
| Supervisor.ExitReleases | factorseal-desktop/src/runtime.rs:665-681 | when the worker exits the lifeline goes and the claim is released |
| Activation.StepCoversExactly | factorseal-desktop/src/instance.rs:31-66 | a step keeps every completed signal covered exactly when it is neither the truncation at startup nor an abandonment that exposes one |
| Activation.RunCoversExactly | factorseal-desktop/src/instance.rs:31-66 | no activation is lost over an interleaving exactly when all its steps are harmless |
| Activation.NoLostActivation | factorseal-desktop/src/instance.rs:44-66 | after startup no activation is lost, whatever the interleaving, as long as every signaller that truncates goes on to write |
| Activation.CoveredIsAnswered | factorseal-desktop/src/instance.rs:54-66 | from any covered state at most one write and three actions of the watcher lead to a send attempt that answers every signal |
| Activation.NoSpuriousActivation | factorseal-desktop/src/instance.rs:54-66 | over every interleaving there is at most one send attempt for each completed signal, beyond what was due before, as long as the watcher's truncations succeed |
| Activation.ClosedStops | factorseal-desktop/src/instance.rs:60-66 | once the channel is closed the watcher sends nothing more |
| Activation.LostAtStartup | factorseal-desktop/src/instance.rs:31-32 | a signal completed before the truncation at startup is lost |
| Activation.LostToAbandonment | factorseal-desktop/src/instance.rs:44-52 | a second signaller that truncates and gives up takes a completed signal with it |
| Settings.Load | factorseal-desktop/src/settings.rs:119-137 | the two nested loops compute two passes over the stored map, and the result is valid |
| Settings.LoadedValid | factorseal-desktop/src/settings.rs:79-137 | whatever is stored, in whatever order, the loaded settings are valid |
| Settings.LoadedField | factorseal-desktop/src/settings.rs:119-137 | a field outside the lease is its stored value when that is acceptable by itself and the default otherwise |
| Settings.StoredValue | factorseal-desktop/src/settings.rs:79-137 | every stored value is taken within its limits (scale 80 to 200, text size 12 to 24, names that are not blank, generator 8 to 64 and five word counts, finite placements) and replaced by its default outside them |
| Settings.MissingValue | factorseal-desktop/src/settings.rs:58-76 | a key that is not stored has its default |
| Settings.LoneLeasePart | factorseal-desktop/src/runtime.rs:1221-1232 | a part of the lease that is stored alone is held against the default of the other part |
| Settings.LeasePairTaken | factorseal-desktop/src/runtime.rs:1221-1232 | a stored pair is taken, in whatever order, whenever the idle time is not nought and not above the maximum |
| Settings.LeaseSettles | factorseal-desktop/src/runtime.rs:1221-1232 | two passes bring the lease to a fixed point, which is the stored pair when that is acceptable |
| Settings.ThirdPassChangesNothing | factorseal-desktop/src/settings.rs:119-137 | a third pass would change nothing, for every stored map and every order of its keys |
| Settings.SavedLoadsBack | factorseal-desktop/src/settings.rs:119-137 | valid settings load back unchanged, in whatever order they are stored and whatever else is stored beside them |
| Settings.OnePassIsNotEnough | factorseal-desktop/src/settings.rs:119-137 | with the idle timeout first, ten hours under a maximum of twelve needs the second pass |
| Contrast.RatioRange | factorseal-desktop/src/theming.rs:686-689 | the ratio is symmetric and runs from 1 to 21 |
| Contrast.PolesReadExactly | factorseal-desktop/src/theming.rs:686-689 | white reads on exactly the fills no lighter than 11/60, black on exactly those no darker than 7/40, and every fill is one or the other |
| Contrast.LiftReadsExactly | factorseal-desktop/src/theming.rs:691-705 | the lifted colour reads on all surfaces exactly when the colour, one of its mixes or the target does, and a colour that reads already is kept |
| Contrast.LiftTakesFirst | factorseal-desktop/src/theming.rs:691-705 | the first of the colour and its twenty mixes that reads is taken, and the target if none does |
| Contrast.AlwaysLiftsExactly | factorseal-desktop/src/theming.rs:691-705 | lifting makes every colour read, whatever the mix, exactly when the target reads |
| Contrast.ReadableOnExactly | factorseal-desktop/src/theming.rs:707-726 | for one colour and one mix the result reads on all fills exactly when a candidate or a pole does, and a colour that reads already is kept |
| Contrast.NearPoleFirst | factorseal-desktop/src/theming.rs:707-726 | a colour lighter than every fill is moved towards white first, any other towards black, the other way only when that fails, and the near pole is taken when both do |
| Contrast.ReadableOnOneFill | factorseal-desktop/src/theming.rs:707-726 | on one fill the result always reaches 4.5 |
| Contrast.AlwaysReadableExactly | factorseal-desktop/src/theming.rs:707-726 | the result reads for every colour and every mix exactly when no fill is lighter than 11/60 or none is darker than 7/40 |
| Contrast.NoColorReadsOnUnlikeFills | factorseal-desktop/src/theming.rs:707-726 | on three unlike fills no colour at all reads |
| Contrast.PoleReadsExactly | factorseal-desktop/src/theming.rs:729-734 | a theme's pole reads on its surfaces exactly when none is lighter than 11/60, or none darker than 7/40 |
| Contrast.ActiveRowExactly | factorseal-desktop/src/theming.rs:782-792 | the active row is readable under whatever text reads on the surfaces, for every colour and mix, exactly when some surface is darker than 7/40 in a dark theme or lighter than 11/60 in a light one |
| Contrast.Theme.LiftTexts | factorseal-desktop/src/theming.rs:735-754 | each text colour becomes its lift towards the pole or the repaired foreground; they read on the surfaces if the pole does, and those that read already are kept |
| Contrast.Theme.LiftVariants | factorseal-desktop/src/theming.rs:755-760 | a colour and its hovered and pressed variants read on the surfaces if the pole does, and are kept if they read already |
| Contrast.Theme.ButtonText | factorseal-desktop/src/theming.rs:761-776 | text on a fill with variants reads on all of them exactly when some colour tried does, always when no variant is lighter than 11/60 or none darker than 7/40, and is kept if it reads already |
| Contrast.Theme.FillText | factorseal-desktop/src/theming.rs:777-781 | text on a single fill always reads, and the fill is kept |
| Contrast.Theme.LiftListAndBorder | factorseal-desktop/src/theming.rs:782-799 | the border reaches 1.4 if the foreground reads and the other borders follow it; the active row reads under the text if some surface is darker than 7/40 in a dark theme or lighter than 11/60 in a light one; both are kept if they did already |
| Contrast.Theme.MapAppTokens | factorseal-desktop/src/theming.rs:728-801 | if the pole reads on all four surfaces, foreground, muted, link and danger text reach 4.5 on all of them, the border 1.4, and, when some surface is darker than 7/40 in a dark theme or lighter than 11/60 in a light one, the active row 4.5 under the text; text on a single fill, and on a button with fills alike, reads in any case |
| ImageParts.DecodedEncoded | src/vault/protocol/wire.rs:261-281 | the receiver's decoding, with its checks on length and padding, undoes the encoding |
| ImageParts.DecodedExactly | src/vault/protocol/wire.rs:261-281 | a text decodes to some bytes exactly when it is their encoding |
| ImageParts.AlphabetIs | src/vault/protocol/wire.rs:245-245 | the alphabet is that of table 1 of RFC 4648 |
| ImageParts.SameBits | src/vault/protocol/wire.rs:245-245 | four characters are the 24 bits of three bytes, and a rest is filled with zero bits |
| ImageParts.EncodedConcat | extensions/browser/background.js:16-16 | text cut at a multiple of four characters is the encoding of bytes cut at a multiple of three |
| ImageParts.PartsAreChunks | extensions/browser/background.js:96-104 | each part is the encoding of its own 32766 bytes |
| ImageParts.PartsCarryImage | src/browser.rs:105-112 | the parts, all but the last of 43688 characters, decode separately and join to the image, the declared size is the image's, and a part passes the receiver's check exactly when the image is within 8 MiB |
| ImageParts.SendImage | extensions/browser/background.js:96-104 | the sending loop declares the size and sends the parts in order, up to where it is stopped |

Smaller facts stand beside these without a row: `CsvRoundTrip.GenericAccepted`,
`SecretEdits.LeftUndoesRight`, `SecretEdits.ExtendingKeepsAnchor`,
`SecretEdits.MaskedRevealsLength`, `Supervisor.SyncRefused`, `Delivery.StartsOnce` and
`Contrast.PolesMultiply`.

## Left out

- MapAppTokens: leaves out the copying of tokens to component colours, which only repeats fields.
- NoLostActivation: a send attempt may find the channel full; then four activations are waiting already, and the model stops at the attempt.
- RunKeeps (Supervisor): a poisoned lock, which needs a thread that panics while holding it, is not modelled.
- RunSound: the panics of a stopped field are a missing result; what the application does next is not part of the model.
- PassKeeps: a write of the ledger is atomic here; a file torn by a crash of the machine is not modelled.
- PartsCarryImage: replies, polling and cancellation around the parts are the coordinator's and are not repeated here.
- The Bitwarden JSON writer, and the sections added for types 5, 6 and 8, whose originals are always kept; 1PUX and CXF, whose files are not part of this model.
- The requests that the extension's pages and popup make (`run`, `fill`, pending saves, tab and permission handling) are arbitrary calls of `send` here.
- The vault store, personal sync, permissions and desktop sessions.
- Encryption, key derivation, hardware keys, signatures and the contents of digests.
- Rendering, layout, animation and window code; shaped text and click geometry are an index given by the platform.
- HTTP, envelopes, file permissions, process spawning and D-Bus: each is an arbitrary outcome.
- Parsing of settings values and of theme names; a stored value either has the type of its key or is unusable.
- Floating-point rounding and the exact Oklab mix.
- Diagnostics retention, length-prefixed framing, command-line dispatch and packaging.
