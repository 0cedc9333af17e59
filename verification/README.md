# adopta-peluditos: a Dafny model of the pet catalogue's rules

Adopta Peluditos is a client-side adoption catalogue. A provider caches the remote
collection of pet records and keeps a favourites list in browser storage. Several
pages use that cache:

- a home page with a "Cargar más" window;
- a management list with pages of eight, multi-select and bulk delete;
- a favourites page;
- create and edit forms that share one validation routine.

This project models the rules behind these pages as pure functions over immutable
values, and proves what they promise.

Every remote call is an input: its `Response` is either `Ok(data)` or `Failed(status)`.
The browser's storage is a `Stored` value. The photo's data URL is a string parameter.
Each operation therefore maps an old state and those inputs to a new state.

| file | module | models |
|---|---|---|
| `seqs.dfy` | `Seqs` | `Array.prototype.filter`, the `includes ? filter : append` toggle, `Array.prototype.slice` with JavaScript's index clamping |
| `jstext.dfy` | `JsText` | `toLowerCase` (ASCII), `includes`, `trim` (the ECMAScript whitespace set), the age sanitiser, `String(n)` for whole numbers |
| `pets.dfy` | `Outcomes`, `Pets` | records and ids (strict `===` against `String(id)` coercion); age values as the relational operators see them; the three classification tiers |
| `store.dfy` | `PetStore` | `src/context/PetContext.jsx`: favourites load and toggle, `fetchPets`, `getPet`, and the create/update/delete cache patches |
| `filter.dfy` | `PetFilter` | the conjunctive species/gender/name filter that the list and home pages share |
| `itemlist.dfy` | `ItemList` | `src/pages/ItemList.jsx`: pages, prev/next, filter resets, selection, header checkbox, bulk and row delete |
| `home.dfy` | `Home` | `src/pages/Home.jsx`: the visible window and "Cargar más" |
| `favorites.dfy` | `Favorites` | `src/pages/Favorites.jsx`: `favoritePets` and clearing |
| `petcard.dfy` | `PetCard` | `src/components/PetCard.jsx`: the card's classification, its fallback, the heart |
| `petform.dfy` | `PetForm` | the form, `validate`, the age input's parsing, and the photo payload shared by both forms |
| `itemcreate.dfy` | `ItemCreate` | `src/pages/ItemCreate.jsx`: change handling and the submit gate |
| `itemedit.dfy` | `ItemEdit` | `src/pages/ItemEdit.jsx`: loading, change handling and the save |

Three behaviours of the code that a reader may not expect; the model follows the code:

- Prev and Next keep the list page within `1..totalPages` when there is a page at all
  (`Math.max(1, p - 1)` and `Math.min(totalPages, p + 1)`, `src/pages/ItemList.jsx:48-49`;
  on an empty list Next gives page 0), but nothing clamps the
  page when the cache shrinks. After a bulk delete the page can point past the last page
  while both pagers, rendered only when `totalPages > 1` (`:135`, `:264`), are hidden
  (see Findings).
- The filter handlers reset the page but keep the selection, so ids selected under an
  earlier filter or on another page stay selected. `handleDeleteSelected` deletes every
  selected id, visible or not (`ItemList.DeleteSelected`).
- `updatePet` catches every error itself and resolves to `undefined`, so the `catch` of
  the edit page's save (`src/pages/ItemEdit.jsx:98-99`) is never reached: "No se pudo
  guardar" is never shown, and the page navigates away after a failed save
  (`ItemEdit.Submit`, `ItemEdit.FailedSaveStillNavigates`).

## Model

| member | source | states |
|---|---|---|
| Seqs.Toggle | src/context/PetContext.jsx:110-112 | an absent element is appended at the end with the rest kept as a prefix; a present one loses every occurrence; no other element's membership changes |
| Seqs.ToggleTwiceMembership | src/context/PetContext.jsx:110-112 | toggling twice restores membership of every element |
| Seqs.ToggleTwiceAbsent | src/context/PetContext.jsx:110-112 | toggling an absent element twice restores the very sequence |
| Seqs.ToggleNoDuplicates | src/pages/ItemList.jsx:60-62 | a toggle never introduces a duplicate |
| Seqs.Slice | src/pages/ItemList.jsx:31 | for non-negative bounds the slice is `s[min(start,n)..min(end,n)]`; an end at or before the start gives the empty sequence rather than an error |
| Seqs.WhereConcat | src/pages/ItemList.jsx:21-25 | filtering distributes over concatenation, so the source's order is kept |
| Seqs.WhereMultiplicity | src/pages/ItemList.jsx:21-25 | a kept element occurs as often as in the input, a dropped one never |
| Seqs.WhereFusion | src/pages/Favorites.jsx:11-15 | two successive filters are one filter by the conjunction |
| Seqs.WhereCongruent | src/pages/Favorites.jsx:11-15 | predicates that agree on the input's elements filter it identically |
| JsText.Lower | src/pages/ItemList.jsx:24 | same length; each upper-case ASCII letter becomes its lower-case letter and every other character is kept |
| JsText.LowerIdempotent | src/pages/ItemList.jsx:24 | lower-casing twice is lower-casing once |
| JsText.IncludesAt | src/pages/ItemList.jsx:24 | `includes` holds exactly when the search occurs at some offset of the name |
| JsText.TrimEmpty | src/pages/ItemCreate.jsx:26 | `trim()` gives the empty string exactly when every character is ECMAScript whitespace or a line terminator |
| JsText.SanitizeAge | src/pages/ItemCreate.jsx:52 | the result holds only digits and dots, and a character survives exactly when it is a digit or a dot in the input |
| JsText.SanitizeKeepsAgeChars | src/pages/ItemCreate.jsx:52 | every digit and dot is kept as often as it occurred |
| JsText.SanitizeClean | src/pages/ItemEdit.jsx:67 | a string of digits and dots passes the sanitiser unchanged |
| JsText.SanitizeIdempotent | src/pages/ItemEdit.jsx:67 | sanitising twice is sanitising once |
| JsText.NatToDecimal | src/context/PetContext.jsx:35 | `String(n)` of a whole number is non-empty, all digits, with no leading zero except for 0 itself |
| Pets.IdString | src/context/PetContext.jsx:35 | a string id coerces to itself, a numeric id to its decimal rendering |
| Pets.StrictEqualityImpliesCoerced | src/context/PetContext.jsx:35 | strictly equal ids coerce to the same string |
| Pets.CoercionConflatesNumberAndString | src/context/PetContext.jsx:35 | the number 5 and the string "5" differ under `===` but coerce to the same string |
| Pets.Classify | src/context/PetContext.jsx:55-58 | on numbers: below 1 Cachorro, from 1 below 7 Adulto, from 7 Senior, each as an iff; the empty string counts as 0 (Cachorro) and NaN fails both tests (Senior) |
| Pets.LessThan | src/context/PetContext.jsx:56-57 | JavaScript `age < k` on the age slot: the empty string compares as 0, NaN compares false, a number as itself (also `src/components/PetCard.jsx:25-26`) |
| Pets.ClassifyMonotone | src/context/PetContext.jsx:77-80 | an older age never gets a younger tier |
| Pets.ClassifyEmptyAsZero | src/context/PetContext.jsx:77-80 | the empty age is classified as age 0 |
| Pets.ClassifySamples | src/context/PetContext.jsx:55-58 | the boundary ages 0, 0.5, 1, 6.9 and 7 land in the expected tiers |
| Pets.LabelInjective | src/components/PetCard.jsx:25-27 | distinct tiers have distinct labels |
| Pets.Ids | src/pages/ItemList.jsx:54 | the ids of the records, position by position |
| PetStore.LoadFavorites | src/context/PetContext.jsx:10-16 | a stored array is the initial list; a missing key, unparseable text or a falsy JSON value gives the empty list, and no case fails |
| PetStore.Initial | src/context/PetContext.jsx:7-16 | the provider starts with no records, no error and the loaded favourites |
| PetStore.ToggleFavorite | src/context/PetContext.jsx:108-116 | the id's membership flips; other ids are untouched; an absent id is appended and a present one removed everywhere; the value persisted is the new list; cache and error unchanged |
| PetStore.ToggleSurvivesReload | src/context/PetContext.jsx:113 | what a toggle persists is what the next load reads back |
| PetStore.ToggleFavoriteTwice | src/context/PetContext.jsx:110-112 | two toggles of one id restore membership, and the exact list when the id was absent |
| PetStore.FetchPets | src/context/PetContext.jsx:21-31 | success replaces the cache; failure keeps it and records the status; favourites unchanged |
| PetStore.FetchedRecordsServedFromCache | src/context/PetContext.jsx:21-36 | after a successful fetch, `getPet` of any fetched record's id resolves from the cache whatever the remote would answer, to a record whose id renders the same, and to that very record when no earlier one's id renders the same |
| PetStore.FailedFetchKeepsLookups | src/context/PetContext.jsx:26-36 | after a failed fetch every `getPet` answers as it did before |
| PetStore.FindIndex | src/context/PetContext.jsx:35 | the first position whose id coerces to the requested id's string, or the length when none does |
| PetStore.CacheFind | src/context/PetContext.jsx:35 | nothing is found exactly when no record matches under coercion; otherwise the first match |
| PetStore.GetPet | src/context/PetContext.jsx:33-50 | a cache hit resolves to the cached record with the state unchanged; a miss resolves to the remote record; a failed request records its status and rejects with the rate-limit message exactly on 429, resolving to undefined otherwise |
| PetStore.CacheHitIgnoresRemote | src/context/PetContext.jsx:35-36 | on a cache hit the remote response makes no difference |
| PetStore.WriteRequest | src/context/PetContext.jsx:55-63 | the body carries the data unchanged plus one of the three labels, chosen by the age's tier |
| PetStore.CreatePet | src/context/PetContext.jsx:52-72 | the body posted is the data with the label of its age's tier, whatever the response; success puts the server's record at the front and returns it; failure keeps the cache, records the status and returns undefined |
| PetStore.CreatedIsFound | src/context/PetContext.jsx:65 | after a create, a lookup of the new id finds the new record |
| PetStore.Replace | src/context/PetContext.jsx:87 | same length; each position holds the update if its id is strictly equal, the old record otherwise |
| PetStore.UpdatePet | src/context/PetContext.jsx:74-94 | the body put is the data with the label of its age's tier, whatever the response; success replaces exactly the records with a strictly equal id and returns the server's record; failure keeps the cache, records the status and returns undefined |
| PetStore.UpdateKeepsIds | src/context/PetContext.jsx:87 | when the server keeps the id, the cache's ids are unchanged, and no other record is added or lost |
| PetStore.UpdateIdempotent | src/context/PetContext.jsx:87 | repeating the same successful update changes nothing more, whatever id the server's record carries |
| PetStore.WithoutId | src/context/PetContext.jsx:100 | a record survives exactly when its id differs |
| PetStore.DeletePet | src/context/PetContext.jsx:96-106 | records leave only after the remote delete succeeds; failure keeps the cache and records the status |
| PetStore.DeleteKeepsOrder | src/context/PetContext.jsx:100 | deletion distributes over any split of the cache, so survivors keep their order |
| PetStore.DeleteAbsentId | src/context/PetContext.jsx:100 | deleting an id no record carries leaves the cache unchanged |
| PetStore.CreateThenDelete | src/context/PetContext.jsx:65 | creating a record with a fresh id and deleting it restores the cache |
| PetFilter.PassesSpecies | src/pages/ItemList.jsx:22 | `'Todos'` passes every record, any other value only records of exactly that species |
| PetFilter.PassesGender | src/pages/ItemList.jsx:23 | `'Todos'` passes every record, any other value only records of exactly that gender |
| PetFilter.PassesName | src/pages/ItemList.jsx:24 | the lower-cased search occurs in the lower-cased name |
| PetFilter.Matches | src/pages/Home.jsx:14-16 | the three tests together, as both listing pages apply them |
| PetFilter.FilteredPets | src/pages/ItemList.jsx:19-27 | a record is in the output exactly when it is cached and passes all three tests; every output record passes |
| PetFilter.FilterKeepsOrder | src/pages/ItemList.jsx:21 | the filter distributes over any split of the cache, so it keeps the cache's order |
| PetFilter.FilterMultiplicity | src/pages/ItemList.jsx:21-25 | a matching record appears as often as in the cache, a non-matching one never |
| PetFilter.FilterIdempotent | src/pages/ItemList.jsx:21-25 | filtering the filtered list again changes nothing |
| PetFilter.NoFilterKeepsAll | src/pages/ItemList.jsx:12-14 | the initial inputs ('Todos', 'Todos', '') pass every record |
| PetFilter.SearchIgnoresCase | src/pages/ItemList.jsx:24 | a search and its lower-cased form match the same records |
| PetFilter.NameMatchIsSubstring | src/pages/ItemList.jsx:24 | a name matches exactly when the lower-cased search occurs at some offset of the lower-cased name |
| ItemList.TotalPages | src/pages/ItemList.jsx:30 | the fewest pages of eight that hold all filtered records; zero exactly when there are none |
| ItemList.Paginated | src/pages/ItemList.jsx:31 | the rows on display: the current page of the filtered records |
| ItemList.PageOf | src/pages/ItemList.jsx:31 | at most eight records; for page p at least 1 the records from 8(p-1) to 8p, cut at the end; empty for page 0 or beyond the last page |
| ItemList.PagesArePrefix | src/pages/ItemList.jsx:31 | the first k pages laid end to end are the first 8k filtered records |
| ItemList.PagesReassemble | src/pages/ItemList.jsx:30-31 | pages 1 to totalPages laid end to end are exactly the filtered records |
| ItemList.OnTypeChange | src/pages/ItemList.jsx:33-36 | the species filter takes the value, the page returns to 1, the selection is kept |
| ItemList.OnGenderChange | src/pages/ItemList.jsx:38-41 | the gender filter takes the value, the page returns to 1, the selection is kept |
| ItemList.OnSearchChange | src/pages/ItemList.jsx:43-46 | the search takes the value, the page returns to 1, the selection is kept |
| ItemList.Prev | src/pages/ItemList.jsx:48 | never below 1; one page back from above 1; filter and selection kept |
| ItemList.Next | src/pages/ItemList.jsx:49 | never above totalPages; one page on from below it; filter and selection kept |
| ItemList.PrevNextRoundTrip | src/pages/ItemList.jsx:48-49 | inside the page range Next undoes Prev and Prev undoes Next |
| ItemList.Select | src/pages/ItemList.jsx:59-63 | the id's membership in the selection flips, every other id's is kept |
| ItemList.SelectKeepsDistinct | src/pages/ItemList.jsx:59-63 | a selection without duplicates stays without duplicates |
| ItemList.SelectTwice | src/pages/ItemList.jsx:59-63 | selecting a row twice restores membership, and the exact selection when it was unselected |
| ItemList.SelectAll | src/pages/ItemList.jsx:52-58 | checking selects exactly the current page's ids in page order; unchecking clears the selection |
| ItemList.HeaderChecked | src/pages/ItemList.jsx:180 | the header checkbox is checked when the page has rows and every row's id is selected |
| ItemList.SelectAllDrivesHeader | src/pages/ItemList.jsx:180 | after checking, the header shows checked exactly when the page has rows; after unchecking, never |
| ItemList.DeselectUnchecksHeader | src/pages/ItemList.jsx:180 | deselecting one row of a fully selected page unchecks the header |
| ItemList.HandleKeepsPageNonNegative | src/pages/ItemList.jsx:48-49 | no event drives the page below 0, and page 0 (Next on an empty list) shows nothing |
| ItemList.Survivors | src/context/PetContext.jsx:100 | a record survives exactly when its id is not among the removed ones |
| ItemList.SurvivorsStep | src/pages/ItemList.jsx:78-80 | one more successful delete removes the union of ids |
| ItemList.Removed | src/pages/ItemList.jsx:78-80 | the removed ids are exactly the selected ids whose delete succeeded |
| ItemList.ErrorAfter | src/pages/ItemList.jsx:78-80 | after the run the error slot holds the status of the last failed delete, or is unchanged when none failed |
| ItemList.DeleteSelected | src/pages/ItemList.jsx:64-83 | an empty selection or a declined confirmation changes nothing; otherwise every selected id is deleted in order, only successful deletes remove records, the last failure is recorded, favourites are kept and the selection is cleared |
| ItemList.BulkDeleteSecondFails | src/pages/ItemList.jsx:78-81 | with three selected records and the second delete failing, only the second stays and its failure is recorded |
| ItemList.RowDelete | src/pages/ItemList.jsx:247-250 | once confirmed, the row's record goes through deletePet and its id leaves the selection whatever the response; declined, nothing changes |
| ItemList.SecondPageOfNine | src/pages/ItemList.jsx:54 | page 2 of nine records is the ninth record alone, and select-all selects its id alone |
| ItemList.NinthDeleted | src/pages/ItemList.jsx:78-80 | deleting the ninth record leaves the first eight |
| ItemList.StrandedAfterBulkDelete | src/pages/ItemList.jsx:64-83 | as written: after bulk-deleting the only record of page 2, eight records match but page 2 stays, shows nothing, and the pager is hidden |
| ItemList.PagerShown | src/pages/ItemList.jsx:135 | both pagers render only when there is more than one page (also `:264`) |
| ItemList.ClampPage | src/pages/ItemList.jsx:48-49 | the page brought into 1..totalPages, unchanged when already inside |
| ItemList.ClampedPageNeverEmpty | src/pages/ItemList.jsx:31 | with a clamped page a non-empty filtered list never shows an empty page |
| ItemList.Settle | src/pages/ItemList.jsx:31 | the corrected view keeps filter and selection, leaves an in-range page alone, and never shows an empty page of a non-empty list |
| ItemList.SettledAfterBulkDelete | src/pages/ItemList.jsx:64-83 | corrected: the same bulk delete then shows the eight remaining records on page 1 |
| Home.VisiblePets | src/pages/Home.jsx:19 | the first min(visibleCount, number filtered) filtered records, in order |
| Home.ShowLoadMore | src/pages/Home.jsx:94 | "Cargar más" renders while fewer records are shown than match |
| Home.LoadMoreOfferedIff | src/pages/Home.jsx:94 | "Cargar más" is shown exactly when visibleCount is below the number of filtered records |
| Home.LoadMore | src/pages/Home.jsx:97 | one press adds six to the window and keeps the filter |
| Home.OnTypeChange | src/pages/Home.jsx:37-40 | the species filter takes the value and the window returns to six |
| Home.OnGenderChange | src/pages/Home.jsx:49-52 | the gender filter takes the value and the window returns to six |
| Home.OnSearchChange | src/pages/Home.jsx:64-67 | the search takes the value and the window returns to six |
| Home.FilterChangeShowsFirstBatch | src/pages/Home.jsx:19-67 | after any of the three filter changes the page shows the first six records of the new filter (all when fewer match), and offers "Cargar más" exactly when more than six match |
| Home.LoadMoreExtends | src/pages/Home.jsx:94-97 | a press keeps every record already shown, in place, and adds up to six more |
| Home.LoadMoreTimesWindow | src/pages/Home.jsx:11 | k presses after a reset make the window 6(k+1); once that covers the filtered list, all records show and the button goes |
| Favorites.Shown | src/pages/Favorites.jsx:12-14 | a favourite id that passes the gender and name tests |
| Favorites.FavoritePets | src/pages/Favorites.jsx:11-15 | a record is shown exactly when it is cached, its id is a favourite, and it passes the gender and name tests |
| Favorites.FavoritesAreRestrictedListFilter | src/pages/Favorites.jsx:11-15 | the page is the list filter with the species test off, restricted to favourite ids |
| Favorites.StaleFavoritesIgnored | src/pages/Favorites.jsx:11-12 | favourite ids that no cached record carries change nothing |
| Favorites.FavoritesOrderIrrelevant | src/pages/Favorites.jsx:11 | the favourites' order makes no difference; only their membership does |
| Favorites.FavoritesKeepCacheOrder | src/pages/Favorites.jsx:11 | the output distributes over any split of the cache, so it follows the cache's order |
| Favorites.ClearFavorites | src/pages/Favorites.jsx:17-20 | after removing the key, the next load gives the empty list |
| Favorites.ClearedShowsNothing | src/pages/Favorites.jsx:17-20 | after clearing and reloading the page shows no record |
| PetCard.GetClassification | src/components/PetCard.jsx:24-28 | below 1 Cachorro, from 1 below 7 Adulto, from 7 Senior |
| PetCard.CardAgreesWithWrites | src/components/PetCard.jsx:24-28 | for every age value the card derives the label a write attaches |
| PetCard.DisplayedClassification | src/components/PetCard.jsx:29 | a non-empty stored label is shown as is; otherwise one of the three tiers, chosen by age |
| PetCard.WrittenRecordShowsItsTier | src/components/PetCard.jsx:29 | a record stored as written shows its age's tier, whether or not the label was kept |
| PetCard.IsFav | src/components/PetCard.jsx:19 | the heart is filled when the card's id is among the favourites |
| PetCard.HeartFlipsOnToggle | src/components/PetCard.jsx:19 | pressing the heart flips that card's heart and leaves every other card's |
| PetCard.CardDelete | src/components/PetCard.jsx:32-49 | once confirmed, the card's record goes through `deletePet`: on success exactly the records with its id leave, the others keeping their order; on failure the cache is kept and the status recorded; declined, nothing changes; favourites never change |
| PetForm.Message | src/pages/ItemCreate.jsx:26-32 | the texts shown: "El nombre es obligatorio.", "El tipo es obligatorio.", "El género es obligatorio.", "La edad es obligatoria.", "La edad debe ser un número mayor o igual a 0." and "La edad máxima para un <species lower-cased> es <cap> años." (also `src/pages/ItemEdit.jsx:47-53`) |
| PetForm.CapMessage | src/pages/ItemCreate.jsx:31-32 | the cap texts for a dog and a cat: "... para un perro es 20 años." and "... para un gato es 25 años." |
| PetForm.MessagesTellProblemsApart | src/pages/ItemCreate.jsx:26-32 | two problems validation can report share a text only when they are the same problem |
| PetForm.MaxAge | src/pages/ItemCreate.jsx:15 | a cap exists exactly for Perro (20) and Gato (25) |
| PetForm.AgeProblem | src/pages/ItemCreate.jsx:29-32 | no message exactly when the age is acceptable; empty gives "obligatoria"; NaN or negative gives "mayor o igual a 0"; a non-negative number above the species' cap gets the cap message naming that cap, and a cap message is given only then |
| PetForm.Validate | src/pages/ItemCreate.jsx:24-34 | each field has a key exactly when it fails (name empty after trimming, type empty, gender empty, age not acceptable), with that field's message |
| PetForm.PhotoNotValidated | src/pages/ItemCreate.jsx:24-34 | validation does not read the photo: replacing it changes neither the error map nor validity |
| PetForm.NameFlaggedIffAllWhitespace | src/pages/ItemCreate.jsx:26 | the name is flagged exactly when every character of it is whitespace (the empty name included) |
| PetForm.Valid | src/pages/ItemCreate.jsx:64 | the form passes when the name is not blank, type and gender are set and the age is acceptable |
| PetForm.NoErrorsIffValid | src/pages/ItemCreate.jsx:64 | the error map is empty exactly when the form is valid |
| PetForm.ValidateBlankName | src/pages/ItemCreate.jsx:26 | an empty name with Perro, Macho, 5 flags the name as required and no other field |
| PetForm.ValidateDogTooOld | src/pages/ItemCreate.jsx:31-32 | Rex, Perro, Macho, 25 flags only the age, with the dog's cap of 20 |
| PetForm.ValidateDogValid | src/pages/ItemCreate.jsx:24-34 | Rex, Perro, Macho, 5 gives no key |
| PetForm.AgeCapBoundary | src/pages/ItemEdit.jsx:52 | the cap itself is accepted and half a year more is not; a species without a cap bounds the age only from below |
| PetForm.FirstDot | src/pages/ItemCreate.jsx:52 | the first dot's position, or the length when there is no dot |
| PetForm.NoSecondDot | src/pages/ItemCreate.jsx:52 | with at most one dot, nothing after the first dot is a dot |
| PetForm.ParseAge | src/pages/ItemCreate.jsx:30-31 | the empty string stays empty; a second dot or a lone dot is NaN; any other digits-and-dots string is a non-negative number: its digit value when it has no dot, and with one dot the digits read without the dot over ten to the number of digits after it |
| PetForm.DigitsValueConcat | src/pages/ItemCreate.jsx:30-31 | the digits of two strings laid end to end read as the first shifted past the second |
| PetForm.DecimalAsQuotient | src/pages/ItemCreate.jsx:30-31 | `whole.fraction` equals its digits read without the dot over ten to the fraction's length |
| PetForm.OneDotDigits | src/pages/ItemCreate.jsx:30-31 | a string of digits with one dot has digit strings on both sides of the dot |
| PetForm.OneDotValue | src/pages/ItemCreate.jsx:30-31 | a string of digits with one dot reads as its digits without the dot over ten to the number of characters after the dot |
| PetForm.ParseAgeDecimal | src/pages/ItemCreate.jsx:30-31 | "2.5" reads as 2.5 |
| PetForm.ParseAgeTrailingDot | src/pages/ItemCreate.jsx:30-31 | "5." reads as 5 |
| PetForm.ParseAgeLeadingDot | src/pages/ItemCreate.jsx:30-31 | ".5" reads as one half |
| PetForm.ParseAgeLeadingZeros | src/pages/ItemCreate.jsx:30-31 | "007" reads as 7 |
| PetForm.ParseAgeRejectsDots | src/pages/ItemCreate.jsx:30-31 | "." and "1.2.3" are NaN |
| PetForm.DecimalDigitsValue | src/context/PetContext.jsx:35 | reading back the decimal rendering of a whole number gives the number |
| PetForm.ParseWholeNumber | src/pages/ItemCreate.jsx:52 | a whole number typed into the age input is stored as itself |
| PetForm.TypedAge | src/pages/ItemCreate.jsx:52 | the typed age is empty exactly when nothing survives the sanitiser, and is never a negative number |
| PetForm.TypedAgeNeverNegative | src/pages/ItemEdit.jsx:67 | a typed age that parses to a number is never flagged as negative; the "mayor o igual a 0" message reaches a typed age exactly when what survives the sanitiser has a second dot or is a lone dot for whatever text the change handler is given; the number input itself never hands it such text (see PetForm.NumberInputNeverNaN) |
| PetForm.ApplyText | src/pages/ItemCreate.jsx:53-54 | a text event stores its value in its own field, the age sanitised and parsed, every other field and the photo kept |
| PetForm.DotCountIsMultiplicity | src/pages/ItemCreate.jsx:30-31 | the dot count the age parser uses is the number of dots in the text |
| PetForm.FloatShape | src/pages/ItemCreate.jsx:131-132 | a valid floating-point number holds at most one dot and at least one digit |
| PetForm.ValidFloatDecimals | src/pages/ItemCreate.jsx:131-132 | the number input can hold "2.5" and ".5" |
| PetForm.ValidFloatExponent | src/pages/ItemCreate.jsx:131-132 | the number input can hold "-1e3" |
| PetForm.ValidFloatRejectsDot | src/pages/ItemCreate.jsx:131-132 | the number input never holds a lone "." |
| PetForm.ValidFloatRejectsDots | src/pages/ItemCreate.jsx:131-132 | the number input never holds "1.2.3" nor "5." |
| PetForm.NumberInputNeverNaN | src/pages/ItemEdit.jsx:156-157 | on what the number input can deliver (the empty string or a valid floating-point number) the typed age is never NaN, is empty exactly for the empty string, and so never draws the "mayor o igual a 0" message |
| PetForm.PhotoData | src/pages/ItemCreate.jsx:66-75 | a text photo passes through unchanged; a file becomes its data URL |
| PetForm.ToData | src/pages/ItemCreate.jsx:76 | the payload carries every form field unchanged except the photo, which is its payload form |
| ItemCreate.HandleChange | src/pages/ItemCreate.jsx:36-58 | a photo with files stores the first file; a photo without files clears it; both keep the errors; any other event stores its value and re-validates |
| ItemCreate.Submit | src/pages/ItemCreate.jsx:60-78 | the errors shown are the form's; a body is sent and the page navigates exactly when the form is valid; invalid leaves the store alone; valid creates with the form's payload whatever the response |
| ItemCreate.ErrorsStayInSync | src/pages/ItemCreate.jsx:36-58 | once the errors shown are those of the form, every later edit keeps them so: a text edit re-validates and a photo event, which keeps the old map, changes no field validation reads |
| ItemCreate.SubmittedPhotoAndTier | src/pages/ItemCreate.jsx:66-76 | a text photo reaches the store unchanged, a file as its data URL, with the age's tier as the label |
| ItemCreate.SentAgeInRange | src/pages/ItemCreate.jsx:62-64 | every body sent carries a non-negative number within the species' cap |
| ItemCreate.CreatedRecordListedFirst | src/pages/ItemCreate.jsx:76 | on success the created record heads the cache and a lookup finds it |
| ItemCreate.BlankFormBlocked | src/pages/ItemCreate.jsx:60-64 | submitting the initial form sends nothing, stays on the page, leaves the store alone and shows the blank form's errors |
| ItemCreate.BlankErrors | src/pages/ItemCreate.jsx:6-13 | the blank form flags name, type, gender and age, the age as required |
| ItemEdit.FormOf | src/pages/ItemEdit.jsx:25 | the form opens with the record's fields and its photo as text |
| ItemEdit.Open | src/pages/ItemEdit.jsx:19-43 | a rejection shows its (non-empty) message; undefined shows "not found"; a record opens the form with no errors, not saving |
| ItemEdit.OpenFindsNumericId | src/pages/ItemEdit.jsx:22 | a route id that renders a cached numeric id opens the editor without a request |
| ItemEdit.LoadFailsOnlyOnRateLimit | src/pages/ItemEdit.jsx:30-33 | on a cache miss a failed lookup shows an error exactly on 429, with the rate-limit message |
| ItemEdit.HandleChange | src/pages/ItemEdit.jsx:57-73 | a photo with files stores the first file and keeps the errors; a photo without files stores the input's text and re-validates; any other event stores its value and re-validates |
| ItemEdit.Submit | src/pages/ItemEdit.jsx:75-103 | the errors shown are the form's; saving ends and no error shows; a body is put and the page navigates to the detail route exactly when valid; invalid sends nothing and leaves the store alone; valid puts the form's payload with its tier's label through `updatePet` with the route's string id |
| ItemEdit.SaveSkipsNumericIds | src/pages/ItemEdit.jsx:96 | a save never changes a cached record with a numeric id, nor the cache's length |
| ItemEdit.SavePatchesStringIds | src/pages/ItemEdit.jsx:96 | a successful save replaces, in place, every record keyed by the route's string id |
| ItemEdit.FailedSaveStillNavigates | src/pages/ItemEdit.jsx:95-102 | a failed save keeps the cache, records the failure, shows no error and still navigates |
| ItemEdit.SavedPhotoAndTier | src/pages/ItemEdit.jsx:85-96 | a text photo (the record's own URL, or empty) is put unchanged, a chosen file as its data URL, with the age's tier as the label |
| ItemEdit.SavedAgeInRange | src/pages/ItemEdit.jsx:78-96 | every body put carries a non-negative number within the species' cap |
| ItemEdit.ReopenedRecordRoundTrip | src/pages/ItemEdit.jsx:25-96 | saving a just-opened record unchanged puts back exactly its own fields, photo text included, labelled with its age's tier, when it passes validation, and sends nothing when it does not |

## Left out

- Rendering: JSX, styling, the SweetAlert modals, toasts, confetti, the card's `adopted` flag and the image previews. A confirmation is a boolean parameter.
- The shared `loading` flag, the `isMounted` guard of the edit page, and async interleaving. Each operation is modelled as if it ran to completion on its own.
- The network (axios) and `FileReader`. Responses and the data URL are parameters.
- `localStorage` and `location.reload()`. The stored favourites are a `Stored` value that the model returns.
- The theme logic in `src/components/Navbar.jsx`, and the routing and wiring in `src/App.jsx`, `src/Router/AppRouter.jsx`, `src/pages/NotFound.jsx` and `src/pages/ItemDetail.jsx`. None has rules of its own.
- JsText.Lower: only ASCII letters are lower-cased. JavaScript's full Unicode `toLowerCase`, including its length-changing mappings, is not modelled.
- PetForm.ApplyText: takes the change event's value as any text. The browser's sanitising of the number input (its value is always the empty string or a valid floating-point number) is not built into the handler; it is stated separately by PetForm.ValidFloat and PetForm.NumberInputNeverNaN.
- PetForm.ParseAge: exact only for strings of digits and dots, which is all the age input can hold after sanitising. An age loaded from a record arrives already as an age value. `Number` on other text is not modelled, nor are floating-point rounding and overflow of very long numerals (values are exact reals).
- PetStore.LoadFavorites: a truthy stored JSON value that is not an array is not modelled. The code would keep it. A number or an object (`5`, `{}`) then fails at the first `includes`. A string passes `includes` as a substring test, then fails at `filter` or is spread into characters by `[...prev, id]` on the next toggle.
- Pets.IdString, PetStore.CacheFind, JsText.NatToDecimal: numeric ids are whole non-negative numbers. Fractional or negative numeric ids are not modelled.
- PetStore.WriteRequest: the body is the modelled fields plus the label. Other keys a record may carry into the edit form, such as its `id`, are spread into the request and are not modelled; an old `classification` is spread too but overwritten by the new label, which the model states. A typed age is sent as a string and a loaded one as a number; both are one age value here.
- PetFilter.PassesName: a record without a `name` makes the code throw in `toLowerCase`. Names are always strings here.
- ItemEdit.Open: the rejection message is never empty, because `getPet` rejects only with the rate-limit message. The fallback text is kept but unreachable.

## Findings

| source | as written | input that shows it | evidently intended | confidence | as-written member | corrected member |
|---|---|---|---|---|---|---|
| src/pages/ItemList.jsx:64-83 | after a bulk delete the page number is left unchanged, even when the filtered list now has fewer pages | nine matching records on page 2; select-all and delete the ninth: eight match, page 2 is empty, and `totalPages` is 1, so the pager that could go back is hidden | clamp the page into `1..totalPages` after the cache shrinks, as Prev and Next already bound it | high, not executed | ItemList.StrandedAfterBulkDelete | ItemList.SettledAfterBulkDelete |
