/** The management list page: filter, fixed-size pages, multi-select and bulk delete. */
module ItemList {
  import opened Outcomes
  import opened Pets
  import opened PetFilter
  import PetStore
  import Seqs

  /** `PAGE_SIZE`. */
  const PageSize: nat := 8

  /** The page's own state: its filter inputs, the current page number and the
      selected ids. */
  datatype ListState = ListState(criteria: Criteria, page: int, selected: seq<Id>)

  /** The state the page mounts with. */
  const Initial: ListState := ListState(NoFilter, 1, [])

  /** `Math.ceil(n / PAGE_SIZE)`: the fewest pages of eight that hold `n` records. */
  function TotalPages(n: nat): (r: nat)
    ensures r * PageSize >= n
    ensures r > 0 ==> (r - 1) * PageSize < n
    ensures r == 0 <==> n == 0
  {
    (n + PageSize - 1) / PageSize
  }

  /** `filtered.slice((page - 1) * PAGE_SIZE, page * PAGE_SIZE)`. */
  function PageOf(filtered: seq<Pet>, page: int): (r: seq<Pet>)
    ensures |r| <= PageSize
    ensures page >= 1 ==>
              r == filtered[Seqs.Min((page - 1) * PageSize, |filtered|)..Seqs.Min(page * PageSize, |filtered|)]
    ensures page == 0 || page > TotalPages(|filtered|) ==> r == []
  {
    Seqs.Slice(filtered, (page - 1) * PageSize, page * PageSize)
  }

  /** `paginatedPets`: the current page of the filtered cache. */
  function Paginated(pets: seq<Pet>, st: ListState): seq<Pet>
  {
    PageOf(FilteredPets(pets, st.criteria), st.page)
  }

  /** Pages `1..k` laid end to end. */
  function Pages(filtered: seq<Pet>, k: nat): seq<Pet>
  {
    if k == 0 then [] else Pages(filtered, k - 1) + PageOf(filtered, k)
  }

  /** The first `k` pages are the first `8k` filtered records. */
  lemma {:induction false} PagesArePrefix(filtered: seq<Pet>, k: nat)
    ensures Pages(filtered, k) == filtered[..Seqs.Min(k * PageSize, |filtered|)]
  {
    if k > 0 {
      PagesArePrefix(filtered, k - 1);
      var a := Seqs.Min((k - 1) * PageSize, |filtered|);
      var b := Seqs.Min(k * PageSize, |filtered|);
      assert filtered[..a] + filtered[a..b] == filtered[..b];
    }
  }

  /** Pages `1..totalPages` concatenate back to exactly the filtered records. */
  lemma PagesReassemble(filtered: seq<Pet>)
    ensures Pages(filtered, TotalPages(|filtered|)) == filtered
  {
    var n := TotalPages(|filtered|);
    PagesArePrefix(filtered, n);
    assert Seqs.Min(n * PageSize, |filtered|) == |filtered|;
    assert filtered[..|filtered|] == filtered;
  }

  /** `handleFilterChange`: a new species filter, back to page 1, selection kept. */
  function OnTypeChange(st: ListState, value: string): (r: ListState)
    ensures r.criteria == st.criteria.(species := value)
    ensures r.page == 1 && r.selected == st.selected
  {
    ListState(st.criteria.(species := value), 1, st.selected)
  }

  /** `handleGenderChange`: a new gender filter, back to page 1, selection kept. */
  function OnGenderChange(st: ListState, value: string): (r: ListState)
    ensures r.criteria == st.criteria.(gender := value)
    ensures r.page == 1 && r.selected == st.selected
  {
    ListState(st.criteria.(gender := value), 1, st.selected)
  }

  /** `handleSearchChange`: a new search text, back to page 1, selection kept. */
  function OnSearchChange(st: ListState, value: string): (r: ListState)
    ensures r.criteria == st.criteria.(search := value)
    ensures r.page == 1 && r.selected == st.selected
  {
    ListState(st.criteria.(search := value), 1, st.selected)
  }

  /** `handlePrev`: `Math.max(1, page - 1)`. */
  function Prev(st: ListState): (r: ListState)
    ensures r.page >= 1
    ensures st.page > 1 ==> r.page == st.page - 1
    ensures st.page <= 1 ==> r.page == 1
    ensures r.criteria == st.criteria && r.selected == st.selected
  {
    st.(page := if st.page - 1 > 1 then st.page - 1 else 1)
  }

  /** `handleNext`: `Math.min(totalPages, page + 1)`. */
  function Next(st: ListState, totalPages: nat): (r: ListState)
    ensures r.page <= totalPages
    ensures st.page < totalPages ==> r.page == st.page + 1
    ensures st.page >= totalPages ==> r.page == totalPages
    ensures r.criteria == st.criteria && r.selected == st.selected
  {
    st.(page := if totalPages < st.page + 1 then totalPages else st.page + 1)
  }

  /** Inside the page range, Next undoes Prev and Prev undoes Next. */
  lemma PrevNextRoundTrip(st: ListState, totalPages: nat)
    ensures 1 < st.page <= totalPages ==> Next(Prev(st), totalPages) == st
    ensures 1 <= st.page < totalPages ==> Prev(Next(st, totalPages)) == st
  {
  }

  /** `handleSelect(id)`: flips the id's membership in the selection. */
  function Select(st: ListState, id: Id): (r: ListState)
    ensures id in r.selected <==> id !in st.selected
    ensures forall other :: other != id ==> (other in r.selected <==> other in st.selected)
    ensures r.criteria == st.criteria && r.page == st.page
  {
    st.(selected := Seqs.Toggle(st.selected, id))
  }

  /** Selecting rows never puts an id into the selection twice. */
  lemma SelectKeepsDistinct(st: ListState, id: Id)
    requires Seqs.NoDuplicates(st.selected)
    ensures Seqs.NoDuplicates(Select(st, id).selected)
  {
    Seqs.ToggleNoDuplicates(st.selected, id);
  }

  /** Selecting the same row twice restores the selection's membership. */
  lemma SelectTwice(st: ListState, id: Id)
    ensures forall x :: x in Select(Select(st, id), id).selected <==> x in st.selected
    ensures id !in st.selected ==> Select(Select(st, id), id) == st
  {
    if id !in st.selected {
      Seqs.ToggleTwiceAbsent(st.selected, id);
    }
  }

  /** `handleSelectAll`: checking selects exactly the current page's ids in page
      order; unchecking clears the selection. */
  function SelectAll(pets: seq<Pet>, st: ListState, checked: bool): (r: ListState)
    ensures checked ==> r.selected == Ids(Paginated(pets, st))
    ensures !checked ==> r.selected == []
    ensures r.criteria == st.criteria && r.page == st.page
  {
    st.(selected := if checked then Ids(Paginated(pets, st)) else [])
  }

  /** The header checkbox: `paginated.length > 0 && paginated.every(p => selected.includes(p.id))`. */
  predicate HeaderChecked(page: seq<Pet>, selected: seq<Id>)
  {
    |page| > 0 && forall i :: 0 <= i < |page| ==> page[i].id in selected
  }

  /** After checking select-all the header shows checked exactly when the page has
      rows; after unchecking it never does. */
  lemma SelectAllDrivesHeader(pets: seq<Pet>, st: ListState)
    ensures (HeaderChecked(Paginated(pets, st), SelectAll(pets, st, true).selected)
             <==> |Paginated(pets, st)| > 0)
    ensures !HeaderChecked(Paginated(pets, st), SelectAll(pets, st, false).selected)
  {
    var page := Paginated(pets, st);
    var ids := SelectAll(pets, st, true).selected;
    forall i | 0 <= i < |page|
      ensures page[i].id in ids
    {
      assert ids[i] == page[i].id;
    }
    if |page| > 0 {
      assert page[0].id !in SelectAll(pets, st, false).selected;
    }
  }

  /** Deselecting one row of a fully selected page unchecks the header. */
  lemma DeselectUnchecksHeader(pets: seq<Pet>, st: ListState, i: int)
    requires 0 <= i < |Paginated(pets, st)|
    requires HeaderChecked(Paginated(pets, st), st.selected)
    ensures !HeaderChecked(Paginated(pets, Select(st, Paginated(pets, st)[i].id)),
                           Select(st, Paginated(pets, st)[i].id).selected)
  {
  }

  /** The page's events. */
  datatype ListEvent =
    | TypeChanged(value: string)
    | GenderChanged(value: string)
    | SearchChanged(value: string)
    | PrevPressed
    | NextPressed
    | RowToggled(id: Id)
    | SelectAllChanged(checked: bool)

  /** The page's reaction to one event, given the current cache. */
  function Handle(pets: seq<Pet>, st: ListState, ev: ListEvent): ListState
  {
    match ev
    case TypeChanged(v) => OnTypeChange(st, v)
    case GenderChanged(v) => OnGenderChange(st, v)
    case SearchChanged(v) => OnSearchChange(st, v)
    case PrevPressed => Prev(st)
    case NextPressed => Next(st, TotalPages(|FilteredPets(pets, st.criteria)|))
    case RowToggled(id) => Select(st, id)
    case SelectAllChanged(checked) => SelectAll(pets, st, checked)
  }

  /** No event drives the page number below 0, so the slice never reads from the
      end of the list; only Next on an empty list reaches 0, which shows nothing. */
  lemma HandleKeepsPageNonNegative(pets: seq<Pet>, st: ListState, ev: ListEvent)
    requires st.page >= 0
    ensures Handle(pets, st, ev).page >= 0
    ensures Handle(pets, st, ev).page == 0 ==> Paginated(pets, Handle(pets, st, ev)) == []
  {
  }

  /** The cache records whose id is not in `gone`, in order. */
  function Survivors(pets: seq<Pet>, gone: set<Id>): (r: seq<Pet>)
    ensures forall p :: p in r <==> p in pets && p.id !in gone
  {
    Seqs.Where(pets, (p: Pet) => p.id !in gone)
  }

  /** With nothing gone, every record survives. */
  lemma SurvivorsOfNothing(pets: seq<Pet>)
    ensures Survivors(pets, {}) == pets
  {
    SurvivorsKeepAll(pets, {});
  }

  /** When no record's id is gone, every record survives. */
  lemma SurvivorsKeepAll(pets: seq<Pet>, gone: set<Id>)
    requires forall i :: 0 <= i < |pets| ==> pets[i].id !in gone
    ensures Survivors(pets, gone) == pets
  {
    Seqs.WhereAll(pets, (p: Pet) => p.id !in gone);
  }

  /** Removing one more id from the survivors is removing the union. */
  lemma SurvivorsStep(pets: seq<Pet>, gone: set<Id>, id: Id)
    ensures PetStore.WithoutId(Survivors(pets, gone), id) == Survivors(pets, gone + {id})
  {
    Seqs.WhereFusion(pets, (p: Pet) => p.id !in gone, (p: Pet) => p.id != id,
                     (p: Pet) => p.id !in gone + {id});
  }

  /** The ids among `selected` whose remote delete succeeded. */
  function Removed(selected: seq<Id>, responses: seq<Response<()>>): (r: set<Id>)
    requires |responses| == |selected|
    ensures forall i :: 0 <= i < |selected| && responses[i].Ok? ==> selected[i] in r
    ensures forall id :: id in r ==> exists i :: 0 <= i < |selected| && responses[i].Ok? && selected[i] == id
  {
    if |selected| == 0 then {}
    else
      var last := |selected| - 1;
      var earlier := Removed(selected[..last], responses[..last]);
      if responses[last].Ok? then earlier + {selected[last]} else earlier
  }

  /** The error slot after a run of deletes: the status of the last failure, or the
      slot as it was when nothing failed. */
  function ErrorAfter(error: Option<Status>, responses: seq<Response<()>>): (r: Option<Status>)
    ensures (forall i :: 0 <= i < |responses| ==> responses[i].Ok?) ==> r == error
    ensures forall i :: (0 <= i < |responses| && responses[i].Failed?
                         && forall j :: i < j < |responses| ==> responses[j].Ok?)
                        ==> r == Some(responses[i].status)
  {
    if |responses| == 0 then error
    else
      var last := |responses| - 1;
      if responses[last].Failed? then Some(responses[last].status)
      else
        assert forall j :: 0 <= j < last ==> responses[..last][j] == responses[j];
        ErrorAfter(error, responses[..last])
  }

  /** `handleDeleteSelected`: nothing happens on an empty selection or a declined
      confirmation. Otherwise each selected id, in order, goes through `deletePet`
      with its own response, and the selection is cleared even when some deletes
      failed. A failed delete does not undo the earlier ones. */
  method DeleteSelected(st: PetStore.Store, selected: seq<Id>, confirmed: bool,
                        responses: seq<Response<()>>)
    returns (st': PetStore.Store, selected': seq<Id>)
    requires |responses| == |selected|
    ensures |selected| == 0 || !confirmed ==> st' == st && selected' == selected
    ensures |selected| > 0 && confirmed ==>
              && selected' == []
              && st'.pets == Survivors(st.pets, Removed(selected, responses))
              && st'.error == ErrorAfter(st.error, responses)
              && st'.favorites == st.favorites
  {
    if |selected| == 0 || !confirmed {
      return st, selected;
    }
    st' := st;
    var i := 0;
    SurvivorsOfNothing(st.pets);
    while i < |selected|
      invariant 0 <= i <= |selected|
      invariant st'.pets == Survivors(st.pets, Removed(selected[..i], responses[..i]))
      invariant st'.error == ErrorAfter(st.error, responses[..i])
      invariant st'.favorites == st.favorites
    {
      var gone := Removed(selected[..i], responses[..i]);
      if responses[i].Ok? {
        SurvivorsStep(st.pets, gone, selected[i]);
      }
      st' := PetStore.DeletePet(st', selected[i], responses[i]);
      assert selected[..i + 1][..i] == selected[..i];
      assert responses[..i + 1][..i] == responses[..i];
      i := i + 1;
    }
    assert selected[..i] == selected;
    assert responses[..i] == responses;
    selected' := [];
  }

  /** Three selected records whose second delete fails: the first and third are
      gone, the second stays, and the failure sits in the error slot. */
  lemma BulkDeleteSecondFails(a: Pet, b: Pet, c: Pet, failure: Status)
    requires a.id != b.id && b.id != c.id && a.id != c.id
    ensures var responses := [Ok(()), Failed(failure), Ok(())];
            Survivors([a, b, c], Removed([a.id, b.id, c.id], responses)) == [b]
            && ErrorAfter(None, responses) == Some(failure)
  {
    var responses := [Ok(()), Failed(failure), Ok(())];
    RemovedFirstAndThird(a.id, b.id, c.id, responses);
    OnlyMiddleSurvives(a, b, c);
  }

  /** The ids whose deletes succeeded when only the second of three failed. */
  lemma RemovedFirstAndThird(x: Id, y: Id, z: Id, responses: seq<Response<()>>)
    requires |responses| == 3 && responses[0].Ok? && responses[1].Failed? && responses[2].Ok?
    ensures Removed([x, y, z], responses) == {x, z}
  {
    var ids := [x, y, z];
    assert ids[..2][..1] == [x] && responses[..2][..1] == [responses[0]];
    assert Removed([x], [responses[0]]) == {x};
    assert Removed(ids[..2], responses[..2]) == {x};
  }

  /** With the first and third ids gone, the middle record alone survives. */
  lemma OnlyMiddleSurvives(a: Pet, b: Pet, c: Pet)
    requires a.id != b.id && b.id != c.id
    ensures Survivors([a, b, c], {a.id, c.id}) == [b]
  {
    var gone := {a.id, c.id};
    assert [a, b, c] == [a] + ([b] + [c]);
    Seqs.WhereConcat([a], [b] + [c], (p: Pet) => p.id !in gone);
    Seqs.WhereConcat([b], [c], (p: Pet) => p.id !in gone);
  }

  /** The delete button of one row: once confirmed, `deletePet(pet.id)` and then the
      id leaves the selection, whether or not the delete succeeded. */
  function RowDelete(st: PetStore.Store, selected: seq<Id>, id: Id, confirmed: bool,
                     response: Response<()>): (r: (PetStore.Store, seq<Id>))
    ensures !confirmed ==> r == (st, selected)
    ensures confirmed ==> r.0 == PetStore.DeletePet(st, id, response)
    ensures confirmed ==> id !in r.1 && forall x :: x != id ==> (x in r.1 <==> x in selected)
  {
    if confirmed then (PetStore.DeletePet(st, id, response), Seqs.RemoveAll(selected, id))
    else (st, selected)
  }

  /** The pager (Prev, "Página p de n", Next) is rendered only when there is more
      than one page. */
  predicate PagerShown(totalPages: nat)
  {
    totalPages > 1
  }

  /** On page 2 of nine records, select-all selects the ninth record alone. */
  lemma SecondPageOfNine(eight: seq<Pet>, last: Pet)
    requires |eight| == 8
    ensures Paginated(eight + [last], ListState(NoFilter, 2, [])) == [last]
    ensures SelectAll(eight + [last], ListState(NoFilter, 2, []), true).selected == [last.id]
  {
    NoFilterKeepsAll(eight + [last]);
  }

  /** Deleting the ninth record leaves the first eight. */
  lemma NinthDeleted(eight: seq<Pet>, last: Pet)
    requires forall i :: 0 <= i < |eight| ==> eight[i].id != last.id
    ensures Survivors(eight + [last], Removed([last.id], [Ok(())])) == eight
  {
    var gone := Removed([last.id], [Ok(())]);
    assert gone == {last.id};
    Seqs.WhereConcat(eight, [last], (p: Pet) => p.id !in gone);
    SurvivorsKeepAll(eight, gone);
  }

  /** As written, a successful bulk delete of the only record on the last page leaves
      the page number where it was: page 2 of a list that now has one page. The table
      is empty although eight records match, and the pager that could lead back is
      hidden. */
  lemma StrandedAfterBulkDelete(eight: seq<Pet>, last: Pet)
    requires |eight| == 8
    requires forall i :: 0 <= i < |eight| ==> eight[i].id != last.id
    ensures var st := SelectAll(eight + [last], ListState(NoFilter, 2, []), true);
            var after := Survivors(eight + [last], Removed([last.id], [Ok(())]));
            && st.selected == [last.id]
            && st.page == 2
            && |FilteredPets(after, st.criteria)| == 8
            && Paginated(after, st) == []
            && !PagerShown(TotalPages(|FilteredPets(after, st.criteria)|))
  {
    SecondPageOfNine(eight, last);
    NinthDeleted(eight, last);
    NoFilterKeepsAll(eight);
  }

  /** The page number brought back into `[1, totalPages]` (page 1 when there are no
      pages), as the pager's own bounds intend. */
  function ClampPage(page: int, totalPages: nat): (r: int)
    ensures r >= 1
    ensures totalPages > 0 ==> r <= totalPages
    ensures 1 <= page <= totalPages ==> r == page
  {
    if page > totalPages then (if totalPages < 1 then 1 else totalPages)
    else if page < 1 then 1
    else page
  }

  /** With the page clamped, a non-empty filtered list never shows an empty page. */
  lemma ClampedPageNeverEmpty(filtered: seq<Pet>, page: int)
    requires |filtered| > 0
    ensures |PageOf(filtered, ClampPage(page, TotalPages(|filtered|)))| > 0
  {
  }

  /** The corrected view after the cache changed: the page number clamped against
      the filtered list now there; filter and selection as they were. */
  function Settle(pets: seq<Pet>, st: ListState): (r: ListState)
    ensures r.criteria == st.criteria && r.selected == st.selected
    ensures 1 <= st.page <= TotalPages(|FilteredPets(pets, st.criteria)|) ==> r == st
    ensures |FilteredPets(pets, st.criteria)| > 0 ==> |Paginated(pets, r)| > 0
  {
    st.(page := ClampPage(st.page, TotalPages(|FilteredPets(pets, st.criteria)|)))
  }

  /** With the page settled, the bulk delete that strands the uncorrected page shows
      the eight remaining records on page 1. */
  lemma SettledAfterBulkDelete(eight: seq<Pet>, last: Pet)
    requires |eight| == 8
    requires forall i :: 0 <= i < |eight| ==> eight[i].id != last.id
    ensures var st := SelectAll(eight + [last], ListState(NoFilter, 2, []), true);
            var after := Survivors(eight + [last], Removed([last.id], [Ok(())]));
            && Settle(after, st).page == 1
            && Paginated(after, Settle(after, st)) == eight
  {
    SecondPageOfNine(eight, last);
    NinthDeleted(eight, last);
    NoFilterKeepsAll(eight);
    assert eight[0..8] == eight;
  }
}
