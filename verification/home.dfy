/** The home page: the same filter as the management list, shown through a window of
    `visibleCount` records that "Cargar más" widens. */
module Home {
  import opened Pets
  import opened PetFilter
  import Seqs

  /** How many records the window starts with and grows by. */
  const Batch: nat := 6

  /** The page's own state: its filter inputs and the window size. */
  datatype HomeState = HomeState(criteria: Criteria, visibleCount: nat)

  /** The state the page mounts with. */
  const Initial: HomeState := HomeState(NoFilter, Batch)

  /** `filteredPets.slice(0, visibleCount)`: the first `visibleCount` filtered records,
      or all of them when there are fewer. */
  function VisiblePets(pets: seq<Pet>, st: HomeState): (r: seq<Pet>)
    ensures var filtered := FilteredPets(pets, st.criteria);
            |r| == Seqs.Min(st.visibleCount, |filtered|) && r == filtered[..|r|]
  {
    Seqs.Slice(FilteredPets(pets, st.criteria), 0, st.visibleCount)
  }

  /** "Cargar más" is rendered when `visiblePets.length < filteredPets.length`. */
  predicate ShowLoadMore(pets: seq<Pet>, st: HomeState)
  {
    |VisiblePets(pets, st)| < |FilteredPets(pets, st.criteria)|
  }

  /** The button is offered exactly when the window is smaller than the filtered list. */
  lemma LoadMoreOfferedIff(pets: seq<Pet>, st: HomeState)
    ensures ShowLoadMore(pets, st) <==> st.visibleCount < |FilteredPets(pets, st.criteria)|
  {
  }

  /** One press of "Cargar más": `visibleCount + 6`. */
  function LoadMore(st: HomeState): (r: HomeState)
    ensures r.visibleCount == st.visibleCount + Batch
    ensures r.criteria == st.criteria
  {
    st.(visibleCount := st.visibleCount + Batch)
  }

  /** Each of the three filter inputs stores its value and shrinks the window back to 6. */
  function OnTypeChange(st: HomeState, value: string): (r: HomeState)
    ensures r.criteria == st.criteria.(species := value) && r.visibleCount == Batch
  {
    HomeState(st.criteria.(species := value), Batch)
  }

  function OnGenderChange(st: HomeState, value: string): (r: HomeState)
    ensures r.criteria == st.criteria.(gender := value) && r.visibleCount == Batch
  {
    HomeState(st.criteria.(gender := value), Batch)
  }

  function OnSearchChange(st: HomeState, value: string): (r: HomeState)
    ensures r.criteria == st.criteria.(search := value) && r.visibleCount == Batch
  {
    HomeState(st.criteria.(search := value), Batch)
  }

  /** What the page shows right after a filter change: the first six records of the
      new filter (all of them when fewer match), with "Cargar más" offered exactly when
      more than six match. */
  predicate ShowsFirstBatch(pets: seq<Pet>, st: HomeState)
  {
    var filtered := FilteredPets(pets, st.criteria);
    && VisiblePets(pets, st) == filtered[..Seqs.Min(Batch, |filtered|)]
    && (ShowLoadMore(pets, st) <==> |filtered| > Batch)
  }

  /** Each filter input restarts the window at the first six records of its new filter. */
  lemma FilterChangeShowsFirstBatch(pets: seq<Pet>, st: HomeState, value: string)
    ensures ShowsFirstBatch(pets, OnTypeChange(st, value))
    ensures ShowsFirstBatch(pets, OnGenderChange(st, value))
    ensures ShowsFirstBatch(pets, OnSearchChange(st, value))
  {
    LoadMoreOfferedIff(pets, OnTypeChange(st, value));
    LoadMoreOfferedIff(pets, OnGenderChange(st, value));
    LoadMoreOfferedIff(pets, OnSearchChange(st, value));
  }

  /** A press keeps every record already shown, in place, and adds up to six more. */
  lemma LoadMoreExtends(pets: seq<Pet>, st: HomeState)
    ensures VisiblePets(pets, st) <= VisiblePets(pets, LoadMore(st))
    ensures |VisiblePets(pets, LoadMore(st))|
              == Seqs.Min(|VisiblePets(pets, st)| + Batch, |FilteredPets(pets, st.criteria)|)
  {
  }

  /** `k` presses in a row. */
  function LoadMoreTimes(st: HomeState, k: nat): HomeState
  {
    if k == 0 then st else LoadMore(LoadMoreTimes(st, k - 1))
  }

  /** After `k` presses since the last reset the window holds `6 (k + 1)` records,
      so `ceil(n / 6) - 1` presses show all `n` filtered records and the button goes. */
  lemma {:induction false} LoadMoreTimesWindow(pets: seq<Pet>, c: Criteria, k: nat)
    ensures LoadMoreTimes(HomeState(c, Batch), k) == HomeState(c, Batch * (k + 1))
    ensures Batch * (k + 1) >= |FilteredPets(pets, c)| ==>
              VisiblePets(pets, LoadMoreTimes(HomeState(c, Batch), k)) == FilteredPets(pets, c)
              && !ShowLoadMore(pets, LoadMoreTimes(HomeState(c, Batch), k))
  {
    if k > 0 {
      LoadMoreTimesWindow(pets, c, k - 1);
    }
    var filtered := FilteredPets(pets, c);
    assert filtered[..|filtered|] == filtered;
  }
}
