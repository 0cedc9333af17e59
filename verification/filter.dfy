/** The conjunctive filter the management list and the home page apply to the cached
    records: species, gender, and a case-insensitive substring of the name. */
module PetFilter {
  import opened Pets
  import Seqs
  import JsText

  /** The select value that disables the species or the gender filter. */
  const All: string := "Todos"

  /** The three filter inputs of a listing page. */
  datatype Criteria = Criteria(species: string, gender: string, search: string)

  /** The inputs a page starts with: both selects on `'Todos'`, empty search. */
  const NoFilter: Criteria := Criteria(All, All, "")

  /** `filterType === 'Todos' ? true : pet.type === filterType`. */
  predicate PassesSpecies(p: Pet, species: string)
  {
    species == All || p.species == species
  }

  /** `filterGender === 'Todos' ? true : pet.gender === filterGender`. */
  predicate PassesGender(p: Pet, gender: string)
  {
    gender == All || p.gender == gender
  }

  /** `pet.name.toLowerCase().includes(search.toLowerCase())`. */
  predicate PassesName(p: Pet, search: string)
  {
    JsText.Includes(JsText.Lower(p.name), JsText.Lower(search))
  }

  /** All three predicates at once. */
  predicate Matches(p: Pet, c: Criteria)
  {
    PassesSpecies(p, c.species) && PassesGender(p, c.gender) && PassesName(p, c.search)
  }

  /** `filteredPets`: the cached records that pass all three predicates. */
  function FilteredPets(pets: seq<Pet>, c: Criteria): (r: seq<Pet>)
    ensures |r| <= |pets|
    ensures forall p :: p in r <==> p in pets && Matches(p, c)
    ensures forall i :: 0 <= i < |r| ==> Matches(r[i], c)
  {
    Seqs.Where(pets, (p: Pet) => Matches(p, c))
  }

  /** The filter keeps the cache's order: it distributes over any split of the cache.
      An instance of `Seqs.WhereConcat`. */
  lemma FilterKeepsOrder(a: seq<Pet>, b: seq<Pet>, c: Criteria)
    ensures FilteredPets(a + b, c) == FilteredPets(a, c) + FilteredPets(b, c)
  {
    Seqs.WhereConcat(a, b, (p: Pet) => Matches(p, c));
  }

  /** A matching record appears in the output exactly as often as in the cache, a
      non-matching one never. An instance of `Seqs.WhereMultiplicity`. */
  lemma FilterMultiplicity(pets: seq<Pet>, c: Criteria, p: Pet)
    ensures multiset(FilteredPets(pets, c))[p] == if Matches(p, c) then multiset(pets)[p] else 0
  {
    Seqs.WhereMultiplicity(pets, (q: Pet) => Matches(q, c), p);
  }

  /** Filtering the filtered list again changes nothing. An instance of
      `Seqs.WhereIdempotent`. */
  lemma FilterIdempotent(pets: seq<Pet>, c: Criteria)
    ensures FilteredPets(FilteredPets(pets, c), c) == FilteredPets(pets, c)
  {
    Seqs.WhereIdempotent(pets, (p: Pet) => Matches(p, c));
  }

  /** `'Todos'`, `'Todos'` and the empty search pass every record. An instance
      of `Seqs.WhereAll`, with `JsText.IncludesEmpty` for the empty search. */
  lemma NoFilterKeepsAll(pets: seq<Pet>)
    ensures FilteredPets(pets, NoFilter) == pets
  {
    forall i | 0 <= i < |pets|
      ensures Matches(pets[i], NoFilter)
    {
      JsText.IncludesEmpty(JsText.Lower(pets[i].name));
    }
    Seqs.WhereAll(pets, (p: Pet) => Matches(p, NoFilter));
  }

  /** The name match ignores the case of the search text. An instance of
      `JsText.LowerIdempotent`. */
  lemma SearchIgnoresCase(p: Pet, search: string)
    ensures PassesName(p, search) == PassesName(p, JsText.Lower(search))
  {
    JsText.LowerIdempotent(search);
  }

  /** A record passes the name filter exactly when the lower-cased search text occurs
      somewhere in its lower-cased name. An instance of `JsText.IncludesAt`. */
  lemma NameMatchIsSubstring(p: Pet, search: string)
    ensures PassesName(p, search) <==>
              exists i :: JsText.OccursAt(JsText.Lower(p.name), JsText.Lower(search), i)
  {
    JsText.IncludesAt(JsText.Lower(p.name), JsText.Lower(search));
  }
}
