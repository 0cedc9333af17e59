/** The favourites page: the cached records whose id is a favourite, filtered by
    gender and name (there is no species filter here). */
module Favorites {
  import opened Pets
  import opened PetFilter
  import PetStore
  import Seqs

  /** `favorites.includes(p.id) && gender filter && name filter`. */
  predicate Shown(p: Pet, favorites: seq<Id>, gender: string, search: string)
  {
    p.id in favorites && PassesGender(p, gender) && PassesName(p, search)
  }

  /** `favoritePets`: walks the cache, not the favourites list. */
  function FavoritePets(pets: seq<Pet>, favorites: seq<Id>, gender: string, search: string): (r: seq<Pet>)
    ensures forall p :: p in r <==>
              p in pets && p.id in favorites && PassesGender(p, gender) && PassesName(p, search)
  {
    Seqs.Where(pets, (p: Pet) => Shown(p, favorites, gender, search))
  }

  /** The page is the list pipeline with the species filter off, restricted to the
      favourites. */
  lemma FavoritesAreRestrictedListFilter(pets: seq<Pet>, favorites: seq<Id>, gender: string, search: string)
    ensures FavoritePets(pets, favorites, gender, search)
            == Seqs.Where(FilteredPets(pets, Criteria(All, gender, search)), (p: Pet) => p.id in favorites)
  {
    var c := Criteria(All, gender, search);
    Seqs.WhereFusion(pets, (p: Pet) => Matches(p, c), (p: Pet) => p.id in favorites,
                     (p: Pet) => Shown(p, favorites, gender, search));
  }

  /** Favourite ids that no cached record carries add nothing and break nothing.
      An instance of `Seqs.WhereCongruent`. */
  lemma StaleFavoritesIgnored(pets: seq<Pet>, favorites: seq<Id>, stale: seq<Id>, gender: string, search: string)
    requires forall i :: 0 <= i < |pets| ==> pets[i].id !in stale
    ensures FavoritePets(pets, favorites + stale, gender, search) == FavoritePets(pets, favorites, gender, search)
  {
    Seqs.WhereCongruent(pets, (p: Pet) => Shown(p, favorites + stale, gender, search),
                        (p: Pet) => Shown(p, favorites, gender, search));
  }

  /** The output follows the cache's order: the order of the favourites list (or any
      other list with the same ids) makes no difference. An instance of `Seqs.WhereCongruent`. */
  lemma FavoritesOrderIrrelevant(pets: seq<Pet>, f1: seq<Id>, f2: seq<Id>, gender: string, search: string)
    requires forall x :: x in f1 <==> x in f2
    ensures FavoritePets(pets, f1, gender, search) == FavoritePets(pets, f2, gender, search)
  {
    Seqs.WhereCongruent(pets, (p: Pet) => Shown(p, f1, gender, search),
                        (p: Pet) => Shown(p, f2, gender, search));
  }

  /** The output distributes over any split of the cache. An instance of
      `Seqs.WhereConcat`. */
  lemma FavoritesKeepCacheOrder(a: seq<Pet>, b: seq<Pet>, favorites: seq<Id>, gender: string, search: string)
    ensures FavoritePets(a + b, favorites, gender, search)
            == FavoritePets(a, favorites, gender, search) + FavoritePets(b, favorites, gender, search)
  {
    Seqs.WhereConcat(a, b, (p: Pet) => Shown(p, favorites, gender, search));
  }

  /** `handleClearFavorites`: the stored key is removed and the page reloads. */
  function ClearFavorites(): (stored: PetStore.Stored)
    ensures PetStore.LoadFavorites(stored) == []
  {
    PetStore.Absent
  }

  /** After clearing and reloading, the page shows nothing. An instance of
      `Seqs.WhereNone`. */
  lemma ClearedShowsNothing(pets: seq<Pet>, gender: string, search: string)
    ensures FavoritePets(pets, PetStore.LoadFavorites(ClearFavorites()), gender, search) == []
  {
    Seqs.WhereNone(pets, (p: Pet) => Shown(p, [], gender, search));
  }
}
