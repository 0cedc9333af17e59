/** The shared provider of the application: the in-memory cache of the remote pet
    collection, the shared error slot and the favourites list persisted in browser
    storage. Every remote call is an input (its response), so each operation is a
    pure function from the old state to the new one. */
module PetStore {
  import opened Outcomes
  import opened Pets
  import Seqs

  /** The provider's state: the cached records, the last error, the favourites. */
  datatype Store = Store(pets: seq<Pet>, error: Option<Status>, favorites: seq<Id>)

  /** An operation's new state together with what it returned to its caller. */
  datatype Step<T> = Step(store: Store, result: T)

  /** A write's new state, what it returned, and the body it sent to the server. */
  datatype Write = Write(store: Store, result: Option<Pet>, sent: Request)

  /** What the browser's storage holds under the favourites key, as `JSON.parse` sees
      it: nothing stored, text that is not JSON, a falsy JSON value (`null`, `false`,
      `0`, `""`), or a JSON array of ids. */
  datatype Stored = Absent | Unparseable | FalsyJson | IdList(ids: seq<Id>)

  /** The initial favourites: `JSON.parse(stored) || []`, and `[]` when parsing
      throws. Never fails. */
  function LoadFavorites(stored: Stored): (r: seq<Id>)
    ensures stored.IdList? ==> r == stored.ids
    ensures !stored.IdList? ==> r == []
  {
    match stored
    case IdList(ids) => ids
    case _ => []
  }

  /** The provider before the first fetch. */
  function Initial(stored: Stored): (st: Store)
    ensures st.pets == [] && st.error == None
    ensures st.favorites == LoadFavorites(stored)
  {
    Store([], None, LoadFavorites(stored))
  }

  /** `toggleFavorite(id)`: flips the id's membership and writes the whole new list to
      storage; the step's result is the value written. */
  function ToggleFavorite(st: Store, id: Id): (r: Step<Stored>)
    ensures r.store.pets == st.pets && r.store.error == st.error
    ensures id in r.store.favorites <==> id !in st.favorites
    ensures forall other :: other != id ==> (other in r.store.favorites <==> other in st.favorites)
    ensures id !in st.favorites ==> r.store.favorites == st.favorites + [id]
    ensures id in st.favorites ==> r.store.favorites == Seqs.RemoveAll(st.favorites, id)
    ensures r.result == IdList(r.store.favorites)
  {
    var updated := Seqs.Toggle(st.favorites, id);
    Step(st.(favorites := updated), IdList(updated))
  }

  /** What a toggle persists is what a reload reads back. */
  lemma ToggleSurvivesReload(st: Store, id: Id)
    ensures LoadFavorites(ToggleFavorite(st, id).result) == ToggleFavorite(st, id).store.favorites
  {
  }

  /** Toggling the same id twice restores the favourites' membership, and restores the
      very list when the id was not a favourite. */
  lemma ToggleFavoriteTwice(st: Store, id: Id)
    ensures var twice := ToggleFavorite(ToggleFavorite(st, id).store, id).store.favorites;
            (forall x :: x in twice <==> x in st.favorites)
            && (id !in st.favorites ==> twice == st.favorites)
  {
    Seqs.ToggleTwiceMembership(st.favorites, id);
    if id !in st.favorites {
      Seqs.ToggleTwiceAbsent(st.favorites, id);
    }
  }

  /** `fetchPets`: on success the response replaces the cache; on failure the cache is
      kept and the error is recorded. */
  function FetchPets(st: Store, response: Response<seq<Pet>>): (r: Store)
    ensures r.favorites == st.favorites
    ensures response.Ok? ==> r.pets == response.data && r.error == st.error
    ensures response.Failed? ==> r.pets == st.pets && r.error == Some(response.status)
  {
    match response
    case Ok(data) => st.(pets := data)
    case Failed(status) => st.(error := Some(status))
  }

  /** After a successful fetch every fetched record is served from the cache: `getPet`
      of its id resolves, whatever the remote would answer, leaves the store as it is,
      and finds the record itself when no earlier record's id renders the same. */
  lemma FetchedRecordsServedFromCache(st: Store, data: seq<Pet>, i: nat, response: Response<Pet>)
    requires i < |data|
    ensures var fetched := FetchPets(st, Ok(data));
            var lookup := GetPet(fetched, data[i].id, response);
            && lookup.store == fetched
            && lookup.result.Resolved?
            && SameIdString(lookup.result.pet, data[i].id)
            && ((forall j :: 0 <= j < i ==> !SameIdString(data[j], data[i].id)) ==> lookup.result.pet == data[i])
  {
    assert SameIdString(data[i], data[i].id);
    var k := FindIndex(data, data[i].id);
    assert k <= i;
  }

  /** A failed fetch changes no lookup's answer: the cache it consults is the old one. */
  lemma FailedFetchKeepsLookups(st: Store, status: Status, id: Id, response: Response<Pet>)
    ensures GetPet(FetchPets(st, Failed(status)), id, response).result == GetPet(st, id, response).result
  {
  }

  /** `String(a.id) === String(id)`. */
  predicate SameIdString(p: Pet, id: Id)
  {
    IdString(p.id) == IdString(id)
  }

  /** The position `pets.find(p => String(p.id) === String(id))` stops at: the first
      match, or `|pets|` when there is none. */
  function FindIndex(pets: seq<Pet>, id: Id): (k: nat)
    ensures k <= |pets|
    ensures forall i :: 0 <= i < k ==> !SameIdString(pets[i], id)
    ensures k < |pets| ==> SameIdString(pets[k], id)
  {
    if |pets| == 0 then 0
    else if SameIdString(pets[0], id) then 0
    else 1 + FindIndex(pets[1..], id)
  }

  /** `pets.find(p => String(p.id) === String(id))`: the first cached record whose id
      coerces to the same string. */
  function CacheFind(pets: seq<Pet>, id: Id): (r: Option<Pet>)
    ensures r.None? <==> forall i :: 0 <= i < |pets| ==> !SameIdString(pets[i], id)
    ensures r.Some? ==> r.value == pets[FindIndex(pets, id)]
  {
    var k := FindIndex(pets, id);
    if k < |pets| then Some(pets[k]) else None
  }

  /** What `getPet` resolves to: a record, `undefined`, or a rejection with a message. */
  datatype Lookup = Resolved(pet: Pet) | Undefined | Rejected(message: string)

  /** The message `getPet` throws on HTTP 429. */
  const RateLimitMessage: string :=
    "Demasiadas peticiones a la API. Espera unos minutos e intenta de nuevo."

  /** `getPet(id)`: a cache hit resolves without a remote call; otherwise the
      single-record response decides. A failure is recorded in the error slot;
      429 rejects with the rate-limit message and every other failure resolves to
      `undefined`. The fetched record is not added to the cache. */
  function GetPet(st: Store, id: Id, response: Response<Pet>): (r: Step<Lookup>)
    ensures r.store.pets == st.pets && r.store.favorites == st.favorites
    ensures CacheFind(st.pets, id).Some? ==>
              r == Step(st, Resolved(CacheFind(st.pets, id).value))
    ensures CacheFind(st.pets, id).None? && response.Ok? ==>
              r == Step(st, Resolved(response.data))
    ensures CacheFind(st.pets, id).None? && response.Failed? ==>
              r.store.error == Some(response.status)
              && (r.result.Rejected? <==> response.status == HttpStatus(429))
              && (r.result.Rejected? ==> r.result.message == RateLimitMessage)
              && (!r.result.Rejected? ==> r.result == Undefined)
  {
    match CacheFind(st.pets, id)
    case Some(p) => Step(st, Resolved(p))
    case None =>
      match response
      case Ok(data) => Step(st, Resolved(data))
      case Failed(status) =>
        var st' := st.(error := Some(status));
        if status.HttpStatus? && status.code == 429 then Step(st', Rejected(RateLimitMessage))
        else Step(st', Undefined)
  }

  /** A cache hit does not depend on the remote store at all. */
  lemma CacheHitIgnoresRemote(st: Store, id: Id, a: Response<Pet>, b: Response<Pet>)
    requires exists i :: 0 <= i < |st.pets| && SameIdString(st.pets[i], id)
    ensures GetPet(st, id, a) == GetPet(st, id, b)
  {
  }

  /** The body `createPet` and `updatePet` send: the data plus its classification. */
  function WriteRequest(data: PetData): (r: Request)
    ensures r.data == data
    ensures r.classification in {"Cachorro", "Adulto", "Senior"}
    ensures data.age.Num? && data.age.value < 1.0 ==> r.classification == "Cachorro"
    ensures data.age.Num? && 1.0 <= data.age.value < 7.0 ==> r.classification == "Adulto"
    ensures data.age.Num? && 7.0 <= data.age.value ==> r.classification == "Senior"
  {
    Request(data, Label(Classify(data.age)))
  }

  /** `createPet(data)`: the data and its classification are posted; the server's
      record goes to the front of the cache and is returned; a failure leaves the
      cache alone, records the error and returns `undefined`. */
  function CreatePet(st: Store, data: PetData, response: Response<Pet>): (r: Write)
    ensures r.sent.data == data && r.sent.classification == Label(Classify(data.age))
    ensures r.store.favorites == st.favorites
    ensures response.Ok? ==> r.store.pets == [response.data] + st.pets
                             && r.result == Some(response.data) && r.store.error == st.error
    ensures response.Failed? ==> r.store.pets == st.pets && r.result == None
                                 && r.store.error == Some(response.status)
  {
    match response
    case Ok(created) => Write(st.(pets := [created] + st.pets), Some(created), WriteRequest(data))
    case Failed(status) => Write(st.(error := Some(status)), None, WriteRequest(data))
  }

  /** The record just created is what a cache lookup of its id finds. */
  lemma CreatedIsFound(st: Store, data: PetData, created: Pet)
    ensures CacheFind(CreatePet(st, data, Ok(created)).store.pets, created.id) == Some(created)
  {
  }

  /** `p.id === id ? data : p` over the whole cache. */
  function Replace(pets: seq<Pet>, id: Id, updated: Pet): (r: seq<Pet>)
    ensures |r| == |pets|
    ensures forall i :: 0 <= i < |pets| ==> r[i] == if pets[i].id == id then updated else pets[i]
  {
    seq(|pets|, i requires 0 <= i < |pets| => if pets[i].id == id then updated else pets[i])
  }

  /** `updatePet(id, data)`: the data and its classification are put to the record's
      URL; on success every cached record whose id is strictly equal to `id` becomes
      the server's record (order and length kept) and that record is returned; on
      failure the cache is kept, the error recorded, `undefined` returned. */
  function UpdatePet(st: Store, id: Id, data: PetData, response: Response<Pet>): (r: Write)
    ensures r.sent.data == data && r.sent.classification == Label(Classify(data.age))
    ensures r.store.favorites == st.favorites
    ensures response.Ok? ==> r.store.pets == Replace(st.pets, id, response.data)
                             && r.result == Some(response.data) && r.store.error == st.error
    ensures response.Failed? ==> r.store.pets == st.pets && r.result == None
                                 && r.store.error == Some(response.status)
  {
    match response
    case Ok(updated) => Write(st.(pets := Replace(st.pets, id, updated)), Some(updated), WriteRequest(data))
    case Failed(status) => Write(st.(error := Some(status)), None, WriteRequest(data))
  }

  /** When the server keeps the id, an update keeps the cache's ids as they were, and
      every record left with a different id is one that was there before. */
  lemma UpdateKeepsIds(st: Store, id: Id, data: PetData, updated: Pet)
    requires updated.id == id
    ensures Ids(UpdatePet(st, id, data, Ok(updated)).store.pets) == Ids(st.pets)
    ensures forall p :: p in UpdatePet(st, id, data, Ok(updated)).store.pets && p.id != id ==> p in st.pets
    ensures forall p :: p in st.pets && p.id != id ==> p in UpdatePet(st, id, data, Ok(updated)).store.pets
  {
    var r := UpdatePet(st, id, data, Ok(updated)).store.pets;
    forall p | p in st.pets && p.id != id
      ensures p in r
    {
      var i :| 0 <= i < |st.pets| && st.pets[i] == p;
      assert r[i] == p;
    }
  }

  /** Repeating a successful update changes nothing more. */
  lemma UpdateIdempotent(pets: seq<Pet>, id: Id, updated: Pet)
    ensures Replace(Replace(pets, id, updated), id, updated) == Replace(pets, id, updated)
  {
  }

  /** `p.id !== id` over the whole cache. */
  function WithoutId(pets: seq<Pet>, id: Id): (r: seq<Pet>)
    ensures forall p :: p in r <==> p in pets && p.id != id
  {
    Seqs.Where(pets, (p: Pet) => p.id != id)
  }

  /** `deletePet(id)`: the records with that id leave the cache only once the remote
      delete succeeded, the survivors keeping their order; a failure leaves the cache
      alone and records the error. */
  function DeletePet(st: Store, id: Id, response: Response<()>): (r: Store)
    ensures r.favorites == st.favorites
    ensures response.Ok? ==> r.pets == WithoutId(st.pets, id) && r.error == st.error
    ensures response.Failed? ==> r.pets == st.pets && r.error == Some(response.status)
  {
    match response
    case Ok(_) => st.(pets := WithoutId(st.pets, id))
    case Failed(status) => st.(error := Some(status))
  }

  /** Deleting keeps the relative order of the survivors: it distributes over any
      split of the cache. */
  lemma DeleteKeepsOrder(a: seq<Pet>, b: seq<Pet>, id: Id)
    ensures WithoutId(a + b, id) == WithoutId(a, id) + WithoutId(b, id)
  {
    Seqs.WhereConcat(a, b, (p: Pet) => p.id != id);
  }

  /** Deleting an id that no cached record carries leaves the cache as it was. */
  lemma DeleteAbsentId(pets: seq<Pet>, id: Id)
    requires forall i :: 0 <= i < |pets| ==> pets[i].id != id
    ensures WithoutId(pets, id) == pets
  {
    Seqs.WhereAll(pets, (p: Pet) => p.id != id);
  }

  /** Creating a record with a fresh id and then deleting it restores the cache. */
  lemma CreateThenDelete(st: Store, data: PetData, created: Pet)
    requires forall i :: 0 <= i < |st.pets| ==> st.pets[i].id != created.id
    ensures DeletePet(CreatePet(st, data, Ok(created)).store, created.id, Ok(())).pets == st.pets
  {
    DeleteKeepsOrder([created], st.pets, created.id);
    DeleteAbsentId(st.pets, created.id);
  }
}
