/** The card that displays one record: its classification badge and its favourite
    heart. */
module PetCard {
  import opened Outcomes
  import opened Pets
  import PetStore
  import Seqs

  /** The card's own `getClassification(age)`: `if (age < 1) return 'Cachorro';
      if (age < 7) return 'Adulto'; return 'Senior'`. */
  function GetClassification(age: AgeInput): (t: Tier)
    ensures age.Num? && age.value < 1.0 ==> t == Cachorro
    ensures age.Num? && 1.0 <= age.value < 7.0 ==> t == Adulto
    ensures age.Num? && 7.0 <= age.value ==> t == Senior
  {
    if LessThan(age, 1.0) then Cachorro
    else if LessThan(age, 7.0) then Adulto
    else Senior
  }

  /** The card derives, for every age value, the label a write attaches. */
  lemma CardAgreesWithWrites(data: PetData)
    ensures Label(GetClassification(data.age)) == PetStore.WriteRequest(data).classification
  {
  }

  /** `pet.classification || getClassification(pet.age)`: the stored label when
      there is one, the derived label otherwise. */
  function DisplayedClassification(p: Pet): (r: string)
    ensures p.classification != "" ==> r == p.classification
    ensures p.classification == "" ==> r in {"Cachorro", "Adulto", "Senior"}
    ensures p.classification == "" && p.age.Num? && p.age.value < 1.0 ==> r == "Cachorro"
    ensures p.classification == "" && p.age.Num? && 1.0 <= p.age.value < 7.0 ==> r == "Adulto"
    ensures p.classification == "" && p.age.Num? && 7.0 <= p.age.value ==> r == "Senior"
  {
    if p.classification != "" then p.classification else Label(GetClassification(p.age))
  }

  /** A record stored as it was written shows the tier of its age, stored or not. */
  lemma WrittenRecordShowsItsTier(p: Pet, data: PetData)
    requires p.age == data.age
    requires p.classification == PetStore.WriteRequest(data).classification
    ensures DisplayedClassification(p) == Label(Classify(p.age))
    ensures DisplayedClassification(p.(classification := "")) == DisplayedClassification(p)
  {
  }

  /** `favorites.includes(pet.id)`. */
  predicate IsFav(p: Pet, favorites: seq<Id>)
  {
    p.id in favorites
  }

  /** The heart flips with every press, and every other card's heart stays. */
  lemma HeartFlipsOnToggle(st: PetStore.Store, p: Pet, q: Pet)
    requires q.id != p.id
    ensures IsFav(p, PetStore.ToggleFavorite(st, p.id).store.favorites) <==> !IsFav(p, st.favorites)
    ensures IsFav(q, PetStore.ToggleFavorite(st, p.id).store.favorites) <==> IsFav(q, st.favorites)
  {
  }

  /** The card's delete button: once confirmed, `deletePet(pet.id)`. */
  function CardDelete(st: PetStore.Store, p: Pet, confirmed: bool, response: Response<()>): (r: PetStore.Store)
    ensures !confirmed ==> r == st
    ensures confirmed ==> r == PetStore.DeletePet(st, p.id, response)
    ensures confirmed && response.Ok? ==> forall q :: q in r.pets <==> q in st.pets && q.id != p.id
    ensures confirmed && response.Ok? ==> r.pets == PetStore.WithoutId(st.pets, p.id)
    ensures confirmed && response.Failed? ==> r.pets == st.pets && r.error == Some(response.status)
    ensures r.favorites == st.favorites
  {
    if confirmed then PetStore.DeletePet(st, p.id, response) else st
  }
}
