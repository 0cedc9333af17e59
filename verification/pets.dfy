/** Optional values and the outcome of a remote call to the pet collection. */
module Outcomes {

  datatype Option<T> = None | Some(value: T)

  /** How a request to the remote store failed: no HTTP response at all (a transport
      error) or an HTTP error status. */
  datatype Status = NoResponse | HttpStatus(code: int)

  /** What a remote call resolved to: the response body, or the failure. */
  datatype Response<T> = Ok(data: T) | Failed(status: Status)
}

/** The pet record, its identifier, its age as the application sees it, and the
    age-derived classification. */
module Pets {
  import JsText

  /** A record identifier as JavaScript holds it: the remote store issues strings,
      but nothing stops a number from reaching the same slot. Dafny's equality on
      this type is JavaScript's strict equality `===`. */
  datatype Id = StrId(s: string) | NumId(n: nat)

  /** `String(id)`: the coercion `getPet` compares ids under. */
  function IdString(id: Id): (r: string)
    ensures id.StrId? ==> r == id.s
    ensures id.NumId? ==> r == JsText.NatToDecimal(id.n)
  {
    match id
    case StrId(s) => s
    case NumId(n) => JsText.NatToDecimal(n)
  }

  /** Strictly equal ids are equal after coercion. */
  lemma StrictEqualityImpliesCoerced(a: Id, b: Id)
    requires a == b
    ensures IdString(a) == IdString(b)
  {
  }

  /** The converse fails: the number 5 and the string "5" are one id to `getPet`
      and two different ids to `===`. */
  lemma CoercionConflatesNumberAndString()
    ensures NumId(5) != StrId("5") && IdString(NumId(5)) == IdString(StrId("5"))
  {
    assert JsText.NatToDecimal(5) == ['5'];
  }

  /** An age value as JavaScript's relational operators see it: the empty string
      (which converts to 0), a value that converts to NaN (non-numeric text, or a
      missing field), or a number. */
  datatype AgeInput = EmptyAge | NotNumeric | Num(value: real)

  /** `age < k` for a numeric literal `k`: the empty string converts to 0, and every
      comparison with NaN is false. */
  predicate LessThan(age: AgeInput, k: real)
  {
    match age
    case EmptyAge => 0.0 < k
    case NotNumeric => false
    case Num(r) => r < k
  }

  /** The age tiers: puppy/kitten, adult, senior. */
  datatype Tier = Cachorro | Adulto | Senior

  /** The label stored in, and displayed from, a record's `classification`. */
  function Label(t: Tier): string
  {
    match t
    case Cachorro => "Cachorro"
    case Adulto => "Adulto"
    case Senior => "Senior"
  }

  /** Distinct tiers have distinct labels. */
  lemma LabelInjective(a: Tier, b: Tier)
    requires Label(a) == Label(b)
    ensures a == b
  {
  }

  /** The tiers in order of age. */
  function Rank(t: Tier): nat
  {
    match t
    case Cachorro => 0
    case Adulto => 1
    case Senior => 2
  }

  /** The classification `createPet` and `updatePet` attach to every write:
      `age < 1 ? 'Cachorro' : age < 7 ? 'Adulto' : 'Senior'`. Defined for every age
      value, including the empty and the non-numeric one. */
  function Classify(age: AgeInput): (t: Tier)
    ensures age.Num? ==> (t == Cachorro <==> age.value < 1.0)
    ensures age.Num? ==> (t == Adulto <==> 1.0 <= age.value < 7.0)
    ensures age.Num? ==> (t == Senior <==> 7.0 <= age.value)
    ensures age == EmptyAge ==> t == Cachorro
    ensures age == NotNumeric ==> t == Senior
  {
    if LessThan(age, 1.0) then Cachorro
    else if LessThan(age, 7.0) then Adulto
    else Senior
  }

  /** An older animal never lands in a younger tier. */
  lemma ClassifyMonotone(a: real, b: real)
    requires a <= b
    ensures Rank(Classify(Num(a))) <= Rank(Classify(Num(b)))
  {
  }

  /** The empty age is classified as age 0 is. */
  lemma ClassifyEmptyAsZero()
    ensures Classify(EmptyAge) == Classify(Num(0.0))
  {
  }

  /** The tier boundaries at sample ages. */
  lemma ClassifySamples()
    ensures Classify(Num(0.0)) == Cachorro && Classify(Num(0.5)) == Cachorro
    ensures Classify(Num(1.0)) == Adulto && Classify(Num(6.9)) == Adulto
    ensures Classify(Num(7.0)) == Senior
  {
  }

  /** A record of the remote pet collection. An absent or falsy `classification`
      is the empty string. */
  datatype Pet = Pet(id: Id, name: string, species: string, gender: string, age: AgeInput,
                     photo: string, description: string, classification: string)

  /** The writable fields a form hands to the store. */
  datatype PetData = PetData(name: string, species: string, gender: string, age: AgeInput,
                             photo: string, description: string)

  /** The body of a POST or PUT: the fields plus the computed classification. */
  datatype Request = Request(data: PetData, classification: string)

  /** The ids of a sequence of records, in order. */
  function Ids(pets: seq<Pet>): (r: seq<Id>)
    ensures |r| == |pets|
    ensures forall i :: 0 <= i < |pets| ==> r[i] == pets[i].id
  {
    seq(|pets|, i requires 0 <= i < |pets| => pets[i].id)
  }
}
