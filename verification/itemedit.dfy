/** The edit page: the record is looked up by the route's id (always a string), shown
    in the shared form, and saved through the store's update. */
module ItemEdit {
  import opened Outcomes
  import opened Pets
  import opened PetForm
  import PetStore

  /** The form a record opens with: its own fields, its photo as text. */
  function FormOf(p: Pet): (f: Form)
    ensures f.name == p.name && f.species == p.species && f.gender == p.gender
    ensures f.age == p.age && f.description == p.description
    ensures f.photo == PhotoText(p.photo)
  {
    Form(p.name, p.species, p.gender, p.age, PhotoText(p.photo), p.description)
  }

  /** The editing state: route id, form, displayed errors, the saving flag and the
      page-level error text. */
  datatype EditPage = EditPage(routeId: string, form: Form, errors: map<Field, Problem>,
                               saving: bool, error: string)

  /** What the page renders once the lookup has settled. */
  datatype EditView = LoadFailed(message: string) | NotFound | Editing(page: EditPage)

  /** The text shown when a rejection carries no message of its own. */
  const LoadFallback: string := "No se pudo cargar la mascota. Intenta más tarde."

  /** The effect on mount: `getPet(id)`; a rejection shows its message (or the fallback),
      `undefined` shows "not found", a record opens the form with no errors. */
  function Open(st: PetStore.Store, routeId: string, response: Response<Pet>): (r: PetStore.Step<EditView>)
    ensures r.store == PetStore.GetPet(st, StrId(routeId), response).store
    ensures var lookup := PetStore.GetPet(st, StrId(routeId), response).result;
            && (lookup.Rejected? ==> r.result == LoadFailed(lookup.message) && lookup.message != "")
            && (lookup.Undefined? ==> r.result == NotFound)
            && (lookup.Resolved? ==> r.result == Editing(EditPage(routeId, FormOf(lookup.pet), map[], false, "")))
  {
    var step := PetStore.GetPet(st, StrId(routeId), response);
    var view :=
      match step.result
      case Rejected(message) => LoadFailed(if message != "" then message else LoadFallback)
      case Undefined => NotFound
      case Resolved(p) => Editing(EditPage(routeId, FormOf(p), map[], false, ""));
    PetStore.Step(step.store, view)
  }

  /** The route's id finds a cached record whose numeric id renders as it, so a
      number-keyed cache still opens the editor without a request. */
  lemma OpenFindsNumericId(st: PetStore.Store, n: nat, response: Response<Pet>)
    requires exists i :: 0 <= i < |st.pets| && st.pets[i].id == NumId(n)
    ensures Open(st, JsText.NatToDecimal(n), response).result.Editing?
    ensures Open(st, JsText.NatToDecimal(n), response).store == st
  {
    var i :| 0 <= i < |st.pets| && st.pets[i].id == NumId(n);
    assert PetStore.SameIdString(st.pets[i], StrId(JsText.NatToDecimal(n)));
  }

  /** Only a 429 makes the page show an error; every other failed lookup shows
      "not found". */
  lemma LoadFailsOnlyOnRateLimit(st: PetStore.Store, routeId: string, status: Status)
    requires PetStore.CacheFind(st.pets, StrId(routeId)).None?
    ensures Open(st, routeId, Failed(status)).result.LoadFailed? <==> status == HttpStatus(429)
    ensures Open(st, routeId, Failed(status)).result.LoadFailed? ==>
              Open(st, routeId, Failed(status)).result.message == PetStore.RateLimitMessage
  {
  }

  /** `handleChange`: a photo event with a file stores it and leaves the errors;
      a photo event without one stores the input's value as text, and every other
      event stores its value, both then re-validating. */
  function HandleChange(page: EditPage, input: Input): (r: EditPage)
    ensures r.routeId == page.routeId && r.saving == page.saving && r.error == page.error
    ensures input.PhotoChosen? && |input.files| > 0 ==>
              r == page.(form := page.form.(photo := PhotoFile(input.files[0])))
    ensures input.PhotoChosen? && |input.files| == 0 ==>
              r.form == page.form.(photo := PhotoText(input.value)) && r.errors == Validate(r.form)
    ensures !input.PhotoChosen? ==> r.form == ApplyText(page.form, input) && r.errors == Validate(r.form)
  {
    match input
    case PhotoChosen(files, value) =>
      if |files| > 0 then page.(form := page.form.(photo := PhotoFile(files[0])))
      else
        var updated := page.form.(photo := PhotoText(value));
        page.(form := updated, errors := Validate(updated))
    case _ =>
      var updated := ApplyText(page.form, input);
      page.(form := updated, errors := Validate(updated))
  }

  /** What one save leads to: the page, the store, the body put to the server (if
      any), and the route navigated to (if any). */
  datatype Save = Save(page: EditPage, store: PetStore.Store, sent: Option<Request>, navigated: Option<string>)

  /** `handleSubmit`: validation runs and its map is displayed; with any error the page
      stops saving and sends nothing. Otherwise the form, its photo read to a data URL
      when it is a file and passed through when it is text, goes to `updatePet(id, ...)`
      with the route's string id, and the page navigates to the record's detail route.
      The store never throws, so the page's save error stays empty. */
  function Submit(page: EditPage, st: PetStore.Store, dataUrl: string, response: Response<Pet>): (r: Save)
    ensures r.page.form == page.form && r.page.routeId == page.routeId
    ensures r.page.errors == Validate(page.form)
    ensures !r.page.saving && r.page.error == ""
    ensures r.sent.Some? <==> Valid(page.form)
    ensures r.navigated.Some? <==> Valid(page.form)
    ensures !Valid(page.form) ==> r.store == st
    ensures Valid(page.form) ==>
              r.sent == Some(PetStore.WriteRequest(ToData(page.form, dataUrl)))
              && r.navigated == Some("/items/" + page.routeId)
              && r.store == PetStore.UpdatePet(st, StrId(page.routeId), ToData(page.form, dataUrl), response).store
  {
    NoErrorsIffValid(page.form);
    var errors := Validate(page.form);
    if errors != map[] then Save(page.(errors := errors, saving := false, error := ""), st, None, None)
    else
      var write := PetStore.UpdatePet(st, StrId(page.routeId), ToData(page.form, dataUrl), response);
      Save(page.(errors := errors, saving := false, error := ""), write.store, Some(write.sent),
           Some("/items/" + page.routeId))
  }

  /** A save never patches a cached record whose id is a number: the update compares
      ids strictly and the route's id is a string. Such records keep their old fields. */
  lemma SaveSkipsNumericIds(page: EditPage, st: PetStore.Store, dataUrl: string, response: Response<Pet>)
    ensures var after := Submit(page, st, dataUrl, response).store.pets;
            |after| == |st.pets|
            && forall i :: 0 <= i < |st.pets| && st.pets[i].id.NumId? ==> after[i] == st.pets[i]
  {
  }

  /** A successful save replaces, in place, every cached record keyed by the route's
      string id with the server's record. */
  lemma SavePatchesStringIds(page: EditPage, st: PetStore.Store, dataUrl: string, saved: Pet, i: nat)
    requires Valid(page.form)
    requires i < |st.pets| && st.pets[i].id == StrId(page.routeId)
    ensures Submit(page, st, dataUrl, Ok(saved)).store.pets[i] == saved
  {
  }

  /** The same save after a failed response: the cache is untouched, the failure
      recorded, and the page still leaves for the detail route. */
  lemma FailedSaveStillNavigates(page: EditPage, st: PetStore.Store, dataUrl: string, status: Status)
    requires Valid(page.form)
    ensures var r := Submit(page, st, dataUrl, Failed(status));
            && r.store.pets == st.pets
            && r.store.error == Some(status)
            && r.navigated == Some("/items/" + page.routeId)
            && r.page.error == ""
  {
  }

  /** A saved text photo reaches the server unchanged (the record's own URL, or
      the empty string), and a chosen file is replaced by its data URL; the
      age's tier goes with it. */
  lemma SavedPhotoAndTier(page: EditPage, st: PetStore.Store, dataUrl: string, response: Response<Pet>)
    requires Valid(page.form)
    ensures var sent := Submit(page, st, dataUrl, response).sent.value;
            && (page.form.photo.PhotoText? ==> sent.data.photo == page.form.photo.text)
            && (page.form.photo.PhotoFile? ==> sent.data.photo == dataUrl)
            && sent.classification == Label(Classify(page.form.age))
  {
  }

  /** A saved body always carries a number between 0 and the species' cap. */
  lemma SavedAgeInRange(page: EditPage, st: PetStore.Store, dataUrl: string, response: Response<Pet>)
    requires Submit(page, st, dataUrl, response).sent.Some?
    ensures var sent := Submit(page, st, dataUrl, response).sent.value;
            && sent.data.age.Num? && sent.data.age.value >= 0.0
            && (page.form.species == "Perro" ==> sent.data.age.value <= 20.0)
            && (page.form.species == "Gato" ==> sent.data.age.value <= 25.0)
  {
  }

  /** Opening a record and saving it unchanged puts the record's own fields back, its
      photo text included, with the tier of its age; a record that fails validation
      sends nothing. */
  lemma ReopenedRecordRoundTrip(p: Pet, st: PetStore.Store, dataUrl: string, response: Response<Pet>)
    ensures var page := EditPage(IdString(p.id), FormOf(p), map[], true, "");
            var sent := Submit(page, st, dataUrl, response).sent;
            && (Valid(FormOf(p)) ==>
                  sent == Some(Request(PetData(p.name, p.species, p.gender, p.age, p.photo, p.description),
                                       Label(Classify(p.age)))))
            && (!Valid(FormOf(p)) ==> sent == None)
  {
  }
}
