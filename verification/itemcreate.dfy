/** The create page: a blank form, re-validated on every text edit, submitted to the
    store only when validation finds nothing. */
module ItemCreate {
  import opened Outcomes
  import opened Pets
  import opened PetForm
  import PetStore
  import JsText

  /** The page's state: the form and the error map on display. */
  datatype CreatePage = CreatePage(form: Form, errors: map<Field, Problem>)

  /** The page as it mounts. */
  const Initial: CreatePage := CreatePage(Blank, map[])

  /** `handleChange`: a photo event stores the first chosen file, or clears the photo
      when none was chosen, and leaves the errors as they were; every other event
      stores the (sanitised) value and re-validates the updated form. */
  function HandleChange(page: CreatePage, input: Input): (r: CreatePage)
    ensures input.PhotoChosen? && |input.files| > 0 ==>
              r == page.(form := page.form.(photo := PhotoFile(input.files[0])))
    ensures input.PhotoChosen? && |input.files| == 0 ==>
              r == page.(form := page.form.(photo := PhotoText("")))
    ensures !input.PhotoChosen? ==> r.form == ApplyText(page.form, input) && r.errors == Validate(r.form)
  {
    match input
    case PhotoChosen(files, _) =>
      if |files| > 0 then page.(form := page.form.(photo := PhotoFile(files[0])))
      else page.(form := page.form.(photo := PhotoText("")))
    case _ =>
      var updated := ApplyText(page.form, input);
      CreatePage(updated, Validate(updated))
  }

  /** What one submit leads to: the page, the store, the body sent (if any) and
      whether the page navigated back to the list. */
  datatype Submission = Submission(page: CreatePage, store: PetStore.Store, sent: Option<Request>, navigated: bool)

  /** `handleSubmit`: validation runs on the current form and its map is displayed;
      with any error nothing is sent. Otherwise the form, its photo read to a data
      URL when it is a file, is handed to `createPet` and the page navigates to the
      list whether or not the store's request succeeded. */
  function Submit(page: CreatePage, st: PetStore.Store, dataUrl: string, response: Response<Pet>): (r: Submission)
    ensures r.page.form == page.form && r.page.errors == Validate(page.form)
    ensures r.sent.Some? <==> Valid(page.form)
    ensures r.navigated <==> Valid(page.form)
    ensures !Valid(page.form) ==> r.store == st
    ensures Valid(page.form) ==>
              r.sent == Some(PetStore.WriteRequest(ToData(page.form, dataUrl)))
              && r.store == PetStore.CreatePet(st, ToData(page.form, dataUrl), response).store
  {
    NoErrorsIffValid(page.form);
    var errors := Validate(page.form);
    if errors != map[] then Submission(page.(errors := errors), st, None, false)
    else
      var write := PetStore.CreatePet(st, ToData(page.form, dataUrl), response);
      Submission(page.(errors := errors), write.store, Some(write.sent), true)
  }

  /** Once the displayed errors are those of the form shown, every later edit keeps
      them so: a text edit re-validates, and a photo event, which keeps the old map,
      changes no field that validation reads. */
  lemma ErrorsStayInSync(page: CreatePage, input: Input)
    requires page.errors == Validate(page.form)
    ensures HandleChange(page, input).errors == Validate(HandleChange(page, input).form)
  {
    if input.PhotoChosen? {
      PhotoNotValidated(page.form, HandleChange(page, input).form.photo);
    }
  }

  /** A submitted text photo reaches the store unchanged (on this page only ever the
      empty string), and a chosen file is replaced by its data URL; the age's tier
      goes with it. */
  lemma SubmittedPhotoAndTier(page: CreatePage, st: PetStore.Store, dataUrl: string, response: Response<Pet>)
    requires Valid(page.form)
    ensures var sent := Submit(page, st, dataUrl, response).sent.value;
            && (page.form.photo.PhotoText? ==> sent.data.photo == page.form.photo.text)
            && (page.form.photo.PhotoFile? ==> sent.data.photo == dataUrl)
            && sent.classification == Label(Classify(page.form.age))
  {
  }

  /** A sent body always carries a number between 0 and the species' cap, so its
      classification is one of the three tiers of that number. */
  lemma SentAgeInRange(page: CreatePage, st: PetStore.Store, dataUrl: string, response: Response<Pet>)
    requires Submit(page, st, dataUrl, response).sent.Some?
    ensures var sent := Submit(page, st, dataUrl, response).sent.value;
            && sent.data.age.Num? && sent.data.age.value >= 0.0
            && (page.form.species == "Perro" ==> sent.data.age.value <= 20.0)
            && (page.form.species == "Gato" ==> sent.data.age.value <= 25.0)
  {
  }

  /** On success the created record heads the cache and a lookup of its id finds it. */
  lemma CreatedRecordListedFirst(page: CreatePage, st: PetStore.Store, dataUrl: string, created: Pet)
    requires Valid(page.form)
    ensures var r := Submit(page, st, dataUrl, Ok(created));
            && r.store.pets == [created] + st.pets
            && PetStore.CacheFind(r.store.pets, created.id) == Some(created)
  {
  }

  /** The blank form cannot be submitted: nothing is sent, the page stays, and the
      errors shown are those of the blank form (see `BlankErrors`). */
  lemma BlankFormBlocked(st: PetStore.Store, dataUrl: string, response: Response<Pet>)
    ensures var r := Submit(Initial, st, dataUrl, response);
            r.sent == None && !r.navigated && r.store == st && r.page.errors == Validate(Blank)
  {
    assert !Valid(Blank) by {
      assert Blank.species == "";
    }
  }

  /** Validation of the blank form flags every field. */
  lemma BlankErrors()
    ensures var errors := Validate(Blank);
            && NameField in errors && TypeField in errors && GenderField in errors && AgeField in errors
            && errors[AgeField] == AgeRequired
  {
    assert JsText.TrimStart(Blank.name) == "";
    assert BlankName(Blank.name);
  }
}
