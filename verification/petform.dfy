/** The pet form shared by the create and the edit page: its fields, the per-field
    validation (written out identically in both pages), the age input's parsing and
    the edits a field input makes. */
module PetForm {
  import opened Outcomes
  import opened Pets
  import JsText
  import Seqs

  /** The photo slot: text (an external URL, a data URL, or `''`), or a chosen file
      that has not been read yet. */
  datatype Photo = PhotoText(text: string) | PhotoFile(file: nat)

  /** The form's fields. */
  datatype Form = Form(name: string, species: string, gender: string, age: AgeInput,
                       photo: Photo, description: string)

  /** The create page's `initialState`: every field empty. */
  const Blank: Form := Form("", "", "", EmptyAge, PhotoText(""), "")

  /** The keys of the error map. */
  datatype Field = NameField | TypeField | GenderField | AgeField

  /** Why a field is invalid; `Message` gives the text the page shows. */
  datatype Problem =
    | NameRequired
    | TypeRequired
    | GenderRequired
    | AgeRequired
    | AgeNotNonNegative
    | AgeAboveCap(species: string, cap: nat)

  /** The text shown for a problem. A field message is written as its first three
      characters and the rest, which keeps its fourth character (see `Marks`) in view. */
  function Message(p: Problem): string
  {
    match p
    case NameRequired => "El " + "nombre es obligatorio."
    case TypeRequired => "El " + "tipo es obligatorio."
    case GenderRequired => "El " + "género es obligatorio."
    case AgeRequired => "La " + "edad es obligatoria."
    case AgeNotNonNegative => "La " + "edad debe ser un número mayor o igual a 0."
    case AgeAboveCap(species, cap) =>
      "La edad máxima para un " + JsText.Lower(species) + " es " + JsText.NatToDecimal(cap) + " años."
  }

  /** The problems validation can report: a cap message only ever names a species
      that has a cap, with that cap. */
  predicate Reportable(p: Problem)
  {
    p.AgeAboveCap? ==> MaxAge(p.species) == Some(p.cap)
  }

  /** The cap message for each species that has a cap, spelled out. */
  lemma CapMessage(species: string, cap: nat)
    requires MaxAge(species) == Some(cap)
    ensures species == "Perro" ==>
              Message(AgeAboveCap(species, cap)) == "La edad máxima para un " + "perro" + " es " + "20" + " años."
    ensures species == "Gato" ==>
              Message(AgeAboveCap(species, cap)) == "La edad máxima para un " + "gato" + " es " + "25" + " años."
  {
    if species == "Perro" {
      var l := JsText.Lower(species);
      assert l[0] == 'p' && l[1] == 'e' && l[2] == 'r' && l[3] == 'r' && l[4] == 'o';
      assert l == "perro";
      assert JsText.NatToDecimal(2) == "2";
      assert JsText.NatToDecimal(cap) == "20";
    } else {
      var l := JsText.Lower(species);
      assert l[0] == 'g' && l[1] == 'a' && l[2] == 't' && l[3] == 'o';
      assert l == "gato";
      assert JsText.NatToDecimal(2) == "2";
      assert JsText.NatToDecimal(cap) == "25";
    }
  }

  /** What tells the texts of reportable problems apart: their length, and for the two
      pairs of equal length their fourth character. */
  function Marks(p: Problem): (nat, char)
  {
    match p
    case NameRequired => (25, 'n')
    case TypeRequired => (23, 't')
    case GenderRequired => (25, 'g')
    case AgeRequired => (23, 'e')
    case AgeNotNonNegative => (45, 'e')
    case AgeAboveCap(species, _) => (if species == "Perro" then 40 else 39, 'e')
  }

  /** A message's length and fourth character. */
  function MarksOf(m: string): (nat, char)
  {
    (|m|, if |m| > 3 then m[3] else ' ')
  }

  /** The field messages carry their marks. */
  lemma FieldMessageMarks(p: Problem)
    requires !p.AgeAboveCap?
    ensures MarksOf(Message(p)) == Marks(p)
  {
  }

  /** The cap messages carry their marks. */
  lemma CapMessageMarks(species: string, cap: nat)
    requires MaxAge(species) == Some(cap)
    ensures MarksOf(Message(AgeAboveCap(species, cap))) == Marks(AgeAboveCap(species, cap))
  {
    CapMessage(species, cap);
  }

  /** Every reportable problem's text carries its marks. */
  lemma MessageMarks(p: Problem)
    requires Reportable(p)
    ensures MarksOf(Message(p)) == Marks(p)
  {
    if p.AgeAboveCap? {
      CapMessageMarks(p.species, p.cap);
    } else {
      FieldMessageMarks(p);
    }
  }

  /** No two reportable problems share a text: the message on display tells which
      check failed. */
  lemma MessagesTellProblemsApart(p: Problem, q: Problem)
    requires Reportable(p) && Reportable(q)
    ensures Message(p) == Message(q) <==> p == q
  {
    MessageMarks(p);
    MessageMarks(q);
  }

  /** `MAX_AGE[type]` when it is truthy: 20 for a dog, 25 for a cat, nothing else. */
  function MaxAge(species: string): (r: Option<nat>)
    ensures r.Some? <==> species == "Perro" || species == "Gato"
    ensures species == "Perro" ==> r == Some(20)
    ensures species == "Gato" ==> r == Some(25)
  {
    if species == "Perro" then Some(20)
    else if species == "Gato" then Some(25)
    else None
  }

  /** An acceptable age: a number, not negative, and within the species' cap when
      the species has one. */
  predicate AgeAcceptable(age: AgeInput, species: string)
  {
    && age.Num?
    && 0.0 <= age.value
    && (MaxAge(species).Some? ==> age.value <= MaxAge(species).value as real)
  }

  /** The one message the age gets, if any, tried in order: empty, then not a
      non-negative number, then above the species' cap. */
  function AgeProblem(age: AgeInput, species: string): (r: Option<Problem>)
    ensures r.None? <==> AgeAcceptable(age, species)
    ensures age == EmptyAge ==> r == Some(AgeRequired)
    ensures age == NotNumeric || (age.Num? && age.value < 0.0) ==> r == Some(AgeNotNonNegative)
    ensures age.Num? && age.value >= 0.0 && MaxAge(species).Some?
            && age.value > MaxAge(species).value as real ==>
              r == Some(AgeAboveCap(species, MaxAge(species).value))
    ensures r.Some? && r.value.AgeAboveCap? ==>
              r.value == AgeAboveCap(species, MaxAge(species).value)
              && age.Num? && age.value > MaxAge(species).value as real
  {
    match age
    case EmptyAge => Some(AgeRequired)
    case NotNumeric => Some(AgeNotNonNegative)
    case Num(v) =>
      if v < 0.0 then Some(AgeNotNonNegative)
      else if species != "" && MaxAge(species).Some? && v > MaxAge(species).value as real
      then Some(AgeAboveCap(species, MaxAge(species).value))
      else None
  }

  /** `!name.trim()`: the name is empty or all whitespace. */
  predicate BlankName(name: string)
  {
    JsText.Trim(name) == ""
  }

  /** `validate(fields)`: the error map has a key for each failing field and no
      other; every field is checked on its own. */
  function Validate(f: Form): (errors: map<Field, Problem>)
    ensures NameField in errors <==> BlankName(f.name)
    ensures TypeField in errors <==> f.species == ""
    ensures GenderField in errors <==> f.gender == ""
    ensures AgeField in errors <==> !AgeAcceptable(f.age, f.species)
    ensures NameField in errors ==> errors[NameField] == NameRequired
    ensures TypeField in errors ==> errors[TypeField] == TypeRequired
    ensures GenderField in errors ==> errors[GenderField] == GenderRequired
    ensures AgeField in errors ==> Some(errors[AgeField]) == AgeProblem(f.age, f.species)
  {
    FieldErrors(f.name, f.species, f.gender, f.age)
  }

  /** The map `validate` builds from the four fields it reads, key by key. */
  function FieldErrors(name: string, species: string, gender: string, age: AgeInput): map<Field, Problem>
  {
    var e0: map<Field, Problem> := map[];
    var e1 := if BlankName(name) then e0[NameField := NameRequired] else e0;
    var e2 := if species == "" then e1[TypeField := TypeRequired] else e1;
    var e3 := if gender == "" then e2[GenderField := GenderRequired] else e2;
    match AgeProblem(age, species)
    case Some(p) => e3[AgeField := p]
    case None => e3
  }

  /** A form the store may receive: a non-blank name, a species, a gender, and an
      acceptable age. */
  predicate Valid(f: Form)
  {
    && !BlankName(f.name)
    && f.species != ""
    && f.gender != ""
    && AgeAcceptable(f.age, f.species)
  }

  /** Validation never reads the photo: replacing it changes neither the error map
      nor validity. */
  lemma PhotoNotValidated(f: Form, photo: Photo)
    ensures Validate(f.(photo := photo)) == Validate(f)
    ensures Valid(f.(photo := photo)) <==> Valid(f)
  {
  }

  /** The name is flagged exactly when it is empty or all whitespace. */
  lemma NameFlaggedIffAllWhitespace(f: Form)
    ensures NameField in Validate(f) <==>
              forall i :: 0 <= i < |f.name| ==> JsText.IsJsWhitespace(f.name[i])
  {
    JsText.TrimEmpty(f.name);
  }

  /** The error map is empty exactly when the form is valid. */
  lemma NoErrorsIffValid(f: Form)
    ensures Validate(f) == map[] <==> Valid(f)
  {
    var errors := Validate(f);
    if Valid(f) {
      assert errors.Keys == {};
    } else if !AgeAcceptable(f.age, f.species) {
      assert AgeField in errors;
    } else if f.gender == "" {
      assert GenderField in errors;
    } else if f.species == "" {
      assert TypeField in errors;
    } else {
      assert NameField in errors;
    }
  }

  /** Examples: a blank name is the only complaint about an
      otherwise complete dog, an age of 25 the only complaint about a named one, and
      at 5 there is none. */
  lemma ValidateBlankName()
    ensures var errors := Validate(Form("", "Perro", "Macho", Num(5.0), PhotoText(""), ""));
            && NameField in errors && errors[NameField] == NameRequired
            && TypeField !in errors && GenderField !in errors && AgeField !in errors
  {
  }

  lemma ValidateDogTooOld()
    ensures var errors := Validate(Form("Rex", "Perro", "Macho", Num(25.0), PhotoText(""), ""));
            && NameField !in errors && TypeField !in errors && GenderField !in errors
            && AgeField in errors && errors[AgeField] == AgeAboveCap("Perro", 20)
  {
    var f := Form("Rex", "Perro", "Macho", Num(25.0), PhotoText(""), "");
    assert !JsText.IsJsWhitespace(f.name[0]);
  }

  lemma ValidateDogValid()
    ensures Validate(Form("Rex", "Perro", "Macho", Num(5.0), PhotoText(""), "")) == map[]
  {
    var f := Form("Rex", "Perro", "Macho", Num(5.0), PhotoText(""), "");
    assert !JsText.IsJsWhitespace(f.name[0]);
    NoErrorsIffValid(f);
  }

  /** An age exactly at the cap is accepted, just above it is not, and a species
      without a cap bounds the age only from below. */
  lemma AgeCapBoundary(other: string, v: real)
    requires other != "Perro" && other != "Gato" && v >= 0.0
    ensures AgeAcceptable(Num(20.0), "Perro") && !AgeAcceptable(Num(20.5), "Perro")
    ensures AgeAcceptable(Num(25.0), "Gato") && !AgeAcceptable(Num(25.5), "Gato")
    ensures AgeAcceptable(Num(v), other)
  {
  }

  /** The number of dots in `s`. */
  function DotCount(s: string): nat
  {
    if |s| == 0 then 0 else (if s[0] == '.' then 1 else 0) + DotCount(s[1..])
  }

  /** The index of the first dot in `s`, or `|s|` when there is none. */
  function FirstDot(s: string): (k: nat)
    ensures k <= |s|
    ensures forall i :: 0 <= i < k ==> s[i] != '.'
    ensures k < |s| ==> s[k] == '.'
    ensures k == |s| <==> DotCount(s) == 0
  {
    if |s| == 0 then 0 else if s[0] == '.' then 0 else 1 + FirstDot(s[1..])
  }

  /** With at most one dot, nothing after the first dot is a dot. */
  lemma {:induction false} NoSecondDot(s: string)
    requires DotCount(s) <= 1
    ensures forall i :: FirstDot(s) < i < |s| ==> s[i] != '.'
  {
    if |s| > 0 {
      if s[0] == '.' {
        NoDot(s[1..]);
        forall i | 0 < i < |s|
          ensures s[i] != '.'
        {
          assert s[i] == s[1..][i - 1];
        }
      } else {
        NoSecondDot(s[1..]);
        forall i | FirstDot(s) < i < |s|
          ensures s[i] != '.'
        {
          assert s[i] == s[1..][i - 1];
        }
      }
    }
  }

  /** With at most one dot, both sides of the first dot are runs of digits. */
  lemma SplitAtDotIsDigits(s: string)
    requires forall i :: 0 <= i < |s| ==> JsText.IsAgeChar(s[i])
    requires DotCount(s) <= 1
    ensures AllDigits(s[..FirstDot(s)])
    ensures FirstDot(s) < |s| ==> AllDigits(s[FirstDot(s) + 1..])
  {
    var k := FirstDot(s);
    var h := s[..k];
    forall i | 0 <= i < |h|
      ensures '0' <= h[i] <= '9'
    {
      assert h[i] == s[i] && s[i] != '.';
      assert JsText.IsAgeChar(s[i]);
    }
    if k < |s| {
      AfterDotIsDigits(s);
    }
  }

  /** With at most one dot, what follows it holds digits only. */
  lemma AfterDotIsDigits(s: string)
    requires forall i :: 0 <= i < |s| ==> JsText.IsAgeChar(s[i])
    requires DotCount(s) <= 1 && FirstDot(s) < |s|
    ensures AllDigits(s[FirstDot(s) + 1..])
  {
    NoSecondDot(s);
    var k := FirstDot(s);
    DigitsWithoutDots(s, k + 1);
  }

  /** Age characters past `from`, none of them a dot, are digits. */
  lemma DigitsWithoutDots(s: string, from: nat)
    requires from <= |s|
    requires forall i :: 0 <= i < |s| ==> JsText.IsAgeChar(s[i])
    requires forall i :: from <= i < |s| ==> s[i] != '.'
    ensures AllDigits(s[from..])
  {
    var t := s[from..];
    forall i | 0 <= i < |t|
      ensures '0' <= t[i] <= '9'
    {
      assert t[i] == s[from + i];
      assert JsText.IsAgeChar(s[from + i]);
    }
  }

  /** A string without dots has no dot anywhere. */
  lemma {:induction false} NoDot(s: string)
    requires DotCount(s) == 0
    ensures forall i :: 0 <= i < |s| ==> s[i] != '.'
  {
    if |s| > 0 {
      NoDot(s[1..]);
      forall i | 0 < i < |s|
        ensures s[i] != '.'
      {
        assert s[i] == s[1..][i - 1];
      }
    }
  }

  predicate AllDigits(s: string)
  {
    forall i :: 0 <= i < |s| ==> '0' <= s[i] <= '9'
  }

  /** The value of a run of decimal digits (0 for none). */
  function DigitsValue(s: string): nat
    requires AllDigits(s)
  {
    if |s| == 0 then 0
    else DigitsValue(s[..|s| - 1]) * 10 + (s[|s| - 1] as int - '0' as int)
  }

  function Pow10(n: nat): (r: nat)
    ensures r >= 1
  {
    if n == 0 then 1 else 10 * Pow10(n - 1)
  }

  /** `whole.fraction` read as a decimal numeral. */
  function DecimalValue(whole: string, fraction: string): (v: real)
    requires AllDigits(whole) && AllDigits(fraction)
    ensures v >= DigitsValue(whole) as real
    ensures fraction == "" ==> v == DigitsValue(whole) as real
  {
    DigitsValue(whole) as real + DigitsValue(fraction) as real / Pow10(|fraction|) as real
  }

  /** Two digit strings laid end to end are a digit string. */
  lemma DigitsConcat(a: string, b: string)
    requires AllDigits(a) && AllDigits(b)
    ensures AllDigits(a + b)
  {
    var x := a + b;
    forall i | 0 <= i < |x|
      ensures '0' <= x[i] <= '9'
    {
      if i < |a| {
        assert x[i] == a[i];
      } else {
        assert x[i] == b[i - |a|];
      }
    }
  }

  /** The digits of a concatenation read as one numeral: the first part shifted past
      the second. */
  lemma {:induction false} DigitsValueConcat(a: string, b: string)
    requires AllDigits(a) && AllDigits(b)
    ensures AllDigits(a + b)
    ensures DigitsValue(a + b) == DigitsValue(a) * Pow10(|b|) + DigitsValue(b)
    decreases |b|
  {
    DigitsConcat(a, b);
    if |b| == 0 {
      assert a + b == a;
    } else {
      var b' := b[..|b| - 1];
      var d := b[|b| - 1] as int - '0' as int;
      assert AllDigits(b') by {
        forall i | 0 <= i < |b'|
          ensures '0' <= b'[i] <= '9'
        {
          assert b'[i] == b[i];
        }
      }
      DigitsValueConcat(a, b');
      var x := a + b;
      assert x[..|x| - 1] == a + b';
      assert x[|x| - 1] == b[|b| - 1];
      assert DigitsValue(x) == DigitsValue(a + b') * 10 + d;
      assert DigitsValue(b) == DigitsValue(b') * 10 + d;
      assert Pow10(|b|) == 10 * Pow10(|b'|);
      ShiftStep(DigitsValue(a), Pow10(|b'|), DigitsValue(b'), d);
    }
  }

  /** `(a p + b) 10 + d` regrouped as `a (10 p) + (10 b + d)`. */
  lemma ShiftStep(a: int, p: int, b: int, d: int)
    ensures (a * p + b) * 10 + d == a * (10 * p) + (b * 10 + d)
  {
  }

  /** `whole.fraction` is the digits read without the dot, over a power of ten. */
  lemma DecimalAsQuotient(whole: string, fraction: string)
    requires AllDigits(whole) && AllDigits(fraction)
    ensures AllDigits(whole + fraction)
    ensures DecimalValue(whole, fraction) == DigitsValue(whole + fraction) as real / Pow10(|fraction|) as real
  {
    DigitsValueConcat(whole, fraction);
    var w, f, p := DigitsValue(whole), DigitsValue(fraction), Pow10(|fraction|);
    OverPower(w, f, p);
  }

  /** `w + f / p = (w p + f) / p` for a positive `p`. */
  lemma OverPower(w: nat, f: nat, p: nat)
    requires p > 0
    ensures w as real + f as real / p as real == (w * p + f) as real / p as real
  {
    assert (w * p) as real == w as real * p as real;
  }

  /** A string of digits with one dot has digits on both sides of it. */
  lemma OneDotDigits(s: string)
    requires forall i :: 0 <= i < |s| ==> JsText.IsAgeChar(s[i])
    requires DotCount(s) == 1
    ensures FirstDot(s) < |s|
    ensures AllDigits(s[..FirstDot(s)]) && AllDigits(s[FirstDot(s) + 1..])
    ensures AllDigits(s[..FirstDot(s)] + s[FirstDot(s) + 1..])
  {
    SplitAtDotIsDigits(s);
    DigitsConcat(s[..FirstDot(s)], s[FirstDot(s) + 1..]);
  }

  /** A string with one dot reads as its digits without the dot over ten to the number
      of digits after it. */
  lemma OneDotValue(s: string)
    requires forall i :: 0 <= i < |s| ==> JsText.IsAgeChar(s[i])
    requires DotCount(s) == 1
    ensures FirstDot(s) < |s|
    ensures AllDigits(s[..FirstDot(s)]) && AllDigits(s[FirstDot(s) + 1..])
    ensures AllDigits(s[..FirstDot(s)] + s[FirstDot(s) + 1..])
    ensures DecimalValue(s[..FirstDot(s)], s[FirstDot(s) + 1..])
            == DigitsValue(s[..FirstDot(s)] + s[FirstDot(s) + 1..]) as real
               / Pow10(|s[FirstDot(s) + 1..]|) as real
  {
    OneDotDigits(s);
    DecimalAsQuotient(s[..FirstDot(s)], s[FirstDot(s) + 1..]);
  }

  /** `Number(s)` for a string of digits and dots, as the age slot sees it: `''` stays
      the empty string; at most one dot and at least one digit make a decimal
      numeral (`"5."` and `".5"` included); a lone dot or a second dot is NaN. */
  function ParseAge(s: string): (r: AgeInput)
    requires forall i :: 0 <= i < |s| ==> JsText.IsAgeChar(s[i])
    ensures r == EmptyAge <==> s == ""
    ensures r == NotNumeric <==> DotCount(s) > 1 || s == "."
    ensures r.Num? ==> r.value >= 0.0
    ensures r.Num? && DotCount(s) == 0 ==> AllDigits(s) && r.value == DigitsValue(s) as real
    ensures r.Num? && DotCount(s) == 1 ==>
              && FirstDot(s) < |s|
              && AllDigits(s[..FirstDot(s)] + s[FirstDot(s) + 1..])
              && r.value == DigitsValue(s[..FirstDot(s)] + s[FirstDot(s) + 1..]) as real
                            / Pow10(|s[FirstDot(s) + 1..]|) as real
  {
    if s == "" then EmptyAge
    else if DotCount(s) > 1 || s == "." then NotNumeric
    else
      var k := FirstDot(s);
      SplitAtDotIsDigits(s);
      if k < |s| then
        OneDotValue(s);
        Num(DecimalValue(s[..k], s[k + 1..]))
      else
        assert s[..k] == s;
        Num(DecimalValue(s, ""))
  }

  /** `Number` on a typed decimal. */
  lemma ParseAgeDecimal()
    ensures ParseAge("2.5") == Num(2.5)
  {
    assert FirstDot("2.5") == 1;
    assert "2.5"[..1] == "2" && "2.5"[2..] == "5";
  }

  /** A trailing dot is accepted: `"5."` is 5. */
  lemma ParseAgeTrailingDot()
    ensures ParseAge("5.") == Num(5.0)
  {
    assert FirstDot("5.") == 1;
    assert "5."[..1] == "5" && "5."[2..] == "";
  }

  /** A leading dot is accepted: `".5"` is one half. */
  lemma ParseAgeLeadingDot()
    ensures ParseAge(".5") == Num(0.5)
  {
    assert FirstDot(".5") == 0;
    assert ".5"[..0] == "" && ".5"[1..] == "5";
    assert DecimalValue("", "5") == 0.5 by {
      assert DigitsValue("") == 0 && DigitsValue("5") == 5 && Pow10(1) == 10;
    }
  }

  /** `Number` ignores leading zeros. */
  lemma ParseAgeLeadingZeros()
    ensures ParseAge("007") == Num(7.0)
  {
    assert FirstDot("007") == 3;
    assert "007"[..3] == "007" && "007"[..2] == "00" && "00"[..1] == "0";
  }

  /** A lone dot and a second dot are not numbers. */
  lemma ParseAgeRejectsDots()
    ensures ParseAge(".") == NotNumeric
    ensures ParseAge("1.2.3") == NotNumeric
  {
    assert DotCount("1.2.3") == 2;
  }

  /** Appending a digit multiplies by ten and adds it. */
  lemma DigitsValueSnoc(s: string, c: char)
    requires AllDigits(s) && '0' <= c <= '9'
    ensures AllDigits(s + [c])
    ensures DigitsValue(s + [c]) == DigitsValue(s) * 10 + (c as int - '0' as int)
  {
    assert (s + [c])[..|s|] == s;
  }

  /** Reading back the decimal rendering of a whole number gives that number. */
  lemma {:induction false} DecimalDigitsValue(n: nat)
    ensures AllDigits(JsText.NatToDecimal(n))
    ensures DigitsValue(JsText.NatToDecimal(n)) == n
    decreases n
  {
    if n >= 10 {
      DecimalDigitsValue(n / 10);
      DigitsValueSnoc(JsText.NatToDecimal(n / 10), JsText.DigitChar(n % 10));
    }
  }

  /** A whole number typed into the age input is parsed as itself. */
  lemma ParseWholeNumber(n: nat)
    ensures forall i :: 0 <= i < |JsText.NatToDecimal(n)| ==> JsText.IsAgeChar(JsText.NatToDecimal(n)[i])
    ensures ParseAge(JsText.NatToDecimal(n)) == Num(n as real)
  {
    var s := JsText.NatToDecimal(n);
    DecimalDigitsValue(n);
    DigitsHaveNoDots(s);
  }

  lemma {:induction false} DigitsHaveNoDots(s: string)
    requires AllDigits(s)
    ensures DotCount(s) == 0
  {
    if |s| > 0 {
      DigitsHaveNoDots(s[1..]);
    }
  }

  /** One input event of the form. `files` are the chosen files of the photo input. */
  datatype Input =
    | NameTyped(value: string)
    | TypeChosen(value: string)
    | GenderChosen(value: string)
    | AgeTyped(raw: string)
    | DescriptionTyped(value: string)
    | PhotoChosen(files: seq<nat>, value: string)

  /** The age slot after typing `raw`: `value.replace(/[^0-9.]/g, '')`, read as a number. */
  function TypedAge(raw: string): (r: AgeInput)
    ensures r == EmptyAge <==> JsText.SanitizeAge(raw) == ""
    ensures r.Num? ==> r.value >= 0.0
  {
    ParseAge(JsText.SanitizeAge(raw))
  }

  /** `{ ...form, [name]: val }` for the text inputs, the age sanitised first. */
  function ApplyText(f: Form, input: Input): (r: Form)
    requires !input.PhotoChosen?
    ensures r.photo == f.photo
    ensures input.NameTyped? ==> r == f.(name := input.value)
    ensures input.TypeChosen? ==> r == f.(species := input.value)
    ensures input.GenderChosen? ==> r == f.(gender := input.value)
    ensures input.AgeTyped? ==> r == f.(age := TypedAge(input.raw))
    ensures input.DescriptionTyped? ==> r == f.(description := input.value)
  {
    match input
    case NameTyped(v) => f.(name := v)
    case TypeChosen(v) => f.(species := v)
    case GenderChosen(v) => f.(gender := v)
    case AgeTyped(raw) => f.(age := TypedAge(raw))
    case DescriptionTyped(v) => f.(description := v)
  }

  /** A sanitised age is never a negative number, so the "mayor o igual a 0" message
      reaches a typed age only as NaN: exactly when what survives the sanitiser has a
      second dot or is a lone dot. */
  lemma TypedAgeNeverNegative(raw: string, species: string)
    ensures TypedAge(raw).Num? ==> AgeProblem(TypedAge(raw), species) != Some(AgeNotNonNegative)
    ensures AgeProblem(TypedAge(raw), species) == Some(AgeNotNonNegative) <==>
              DotCount(JsText.SanitizeAge(raw)) > 1 || JsText.SanitizeAge(raw) == "."
  {
  }

  /** A non-empty run of ASCII digits. */
  predicate Digits1(s: string)
  {
    |s| > 0 && AllDigits(s)
  }

  /** The index of the first exponent mark (`e` or `E`) in `s`, or `|s|`. */
  function FirstExp(s: string): (k: nat)
    ensures k <= |s|
    ensures k < |s| ==> s[k] == 'e' || s[k] == 'E'
  {
    if |s| == 0 then 0 else if s[0] == 'e' || s[0] == 'E' then 0 else 1 + FirstExp(s[1..])
  }

  /** Digits, digits `.` digits, or `.` digits. */
  predicate ValidMantissa(m: string)
  {
    var k := FirstDot(m);
    AllDigits(m[..k]) && (if k == |m| then |m| > 0 else Digits1(m[k + 1..]))
  }

  /** Digits, optionally signed. */
  predicate ValidExponent(v: string)
  {
    Digits1(v) || (|v| > 0 && (v[0] == '-' || v[0] == '+') && Digits1(v[1..]))
  }

  /** The value a number input (`type="number"`) hands to its change handler when not
      empty: a valid floating-point number of the HTML Standard (section 2.3.4.3), an
      optional `-`, a mantissa, and an optional exponent. */
  predicate ValidFloat(s: string)
  {
    var t := if |s| > 0 && s[0] == '-' then s[1..] else s;
    var e := FirstExp(t);
    ValidMantissa(t[..e]) && (e == |t| || ValidExponent(t[e + 1..]))
  }

  /** The dots of `s`, counted as its multiset does. */
  lemma {:induction false} DotCountIsMultiplicity(s: string)
    ensures DotCount(s) == multiset(s)['.']
  {
    if |s| > 0 {
      DotCountIsMultiplicity(s[1..]);
      assert s == [s[0]] + s[1..];
    }
  }

  /** A valid mantissa has one dot at most and a digit. */
  lemma MantissaShape(m: string)
    requires ValidMantissa(m)
    ensures multiset(m)['.'] <= 1
    ensures exists c :: '0' <= c <= '9' && c in m
  {
    var k := FirstDot(m);
    assert '.' !in m[..k];
    if k == |m| {
      assert m == m[..k];
      assert '0' <= m[0] <= '9' && m[0] in m;
    } else {
      Seqs.SplitAround(m, k);
      assert '.' !in m[k + 1..];
      assert '0' <= m[k + 1] <= '9' && m[k + 1] in m;
    }
  }

  /** An exponent has no dot. */
  lemma ExponentHasNoDot(v: string)
    requires ValidExponent(v)
    ensures '.' !in v
  {
    if !Digits1(v) {
      assert v == [v[0]] + v[1..];
      assert '.' !in v[1..];
    }
  }

  /** A mantissa, an exponent mark and an exponent have one dot at most and a digit. */
  lemma WithExponentShape(m: string, mark: char, v: string)
    requires ValidMantissa(m) && ValidExponent(v) && mark != '.'
    ensures multiset(m + [mark] + v)['.'] <= 1
    ensures exists c :: '0' <= c <= '9' && c in m + [mark] + v
  {
    MantissaShape(m);
    ExponentHasNoDot(v);
    var c :| '0' <= c <= '9' && c in m;
    assert c in m + [mark] + v;
  }

  /** An unsigned mantissa-and-exponent has one dot at most and a digit. */
  lemma UnsignedShape(t: string)
    requires ValidMantissa(t[..FirstExp(t)])
    requires FirstExp(t) == |t| || ValidExponent(t[FirstExp(t) + 1..])
    ensures multiset(t)['.'] <= 1
    ensures exists c :: '0' <= c <= '9' && c in t
  {
    var e := FirstExp(t);
    if e < |t| {
      Seqs.SplitAround(t, e);
      WithExponentShape(t[..e], t[e], t[e + 1..]);
    } else {
      assert t == t[..e];
      MantissaShape(t);
    }
  }

  /** A valid floating-point number has one dot at most and a digit. */
  lemma FloatShape(s: string)
    requires ValidFloat(s)
    ensures multiset(s)['.'] <= 1
    ensures exists c :: '0' <= c <= '9' && c in s
  {
    if |s| > 0 && s[0] == '-' {
      var t := s[1..];
      UnsignedShape(t);
      var c :| '0' <= c <= '9' && c in t;
      assert s == [s[0]] + t;
      assert c in s;
    } else {
      UnsignedShape(s);
    }
  }

  /** Decimals the input accepts: "2.5" and ".5". */
  lemma ValidFloatDecimals()
    ensures ValidFloat("2.5") && ValidFloat(".5")
  {
    assert FirstExp("2.5") == 3 && FirstDot("2.5") == 1;
    assert "2.5"[..3] == "2.5" && "2.5"[..1] == "2" && "2.5"[2..] == "5";
    assert FirstExp(".5") == 2 && FirstDot(".5") == 0;
    assert ".5"[..2] == ".5" && ".5"[..0] == "" && ".5"[1..] == "5";
  }

  /** A signed number with an exponent the input accepts: "-1e3". */
  lemma ValidFloatExponent()
    ensures ValidFloat("-1e3")
  {
    var t := "-1e3"[1..];
    assert t == "1e3" && FirstExp(t) == 1 && t[..1] == "1" && t[2..] == "3";
    assert FirstDot("1") == 1 && "1"[..1] == "1";
  }

  /** A lone dot is not a number to the input, which reports it as `''`. */
  lemma ValidFloatRejectsDot()
    ensures !ValidFloat(".")
  {
    assert FirstExp(".") == 1 && FirstDot(".") == 0;
    assert "."[..1] == "." && "."[1..] == "";
  }

  /** Nor are a second dot or a trailing one: "1.2.3" and "5.". */
  lemma ValidFloatRejectsDots()
    ensures !ValidFloat("1.2.3") && !ValidFloat("5.")
  {
    assert FirstExp("1.2.3") == 5 && FirstDot("1.2.3") == 1;
    assert "1.2.3"[..5] == "1.2.3" && "1.2.3"[2..] == "2.3";
    assert FirstExp("5.") == 2 && FirstDot("5.") == 1;
    assert "5."[..2] == "5." && "5."[2..] == "";
  }

  /** What the age input can deliver: `''` or a valid floating-point number. Either way
      the sanitised text is never NaN, so the "mayor o igual a 0" message never reaches
      a typed age; the empty value reads as empty, and any number as a number. */
  lemma NumberInputNeverNaN(raw: string, species: string)
    requires raw == "" || ValidFloat(raw)
    ensures TypedAge(raw) != NotNumeric
    ensures TypedAge(raw) == EmptyAge <==> raw == ""
    ensures AgeProblem(TypedAge(raw), species) != Some(AgeNotNonNegative)
  {
    var clean := JsText.SanitizeAge(raw);
    if raw != "" {
      FloatShape(raw);
      var c :| '0' <= c <= '9' && c in raw;
      assert c in clean;
      DotCountIsMultiplicity(clean);
      JsText.SanitizeKeepsAgeChars(raw, '.');
      assert clean != "." by {
        assert c in clean && c != '.';
      }
    }
  }

  /** `photoData`: a chosen file becomes the data URL the browser read from it; text
      passes through unchanged (the empty string included). */
  function PhotoData(photo: Photo, dataUrl: string): (r: string)
    ensures photo.PhotoText? ==> r == photo.text
    ensures photo.PhotoFile? ==> r == dataUrl
  {
    match photo
    case PhotoText(t) => t
    case PhotoFile(_) => dataUrl
  }

  /** `{ ...form, photo: photoData }`: every other field as the form holds it. */
  function ToData(f: Form, dataUrl: string): (d: PetData)
    ensures d.name == f.name && d.species == f.species && d.gender == f.gender
    ensures d.age == f.age && d.description == f.description
    ensures d.photo == PhotoData(f.photo, dataUrl)
  {
    PetData(f.name, f.species, f.gender, f.age, PhotoData(f.photo, dataUrl), f.description)
  }
}
