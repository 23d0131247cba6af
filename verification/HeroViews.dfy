/** Validation of create and update payloads (src/hero/views/hero.rs:22-106). */
module HeroViews {
  import opened Wrappers
  import opened Heroes

  const MAX_LEN: nat := 200

  datatype Detail = TextLength | NoPowers | PowerLength(index: nat) | NotAWholeNumber

  datatype FieldError = FieldError(field: string, detail: Detail)

  predicate LengthOk(value: string) { 1 <= |value| <= MAX_LEN }

  function TextErrors(field: string, value: string): seq<FieldError> {
    if LengthOk(value) then [] else [FieldError(field, TextLength)]
  }

  method ValidateTextField(field: string, value: string, errors: seq<FieldError>)
    returns (pushed: seq<FieldError>)
    ensures pushed == errors + TextErrors(field, value)
  {
    pushed := errors;
    if !(1 <= |value| <= MAX_LEN) { pushed := pushed + [FieldError(field, TextLength)]; }
  }

  /** One error for each power of the wrong length, in order. */
  function LengthErrors(powers: seq<string>): seq<FieldError> {
    if powers == [] then []
    else
      var k := |powers| - 1;
      LengthErrors(powers[..k])
        + if LengthOk(powers[k]) then [] else [FieldError("powers", PowerLength(k))]
  }

  function PowersErrors(powers: seq<string>): seq<FieldError> {
    if powers == [] then [FieldError("powers", NoPowers)] else LengthErrors(powers)
  }

  method ValidatePowers(powers: seq<string>, errors: seq<FieldError>)
    returns (pushed: seq<FieldError>)
    ensures pushed == errors + PowersErrors(powers)
  {
    pushed := errors;
    if powers == [] { return pushed + [FieldError("powers", NoPowers)]; }
    for index := 0 to |powers|
      invariant pushed == errors + LengthErrors(powers[..index])
    {
      assert powers[..index + 1][..index] == powers[..index];
      if !(1 <= |powers[index]| <= MAX_LEN) {
        pushed := pushed + [FieldError("powers", PowerLength(index))];
      }
    }
    assert powers[..|powers|] == powers;
  }

  predicate PowersOk(powers: seq<string>) {
    powers != [] && forall i :: 0 <= i < |powers| ==> LengthOk(powers[i])
  }

  lemma {:induction false} LengthErrorsExact(powers: seq<string>)
    ensures forall i: nat ::
      FieldError("powers", PowerLength(i)) in LengthErrors(powers) <==> i < |powers| && !LengthOk(powers[i])
    ensures LengthErrors(powers) == [] <==> forall i :: 0 <= i < |powers| ==> LengthOk(powers[i])
  {
    if powers != [] {
      var k := |powers| - 1;
      LengthErrorsExact(powers[..k]);
      assert forall i :: 0 <= i < k ==> powers[..k][i] == powers[i];
    }
  }

  /** The powers at fault are named, each and no other; the list is accepted exactly when it
      has powers and none is at fault. */
  lemma PowersErrorsExact(powers: seq<string>)
    ensures forall i: nat ::
      FieldError("powers", PowerLength(i)) in PowersErrors(powers) <==> i < |powers| && !LengthOk(powers[i])
    ensures PowersErrors(powers) == [] <==> PowersOk(powers)
  {
    LengthErrorsExact(powers);
  }

  function CreateErrors(create: HeroCreate): seq<FieldError> {
    TextErrors("name", create.name) + PowersErrors(create.powers)
  }

  function UpdateErrors(update: HeroUpdate): seq<FieldError> {
    (if update.name.Some? then TextErrors("name", update.name.value) else [])
      + (if update.powers.Some? then PowersErrors(update.powers.value) else [])
  }

  lemma {:induction false} LengthErrorsInOrder(powers: seq<string>)
    ensures forall i :: 0 <= i < |LengthErrors(powers)| ==>
      LengthErrors(powers)[i].detail.PowerLength? && LengthErrors(powers)[i].detail.index < |powers|
    ensures forall i, j :: 0 <= i < j < |LengthErrors(powers)| ==>
      LengthErrors(powers)[i].detail.index < LengthErrors(powers)[j].detail.index
  {
    if powers != [] { LengthErrorsInOrder(powers[..|powers| - 1]); }
  }

  /** The limits in figures, and the order of errors: the name's, then those of the powers, either
      that there are none or one for each at fault by ascending position. */
  lemma ErrorsInFigures(create: HeroCreate)
    ensures CreateErrors(create) == [] <==>
      && 1 <= |create.name| <= 200 && |create.powers| >= 1
      && forall i :: 0 <= i < |create.powers| ==> 1 <= |create.powers[i]| <= 200
    ensures !(1 <= |create.name| <= 200) ==> [FieldError("name", TextLength)] <= CreateErrors(create)
    ensures create.powers == [] ==> PowersErrors(create.powers) == [FieldError("powers", NoPowers)]
    ensures var errors := PowersErrors(create.powers);
      forall i, j :: 0 <= i < j < |errors| ==>
        && errors[i].detail.PowerLength? && errors[j].detail.PowerLength?
        && errors[i].detail.index < errors[j].detail.index
  {
    PowersErrorsExact(create.powers);
    LengthErrorsInOrder(create.powers);
  }

  // ---- the fields that errors name ----

  ghost predicate Names(errors: seq<FieldError>, field: string) {
    exists e :: e in errors && e.field == field
  }

  lemma NamesJoin(a: seq<FieldError>, b: seq<FieldError>, field: string)
    ensures Names(a + b, field) <==> Names(a, field) || Names(b, field)
  {
    if e :| e in a && e.field == field { assert e in a + b; }
    if e :| e in b && e.field == field { assert e in a + b; }
  }

  lemma TextErrorsName(field: string, value: string)
    ensures forall other :: Names(TextErrors(field, value), other) <==> other == field && !LengthOk(value)
  {
    if !LengthOk(value) { assert TextErrors(field, value)[0] in TextErrors(field, value); }
  }

  lemma {:induction false} LengthErrorsName(powers: seq<string>)
    ensures forall e :: e in LengthErrors(powers) ==> e.field == "powers"
  {
    if powers != [] { LengthErrorsName(powers[..|powers| - 1]); }
  }

  lemma PowersErrorsName(powers: seq<string>)
    ensures forall other :: Names(PowersErrors(powers), other) <==> other == "powers" && !PowersOk(powers)
  {
    LengthErrorsName(powers);
    PowersErrorsExact(powers);
    if !PowersOk(powers) { assert PowersErrors(powers)[0] in PowersErrors(powers); }
  }

  /** The errors of a payload name exactly the fields at fault, of those it gives. */
  lemma ErrorsByField(create: HeroCreate, update: HeroUpdate, field: string)
    ensures Names(CreateErrors(create), field) <==>
      || (field == "name" && !LengthOk(create.name))
      || (field == "powers" && !PowersOk(create.powers))
    ensures Names(UpdateErrors(update), field) <==>
      || (field == "name" && update.name.Some? && !LengthOk(update.name.value))
      || (field == "powers" && update.powers.Some? && !PowersOk(update.powers.value))
  {
    TextErrorsName("name", create.name);
    PowersErrorsName(create.powers);
    NamesJoin(TextErrors("name", create.name), PowersErrors(create.powers), field);
    var a := if update.name.Some? then TextErrors("name", update.name.value) else [];
    var b := if update.powers.Some? then PowersErrors(update.powers.value) else [];
    if update.name.Some? { TextErrorsName("name", update.name.value); }
    if update.powers.Some? { PowersErrorsName(update.powers.value); }
    NamesJoin(a, b, field);
  }

  function Verdict(errors: seq<FieldError>): Result<(), seq<FieldError>> {
    if errors == [] then Ok(()) else Err(errors)
  }

  method ValidateCreate(create: HeroCreate) returns (verdict: Result<(), seq<FieldError>>)
    ensures verdict == Verdict(CreateErrors(create))
    ensures verdict.Ok? <==> LengthOk(create.name) && PowersOk(create.powers)
  {
    var errors := [];
    errors := ValidateTextField("name", create.name, errors);
    errors := ValidatePowers(create.powers, errors);
    PowersErrorsExact(create.powers);
    assert errors == CreateErrors(create);
    verdict := if errors == [] then Ok(()) else Err(errors);
  }

  method ValidateUpdate(update: HeroUpdate) returns (verdict: Result<(), seq<FieldError>>)
    ensures verdict == Verdict(UpdateErrors(update))
    ensures verdict.Ok? <==>
      && (update.name.Some? ==> LengthOk(update.name.value))
      && (update.powers.Some? ==> PowersOk(update.powers.value))
  {
    var errors := [];
    if update.name.Some? { errors := ValidateTextField("name", update.name.value, errors); }
    if update.powers.Some? {
      errors := ValidatePowers(update.powers.value, errors);
      PowersErrorsExact(update.powers.value);
    }
    assert errors == UpdateErrors(update);
    verdict := if errors == [] then Ok(()) else Err(errors);
  }
}
