/** The v1 compatibility view: one superpower where v2 has a list
    (src/hero/views/hero_v1.rs:29-137). */
module HeroV1 {
  import opened Wrappers
  import opened Heroes
  import opened HeroViews

  datatype HeroCreateV1 = HeroCreateV1(name: string, superpower: string, powerLevel: Option<I32>)

  datatype HeroUpdateV1 = HeroUpdateV1(
    name: Option<string>, superpower: Option<string>, powerLevel: Option<I32>)

  datatype HeroReadV1 = HeroReadV1(
    id: I32,
    name: Option<string>,
    superpower: Option<string>,
    powerLevel: Option<I32>,
    ownerId: string,
    archivedAt: Option<Time>,
    createdAt: Time,
    updatedAt: Time)

  function ToCreate(v1: HeroCreateV1): HeroCreate {
    HeroCreate(v1.name, [v1.superpower], v1.powerLevel)
  }

  function ToUpdate(v1: HeroUpdateV1): HeroUpdate {
    HeroUpdate(v1.name,
               if v1.superpower.Some? then Some([v1.superpower.value]) else None,
               v1.powerLevel)
  }

  function ToRead(hero: Hero): HeroReadV1 {
    HeroReadV1(hero.id, hero.name,
               if hero.powers.Some? && hero.powers.value != [] then Some(hero.powers.value[0]) else None,
               hero.powerLevel, hero.ownerId, hero.archivedAt, hero.createdAt, hero.updatedAt)
  }

  method ValidateCreateV1(v1: HeroCreateV1) returns (verdict: Result<(), seq<FieldError>>)
    ensures verdict == Verdict(TextErrors("name", v1.name) + TextErrors("superpower", v1.superpower))
  {
    var errors := [];
    errors := ValidateTextField("name", v1.name, errors);
    errors := ValidateTextField("superpower", v1.superpower, errors);
    assert errors == TextErrors("name", v1.name) + TextErrors("superpower", v1.superpower);
    verdict := if errors == [] then Ok(()) else Err(errors);
  }

  method ValidateUpdateV1(v1: HeroUpdateV1) returns (verdict: Result<(), seq<FieldError>>)
    ensures verdict == Verdict(UpdateErrorsV1(v1))
  {
    var errors := [];
    if v1.name.Some? { errors := ValidateTextField("name", v1.name.value, errors); }
    if v1.superpower.Some? {
      errors := ValidateTextField("superpower", v1.superpower.value, errors);
    }
    assert errors == UpdateErrorsV1(v1);
    verdict := if errors == [] then Ok(()) else Err(errors);
  }

  function UpdateErrorsV1(v1: HeroUpdateV1): seq<FieldError> {
    (if v1.name.Some? then TextErrors("name", v1.name.value) else [])
      + (if v1.superpower.Some? then TextErrors("superpower", v1.superpower.value) else [])
  }

  lemma OnePower(power: string)
    ensures |PowersErrors([power])| == |TextErrors("superpower", power)|
  {
    assert LengthErrors([power][..0]) == [];
  }

  /** A v1 payload and its v2 conversion get the same number of errors; in particular one
      passes exactly when the other does. */
  lemma SameVerdicts(create: HeroCreateV1, update: HeroUpdateV1)
    ensures |TextErrors("name", create.name) + TextErrors("superpower", create.superpower)|
      == |CreateErrors(ToCreate(create))|
    ensures |UpdateErrorsV1(update)| == |UpdateErrors(ToUpdate(update))|
  {
    OnePower(create.superpower);
    if update.superpower.Some? { OnePower(update.superpower.value); }
  }

  /** The errors of a v1 payload name exactly the fields at fault. */
  lemma V1ErrorsByField(create: HeroCreateV1, update: HeroUpdateV1, field: string)
    ensures Names(TextErrors("name", create.name) + TextErrors("superpower", create.superpower), field)
      <==> (field == "name" && !LengthOk(create.name)) || (field == "superpower" && !LengthOk(create.superpower))
    ensures Names(UpdateErrorsV1(update), field) <==>
      || (field == "name" && update.name.Some? && !LengthOk(update.name.value))
      || (field == "superpower" && update.superpower.Some? && !LengthOk(update.superpower.value))
  {
    TextErrorsName("name", create.name);
    TextErrorsName("superpower", create.superpower);
    NamesJoin(TextErrors("name", create.name), TextErrors("superpower", create.superpower), field);
    var a := if update.name.Some? then TextErrors("name", update.name.value) else [];
    var b := if update.superpower.Some? then TextErrors("superpower", update.superpower.value) else [];
    if update.name.Some? { TextErrorsName("name", update.name.value); }
    if update.superpower.Some? { TextErrorsName("superpower", update.superpower.value); }
    NamesJoin(a, b, field);
  }

  /** Updating the view itself, field by field. */
  function UpdateRead(view: HeroReadV1, v1: HeroUpdateV1, now: Time): HeroReadV1 {
    view.(
      name := if v1.name.Some? then v1.name else view.name,
      superpower := if v1.superpower.Some? then v1.superpower else view.superpower,
      powerLevel := if v1.powerLevel.Some? then v1.powerLevel else view.powerLevel,
      updatedAt := now)
  }

  /** To a v1 client the lossy conversion is invisible: reading after a converted update is
      updating what was read. */
  lemma ViewCommutesWithUpdate(hero: Hero, v1: HeroUpdateV1, now: Time)
    ensures ToRead(ApplyUpdate(hero, ToUpdate(v1), now)) == UpdateRead(ToRead(hero), v1, now)
  {}

  /** The view of any record shows its first power, if it has one, and all else as it is, the
      archive stamp included. */
  lemma ViewShows(hero: Hero)
    ensures var view := ToRead(hero);
      && (hero.powers.Some? && hero.powers.value != [] ==> view.superpower == Some(hero.powers.value[0]))
      && (hero.powers.None? || hero.powers.value == [] ==> view.superpower == None)
      && view.id == hero.id && view.name == hero.name && view.powerLevel == hero.powerLevel
      && view.ownerId == hero.ownerId && view.archivedAt == hero.archivedAt
      && view.createdAt == hero.createdAt && view.updatedAt == hero.updatedAt
  {}

  /** What was created is what is read. */
  lemma ViewOfCreated(id: I32, owner: string, v1: HeroCreateV1, now: Time)
    ensures ToRead(NewHero(id, owner, ToCreate(v1), now))
      == HeroReadV1(id, Some(v1.name), Some(v1.superpower), v1.powerLevel, owner, None, now, now)
  {}

  /** Powers a v1 client cannot see survive its update exactly when it omits the superpower. */
  lemma HiddenPowersSurvive(hero: Hero, v1: HeroUpdateV1, now: Time)
    requires hero.powers.Some? && |hero.powers.value| > 1
    ensures var after := ApplyUpdate(hero, ToUpdate(v1), now);
      && after.powers.Some? && after.powers.value != []
      && (after.powers.value[1..] == hero.powers.value[1..] <==> v1.superpower.None?)
  {}
}
