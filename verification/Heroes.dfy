/** The Hero record and its create and update payloads
    (src/hero/models/hero.rs, src/hero/views/hero.rs). */
module Heroes {
  import opened Wrappers

  /** A reading of the clock. */
  type Time = int

  const I32_MIN: int := -0x8000_0000
  const I32_MAX: int := 0x7fff_ffff

  type I32 = n: int | -0x8000_0000 <= n <= 0x7fff_ffff

  type I64 = n: int | -0x8000_0000_0000_0000 <= n <= 0x7fff_ffff_ffff_ffff

  datatype Hero = Hero(
    id: I32,
    name: Option<string>,
    powers: Option<seq<string>>,
    powerLevel: Option<I32>,
    ownerId: string,
    archivedAt: Option<Time>,
    createdAt: Time,
    updatedAt: Time)
  {
    predicate Live() { archivedAt.None? }
  }

  datatype HeroCreate = HeroCreate(name: string, powers: seq<string>, powerLevel: Option<I32>)

  datatype HeroUpdate = HeroUpdate(
    name: Option<string>,
    powers: Option<seq<string>>,
    powerLevel: Option<I32>)

  /** A partial update: an omitted field keeps its value, the modification stamp always moves. */
  function ApplyUpdate(hero: Hero, data: HeroUpdate, now: Time): Hero {
    hero.(
      name := if data.name.Some? then data.name else hero.name,
      powers := if data.powers.Some? then data.powers else hero.powers,
      powerLevel := if data.powerLevel.Some? then data.powerLevel else hero.powerLevel,
      updatedAt := now)
  }

  /** A soft delete; the in-memory backend reads the clock once for each stamp. */
  function Archive(hero: Hero, archivedAt: Time, updatedAt: Time): Hero {
    hero.(archivedAt := Some(archivedAt), updatedAt := updatedAt)
  }

  function NewHero(id: I32, owner: string, data: HeroCreate, now: Time): Hero {
    Hero(id, Some(data.name), Some(data.powers), data.powerLevel, owner, None, now, now)
  }
}
