/** Filter clauses, and how the in-memory repository interprets them
    (src/hero/repositories/hero_memory.rs:19-102). */
module Filtering {
  import opened Wrappers
  import opened Heroes
  import opened Text

  datatype FilterOp = Eq | Ne | Lt | Lte | Gt | Gte | In | Contains | Icontains

  datatype FilterValue =
    | Str(text: string)
    | Int(number: I64)
    | DateTime(time: Time)
    | Float(float: real)
    | Bool(flag: bool)
    | List(items: seq<FilterValue>)

  datatype FilterClause = FilterClause(field: string, op: FilterOp, value: FilterValue)

  /** Case conversion of strings; nothing below depends on which one it is. */
  type Lowercase = string -> string

  predicate MatchesAll(lower: Lowercase, hero: Hero, filters: seq<FilterClause>) {
    forall i :: 0 <= i < |filters| ==> MatchesOne(lower, hero, filters[i])
  }

  predicate MatchesOne(lower: Lowercase, hero: Hero, clause: FilterClause) {
    if clause.field == "id" then MatchesInt(hero.id, clause)
    else if clause.field == "power_level" then
      hero.powerLevel.Some? && MatchesInt(hero.powerLevel.value, clause)
    else if clause.field == "name" then
      hero.name.Some? && MatchesStr(lower, hero.name.value, clause)
    else if clause.field == "owner_id" then MatchesStr(lower, hero.ownerId, clause)
    else if clause.field == "created_at" then MatchesDateTime(hero.createdAt, clause)
    else if clause.field == "updated_at" then MatchesDateTime(hero.updatedAt, clause)
    else if clause.field == "archived_at" then
      hero.archivedAt.Some? && MatchesDateTime(hero.archivedAt.value, clause)
    else false
  }

  predicate MatchesInt(actual: I32, clause: FilterClause) {
    if clause.op == In then
      clause.value.List? && Int(actual) in clause.value.items
    else
      clause.value.Int? && Holds(actual, clause.op, clause.value.number)
  }

  predicate MatchesDateTime(actual: Time, clause: FilterClause) {
    if clause.op == In then
      clause.value.List? && DateTime(actual) in clause.value.items
    else
      clause.value.DateTime? && Holds(actual, clause.op, clause.value.time)
  }

  predicate MatchesStr(lower: Lowercase, actual: string, clause: FilterClause) {
    match clause.op
    case In =>
      clause.value.List? && Str(actual) in clause.value.items
    case Contains => clause.value.Str? && Occurs(actual, clause.value.text)
    case Icontains => clause.value.Str? && Occurs(lower(actual), lower(clause.value.text))
    case Eq => clause.value.Str? && actual == clause.value.text
    case Ne => clause.value.Str? && actual != clause.value.text
    case _ => false
  }

  /** `compare`: on numbers and instants the membership and substring operators never match. */
  predicate Holds(actual: int, op: FilterOp, target: int) {
    match op
    case Eq => actual == target
    case Ne => actual != target
    case Lt => actual < target
    case Lte => actual <= target
    case Gt => actual > target
    case Gte => actual >= target
    case _ => false
  }

  /** `visible`: `onlyArchived` wins over `includeArchived`. */
  predicate Visible(hero: Hero, includeArchived: bool, onlyArchived: bool) {
    if onlyArchived then !hero.Live() else includeArchived || hero.Live()
  }

  /** A clause on a field compares that field of the row, and a row without a value never
      matches. */
  lemma ComparesItsField(lower: Lowercase, hero: Hero, op: FilterOp, n: I64, t: Time, s: string)
    ensures MatchesOne(lower, hero, FilterClause("id", Eq, Int(n))) <==> hero.id == n
    ensures MatchesOne(lower, hero, FilterClause("id", Lt, Int(n))) <==> hero.id < n
    ensures MatchesOne(lower, hero, FilterClause("id", Gte, Int(n))) <==> hero.id >= n
    ensures MatchesOne(lower, hero, FilterClause("power_level", Lte, Int(n)))
      <==> hero.powerLevel.Some? && hero.powerLevel.value <= n
    ensures MatchesOne(lower, hero, FilterClause("power_level", Gt, Int(n)))
      <==> hero.powerLevel.Some? && hero.powerLevel.value > n
    ensures MatchesOne(lower, hero, FilterClause("created_at", Eq, DateTime(t))) <==> hero.createdAt == t
    ensures MatchesOne(lower, hero, FilterClause("updated_at", Eq, DateTime(t))) <==> hero.updatedAt == t
    ensures MatchesOne(lower, hero, FilterClause("archived_at", Eq, DateTime(t))) <==> hero.archivedAt == Some(t)
    ensures MatchesOne(lower, hero, FilterClause("name", Eq, Str(s))) <==> hero.name == Some(s)
    ensures MatchesOne(lower, hero, FilterClause("name", Ne, Str(s))) <==> hero.name.Some? && hero.name.value != s
    ensures MatchesOne(lower, hero, FilterClause("owner_id", Eq, Str(s))) <==> hero.ownerId == s
  {
    assert "created_at"[0] != "updated_at"[0] && "archived_at"[0] != "created_at"[0];
  }

  /** Clauses are joined by AND: a row matches two lists together exactly when it matches both,
      and one clause when the clause matches. */
  lemma MatchesAllJoins(lower: Lowercase, hero: Hero, a: seq<FilterClause>, b: seq<FilterClause>,
                        clause: FilterClause)
    ensures MatchesAll(lower, hero, a + b) <==> MatchesAll(lower, hero, a) && MatchesAll(lower, hero, b)
    ensures MatchesAll(lower, hero, [clause]) <==> MatchesOne(lower, hero, clause)
    ensures MatchesAll(lower, hero, [])
  {
    assert [clause][0] == clause;
    if MatchesAll(lower, hero, a + b) {
      forall i | 0 <= i < |a| ensures MatchesOne(lower, hero, a[i]) { assert (a + b)[i] == a[i]; }
      forall i | 0 <= i < |b| ensures MatchesOne(lower, hero, b[i]) { assert (a + b)[|a| + i] == b[i]; }
    }
  }

  /** A value of another kind, an operator that a kind does not have, or a field that is none:
      such a clause matches no row. */
  lemma OthersNeverMatch(lower: Lowercase, hero: Hero, clause: FilterClause)
    requires
      var field, op, value := clause.field, clause.op, clause.value;
      || field !in {"id", "power_level", "name", "owner_id", "created_at", "updated_at", "archived_at"}
      || (op == In && !value.List?)
      || (op != In && value.List?)
      || value.Float? || value.Bool?
      || (field in {"id", "power_level"} && (op in {Contains, Icontains} || value.Str? || value.DateTime?))
      || (field in {"created_at", "updated_at", "archived_at"}
          && (op in {Contains, Icontains} || value.Str? || value.Int?))
      || (field in {"name", "owner_id"} && (op in {Lt, Lte, Gt, Gte} || value.Int? || value.DateTime?))
    ensures !MatchesOne(lower, hero, clause)
  {}
}
