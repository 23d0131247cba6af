/** The compiled condition of a clause selects the rows that the in-memory repository
    matches: for which clauses, over every row, NULL columns included. */
module SqlTranslation {
  import opened Wrappers
  import opened Heroes
  import opened Text
  import opened Filtering
  import opened SqlConditions

  datatype Kind = Number | Words | Instant

  function KindOf(column: Column): Kind {
    match column
    case Id => Number
    case PowerLevel => Number
    case Name => Words
    case OwnerId => Words
    case _ => Instant
  }

  predicate Ordering(op: FilterOp) { op in {Eq, Ne, Lt, Lte, Gt, Gte} }

  /** The clauses the query parser builds: an operator its field's kind has, over a value of
      that kind. A field the table does not have may carry anything. */
  predicate WellTyped(clause: FilterClause) {
    var found := ColumnFor(clause.field);
    found.Some? ==>
      match KindOf(found.value)
      case Number =>
        if clause.op == In then clause.value.List? && forall v :: v in clause.value.items ==> v.Int?
        else Ordering(clause.op) && clause.value.Int?
      case Instant =>
        if clause.op == In then clause.value.List? && forall v :: v in clause.value.items ==> v.DateTime?
        else Ordering(clause.op) && clause.value.DateTime?
      case Words =>
        if clause.op == In then clause.value.List? && forall v :: v in clause.value.items ==> v.Str?
        else clause.op in {Eq, Ne, Contains, Icontains} && clause.value.Str?
  }

  /** When the narrowing of a compared number to 32 bits cannot be noticed. In range it never
      is; out of range only where the operator answers every row alike, for both numbers. */
  predicate NarrowSafe(op: FilterOp, target: I64) {
    || I32_MIN <= target <= I32_MAX
    || (op in {Lt, Gte} && target < I32_MIN && Narrow(target) == I32_MIN)
    || (op in {Lte, Gt} && target > I32_MAX && Narrow(target) == I32_MAX)
  }

  predicate Portable(lower: Lowercase, clause: FilterClause) {
    var found := ColumnFor(clause.field);
    WellTyped(clause) &&
    (found.Some? ==>
      match KindOf(found.value)
      case Number =>
        if clause.op == In
        then forall v :: v in clause.value.items ==> Int(Narrow(v.number)) in clause.value.items
        else NarrowSafe(clause.op, clause.value.number)
      case Instant => true
      case Words =>
        && (clause.op == Contains ==> Plain(clause.value.text))
        && (clause.op == Icontains ==> Plain(lower(clause.value.text))))
  }

  ghost predicate Agrees(lower: Lowercase, hero: Hero, clause: FilterClause) {
    var truth := Eval(lower, hero, ConditionFor(lower, clause));
    truth != Undetermined && (truth == True <==> MatchesOne(lower, hero, clause))
  }

  // ---- pieces ----

  lemma NarrowInRange(n: I64)
    ensures I32_MIN <= n <= I32_MAX <==> Narrow(n) == n
  {}

  /** The cast keeps the number modulo 2^32; with a result in range, that determines it. */
  lemma NarrowIsCongruent(n: I64, m: I32)
    ensures (n - m) % 0x1_0000_0000 == 0 <==> m == Narrow(n)
  {
    var k := (n + 0x8000_0000) / 0x1_0000_0000;
    assert n == Narrow(n) + k * 0x1_0000_0000;
    assert n - m == (Narrow(n) - m) + k * 0x1_0000_0000;
  }

  /** Narrowing a comparison's operand keeps its answer over the whole column exactly when
      `NarrowSafe` says so. */
  lemma NarrowExact(op: FilterOp, target: I64)
    requires Ordering(op)
    ensures (forall a: I32 :: Holds(a, op, target) == Holds(a, op, Narrow(target)))
      <==> NarrowSafe(op, target)
  {
    NarrowInRange(target);
    if !NarrowSafe(op, target) {
      var w := Narrow(target);
      var low: I32, high: I32 := I32_MIN, I32_MAX;
      match op {
        case Eq => assert Holds(w, op, target) != Holds(w, op, w);
        case Ne => assert Holds(w, op, target) != Holds(w, op, w);
        case Lt =>
          if target > high { assert Holds(high, op, target) != Holds(high, op, w); }
          else { assert Holds(low, op, target) != Holds(low, op, w); }
        case Gte =>
          if target > high { assert Holds(high, op, target) != Holds(high, op, w); }
          else { assert Holds(low, op, target) != Holds(low, op, w); }
        case Lte =>
          if target > high { assert Holds(high, op, target) != Holds(high, op, w); }
          else { assert Holds(low, op, target) != Holds(low, op, w); }
        case Gt =>
          if target > high { assert Holds(high, op, target) != Holds(high, op, w); }
          else { assert Holds(low, op, target) != Holds(low, op, w); }
      }
    }
  }

  lemma {:induction false} EvalInMember(left: SqlValue, operands: seq<SqlValue>)
    requires forall v :: v in operands ==> EvalCompare(left, Eq, v) == Known(left == v)
    ensures EvalIn(left, operands) == Known(left in operands)
  {
    if operands != [] {
      assert operands[0] in operands;
      EvalInMember(left, operands[1..]);
      assert left in operands <==> left == operands[0] || left in operands[1..];
    }
  }

  lemma {:induction false} EvalInNull(operands: seq<SqlValue>)
    ensures EvalIn(Null, operands) in {False, Unknown}
  {
    if operands != [] { EvalInNull(operands[1..]); }
  }

  lemma ScalarsMember(items: seq<FilterValue>, v: SqlValue)
    ensures v in Scalars(items) <==> exists item :: item in items && Scalar(item) == v
  {}

  /** A list of numbers, each cast to 32 bits, holds a column value exactly when the list did. */
  lemma NumberIn(items: seq<FilterValue>, a: I32)
    requires forall v :: v in items ==> v.Int?
    ensures EvalIn(Int4(a), Scalars(items))
      == Known(exists v :: v in items && Narrow(v.number) == a)
  {
    var operands := Scalars(items);
    forall v | v in operands ensures EvalCompare(Int4(a), Eq, v) == Known(Int4(a) == v) {
      ScalarsMember(items, v);
    }
    EvalInMember(Int4(a), operands);
    ScalarsMember(items, Int4(a));
  }

  lemma InstantIn(items: seq<FilterValue>, a: Time)
    requires forall v :: v in items ==> v.DateTime?
    ensures EvalIn(Timestamp(a), Scalars(items)) == Known(DateTime(a) in items)
  {
    var operands := Scalars(items);
    forall v | v in operands ensures EvalCompare(Timestamp(a), Eq, v) == Known(Timestamp(a) == v) {
      ScalarsMember(items, v);
    }
    EvalInMember(Timestamp(a), operands);
    ScalarsMember(items, Timestamp(a));
    assert Scalar(DateTime(a)) == Timestamp(a);
  }

  lemma WordsIn(items: seq<FilterValue>, a: string)
    requires forall v :: v in items ==> v.Str?
    ensures EvalIn(Varchar(a), Scalars(items)) == Known(Str(a) in items)
  {
    var operands := Scalars(items);
    forall v | v in operands ensures EvalCompare(Varchar(a), Eq, v) == Known(Varchar(a) == v) {
      ScalarsMember(items, v);
    }
    EvalInMember(Varchar(a), operands);
    ScalarsMember(items, Varchar(a));
    assert Scalar(Str(a)) == Varchar(a);
  }

  lemma FieldNames()
    ensures ColumnFor("id") == Some(Id) && ColumnFor("name") == Some(Name)
    ensures ColumnFor("power_level") == Some(PowerLevel) && ColumnFor("owner_id") == Some(OwnerId)
    ensures ColumnFor("archived_at") == Some(ArchivedAt)
    ensures ColumnFor("created_at") == Some(CreatedAt) && ColumnFor("updated_at") == Some(UpdatedAt)
  {}

  /** What a clause on a column of one kind says about that column's value. */
  predicate MatchesValue(lower: Lowercase, value: SqlValue, clause: FilterClause) {
    match value
    case Int4(n) => MatchesInt(n, clause)
    case Timestamp(t) => MatchesDateTime(t, clause)
    case Varchar(s) => MatchesStr(lower, s, clause)
    case _ => false
  }

  /** The memory repository's field dispatch and the column map pick the same column. */
  lemma FieldIsColumn(lower: Lowercase, hero: Hero, clause: FilterClause)
    ensures ColumnFor(clause.field).None? ==> !MatchesOne(lower, hero, clause)
    ensures ColumnFor(clause.field).Some? ==>
      MatchesOne(lower, hero, clause)
        == MatchesValue(lower, ValueOf(hero, ColumnFor(clause.field).value), clause)
  {
    FieldNames();
  }

  lemma NumberInAgrees(lower: Lowercase, hero: Hero, clause: FilterClause, column: Column)
    requires ColumnFor(clause.field) == Some(column) && KindOf(column) == Number
    requires Portable(lower, clause) && clause.op == In
    ensures Agrees(lower, hero, clause)
  {
    FieldIsColumn(lower, hero, clause);
    var value := ValueOf(hero, column);
    var items := clause.value.items;
    assert Eval(lower, hero, ConditionFor(lower, clause)) == EvalIn(value, Scalars(items));
    EvalInNull(Scalars(items));
    if value.Int4? {
      NumberIn(items, value.number);
      NarrowedMember(items, value.number);
    }
  }

  /** A list that has every number its members are cast to holds what the cast list holds. */
  lemma NarrowedMember(items: seq<FilterValue>, a: I32)
    requires forall v :: v in items ==> v.Int?
    requires forall v :: v in items ==> Int(Narrow(v.number)) in items
    ensures (exists v :: v in items && Narrow(v.number) == a) <==> Int(a) in items
  {
    NarrowInRange(a);
    if Int(a) in items { assert Narrow(Int(a).number) == a; }
  }

  lemma NumberAgrees(lower: Lowercase, hero: Hero, clause: FilterClause, column: Column)
    requires ColumnFor(clause.field) == Some(column) && KindOf(column) == Number
    requires Portable(lower, clause)
    ensures Agrees(lower, hero, clause)
  {
    if clause.op == In {
      NumberInAgrees(lower, hero, clause, column);
    } else {
      FieldIsColumn(lower, hero, clause);
      NarrowExact(clause.op, clause.value.number);
      var value := ValueOf(hero, column);
      if value.Int4? {
        assert Holds(value.number, clause.op, clause.value.number)
          == Holds(value.number, clause.op, Narrow(clause.value.number));
      }
    }
  }

  lemma InstantAgrees(lower: Lowercase, hero: Hero, clause: FilterClause, column: Column)
    requires ColumnFor(clause.field) == Some(column) && KindOf(column) == Instant
    requires Portable(lower, clause)
    ensures Agrees(lower, hero, clause)
  {
    FieldIsColumn(lower, hero, clause);
    var value := ValueOf(hero, column);
    if clause.op == In {
      EvalInNull(Scalars(clause.value.items));
      if value.Timestamp? { InstantIn(clause.value.items, value.time); }
    }
  }

  lemma WordsAgree(lower: Lowercase, hero: Hero, clause: FilterClause, column: Column)
    requires ColumnFor(clause.field) == Some(column) && KindOf(column) == Words
    requires Portable(lower, clause)
    ensures Agrees(lower, hero, clause)
  {
    FieldIsColumn(lower, hero, clause);
    var value := ValueOf(hero, column);
    match clause.op {
      case In =>
        EvalInNull(Scalars(clause.value.items));
        if value.Varchar? { WordsIn(clause.value.items, value.text); }
      case Contains =>
        if value.Varchar? { LikeSubstring(value.text, clause.value.text); }
      case Icontains =>
        var needle := lower(clause.value.text);
        DropWildcardsPlain(needle);
        if value.Varchar? { LikeSubstring(lower(value.text), needle); }
      case _ =>
    }
  }

  // ---- the translation ----

  /** Query translation: a portable clause is true of a row in SQL exactly when the in-memory
      repository matches the row. */
  lemma TranslationAgrees(lower: Lowercase, hero: Hero, clause: FilterClause)
    requires Portable(lower, clause)
    ensures Agrees(lower, hero, clause)
  {
    var found := ColumnFor(clause.field);
    if found.None? {
      FieldIsColumn(lower, hero, clause);
    } else {
      match KindOf(found.value) {
        case Number => NumberAgrees(lower, hero, clause, found.value);
        case Instant => InstantAgrees(lower, hero, clause, found.value);
        case Words => WordsAgree(lower, hero, clause, found.value);
      }
    }
  }

  /** A row that tells a clause's two readings apart. */
  function Witness(number: I32, text: string): Hero {
    Hero(number, Some(text), None, Some(number), text, None, 0, 0)
  }

  lemma NumberDisagrees(lower: Lowercase, clause: FilterClause, column: Column) returns (hero: Hero)
    requires ColumnFor(clause.field) == Some(column) && KindOf(column) == Number
    requires WellTyped(clause) && !Portable(lower, clause)
    ensures !Agrees(lower, hero, clause)
  {
    if clause.op == In {
      var items := clause.value.items;
      var v :| v in items && Int(Narrow(v.number)) !in items;
      hero := Witness(Narrow(v.number), "");
      NumberIn(items, Narrow(v.number));
      FieldIsColumn(lower, hero, clause);
    } else {
      NarrowExact(clause.op, clause.value.number);
      var a: I32 :| Holds(a, clause.op, clause.value.number)
        != Holds(a, clause.op, Narrow(clause.value.number));
      hero := Witness(a, "");
      FieldIsColumn(lower, hero, clause);
    }
  }

  /** Lowercasing leaves the characters it yields alone. */
  ghost predicate Settles(lower: Lowercase) {
    forall s, t :: MadeOf(s, lower(t)) ==> lower(s) == s
  }

  lemma IcontainsDisagrees(lower: Lowercase, clause: FilterClause, column: Column) returns (hero: Hero)
    requires ColumnFor(clause.field) == Some(column) && KindOf(column) == Words
    requires clause.op == Icontains && clause.value.Str? && !Plain(lower(clause.value.text))
    requires Settles(lower)
    ensures !Agrees(lower, hero, clause)
  {
    var s := IcontainsDiffers(lower(clause.value.text));
    assert lower(s) == s;
    hero := Witness(0, s);
    FieldIsColumn(lower, hero, clause);
  }

  /** Among the clauses the parser builds, those on which the two backends agree over every row
      are exactly the portable ones. */
  lemma TranslationExact(lower: Lowercase, clause: FilterClause)
    requires WellTyped(clause) && Settles(lower)
    ensures (forall hero :: Agrees(lower, hero, clause)) <==> Portable(lower, clause)
  {
    if Portable(lower, clause) {
      forall hero ensures Agrees(lower, hero, clause) { TranslationAgrees(lower, hero, clause); }
    } else {
      var column := ColumnFor(clause.field).value;
      if KindOf(column) == Number {
        var hero := NumberDisagrees(lower, clause, column);
      } else if clause.op == Icontains {
        var hero := IcontainsDisagrees(lower, clause, column);
      } else {
        var needle := clause.value.text;
        LikeExact(needle);
        var s :| LikeMatches(s, "%" + needle + "%") != Occurs(s, needle);
        var hero := Witness(0, s);
        FieldIsColumn(lower, hero, clause);
        assert !Agrees(lower, hero, clause);
      }
    }
  }

  /** For a lowered needle without a backslash, portable or not, the case-insensitive search is
      true of a row exactly when its lowered value has in it what is left of the needle: all of
      it but the wildcards. */
  lemma IcontainsFinds(lower: Lowercase, hero: Hero, clause: FilterClause, column: Column)
    requires ColumnFor(clause.field) == Some(column) && KindOf(column) == Words
    requires clause.op == Icontains && clause.value.Str?
    requires '\\' !in lower(clause.value.text)
    ensures var value, needle := ValueOf(hero, column), lower(clause.value.text);
      (Eval(lower, hero, ConditionFor(lower, clause)) == True)
        <==> (value.Varchar? && Occurs(lower(value.text), DropWildcards(needle)))
  {
    var value, needle := ValueOf(hero, column), lower(clause.value.text);
    WithoutWildcardsPlain(needle);
    assert ConditionFor(lower, clause) == LowerLike(column, "%" + DropWildcards(needle) + "%");
    if value.Varchar? { LikeSubstring(lower(value.text), DropWildcards(needle)); }
  }

  /** And the case-sensitive one, whatever the needle, exactly when the value matches it between
      two `%`, its own wildcards and escapes in force. */
  lemma ContainsFinds(lower: Lowercase, hero: Hero, clause: FilterClause, column: Column)
    requires ColumnFor(clause.field) == Some(column) && KindOf(column) == Words
    requires clause.op == Contains && clause.value.Str?
    ensures var value := ValueOf(hero, column);
      (Eval(lower, hero, ConditionFor(lower, clause)) == True)
        <==> (value.Varchar? && LikeMatches(value.text, "%" + clause.value.text + "%"))
  {}

  lemma {:induction false} EvalWhereAnd(lower: Lowercase, row: Hero, a: seq<SqlExpr>, b: seq<SqlExpr>)
    ensures EvalWhere(lower, row, a + b) == And(EvalWhere(lower, row, a), EvalWhere(lower, row, b))
  {
    if a == [] {
      assert a + b == b;
    } else {
      assert (a + b)[1..] == a[1..] + b;
      EvalWhereAnd(lower, row, a[1..], b);
    }
  }

  /** The same for a whole WHERE clause: NULLs never leak a row in or out. */
  lemma {:induction false} WhereAgrees(lower: Lowercase, hero: Hero, filters: seq<FilterClause>)
    requires forall c :: c in filters ==> Portable(lower, c)
    ensures EvalWhere(lower, hero, ConditionsFor(lower, filters)) != Undetermined
    ensures EvalWhere(lower, hero, ConditionsFor(lower, filters)) == True
      <==> MatchesAll(lower, hero, filters)
  {
    if filters != [] {
      assert filters[0] in filters;
      TranslationAgrees(lower, hero, filters[0]);
      WhereAgrees(lower, hero, filters[1..]);
      assert ConditionsFor(lower, filters)[1..] == ConditionsFor(lower, filters[1..]);
      assert MatchesAll(lower, hero, filters)
        <==> MatchesOne(lower, hero, filters[0]) && MatchesAll(lower, hero, filters[1..]) by {
        if MatchesOne(lower, hero, filters[0]) && MatchesAll(lower, hero, filters[1..]) {
          forall i | 0 <= i < |filters| ensures MatchesOne(lower, hero, filters[i]) {
            if i > 0 { assert filters[i] == filters[1..][i - 1]; }
          }
        }
        if MatchesAll(lower, hero, filters) {
          forall i | 0 <= i < |filters[1..]| ensures MatchesOne(lower, hero, filters[1..][i]) {
            assert filters[1..][i] == filters[i + 1];
          }
        }
      }
    }
  }

  /** The archive scope's conditions are the in-memory visibility test. */
  lemma ArchiveScopeIsVisible(lower: Lowercase, row: Hero, includeArchived: bool, onlyArchived: bool)
    ensures EvalWhere(lower, row, ArchiveScope(includeArchived, onlyArchived))
      == Known(Visible(row, includeArchived, onlyArchived))
  {}
}
