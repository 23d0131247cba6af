/** Filter clauses compiled to SQL conditions, what PostgreSQL makes of such a
    condition, and when that is what the in-memory repository makes of the clause
    (src/hero/repositories/hero_sea_orm.rs:33-134). */
module SqlConditions {
  import opened Wrappers
  import opened Heroes
  import opened Text
  import opened Filtering

  // ---- columns and values ----

  datatype Column = Id | Name | PowerLevel | OwnerId | ArchivedAt | CreatedAt | UpdatedAt

  function ColumnFor(field: string): Option<Column> {
    if field == "id" then Some(Id)
    else if field == "name" then Some(Name)
    else if field == "power_level" then Some(PowerLevel)
    else if field == "owner_id" then Some(OwnerId)
    else if field == "archived_at" then Some(ArchivedAt)
    else if field == "created_at" then Some(CreatedAt)
    else if field == "updated_at" then Some(UpdatedAt)
    else None
  }

  datatype SqlValue =
    | Null
    | Varchar(text: string)
    | Int4(number: I32)
    | Timestamp(time: Time)
    | Double(float: real)
    | Boolean(flag: bool)

  function ValueOf(row: Hero, column: Column): SqlValue {
    match column
    case Id => Int4(row.id)
    case Name => if row.name.Some? then Varchar(row.name.value) else Null
    case PowerLevel => if row.powerLevel.Some? then Int4(row.powerLevel.value) else Null
    case OwnerId => Varchar(row.ownerId)
    case ArchivedAt => if row.archivedAt.Some? then Timestamp(row.archivedAt.value) else Null
    case CreatedAt => Timestamp(row.createdAt)
    case UpdatedAt => Timestamp(row.updatedAt)
  }

  // ---- conditions ----

  datatype SqlExpr =
    | AlwaysFalse
    | Compare(column: Column, op: FilterOp, operand: SqlValue)
    | IsIn(column: Column, operands: seq<SqlValue>)
    | Like(column: Column, pattern: string)
    | LowerLike(column: Column, pattern: string)
    | IsNull(column: Column)
    | IsNotNull(column: Column)

  /** An `as i32` cast: the low 32 bits, read as two's complement. */
  function Narrow(n: I64): I32 {
    (n + 0x8000_0000) % 0x1_0000_0000 - 0x8000_0000
  }

  function Scalar(value: FilterValue): SqlValue {
    match value
    case Str(text) => Varchar(text)
    case Int(number) => Int4(Narrow(number))
    case DateTime(time) => Timestamp(time)
    case Float(float) => Double(float)
    case Bool(flag) => Boolean(flag)
    case List(_) => Null
  }

  function ScalarStr(value: FilterValue): string {
    if value.Str? then value.text else ""
  }

  function Scalars(items: seq<FilterValue>): (r: seq<SqlValue>)
    ensures |r| == |items| && forall i :: 0 <= i < |r| ==> r[i] == Scalar(items[i])
  {
    seq(|items|, i requires 0 <= i < |items| => Scalar(items[i]))
  }

  /** `replace(['%', '_'], "")` */
  function DropWildcards(s: string): string {
    if s == [] then []
    else (if s[0] == '%' || s[0] == '_' then [] else [s[0]]) + DropWildcards(s[1..])
  }

  function ConditionFor(lower: Lowercase, clause: FilterClause): SqlExpr {
    var found := ColumnFor(clause.field);
    if found.None? then AlwaysFalse
    else
      var column := found.value;
      match clause.op
      case In =>
        if clause.value.List? then IsIn(column, Scalars(clause.value.items))
        else IsIn(column, [Scalar(clause.value)])
      case Contains => Like(column, "%" + ScalarStr(clause.value) + "%")
      case Icontains =>
        LowerLike(column, "%" + DropWildcards(lower(ScalarStr(clause.value))) + "%")
      case _ => Compare(column, clause.op, Scalar(clause.value))
  }

  // ---- three-valued evaluation ----

  /** SQL's three truth values (PostgreSQL, section 9.1), and a fourth for what this model
      gives no value to: an ill-typed operation, which fails the statement, and an ordering
      of two strings, which depends on the collation. */
  datatype Truth = True | False | Unknown | Undetermined

  function Known(b: bool): Truth { if b then True else False }

  function And(a: Truth, b: Truth): Truth {
    if a == Undetermined || b == Undetermined then Undetermined
    else if a == False || b == False then False
    else if a == Unknown || b == Unknown then Unknown
    else True
  }

  function Or(a: Truth, b: Truth): Truth {
    if a == Undetermined || b == Undetermined then Undetermined
    else if a == True || b == True then True
    else if a == Unknown || b == Unknown then Unknown
    else False
  }

  /** What an operator makes of how its operands compare. */
  function Compared(ord: Ordering, op: FilterOp): Truth {
    match op
    case Eq => Known(ord == Equal)
    case Ne => Known(ord != Equal)
    case Lt => Known(ord == Less)
    case Lte => Known(ord != Greater)
    case Gt => Known(ord == Greater)
    case Gte => Known(ord != Less)
    case _ => Undetermined
  }

  /** Comparison operators (section 9.2): NULL on either side gives NULL. */
  function EvalCompare(left: SqlValue, op: FilterOp, right: SqlValue): Truth {
    match (left, right)
    case (Null, _) => Unknown
    case (_, Null) => Unknown
    case (Int4(a), Int4(b)) => Compared(CompareInt(a, b), op)
    case (Timestamp(a), Timestamp(b)) => Compared(CompareInt(a, b), op)
    case (Varchar(a), Varchar(b)) =>
      if op == Eq then Known(a == b) else if op == Ne then Known(a != b) else Undetermined
    case _ => Undetermined
  }

  /** Membership is the disjunction of the equalities; over no operands it is false. */
  function EvalIn(left: SqlValue, operands: seq<SqlValue>): Truth {
    if operands == [] then False
    else Or(EvalCompare(left, Eq, operands[0]), EvalIn(left, operands[1..]))
  }

  /** LIKE (section 9.7.1): `%` is any sequence, `_` any character, and a backslash takes
      the next pattern character literally. */
  predicate LikeMatches(s: string, pattern: string)
    decreases |pattern|, |s|
  {
    if pattern == [] then s == []
    else if pattern[0] == '%' then
      LikeMatches(s, pattern[1..]) || (s != [] && LikeMatches(s[1..], pattern))
    else if s == [] then false
    else if pattern[0] == '_' then LikeMatches(s[1..], pattern[1..])
    else if pattern[0] == '\\' && |pattern| > 1 then
      s[0] == pattern[1] && LikeMatches(s[1..], pattern[2..])
    else s[0] == pattern[0] && LikeMatches(s[1..], pattern[1..])
  }

  function Eval(lower: Lowercase, row: Hero, expr: SqlExpr): Truth {
    match expr
    case AlwaysFalse => False
    case Compare(column, op, operand) => EvalCompare(ValueOf(row, column), op, operand)
    case IsIn(column, operands) => EvalIn(ValueOf(row, column), operands)
    case Like(column, pattern) =>
      (match ValueOf(row, column)
       case Null => Unknown
       case Varchar(text) => Known(LikeMatches(text, pattern))
       case _ => Undetermined)
    case LowerLike(column, pattern) =>
      (match ValueOf(row, column)
       case Null => Unknown
       case Varchar(text) => Known(LikeMatches(lower(text), pattern))
       case _ => Undetermined)
    case IsNull(column) => Known(ValueOf(row, column).Null?)
    case IsNotNull(column) => Known(!ValueOf(row, column).Null?)
  }

  /** A WHERE clause: every added condition, joined by AND. */
  function EvalWhere(lower: Lowercase, row: Hero, where: seq<SqlExpr>): Truth {
    if where == [] then True
    else And(Eval(lower, row, where[0]), EvalWhere(lower, row, where[1..]))
  }

  function ConditionsFor(lower: Lowercase, filters: seq<FilterClause>): (r: seq<SqlExpr>)
    ensures |r| == |filters|
    ensures forall i :: 0 <= i < |r| ==> r[i] == ConditionFor(lower, filters[i])
  {
    seq(|filters|, i requires 0 <= i < |filters| => ConditionFor(lower, filters[i]))
  }

  function ArchiveScope(includeArchived: bool, onlyArchived: bool): seq<SqlExpr> {
    if onlyArchived then [IsNotNull(ArchivedAt)]
    else if includeArchived then []
    else [IsNull(ArchivedAt)]
  }

  // ---- LIKE against a needle ----

  predicate Metacharacter(c: char) { c == '%' || c == '_' || c == '\\' }

  predicate Plain(needle: string) {
    forall i :: 0 <= i < |needle| ==> !Metacharacter(needle[i])
  }

  lemma {:induction false} LikeAnything(s: string)
    ensures LikeMatches(s, "%")
  {
    if s != [] { LikeAnything(s[1..]); }
  }

  lemma {:induction false} LikePrefix(s: string, needle: string)
    requires Plain(needle)
    ensures LikeMatches(s, needle + "%") <==> needle <= s
  {
    var pattern := needle + "%";
    if needle == [] {
      assert pattern == "%";
      LikeAnything(s);
    } else {
      assert pattern[0] == needle[0] && !Metacharacter(needle[0]);
      assert pattern[1..] == needle[1..] + "%";
      if s != [] {
        LikePrefix(s[1..], needle[1..]);
        assert needle <= s <==> needle[0] == s[0] && needle[1..] <= s[1..];
      }
    }
  }

  lemma {:induction false} LikeAfterPercent(s: string, rest: string)
    ensures LikeMatches(s, "%" + rest) <==>
      (LikeMatches(s, rest) || (s != [] && LikeMatches(s[1..], "%" + rest)))
  {}

  lemma {:induction false} LikeSubstring(s: string, needle: string)
    requires Plain(needle)
    ensures LikeMatches(s, "%" + needle + "%") <==> Occurs(s, needle)
  {
    assert "%" + needle + "%" == "%" + (needle + "%");
    LikeAfterPercent(s, needle + "%");
    LikePrefix(s, needle);
    if s != [] { LikeSubstring(s[1..], needle); }
  }

  /** One string that a pattern matches: nothing for `%`, an `x` for `_`. */
  function Sample(pattern: string): string
  {
    if pattern == [] then []
    else if pattern[0] == '%' then Sample(pattern[1..])
    else if pattern[0] == '_' then "x" + Sample(pattern[1..])
    else if pattern[0] == '\\' && |pattern| > 1 then [pattern[1]] + Sample(pattern[2..])
    else [pattern[0]] + Sample(pattern[1..])
  }

  lemma {:induction false} SampleMatches(pattern: string)
    ensures LikeMatches(Sample(pattern), pattern)
  {
    if pattern != [] {
      if pattern[0] == '\\' && |pattern| > 1 {
        SampleMatches(pattern[2..]);
      } else {
        SampleMatches(pattern[1..]);
      }
    }
  }

  lemma {:induction false} SampleOfNeedle(needle: string)
    ensures |Sample(needle + "%")| <= |needle|
    ensures Sample(needle + "%") == needle ==> Plain(needle)
  {
    var pattern := needle + "%";
    if needle == [] {
      assert pattern[1..] == "";
    } else if needle[0] == '\\' {
      if |needle| == 1 {
        assert pattern[2..] == "" && Sample(pattern) == "%";
      } else {
        assert pattern[2..] == needle[2..] + "%";
        SampleOfNeedle(needle[2..]);
      }
    } else {
      assert pattern[1..] == needle[1..] + "%";
      SampleOfNeedle(needle[1..]);
      if Sample(pattern) == needle {
        assert needle[0] != '%' && needle[0] != '_';
        assert Sample(pattern)[1..] == needle[1..];
        forall i | 0 <= i < |needle| ensures !Metacharacter(needle[i]) {
          if i > 0 { assert needle[i] == needle[1..][i - 1]; }
        }
      }
    }
  }

  /** A needle put between two `%` unescaped finds exactly the strings it occurs in
      if and only if it has no metacharacter. */
  lemma LikeExact(needle: string)
    ensures (forall s :: LikeMatches(s, "%" + needle + "%") <==> Occurs(s, needle)) <==> Plain(needle)
  {
    if Plain(needle) {
      forall s ensures LikeMatches(s, "%" + needle + "%") <==> Occurs(s, needle) {
        LikeSubstring(s, needle);
      }
    } else {
      var s := Sample(needle + "%");
      SampleMatches(needle + "%");
      SampleOfNeedle(needle);
      assert "%" + needle + "%" == "%" + (needle + "%");
      LikeAfterPercent(s, needle + "%");
      assert LikeMatches(s, "%" + needle + "%");
      if Occurs(s, needle) { OccursInShort(s, needle); }
    }
  }

  lemma {:induction false} DropWildcardsPlain(s: string)
    ensures Plain(s) ==> DropWildcards(s) == s
    ensures DropWildcards(s) == s ==> forall i :: 0 <= i < |s| ==> s[i] != '%' && s[i] != '_'
    ensures |DropWildcards(s)| <= |s|
  {
    if s != [] {
      DropWildcardsPlain(s[1..]);
      assert Plain(s) ==> Plain(s[1..]);
      if DropWildcards(s) == s {
        assert s[0] != '%' && s[0] != '_';
        assert DropWildcards(s)[1..] == s[1..];
        forall i | 0 <= i < |s| ensures s[i] != '%' && s[i] != '_' {
          if i > 0 { assert s[i] == s[1..][i - 1]; }
        }
      }
    }
  }

  /** The same for the case-insensitive search, whose (already lowercased) needle loses its
      `%` and `_` first: it still finds what the needle occurs in only for a plain needle. */
  lemma IcontainsExact(needle: string)
    ensures (forall s :: LikeMatches(s, "%" + DropWildcards(needle) + "%") <==> Occurs(s, needle))
      <==> Plain(needle)
  {
    DropWildcardsPlain(needle);
    if Plain(needle) {
      LikeExact(needle);
    } else if DropWildcards(needle) == needle {
      LikeExact(needle);
    } else {
      var kept := DropWildcards(needle);
      var s := Sample(kept + "%");
      SampleMatches(kept + "%");
      SampleOfNeedle(kept);
      DropWildcardsShorter(needle);
      assert "%" + kept + "%" == "%" + (kept + "%");
      LikeAfterPercent(s, kept + "%");
      assert LikeMatches(s, "%" + kept + "%");
      if Occurs(s, needle) { OccursInShort(s, needle); }
    }
  }

  lemma {:induction false} DropWildcardsShorter(s: string)
    requires DropWildcards(s) != s
    ensures |DropWildcards(s)| < |s|
  {
    if s != [] {
      if s[0] == '%' || s[0] == '_' {
        DropWildcardsPlain(s[1..]);
      } else {
        assert s == [s[0]] + s[1..];
        DropWildcardsShorter(s[1..]);
      }
    }
  }

  // ---- exactly the wildcards go ----

  /** The positions of a string that hold no wildcard, in order. */
  function OtherPositions(s: string): (at: seq<nat>)
    ensures forall i, j :: 0 <= i < j < |at| ==> at[i] < at[j]
    ensures forall i: nat :: i in at <==> i < |s| && s[i] != '%' && s[i] != '_'
  {
    if s == [] then []
    else
      var k := |s| - 1;
      var front := OtherPositions(s[..k]);
      assert forall i: nat :: i in front <==> i < k && s[i] != '%' && s[i] != '_' by {
        assert forall i: nat :: i < k ==> s[..k][i] == s[i];
      }
      assert forall j :: 0 <= j < |front| ==> front[j] in front;
      if s[k] == '%' || s[k] == '_' then front else front + [k]
  }

  lemma {:induction false} DropWildcardsLast(s: string, c: char)
    ensures DropWildcards(s + [c])
      == DropWildcards(s) + if c == '%' || c == '_' then [] else [c]
  {
    if s == [] {
      assert (s + [c])[1..] == [] && (s + [c])[0] == c;
    } else {
      assert (s + [c])[1..] == s[1..] + [c];
      DropWildcardsLast(s[1..], c);
    }
  }

  /** What is left is the string read at all those positions, in order, and at no others. */
  lemma {:induction false} DropWildcardsExact(s: string)
    ensures |DropWildcards(s)| == |OtherPositions(s)|
    ensures forall j :: 0 <= j < |OtherPositions(s)| ==>
      OtherPositions(s)[j] in OtherPositions(s) && DropWildcards(s)[j] == s[OtherPositions(s)[j]]
  {
    if s != [] {
      var k := |s| - 1;
      assert s == s[..k] + [s[k]];
      DropWildcardsLast(s[..k], s[k]);
      DropWildcardsExact(s[..k]);
    }
  }

  // ---- a needle told apart by strings of its own characters ----

  predicate MadeOf(s: string, t: string) { forall i :: 0 <= i < |s| ==> s[i] in t }

  lemma {:induction false} DropWildcardsMadeOf(s: string)
    ensures MadeOf(DropWildcards(s), s) && '%' !in DropWildcards(s) && '_' !in DropWildcards(s)
  {
    if s != [] { DropWildcardsMadeOf(s[1..]); }
  }

  lemma WithoutWildcardsPlain(needle: string)
    requires '\\' !in needle
    ensures Plain(DropWildcards(needle))
  {
    DropWildcardsMadeOf(needle);
    var kept := DropWildcards(needle);
    forall i | 0 <= i < |kept| ensures !Metacharacter(kept[i]) { assert kept[i] in kept; }
  }

  lemma {:induction false} SampleMadeOf(pattern: string)
    requires '_' !in pattern
    ensures MadeOf(Sample(pattern), pattern)
  {
    if pattern != [] {
      if pattern[0] == '\\' && |pattern| > 1 {
        SampleMadeOf(pattern[2..]);
      } else {
        SampleMadeOf(pattern[1..]);
      }
    }
  }

  /** What a pattern demands literally, every string it matches has. */
  lemma {:induction false} MatchHasSample(s: string, pattern: string, c: char)
    requires '_' !in pattern && LikeMatches(s, pattern) && c in Sample(pattern)
    ensures c in s
    decreases |pattern|, |s|
  {
    if pattern[0] == '%' {
      if LikeMatches(s, pattern[1..]) {
        MatchHasSample(s, pattern[1..], c);
      } else {
        MatchHasSample(s[1..], pattern, c);
      }
    } else if pattern[0] == '\\' && |pattern| > 1 {
      if c != pattern[1] { MatchHasSample(s[1..], pattern[2..], c); }
    } else {
      if c != pattern[0] { MatchHasSample(s[1..], pattern[1..], c); }
    }
  }

  /** A needle that is not plain is told apart from its pattern by a string of its characters. */
  lemma IcontainsDiffers(needle: string) returns (s: string)
    requires !Plain(needle)
    ensures MadeOf(s, needle)
    ensures LikeMatches(s, "%" + DropWildcards(needle) + "%") != Occurs(s, needle)
  {
    var kept := DropWildcards(needle);
    var tail := kept + "%";
    DropWildcardsMadeOf(needle);
    assert '_' !in tail;
    assert "%" + kept + "%" == "%" + tail && ("%" + tail)[1..] == tail;
    s := Sample(tail);
    if '%' in s && '%' !in needle {
      if LikeMatches(needle, "%" + tail) { MatchHasSample(needle, "%" + tail, '%'); }
      s := needle;
    } else {
      SampleMadeOf(tail);
      SampleMatches(tail);
      SampleOfNeedle(kept);
      LikeAfterPercent(s, tail);
      DropWildcardsPlain(needle);
      if kept != needle { DropWildcardsShorter(needle); }
      if Occurs(s, needle) { OccursInShort(s, needle); }
    }
  }
}
