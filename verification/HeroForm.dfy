/** The HTML form: parsing its text fields, rendering a row's, and what submitting a rendered
    row does (src/hero/views/hero_form.rs:31-101, src/hero/controllers/heroes_web.rs:124-142). */
module HeroForm {
  import opened Wrappers
  import opened Heroes
  import opened HeroViews
  import opened HtmlEscape

  // ---- whitespace ----

  /** `char::is_whitespace`: the code points with the Unicode White_Space property. */
  predicate White(c: char) {
    var n := c as int;
    9 <= n <= 13 || n == 32 || n == 0x85 || n == 0xa0 || n == 0x1680 || 0x2000 <= n <= 0x200a
    || n == 0x2028 || n == 0x2029 || n == 0x202f || n == 0x205f || n == 0x3000
  }

  /** Spaces, tabs and line ends are white; commas, signs and digits are not. */
  lemma WhiteOrNot(c: char)
    ensures c in " \t\r\n" ==> White(c)
    ensures c in ",+-0123456789" ==> !White(c)
  {
    if c in ",+-0123456789" { assert ',' <= c <= '9' || c == '+'; }
  }

  function TrimStart(s: string): string {
    if s != [] && White(s[0]) then TrimStart(s[1..]) else s
  }

  function TrimEnd(s: string): string {
    if s != [] && White(s[|s| - 1]) then TrimEnd(s[..|s| - 1]) else s
  }

  function Trim(s: string): string { TrimEnd(TrimStart(s)) }

  /** A power as the parser produces it: not empty, without white space at its ends or commas. */
  predicate Clean(p: string) {
    p != [] && !White(p[0]) && !White(p[|p| - 1]) && forall i :: 0 <= i < |p| ==> p[i] != ','
  }

  predicate CommaFree(s: string) { forall i :: 0 <= i < |s| ==> s[i] != ',' }

  lemma {:induction false} TrimStartResult(s: string)
    ensures TrimStart(s) == [] || !White(TrimStart(s)[0])
    ensures CommaFree(s) ==> CommaFree(TrimStart(s))
  {
    if s != [] && White(s[0]) { TrimStartResult(s[1..]); }
  }

  lemma {:induction false} TrimEndResult(s: string)
    ensures TrimEnd(s) == [] || !White(TrimEnd(s)[|TrimEnd(s)| - 1])
    ensures TrimEnd(s) <= s
    ensures CommaFree(s) ==> CommaFree(TrimEnd(s))
  {
    if s != [] && White(s[|s| - 1]) { TrimEndResult(s[..|s| - 1]); }
  }

  lemma TrimIsClean(s: string)
    requires CommaFree(s)
    ensures Trim(s) == [] || Clean(Trim(s))
  {
    TrimStartResult(s);
    TrimEndResult(TrimStart(s));
  }

  predicate AllWhite(s: string) { forall i :: 0 <= i < |s| ==> White(s[i]) }

  lemma {:induction false} TrimStartExact(before: string, s: string)
    requires AllWhite(before) && (s == [] || !White(s[0]))
    ensures TrimStart(before + s) == s
  {
    if before == [] {
      assert before + s == s;
    } else {
      assert (before + s)[1..] == before[1..] + s;
      TrimStartExact(before[1..], s);
    }
  }

  lemma {:induction false} TrimEndExact(s: string, after: string)
    requires AllWhite(after) && (s == [] || !White(s[|s| - 1]))
    ensures TrimEnd(s + after) == s
  {
    if after == [] {
      assert s + after == s;
    } else {
      var k := |after| - 1;
      assert (s + after)[..|s| + k] == s + after[..k];
      TrimEndExact(s, after[..k]);
    }
  }

  // ---- powers ----

  /** `split(',')` */
  function Split(s: string): (r: seq<string>)
    ensures r != []
  {
    if s == [] then [[]]
    else
      var rest := Split(s[1..]);
      if s[0] == ',' then [[]] + rest else [[s[0]] + rest[0]] + rest[1..]
  }

  function KeepTrimmed(pieces: seq<string>): seq<string> {
    if pieces == [] then []
    else
      var piece := Trim(pieces[0]);
      (if piece == [] then [] else [piece]) + KeepTrimmed(pieces[1..])
  }

  function ParsePowers(raw: string): seq<string> { KeepTrimmed(Split(raw)) }

  /** `join(", ")` */
  function Join(powers: seq<string>): string {
    if powers == [] then []
    else if |powers| == 1 then powers[0]
    else powers[0] + ", " + Join(powers[1..])
  }

  predicate AllClean(powers: seq<string>) { forall i :: 0 <= i < |powers| ==> Clean(powers[i]) }

  lemma {:induction false} SplitPieces(s: string)
    ensures forall i :: 0 <= i < |Split(s)| ==> CommaFree(Split(s)[i])
  {
    if s != [] { SplitPieces(s[1..]); }
  }

  lemma {:induction false} KeepTrimmedIsClean(pieces: seq<string>)
    requires forall i :: 0 <= i < |pieces| ==> CommaFree(pieces[i])
    ensures AllClean(KeepTrimmed(pieces))
  {
    if pieces != [] {
      TrimIsClean(pieces[0]);
      KeepTrimmedIsClean(pieces[1..]);
    }
  }

  /** Whatever was typed, what is parsed is clean. */
  lemma ParsedIsClean(raw: string)
    ensures AllClean(ParsePowers(raw))
  {
    SplitPieces(raw);
    KeepTrimmedIsClean(Split(raw));
  }

  lemma {:induction false} SplitFirst(a: string, b: string)
    requires CommaFree(a)
    ensures Split(a) == [a]
    ensures Split(a + "," + b) == [a] + Split(b)
  {
    var s := a + "," + b;
    if a == [] {
      assert s[1..] == b && s[0] == ',';
    } else {
      assert s[0] == a[0] && s[1..] == a[1..] + "," + b;
      SplitFirst(a[1..], b);
      assert a == [a[0]] + a[1..];
    }
  }

  /** A piece of the input between commas: what is kept of it, and the white space around. */
  datatype Piece = Piece(before: string, core: string, after: string)
  {
    function Text(): string { before + core + after }

    predicate Cut() {
      AllWhite(before) && AllWhite(after) && (core == [] || Clean(core))
    }
  }

  predicate AllCut(pieces: seq<Piece>) { forall i :: 0 <= i < |pieces| ==> pieces[i].Cut() }

  lemma PieceText(p: Piece)
    requires p.Cut()
    ensures CommaFree(p.Text()) && Trim(p.Text()) == p.core
  {
    if p.core == [] {
      TrimStartExact(p.Text(), []);
      assert p.Text() + [] == p.Text();
    } else {
      assert p.Text() == p.before + (p.core + p.after);
      TrimStartExact(p.before, p.core + p.after);
      TrimEndExact(p.core, p.after);
    }
  }

  /** Pieces as typed into the one text field. */
  function Typed(pieces: seq<Piece>): string
    requires pieces != []
  {
    if |pieces| == 1 then pieces[0].Text() else pieces[0].Text() + "," + Typed(pieces[1..])
  }

  function Cores(pieces: seq<Piece>): seq<string> {
    if pieces == [] then []
    else (if pieces[0].core == [] then [] else [pieces[0].core]) + Cores(pieces[1..])
  }

  /** Every input is a list of pieces between commas, ... */
  lemma {:induction false} PiecesOf(raw: string) returns (pieces: seq<Piece>)
    ensures pieces != [] && AllCut(pieces) && Typed(pieces) == raw
  {
    var k := 0;
    while k < |raw| && raw[k] != ','
      invariant 0 <= k <= |raw| && CommaFree(raw[..k])
    {
      k := k + 1;
    }
    var first := CutPiece(raw[..k]);
    if k == |raw| {
      return [first];
    }
    var rest := PiecesOf(raw[k + 1..]);
    pieces := [first] + rest;
    assert pieces[1..] == rest && raw == raw[..k] + "," + raw[k + 1..];
  }

  lemma CutPiece(s: string) returns (p: Piece)
    requires CommaFree(s)
    ensures p.Cut() && p.Text() == s
  {
    var left := LeadingWhite(s);
    var right := TrailingWhite(TrimStart(s));
    TrimIsClean(s);
    p := Piece(left, Trim(s), right);
    Associates(left, Trim(s), right);
  }

  lemma Associates<T>(a: seq<T>, b: seq<T>, c: seq<T>)
    ensures a + b + c == a + (b + c)
  {}

  lemma {:induction false} LeadingWhite(s: string) returns (left: string)
    ensures AllWhite(left) && left + TrimStart(s) == s
  {
    left := [];
    if s != [] && White(s[0]) {
      var more := LeadingWhite(s[1..]);
      left := [s[0]] + more;
      assert left + TrimStart(s) == [s[0]] + (more + TrimStart(s[1..]));
    }
  }

  lemma {:induction false} TrailingWhite(s: string) returns (right: string)
    ensures AllWhite(right) && TrimEnd(s) + right == s
  {
    right := [];
    if s != [] && White(s[|s| - 1]) {
      var more := TrailingWhite(s[..|s| - 1]);
      right := more + [s[|s| - 1]];
      assert TrimEnd(s) + right == (TrimEnd(s[..|s| - 1]) + more) + [s[|s| - 1]];
    }
  }

  /** ... and what is parsed are the pieces without the white space around them, those that are
      nothing else left out. */
  lemma {:induction false} TypedParses(pieces: seq<Piece>)
    requires pieces != [] && AllCut(pieces)
    ensures ParsePowers(Typed(pieces)) == Cores(pieces)
  {
    var text := pieces[0].Text();
    PieceText(pieces[0]);
    if |pieces| == 1 {
      SplitFirst(text, "");
      assert KeepTrimmed([text][1..]) == [] && Cores(pieces[1..]) == [];
    } else {
      TypedParses(pieces[1..]);
      SplitFirst(text, Typed(pieces[1..]));
      assert ([text] + Split(Typed(pieces[1..])))[1..] == Split(Typed(pieces[1..]));
    }
  }

  /** Joined powers are pieces, a space before each but the first. */
  function JoinPieces(pad: string, powers: seq<string>): (r: seq<Piece>)
    ensures |r| == |powers|
    decreases |powers|
  {
    if powers == [] then [] else [Piece(pad, powers[0], "")] + JoinPieces(" ", powers[1..])
  }

  lemma {:induction false} JoinIsTyped(pad: string, powers: seq<string>)
    requires powers != [] && AllClean(powers) && AllWhite(pad)
    ensures AllCut(JoinPieces(pad, powers)) && Cores(JoinPieces(pad, powers)) == powers
    ensures Typed(JoinPieces(pad, powers)) == pad + Join(powers)
    decreases |powers|
  {
    var pieces := JoinPieces(pad, powers);
    assert pieces[1..] == JoinPieces(" ", powers[1..]);
    assert powers == [powers[0]] + powers[1..];
    if |powers| == 1 {
      assert Cores(pieces[1..]) == [];
      assert pieces[0].Text() == pad + powers[0];
    } else {
      JoinIsTyped(" ", powers[1..]);
      assert Typed(pieces) == pad + powers[0] + "" + "," + (" " + Join(powers[1..]));
      assert Typed(pieces) == pad + (powers[0] + ", " + Join(powers[1..]));
    }
  }

  lemma ParseJoined(powers: seq<string>)
    requires AllClean(powers)
    ensures ParsePowers(Join(powers)) == powers
  {
    if powers == [] {
      var none := [Piece("", "", "")];
      TypedParses(none);
      assert Typed(none) == "" && Cores(none[1..]) == [];
    } else {
      JoinIsTyped("", powers);
      TypedParses(JoinPieces("", powers));
      assert "" + Join(powers) == Join(powers);
    }
  }

  /** Rendering a list of powers into the one text field and parsing it gives the list back
      if and only if every power is clean. */
  lemma JoinRoundTripExact(powers: seq<string>)
    ensures ParsePowers(Join(powers)) == powers <==> AllClean(powers)
  {
    ParsedIsClean(Join(powers));
    if AllClean(powers) {
      ParseJoined(powers);
    }
  }

  /** So for every input, rendering what was parsed and parsing it again changes nothing. */
  lemma ParsingSettles(raw: string)
    ensures ParsePowers(Join(ParsePowers(raw))) == ParsePowers(raw)
  {
    ParsedIsClean(raw);
    JoinRoundTripExact(ParsePowers(raw));
  }

  // ---- whole numbers ----

  predicate Digit(c: char) { '0' <= c <= '9' }

  function DigitValue(c: char): nat
    requires Digit(c)
  {
    c as int - '0' as int
  }

  predicate Digits(s: string) { forall i :: 0 <= i < |s| ==> Digit(s[i]) }

  function Value(s: string): nat
    requires Digits(s)
  {
    if s == [] then 0 else Value(s[..|s| - 1]) * 10 + DigitValue(s[|s| - 1])
  }

  function AsI32(n: int): Option<I32> { if I32_MIN <= n <= I32_MAX then Some(n) else None }

  /** `parse::<i32>`: an optional sign, then digits, at least one, within range. */
  function ParseI32(s: string): Option<I32> {
    var signed := s != [] && (s[0] == '+' || s[0] == '-');
    var digits := if signed then s[1..] else s;
    if digits == [] || !Digits(digits) then None
    else
      var magnitude: int := Value(digits);
      AsI32(if signed && s[0] == '-' then -magnitude else magnitude)
  }

  function PrintNat(n: nat): (s: string)
    ensures s != [] && Digits(s) && Value(s) == n
  {
    var last := ('0' as int + n % 10) as char;
    assert DigitValue(last) == n % 10;
    if n < 10 then
      assert Value([last][..0]) == 0;
      [last]
    else
      var front := PrintNat(n / 10);
      assert (front + [last])[..|front|] == front;
      front + [last]
  }

  function PrintInt(n: int): string { if n < 0 then "-" + PrintNat(-n) else PrintNat(n) }

  /** Every 32-bit number survives printing and parsing, the most negative one included. */
  lemma PrintRoundTrip(n: I32)
    ensures ParseI32(PrintInt(n)) == Some(n)
  {}

  // ---- which texts are numbers ----

  predicate Zeros(s: string) { forall i :: 0 <= i < |s| ==> s[i] == '0' }

  predicate SignOf(sign: string, n: int) {
    (n >= 0 && (sign == "" || sign == "+")) || (n <= 0 && sign == "-")
  }

  function Magnitude(n: int): nat { if n < 0 then -n else n }

  /** A number as it is printed, perhaps with leading zeros and a plus sign. */
  ghost predicate Numeral(s: string, n: int) {
    exists sign, zeros :: SignOf(sign, n) && Zeros(zeros) && s == sign + (zeros + PrintNat(Magnitude(n)))
  }

  lemma {:induction false} LeadingZeros(zeros: string, digits: string)
    requires Zeros(zeros) && Digits(digits)
    ensures Digits(zeros + digits) && Value(zeros + digits) == Value(digits)
  {
    if digits == [] {
      assert zeros + digits == zeros;
      ZerosAreNothing(zeros);
    } else {
      var k := |digits| - 1;
      LeadingZeros(zeros, digits[..k]);
      assert (zeros + digits)[..|zeros| + k] == zeros + digits[..k];
    }
  }

  lemma {:induction false} ZerosAreNothing(zeros: string)
    requires Zeros(zeros)
    ensures Digits(zeros) && Value(zeros) == 0
  {
    if zeros != [] { ZerosAreNothing(zeros[..|zeros| - 1]); }
  }

  lemma PrintedNext(m: nat, last: char)
    requires Digit(last)
    ensures PrintNat(m * 10 + DigitValue(last)) == if m == 0 then [last] else PrintNat(m) + [last]
  {
    var n := m * 10 + DigitValue(last);
    assert n / 10 == m && n % 10 == DigitValue(last);
    assert ('0' as int + n % 10) as char == last;
  }

  /** Digits are zeros before the printed form of their value. */
  lemma {:induction false} DigitsArePrinted(digits: string) returns (zeros: string)
    requires digits != [] && Digits(digits)
    ensures Zeros(zeros) && digits == zeros + PrintNat(Value(digits))
  {
    var k := |digits| - 1;
    var front, last := digits[..k], digits[k];
    PrintedNext(Value(front), last);
    if k == 0 {
      zeros := [];
    } else {
      zeros := DigitsArePrinted(front);
      assert digits == front + [last];
      if Value(front) == 0 {
        assert front == zeros + "0";
        zeros := zeros + "0";
      }
    }
  }

  lemma SignedParses(sign: string, digits: string)
    requires sign == "" || sign == "+" || sign == "-"
    requires digits != [] && Digits(digits)
    ensures var magnitude: int := Value(digits);
      ParseI32(sign + digits) == AsI32(if sign == "-" then -magnitude else magnitude)
  {
    assert Digit(digits[0]);
    if sign == "" { assert sign + digits == digits; } else { assert (sign + digits)[1..] == digits; }
  }

  lemma NumeralParses(n: I32, sign: string, zeros: string)
    requires SignOf(sign, n) && Zeros(zeros)
    ensures ParseI32(sign + (zeros + PrintNat(Magnitude(n)))) == Some(n)
  {
    LeadingZeros(zeros, PrintNat(Magnitude(n)));
    SignedParses(sign, zeros + PrintNat(Magnitude(n)));
  }

  lemma SignAndDigits(s: string) returns (sign: string, digits: string)
    requires ParseI32(s).Some?
    ensures s == sign + digits && (sign == "" || sign == "+" || sign == "-")
    ensures digits != [] && Digits(digits)
  {
    if s[0] == '+' || s[0] == '-' { sign, digits := [s[0]], s[1..]; } else { sign, digits := "", s; }
  }

  lemma ParsedIsNumeral(s: string, n: I32)
    requires ParseI32(s) == Some(n)
    ensures Numeral(s, n)
  {
    var sign, digits := SignAndDigits(s);
    SignedParses(sign, digits);
    var zeros := DigitsArePrinted(digits);
    assert SignOf(sign, n) && Magnitude(n) == Value(digits);
  }

  /** Exactly the numerals in range are parsed, each as its number. */
  lemma ParseI32Exact(s: string, n: I32)
    ensures ParseI32(s) == Some(n) <==> Numeral(s, n)
  {
    if ParseI32(s) == Some(n) { ParsedIsNumeral(s, n); }
    if Numeral(s, n) {
      var sign, zeros :| SignOf(sign, n) && Zeros(zeros) && s == sign + (zeros + PrintNat(Magnitude(n)));
      NumeralParses(n, sign, zeros);
    }
  }

  function ParsePowerLevel(raw: string): Result<Option<I32>, FieldError> {
    var trimmed := Trim(raw);
    if trimmed == [] then Ok(None)
    else
      var parsed := ParseI32(trimmed);
      if parsed.Some? then Ok(parsed) else Err(FieldError("power_level", NotAWholeNumber))
  }

  lemma NumeralEnds(s: string, n: int)
    requires Numeral(s, n)
    ensures s != [] && !White(s[0]) && !White(s[|s| - 1])
  {
    var sign, zeros :| SignOf(sign, n) && Zeros(zeros) && s == sign + (zeros + PrintNat(Magnitude(n)));
    var digits := PrintNat(Magnitude(n));
    assert Digit(digits[0]) && Digit(digits[|digits| - 1]);
    assert s[|s| - 1] == digits[|digits| - 1];
    assert s[0] == if sign != "" then sign[0] else if zeros != "" then zeros[0] else digits[0];
  }

  lemma TrimExact(before: string, core: string, after: string)
    requires AllWhite(before) && AllWhite(after)
    requires core != [] ==> !White(core[0]) && !White(core[|core| - 1])
    ensures Trim(before + core + after) == core
  {
    if core == [] {
      var s := before + core + after;
      assert s + [] == s;
      TrimStartExact(s, []);
    } else {
      assert before + core + after == before + (core + after);
      TrimStartExact(before, core + after);
      TrimEndExact(core, after);
    }
  }

  /** White space around a text. */
  ghost predicate Padded(raw: string, core: string) {
    exists before, after :: AllWhite(before) && AllWhite(after) && raw == before + core + after
  }

  lemma TrimmedIsPadded(raw: string)
    ensures Padded(raw, Trim(raw))
  {
    var before := LeadingWhite(raw);
    var after := TrailingWhite(TrimStart(raw));
    Associates(before, Trim(raw), after);
  }

  /** The level field is read as no level exactly when it is blank, and as a number exactly when
      it is a numeral of that number with white space around it. */
  lemma ParsePowerLevelExact(raw: string, n: I32)
    ensures ParsePowerLevel(raw) == Ok(None) <==> AllWhite(raw)
    ensures ParsePowerLevel(raw) == Ok(Some(n)) <==> exists s :: Numeral(s, n) && Padded(raw, s)
  {
    TrimmedIsPadded(raw);
    if AllWhite(raw) {
      assert raw + "" + "" == raw;
      TrimExact(raw, "", "");
    }
    ParseI32Exact(Trim(raw), n);
    if s :| Numeral(s, n) && Padded(raw, s) {
      NumeralEnds(s, n);
      var before, after :| AllWhite(before) && AllWhite(after) && raw == before + s + after;
      TrimExact(before, s, after);
    }
  }

  function PrintPowerLevel(level: Option<I32>): string {
    if level.Some? then PrintInt(level.value) else ""
  }

  lemma PowerLevelRoundTrip(level: Option<I32>)
    ensures ParsePowerLevel(PrintPowerLevel(level)) == Ok(level)
  {}

  // ---- the form ----

  datatype HeroFormFields = HeroFormFields(name: string, powers: string, powerLevel: string)

  function LevelErrors(fields: HeroFormFields): seq<FieldError> {
    var level := ParsePowerLevel(fields.powerLevel);
    if level.Err? then [level.error] else []
  }

  function ParsedLevel(fields: HeroFormFields): Option<I32> {
    var level := ParsePowerLevel(fields.powerLevel);
    if level.Ok? then level.value else None
  }

  function FormErrors(fields: HeroFormFields): seq<FieldError> {
    LevelErrors(fields) + TextErrors("name", fields.name) + PowersErrors(ParsePowers(fields.powers))
  }

  /** The level field, with its error pushed if it has one. */
  method ReadPowerLevel(fields: HeroFormFields)
    returns (powerLevel: Option<I32>, fieldErrors: seq<FieldError>)
    ensures powerLevel == ParsedLevel(fields) && fieldErrors == LevelErrors(fields)
  {
    fieldErrors := [];
    match ParsePowerLevel(fields.powerLevel) {
      case Ok(value) => powerLevel := value;
      case Err(error) =>
        fieldErrors := fieldErrors + [error];
        powerLevel := None;
    }
  }

  lemma FormErrorsAre(fields: HeroFormFields, level: Option<I32>)
    ensures var powers := ParsePowers(fields.powers);
      && FormErrors(fields) == LevelErrors(fields) + CreateErrors(HeroCreate(fields.name, powers, level))
      && FormErrors(fields)
        == LevelErrors(fields) + UpdateErrors(HeroUpdate(Some(fields.name), Some(powers), level))
  {
    Associates(LevelErrors(fields), TextErrors("name", fields.name), PowersErrors(ParsePowers(fields.powers)));
  }

  method IntoHeroCreate(fields: HeroFormFields) returns (result: Result<HeroCreate, seq<FieldError>>)
    ensures result == if FormErrors(fields) == []
      then Ok(HeroCreate(fields.name, ParsePowers(fields.powers), ParsedLevel(fields)))
      else Err(FormErrors(fields))
  {
    var powerLevel, fieldErrors := ReadPowerLevel(fields);
    FormErrorsAre(fields, powerLevel);
    var create := HeroCreate(fields.name, ParsePowers(fields.powers), powerLevel);
    var verdict := ValidateCreate(create);
    if verdict.Err? { fieldErrors := fieldErrors + verdict.error; }
    assert fieldErrors == FormErrors(fields);
    result := if fieldErrors == [] then Ok(create) else Err(fieldErrors);
  }

  method IntoHeroUpdate(fields: HeroFormFields) returns (result: Result<HeroUpdate, seq<FieldError>>)
    ensures result == UpdateOf(fields)
  {
    var powerLevel, fieldErrors := ReadPowerLevel(fields);
    FormErrorsAre(fields, powerLevel);
    var update := HeroUpdate(Some(fields.name), Some(ParsePowers(fields.powers)), powerLevel);
    var verdict := ValidateUpdate(update);
    if verdict.Err? { fieldErrors := fieldErrors + verdict.error; }
    assert fieldErrors == FormErrors(fields);
    result := if fieldErrors == [] then Ok(update) else Err(fieldErrors);
  }

  function UpdateOf(fields: HeroFormFields): Result<HeroUpdate, seq<FieldError>> {
    if FormErrors(fields) == []
    then Ok(HeroUpdate(Some(fields.name), Some(ParsePowers(fields.powers)), ParsedLevel(fields)))
    else Err(FormErrors(fields))
  }

  /** A submitted power level is what the record then has, except that a blank field does not
      clear a level the record had: exactly then the two differ. */
  lemma BlankLevelExact(hero: Hero, fields: HeroFormFields, now: Time)
    requires UpdateOf(fields).Ok?
    ensures ApplyUpdate(hero, UpdateOf(fields).value, now).powerLevel == ParsedLevel(fields)
      <==> !(Trim(fields.powerLevel) == [] && hero.powerLevel.Some?)
  {}

  // ---- a row, unedited ----

  /** The values a row's form shows, as they stand between the quotes of its attributes. */
  function RowHtml(hero: Hero): HeroFormFields {
    HeroFormFields(
      EscapeHtml(if hero.name.Some? then hero.name.value else ""),
      EscapeHtml(Join(if hero.powers.Some? then hero.powers.value else [])),
      PrintPowerLevel(hero.powerLevel))
  }

  /** What a browser submits for a row nobody edited. */
  function Submitted(row: HeroFormFields): HeroFormFields {
    HeroFormFields(Unescape(row.name), Unescape(row.powers), Unescape(row.powerLevel))
  }

  lemma {:induction false} UnescapePlain(s: string)
    requires Without(s, '&')
    ensures Unescape(s) == s
  {
    if s != [] {
      assert s[0] != '&';
      UnescapePlain(s[1..]);
    }
  }

  lemma PrintedIsPlain(n: int)
    ensures Without(PrintInt(n), '&')
  {}

  lemma SubmittedRow(hero: Hero)
    ensures Submitted(RowHtml(hero)) == HeroFormFields(
      if hero.name.Some? then hero.name.value else "",
      Join(if hero.powers.Some? then hero.powers.value else []),
      PrintPowerLevel(hero.powerLevel))
  {
    EscapeRoundTrip(if hero.name.Some? then hero.name.value else "");
    EscapeRoundTrip(Join(if hero.powers.Some? then hero.powers.value else []));
    if hero.powerLevel.Some? { PrintedIsPlain(hero.powerLevel.value); }
    UnescapePlain(PrintPowerLevel(hero.powerLevel));
  }

  /** Nothing a row shows can end its attribute or open a tag. */
  lemma RowIsInert(hero: Hero)
    ensures Inert(RowHtml(hero).name) && Inert(RowHtml(hero).powers) && Inert(RowHtml(hero).powerLevel)
  {
    EscapeIsInert(if hero.name.Some? then hero.name.value else "");
    EscapeIsInert(Join(if hero.powers.Some? then hero.powers.value else []));
    if hero.powerLevel.Some? { PrintedIsInert(hero.powerLevel.value); }
  }

  lemma PrintedIsInert(n: int)
    ensures Inert(PrintInt(n))
  {
    var digits := if n < 0 then PrintNat(-n) else PrintNat(n);
    assert forall i :: 0 <= i < |digits| ==> Digit(digits[i]);
  }

  /** A record the form can show and take back. */
  predicate Editable(hero: Hero) {
    && hero.name.Some? && LengthOk(hero.name.value)
    && hero.powers.Some? && PowersOk(hero.powers.value) && AllClean(hero.powers.value)
  }

  /** Submitting a row unedited is accepted and changes nothing but the modification stamp if
      and only if the record is editable: a valid name, and valid powers that are trimmed and
      free of commas. The power level does not matter. */
  lemma UneditedRowExact(hero: Hero, now: Time)
    ensures
      var result := UpdateOf(Submitted(RowHtml(hero)));
      (result.Ok? && ApplyUpdate(hero, result.value, now) == hero.(updatedAt := now))
        <==> Editable(hero)
  {
    var fields := Submitted(RowHtml(hero));
    var powers := if hero.powers.Some? then hero.powers.value else [];
    SubmittedRow(hero);
    PowerLevelRoundTrip(hero.powerLevel);
    JoinRoundTripExact(powers);
    PowersErrorsExact(ParsePowers(fields.powers));
    assert FormErrors(fields) == []
      <==> TextErrors("name", fields.name) == [] && PowersErrors(ParsePowers(fields.powers)) == [];
  }
}
