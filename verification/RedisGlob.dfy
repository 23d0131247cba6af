/** Redis glob patterns, escaping, and what the cache's invalidation pattern selects
    (src/cache.rs:54-64, 106-112). */
module RedisGlob {
  import opened Text

  // ---- what a pattern matches ----

  /** The members of a `[...]` class, up to its closing bracket; an unclosed class ends with
      the pattern. Gives whether `c` is listed and what follows the class. */
  function ClassMembers(pattern: string, c: char, listed: bool): (r: (bool, string))
    ensures |r.1| <= |pattern|
  {
    if pattern == [] then (listed, [])
    else if pattern[0] == '\\' && |pattern| >= 2 then
      ClassMembers(pattern[2..], c, listed || c == pattern[1])
    else if pattern[0] == ']' then (listed, pattern[1..])
    else if |pattern| >= 3 && pattern[1] == '-' then
      var low := if pattern[0] <= pattern[2] then pattern[0] else pattern[2];
      var high := if pattern[0] <= pattern[2] then pattern[2] else pattern[0];
      ClassMembers(pattern[3..], c, listed || low <= c <= high)
    else ClassMembers(pattern[1..], c, listed || c == pattern[0])
  }

  /** Whether the class after a `[` admits `c`, and what follows it. */
  function Class(pattern: string, c: char): (r: (bool, string))
    ensures |r.1| <= |pattern|
  {
    if pattern != [] && pattern[0] == '^' then
      var (listed, rest) := ClassMembers(pattern[1..], c, false);
      (!listed, rest)
    else ClassMembers(pattern, c, false)
  }

  predicate GlobMatches(pattern: string, s: string)
    decreases |pattern|, |s|
  {
    if pattern == [] then s == []
    else if pattern[0] == '*' then
      GlobMatches(pattern[1..], s) || (s != [] && GlobMatches(pattern, s[1..]))
    else if s == [] then false
    else if pattern[0] == '?' then GlobMatches(pattern[1..], s[1..])
    else if pattern[0] == '[' then
      var (admitted, rest) := Class(pattern[1..], s[0]);
      admitted && GlobMatches(rest, s[1..])
    else if pattern[0] == '\\' && |pattern| > 1 then
      s[0] == pattern[1] && GlobMatches(pattern[2..], s[1..])
    else s[0] == pattern[0] && GlobMatches(pattern[1..], s[1..])
  }

  // ---- escaping ----

  predicate Metacharacter(c: char) { c in {'*', '?', '[', ']', '\\'} }

  function EscapedChar(c: char): string {
    if Metacharacter(c) then ['\\', c] else [c]
  }

  function Escaped(value: string): string {
    if value == [] then [] else EscapedChar(value[0]) + Escaped(value[1..])
  }

  lemma {:induction false} EscapedConcat(a: string, b: string)
    ensures Escaped(a + b) == Escaped(a) + Escaped(b)
  {
    if a == [] {
      assert a + b == b;
    } else {
      assert (a + b)[1..] == a[1..] + b;
      EscapedConcat(a[1..], b);
    }
  }

  method GlobEscape(value: string) returns (out: string)
    ensures out == Escaped(value)
    ensures forall s :: GlobMatches(out, s) <==> s == value
  {
    out := "";
    for i := 0 to |value|
      invariant out == Escaped(value[..i])
    {
      var ch := value[i];
      assert value[..i + 1] == value[..i] + [ch];
      EscapedConcat(value[..i], [ch]);
      if Metacharacter(ch) { out := out + ['\\']; }
      out := out + [ch];
    }
    assert value[..|value|] == value;
    EscapedIsExact(value);
  }

  /** An escaped value at the head of a pattern takes exactly itself off the string. */
  lemma {:induction false} EscapedThen(value: string, pattern: string, s: string)
    ensures GlobMatches(Escaped(value) + pattern, s)
      <==> value <= s && GlobMatches(pattern, s[|value|..])
  {
    var whole := Escaped(value) + pattern;
    if value == [] {
      assert whole == pattern && s[0..] == s;
    } else {
      var rest := Escaped(value[1..]) + pattern;
      if Metacharacter(value[0]) {
        assert whole[0] == '\\' && whole[1] == value[0] && whole[2..] == rest;
      } else {
        assert whole[0] == value[0] && whole[1..] == rest;
      }
      if s != [] {
        EscapedThen(value[1..], pattern, s[1..]);
        assert value <= s <==> s[0] == value[0] && value[1..] <= s[1..];
        assert value <= s ==> s[1..][|value| - 1..] == s[|value|..];
      }
    }
  }

  /** For every string: escaped, it is a pattern for itself and nothing else. */
  lemma EscapedMatchesOnly(value: string, s: string)
    ensures GlobMatches(Escaped(value), s) <==> s == value
  {}

  lemma EscapedIsExact(value: string)
    ensures forall s :: GlobMatches(Escaped(value), s) <==> s == value
  {}

  predicate Plain(value: string) {
    forall i :: 0 <= i < |value| ==> !Metacharacter(value[i])
  }

  lemma {:induction false} PlainIsEscaped(value: string)
    requires Plain(value)
    ensures Escaped(value) == value
  {
    if value != [] { PlainIsEscaped(value[1..]); }
  }

  // ---- keys and the invalidation pattern ----

  function RedisKey(prefix: string, version: string, resource: string, key: string): string {
    prefix + ":" + version + ":" + resource + ":" + key
  }

  function InvalidationPattern(prefix: string, resource: string): string {
    prefix + ":*:" + Escaped(resource) + ":*"
  }

  /** What follows the prefix and its colon. */
  function Tail(prefix: string, key: string): string
    requires prefix + ":" <= key
  {
    key[|prefix| + 1..]
  }

  lemma {:induction false} StarMatchesAll(s: string)
    ensures GlobMatches("*", s)
  {
    if s != [] { StarMatchesAll(s[1..]); }
  }

  /** `*literal*` finds the literal anywhere in the string. */
  lemma {:induction false} StarLiteralStar(literal: string, s: string)
    ensures GlobMatches("*" + (Escaped(literal) + "*"), s) <==> Occurs(s, literal)
  {
    var suffix := Escaped(literal) + "*";
    assert ("*" + suffix)[1..] == suffix;
    EscapedThen(literal, "*", s);
    if literal <= s { StarMatchesAll(s[|literal|..]); }
    if s != [] { StarLiteralStar(literal, s[1..]); }
  }

  /** The pattern selects exactly the keys under the prefix whose remainder has the resource
      between two colons somewhere. */
  lemma PatternExact(prefix: string, resource: string, key: string)
    requires Plain(prefix)
    ensures GlobMatches(InvalidationPattern(prefix, resource), key)
      <==> prefix + ":" <= key && Occurs(Tail(prefix, key), ":" + resource + ":")
  {
    var head := prefix + ":";
    var middle := ":" + resource + ":";
    var rest := "*" + (Escaped(middle) + "*");
    EscapedMiddle(resource);
    PlainIsEscaped(head);
    assert InvalidationPattern(prefix, resource) == Escaped(head) + rest;
    EscapedThen(head, rest, key);
    if head <= key { StarLiteralStar(middle, Tail(prefix, key)); }
  }

  lemma EscapedMiddle(resource: string)
    ensures Escaped(":" + resource + ":") == ":" + Escaped(resource) + ":"
  {
    EscapedConcat(":" + resource, ":");
    EscapedConcat(":", resource);
    assert ":"[1..] == "" && Escaped(":") == ":" + Escaped("");
  }

  /** Every entry of the resource is selected, whatever its version and cache key. */
  lemma OwnKeysSelected(prefix: string, version: string, resource: string, key: string)
    requires Plain(prefix)
    ensures GlobMatches(InvalidationPattern(prefix, resource), RedisKey(prefix, version, resource, key))
  {
    var whole := RedisKey(prefix, version, resource, key);
    var middle := ":" + resource + ":";
    assert whole == (prefix + ":") + (version + middle + key);
    OccursInside(version, middle, key);
    assert Tail(prefix, whole) == version + middle + key;
    PatternExact(prefix, resource, whole);
  }

  /** An entry of another resource is selected exactly when the resource's name stands between
      colons in its version, resource and key taken together. */
  lemma OtherKeysExact(prefix: string, version: string, other: string, resource: string, key: string)
    requires Plain(prefix)
    ensures GlobMatches(InvalidationPattern(prefix, resource), RedisKey(prefix, version, other, key))
      <==> Occurs(version + ":" + other + ":" + key, ":" + resource + ":")
  {
    var whole := RedisKey(prefix, version, other, key);
    assert whole == (prefix + ":") + (version + ":" + other + ":" + key);
    assert Tail(prefix, whole) == version + ":" + other + ":" + key;
    PatternExact(prefix, resource, whole);
  }

  /** Different versions or resources without colons never share a key. */
  lemma KeysInjective(prefix: string, v: string, r: string, k: string, v': string, r': string, k': string)
    requires ColonFree(v) && ColonFree(r) && ColonFree(v') && ColonFree(r')
    requires RedisKey(prefix, v, r, k) == RedisKey(prefix, v', r', k')
    ensures v == v' && r == r' && k == k'
  {
    var a, b := v + ":" + (r + ":" + k), v' + ":" + (r' + ":" + k');
    assert RedisKey(prefix, v, r, k) == (prefix + ":") + a;
    assert RedisKey(prefix, v', r', k') == (prefix + ":") + b;
    assert a == RedisKey(prefix, v, r, k)[|prefix| + 1..];
    assert b == RedisKey(prefix, v', r', k')[|prefix| + 1..];
    SplitAtColon(v, r + ":" + k, v', r' + ":" + k');
    SplitAtColon(r, k, r', k');
  }
}
