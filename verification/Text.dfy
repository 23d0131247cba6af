/** Substrings and the code-point order of strings. */
module Text {
  import opened Wrappers

  /** Whether `needle` is a contiguous part of `s`. */
  predicate Occurs(s: string, needle: string) {
    needle <= s || (s != [] && Occurs(s[1..], needle))
  }

  lemma {:induction false} OccursInside(before: string, needle: string, after: string)
    ensures Occurs(before + needle + after, needle)
  {
    var s := before + needle + after;
    if before == [] {
      assert s == needle + after;
    } else {
      assert s[1..] == before[1..] + needle + after;
      OccursInside(before[1..], needle, after);
    }
  }

  lemma {:induction false} OccursWhere(s: string, needle: string)
    returns (before: string, after: string)
    requires Occurs(s, needle)
    ensures s == before + needle + after
  {
    if needle <= s {
      before, after := [], s[|needle|..];
    } else {
      before, after := OccursWhere(s[1..], needle);
      before := [s[0]] + before;
    }
  }

  /** A part no shorter than the whole is the whole. */
  lemma {:induction false} OccursInShort(s: string, needle: string)
    requires |s| <= |needle|
    requires Occurs(s, needle)
    ensures s == needle
  {
    if needle <= s {
    } else {
      OccursInShort(s[1..], needle);
    }
  }

  predicate ColonFree(s: string) { forall i :: 0 <= i < |s| ==> s[i] != ':' }

  /** Up to its first colon, a string is determined. */
  lemma {:induction false} SplitAtColon(a: string, rest: string, b: string, more: string)
    requires ColonFree(a) && ColonFree(b)
    requires a + ":" + rest == b + ":" + more
    ensures a == b && rest == more
  {
    var s, t := a + ":" + rest, b + ":" + more;
    assert s[0] == if a == [] then ':' else a[0];
    assert t[0] == if b == [] then ':' else b[0];
    if a == [] {
      assert s[1..] == rest && t[1..] == more;
    } else {
      assert s[1..] == a[1..] + ":" + rest && t[1..] == b[1..] + ":" + more;
      SplitAtColon(a[1..], rest, b[1..], more);
      assert a == [a[0]] + a[1..] && b == [b[0]] + b[1..];
    }
  }

  function CompareInt(a: int, b: int): Ordering {
    if a < b then Less else if a == b then Equal else Greater
  }

  /** Code-point order, the order of Rust's `str`. */
  function CompareText(a: string, b: string): Ordering {
    if a == [] then (if b == [] then Equal else Less)
    else if b == [] then Greater
    else if a[0] < b[0] then Less
    else if b[0] < a[0] then Greater
    else CompareText(a[1..], b[1..])
  }

  lemma {:induction false} CompareTextLaws(a: string, b: string)
    ensures CompareText(b, a) == CompareText(a, b).Reverse()
    ensures CompareText(a, b) == Equal <==> a == b
  {
    if a != [] && b != [] {
      CompareTextLaws(a[1..], b[1..]);
      if a[0] == b[0] && a[1..] == b[1..] {
        assert a == [a[0]] + a[1..] == b;
      }
    }
  }

  /** Lexicographic order by code points: a proper prefix comes first, and otherwise the first
      character that differs decides. */
  predicate Precedes(a: string, b: string) {
    || (|a| < |b| && a == b[..|a|])
    || exists k :: 0 <= k < |a| && k < |b| && a[..k] == b[..k] && a[k] < b[k]
  }

  lemma {:induction false} CompareTextExact(a: string, b: string)
    ensures CompareText(a, b) == Less <==> Precedes(a, b)
    ensures CompareText(a, b) == Greater <==> Precedes(b, a)
  {
    CompareTextLaws(a, b);
    LessExact(a, b);
    LessExact(b, a);
  }

  lemma {:induction false} LessExact(a: string, b: string)
    ensures CompareText(a, b) == Less <==> Precedes(a, b)
  {
    if a == [] || b == [] {
    } else if a[0] != b[0] {
      assert a[..0] == b[..0];
      if a[0] < b[0] { assert Precedes(a, b); }
      if Precedes(a, b) { FirstDecides(a, b); }
    } else {
      LessExact(a[1..], b[1..]);
      PrecedesTail(a, b);
    }
  }

  lemma FirstDecides(a: string, b: string)
    requires a != [] && b != [] && a[0] != b[0] && Precedes(a, b)
    ensures a[0] < b[0]
  {
    assert a[..|a|] == a;
    forall k | 0 < k <= |a| && k <= |b| ensures a[..k] != b[..k] {
      assert a[..k][0] == a[0] && b[..k][0] == b[0];
    }
  }

  lemma SamePrefix(a: string, b: string, k: nat)
    requires k < |a| && k < |b| && a[0] == b[0]
    ensures a[..k + 1] == b[..k + 1] <==> a[1..][..k] == b[1..][..k]
  {
    assert a[..k + 1] == [a[0]] + a[1..][..k] && b[..k + 1] == [b[0]] + b[1..][..k];
    assert a[..k + 1][1..] == a[1..][..k] && b[..k + 1][1..] == b[1..][..k];
  }

  lemma PrecedesTail(a: string, b: string)
    requires a != [] && b != [] && a[0] == b[0]
    ensures Precedes(a, b) <==> Precedes(a[1..], b[1..])
  {
    if Precedes(a, b) { TailPrecedes(a, b); }
    if Precedes(a[1..], b[1..]) { WholePrecedes(a, b); }
  }

  lemma TailPrecedes(a: string, b: string)
    requires a != [] && b != [] && a[0] == b[0] && Precedes(a, b)
    ensures Precedes(a[1..], b[1..])
  {
    if |a| < |b| && a == b[..|a|] {
      assert a[..|a|] == a && a[1..][..|a| - 1] == a[1..];
      SamePrefix(a, b, |a| - 1);
    } else {
      var k :| 0 <= k < |a| && k < |b| && a[..k] == b[..k] && a[k] < b[k];
      SamePrefix(a, b, k - 1);
      assert a[1..][k - 1] < b[1..][k - 1];
    }
  }

  lemma WholePrecedes(a: string, b: string)
    requires a != [] && b != [] && a[0] == b[0] && Precedes(a[1..], b[1..])
    ensures Precedes(a, b)
  {
    var s, t := a[1..], b[1..];
    if |s| < |t| && s == t[..|s|] {
      assert a[..|a|] == a && s[..|s|] == s;
      SamePrefix(a, b, |s|);
    } else {
      var k :| 0 <= k < |s| && k < |t| && s[..k] == t[..k] && s[k] < t[k];
      SamePrefix(a, b, k);
      assert a[k + 1] < b[k + 1];
    }
  }

  lemma {:induction false} CompareTextTransitive(a: string, b: string, c: string)
    requires CompareText(a, b) != Greater && CompareText(b, c) != Greater
    ensures CompareText(a, c) != Greater
    ensures CompareText(a, c) == Equal ==> CompareText(a, b) == Equal && CompareText(b, c) == Equal
  {
    if a != [] && b != [] && c != [] {
      if a[0] == b[0] && b[0] == c[0] {
        CompareTextTransitive(a[1..], b[1..], c[1..]);
      }
    }
  }
}
