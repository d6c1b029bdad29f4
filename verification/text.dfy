/**
 * The string primitives the plugin relies on from the Kotlin standard library:
 * `Char.isWhitespace`, `String.trim()`, `String.startsWith(prefix, ignoreCase = true)`
 * and `String.split("-D")`.
 */
module Text {

  /** The token that separates the flags of a `forkProperties` string. */
  const Delimiter: string := "-D"

  // ---------------------------------------------------------------------------
  // Whitespace and trimming
  // ---------------------------------------------------------------------------

  /**
   * Kotlin's `Char.isWhitespace()` on the JVM: `Character.isWhitespace` or
   * `Character.isSpaceChar`, i.e. the control characters 9-13 and 28-31 plus the
   * Unicode space, line and paragraph separators.
   */
  predicate IsWhitespace(c: char) {
    || ('\t' <= c <= '\r')
    || ('\U{1C}' <= c <= '\U{1F}')
    || c == ' '
    || c == '\U{A0}'
    || c == '\U{1680}'
    || ('\U{2000}' <= c <= '\U{200A}')
    || c == '\U{2028}'
    || c == '\U{2029}'
    || c == '\U{202F}'
    || c == '\U{205F}'
    || c == '\U{3000}'
  }

  predicate AllWhitespace(s: string) {
    forall k :: 0 <= k < |s| ==> IsWhitespace(s[k])
  }

  /** Neither end of `s` is whitespace. */
  predicate NoOuterWhitespace(s: string) {
    s == [] || (!IsWhitespace(s[0]) && !IsWhitespace(s[|s| - 1]))
  }

  /** `t` is `s` with a whitespace-only prefix of length `i` and a whitespace-only suffix removed. */
  predicate StripsTo(s: string, i: nat, t: string) {
    && i + |t| <= |s|
    && s[i..i + |t|] == t
    && AllWhitespace(s[..i])
    && AllWhitespace(s[i + |t|..])
  }

  /** Drops leading whitespace. */
  function TrimStart(s: string): (r: string)
    ensures |r| <= |s| && r == s[|s| - |r|..]
    ensures AllWhitespace(s[..|s| - |r|])
    ensures r == [] || !IsWhitespace(r[0])
  {
    if |s| > 0 && IsWhitespace(s[0]) then
      var r := TrimStart(s[1..]);
      assert s[..|s| - |r|] == [s[0]] + s[1..][..|s| - 1 - |r|];
      r
    else
      s
  }

  /** Drops trailing whitespace. */
  function TrimEnd(s: string): (r: string)
    ensures |r| <= |s| && r == s[..|r|]
    ensures AllWhitespace(s[|r|..])
    ensures r == [] || !IsWhitespace(r[|r| - 1])
  {
    if |s| > 0 && IsWhitespace(s[|s| - 1]) then
      var r := TrimEnd(s[..|s| - 1]);
      assert s[|r|..] == s[..|s| - 1][|r|..] + [s[|s| - 1]];
      r
    else
      s
  }

  /** The whitespace-only prefix and suffix that trimming removes, and the clean ends it leaves. */
  lemma TrimBoth(s: string)
    ensures NoOuterWhitespace(TrimEnd(TrimStart(s)))
    ensures StripsTo(s, |s| - |TrimStart(s)|, TrimEnd(TrimStart(s)))
  {
    var a := TrimStart(s);
    var r := TrimEnd(a);
    StripsInStages(s, |s| - |a|, a, r);
    CleanEndsInStages(a, r);
  }

  /** A clean-started string keeps its clean start when a suffix is cut off to leave a clean end. */
  lemma CleanEndsInStages(a: string, r: string)
    requires a == [] || !IsWhitespace(a[0])
    requires |r| <= |a| && r == a[..|r|]
    requires r == [] || !IsWhitespace(r[|r| - 1])
    ensures NoOuterWhitespace(r)
  {
    assert r == [] || r[0] == a[0];
  }

  /** Stripping a whitespace prefix and then a whitespace suffix strips both from the original. */
  lemma StripsInStages(s: string, i: nat, a: string, r: string)
    requires i + |a| == |s| && a == s[i..] && AllWhitespace(s[..i])
    requires |r| <= |a| && r == a[..|r|] && AllWhitespace(a[|r|..])
    ensures StripsTo(s, i, r)
  {
    assert s[i..i + |r|] == a[..|r|];
    assert s[i + |r|..] == a[|r|..];
  }

  /**
   * Kotlin's `String.trim()`: the longest infix of `s` that neither starts nor
   * ends with whitespace, obtained by stripping whitespace from both ends.
   */
  function Trim(s: string): (r: string)
    ensures NoOuterWhitespace(r)
    ensures StripsTo(s, |s| - |TrimStart(s)|, r)
  {
    TrimBoth(s);
    TrimEnd(TrimStart(s))
  }

  /** Where a clean-ended infix `t` sits in `s`: whitespace before and after it, none at its ends. */
  lemma StripsToBounds(s: string, i: nat, t: string)
    requires StripsTo(s, i, t) && NoOuterWhitespace(t)
    ensures forall k :: 0 <= k < i ==> IsWhitespace(s[k])
    ensures forall k :: i + |t| <= k < |s| ==> IsWhitespace(s[k])
    ensures t != [] ==> !IsWhitespace(s[i]) && !IsWhitespace(s[i + |t| - 1])
  {
    forall k | 0 <= k < i ensures IsWhitespace(s[k]) { assert s[k] == s[..i][k]; }
    forall k | i + |t| <= k < |s| ensures IsWhitespace(s[k]) { assert s[k] == s[i + |t|..][k - i - |t|]; }
    assert t != [] ==> s[i] == t[0] && s[i + |t| - 1] == t[|t| - 1];
  }

  /** Trimming is determined by its result: any whitespace-stripping of `s` with clean ends is `Trim(s)`. */
  lemma TrimUnique(s: string, i: nat, t: string)
    requires StripsTo(s, i, t) && NoOuterWhitespace(t)
    requires t != [] || AllWhitespace(s)
    ensures t == Trim(s)
  {
    var r := Trim(s);
    var j := |s| - |TrimStart(s)|;
    StripsToBounds(s, i, t);
    StripsToBounds(s, j, r);
    // The first non-whitespace character of `s` starts both infixes,
    // and the last one ends both.
    assert t != [] ==> j <= i < j + |r|;
    assert r != [] ==> i <= j < i + |t|;
    assert t == [] ==> r == [];
    assert i + |t| == j + |r| || t == [];
  }

  /** Trimming an already trimmed string changes nothing. */
  lemma TrimIdempotent(s: string)
    ensures Trim(Trim(s)) == Trim(s)
  {
    var t := Trim(s);
    assert StripsTo(t, 0, t) by {
      assert t[0..|t|] == t;
      assert t[..0] == [];
      assert t[|t|..] == [];
    }
    TrimUnique(t, 0, t);
  }

  /** Trimming yields the empty string exactly for whitespace-only input. */
  lemma TrimEmptyIff(s: string)
    ensures Trim(s) == [] <==> AllWhitespace(s)
  {
    var j := |s| - |TrimStart(s)|;
    assert Trim(s) == [] ==> s[..j] + s[j..] == s;
    assert |Trim(s)| > 0 ==> Trim(s)[0] == s[j];
  }

  // ---------------------------------------------------------------------------
  // Case-insensitive prefix
  // ---------------------------------------------------------------------------

  /** Kotlin's `Char.uppercaseChar()`, restricted to ASCII letters. */
  function ToUpper(c: char): char {
    if 'a' <= c <= 'z' then (c as int - 32) as char else c
  }

  /** Kotlin's `Char.lowercaseChar()`, restricted to ASCII letters. */
  function ToLower(c: char): char {
    if 'A' <= c <= 'Z' then (c as int + 32) as char else c
  }

  /** Kotlin's `Char.equals(other, ignoreCase = true)`, step by step. */
  predicate CharEqualsIgnoreCase(a: char, b: char) {
    || a == b
    || ToUpper(a) == ToUpper(b)
    || ToLower(ToUpper(a)) == ToLower(ToUpper(b))
  }

  /** Kotlin's `s.startsWith(prefix, ignoreCase = true)`, i.e. `regionMatches(0, prefix, 0, prefix.length, true)`. */
  predicate StartsWithIgnoreCase(s: string, prefix: string) {
    && |prefix| <= |s|
    && forall k :: 0 <= k < |prefix| ==> CharEqualsIgnoreCase(s[k], prefix[k])
  }

  function LowerCase(s: string): (r: string)
    ensures |r| == |s|
    ensures forall k :: 0 <= k < |s| ==> r[k] == ToLower(s[k])
  {
    seq(|s|, k requires 0 <= k < |s| => ToLower(s[k]))
  }

  /** Two characters are equal ignoring case exactly when their lower-case forms agree. */
  lemma CharEqualsIgnoreCaseIff(a: char, b: char)
    ensures CharEqualsIgnoreCase(a, b) <==> ToLower(a) == ToLower(b)
  {
  }

  /** Whitespace matches, ignoring case, only itself: no letter case maps onto it. */
  lemma WhitespaceEqualsIgnoreCase(a: char, b: char)
    requires IsWhitespace(a)
    ensures CharEqualsIgnoreCase(a, b) <==> b == a
    ensures CharEqualsIgnoreCase(b, a) <==> b == a
  {
    CharEqualsIgnoreCaseIff(a, b);
    CharEqualsIgnoreCaseIff(b, a);
  }

  /** Reference definition: `s` starts with `prefix` ignoring case iff the lower-cased prefix of `s` is the lower-cased `prefix`. */
  lemma StartsWithIgnoreCaseIff(s: string, prefix: string)
    ensures StartsWithIgnoreCase(s, prefix)
        <==> |prefix| <= |s| && LowerCase(s[..|prefix|]) == LowerCase(prefix)
  {
    if |prefix| <= |s| {
      var a, b := LowerCase(s[..|prefix|]), LowerCase(prefix);
      forall k | 0 <= k < |prefix|
        ensures CharEqualsIgnoreCase(s[k], prefix[k]) <==> a[k] == b[k]
      {
        CharEqualsIgnoreCaseIff(s[k], prefix[k]);
      }
      if StartsWithIgnoreCase(s, prefix) {
        assert a == b;
      }
    }
  }

  // ---------------------------------------------------------------------------
  // Splitting on "-D"
  // ---------------------------------------------------------------------------

  /** `s` contains no occurrence of the delimiter "-D". */
  predicate DelimiterFree(s: string) {
    forall k :: 0 <= k < |s| - 1 ==> !(s[k] == '-' && s[k + 1] == 'D')
  }

  /**
   * Kotlin's `s.split("-D")`: cut `s` at every leftmost, non-overlapping occurrence
   * of the delimiter. Empty fragments, leading and trailing ones included, are kept.
   */
  function Split(s: string): (r: seq<string>)
    ensures |r| >= 1
    ensures r[0] <= s
    decreases |s|
  {
    if |s| < 2 then [s]
    else if s[..2] == Delimiter then [""] + Split(s[2..])
    else
      var rest := Split(s[1..]);
      [[s[0]] + rest[0]] + rest[1..]
  }

  /** No fragment of `split("-D")` contains the delimiter. */
  lemma {:induction false} SplitDelimiterFreeFragments(s: string)
    ensures forall k :: 0 <= k < |Split(s)| ==> DelimiterFree(Split(s)[k])
    decreases |s|
  {
    if |s| < 2 {
    } else if s[..2] == Delimiter {
      SplitDelimiterFreeFragments(s[2..]);
    } else {
      var rest := Split(s[1..]);
      SplitDelimiterFreeFragments(s[1..]);
      var first := [s[0]] + rest[0];
      assert DelimiterFree(first) by {
        assert rest[0] != [] ==> rest[0][0] == s[1];
        assert forall k :: 1 <= k < |first| ==> first[k] == rest[0][k - 1];
      }
      assert Split(s) == [first] + rest[1..];
    }
  }

  /** Glues fragments back together with the delimiter between neighbours. */
  function Join(parts: seq<string>): string
    requires |parts| >= 1
  {
    if |parts| == 1 then parts[0] else parts[0] + Delimiter + Join(parts[1..])
  }

  /** Splitting loses nothing: the fragments joined by "-D" give back the input. */
  lemma {:induction false} JoinSplit(s: string)
    ensures Join(Split(s)) == s
    decreases |s|
  {
    if |s| < 2 {
    } else if s[..2] == Delimiter {
      JoinSplit(s[2..]);
      assert s == s[..2] + s[2..];
    } else {
      var rest := Split(s[1..]);
      JoinSplit(s[1..]);
      if |rest| == 1 {
        assert Join(rest) == rest[0];
      } else {
        assert Join(rest) == rest[0] + Delimiter + Join(rest[1..]);
        assert Split(s)[1..] == rest[1..];
      }
      assert s == [s[0]] + s[1..];
    }
  }

  /** A string without the delimiter is a single fragment. */
  lemma {:induction false} SplitDelimiterFree(f: string)
    requires DelimiterFree(f)
    ensures Split(f) == [f]
    decreases |f|
  {
    if |f| >= 2 {
      assert f[..2] != Delimiter by { assert !(f[0] == '-' && f[1] == 'D'); }
      SplitDelimiterFree(f[1..]);
      assert [f[0]] + f[1..] == f;
    }
  }

  /** A delimiter-free fragment followed by the delimiter is split off as the first fragment. */
  lemma {:induction false} SplitAfterFragment(f: string, rest: string)
    requires DelimiterFree(f)
    ensures Split(f + Delimiter + rest) == [f] + Split(rest)
    decreases |f|
  {
    var s := f + Delimiter + rest;
    if f == [] {
      assert s == Delimiter + rest;
      assert s[..2] == Delimiter && s[2..] == rest;
    } else {
      assert s[..2] != Delimiter by {
        if |f| == 1 {
          assert s[1] == '-';
        } else {
          assert s[0] == f[0] && s[1] == f[1];
        }
      }
      SplitAfterFragment(f[1..], rest);
      assert s[1..] == f[1..] + Delimiter + rest;
      assert [s[0]] + f[1..] == f;
    }
  }

  /** Splitting undoes joining whenever no fragment contains the delimiter. */
  lemma {:induction false} SplitJoin(parts: seq<string>)
    requires |parts| >= 1
    requires forall k :: 0 <= k < |parts| ==> DelimiterFree(parts[k])
    ensures Split(Join(parts)) == parts
    decreases |parts|
  {
    if |parts| == 1 {
      SplitDelimiterFree(parts[0]);
    } else {
      SplitJoin(parts[1..]);
      SplitAfterFragment(parts[0], Join(parts[1..]));
      assert [parts[0]] + parts[1..] == parts;
    }
  }
}
