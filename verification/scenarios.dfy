/**
 * The corner cases of the String branch of `extractProperties`, each stated for
 * every input of its shape: a classpath override is dropped whatever its case, a
 * whitespace after "-D" lets it through (the filter looks at the untrimmed
 * fragment), a whitespace-only fragment becomes a bare "-D", and a "-D" inside
 * a value starts a new flag; plus one Properties-branch example.
 */
module Scenarios {
  import opened Text
  import opened Seqs
  import opened PropertyFilter

  /** A string with exactly one leading "-D" splits into an empty fragment and the rest. */
  lemma SplitSingle(f: string)
    requires DelimiterFree(f)
    ensures Split(FlagPrefix + f) == ["", f]
  {
    SplitAfterFragment("", f);
    SplitDelimiterFree(f);
    assert "" + Delimiter + f == FlagPrefix + f;
  }

  /** The String branch on a single-fragment input. */
  lemma SingleFragment(f: string, classpathName: string)
    requires DelimiterFree(f)
    ensures ExtractProperties(StringValue(FlagPrefix + f), classpathName).flags
         == if f != "" && !StartsWithIgnoreCase(f, classpathName) then [FlagPrefix + Trim(f)] else []
  {
    SplitSingle(f);
    FilterCons(NonEmpty(), "", [f]);
    FilterCons(NonEmpty(), f, []);
    assert ["", f] == [""] + [f] && [f] == [f] + [];
    var nonEmpty := Filter(NonEmpty(), ["", f]);
    assert nonEmpty == if f != "" then [f] else [];
    FilterCons(NotClasspath(classpathName), f, []);
    var kept := Filter(NotClasspath(classpathName), nonEmpty);
    assert kept == if f != "" && !StartsWithIgnoreCase(f, classpathName) then [f] else [];
    assert MapSeq(FragmentFlag, [f]) == [FlagPrefix + Trim(f)];
  }

  /** `-D<classpath>=…` is dropped, whatever the case of the property name. */
  lemma ClasspathOverrideDropped(value: string, classpathName: string)
    requires DelimiterFree(value) && StartsWithIgnoreCase(value, classpathName)
    ensures ExtractProperties(StringValue(FlagPrefix + value), classpathName).flags == []
  {
    SingleFragment(value, classpathName);
  }

  /**
   * A whitespace between "-D" and the classpath name defeats the filter, which
   * tests the fragment before trimming: the override reaches the command line
   * with the whitespace trimmed away.
   */
  lemma WhitespaceLetsClasspathThrough(w: char, value: string, classpathName: string)
    requires IsWhitespace(w) && DelimiterFree(value) && NoOuterWhitespace(value) && value != []
    requires classpathName != [] && StartsWithIgnoreCase(value, classpathName)
    ensures ExtractProperties(StringValue(FlagPrefix + [w] + value), classpathName).flags == [FlagPrefix + value]
    ensures StartsWithIgnoreCase(ExtractProperties(StringValue(FlagPrefix + [w] + value), classpathName).flags[0][2..], classpathName)
  {
    var f := [w] + value;
    WhitespaceDefeatsPrefix(w, value, classpathName);
    PrependDelimiterFree(w, value);
    assert FlagPrefix + [w] + value == FlagPrefix + f;
    SingleFragment(f, classpathName);
    TrimAround([w], value, "");
    assert [w] + value + "" == f;
    assert (FlagPrefix + value)[2..] == value;
  }

  /** A whitespace in front of a string that starts with a non-empty name makes it no longer start with it. */
  lemma WhitespaceDefeatsPrefix(w: char, value: string, name: string)
    requires IsWhitespace(w) && value != [] && !IsWhitespace(value[0])
    requires name != [] && StartsWithIgnoreCase(value, name)
    ensures !StartsWithIgnoreCase([w] + value, name)
  {
    assert name[0] != w by {
      assert CharEqualsIgnoreCase(value[0], name[0]);
      WhitespaceEqualsIgnoreCase(w, value[0]);
    }
    assert ([w] + value)[0] == w;
    WhitespaceEqualsIgnoreCase(w, name[0]);
  }

  /** A character other than '-' in front of a delimiter-free string cannot start a "-D". */
  lemma PrependDelimiterFree(c: char, s: string)
    requires c != '-' && DelimiterFree(s)
    ensures DelimiterFree([c] + s)
  {
    var f := [c] + s;
    assert forall k :: 1 <= k < |f| ==> f[k] == s[k - 1];
  }

  /** Trimming removes exactly the whitespace around a clean-ended, non-empty core. */
  lemma TrimAround(lead: string, t: string, trail: string)
    requires AllWhitespace(lead) && AllWhitespace(trail) && NoOuterWhitespace(t) && t != []
    ensures Trim(lead + t + trail) == t
  {
    var s := lead + t + trail;
    assert s[..|lead|] == lead;
    assert s[|lead|..|lead| + |t|] == t;
    assert s[|lead| + |t|..] == trail;
    TrimUnique(s, |lead|, t);
  }

  /** A whitespace-only fragment survives the filters and becomes the bare flag "-D". */
  lemma WhitespaceFragmentBecomesBareFlag(ws: string, classpathName: string)
    requires ws != [] && AllWhitespace(ws) && classpathName != [] && !IsWhitespace(classpathName[0])
    ensures ExtractProperties(StringValue(FlagPrefix + ws), classpathName).flags == [FlagPrefix]
  {
    assert DelimiterFree(ws) by {
      assert forall k :: 0 <= k < |ws| ==> ws[k] != '-';
    }
    assert !StartsWithIgnoreCase(ws, classpathName) by {
      assert IsWhitespace(ws[0]);
      WhitespaceEqualsIgnoreCase(ws[0], classpathName[0]);
    }
    SingleFragment(ws, classpathName);
    TrimEmptyIff(ws);
    assert FlagPrefix + Trim(ws) == FlagPrefix;
  }

  /** Two fragments, each introduced by "-D". */
  lemma SplitTwo(first: string, other: string)
    requires DelimiterFree(first) && DelimiterFree(other)
    ensures Split(FlagPrefix + first + FlagPrefix + other) == ["", first, other]
  {
    var text := FlagPrefix + first + FlagPrefix + other;
    assert text == "" + Delimiter + (first + Delimiter + other);
    SplitAfterFragment("", first + Delimiter + other);
    SplitAfterFragment(first, other);
    SplitDelimiterFree(other);
  }

  /** Both filters keep two non-empty, non-classpath fragments and drop the leading empty one. */
  lemma KeepTwo(first: string, other: string, classpathName: string)
    requires first != [] && other != []
    requires !StartsWithIgnoreCase(first, classpathName) && !StartsWithIgnoreCase(other, classpathName)
    ensures Filter(NotClasspath(classpathName), Filter(NonEmpty(), ["", first, other])) == [first, other]
  {
    assert ["", first, other] == [""] + ([first] + ([other] + []));
    FilterCons(NonEmpty(), "", [first] + ([other] + []));
    FilterCons(NonEmpty(), first, [other] + []);
    FilterCons(NonEmpty(), other, []);
    FilterCons(NotClasspath(classpathName), first, [other] + []);
    FilterCons(NotClasspath(classpathName), other, []);
  }

  /**
   * A "-D" inside a value is a delimiter too: `-Dopts=-Dx` (with `first` being
   * `opts=` and `other` being `x`) yields the two flags `-Dopts=` and `-Dx`.
   */
  lemma DelimiterInsideValue(first: string, other: string, classpathName: string)
    requires DelimiterFree(first) && DelimiterFree(other)
    requires NoOuterWhitespace(first) && NoOuterWhitespace(other) && first != [] && other != []
    requires !StartsWithIgnoreCase(first, classpathName) && !StartsWithIgnoreCase(other, classpathName)
    ensures ExtractProperties(StringValue(FlagPrefix + first + FlagPrefix + other), classpathName).flags
         == [FlagPrefix + first, FlagPrefix + other]
  {
    SplitTwo(first, other);
    KeepTwo(first, other, classpathName);
    TrimAround("", first, "");
    TrimAround("", other, "");
    assert "" + first + "" == first && "" + other + "" == other;
    assert FragmentFlag(first) == FlagPrefix + first;
    assert FragmentFlag(other) == FlagPrefix + other;
    var m := MapSeq(FragmentFlag, [first, other]);
    MapSeqPair(FragmentFlag, first, other);
    assert m == [FlagPrefix + first, FlagPrefix + other];
    var text := FlagPrefix + first + FlagPrefix + other;
    assert Filter(NotClasspath(classpathName), Filter(NonEmpty(), Split(text))) == [first, other];
    assert StringFlags(text, classpathName) == m;
  }

  /** A `Classpath` entry is dropped, other entries become `-Dkey=value`. */
  lemma ClasspathEntryDroppedExample()
    ensures ExtractProperties(PropertiesValue([("alpha", "1"), ("Classpath", "x")]), "classpath")
         == Extraction(["-Dalpha=1"], false)
  {
    assert StartsWithIgnoreCase("Classpath", "classpath");
    assert !StartsWithIgnoreCase("alpha", "classpath");
    var entries := [("alpha", "1"), ("Classpath", "x")];
    assert entries == [("alpha", "1")] + ([("Classpath", "x")] + []);
    FilterCons(KeepEntry("classpath"), ("alpha", "1"), [("Classpath", "x")] + []);
    FilterCons(KeepEntry("classpath"), ("Classpath", "x"), []);
    assert Filter(KeepEntry("classpath"), entries) == [("alpha", "1")];
    assert EntryFlag(("alpha", "1")) == "-Dalpha=1";
    assert MapSeq(EntryFlag, [("alpha", "1")]) == ["-Dalpha=1"];
  }
}
