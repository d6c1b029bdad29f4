/**
 * The `extractProperties` function of the plugin: it turns the user's
 * `forkProperties` setting into the `-D` system-property flags handed to the
 * forked application, leaving out any flag that would override the classpath
 * property.
 */
module PropertyFilter {
  import opened Text
  import opened Seqs

  /**
   * The value of the `forkProperties` extension property, by its runtime type.
   * Property entries carry the `toString()` of their key and value, in the
   * (unspecified) iteration order of `java.util.Properties`.
   */
  datatype ForkProperties =
    | Absent
    | StringValue(text: string)
    | PropertiesValue(entries: seq<(string, string)>)
    | OtherValue

  /** The extracted flags, and whether the "only String and Properties are supported" warning was logged. */
  datatype Extraction = Extraction(flags: seq<string>, warned: bool)

  /** What every emitted flag starts with. */
  const FlagPrefix: string := "-D"

  predicate IsFlag(f: string) {
    |f| >= |FlagPrefix| && f[..|FlagPrefix|] == FlagPrefix
  }

  /** `filter { it.isNotEmpty() }` */
  function NonEmpty(): string -> bool {
    (f: string) => f != ""
  }

  /** `filterNot { it.startsWith(CLASS_PATH_PROPERTY_NAME, true) }` for string fragments. */
  function NotClasspath(classpathName: string): string -> bool {
    (f: string) => !StartsWithIgnoreCase(f, classpathName)
  }

  /** The two string-branch filters taken together. */
  function KeepFragment(classpathName: string): string -> bool {
    Both(NonEmpty(), NotClasspath(classpathName))
  }

  /** `filterNot { it.key.toString().startsWith(CLASS_PATH_PROPERTY_NAME, true) }` */
  function KeepEntry(classpathName: string): ((string, string)) -> bool {
    (e: (string, string)) => !StartsWithIgnoreCase(e.0, classpathName)
  }

  /** `"-D${it.trim()}"` */
  function FragmentFlag(fragment: string): (flag: string)
    ensures IsFlag(flag) && flag[|FlagPrefix|..] == Trim(fragment)
  {
    FlagPrefix + Trim(fragment)
  }

  /** `"-D${it.key}=${it.value}"` */
  function EntryFlag(entry: (string, string)): (flag: string)
    ensures IsFlag(flag)
  {
    FlagPrefix + entry.0 + "=" + entry.1
  }

  /** The String branch: split on "-D", drop empty and classpath fragments (untrimmed), then trim and re-prefix. */
  function StringFlags(text: string, classpathName: string): (flags: seq<string>)
    ensures |flags| <= |Split(text)|
    ensures forall k :: 0 <= k < |flags| ==> IsFlag(flags[k])
  {
    var kept := Filter(NotClasspath(classpathName), Filter(NonEmpty(), Split(text)));
    var flags := MapSeq(FragmentFlag, kept);
    assert forall k :: 0 <= k < |flags| ==> flags[k] == FragmentFlag(kept[k]);
    flags
  }

  /** The Properties branch: drop classpath entries, then emit `-Dkey=value`. */
  function PropertyFlags(entries: seq<(string, string)>, classpathName: string): (flags: seq<string>)
    ensures |flags| <= |entries|
    ensures forall k :: 0 <= k < |flags| ==> IsFlag(flags[k])
  {
    var kept := Filter(KeepEntry(classpathName), entries);
    var flags := MapSeq(EntryFlag, kept);
    assert forall k :: 0 <= k < |flags| ==> flags[k] == EntryFlag(kept[k]);
    flags
  }

  /**
   * `extractProperties(forkProperties)`, with `CLASS_PATH_PROPERTY_NAME` as
   * `classpathName`. Only an unsupported value type logs the warning, and it
   * still yields an (empty) list rather than failing.
   */
  function ExtractProperties(fp: ForkProperties, classpathName: string): (r: Extraction)
    ensures r.warned <==> fp.OtherValue?
    ensures fp.Absent? || fp.OtherValue? ==> r.flags == []
    ensures forall k :: 0 <= k < |r.flags| ==> IsFlag(r.flags[k])
    ensures fp.StringValue? ==> |r.flags| <= |Split(fp.text)|
    ensures fp.PropertiesValue? ==> |r.flags| <= |fp.entries|
  {
    match fp
    case Absent => Extraction([], false)
    case StringValue(text) =>
      Extraction(StringFlags(text, classpathName), false)
    case PropertiesValue(entries) =>
      Extraction(PropertyFlags(entries, classpathName), false)
    case OtherValue => Extraction([], true)
  }

  /**
   * Exact reading of the String branch: the flags are, in order, the trimmed and
   * re-prefixed fragments of `split("-D")` at the positions `idx`, and a
   * position is among them exactly when its fragment is non-empty and does not,
   * before trimming, start with the classpath name ignoring case.
   */
  lemma StringBranch(text: string, classpathName: string)
    ensures var frags := Split(text);
      var idx := KeptIndices(KeepFragment(classpathName), frags);
      var flags := ExtractProperties(StringValue(text), classpathName).flags;
      && |flags| == |idx|
      && (forall j :: 0 <= j < |idx| ==> idx[j] < |frags| && flags[j] == FlagPrefix + Trim(frags[idx[j]]))
      && (forall j, k :: 0 <= j < k < |idx| ==> idx[j] < idx[k])
      && (forall i :: 0 <= i < |frags| ==>
            (i in idx <==> frags[i] != "" && !StartsWithIgnoreCase(frags[i], classpathName)))
  {
    var frags := Split(text);
    var flags := ExtractProperties(StringValue(text), classpathName).flags;
    FilterFilter(NonEmpty(), NotClasspath(classpathName), frags);
    assert flags == MapSeq(FragmentFlag, Filter(KeepFragment(classpathName), frags));
    KeptFragmentFlags(frags, classpathName, flags);
  }

  /** The flags made from the fragments both filters keep, position by position. */
  lemma KeptFragmentFlags(frags: seq<string>, classpathName: string, flags: seq<string>)
    requires flags == MapSeq(FragmentFlag, Filter(KeepFragment(classpathName), frags))
    ensures var idx := KeptIndices(KeepFragment(classpathName), frags);
      && |flags| == |idx|
      && (forall j :: 0 <= j < |idx| ==> idx[j] < |frags| && flags[j] == FlagPrefix + Trim(frags[idx[j]]))
      && (forall j, k :: 0 <= j < k < |idx| ==> idx[j] < idx[k])
      && (forall i :: 0 <= i < |frags| ==>
            (i in idx <==> frags[i] != "" && !StartsWithIgnoreCase(frags[i], classpathName)))
  {
    var keep := KeepFragment(classpathName);
    var kept := Filter(keep, frags);
    var idx := KeptIndices(keep, frags);
    FilterKeepsOrder(keep, frags);
    forall j | 0 <= j < |idx| ensures flags[j] == FlagPrefix + Trim(frags[idx[j]]) {
      assert flags[j] == FragmentFlag(kept[j]);
      assert kept[j] == frags[idx[j]];
    }
    forall i | 0 <= i < |frags|
      ensures keep(frags[i]) <==> frags[i] != "" && !StartsWithIgnoreCase(frags[i], classpathName)
    {
    }
  }

  /** An infix of a delimiter-free string is delimiter-free. */
  lemma InfixDelimiterFree(s: string, i: nat, t: string)
    requires DelimiterFree(s) && i + |t| <= |s| && s[i..i + |t|] == t
    ensures DelimiterFree(t)
  {
    forall k | 0 <= k < |t| - 1 ensures !(t[k] == '-' && t[k + 1] == 'D') {
      assert t[k] == s[i + k] && t[k + 1] == s[i + k + 1];
    }
  }

  /**
   * Every String-branch flag is "-D" followed by text that neither starts nor
   * ends with whitespace and holds no further "-D".
   */
  lemma StringFlagsWellFormed(text: string, classpathName: string)
    ensures var flags := ExtractProperties(StringValue(text), classpathName).flags;
      forall k :: 0 <= k < |flags| ==>
        IsFlag(flags[k]) && NoOuterWhitespace(flags[k][2..]) && DelimiterFree(flags[k][2..])
  {
    var frags := Split(text);
    var nonEmpty := Filter(NonEmpty(), frags);
    var kept := Filter(NotClasspath(classpathName), nonEmpty);
    var flags := ExtractProperties(StringValue(text), classpathName).flags;
    assert flags == MapSeq(FragmentFlag, kept);
    SplitDelimiterFreeFragments(text);
    FilterMembers(NonEmpty(), frags);
    FilterMembers(NotClasspath(classpathName), nonEmpty);
    forall k | 0 <= k < |flags|
      ensures IsFlag(flags[k]) && NoOuterWhitespace(flags[k][2..]) && DelimiterFree(flags[k][2..])
    {
      var fragment := kept[k];
      assert fragment in frags;
      assert flags[k] == FragmentFlag(fragment);
      InfixDelimiterFree(fragment, |fragment| - |TrimStart(fragment)|, Trim(fragment));
    }
  }

  /**
   * Exact reading of the Properties branch: one `-Dkey=value` flag per entry
   * whose key does not start with the classpath name ignoring case, in entry
   * order, and no other flags.
   */
  lemma PropertiesBranch(entries: seq<(string, string)>, classpathName: string)
    ensures var idx := KeptIndices(KeepEntry(classpathName), entries);
      var flags := ExtractProperties(PropertiesValue(entries), classpathName).flags;
      && |flags| == |idx|
      && (forall j :: 0 <= j < |idx| ==>
            idx[j] < |entries| && flags[j] == FlagPrefix + entries[idx[j]].0 + "=" + entries[idx[j]].1)
      && (forall j, k :: 0 <= j < k < |idx| ==> idx[j] < idx[k])
      && (forall i :: 0 <= i < |entries| ==> (i in idx <==> !StartsWithIgnoreCase(entries[i].0, classpathName)))
  {
    var keep := KeepEntry(classpathName);
    var kept := Filter(keep, entries);
    var idx := KeptIndices(keep, entries);
    var flags := ExtractProperties(PropertiesValue(entries), classpathName).flags;
    assert flags == MapSeq(EntryFlag, kept);
    FilterKeepsOrder(keep, entries);
    forall j | 0 <= j < |idx|
      ensures flags[j] == FlagPrefix + entries[idx[j]].0 + "=" + entries[idx[j]].1
    {
      assert flags[j] == EntryFlag(kept[j]);
      assert kept[j] == entries[idx[j]];
    }
  }

  /**
   * `java.util.Properties` iterates in no particular order; whatever order the
   * entries come in, the same flags come out, up to reordering.
   */
  lemma PropertiesOrderIrrelevant(a: seq<(string, string)>, b: seq<(string, string)>, classpathName: string)
    requires multiset(a) == multiset(b)
    ensures multiset(ExtractProperties(PropertiesValue(a), classpathName).flags)
         == multiset(ExtractProperties(PropertiesValue(b), classpathName).flags)
  {
    FilterPermutation(KeepEntry(classpathName), a, b);
    MapSeqPermutation(EntryFlag, Filter(KeepEntry(classpathName), a), Filter(KeepEntry(classpathName), b));
  }
}
