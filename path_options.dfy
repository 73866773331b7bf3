/**
 * A run-configuration path option: the path as the user typed it (possibly
 * holding IDE macros) and the path after macro expansion, plus the converter
 * that stores the pair in one string, using "//" as the separator.
 */
module PathOptions {

  datatype Option<T> = None | Some(value: T)

  /** Either field may be absent (null in the source). */
  datatype PathOption = PathOption(pathWithMacro: Option<string>, resolvedPath: Option<string>)

  const Separator: string := "//"

  /** The option built with both constructor arguments left at their defaults. */
  function Default(): (r: PathOption)
    ensures ToString(r) == "null//null"
  {
    PathOption(None, None)
  }

  function IsDefault(v: PathOption): (r: bool)
    ensures r <==> v == Default()
  {
    v.pathWithMacro.None? && v.resolvedPath.None?
  }

  // ---------------------------------------------------------------------------
  // Occurrences of the separator
  // ---------------------------------------------------------------------------

  /** The separator starts at index i of s. */
  predicate SepAt(s: string, i: int) {
    0 <= i && i + 1 < |s| && s[i] == '/' && s[i + 1] == '/'
  }

  ghost predicate HasSep(s: string) {
    exists i :: SepAt(s, i)
  }

  ghost predicate EndsWithSlash(s: string) {
    |s| > 0 && s[|s| - 1] == '/'
  }

  /** The first index at or after i where the separator starts (indexOf). */
  function FirstSepFrom(s: string, i: nat): (r: Option<nat>)
    requires i <= |s|
    decreases |s| - i
    ensures r.Some? ==> i <= r.value && SepAt(s, r.value)
    ensures r.Some? ==> forall j :: i <= j < r.value ==> !SepAt(s, j)
    ensures r.None? ==> forall j :: i <= j ==> !SepAt(s, j)
  {
    if i + 1 >= |s| then None
    else if s[i] == '/' && s[i + 1] == '/' then Some(i)
    else FirstSepFrom(s, i + 1)
  }

  function FirstSep(s: string): (r: Option<nat>)
    ensures r.None? <==> !HasSep(s)
    ensures r.Some? ==> SepAt(s, r.value) && forall j :: 0 <= j < r.value ==> !SepAt(s, j)
  {
    FirstSepFrom(s, 0)
  }

  /** The separator found first is the only one that no other precedes. */
  lemma FirstSepUnique(s: string, k: nat)
    requires SepAt(s, k)
    requires forall j :: 0 <= j < k ==> !SepAt(s, j)
    ensures FirstSep(s) == Some(k)
  {
    assert HasSep(s);
  }

  /** No separator lies before the first one. */
  lemma PrefixHasNoSep(s: string, k: nat)
    requires k <= |s|
    requires forall j :: 0 <= j < k ==> !SepAt(s, j)
    ensures !HasSep(s[..k])
  {
    forall i | SepAt(s[..k], i) ensures false {
      assert SepAt(s, i);
    }
  }

  // ---------------------------------------------------------------------------
  // Replacing "//" by "/"
  // ---------------------------------------------------------------------------

  /**
   * Every occurrence of "//" replaced by "/", searching left to right and
   * resuming after each occurrence found, as String.replace does.
   */
  function ReplaceSep(s: string): (r: string)
    decreases |s|
    ensures |r| <= |s|
    ensures HasSep(s) ==> |r| < |s|
    ensures !HasSep(s) ==> r == s
  {
    match FirstSep(s)
    case None => s
    case Some(k) => s[..k] + "/" + ReplaceSep(s[k + 2..])
  }

  /** A reference definition: scan the string one character at a time. */
  function Collapse(s: string): (r: string)
    ensures |r| <= |s|
  {
    if |s| < 2 then s
    else if s[0] == '/' && s[1] == '/' then "/" + Collapse(s[2..])
    else [s[0]] + Collapse(s[1..])
  }

  /** One step of the scan at a position where no separator starts. */
  lemma CollapseStep(s: string)
    requires |s| >= 1 && !SepAt(s, 0)
    ensures Collapse(s) == [s[0]] + Collapse(s[1..])
  {
    if |s| < 2 {
      assert s[1..] == [];
      assert s == [s[0]] + [];
    }
  }

  /** Dropping the first character shifts a separator-free prefix by one. */
  lemma ShiftPlainPrefix(s: string, k: nat)
    requires 0 < k <= |s|
    requires forall j {:trigger SepAt(s, j)} :: 0 <= j < k ==> !SepAt(s, j)
    ensures forall j {:trigger SepAt(s[1..], j)} :: 0 <= j < k - 1 ==> !SepAt(s[1..], j)
    ensures s[..k] == [s[0]] + s[1..][..k - 1] && s[k..] == s[1..][k - 1..]
  {
    forall j | 0 <= j < k - 1 ensures !SepAt(s[1..], j) {
      assert !SepAt(s, j + 1);
    }
  }

  lemma {:induction false} CollapseSkipsPlainPrefix(s: string, k: nat)
    requires k <= |s|
    requires forall j {:trigger SepAt(s, j)} :: 0 <= j < k ==> !SepAt(s, j)
    ensures Collapse(s) == s[..k] + Collapse(s[k..])
  {
    if k == 0 {
      assert s[..0] == [] && s[0..] == s;
    } else {
      assert !SepAt(s, 0);
      CollapseStep(s);
      ShiftPlainPrefix(s, k);
      CollapseSkipsPlainPrefix(s[1..], k - 1);
    }
  }

  lemma {:induction false} CollapseNoSep(s: string)
    requires !HasSep(s)
    ensures Collapse(s) == s
  {
    forall j | 0 <= j < |s| ensures !SepAt(s, j) { }
    CollapseSkipsPlainPrefix(s, |s|);
    assert s[..|s|] == s;
    assert s[|s|..] == [];
  }

  /** One step of the scan at a separator. */
  lemma CollapseAtSep(s: string)
    requires SepAt(s, 0)
    ensures Collapse(s) == "/" + Collapse(s[2..])
  {
  }

  /** The replace of the source agrees with the character scan. */
  lemma {:induction false} ReplaceSepIsCollapse(s: string)
    decreases |s|
    ensures ReplaceSep(s) == Collapse(s)
  {
    match FirstSep(s)
    case None =>
      CollapseNoSep(s);
    case Some(k) =>
      CollapseSkipsPlainPrefix(s, k);
      var rest := s[k..];
      assert SepAt(rest, 0);
      CollapseAtSep(rest);
      assert rest[2..] == s[k + 2..];
      ReplaceSepIsCollapse(s[k + 2..]);
  }

  /** Occurrences do not overlap: three slashes become two. */
  lemma TripleSlash()
    ensures ReplaceSep("///") == "//"
    ensures ReplaceSep("a//b//c") == "a/b/c"
  {
    var s := "///";
    assert SepAt(s, 0);
    FirstSepUnique(s, 0);
    assert s[2..] == "/";
    assert !HasSep("/");
    var t := "a//b//c";
    assert SepAt(t, 1) && !SepAt(t, 0);
    FirstSepUnique(t, 1);
    var u := t[3..];
    assert u == "b//c" && t[..1] == "a";
    assert SepAt(u, 1) && !SepAt(u, 0);
    FirstSepUnique(u, 1);
    assert u[3..] == "c" && u[..1] == "b";
    assert !HasSep("c");
  }

  // ---------------------------------------------------------------------------
  // The converter
  // ---------------------------------------------------------------------------

  /** A string template renders an absent value as "null". */
  function Render(o: Option<string>): (r: string)
    ensures o.Some? ==> r == o.value
    ensures r == "null" <==> (o.None? || o == Some("null"))
  {
    match o
    case None => "null"
    case Some(x) => x
  }

  /** The resolved path with "//" collapsed, kept absent when it is absent (`?.replace`). */
  function CollapsedResolved(v: PathOption): (r: Option<string>)
    ensures r.Some? <==> v.resolvedPath.Some?
    ensures r.Some? ==> r.value == Collapse(v.resolvedPath.value)
  {
    match v.resolvedPath
    case None => None
    case Some(p) =>
      ReplaceSepIsCollapse(p);
      Some(ReplaceSep(p))
  }

  /** The stored form: the resolved path with "//" collapsed, the separator, then the macro path. */
  function ToString(v: PathOption): (r: string)
    ensures r == (if v.resolvedPath.Some? then Collapse(v.resolvedPath.value) else "null") + Separator + Render(v.pathWithMacro)
    ensures HasSep(r)
    ensures var tail := Render(v.pathWithMacro);
            |tail| + 2 <= |r| && r[|r| - |tail| - 2..] == Separator + tail
  {
    var head := Render(CollapsedResolved(v));
    var r := head + Separator + Render(v.pathWithMacro);
    assert SepAt(r, |head|);
    r
  }

  /** Splits at the first "//" only: the prefix is the resolved path, all the rest the macro path. */
  function FromString(s: string): (r: PathOption)
    ensures r.resolvedPath.Some? && !HasSep(r.resolvedPath.value)
    ensures r.pathWithMacro.None? <==> !HasSep(s)
    ensures s == r.resolvedPath.value + (if r.pathWithMacro.Some? then Separator + r.pathWithMacro.value else "")
    ensures r.pathWithMacro.Some? ==> FirstSep(s) == Some(|r.resolvedPath.value|)
  {
    match FirstSep(s)
    case None => PathOption(None, Some(s))
    case Some(k) =>
      PrefixHasNoSep(s, k);
      assert s == s[..k] + Separator + s[k + 2..];
      PathOption(Some(s[k + 2..]), Some(s[..k]))
  }

  // ---------------------------------------------------------------------------
  // Properties
  // ---------------------------------------------------------------------------

  /** The values for which storing and reading back is the identity. */
  ghost predicate Storable(v: PathOption) {
    && v.pathWithMacro.Some?
    && v.resolvedPath.Some?
    && !HasSep(v.resolvedPath.value)
    && !EndsWithSlash(v.resolvedPath.value)
  }

  /** A string without the separator is all resolved path and no macro path. */
  lemma DecodeWithoutSeparator(s: string)
    requires !HasSep(s)
    ensures FromString(s) == PathOption(None, Some(s))
  {
  }

  /** Decoding an encoded value always yields a macro path. */
  lemma EncodedHasMacroPath(v: PathOption)
    ensures FromString(ToString(v)).pathWithMacro.Some?
  {
  }

  /** Reading never yields the default option, so the default is not stored faithfully. */
  lemma DecodedNeverDefault(s: string)
    ensures !IsDefault(FromString(s))
    ensures ToString(Default()) == "null//null"
    ensures FromString(ToString(Default())) == PathOption(Some("null"), Some("null"))
  {
    var e := "null//null";
    assert SepAt(e, 4);
    forall j | 0 <= j < 4 ensures !SepAt(e, j) { }
    FirstSepUnique(e, 4);
    assert e[..4] == "null" && e[6..] == "null";
  }

  /** Only the first separator splits; later ones stay in the macro path. */
  lemma SplitAtFirstOnly()
    ensures FromString("a//b//c") == PathOption(Some("b//c"), Some("a"))
  {
    var s := "a//b//c";
    assert SepAt(s, 1);
    assert !SepAt(s, 0);
    FirstSepUnique(s, 1);
    assert s[..1] == "a" && s[3..] == "b//c";
  }

  /** Joining a path that neither holds "//" nor ends in "/" puts the first separator right after it. */
  lemma JoinedSepAfter(r: string, p: string)
    requires !HasSep(r) && !EndsWithSlash(r)
    ensures FirstSep(r + Separator + p) == Some(|r|)
  {
    var e := r + Separator + p;
    assert SepAt(e, |r|);
    forall j | 0 <= j < |r| ensures !SepAt(e, j) {
      if j + 1 < |r| {
        assert !SepAt(r, j);
      } else {
        assert e[j] == r[|r| - 1];
      }
    }
    FirstSepUnique(e, |r|);
  }

  lemma StorableRoundTrip(v: PathOption)
    requires Storable(v)
    ensures FromString(ToString(v)) == v
  {
    var r, p := v.resolvedPath.value, v.pathWithMacro.value;
    CollapseNoSep(r);
    var e := ToString(v);
    assert e == r + Separator + p;
    JoinedSepAfter(r, p);
    assert e[..|r|] == r;
    assert e[|r| + 2..] == p;
  }

  lemma UnstorableBreaks(v: PathOption)
    requires !Storable(v)
    ensures FromString(ToString(v)) != v
  {
    var e := ToString(v);
    var d := FromString(e);
    if v.resolvedPath.Some? && v.pathWithMacro.Some? && !HasSep(v.resolvedPath.value) {
      var r := v.resolvedPath.value;
      assert EndsWithSlash(r);
      assert e == r + Separator + Render(v.pathWithMacro);
      assert SepAt(e, |r| - 1);
      var k := FirstSep(e).value;
      assert k <= |r| - 1;
      assert d.resolvedPath.value == e[..k];
    }
  }

  /** Storing then reading recovers both fields exactly for the storable values. */
  lemma RoundTripIff(v: PathOption)
    ensures FromString(ToString(v)) == v <==> Storable(v)
  {
    if Storable(v) {
      StorableRoundTrip(v);
    } else {
      UnstorableBreaks(v);
    }
  }
}
