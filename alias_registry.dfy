/**
 * The state of the LaTeX command manager, as a value.
 *
 * Command names are stored with their leading backslash. The source keeps two
 * hash maps whose values are shared mutable sets: all names of one alias class
 * point at the same set instance, and the map of original commands points at
 * the very set that was created when the command was registered. Here that
 * identity is a handle: an index into an arena of alias classes. Every name
 * whose entry holds handle h sees the same class `classes[h]`, so changing the
 * class at h is seen through all of them, through `original` included.
 */
module AliasRegistry {

  type Handle = nat

  /** The three ways a `require` of the command manager can fail. */
  datatype CommandError =
    | AlreadyRegistered(command: string)
    | NotRegistered(command: string)
    | NotOriginal(command: string)

  datatype Result<T> = Ok(value: T) | Err(error: CommandError)

  /**
   * aliases:  every registered name to the handle of its current alias class;
   * original: every name registered as a brand-new command to the handle of
   *           the class created for it (that class lives on and keeps changing);
   * classes:  the arena; one slot per class ever created.
   */
  datatype Registry = Registry(
    aliases: map<string, Handle>,
    original: map<string, Handle>,
    classes: seq<set<string>>)

  /** Every registered name points at a class that holds it. */
  ghost predicate Covered(s: Registry) {
    forall k | k in s.aliases :: s.aliases[k] < |s.classes| && k in s.classes[s.aliases[k]]
  }

  /** A class holds only names that point at it. */
  ghost predicate Exact(s: Registry) {
    forall h, x | 0 <= h < |s.classes| && x in s.classes[h] :: x in s.aliases && s.aliases[x] == h
  }

  /** Every original command is registered and points at a class. */
  ghost predicate OriginalsKnown(s: Registry) {
    forall o | o in s.original :: o in s.aliases && s.original[o] < |s.classes|
  }

  /** Each class was created for exactly one original command. */
  ghost predicate OriginalsDistinct(s: Registry) {
    && (forall o, p | o in s.original && p in s.original && o != p :: s.original[o] != s.original[p])
    && |s.original| == |s.classes|
  }

  /** The partition invariant. */
  ghost predicate Valid(s: Registry) {
    Covered(s) && Exact(s) && OriginalsKnown(s) && OriginalsDistinct(s)
  }

  /** The manager as constructed, and as left by `clear`. */
  function Empty(): (r: Registry)
    ensures Valid(r)
    ensures forall c :: !IsRegistered(r, c) && !IsOriginal(r, c)
    ensures Size(r) == 0 && OriginalSize(r) == 0
  {
    Registry(map[], map[], [])
  }

  // ---------------------------------------------------------------------------
  // Queries
  // ---------------------------------------------------------------------------

  /** The names whose entry holds handle h. */
  ghost function NamesAt(s: Registry, h: Handle): set<string> {
    set x | x in s.aliases && s.aliases[x] == h
  }

  function IsRegistered(s: Registry, command: string): (r: bool)
    ensures Valid(s) ==> (r <==> command in s.aliases && command in s.classes[s.aliases[command]])
  {
    command in s.aliases
  }

  /** A name is registered exactly when some alias class holds it. */
  lemma RegisteredIffInClass(s: Registry, command: string)
    requires Valid(s)
    ensures IsRegistered(s, command) <==> exists h :: 0 <= h < |s.classes| && command in s.classes[h]
  {
    if IsRegistered(s, command) {
      assert command in s.classes[s.aliases[command]];
    }
  }

  function IsOriginal(s: Registry, command: string): (r: bool)
    ensures Valid(s) && r ==> IsRegistered(s, command)
  {
    command in s.original
  }

  /** A copy of the current alias class of a registered command. */
  function AliasesOf(s: Registry, command: string): (r: Result<set<string>>)
    requires Valid(s)
    ensures r.Ok? <==> IsRegistered(s, command)
    ensures r.Err? ==> r.error == NotRegistered(command)
    ensures r.Ok? ==> command in r.value
  {
    if command in s.aliases then Ok(s.classes[s.aliases[command]]) else Err(NotRegistered(command))
  }

  /** A copy of the class that was created for an original command, as it is now. */
  function OriginalAliasesOf(s: Registry, command: string): (r: Result<set<string>>)
    requires Valid(s)
    ensures r.Ok? <==> IsOriginal(s, command)
    ensures r.Err? ==> r.error == NotOriginal(command)
  {
    if command in s.original then Ok(s.classes[s.original[command]]) else Err(NotOriginal(command))
  }

  /** A registered name is in no class but its own. */
  lemma NotInOtherClass(s: Registry, x: string, g: Handle)
    requires Valid(s) && x in s.aliases && g < |s.classes| && s.aliases[x] != g
    ensures x !in s.classes[g]
  {
  }

  /** The class of a name holds exactly the names that share its entry. */
  lemma AliasesAreNamesAt(s: Registry, command: string)
    requires Valid(s) && IsRegistered(s, command)
    ensures AliasesOf(s, command).value == NamesAt(s, s.aliases[command])
  {
  }

  /** The class of an original holds exactly the names whose entry is the one it was created with. */
  lemma OriginalAliasesAreNamesAt(s: Registry, command: string)
    requires Valid(s) && IsOriginal(s, command)
    ensures OriginalAliasesOf(s, command).value == NamesAt(s, s.original[command])
  {
  }

  function AllCommands(s: Registry): (r: set<string>)
    ensures forall c :: c in r <==> IsRegistered(s, c)
    ensures Valid(s) ==> s.original.Keys <= r
  {
    s.aliases.Keys
  }

  function Size(s: Registry): (r: nat)
    ensures r == |AllCommands(s)|
  {
    |s.aliases|
  }

  function OriginalSize(s: Registry): (r: nat)
    ensures Valid(s) ==> r == |s.classes| && r <= Size(s)
  {
    assert Valid(s) ==> |s.original| <= |s.aliases| by {
      if Valid(s) { SubsetCard(s.original.Keys, s.aliases.Keys); }
    }
    |s.original|
  }

  lemma SubsetCard(a: set<string>, b: set<string>)
    requires a <= b
    ensures |a| <= |b|
  {
    assert b == a + (b - a);
  }

  // ---------------------------------------------------------------------------
  // Mutations, as functions from the old state to the new one
  // ---------------------------------------------------------------------------

  /** A brand-new command gets a fresh class {command}, shared by both maps. */
  function Register(s: Registry, command: string): (r: Result<Registry>)
    ensures r.Ok? <==> !IsRegistered(s, command)
    ensures r.Err? ==> r.error == AlreadyRegistered(command)
    ensures r.Ok? ==> IsRegistered(r.value, command) && IsOriginal(r.value, command)
    ensures r.Ok? ==> |r.value.classes| == |s.classes| + 1
  {
    if command in s.aliases then Err(AlreadyRegistered(command))
    else
      var h := |s.classes|;
      Ok(Registry(s.aliases[command := h], s.original[command := h], s.classes + [{command}]))
  }

  /** The arena after `x` joins the class at `h` and leaves every other class. */
  function Moved(classes: seq<set<string>>, x: string, h: Handle): seq<set<string>>
  {
    seq(|classes|, g requires 0 <= g < |classes| => if g == h then classes[g] + {x} else classes[g] - {x})
  }

  /** `alias` now names the class of `command`; `original` is left alone. */
  function Alias(s: Registry, command: string, alias: string): (r: Result<Registry>)
    ensures r.Ok? <==> IsRegistered(s, command)
    ensures r.Err? ==> r.error == NotRegistered(command)
    ensures r.Ok? ==> r.value.original == s.original && |r.value.classes| == |s.classes|
  {
    if command !in s.aliases then Err(NotRegistered(command))
    else
      var h := s.aliases[command];
      Ok(Registry(s.aliases[alias := h], s.original, Moved(s.classes, alias, h)))
  }

  // ---------------------------------------------------------------------------
  // The invariant is preserved
  // ---------------------------------------------------------------------------

  lemma RegisterKeepsValid(s: Registry, command: string)
    requires Valid(s)
    ensures Register(s, command).Ok? ==> Valid(Register(s, command).value)
  {
    if command !in s.aliases {
      RegisterKeepsCovered(s, command);
      RegisterKeepsExact(s, command);
      RegisterKeepsOriginals(s, command);
    }
  }

  lemma RegisterKeepsCovered(s: Registry, command: string)
    requires Valid(s) && command !in s.aliases
    ensures Covered(Register(s, command).value)
  {
    var t := Register(s, command).value;
    forall k | k in t.aliases ensures t.aliases[k] < |t.classes| && k in t.classes[t.aliases[k]] {
      if k != command {
        assert t.classes[s.aliases[k]] == s.classes[s.aliases[k]];
      }
    }
  }

  lemma RegisterKeepsExact(s: Registry, command: string)
    requires Valid(s) && command !in s.aliases
    ensures Exact(Register(s, command).value)
  {
    var t := Register(s, command).value;
    forall g, x | 0 <= g < |t.classes| && x in t.classes[g]
      ensures x in t.aliases && t.aliases[x] == g
    {
      if g < |s.classes| {
        assert x in s.classes[g];
      }
    }
  }

  lemma RegisterKeepsOriginals(s: Registry, command: string)
    requires Valid(s) && command !in s.aliases
    ensures OriginalsKnown(Register(s, command).value)
    ensures OriginalsDistinct(Register(s, command).value)
  {
    var t := Register(s, command).value;
    forall o | o in s.original ensures s.original[o] < |s.classes| && o != command { }
    assert t.original.Keys == s.original.Keys + {command};
    assert command !in s.original.Keys;
    assert |t.original.Keys| == |s.original.Keys| + 1;
  }

  lemma AliasKeepsValid(s: Registry, command: string, alias: string)
    requires Valid(s)
    ensures Alias(s, command, alias).Ok? ==> Valid(Alias(s, command, alias).value)
  {
    if command in s.aliases {
      var t := Alias(s, command, alias).value;
      var h := s.aliases[command];
      forall k | k in t.aliases
        ensures t.aliases[k] < |t.classes| && k in t.classes[t.aliases[k]]
      {
        if k != alias {
          assert k in s.classes[s.aliases[k]];
        }
      }
      forall g, x | 0 <= g < |t.classes| && x in t.classes[g]
        ensures x in t.aliases && t.aliases[x] == g
      {
        if x != alias {
          assert x in s.classes[g];
        }
      }
    }
  }
}
