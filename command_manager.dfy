/**
 * The command manager as an object: its two maps and the alias classes they
 * share are fields, and each mutator updates them step by step as the source
 * does. Every method is proved against the functions of AliasRegistry, so the
 * properties proved there hold of the object.
 *
 * A `require` that fails in the source throws and leaves the manager as it
 * was; here the mutators return an Outcome and the queries a Result instead.
 */
module Manager {
  import AliasRegistry
  import RegistryProperties

  type Handle = AliasRegistry.Handle
  type CommandError = AliasRegistry.CommandError
  type Result<T> = AliasRegistry.Result<T>

  datatype Outcome = Done | Failed(error: CommandError)

  /** The command name with its leading backslash, as the NoSlash variants build it. */
  function Escaped(commandNoSlash: string): (r: string)
    ensures |r| == |commandNoSlash| + 1 && r[0] == '\\' && r[1..] == commandNoSlash
  {
    "\\" + commandNoSlash
  }

  /**
   * What a mutator did, given what its specification function says: on success
   * the new state is the one computed, on failure the same error is reported
   * and nothing changed.
   */
  predicate Reflects(before: AliasRegistry.Registry, spec: Result<AliasRegistry.Registry>,
                     after: AliasRegistry.Registry, outcome: Outcome)
  {
    match spec
    case Ok(next) => after == next && outcome == Done
    case Err(e) => after == before && outcome == Failed(e)
  }

  class CommandManager {
    /** Every registered name (alias or not) to the handle of its alias class. */
    var aliases: map<string, Handle>
    /** Every original command to the handle of the class created for it. */
    var original: map<string, Handle>
    /** The alias classes; a handle is an index here. */
    var classes: seq<set<string>>

    function State(): AliasRegistry.Registry
      reads this
    {
      AliasRegistry.Registry(aliases, original, classes)
    }

    ghost predicate Valid()
      reads this
    {
      AliasRegistry.Valid(State())
    }

    /** A new manager without any command registered. */
    constructor()
      ensures Valid()
      ensures State() == AliasRegistry.Empty()
    {
      aliases := map[];
      original := map[];
      classes := [];
    }

    /** registerCommand: a brand-new command, with a fresh class of its own shared by both maps. */
    method RegisterCommand(command: string) returns (outcome: Outcome)
      requires Valid()
      modifies this
      ensures Valid()
      ensures Reflects(old(State()), AliasRegistry.Register(old(State()), command), State(), outcome)
    {
      AliasRegistry.RegisterKeepsValid(State(), command);
      if command in aliases {
        return Failed(AliasRegistry.AlreadyRegistered(command));
      }
      var h := |classes|;
      classes := classes + [{command}];
      original := original[command := h];
      aliases := aliases[command := h];
      return Done;
    }

    method RegisterCommandNoSlash(commandNoSlash: string) returns (outcome: Outcome)
      requires Valid()
      modifies this
      ensures Valid()
      ensures Reflects(old(State()), AliasRegistry.Register(old(State()), Escaped(commandNoSlash)), State(), outcome)
    {
      outcome := RegisterCommand(Escaped(commandNoSlash));
    }

    /**
     * registerAlias: the alias leaves the class it is in, if any, and joins
     * the class of the command; the originals are not touched.
     */
    method RegisterAlias(command: string, alias: string) returns (outcome: Outcome)
      requires Valid()
      modifies this
      ensures Valid()
      ensures Reflects(old(State()), AliasRegistry.Alias(old(State()), command, alias), State(), outcome)
    {
      ghost var before := State();
      if command !in aliases {
        return Failed(AliasRegistry.NotRegistered(command));
      }
      var h := aliases[command];
      var names, sets := aliases, classes;
      ghost var p := if alias in names then names[alias] else h;
      // If the alias is already assigned, it leaves its class first.
      if alias in names {
        var previous := names[alias];
        sets := sets[previous := sets[previous] - {alias}];
        names := names - {alias};
      }
      ghost var removed := sets;
      sets := sets[h := sets[h] + {alias}];
      names := names[alias := h];
      AliasMatches(before, command, alias, p, removed);
      assert names == before.aliases[alias := h];
      assert AliasRegistry.Registry(names, original, sets) == AliasRegistry.Alias(before, command, alias).value;
      AliasRegistry.AliasKeepsValid(before, command, alias);
      aliases, classes := names, sets;
      return Done;
    }

    /** The steps of RegisterAlias compute the arena of the specification. */
    static lemma AliasMatches(s: AliasRegistry.Registry, command: string, alias: string, p: Handle,
                              removed: seq<set<string>>)
      requires AliasRegistry.Valid(s) && command in s.aliases
      requires p == if alias in s.aliases then s.aliases[alias] else s.aliases[command]
      requires removed == if alias in s.aliases then s.classes[p := s.classes[p] - {alias}] else s.classes
      ensures var h := s.aliases[command];
              removed[h := removed[h] + {alias}] == AliasRegistry.Moved(s.classes, alias, h)
    {
      var h := s.aliases[command];
      var r := removed[h := removed[h] + {alias}];
      var m := AliasRegistry.Moved(s.classes, alias, h);
      forall g | 0 <= g < |s.classes| ensures r[g] == m[g] {
        if g != h && g != p {
          if alias in s.aliases {
            AliasRegistry.NotInOtherClass(s, alias, g);
          } else {
            assert alias !in s.classes[g];
          }
        }
      }
    }

    method RegisterAliasNoSlash(commandNoSlash: string, aliasNoSlash: string) returns (outcome: Outcome)
      requires Valid()
      modifies this
      ensures Valid()
      ensures Reflects(old(State()), AliasRegistry.Alias(old(State()), Escaped(commandNoSlash), Escaped(aliasNoSlash)),
                       State(), outcome)
    {
      outcome := RegisterAlias(Escaped(commandNoSlash), Escaped(aliasNoSlash));
    }

    /** clear: nothing is registered any more. */
    method Clear()
      requires Valid()
      modifies this
      ensures Valid()
      ensures State() == AliasRegistry.Empty()
    {
      aliases := map[];
      original := map[];
      classes := [];
    }

    /** getAliases: a copy of the class of a registered command. */
    method GetAliases(command: string) returns (r: Result<set<string>>)
      requires Valid()
      ensures r == AliasRegistry.AliasesOf(State(), command)
      ensures r.Ok? <==> command in aliases
      ensures r.Ok? ==> command in r.value
    {
      if command !in aliases {
        return AliasRegistry.Err(AliasRegistry.NotRegistered(command));
      }
      return AliasRegistry.Ok(classes[aliases[command]]);
    }

    method GetAliasesNoSlash(commandNoSlash: string) returns (r: Result<set<string>>)
      requires Valid()
      ensures r == AliasRegistry.AliasesOf(State(), Escaped(commandNoSlash))
    {
      r := GetAliases(Escaped(commandNoSlash));
    }

    /** getAliasesFromOriginal: a copy of the class created for an original command, as it is now. */
    method GetAliasesFromOriginal(originalCommand: string) returns (r: Result<set<string>>)
      requires Valid()
      ensures r == AliasRegistry.OriginalAliasesOf(State(), originalCommand)
      ensures r.Ok? <==> originalCommand in original
    {
      if originalCommand !in original {
        return AliasRegistry.Err(AliasRegistry.NotOriginal(originalCommand));
      }
      return AliasRegistry.Ok(classes[original[originalCommand]]);
    }

    method GetAliasesFromOriginalNoSlash(originalCommandNoSlash: string) returns (r: Result<set<string>>)
      requires Valid()
      ensures r == AliasRegistry.OriginalAliasesOf(State(), Escaped(originalCommandNoSlash))
    {
      r := GetAliasesFromOriginal(Escaped(originalCommandNoSlash));
    }

    /** allCommands: every registered name, aliases included. */
    method AllCommands() returns (r: set<string>)
      ensures r == AliasRegistry.AllCommands(State())
      ensures forall c :: c in r <==> c in aliases
    {
      r := aliases.Keys;
    }

    method IsRegistered(command: string) returns (r: bool)
      ensures r == AliasRegistry.IsRegistered(State(), command)
      ensures r <==> command in aliases
    {
      r := command in aliases;
    }

    method IsRegisteredNoSlash(commandNoSlash: string) returns (r: bool)
      ensures r == AliasRegistry.IsRegistered(State(), Escaped(commandNoSlash))
    {
      r := IsRegistered(Escaped(commandNoSlash));
    }

    method IsOriginal(command: string) returns (r: bool)
      ensures r == AliasRegistry.IsOriginal(State(), command)
      ensures r <==> command in original
    {
      r := command in original;
    }

    method IsOriginalNoSlash(commandNoSlash: string) returns (r: bool)
      ensures r == AliasRegistry.IsOriginal(State(), Escaped(commandNoSlash))
    {
      r := IsOriginal(Escaped(commandNoSlash));
    }

    /** size: the number of registered names. */
    method Size() returns (r: nat)
      ensures r == AliasRegistry.Size(State())
      ensures r == |aliases|
    {
      r := |aliases|;
    }

    /** originalSize: the number of original commands. */
    method OriginalSize() returns (r: nat)
      requires Valid()
      ensures r == AliasRegistry.OriginalSize(State())
      ensures r <= |aliases|
    {
      r := |original|;
    }
  }

  /**
   * The three \let lines of the documented example run on a fresh manager:
   * afterwards the class created for \varepsilon holds \goodepsilon and \epsilon.
   */
  method EpsilonExample() returns (varEpsilonMeaning: Result<set<string>>)
    ensures varEpsilonMeaning == AliasRegistry.Ok({RegistryProperties.GoodEpsilon, RegistryProperties.Epsilon})
  {
    var m := new CommandManager();
    var o1 := m.RegisterCommand(RegistryProperties.Epsilon);
    ghost var r1 := m.State();
    var o2 := m.RegisterCommand(RegistryProperties.VarEpsilon);
    ghost var r2 := m.State();
    var o3 := m.RegisterCommand(RegistryProperties.GoodEpsilon);
    ghost var r3 := m.State();
    RegistryProperties.EpsilonsRegistered(r1, r2, r3);
    var o4 := m.RegisterAlias(RegistryProperties.VarEpsilon, RegistryProperties.GoodEpsilon);
    ghost var s1 := m.State();
    var o5 := m.RegisterAlias(RegistryProperties.Epsilon, RegistryProperties.VarEpsilon);
    ghost var s2 := m.State();
    var o6 := m.RegisterAlias(RegistryProperties.GoodEpsilon, RegistryProperties.Epsilon);
    ghost var s3 := m.State();
    RegistryProperties.EpsilonLets(r1, r2, r3, s1, s2, s3);
    varEpsilonMeaning := m.GetAliasesFromOriginal(RegistryProperties.VarEpsilon);
  }
}
