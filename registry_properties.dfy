/**
 * What registering and aliasing do to the alias classes and to the classes
 * of the original commands, stated over the queries of the registry.
 */
module RegistryProperties {
  import opened AliasRegistry

  // ---------------------------------------------------------------------------
  // The partition
  // ---------------------------------------------------------------------------

  /** Two registered names are aliases exactly when they share a class; two classes are equal or disjoint. */
  lemma Partition(s: Registry, x: string, y: string)
    requires Valid(s)
    requires IsRegistered(s, x) && IsRegistered(s, y)
    ensures x in AliasesOf(s, y).value <==> s.aliases[x] == s.aliases[y]
    ensures x in AliasesOf(s, y).value <==> AliasesOf(s, x) == AliasesOf(s, y)
    ensures AliasesOf(s, x) == AliasesOf(s, y) || AliasesOf(s, x).value !! AliasesOf(s, y).value
  {
    if s.aliases[x] != s.aliases[y] {
      assert x !in AliasesOf(s, y).value;
      forall z | z in AliasesOf(s, x).value ensures z !in AliasesOf(s, y).value {
        assert z in NamesAt(s, s.aliases[x]);
      }
    }
  }

  // ---------------------------------------------------------------------------
  // registerCommand
  // ---------------------------------------------------------------------------

  /**
   * Registering fails exactly on a known name; otherwise the name gets a class
   * of its own, {command}, which is also its original class.
   */
  lemma RegisterCommandSpec(s: Registry, command: string)
    requires Valid(s)
    ensures Register(s, command).Err? <==> IsRegistered(s, command)
    ensures Register(s, command).Err? ==> Register(s, command).error == AlreadyRegistered(command)
    ensures Register(s, command).Ok? ==>
      var t := Register(s, command).value;
      && Valid(t)
      && AliasesOf(t, command) == Ok({command})
      && OriginalAliasesOf(t, command) == Ok({command})
  {
    RegisterKeepsValid(s, command);
    if command !in s.aliases {
      var t := Register(s, command).value;
      assert t.classes[|s.classes|] == {command};
    }
  }

  /** A registration adds one name to the registered ones and one to the originals. */
  lemma RegisterCounts(s: Registry, command: string, t: Registry)
    requires Valid(s)
    requires Register(s, command) == Ok(t)
    ensures AllCommands(t) == AllCommands(s) + {command}
    ensures Size(t) == Size(s) + 1
    ensures OriginalSize(t) == OriginalSize(s) + 1
  {
    assert t.aliases.Keys == s.aliases.Keys + {command};
    assert command !in s.original;
    assert t.original.Keys == s.original.Keys + {command};
  }

  /** Registering leaves the classes that other names see, and their original classes, as they were. */
  lemma RegisterLeavesOthers(s: Registry, command: string, t: Registry, x: string)
    requires Valid(s)
    requires Register(s, command) == Ok(t)
    requires x != command
    ensures Valid(t)
    ensures AliasesOf(t, x) == AliasesOf(s, x)
    ensures OriginalAliasesOf(t, x) == OriginalAliasesOf(s, x)
  {
    RegisterKeepsValid(s, command);
    if x in s.aliases {
      assert t.classes[s.aliases[x]] == s.classes[s.aliases[x]];
    }
    if x in s.original {
      assert t.classes[s.original[x]] == s.classes[s.original[x]];
    }
  }

  // ---------------------------------------------------------------------------
  // registerAlias
  // ---------------------------------------------------------------------------

  /** Aliasing fails, and so changes nothing, exactly when the target is unknown. */
  lemma AliasNeedsTarget(s: Registry, command: string, alias: string)
    ensures Alias(s, command, alias).Err? <==> !IsRegistered(s, command)
    ensures Alias(s, command, alias).Err? ==> Alias(s, command, alias).error == NotRegistered(command)
  {
  }

  /** The alias joins the class of the target, which otherwise keeps its members. */
  lemma AliasJoinsTarget(s: Registry, command: string, alias: string, t: Registry)
    requires Valid(s)
    requires Alias(s, command, alias) == Ok(t)
    ensures Valid(t)
    ensures IsRegistered(t, command) && IsRegistered(t, alias)
    ensures AliasesOf(t, alias) == AliasesOf(t, command)
    ensures AliasesOf(t, command).value == AliasesOf(s, command).value + {alias}
  {
    AliasKeepsValid(s, command, alias);
    assert t.classes[s.aliases[command]] == s.classes[s.aliases[command]] + {alias};
  }

  /**
   * Every other registered name sees its class change only by the alias:
   * the target's class gains it, every other class (the alias's former class
   * among them) loses it.
   */
  lemma AliasDetaches(s: Registry, command: string, alias: string, t: Registry, x: string)
    requires Valid(s)
    requires Alias(s, command, alias) == Ok(t)
    requires IsRegistered(s, x) && x != alias
    ensures Valid(t) && IsRegistered(t, x)
    ensures AliasesOf(t, x).value ==
              if x in AliasesOf(s, command).value then AliasesOf(s, x).value + {alias}
              else AliasesOf(s, x).value - {alias}
  {
    AliasKeepsValid(s, command, alias);
    Partition(s, x, command);
  }

  /** The former classmates of the alias still share one class, without it. */
  lemma FormerClassmatesStayTogether(s: Registry, command: string, alias: string, t: Registry, x: string, y: string)
    requires Valid(s)
    requires Alias(s, command, alias) == Ok(t)
    requires IsRegistered(s, alias)
    requires x in AliasesOf(s, alias).value && y in AliasesOf(s, alias).value
    requires x != alias && y != alias
    requires alias !in AliasesOf(s, command).value
    ensures Valid(t)
    ensures x in AliasesOf(t, y).value
    ensures AliasesOf(t, x).value == AliasesOf(s, alias).value - {alias}
  {
    Partition(s, x, alias);
    Partition(s, y, alias);
    Partition(s, alias, command);
    AliasDetaches(s, command, alias, t, x);
    AliasDetaches(s, command, alias, t, y);
    assert t.aliases[x] == s.aliases[x] == s.aliases[y] == t.aliases[y];
  }

  /**
   * The map of originals is never touched, and the class of an original is
   * live: it gains the alias if it is the target's class and loses it otherwise.
   */
  lemma AliasUpdatesOriginals(s: Registry, command: string, alias: string, t: Registry, o: string)
    requires Valid(s)
    requires Alias(s, command, alias) == Ok(t)
    ensures Valid(t)
    ensures t.original == s.original
    ensures IsOriginal(t, o) <==> IsOriginal(s, o)
    ensures OriginalSize(t) == OriginalSize(s)
    ensures IsOriginal(s, o) ==>
              OriginalAliasesOf(t, o).value ==
                if command in OriginalAliasesOf(s, o).value then OriginalAliasesOf(s, o).value + {alias}
                else OriginalAliasesOf(s, o).value - {alias}
  {
    AliasKeepsValid(s, command, alias);
    if IsOriginal(s, o) {
      var g := s.original[o];
      assert command in s.classes[g] <==> g == s.aliases[command];
      assert t.classes[g] == if g == s.aliases[command] then s.classes[g] + {alias} else s.classes[g] - {alias};
    }
  }

  /** AliasUpdatesOriginals for one original whose class is known, in the form the scenarios use. */
  lemma OriginalAfterAlias(s: Registry, command: string, alias: string, t: Registry, o: string, before: set<string>)
    requires Valid(s)
    requires Alias(s, command, alias) == Ok(t)
    requires OriginalAliasesOf(s, o) == Ok(before)
    ensures Valid(t)
    ensures OriginalAliasesOf(t, o) == Ok(if command in before then before + {alias} else before - {alias})
  {
    AliasUpdatesOriginals(s, command, alias, t, o);
  }

  /** AliasDetaches for one name whose class is known, in the form the scenarios use. */
  lemma ClassAfterAlias(s: Registry, command: string, alias: string, t: Registry, x: string, before: set<string>)
    requires Valid(s)
    requires Alias(s, command, alias) == Ok(t)
    requires AliasesOf(s, x) == Ok(before) && x != alias
    ensures Valid(t)
    ensures AliasesOf(t, x) == Ok(if command in before then before + {alias} else before - {alias})
  {
    AliasDetaches(s, command, alias, t, x);
    Partition(s, command, x);
  }

  /** No name is ever unregistered; the count grows exactly when the alias is new. */
  lemma AliasKeepsNames(s: Registry, command: string, alias: string, t: Registry)
    requires Valid(s)
    requires Alias(s, command, alias) == Ok(t)
    ensures AllCommands(t) == AllCommands(s) + {alias}
    ensures Size(t) == Size(s) + (if IsRegistered(s, alias) then 0 else 1)
  {
    assert t.aliases.Keys == s.aliases.Keys + {alias};
  }

  /** Aliasing a name that already is in the target's class, the target itself included, changes nothing. */
  lemma AliasWithinClassIsNoOp(s: Registry, command: string, alias: string)
    requires Valid(s)
    requires IsRegistered(s, command)
    requires alias in AliasesOf(s, command).value
    ensures Alias(s, command, alias) == Ok(s)
  {
    var h := s.aliases[command];
    var t := Alias(s, command, alias).value;
    assert alias in s.classes[h];
    assert s.aliases[alias] == h;
    forall g | 0 <= g < |s.classes| ensures t.classes[g] == s.classes[g] {
      if g != h {
        NotInOtherClass(s, alias, g);
      }
    }
    assert t.classes == s.classes;
    assert t.aliases == s.aliases;
  }

  /** A name aliased to itself stays where it is. */
  lemma SelfAliasIsNoOp(s: Registry, command: string)
    requires Valid(s)
    requires IsRegistered(s, command)
    ensures Alias(s, command, command) == Ok(s)
  {
    AliasWithinClassIsNoOp(s, command, command);
  }

  // ---------------------------------------------------------------------------
  // Scenarios
  // ---------------------------------------------------------------------------

  const A: string := "\\A"
  const B: string := "\\B"
  const C: string := "\\C"

  lemma NamesDiffer()
    ensures A != B && A != C && B != C
  {
    assert A[1] != B[1] && A[1] != C[1] && B[1] != C[1];
  }

  /** Registering a new name, gathered in one place for the scenarios. */
  lemma RegisterNew(s: Registry, command: string, t: Registry)
    requires Valid(s)
    requires Register(s, command) == Ok(t)
    ensures Valid(t)
    ensures AliasesOf(t, command) == Ok({command}) && OriginalAliasesOf(t, command) == Ok({command})
    ensures AllCommands(t) == AllCommands(s) + {command}
    ensures forall x | x != command :: AliasesOf(t, x) == AliasesOf(s, x) && OriginalAliasesOf(t, x) == OriginalAliasesOf(s, x)
  {
    RegisterCommandSpec(s, command);
    RegisterCounts(s, command, t);
    forall x | x != command
      ensures AliasesOf(t, x) == AliasesOf(s, x) && OriginalAliasesOf(t, x) == OriginalAliasesOf(s, x)
    {
      RegisterLeavesOthers(s, command, t, x);
    }
  }

  /** registerCommand(A) on an empty manager. */
  lemma FirstCommand(s1: Registry)
    requires Register(Empty(), A) == Ok(s1)
    ensures Valid(s1) && AllCommands(s1) == {A}
    ensures AliasesOf(s1, A) == Ok({A}) && OriginalAliasesOf(s1, A) == Ok({A})
  {
    RegisterCommandSpec(Empty(), A);
    RegisterCounts(Empty(), A, s1);
  }

  /** registerCommand(B) next: A keeps its class. */
  lemma SecondCommand(s1: Registry, s2: Registry)
    requires Valid(s1) && AliasesOf(s1, A) == Ok({A})
    requires Register(s1, B) == Ok(s2)
    ensures Valid(s2) && AliasesOf(s2, A) == Ok({A})
  {
    NamesDiffer();
    RegisterLeavesOthers(s1, B, s2, A);
  }

  /** registerCommand(B) next: two names are registered. */
  lemma SecondCommandNames(s1: Registry, s2: Registry)
    requires Valid(s1) && AllCommands(s1) == {A}
    requires Register(s1, B) == Ok(s2)
    ensures AllCommands(s2) == {A, B}
  {
    RegisterCounts(s1, B, s2);
    assert {A} + {B} == {A, B};
  }

  /** registerCommand(B) next: B is original, with a class of its own. */
  lemma SecondOriginal(s1: Registry, s2: Registry)
    requires Valid(s1) && OriginalAliasesOf(s1, A) == Ok({A})
    requires Register(s1, B) == Ok(s2)
    ensures Valid(s2)
    ensures OriginalAliasesOf(s2, A) == Ok({A}) && OriginalAliasesOf(s2, B) == Ok({B})
  {
    NamesDiffer();
    RegisterCommandSpec(s1, B);
    RegisterLeavesOthers(s1, B, s2, A);
  }

  /** registerAlias(A, B): B joins A's class. */
  lemma TransferClasses(s2: Registry, t: Registry)
    requires Valid(s2) && AllCommands(s2) == {A, B}
    requires AliasesOf(s2, A) == Ok({A})
    requires Alias(s2, A, B) == Ok(t)
    ensures Valid(t) && AllCommands(t) == {A, B}
    ensures AliasesOf(t, A) == Ok({A, B}) && AliasesOf(t, B) == Ok({A, B})
  {
    ClassAfterAlias(s2, A, B, t, A, {A});
    assert {A} + {B} == {A, B};
    AliasJoinsTarget(s2, A, B, t);
    AliasKeepsNames(s2, A, B, t);
    assert {A, B} + {B} == {A, B};
  }

  /** registerAlias(A, B): the class created for A gains B; the one created for B loses it. */
  lemma TransferOriginals(s2: Registry, t: Registry)
    requires Valid(s2)
    requires OriginalAliasesOf(s2, A) == Ok({A}) && OriginalAliasesOf(s2, B) == Ok({B})
    requires Alias(s2, A, B) == Ok(t)
    ensures Valid(t)
    ensures OriginalAliasesOf(t, A) == Ok({A, B}) && OriginalAliasesOf(t, B) == Ok({})
  {
    NamesDiffer();
    OriginalAfterAlias(s2, A, B, t, A, {A});
    assert {A} + {B} == {A, B};
    OriginalAfterAlias(s2, A, B, t, B, {B});
    assert {B} - {B} == {};
  }

  /**
   * registerCommand(A), registerCommand(B), registerAlias(A, B): both now name
   * A's class, and the class created for B is left empty, because B itself was
   * moved out of it.
   */
  lemma AliasTransfer(s1: Registry, s2: Registry, t: Registry)
    requires Register(Empty(), A) == Ok(s1) && Register(s1, B) == Ok(s2)
    requires Alias(s2, A, B) == Ok(t)
    ensures Valid(t)
    ensures AliasesOf(t, A) == Ok({A, B}) && AliasesOf(t, B) == Ok({A, B})
    ensures OriginalAliasesOf(t, A) == Ok({A, B}) && OriginalAliasesOf(t, B) == Ok({})
    ensures AllCommands(t) == {A, B}
  {
    FirstCommand(s1);
    SecondCommand(s1, s2);
    SecondCommandNames(s1, s2);
    SecondOriginal(s1, s2);
    TransferClasses(s2, t);
    TransferOriginals(s2, t);
  }

  /** registerCommand(C) after the transfer. */
  lemma RegisterThird(t: Registry, s3: Registry)
    requires Valid(t)
    requires AliasesOf(t, A) == Ok({A, B})
    requires OriginalAliasesOf(t, A) == Ok({A, B}) && OriginalAliasesOf(t, B) == Ok({})
    requires Register(t, C) == Ok(s3)
    ensures Valid(s3)
    ensures AliasesOf(s3, A) == Ok({A, B}) && AliasesOf(s3, C) == Ok({C})
    ensures OriginalAliasesOf(s3, A) == Ok({A, B}) && OriginalAliasesOf(s3, B) == Ok({})
    ensures OriginalAliasesOf(s3, C) == Ok({C})
  {
    NamesDiffer();
    RegisterNew(t, C, s3);
  }

  /** registerAlias(C, B): B leaves A's class for C's. */
  lemma ReAliasClasses(s3: Registry, u: Registry)
    requires Valid(s3)
    requires AliasesOf(s3, A) == Ok({A, B}) && AliasesOf(s3, C) == Ok({C})
    requires Alias(s3, C, B) == Ok(u)
    ensures Valid(u)
    ensures AliasesOf(u, A) == Ok({A}) && AliasesOf(u, B) == Ok({B, C}) && AliasesOf(u, C) == Ok({B, C})
  {
    NamesDiffer();
    ClassAfterAlias(s3, C, B, u, C, {C});
    assert {C} + {B} == {B, C};
    AliasJoinsTarget(s3, C, B, u);
    ClassAfterAlias(s3, C, B, u, A, {A, B});
    assert {A, B} - {B} == {A};
  }

  /** registerAlias(C, B): the classes created for A and C follow B; the one created for B stays empty. */
  lemma ReAliasOriginals(s3: Registry, u: Registry)
    requires Valid(s3)
    requires OriginalAliasesOf(s3, A) == Ok({A, B}) && OriginalAliasesOf(s3, B) == Ok({})
    requires OriginalAliasesOf(s3, C) == Ok({C})
    requires Alias(s3, C, B) == Ok(u)
    ensures Valid(u)
    ensures OriginalAliasesOf(u, A) == Ok({A}) && OriginalAliasesOf(u, B) == Ok({})
    ensures OriginalAliasesOf(u, C) == Ok({B, C})
  {
    NamesDiffer();
    OriginalAfterAlias(s3, C, B, u, A, {A, B});
    assert {A, B} - {B} == {A};
    var none: set<string> := {};
    OriginalAfterAlias(s3, C, B, u, B, none);
    assert none - {B} == none;
    OriginalAfterAlias(s3, C, B, u, C, {C});
    assert {C} + {B} == {B, C};
  }

  /**
   * Continuing with registerCommand(C), registerAlias(C, B): B moves again and
   * takes nothing with it, so A is alone once more.
   */
  lemma ReAliasing(t: Registry, s3: Registry, u: Registry)
    requires Valid(t)
    requires AliasesOf(t, A) == Ok({A, B}) && AliasesOf(t, B) == Ok({A, B})
    requires OriginalAliasesOf(t, A) == Ok({A, B}) && OriginalAliasesOf(t, B) == Ok({})
    requires Register(t, C) == Ok(s3) && Alias(s3, C, B) == Ok(u)
    ensures Valid(u)
    ensures AliasesOf(u, A) == Ok({A}) && AliasesOf(u, B) == Ok({B, C}) && AliasesOf(u, C) == Ok({B, C})
    ensures OriginalAliasesOf(u, A) == Ok({A}) && OriginalAliasesOf(u, B) == Ok({})
    ensures OriginalAliasesOf(u, C) == Ok({B, C})
  {
    RegisterThird(t, s3);
    ReAliasClasses(s3, u);
    ReAliasOriginals(s3, u);
  }

  const Epsilon: string := "\\epsilon"
  const VarEpsilon: string := "\\varepsilon"
  const GoodEpsilon: string := "\\goodepsilon"

  lemma EpsilonsDiffer()
    ensures Epsilon != VarEpsilon && Epsilon != GoodEpsilon && VarEpsilon != GoodEpsilon
  {
    assert |Epsilon| == 8 && |VarEpsilon| == 11 && |GoodEpsilon| == 12;
  }

  /** \epsilon, \varepsilon and \goodepsilon registered, in that order, each in a class of its own. */
  lemma EpsilonsRegistered(r1: Registry, r2: Registry, r3: Registry)
    requires Register(Empty(), Epsilon) == Ok(r1)
    requires Register(r1, VarEpsilon) == Ok(r2)
    requires Register(r2, GoodEpsilon) == Ok(r3)
    ensures Valid(r3)
    ensures AliasesOf(r3, Epsilon) == Ok({Epsilon}) && OriginalAliasesOf(r3, Epsilon) == Ok({Epsilon})
    ensures AliasesOf(r3, VarEpsilon) == Ok({VarEpsilon}) && OriginalAliasesOf(r3, VarEpsilon) == Ok({VarEpsilon})
    ensures AliasesOf(r3, GoodEpsilon) == Ok({GoodEpsilon}) && OriginalAliasesOf(r3, GoodEpsilon) == Ok({GoodEpsilon})
  {
    EpsilonsDiffer();
    RegisterNew(Empty(), Epsilon, r1);
    RegisterNew(r1, VarEpsilon, r2);
    RegisterNew(r2, GoodEpsilon, r3);
  }

  /**
   * The first \let line of the documented example, \let\goodepsilon\varepsilon,
   * as registerAlias(\varepsilon, \goodepsilon) (\let\new\old makes \new an
   * alias of \old).
   */
  lemma EpsilonFirstLet(r3: Registry, s1: Registry)
    requires Valid(r3)
    requires AliasesOf(r3, Epsilon) == Ok({Epsilon}) && OriginalAliasesOf(r3, Epsilon) == Ok({Epsilon})
    requires AliasesOf(r3, VarEpsilon) == Ok({VarEpsilon}) && OriginalAliasesOf(r3, VarEpsilon) == Ok({VarEpsilon})
    requires OriginalAliasesOf(r3, GoodEpsilon) == Ok({GoodEpsilon})
    requires Alias(r3, VarEpsilon, GoodEpsilon) == Ok(s1)
    ensures Valid(s1)
    ensures AliasesOf(s1, Epsilon) == Ok({Epsilon})
    ensures OriginalAliasesOf(s1, Epsilon) == Ok({Epsilon})
    ensures OriginalAliasesOf(s1, VarEpsilon) == Ok({VarEpsilon, GoodEpsilon})
    ensures OriginalAliasesOf(s1, GoodEpsilon) == Ok({})
  {
    EpsilonsDiffer();
    ClassAfterAlias(r3, VarEpsilon, GoodEpsilon, s1, Epsilon, {Epsilon});
    assert {Epsilon} - {GoodEpsilon} == {Epsilon};
    OriginalAfterAlias(r3, VarEpsilon, GoodEpsilon, s1, Epsilon, {Epsilon});
    OriginalAfterAlias(r3, VarEpsilon, GoodEpsilon, s1, VarEpsilon, {VarEpsilon});
    assert {VarEpsilon} + {GoodEpsilon} == {VarEpsilon, GoodEpsilon};
    OriginalAfterAlias(r3, VarEpsilon, GoodEpsilon, s1, GoodEpsilon, {GoodEpsilon});
    assert {GoodEpsilon} - {GoodEpsilon} == {};
  }

  /**
   * The second line, \let\varepsilon\epsilon, as registerAlias(\epsilon,
   * \varepsilon): \varepsilon leaves the class it was created with, which
   * keeps \goodepsilon.
   */
  lemma EpsilonSecondLet(s1: Registry, s2: Registry)
    requires Valid(s1)
    requires AliasesOf(s1, Epsilon) == Ok({Epsilon})
    requires OriginalAliasesOf(s1, Epsilon) == Ok({Epsilon})
    requires OriginalAliasesOf(s1, VarEpsilon) == Ok({VarEpsilon, GoodEpsilon})
    requires OriginalAliasesOf(s1, GoodEpsilon) == Ok({})
    requires Alias(s1, Epsilon, VarEpsilon) == Ok(s2)
    ensures Valid(s2)
    ensures AliasesOf(s2, Epsilon) == Ok({Epsilon, VarEpsilon})
    ensures OriginalAliasesOf(s2, Epsilon) == Ok({Epsilon, VarEpsilon})
    ensures OriginalAliasesOf(s2, VarEpsilon) == Ok({GoodEpsilon})
    ensures OriginalAliasesOf(s2, GoodEpsilon) == Ok({})
  {
    EpsilonsDiffer();
    ClassAfterAlias(s1, Epsilon, VarEpsilon, s2, Epsilon, {Epsilon});
    assert {Epsilon} + {VarEpsilon} == {Epsilon, VarEpsilon};
    OriginalAfterAlias(s1, Epsilon, VarEpsilon, s2, Epsilon, {Epsilon});
    OriginalAfterAlias(s1, Epsilon, VarEpsilon, s2, VarEpsilon, {VarEpsilon, GoodEpsilon});
    assert {VarEpsilon, GoodEpsilon} - {VarEpsilon} == {GoodEpsilon};
    var none: set<string> := {};
    OriginalAfterAlias(s1, Epsilon, VarEpsilon, s2, GoodEpsilon, none);
    assert none - {VarEpsilon} == none;
  }

  /**
   * The third line, \let\epsilon\goodepsilon, as registerAlias(\goodepsilon,
   * \epsilon). At the end the class created for \varepsilon holds \goodepsilon
   * and \epsilon (both now mean what \varepsilon first meant), the one created
   * for \epsilon holds \varepsilon, and the one created for \goodepsilon holds
   * nothing; all three names are still originals.
   */
  lemma EpsilonLastLet(s2: Registry, s3: Registry)
    requires Valid(s2)
    requires OriginalAliasesOf(s2, Epsilon) == Ok({Epsilon, VarEpsilon})
    requires OriginalAliasesOf(s2, VarEpsilon) == Ok({GoodEpsilon})
    requires OriginalAliasesOf(s2, GoodEpsilon) == Ok({})
    requires Alias(s2, GoodEpsilon, Epsilon) == Ok(s3)
    ensures Valid(s3)
    ensures OriginalAliasesOf(s3, VarEpsilon) == Ok({GoodEpsilon, Epsilon})
    ensures OriginalAliasesOf(s3, Epsilon) == Ok({VarEpsilon})
    ensures OriginalAliasesOf(s3, GoodEpsilon) == Ok({})
    ensures IsOriginal(s3, Epsilon) && IsOriginal(s3, VarEpsilon) && IsOriginal(s3, GoodEpsilon)
  {
    EpsilonsDiffer();
    OriginalAfterAlias(s2, GoodEpsilon, Epsilon, s3, VarEpsilon, {GoodEpsilon});
    assert {GoodEpsilon} + {Epsilon} == {GoodEpsilon, Epsilon};
    OriginalAfterAlias(s2, GoodEpsilon, Epsilon, s3, Epsilon, {Epsilon, VarEpsilon});
    assert {Epsilon, VarEpsilon} - {Epsilon} == {VarEpsilon};
    var none: set<string> := {};
    OriginalAfterAlias(s2, GoodEpsilon, Epsilon, s3, GoodEpsilon, none);
    assert none - {Epsilon} == none;
  }

  /** The whole documented example, from an empty manager. */
  lemma EpsilonLets(r1: Registry, r2: Registry, r3: Registry, s1: Registry, s2: Registry, s3: Registry)
    requires Register(Empty(), Epsilon) == Ok(r1)
    requires Register(r1, VarEpsilon) == Ok(r2)
    requires Register(r2, GoodEpsilon) == Ok(r3)
    requires Alias(r3, VarEpsilon, GoodEpsilon) == Ok(s1)
    requires Alias(s1, Epsilon, VarEpsilon) == Ok(s2)
    requires Alias(s2, GoodEpsilon, Epsilon) == Ok(s3)
    ensures Valid(s3)
    ensures OriginalAliasesOf(s3, VarEpsilon) == Ok({GoodEpsilon, Epsilon})
    ensures OriginalAliasesOf(s3, Epsilon) == Ok({VarEpsilon})
    ensures OriginalAliasesOf(s3, GoodEpsilon) == Ok({})
    ensures IsOriginal(s3, Epsilon) && IsOriginal(s3, VarEpsilon) && IsOriginal(s3, GoodEpsilon)
  {
    EpsilonsRegistered(r1, r2, r3);
    EpsilonFirstLet(r3, s1);
    EpsilonSecondLet(s1, s2);
    EpsilonLastLet(s2, s3);
  }

  /** Aliasing to a name nobody registered fails. */
  lemma UnknownTargetRejected()
    ensures Alias(Empty(), "\\undefined", "\\x") == Err(NotRegistered("\\undefined"))
  {
  }

  /** Registering a name a second time fails. */
  lemma DuplicateRejected()
    ensures Register(Empty(), Epsilon).Ok?
    ensures Register(Register(Empty(), Epsilon).value, Epsilon) == Err(AlreadyRegistered(Epsilon))
  {
  }
}
