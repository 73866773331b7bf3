# TeXiFy command aliases and path options, in Dafny

This project models two small pieces of the TeXiFy IntelliJ plugin and proves
properties about them.

**The LaTeX command manager** (`CommandManager`). It keeps every known macro
name, stored with its leading backslash, in alias classes.

- A name registered with `registerCommand` is an *original* command. It gets a
  class of its own.
- `registerAlias(command, alias)` moves `alias` into the class of `command`,
  taking it out of whatever class it was in before.
- Next to the alias map, the manager keeps a map from every original command
  to the class object created for it.

In the source, all names of a class share one mutable `HashSet` instance. The
`original` map holds the same instances. So `getAliasesFromOriginal(o)`
reports the *current* contents of the class that `o` started in, not a
snapshot:

- the class grows when names become aliases of one of its members;
- it shrinks when members, `o` itself included, are moved elsewhere.

The model keeps this identity by using handles. An arena
`classes: seq<set<string>>` holds one slot per class ever created, and both
maps store indices into it.

**The run-configuration path option converter**
(`LatexRunConfigurationAbstractPathOption`). An option holds two nullable
paths: the path as typed, possibly with IDE macros, and the resolved path.

- `Converter.toString` stores them in one string. It replaces `//` by `/` in
  the resolved path, then joins the two with `//`.
- `Converter.fromString` splits at the first `//`.

Storing and reading back is the identity exactly for the *storable* options:
both paths are present, and the resolved path neither contains `//` nor ends
in `/`.

Layout:

- `alias_registry.dfy`, module `AliasRegistry`.
  - The manager's state as a value.
  - Its partition invariant `Valid`.
  - The queries.
  - `registerCommand` and `registerAlias` as functions `Register` and `Alias`
    from the old state to a `Result`.
- `registry_properties.dfy`, module `RegistryProperties`.
  - What registering and aliasing do to the classes and to the originals.
  - The scenarios from the source's documentation.
- `command_manager.dfy`, module `Manager`.
  - The class `CommandManager`, with the three fields updated in place.
  - Every method is proved against the functions above.
- `path_options.dfy`, module `PathOptions`.
  - The option record, the converter, `isDefault`, and the round-trip
    theorem.

A failed Kotlin `require` throws `IllegalArgumentException` and happens before
anything changes. Here a failed mutator returns `Failed(error)` with the state
unchanged, and a failed query returns `Err(error)`.

The source's own comment on the `original` map (CommandManager.kt:78-91)
sketches a result for three `\let` lines that the code does not produce. The
model follows the code. Read `\let\new\old` as `registerAlias(\old, \new)`
after registering all three names. Then:

- the class created for `\varepsilon` ends up as `{\goodepsilon, \epsilon}`;
- the one for `\epsilon` as `{\varepsilon}`;
- the one for `\goodepsilon` empty.

Each call moves one name only, so classes are never merged. `EpsilonLets`
proves this.

## Model

| member | source | states |
|---|---|---|
| AliasRegistry.Empty | src/nl/hannahsten/texifyidea/lang/CommandManager.kt:436-441 | a new (or cleared) manager satisfies the partition invariant, knows no name, and has both sizes 0 |
| AliasRegistry.IsRegistered | src/nl/hannahsten/texifyidea/lang/CommandManager.kt:276-278 | under the invariant, a name is registered exactly when it has an entry and the class that entry names holds it |
| AliasRegistry.RegisteredIffInClass | src/nl/hannahsten/texifyidea/lang/CommandManager.kt:276-278 | a name is registered exactly when some alias class holds it |
| AliasRegistry.IsOriginal | src/nl/hannahsten/texifyidea/lang/CommandManager.kt:306-308 | under the invariant, every original command is also registered |
| AliasRegistry.AliasesOf | src/nl/hannahsten/texifyidea/lang/CommandManager.kt:195-198 | getAliases succeeds exactly for registered names, otherwise fails with NotRegistered; the class returned contains the name itself |
| AliasRegistry.AliasesAreNamesAt | src/nl/hannahsten/texifyidea/lang/CommandManager.kt:35-39 | the class of a name is exactly the set of keys that map to the same class |
| AliasRegistry.OriginalAliasesOf | src/nl/hannahsten/texifyidea/lang/CommandManager.kt:233-236 | getAliasesFromOriginal succeeds exactly for original commands, otherwise fails with NotOriginal |
| AliasRegistry.OriginalAliasesAreNamesAt | src/nl/hannahsten/texifyidea/lang/CommandManager.kt:109-112 | the class reached through `original` holds exactly the keys currently mapped to it, even when the original itself has moved away |
| AliasRegistry.AllCommands | src/nl/hannahsten/texifyidea/lang/CommandManager.kt:264-265 | allCommands holds exactly the registered names, and every original is among them |
| AliasRegistry.Size | src/nl/hannahsten/texifyidea/lang/CommandManager.kt:338-340 | size is the number of registered names |
| AliasRegistry.OriginalSize | src/nl/hannahsten/texifyidea/lang/CommandManager.kt:349-351 | originalSize equals the number of classes ever created and never exceeds size |
| AliasRegistry.Register | src/nl/hannahsten/texifyidea/lang/CommandManager.kt:107-113 | registerCommand succeeds exactly on an unregistered name and fails otherwise with AlreadyRegistered; afterwards the name is registered and original, and exactly one class has been created |
| AliasRegistry.Alias | src/nl/hannahsten/texifyidea/lang/CommandManager.kt:149-161 | registerAlias succeeds exactly when the target command is registered and fails otherwise with NotRegistered(command); it never touches the original map and creates no class |
| AliasRegistry.RegisterKeepsValid | src/nl/hannahsten/texifyidea/lang/CommandManager.kt:107-113 | registerCommand preserves the partition invariant |
| AliasRegistry.AliasKeepsValid | src/nl/hannahsten/texifyidea/lang/CommandManager.kt:149-161 | registerAlias preserves the partition invariant |
| RegistryProperties.Partition | src/nl/hannahsten/texifyidea/lang/CommandManager.kt:35-39 | for registered x and y: x is in getAliases(y) iff both map to the same class iff their classes are equal; any two classes are equal or disjoint |
| RegistryProperties.RegisterCommandSpec | src/nl/hannahsten/texifyidea/lang/CommandManager.kt:107-113 | registerCommand fails exactly on a registered name, with AlreadyRegistered; on success the name's class and its original class are both {command} |
| RegistryProperties.RegisterCounts | src/nl/hannahsten/texifyidea/lang/CommandManager.kt:107-113 | a registration adds the name to allCommands and grows size and originalSize by one each |
| RegistryProperties.RegisterLeavesOthers | src/nl/hannahsten/texifyidea/lang/CommandManager.kt:109-112 | registering a name leaves getAliases and getAliasesFromOriginal of every other name unchanged |
| RegistryProperties.AliasNeedsTarget | src/nl/hannahsten/texifyidea/lang/CommandManager.kt:150 | registerAlias fails exactly when the target command is not registered, with NotRegistered(command) |
| RegistryProperties.AliasJoinsTarget | src/nl/hannahsten/texifyidea/lang/CommandManager.kt:151-160 | after registerAlias(c, a) both are registered, getAliases(a) == getAliases(c), and c's class is its old class plus a |
| RegistryProperties.AliasDetaches | src/nl/hannahsten/texifyidea/lang/CommandManager.kt:153-160 | every other registered name's class gains a if it is c's class and otherwise loses a; so a leaves its former class |
| RegistryProperties.FormerClassmatesStayTogether | src/nl/hannahsten/texifyidea/lang/CommandManager.kt:154-157 | the other members of a's former class still share one class, which is the former class without a |
| RegistryProperties.AliasUpdatesOriginals | src/nl/hannahsten/texifyidea/lang/CommandManager.kt:155-160 | registerAlias leaves the original map (and so isOriginal and originalSize) untouched, and each original's class is live: it gains a if it is c's class, else loses a |
| RegistryProperties.AliasKeepsNames | src/nl/hannahsten/texifyidea/lang/CommandManager.kt:154-160 | no name is ever unregistered: allCommands gains exactly a, and size grows by one iff a was new |
| RegistryProperties.AliasWithinClassIsNoOp | src/nl/hannahsten/texifyidea/lang/CommandManager.kt:153-160 | aliasing a name already in the target's class changes nothing at all |
| RegistryProperties.SelfAliasIsNoOp | src/nl/hannahsten/texifyidea/lang/CommandManager.kt:153-160 | registerAlias(c, c) changes nothing |
| RegistryProperties.AliasTransfer | src/nl/hannahsten/texifyidea/lang/CommandManager.kt:149-161 | after registerCommand(A), registerCommand(B), registerAlias(A, B): getAliases of either is {A, B}, the original class of A is {A, B} and that of B is empty |
| RegistryProperties.ReAliasing | src/nl/hannahsten/texifyidea/lang/CommandManager.kt:149-161 | continuing with registerCommand(C), registerAlias(C, B): A is alone again, B and C share {B, C}; the original classes are A: {A}, B: {}, C: {B, C} |
| RegistryProperties.EpsilonLets | src/nl/hannahsten/texifyidea/lang/CommandManager.kt:78-81 | the documented three \let lines end with the originals \varepsilon: {\goodepsilon, \epsilon}, \epsilon: {\varepsilon}, \goodepsilon: {}, all three still original |
| RegistryProperties.UnknownTargetRejected | src/nl/hannahsten/texifyidea/lang/CommandManager.kt:150 | aliasing to a name no one registered is rejected with NotRegistered |
| RegistryProperties.DuplicateRejected | src/nl/hannahsten/texifyidea/lang/CommandManager.kt:108 | registering the same name twice is rejected with AlreadyRegistered the second time |
| Manager.Escaped | src/nl/hannahsten/texifyidea/lang/CommandManager.kt:128-130 | the NoSlash variants prefix exactly one backslash |
| Manager.CommandManager.constructor | src/nl/hannahsten/texifyidea/lang/CommandManager.kt:438-441 | a new manager is the empty state |
| Manager.CommandManager.RegisterCommand | src/nl/hannahsten/texifyidea/lang/CommandManager.kt:107-113 | the in-place update produces exactly the state of Register, or reports its error and leaves the fields unchanged; the invariant is kept |
| Manager.CommandManager.RegisterCommandNoSlash | src/nl/hannahsten/texifyidea/lang/CommandManager.kt:128-130 | same as RegisterCommand on the name with a backslash prefixed |
| Manager.CommandManager.RegisterAlias | src/nl/hannahsten/texifyidea/lang/CommandManager.kt:149-161 | the remove-then-add updates on the shared classes produce exactly the state of Alias, or report NotRegistered and change nothing; the invariant is kept |
| Manager.CommandManager.AliasMatches | src/nl/hannahsten/texifyidea/lang/CommandManager.kt:154-159 | removing the alias from its old class and adding it to the target's yields the class arena of the specification |
| Manager.CommandManager.RegisterAliasNoSlash | src/nl/hannahsten/texifyidea/lang/CommandManager.kt:180-182 | same as RegisterAlias on both names with a backslash prefixed |
| Manager.CommandManager.Clear | src/nl/hannahsten/texifyidea/lang/CommandManager.kt:330-333 | afterwards the manager is the empty state, so clearing twice is the same as once |
| Manager.CommandManager.GetAliases | src/nl/hannahsten/texifyidea/lang/CommandManager.kt:195-198 | the result is the class of the name when it is registered, NotRegistered otherwise |
| Manager.CommandManager.GetAliasesNoSlash | src/nl/hannahsten/texifyidea/lang/CommandManager.kt:212-214 | same as getAliases on the name with a backslash prefixed |
| Manager.CommandManager.GetAliasesFromOriginal | src/nl/hannahsten/texifyidea/lang/CommandManager.kt:233-236 | the result is the live class created for an original command, NotOriginal otherwise |
| Manager.CommandManager.GetAliasesFromOriginalNoSlash | src/nl/hannahsten/texifyidea/lang/CommandManager.kt:255-257 | same as getAliasesFromOriginal on the name with a backslash prefixed |
| Manager.CommandManager.AllCommands | src/nl/hannahsten/texifyidea/lang/CommandManager.kt:264-265 | the key set of the alias map |
| Manager.CommandManager.IsRegistered | src/nl/hannahsten/texifyidea/lang/CommandManager.kt:276-278 | true exactly for keys of the alias map |
| Manager.CommandManager.IsRegisteredNoSlash | src/nl/hannahsten/texifyidea/lang/CommandManager.kt:289-291 | same as isRegistered on the name with a backslash prefixed |
| Manager.CommandManager.IsOriginal | src/nl/hannahsten/texifyidea/lang/CommandManager.kt:306-308 | true exactly for keys of the original map |
| Manager.CommandManager.IsOriginalNoSlash | src/nl/hannahsten/texifyidea/lang/CommandManager.kt:323-325 | same as isOriginal on the name with a backslash prefixed |
| Manager.CommandManager.Size | src/nl/hannahsten/texifyidea/lang/CommandManager.kt:338-340 | the number of registered names |
| Manager.CommandManager.OriginalSize | src/nl/hannahsten/texifyidea/lang/CommandManager.kt:349-351 | the number of original commands, never more than size |
| Manager.EpsilonExample | src/nl/hannahsten/texifyidea/lang/CommandManager.kt:78-81 | running the documented \let lines on a new manager object makes getAliasesFromOriginal(\varepsilon) return {\goodepsilon, \epsilon} |
| PathOptions.Default | src/nl/hannahsten/texifyidea/run/options/LatexRunConfigurationAbstractPathOption.kt:12 | the option made with both constructor arguments left at null is stored as "null//null" |
| PathOptions.IsDefault | src/nl/hannahsten/texifyidea/run/options/LatexRunConfigurationAbstractPathOption.kt:39 | true iff both paths are null, the constructor's defaults (line 12) |
| PathOptions.FirstSep | src/nl/hannahsten/texifyidea/run/options/LatexRunConfigurationAbstractPathOption.kt:48 | finds the first occurrence of "//", and none exactly when the string has none |
| PathOptions.ReplaceSep | src/nl/hannahsten/texifyidea/run/options/LatexRunConfigurationAbstractPathOption.kt:44 | replace("//", "/") never lengthens the string, shortens it iff it has "//", and is the identity otherwise |
| PathOptions.ReplaceSepIsCollapse | src/nl/hannahsten/texifyidea/run/options/LatexRunConfigurationAbstractPathOption.kt:44 | the indexOf-driven replacement equals a left-to-right character scan |
| PathOptions.TripleSlash | src/nl/hannahsten/texifyidea/run/options/LatexRunConfigurationAbstractPathOption.kt:44 | occurrences do not overlap: "///" becomes "//", and "a//b//c" becomes "a/b/c" |
| PathOptions.Render | src/nl/hannahsten/texifyidea/run/options/LatexRunConfigurationAbstractPathOption.kt:44 | the string template writes a present path verbatim and an absent one as "null", so "null" is written exactly for an absent path or the path "null" |
| PathOptions.CollapsedResolved | src/nl/hannahsten/texifyidea/run/options/LatexRunConfigurationAbstractPathOption.kt:44 | `resolvedPath?.replace("//", "/")` is absent exactly when the resolved path is, and otherwise equals the character scan Collapse of it |
| PathOptions.ToString | src/nl/hannahsten/texifyidea/run/options/LatexRunConfigurationAbstractPathOption.kt:42-45 | the stored form is the resolved path with every "//" collapsed, stated against the independent character scan Collapse ("null" when absent), then "//", then the macro path verbatim ("null" when absent); so it always holds "//" |
| PathOptions.FromString | src/nl/hannahsten/texifyidea/run/options/LatexRunConfigurationAbstractPathOption.kt:47-50 | the resolved path is always present and holds no "//"; the macro path is absent iff the input has no "//"; the input is the two parts joined by "//", and when a macro path is present the split is at the first "//" of the input |
| PathOptions.DecodeWithoutSeparator | src/nl/hannahsten/texifyidea/run/options/LatexRunConfigurationAbstractPathOption.kt:48-49 | a string without "//" decodes to resolvedPath = s and no macro path |
| PathOptions.EncodedHasMacroPath | src/nl/hannahsten/texifyidea/run/options/LatexRunConfigurationAbstractPathOption.kt:44-49 | decoding an encoded option always yields a macro path |
| PathOptions.DecodedNeverDefault | src/nl/hannahsten/texifyidea/run/options/LatexRunConfigurationAbstractPathOption.kt:39-49 | no decoded option is the default one; the default is stored as "null//null" and read back as two "null" strings |
| PathOptions.SplitAtFirstOnly | src/nl/hannahsten/texifyidea/run/options/LatexRunConfigurationAbstractPathOption.kt:48-49 | "a//b//c" decodes to resolved path "a" and macro path "b//c" |
| PathOptions.RoundTripIff | src/nl/hannahsten/texifyidea/run/options/LatexRunConfigurationAbstractPathOption.kt:43-50 | fromString(toString(v)) == v exactly when both paths are present and the resolved path has no "//" and does not end in "/" |
| PathOptions.StorableRoundTrip | src/nl/hannahsten/texifyidea/run/options/LatexRunConfigurationAbstractPathOption.kt:43-50 | storable options survive a store and read |
| PathOptions.UnstorableBreaks | src/nl/hannahsten/texifyidea/run/options/LatexRunConfigurationAbstractPathOption.kt:43-50 | every other option comes back different |

## Left out

- The streams, iterators and spliterators of `CommandManager` (CommandManager.kt:356-423) are Java enumeration plumbing, some of it parallel. Enumeration is modelled only as the key sets that `AllCommands` returns.
- `CommandManager.toString`, `Serializable` and `serialVersionUID` (CommandManager.kt:425-433) are host formatting and Java serialization.
- `Manager.CommandManager.AllCommands` returns the set of names as a value. The source returns a live, unmodifiable view of the key set.
- `Manager.CommandManager.Size` and `Manager.CommandManager.OriginalSize` return unbounded naturals. The source returns a 32-bit `Int`, which would only wrap beyond 2^31 - 1 names.
- `Manager.CommandManager.Clear` also empties the arena of classes. The source only clears the two maps: the old sets become unreachable, which no query can observe.
- The shared `HashSet` objects are modelled as slots of an arena, not as heap objects. Identity is the slot index, and no query can tell the difference.
- Turning `\let` lines into `registerAlias` calls is done by the manager's callers and is not part of this model. The scenarios state the calls directly.
- `resolveAndGetPath` and `resolve` (LatexRunConfigurationAbstractPathOption.kt:20-37) call IDE services (`DataManager`, `MacroManager`, `LocalFileSystem`) and do file-system I/O.
- The `LatexRunConfigurationPathOption` subclass that `fromString` builds is not part of this model. It is treated as a plain record of the two paths.
