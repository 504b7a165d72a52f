# cargo_src_query module resolver, in Dafny

This project models the core of `cargo_src_query`. That crate locates a module of a Rust
crate by walking its source tree from `src/lib.rs`, following a module path such as
`foo::baz::boop`. At each step a module can be implemented in one of three ways:

- inline, as `mod name { ... }`;
- in a sibling file `<dir>/name.rs`;
- in a directory index `<dir>/name/mod.rs`.

The model covers:

- `ModulePath`, the cursor over the path's identifiers (`module_path.dfy`, module `ModulePaths`);
- `CargoQueryError`, its constructors and `add_messages` (`errors.dfy`, module `Errors`);
- the resolver itself: `find_mod_in_crate`, `find_mod_in_crate_core`, `recurse_module_hierarchy`,
  `recurse_mod_rs`, `recurse_file`, `recurse_inline_mods` and their lookup helpers
  (`find_mod.dfy`, module `FindMod`);
- the definition lookup of `find_dependencies.rs` (`find_dependencies.dfy`, module `FindDependencies`).

The parsed syntax tree is reduced to what the resolver looks at (`syntax.dfy`). The file
system is a map from paths to parse results (`external.dfy`). A path is a sequence of
components, so `Path::join` is appending one component.

The resolver's properties are proved in `find_mod_properties.dfy` (module
`FindModProperties`), against two independent references:

- `WalkInline`, a plain walk of inline bodies along a list of identifiers;
- an explicit state machine (`resolver_machine.dfy`, module `ResolverMachine`) whose phases
  are the three layout forms. It is proved to compute exactly what the recursive functions
  compute.

`find_mod_scenarios.dfy` (module `FindModScenarios`) restates every crate layout from the
tests in `find_mod.rs`, for arbitrary module contents.

Quirks of the code that the model keeps:

- A first module that `lib.rs` does not declare fails with the generic error
  "An error has occurred.", while an undeclared module inside an inline body or a
  sibling file fails with "Could not find module `x` in scope".
- A sibling file `<dir>/x.rs` is walked like an inline body. So a child declared `mod y;`
  inside it fails with "Could not find module `y` in source file.", even when
  `<dir>/x/y.rs` exists. The Rust Reference would resolve such a child.
- Rendering a `ModulePath` whose cursor is past the first identifier starts with `::`,
  because the loop tests the absolute index against 0.
- Any failure to load the sibling file, a parse error included, moves on to `mod.rs`,
  and that load error is dropped.

## Model

| member | source | states |
|---|---|---|
| External.Join | cargo_src_query/src/impl/find_mod.rs:223-225 | joining a directory and one component gives a path one longer that keeps the directory as its prefix and ends in the component |
| External.PathToString | cargo_src_query/src/impl/find_mod.rs:117 | the root directory renders as "/", the empty path as the empty string, and a single relative component as itself |
| External.JoinRenders | cargo_src_query/src/impl/find_mod.rs:242-243 | rendering a joined path appends "/" and the component to the directory's rendering; directly below the root it is "/" and the component |
| External.Load | cargo_src_query/src/impl/external.rs:19-25 | a path in the file map loads as recorded there; any other path fails with the not-found error |
| ModulePaths.Idents | cargo_src_query/src/helpers/module_path.rs:20 | the identifiers are those of the segments, one per segment, in order |
| ModulePaths.FromSynPath | cargo_src_query/src/helpers/module_path.rs:17-24 | converting a `syn::Path` keeps one identifier per segment, in order, and starts the cursor at the first |
| ModulePaths.New | cargo_src_query/src/helpers/module_path.rs:61-66 | a new path keeps the identifiers given and starts on the first of them, or has no current module when there are none |
| ModulePaths.Default | cargo_src_query/src/helpers/module_path.rs:11-15 | the derived default is the empty path at position 0: it has no current module and renders as the empty string |
| ModulePaths.GetCurrentModule | cargo_src_query/src/helpers/module_path.rs:162-164 | there is a current module exactly when the cursor is inside the path, and it is the identifier under the cursor |
| ModulePaths.Next | cargo_src_query/src/helpers/module_path.rs:191-197 | `next` moves the cursor one place and keeps the identifiers; it returns the new current module, so the first identifier is never returned by `next` |
| ModulePaths.CloneAndOverwrite | cargo_src_query/src/helpers/module_path.rs:99-103 | the copy has the same length and cursor, holds the new value under the cursor, and agrees with the original everywhere else |
| ModulePaths.CloneAndInsert | cargo_src_query/src/helpers/module_path.rs:135-139 | the copy is one longer with the same cursor, holds the new value under the cursor, keeps the identifiers before it, and shifts the rest one place right |
| ModulePaths.AdvanceByCounts | cargo_src_query/src/helpers/module_path.rs:183-184 | n calls of `next` move the cursor exactly n places and leave the identifiers alone |
| ModulePaths.NewWalksInOrder | cargo_src_query/src/helpers/module_path.rs:53-59 | after n calls of `next` on a new path the position is n and the current module is the n-th identifier, or none past the end; the last `next` returns none |
| ModulePaths.ExhaustedStaysExhausted | cargo_src_query/src/helpers/module_path.rs:191-197 | once the cursor has left the path, further calls of `next` never find a module again, and the position keeps counting |
| ModulePaths.OverwriteDiffersOnlyAtCurrent | cargo_src_query/src/helpers/module_path.rs:209-232 | the overwritten copy starts at the new value and then walks the same identifiers at the same positions as the original |
| ModulePaths.InsertShiftsRight | cargo_src_query/src/helpers/module_path.rs:235-258 | the copy with an inserted value starts at that value and then walks, one step behind, exactly what the original walks |
| ModulePaths.DisplayFromIsSeparatedTail | cargo_src_query/src/helpers/module_path.rs:26-38 | rendering from a non-zero index puts `::` before every remaining identifier |
| ModulePaths.GetPosition | cargo_src_query/src/helpers/module_path.rs:186-188 | there is a current module exactly when the position is below the length, and then it is the identifier at that position |
| ModulePaths.Display | cargo_src_query/src/helpers/module_path.rs:26-38 | a path at position 0 renders as its identifiers joined by `::`; a cursor inside the path renders the rest with a leading `::`; an exhausted cursor renders as the empty string |
| ModulePaths.DisplayRendersRemainder | cargo_src_query/src/helpers/module_path.rs:26-38 | the rendering loop, started at any index, gives the three cases of `Display`: from 0 the identifiers joined by `::`; a cursor inside the path renders the rest with a leading `::`; an exhausted cursor renders as the empty string |
| ModulePaths.FromSynPathStartsAtFirst | cargo_src_query/src/helpers/module_path.rs:17-24 | a converted path starts at position 0, on the first segment, and renders as the whole path |
| Errors.AddMessages | cargo_src_query/src/errors.rs:145-151 | adding notes keeps the top-level message; under every key the old notes come first, then the added values in order |
| Errors.AddMessagesKeys | cargo_src_query/src/errors.rs:145-148 | the keys after adding notes are the old keys plus exactly the keys of the added entries |
| Errors.GenericError | cargo_src_query/src/errors.rs:163-170 | the generic error says "An error has occurred." and carries no notes |
| Errors.CouldNotProcessLibRs | cargo_src_query/src/errors.rs:172-182 | the message is "Could not process `lib.rs` in src_path.", the file-error wording around the name `lib.rs`; exactly two keys, "file error" and "file error backtrace"; the first holds the load error's text, the second its backtrace text |
| Errors.CouldNotProcessFile | cargo_src_query/src/errors.rs:184-195 | the message is "Could not process `", the rendered path, then "` in src_path."; the same two keys and notes as for `lib.rs` |
| Errors.CouldNotFindDefinedModule | cargo_src_query/src/errors.rs:197-204 | the message quotes the module's name in backticks and says it is missing "in scope"; no notes |
| Errors.CouldNotFindModuleInScope | cargo_src_query/src/errors.rs:205-212 | this constructor produces the same error as the by-reference one |
| Errors.CouldNotFindModuleFromPath | cargo_src_query/src/errors.rs:215-227 | the unmapped-path message, with one note under "current_directory" that names the directory |
| Errors.CouldNotFindModule | cargo_src_query/src/errors.rs:229-238 | the message is the unmapped-path text ("Module path does not map to any known module. ..."), and there are no notes |
| Errors.CouldNotFindModuleInFile | cargo_src_query/src/errors.rs:240-247 | the message quotes the module's name in backticks and says it is missing "in source file."; no notes |
| Errors.IntoProcErr | cargo_src_query/src/errors.rs:108-124 | a success passes through unchanged; a failure becomes an error whose top-level message is the failure's text and which carries no notes |
| Errors.KeysOfIndexes | cargo_src_query/src/errors.rs:145-148 | a key is among the added entries' keys exactly when some entry carries it |
| Errors.KeyWithoutEntry | cargo_src_query/src/errors.rs:145-148 | a key that no added entry uses gains no notes |
| Errors.ValuesUnderDistinct | cargo_src_query/src/errors.rs:145-148 | when the added keys are distinct, as in a map, each key gains exactly its one value |
| Errors.AddMessagesFromMap | cargo_src_query/src/errors.rs:145-151 | adding a map appends each entry's value to its own key and changes no other key |
| Errors.AddMessagesCompose | cargo_src_query/src/errors.rs:145-151 | adding two batches of notes one after the other equals adding their concatenation |
| Errors.WrappedTextIsInjective | cargo_src_query/src/errors.rs:199 | two messages built from the same template are equal only if the inserted texts are |
| Errors.NotFoundErrorsNameTheModule | cargo_src_query/src/errors.rs:197-247 | two module-not-found errors of the same kind are equal exactly when they name the same module; the in-scope constructors agree |
| Errors.InFileDiffersFromInScope | cargo_src_query/src/errors.rs:197-247 | an "in source file" error never equals an "in scope" error |
| Errors.FileErrorNamesThePath | cargo_src_query/src/errors.rs:184-195 | two file errors with the same cause are equal exactly when the paths render the same |
| FindMod.CurrentModule | cargo_src_query/src/impl/find_mod.rs:96-98 | the identifier under the cursor when there is one, otherwise the generic error |
| FindMod.GetModulesFromItemScope | cargo_src_query/src/impl/find_mod.rs:301-306 | the result holds the same module items as the scope and is no longer than the scope |
| FindModProperties.ModulesOfConcat | cargo_src_query/src/impl/find_mod.rs:301-306 | the filter of a concatenation is the concatenation of the filters, and one item gives itself if it is a module and nothing otherwise: the module items in scope order, each as often as it occurs |
| FindMod.FindModuleFromScope | cargo_src_query/src/impl/find_mod.rs:324-327 | none exactly when no module has the name; otherwise the first module with that name |
| FindMod.FindModuleFromItems | cargo_src_query/src/impl/find_mod.rs:309-314 | fails, with "Could not find module `name` in scope", exactly when no module item of the scope has that name; otherwise gives the optional body of the first module item with that name, as the direct scan finds it |
| FindMod.FirstModuleLookup | cargo_src_query/src/impl/find_mod.rs:301-327 | filtering the modules and then searching them equals a direct scan for the first module item of that name |
| FindMod.FirstModNamedIsInScope | cargo_src_query/src/impl/find_mod.rs:324-327 | a found module is an item of the scope and has the name asked for; finding none means no module item has that name |
| FindModProperties.InlineWalkAgrees | cargo_src_query/src/impl/find_mod.rs:289-297 | walking inline modules from a cursor equals walking the inline bodies along the identifiers ahead of the cursor |
| FindModProperties.WalkInlineErrorsHaveNoNotes | cargo_src_query/src/impl/find_mod.rs:289-297 | the errors of an inline walk carry no notes |
| FindModProperties.EmptyPathYieldsLibRs | cargo_src_query/src/impl/find_mod.rs:139-141 | with no module asked for, the answer is the items of `lib.rs` |
| FindModProperties.UnreadableLibRs | cargo_src_query/src/impl/find_mod.rs:134-136 | when `lib.rs` cannot be loaded the query fails with the `lib.rs` error plus the two notes, whatever else the crate holds |
| FindModProperties.FirstSegmentNotInLibRs | cargo_src_query/src/impl/find_mod.rs:147-148 | a first module that `lib.rs` does not declare fails with the generic error |
| FindModProperties.InlineModuleInLibRs | cargo_src_query/src/impl/find_mod.rs:213-217 | a first module with an inline body resolves by walking that body along the rest of the path |
| FindModProperties.SiblingFileFirst | cargo_src_query/src/impl/find_mod.rs:223-234 | a first module declared `mod x;` with a loadable `src/x.rs` resolves by walking that file's items, even if `src/x/mod.rs` also exists |
| FindModProperties.DirectoryModule | cargo_src_query/src/impl/find_mod.rs:240-265 | with no loadable `src/x.rs`: an unloadable `src/x/mod.rs` fails naming that file, and a loadable one is the answer when the path ends at `x` |
| FindModProperties.DirectoryModuleChild | cargo_src_query/src/impl/find_mod.rs:263-272 | inside `src/x/mod.rs`, an undeclared child fails with the generic error; an inline child is walked; a child declared `mod y;` with a loadable `src/x/y.rs` walks that file |
| FindModProperties.SiblingFileStep | cargo_src_query/src/impl/find_mod.rs:223-234 | at any depth, `mod x;` with a loadable `<dir>/x.rs` continues as an inline walk of that file along the identifiers after `x` |
| FindModProperties.DirectoryStep | cargo_src_query/src/impl/find_mod.rs:240-247 | at any depth, `mod x;` without a loadable `<dir>/x.rs` continues in `<dir>/x/mod.rs`, with the cursor unchanged |
| FindModProperties.ModRsStep | cargo_src_query/src/impl/find_mod.rs:263-272 | when `<dir>/mod.rs` loads and declares the next identifier, the search continues with that declaration one identifier further on, in the same directory |
| FindModProperties.InlineChildErrors | cargo_src_query/src/impl/find_mod.rs:283-295 | inside an inline body or sibling file, an undeclared child fails "in scope" and a child without a body fails "in source file" |
| FindMod.RecurseModuleHierarchy | cargo_src_query/src/impl/find_mod.rs:206-249 | errors raised while resolving below `lib.rs` carry at most the loader's two notes; ResolverMachine.ModuleAgrees ties the whole function to the three-layout machine |
| FindMod.RecurseModRs | cargo_src_query/src/impl/find_mod.rs:254-273 | errors raised from a `mod.rs` step carry at most the loader's two notes; ResolverMachine.DirectoryIndexAgrees ties the whole function to the machine |
| FindMod.OutgoingNotesValues | cargo_src_query/src/impl/find_mod.rs:116-120 | the outgoing notes hold the crate directory under "source path", the rendered module path under "module path", and nothing else |
| FindMod.FindModInCrateCore | cargo_src_query/src/impl/find_mod.rs:124-159 | errors of the core carry at most the loader's two notes, so never "source path" or "module path"; ResolverMachine.MachineAgrees ties the whole function to the machine |
| FindMod.FindModInCrate | cargo_src_query/src/impl/find_mod.rs:112-122 | succeeds exactly when the core does, with the core's items; a failure keeps the core's message and other notes and appends the crate directory under "source path" and the rendered cursor, as given, under "module path" |
| FindMod.RecurseFile | cargo_src_query/src/impl/find_mod.rs:278-286 | on the last identifier the file's items are the answer; its errors carry no notes; InlineWalkAgrees ties it to the inline walk |
| FindMod.RecurseInlineMods | cargo_src_query/src/impl/find_mod.rs:289-297 | on the last identifier the block's items are the answer; its errors carry no notes; InlineWalkAgrees ties it to the inline walk |
| FindMod.NextModule | cargo_src_query/src/impl/find_mod.rs:317-322 | the cursor moves one place and nothing else in the context changes; the result is the identifier after the old position, or none past the end |
| FindMod.CloneAndUpdateCurrentDirectoryPath | cargo_src_query/src/impl/find_mod.rs:100-106 | the copy has the new directory and the same crate path and cursor |
| FindModProperties.OutgoingErrorNotes | cargo_src_query/src/impl/find_mod.rs:112-122 | a successful core result passes through; a failing one keeps its message and gains exactly one "source path" note and one "module path" note, with its other notes unchanged |
| FindModProperties.JoinStaysBelow | cargo_src_query/src/impl/find_mod.rs:245 | joining a component to a path below a directory stays below it |
| FindModProperties.HierarchyReadsBelow | cargo_src_query/src/impl/find_mod.rs:206-249 | resolving from a directory reads no file outside it: two file systems that agree below it give the same result |
| FindModProperties.ModRsReadsBelow | cargo_src_query/src/impl/find_mod.rs:254-273 | a `mod.rs` step reads no file outside the current directory |
| FindModProperties.ReadsOnlyBelowSrc | cargo_src_query/src/impl/find_mod.rs:124-159 | the whole query depends only on the files below `<crate>/src` |
| ResolverMachine.Step | cargo_src_query/src/impl/find_mod.rs:195-205 | every step from an unfinished state makes progress: it finishes, consumes an identifier, or trades a declaration for a file or directory at the same identifier |
| ResolverMachine.InlineBlockAgrees | cargo_src_query/src/impl/find_mod.rs:289-297 | the machine run from an inline block equals the inline walk |
| ResolverMachine.ModuleAgrees | cargo_src_query/src/impl/find_mod.rs:206-249 | the machine run from a found module equals `recurse_module_hierarchy` |
| ResolverMachine.DirectoryIndexAgrees | cargo_src_query/src/impl/find_mod.rs:254-273 | the machine run from a directory index equals `recurse_mod_rs` |
| ResolverMachine.MachineAgrees | cargo_src_query/src/impl/find_mod.rs:124-159 | the three-layout state machine, run from `lib.rs`, computes exactly the core's result on every input |
| FindDependencies.GetDefinitionName | cargo_src_query/src/impl/find_dependencies.rs:44-56 | gives a name exactly when the item is of the asked-for kind, and then it is the item's own name paired with the item |
| FindDependencies.FindDefinitionInScope | cargo_src_query/src/impl/find_dependencies.rs:58-62 | when some item matches, returns the first item of the asked-for kind with that name |
| FindModScenarios.RootPath | cargo_src_query/src/impl/find_mod.rs:358-365 | with only `lib.rs`, the empty path yields its items |
| FindModScenarios.NoModule | cargo_src_query/src/impl/find_mod.rs:368-377 | asking for `foo` in a `lib.rs` without modules fails with the generic error plus the two notes |
| FindModScenarios.CrateAtRoot | cargo_src_query/src/impl/find_mod.rs:114-118 | a crate at `/` without a loadable `lib.rs` fails with the `lib.rs` error, and its "source path" note is "/" |
| FindModScenarios.MultipleInlineModules | cargo_src_query/src/impl/find_mod.rs:380-397 | of two inline modules in `lib.rs`, each name yields its own body |
| FindModScenarios.NestedInlineModules | cargo_src_query/src/impl/find_mod.rs:400-416 | `foo::bar` yields the body of the inline module nested in `foo` |
| FindModScenarios.ModRsModule | cargo_src_query/src/impl/find_mod.rs:445-455 | `mod foo;` with only `foo/mod.rs` yields that file's items |
| FindModScenarios.ModRsThenSiblingFile | cargo_src_query/src/impl/find_mod.rs:467-478 | `foo::bar` with `foo/mod.rs` declaring `mod bar;` yields `foo/bar.rs` |
| FindModScenarios.DeeplyNestedModules | cargo_src_query/src/impl/find_mod.rs:492-518 | `foo::baz::boop::waldo::corge` passes two `mod.rs` files, a sibling file and two inline blocks and yields the innermost body |
| FindModScenarios.SiblingFileChildMustBeInline | cargo_src_query/src/impl/find_mod.rs:278-286 | a `mod bar;` inside `src/foo.rs` fails "in source file" even though `src/foo/bar.rs` exists |
| FindModScenarios.SiblingFileBeatsDirectory | cargo_src_query/src/impl/find_mod.rs:223-234 | when both `src/foo.rs` and `src/foo/mod.rs` exist, the sibling file wins |
| FindModScenarios.LayoutFormsAgree | cargo_src_query/src/impl/find_mod.rs:195-198 | the same body as an inline block, a sibling file or a directory index resolves to the same items |

## Left out

- Reading and parsing files (`parse_file_from_path`) is a lookup in a map from paths to parse results. The text of a load error is carried as data. An absent path gets the operating system's not-found message.
- The parsed syntax keeps only module items, struct, enum and function names, and opaque tokens. Attributes such as `#[path]`, visibility and spans are not modelled.
- Logging (`trace!`, `debug!`, `dbg!`) and the `eprintln!` in `add_messages` have no effect on results and are left out.
- The optional `backtrace` field of `CargoQueryError` is left out. The "file error backtrace" note holds the load error's `backtrace` text, which stands for the already formatted string: the model does not reproduce the `Debug` quoting of `format!("{:#?}", ...)`.
- `convert_error` (errors.rs:153-160) is a plain constructor that the resolver never calls, and is left out.
- `to_str().expect(...)` and `to_str().unwrap()` on non-UTF-8 paths would panic. Paths here are sequences of strings, so this cannot occur.
- `ModulePath.position` is a `usize`. The model uses an unbounded natural number, because the resolver advances it at most once past the end of the path.
- `src_path_to_string` and `module_path_to_string` are unused rendering helpers and are left out.
- `find_next_module_definition`, `find_next_module` and `recurse_dependencies` in `find_mod.rs` are unused stubs (one ends in `unimplemented!()`). `get_definition` in `find_dependencies.rs` has an empty body. All four are left out.
- FindDependencies.FindDefinitionInScope: requires that some item matches, because the source unwraps the search and panics when nothing matches.
- ModulePaths.CloneAndOverwrite: requires the cursor to be inside the path, because the source indexes the path at the cursor and panics otherwise.
- ModulePaths.CloneAndInsert: requires the cursor to be at most the path's length, because `Vec::insert` panics beyond it.
- The query facade (`core.rs`, `lib.rs`), `recurse_export.rs`, `flags.rs` and the procedural-macro crates are outside this core. They are not part of this model.
