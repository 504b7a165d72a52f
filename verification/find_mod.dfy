/**
 * The module resolver: from a crate directory and a `a::b::c` cursor it
 * loads `src/lib.rs` and follows the crate's file layout (inline `mod x { }`
 * blocks, sibling `x.rs` files, `x/mod.rs` directories) until the path is
 * exhausted, and returns the items declared there.
 */
module FindMod {
  import opened Wrappers
  import opened Syntax
  import opened External
  import opened ModulePaths
  import opened Errors

  const SRC: string := "src"
  const LIB_RS: string := "lib.rs"
  const MOD_RS: string := "mod.rs"
  const RS_EXTENSION: string := ".rs"

  /** `<crate>/src`: every source file of the crate lives below it. */
  function SrcPath(crateDir: Path): Path {
    Join(crateDir, SRC)
  }

  /** `<crate>/src/lib.rs`: the root of every search. */
  function LibPath(crateDir: Path): Path {
    Join(SrcPath(crateDir), LIB_RS)
  }

  /** `<dir>/<name>.rs`: the sibling file a `mod name;` may live in. */
  function SiblingFilePath(dir: Path, name: Ident): Path {
    Join(dir, name + RS_EXTENSION)
  }

  /** `<dir>/mod.rs`: the index file of a directory-form module. */
  function ModRsPath(dir: Path): Path {
    Join(dir, MOD_RS)
  }

  /** `FindModuleContext`: the state threaded through one resolution. */
  datatype FindModuleContext = FindModuleContext(
    cratePath: Path,
    currentDirectoryPath: Path,
    currentModulePath: ModulePath)

  /** `FindModuleContext::current_module`: the generic error once the path is exhausted. */
  function CurrentModule(ctx: FindModuleContext): (r: Result<Ident, CargoQueryError>)
    ensures r.Success? <==> GetCurrentModule(ctx.currentModulePath).Some?
    ensures r.Success? ==> r.value == ctx.currentModulePath.path[ctx.currentModulePath.position]
    ensures r.Failure? ==> r.error == GenericError()
  {
    match GetCurrentModule(ctx.currentModulePath)
    case Some(m) => Success(m)
    case None => Failure(GenericError())
  }

  /** `clone_and_update_current_directory_path`. */
  function CloneAndUpdateCurrentDirectoryPath(ctx: FindModuleContext, dir: Path): (r: FindModuleContext)
    ensures r.currentDirectoryPath == dir
    ensures r.cratePath == ctx.cratePath && r.currentModulePath == ctx.currentModulePath
  {
    ctx.(currentDirectoryPath := dir)
  }

  /** `get_modules_from_item_scope`: the module items, in scope order. */
  function GetModulesFromItemScope(items: seq<Item>): (r: seq<ItemMod>)
    ensures |r| <= |items|
    ensures forall m :: m in r <==> Mod(m) in items
  {
    if |items| == 0 then []
    else
      assert items == [items[0]] + items[1..];
      (if items[0].Mod? then [items[0].itemMod] else []) + GetModulesFromItemScope(items[1..])
  }

  /** `i` is the first index whose module is called `name`. */
  predicate IsFirstNamed(modules: seq<ItemMod>, i: int, name: Ident) {
    0 <= i < |modules| && modules[i].ident == name
    && forall j :: 0 <= j < i ==> modules[j].ident != name
  }

  /** `find_module_from_scope`: the first module called exactly `name`. */
  function FindModuleFromScope(modules: seq<ItemMod>, name: Ident): (r: Option<ItemMod>)
    ensures r.None? <==> forall i :: 0 <= i < |modules| ==> modules[i].ident != name
    ensures r.Some? ==> exists i :: IsFirstNamed(modules, i, name) && modules[i] == r.value
  {
    if |modules| == 0 then None
    else if modules[0].ident == name then
      assert IsFirstNamed(modules, 0, name);
      Some(modules[0])
    else
      var r := FindModuleFromScope(modules[1..], name);
      assert forall i :: 0 < i < |modules| ==> modules[i] == modules[1..][i - 1];
      if r.Some? then
        var i :| IsFirstNamed(modules[1..], i, name) && modules[1..][i] == r.value;
        assert IsFirstNamed(modules, i + 1, name);
        r
      else r
  }

  /** The first module item of a scope called exactly `name`, scanning the items directly. */
  function FirstModNamed(items: seq<Item>, name: Ident): Option<ItemMod> {
    if |items| == 0 then None
    else if items[0].Mod? && items[0].itemMod.ident == name then Some(items[0].itemMod)
    else FirstModNamed(items[1..], name)
  }

  /**
   * Filtering the scope to modules and taking the first match by name picks
   * the first module item of the scope with that exact name.
   */
  lemma {:induction false} FirstModuleLookup(items: seq<Item>, name: Ident)
    ensures FindModuleFromScope(GetModulesFromItemScope(items), name) == FirstModNamed(items, name)
    decreases |items|
  {
    if |items| > 0 {
      FirstModuleLookup(items[1..], name);
      var tail := GetModulesFromItemScope(items[1..]);
      if items[0].Mod? {
        var mods := [items[0].itemMod] + tail;
        assert GetModulesFromItemScope(items) == mods;
        assert mods[0] == items[0].itemMod;
        if items[0].itemMod.ident != name {
          assert mods[1..] == tail;
          assert FindModuleFromScope(mods, name) == FindModuleFromScope(tail, name);
        }
      } else {
        assert GetModulesFromItemScope(items) == tail;
      }
    }
  }

  /** The first module called `name` is a module item of the scope, and is called `name`. */
  lemma {:induction false} FirstModNamedIsInScope(items: seq<Item>, name: Ident)
    ensures FirstModNamed(items, name).Some? ==>
      Mod(FirstModNamed(items, name).value) in items && FirstModNamed(items, name).value.ident == name
    ensures FirstModNamed(items, name).None? ==>
      forall i :: 0 <= i < |items| && items[i].Mod? ==> items[i].itemMod.ident != name
    decreases |items|
  {
    if |items| > 0 {
      FirstModNamedIsInScope(items[1..], name);
      assert forall i :: 0 < i < |items| ==> items[i] == items[1..][i - 1];
    }
  }

  /**
   * `find_module_from_items`: the content of the first module item called
   * `name`, or "Could not find module `name` in scope" when there is none.
   * (The source repeats `find_module_from_scope`'s search inline.)
   */
  function FindModuleFromItems(items: seq<Item>, name: Ident): (r: Result<Option<seq<Item>>, CargoQueryError>)
    ensures r.Failure? <==> forall i :: 0 <= i < |items| && items[i].Mod? ==> items[i].itemMod.ident != name
    ensures r.Failure? <==> FirstModNamed(items, name).None?
    ensures r.Failure? ==> r.error == CouldNotFindDefinedModule(name)
    ensures r.Success? ==> r.value == FirstModNamed(items, name).value.content
  {
    FirstModuleLookup(items, name);
    FirstModNamedIsInScope(items, name);
    match FindModuleFromScope(GetModulesFromItemScope(items), name)
    case None => Failure(CouldNotFindDefinedModule(name))
    case Some(m) => Success(m.content)
  }

  /** `next_module`: advance the cursor and read the new current identifier. */
  function NextModule(ctx: FindModuleContext): (r: (FindModuleContext, Option<Ident>))
    ensures r.0.cratePath == ctx.cratePath && r.0.currentDirectoryPath == ctx.currentDirectoryPath
    ensures r.0.currentModulePath.path == ctx.currentModulePath.path
    ensures GetPosition(r.0.currentModulePath) == GetPosition(ctx.currentModulePath) + 1
    ensures r.1.Some? <==> ctx.currentModulePath.position + 1 < |ctx.currentModulePath.path|
    ensures r.1.Some? ==> r.1.value == ctx.currentModulePath.path[ctx.currentModulePath.position + 1]
  {
    var (advanced, next) := Next(ctx.currentModulePath);
    (ctx.(currentModulePath := advanced), next)
  }

  /**
   * `find_mod_in_crate`: the core's result, with every error gaining one
   * "module path" note (the cursor as given, rendered) and one "source path"
   * note (the crate directory). The entries are in `BTreeMap` key order.
   */
  function FindModInCrate(fs: FileSystem, crateDir: Path, modulePath: ModulePath): (r: Result<seq<Item>, CargoQueryError>)
    ensures var core := FindModInCrateCore(fs, crateDir, modulePath);
      && (r.Success? <==> core.Success?)
      && (core.Success? ==> r == core)
      && (r.Failure? ==>
           && r.error.topLevelMessage == core.error.topLevelMessage
           && Notes(r.error, SOURCE_PATH) == Notes(core.error, SOURCE_PATH) + [PathToString(crateDir)]
           && Notes(r.error, MODULE_PATH) == Notes(core.error, MODULE_PATH) + [Display(modulePath)]
           && forall key :: key != SOURCE_PATH && key != MODULE_PATH ==>
                Notes(r.error, key) == Notes(core.error, key))
  {
    OutgoingNotesValues(crateDir, modulePath);
    match FindModInCrateCore(fs, crateDir, modulePath)
    case Success(items) => Success(items)
    case Failure(e) => Failure(AddMessages(e, OutgoingNotes(crateDir, modulePath)))
  }

  /** The notes `find_mod_in_crate` attaches to an outgoing error. */
  function OutgoingNotes(crateDir: Path, modulePath: ModulePath): Messages {
    [(MODULE_PATH, Display(modulePath)), (SOURCE_PATH, PathToString(crateDir))]
  }

  /** The outgoing notes put one value under each of their two keys and nothing elsewhere. */
  lemma OutgoingNotesValues(crateDir: Path, modulePath: ModulePath)
    ensures ValuesUnder(OutgoingNotes(crateDir, modulePath), SOURCE_PATH) == [PathToString(crateDir)]
    ensures ValuesUnder(OutgoingNotes(crateDir, modulePath), MODULE_PATH) == [Display(modulePath)]
    ensures forall key :: key != SOURCE_PATH && key != MODULE_PATH ==>
      ValuesUnder(OutgoingNotes(crateDir, modulePath), key) == []
  {
    var msgs := OutgoingNotes(crateDir, modulePath);
    assert msgs[1..] == [msgs[1]] && msgs[1..][1..] == [];
    assert SOURCE_PATH != MODULE_PATH;
    assert ValuesUnder(msgs[1..], SOURCE_PATH) == [PathToString(crateDir)];
    assert ValuesUnder(msgs[1..], MODULE_PATH) == [];
    forall key | key != SOURCE_PATH && key != MODULE_PATH
      ensures ValuesUnder(msgs, key) == []
    {
      assert ValuesUnder(msgs[1..], key) == [];
    }
  }

  /** `find_mod_in_crate_core`. */
  function FindModInCrateCore(fs: FileSystem, crateDir: Path, modulePath: ModulePath): (r: Result<seq<Item>, CargoQueryError>)
    ensures r.Failure? ==> CarriesOnlyFileNotes(r.error)
  {
    match Load(fs, LibPath(crateDir))
    case Failure(e) => Failure(CouldNotProcessLibRs(e))
    case Success(libRs) =>
      match GetCurrentModule(modulePath)
      case None => Success(libRs)
      case Some(first) =>
        match FindModuleFromScope(GetModulesFromItemScope(libRs), first)
        case None => Failure(GenericError())
        case Some(firstModule) =>
          RecurseModuleHierarchy(fs, firstModule, FindModuleContext(crateDir, SrcPath(crateDir), modulePath))
  }

  /**
   * `recurse_module_hierarchy`: `itemMod` is the item for the cursor's current
   * identifier. An inline body is walked in place; `mod x;` tries
   * `<dir>/x.rs` and, only if that does not load, `<dir>/x/mod.rs`. The
   * sibling file's load error is dropped.
   */
  function RecurseModuleHierarchy(fs: FileSystem, itemMod: ItemMod, ctx: FindModuleContext): (r: Result<seq<Item>, CargoQueryError>)
    ensures r.Failure? ==> CarriesOnlyFileNotes(r.error)
    decreases Remaining(ctx.currentModulePath), 1
  {
    match CurrentModule(ctx)
    case Failure(e) => Failure(e)
    case Success(current) =>
      match itemMod.content
      case Some(content) => RecurseInlineMods(content, ctx)
      case None =>
        match Load(fs, SiblingFilePath(ctx.currentDirectoryPath, current))
        case Success(f) => RecurseFile(f, ctx)
        case Failure(_) =>
          RecurseModRs(fs, CloneAndUpdateCurrentDirectoryPath(ctx, Join(ctx.currentDirectoryPath, current)))
  }

  /**
   * `recurse_mod_rs`: load `<dir>/mod.rs`; if the path is then exhausted its
   * items are the answer, otherwise the next module is looked up among its
   * items and resolved relative to `<dir>`.
   */
  function RecurseModRs(fs: FileSystem, ctx: FindModuleContext): (r: Result<seq<Item>, CargoQueryError>)
    ensures r.Failure? ==> CarriesOnlyFileNotes(r.error)
    decreases Remaining(ctx.currentModulePath), 0
  {
    var pathToModRs := ModRsPath(ctx.currentDirectoryPath);
    match Load(fs, pathToModRs)
    case Failure(e) => Failure(CouldNotProcessFile(pathToModRs, e))
    case Success(modRs) =>
      var (advanced, next) := NextModule(ctx);
      match next
      case None => Success(modRs)
      case Some(nextMod) =>
        match FindModuleFromScope(GetModulesFromItemScope(modRs), nextMod)
        case None => Failure(GenericError())
        case Some(nextModule) => RecurseModuleHierarchy(fs, nextModule, advanced)
  }

  /** `recurse_file`: the sibling file's items are walked exactly like an inline block. */
  function RecurseFile(items: seq<Item>, ctx: FindModuleContext): (r: Result<seq<Item>, CargoQueryError>)
    ensures Remaining(ctx.currentModulePath) <= 1 ==> r == Success(items)
    ensures r.Failure? ==> r.error.indexedMessages == map[]
  {
    RecurseInlineMods(items, ctx)
  }

  /**
   * `recurse_inline_mods`: advance; when the path is exhausted the block's
   * items are the answer; otherwise the next module must be declared in the
   * block with an inline body, never as `mod x;`.
   */
  function RecurseInlineMods(items: seq<Item>, ctx: FindModuleContext): (r: Result<seq<Item>, CargoQueryError>)
    ensures Remaining(ctx.currentModulePath) <= 1 ==> r == Success(items)
    ensures r.Failure? ==> r.error.indexedMessages == map[]
    decreases Remaining(ctx.currentModulePath)
  {
    var (advanced, next) := NextModule(ctx);
    match next
    case None => Success(items)
    case Some(nextMod) =>
      match FindModuleFromItems(items, nextMod)
      case Failure(e) => Failure(e)
      case Success(None) => Failure(CouldNotFindModuleInFile(nextMod))
      case Success(Some(content)) => RecurseInlineMods(content, advanced)
  }
}
