/**
 * The resolver as an explicit state machine over four states (entry file,
 * module declaration, inline block or sibling file, directory index) with a
 * single transition function, so that the two-tier file policy is one
 * decision point. It is proved to compute exactly what the recursive
 * functions of `find_mod.rs` compute, on every input.
 */
module ResolverMachine {
  import opened Wrappers
  import opened Syntax
  import opened External
  import opened ModulePaths
  import opened Errors
  import opened FindMod
  import opened FindModProperties

  datatype Phase =
    | AtEntryFile                          // `src/lib.rs` not yet loaded
    | AtModule(itemMod: ItemMod, dir: Path) // the layout rules are applied to this declaration, in `dir`
    | AtInlineBlock(items: seq<Item>)      // inside an inline body or a sibling file
    | AtDirectoryIndex(dir: Path)          // `dir/mod.rs` is to be loaded
    | Finished(result: Result<seq<Item>, CargoQueryError>)

  datatype Machine = Machine(phase: Phase, cursor: ModulePath)

  function Rank(phase: Phase): nat {
    match phase
    case AtEntryFile => 3
    case AtModule(_, _) => 2
    case AtInlineBlock(_) => 1
    case AtDirectoryIndex(_) => 1
    case Finished(_) => 0
  }

  /** `next` stays lexicographically below `m` in (segments remaining, rank). */
  predicate MakesProgress(m: Machine, next: Machine) {
    || Remaining(next.cursor) < Remaining(m.cursor)
    || (Remaining(next.cursor) == Remaining(m.cursor) && Rank(next.phase) < Rank(m.phase))
  }

  function Done(result: Result<seq<Item>, CargoQueryError>, cursor: ModulePath): Machine {
    Machine(Finished(result), cursor)
  }

  /** The one transition. Every step consumes an identifier or moves to a lower-ranked state. */
  function Step(fs: FileSystem, crateDir: Path, m: Machine): (r: Machine)
    requires !m.phase.Finished?
    ensures MakesProgress(m, r)
  {
    match m.phase
    case AtEntryFile => (
      match Load(fs, LibPath(crateDir))
      case Failure(e) => Done(Failure(CouldNotProcessLibRs(e)), m.cursor)
      case Success(libRs) =>
        match GetCurrentModule(m.cursor)
        case None => Done(Success(libRs), m.cursor)
        case Some(first) =>
          match FirstModNamed(libRs, first)
          case None => Done(Failure(GenericError()), m.cursor)
          case Some(decl) => Machine(AtModule(decl, SrcPath(crateDir)), m.cursor))
    case AtModule(decl, dir) => (
      match GetCurrentModule(m.cursor)
      case None => Done(Failure(GenericError()), m.cursor)
      case Some(current) =>
        if decl.content.Some? then Machine(AtInlineBlock(decl.content.value), m.cursor)
        else
          // The single layout decision: the sibling file if it loads, else the directory.
          match Load(fs, SiblingFilePath(dir, current))
          case Success(f) => Machine(AtInlineBlock(f), m.cursor)
          case Failure(_) => Machine(AtDirectoryIndex(Join(dir, current)), m.cursor))
    case AtInlineBlock(items) => (
      var (advanced, next) := Next(m.cursor);
      if next.None? then Done(Success(items), advanced)
      else
        match FirstModNamed(items, next.value)
        case None => Done(Failure(CouldNotFindDefinedModule(next.value)), advanced)
        case Some(child) =>
          if child.content.None? then Done(Failure(CouldNotFindModuleInFile(next.value)), advanced)
          else Machine(AtInlineBlock(child.content.value), advanced))
    case AtDirectoryIndex(dir) =>
      match Load(fs, ModRsPath(dir))
      case Failure(e) => Done(Failure(CouldNotProcessFile(ModRsPath(dir), e)), m.cursor)
      case Success(index) =>
        var (advanced, next) := Next(m.cursor);
        if next.None? then Done(Success(index), advanced)
        else
          match FirstModNamed(index, next.value)
          case None => Done(Failure(GenericError()), advanced)
          case Some(child) => Machine(AtModule(child, dir), advanced)
  }

  /** Steps the machine until it finishes. */
  function Run(fs: FileSystem, crateDir: Path, m: Machine): Result<seq<Item>, CargoQueryError>
    decreases Remaining(m.cursor), Rank(m.phase)
  {
    if m.phase.Finished? then m.phase.result
    else Run(fs, crateDir, Step(fs, crateDir, m))
  }

  /** The machine started at the entry file. */
  function Resolve(fs: FileSystem, crateDir: Path, modulePath: ModulePath): Result<seq<Item>, CargoQueryError> {
    Run(fs, crateDir, Machine(AtEntryFile, modulePath))
  }

  // ---------------------------------------------------------------------
  // Agreement with the recursive resolver
  // ---------------------------------------------------------------------

  lemma {:induction false} InlineBlockAgrees(fs: FileSystem, crateDir: Path, items: seq<Item>, ctx: FindModuleContext)
    ensures Run(fs, crateDir, Machine(AtInlineBlock(items), ctx.currentModulePath)) == RecurseInlineMods(items, ctx)
    decreases Remaining(ctx.currentModulePath)
  {
    var (advanced, next) := NextModule(ctx);
    if next.Some? {
      match FirstModNamed(items, next.value)
      case None =>
      case Some(child) =>
        if child.content.Some? {
          InlineBlockAgrees(fs, crateDir, child.content.value, advanced);
        }
    }
  }

  lemma {:induction false} ModuleAgrees(fs: FileSystem, crateDir: Path, decl: ItemMod, ctx: FindModuleContext)
    ensures Run(fs, crateDir, Machine(AtModule(decl, ctx.currentDirectoryPath), ctx.currentModulePath))
         == RecurseModuleHierarchy(fs, decl, ctx)
    decreases Remaining(ctx.currentModulePath), 1
  {
    match CurrentModule(ctx)
    case Failure(_) =>
    case Success(current) =>
      match decl.content
      case Some(body) => InlineBlockAgrees(fs, crateDir, body, ctx);
      case None =>
        match Load(fs, SiblingFilePath(ctx.currentDirectoryPath, current))
        case Success(f) => InlineBlockAgrees(fs, crateDir, f, ctx);
        case Failure(_) =>
          DirectoryIndexAgrees(fs, crateDir,
            CloneAndUpdateCurrentDirectoryPath(ctx, Join(ctx.currentDirectoryPath, current)));
  }

  lemma {:induction false} DirectoryIndexAgrees(fs: FileSystem, crateDir: Path, ctx: FindModuleContext)
    ensures Run(fs, crateDir, Machine(AtDirectoryIndex(ctx.currentDirectoryPath), ctx.currentModulePath))
         == RecurseModRs(fs, ctx)
    decreases Remaining(ctx.currentModulePath), 0
  {
    match Load(fs, ModRsPath(ctx.currentDirectoryPath))
    case Failure(_) =>
    case Success(index) =>
      var (advanced, next) := NextModule(ctx);
      if next.Some? {
        FirstModuleLookup(index, next.value);
        match FirstModNamed(index, next.value)
        case None =>
        case Some(child) => ModuleAgrees(fs, crateDir, child, advanced);
      }
  }

  /** The state machine and `find_mod_in_crate_core` agree on every file system, crate and path. */
  lemma MachineAgrees(fs: FileSystem, crateDir: Path, modulePath: ModulePath)
    ensures Resolve(fs, crateDir, modulePath) == FindModInCrateCore(fs, crateDir, modulePath)
  {
    var start := Machine(AtEntryFile, modulePath);
    assert Resolve(fs, crateDir, modulePath) == Run(fs, crateDir, Step(fs, crateDir, start));
    match Load(fs, LibPath(crateDir))
    case Failure(_) =>
    case Success(libRs) =>
      match GetCurrentModule(modulePath)
      case None =>
      case Some(first) =>
        FirstModuleLookup(libRs, first);
        match FirstModNamed(libRs, first)
        case None =>
        case Some(decl) => ModuleAgrees(fs, crateDir, decl, InitialContext(crateDir, modulePath));
  }
}
