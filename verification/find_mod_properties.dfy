/**
 * What the resolver promises, stated against reference definitions that
 * work on plain lists of identifiers instead of the cursor.
 */
module FindModProperties {
  import opened Wrappers
  import opened Syntax
  import opened External
  import opened ModulePaths
  import opened Errors
  import opened FindMod

  // ---------------------------------------------------------------------
  // Reference definitions
  // ---------------------------------------------------------------------

  /**
   * Walking inline bodies along a list of identifiers: each one must name a
   * module of the current block, and that module must have a body.
   */
  function WalkInline(items: seq<Item>, segs: seq<Ident>): Result<seq<Item>, CargoQueryError>
    decreases |segs|
  {
    if |segs| == 0 then Success(items)
    else
      match FirstModNamed(items, segs[0])
      case None => Failure(CouldNotFindDefinedModule(segs[0]))
      case Some(m) =>
        match m.content
        case None => Failure(CouldNotFindModuleInFile(segs[0]))
        case Some(body) => WalkInline(body, segs[1..])
  }

  /** The identifiers after the current one: what the walkers still have to consume. */
  function Ahead(mp: ModulePath): seq<Ident> {
    if mp.position < |mp.path| then mp.path[mp.position + 1..] else []
  }

  /** Two file systems load every path below `dir` alike. */
  ghost predicate AgreeBelow(fs1: FileSystem, fs2: FileSystem, dir: Path) {
    forall p :: IsUnder(p, dir) ==> Load(fs1, p) == Load(fs2, p)
  }

  /** The search context at the first hop: the cursor as given, in `<crate>/src`. */
  function InitialContext(crateDir: Path, modulePath: ModulePath): FindModuleContext {
    FindModuleContext(crateDir, SrcPath(crateDir), modulePath)
  }

  // ---------------------------------------------------------------------
  // Lookup
  // ---------------------------------------------------------------------

  /**
   * The module filter maps concatenation to concatenation and keeps one
   * item exactly when it is a module: it preserves the order and the
   * multiplicity of the scope's module items.
   */
  lemma {:induction false} ModulesOfConcat(a: seq<Item>, b: seq<Item>)
    ensures GetModulesFromItemScope(a + b) == GetModulesFromItemScope(a) + GetModulesFromItemScope(b)
    ensures |a| == 1 ==> GetModulesFromItemScope(a) == (if a[0].Mod? then [a[0].itemMod] else [])
    decreases |a|
  {
    if |a| > 0 {
      var head := if a[0].Mod? then [a[0].itemMod] else [];
      assert (a + b)[0] == a[0];
      assert (a + b)[1..] == a[1..] + b;
      assert GetModulesFromItemScope(a + b) == head + GetModulesFromItemScope(a[1..] + b);
      assert GetModulesFromItemScope(a) == head + GetModulesFromItemScope(a[1..]);
      ModulesOfConcat(a[1..], b);
      if |a| == 1 {
        assert a[1..] == [];
      }
    } else {
      assert a + b == b;
    }
  }

  // ---------------------------------------------------------------------
  // Inline blocks and sibling files
  // ---------------------------------------------------------------------

  /**
   * `recurse_inline_mods` (and so `recurse_file`) walks the identifiers after
   * the current one through inline bodies only.
   */
  lemma {:induction false} InlineWalkAgrees(items: seq<Item>, ctx: FindModuleContext)
    ensures RecurseInlineMods(items, ctx) == WalkInline(items, Ahead(ctx.currentModulePath))
    decreases Remaining(ctx.currentModulePath)
  {
    var mp := ctx.currentModulePath;
    var (advanced, next) := NextModule(ctx);
    if next.Some? {
      var segs := Ahead(mp);
      assert segs == mp.path[mp.position + 1..];
      assert segs[0] == next.value;
      assert segs[1..] == Ahead(advanced.currentModulePath);
      match FirstModNamed(items, next.value)
      case None =>
      case Some(m) =>
        if m.content.Some? {
          InlineWalkAgrees(m.content.value, advanced);
        }
    }
  }

  /** Errors from an inline walk carry no notes at all. */
  lemma {:induction false} WalkInlineErrorsHaveNoNotes(items: seq<Item>, segs: seq<Ident>)
    ensures WalkInline(items, segs).Failure? ==> WalkInline(items, segs).error.indexedMessages == map[]
    decreases |segs|
  {
    if |segs| > 0 {
      match FirstModNamed(items, segs[0])
      case None =>
      case Some(m) =>
        if m.content.Some? {
          WalkInlineErrorsHaveNoNotes(m.content.value, segs[1..]);
        }
    }
  }

  // ---------------------------------------------------------------------
  // End-to-end resolution
  // ---------------------------------------------------------------------

  /** An exhausted cursor (the empty path) yields the items of `src/lib.rs`, unmodified. */
  lemma EmptyPathYieldsLibRs(fs: FileSystem, crateDir: Path, modulePath: ModulePath, libRs: seq<Item>)
    requires Load(fs, LibPath(crateDir)) == Success(libRs)
    requires GetCurrentModule(modulePath) == None
    ensures FindModInCrate(fs, crateDir, modulePath) == Success(libRs)
  {
  }

  /**
   * When `src/lib.rs` does not load, the answer is the `lib.rs` error with
   * the two outgoing notes, whatever else the file system holds.
   */
  lemma UnreadableLibRs(fs: FileSystem, other: FileSystem, crateDir: Path, modulePath: ModulePath, e: LoadError)
    requires Load(fs, LibPath(crateDir)) == Failure(e)
    requires Load(other, LibPath(crateDir)) == Failure(e)
    ensures FindModInCrate(fs, crateDir, modulePath)
         == Failure(AddMessages(CouldNotProcessLibRs(e), OutgoingNotes(crateDir, modulePath)))
    ensures FindModInCrate(other, crateDir, modulePath) == FindModInCrate(fs, crateDir, modulePath)
  {
  }

  /** A first identifier that names no module item of `lib.rs` fails with the generic error. */
  lemma FirstSegmentNotInLibRs(fs: FileSystem, crateDir: Path, modulePath: ModulePath, libRs: seq<Item>, first: Ident)
    requires Load(fs, LibPath(crateDir)) == Success(libRs)
    requires GetCurrentModule(modulePath) == Some(first)
    requires forall i :: 0 <= i < |libRs| && libRs[i].Mod? ==> libRs[i].itemMod.ident != first
    ensures FindModInCrateCore(fs, crateDir, modulePath) == Failure(GenericError())
  {
    FirstModuleLookup(libRs, first);
    FirstModNamedIsInScope(libRs, first);
  }

  /**
   * A first module with an inline body in `lib.rs`: the rest of the path is
   * walked through inline bodies, from that body.
   */
  lemma InlineModuleInLibRs(fs: FileSystem, crateDir: Path, first: Ident, rest: seq<Ident>, libRs: seq<Item>, body: seq<Item>)
    requires Load(fs, LibPath(crateDir)) == Success(libRs)
    requires FirstModNamed(libRs, first) == Some(ItemMod(first, Some(body)))
    ensures FindModInCrateCore(fs, crateDir, New([first] + rest)) == WalkInline(body, rest)
  {
    var mp := New([first] + rest);
    FirstModuleLookup(libRs, first);
    InlineWalkAgrees(body, InitialContext(crateDir, mp));
    assert Ahead(mp) == rest;
  }

  /**
   * `mod first;` with a loadable `src/first.rs`: that file is used, whatever
   * `src/first/mod.rs` holds, and the rest of the path must be inline in it.
   */
  lemma SiblingFileFirst(fs: FileSystem, crateDir: Path, first: Ident, rest: seq<Ident>, libRs: seq<Item>, file: seq<Item>)
    requires Load(fs, LibPath(crateDir)) == Success(libRs)
    requires FirstModNamed(libRs, first) == Some(ItemMod(first, None))
    requires Load(fs, SiblingFilePath(SrcPath(crateDir), first)) == Success(file)
    ensures FindModInCrateCore(fs, crateDir, New([first] + rest)) == WalkInline(file, rest)
  {
    var mp := New([first] + rest);
    FirstModuleLookup(libRs, first);
    InlineWalkAgrees(file, InitialContext(crateDir, mp));
    assert Ahead(mp) == rest;
  }

  /**
   * `mod first;` without a loadable `src/first.rs`: `src/first/mod.rs` is
   * loaded (its failure is reported naming that path, the sibling's is
   * dropped) and, if the path ends there, its items are the answer.
   */
  lemma DirectoryModule(fs: FileSystem, crateDir: Path, first: Ident, rest: seq<Ident>, libRs: seq<Item>)
    requires Load(fs, LibPath(crateDir)) == Success(libRs)
    requires FirstModNamed(libRs, first) == Some(ItemMod(first, None))
    requires Load(fs, SiblingFilePath(SrcPath(crateDir), first)).Failure?
    ensures Load(fs, ModRsPath(Join(SrcPath(crateDir), first))).Failure? ==>
      FindModInCrateCore(fs, crateDir, New([first] + rest))
        == Failure(CouldNotProcessFile(ModRsPath(Join(SrcPath(crateDir), first)),
                                       Load(fs, ModRsPath(Join(SrcPath(crateDir), first))).error))
    ensures Load(fs, ModRsPath(Join(SrcPath(crateDir), first))).Success? && rest == [] ==>
      FindModInCrateCore(fs, crateDir, New([first] + rest))
        == Success(Load(fs, ModRsPath(Join(SrcPath(crateDir), first))).value)
  {
    var mp := New([first] + rest);
    var ctx := InitialContext(crateDir, mp);
    FirstModuleLookup(libRs, first);
    assert FindModInCrateCore(fs, crateDir, mp) == RecurseModuleHierarchy(fs, ItemMod(first, None), ctx);
    assert CurrentModule(ctx) == Success(first);
    var dirCtx := CloneAndUpdateCurrentDirectoryPath(ctx, Join(SrcPath(crateDir), first));
    assert RecurseModuleHierarchy(fs, ItemMod(first, None), ctx) == RecurseModRs(fs, dirCtx);
  }

  /**
   * Below a directory module the current directory is `src/first`: a child
   * `mod second;` of `src/first/mod.rs` is looked for as
   * `src/first/second.rs`, a child with a body is walked inline, and a child
   * that is not there fails with the generic error.
   */
  lemma DirectoryModuleChild(fs: FileSystem, crateDir: Path, first: Ident, second: Ident, rest: seq<Ident>,
                             libRs: seq<Item>, modRs: seq<Item>)
    requires Load(fs, LibPath(crateDir)) == Success(libRs)
    requires FirstModNamed(libRs, first) == Some(ItemMod(first, None))
    requires Load(fs, SiblingFilePath(SrcPath(crateDir), first)).Failure?
    requires Load(fs, ModRsPath(Join(SrcPath(crateDir), first))) == Success(modRs)
    ensures FirstModNamed(modRs, second).None? ==>
      FindModInCrateCore(fs, crateDir, New([first, second] + rest)) == Failure(GenericError())
    ensures FirstModNamed(modRs, second).Some? && FirstModNamed(modRs, second).value.content.Some? ==>
      FindModInCrateCore(fs, crateDir, New([first, second] + rest))
        == WalkInline(FirstModNamed(modRs, second).value.content.value, rest)
    ensures (FirstModNamed(modRs, second).Some? && FirstModNamed(modRs, second).value.content.None?
             && Load(fs, SiblingFilePath(Join(SrcPath(crateDir), first), second)).Success?) ==>
      FindModInCrateCore(fs, crateDir, New([first, second] + rest))
        == WalkInline(Load(fs, SiblingFilePath(Join(SrcPath(crateDir), first), second)).value, rest)
  {
    var mp := New([first, second] + rest);
    var ctx := InitialContext(crateDir, mp);
    FirstModuleLookup(libRs, first);
    FirstModuleLookup(modRs, second);
    assert FindModInCrateCore(fs, crateDir, mp) == RecurseModuleHierarchy(fs, ItemMod(first, None), ctx);
    assert CurrentModule(ctx) == Success(first);
    var dirCtx := CloneAndUpdateCurrentDirectoryPath(ctx, Join(SrcPath(crateDir), first));
    assert RecurseModuleHierarchy(fs, ItemMod(first, None), ctx) == RecurseModRs(fs, dirCtx);
    var (advanced, next) := NextModule(dirCtx);
    assert next == Some(second);
    assert Ahead(advanced.currentModulePath) == rest;
    match FirstModNamed(modRs, second)
    case None =>
    case Some(child) =>
      assert RecurseModRs(fs, dirCtx) == RecurseModuleHierarchy(fs, child, advanced);
      assert CurrentModule(advanced) == Success(second);
      match child.content
      case Some(body) => InlineWalkAgrees(body, advanced);
      case None =>
        match Load(fs, SiblingFilePath(Join(SrcPath(crateDir), first), second))
        case Success(childFile) => InlineWalkAgrees(childFile, advanced);
        case Failure(_) =>
  }

  /** One step of `recurse_module_hierarchy` on `mod x;` whose sibling file `<dir>/x.rs` loads. */
  lemma SiblingFileStep(fs: FileSystem, name: Ident, ctx: FindModuleContext, file: seq<Item>)
    requires CurrentModule(ctx) == Success(name)
    requires Load(fs, SiblingFilePath(ctx.currentDirectoryPath, name)) == Success(file)
    ensures RecurseModuleHierarchy(fs, ItemMod(name, None), ctx) == WalkInline(file, Ahead(ctx.currentModulePath))
  {
    InlineWalkAgrees(file, ctx);
  }

  /** One step of `recurse_module_hierarchy` on `mod x;` without a loadable `<dir>/x.rs`. */
  lemma DirectoryStep(fs: FileSystem, name: Ident, ctx: FindModuleContext)
    requires CurrentModule(ctx) == Success(name)
    requires Load(fs, SiblingFilePath(ctx.currentDirectoryPath, name)).Failure?
    ensures RecurseModuleHierarchy(fs, ItemMod(name, None), ctx)
         == RecurseModRs(fs, ctx.(currentDirectoryPath := Join(ctx.currentDirectoryPath, name)))
  {
  }

  /** One step of `recurse_mod_rs`: the next identifier is declared in `<dir>/mod.rs`. */
  lemma ModRsStep(fs: FileSystem, ctx: FindModuleContext, modRs: seq<Item>, child: ItemMod)
    requires Load(fs, ModRsPath(ctx.currentDirectoryPath)) == Success(modRs)
    requires ctx.currentModulePath.position + 1 < |ctx.currentModulePath.path|
    requires FirstModNamed(modRs, ctx.currentModulePath.path[ctx.currentModulePath.position + 1]) == Some(child)
    ensures RecurseModRs(fs, ctx)
         == RecurseModuleHierarchy(fs, child, ctx.(currentModulePath := AdvanceBy(ctx.currentModulePath, 1)))
  {
    var mp := ctx.currentModulePath;
    var name := mp.path[mp.position + 1];
    FirstModuleLookup(modRs, name);
    AdvanceByCounts(mp, 1);
    var advanced := ctx.(currentModulePath := AdvanceBy(mp, 1));
    assert NextModule(ctx) == (advanced, Some(name));
    assert FindModuleFromScope(GetModulesFromItemScope(modRs), name) == Some(child);
  }

  /**
   * Inside an inline body or a sibling file: a child that is absent fails
   * with "in scope", a child declared `mod m;` fails with "in source file",
   * even when a file for it exists.
   */
  lemma InlineChildErrors(items: seq<Item>, m: Ident, rest: seq<Ident>)
    ensures FirstModNamed(items, m).None? ==>
      WalkInline(items, [m] + rest) == Failure(CouldNotFindDefinedModule(m))
    ensures FirstModNamed(items, m).Some? && FirstModNamed(items, m).value.content.None? ==>
      WalkInline(items, [m] + rest) == Failure(CouldNotFindModuleInFile(m))
  {
  }

  // ---------------------------------------------------------------------
  // Errors leaving the resolver
  // ---------------------------------------------------------------------

  /**
   * Every error leaving `find_mod_in_crate` is the core's error with exactly
   * one "source path" note (the crate directory) and exactly one "module
   * path" note (the cursor as it was given, not as far as it got); its other
   * notes and its top-level message are the core's. Successes pass through.
   */
  lemma OutgoingErrorNotes(fs: FileSystem, crateDir: Path, modulePath: ModulePath)
    ensures var core := FindModInCrateCore(fs, crateDir, modulePath);
      var r := FindModInCrate(fs, crateDir, modulePath);
      && (r.Success? <==> core.Success?)
      && (core.Success? ==> r == core)
      && (r.Failure? ==>
           && r.error.topLevelMessage == core.error.topLevelMessage
           && Notes(r.error, SOURCE_PATH) == [PathToString(crateDir)]
           && Notes(r.error, MODULE_PATH) == [Display(modulePath)]
           && forall key :: key != SOURCE_PATH && key != MODULE_PATH ==>
                Notes(r.error, key) == Notes(core.error, key))
  {
    var core := FindModInCrateCore(fs, crateDir, modulePath);
    if core.Failure? {
      assert SOURCE_PATH !in core.error.indexedMessages && MODULE_PATH !in core.error.indexedMessages;
    }
  }

  // ---------------------------------------------------------------------
  // What is read
  // ---------------------------------------------------------------------

  /** One component more keeps a path below the same directory. */
  lemma JoinStaysBelow(p: Path, component: string, dir: Path)
    requires IsUnder(p, dir)
    ensures IsUnder(Join(p, component), dir)
  {
    assert Join(p, component)[..|dir|] == p[..|dir|];
  }

  /** Below the first hop, only files below `dir` are read. */
  lemma {:induction false} HierarchyReadsBelow(fs1: FileSystem, fs2: FileSystem, dir: Path, itemMod: ItemMod, ctx: FindModuleContext)
    requires AgreeBelow(fs1, fs2, dir) && IsUnder(ctx.currentDirectoryPath, dir)
    ensures RecurseModuleHierarchy(fs1, itemMod, ctx) == RecurseModuleHierarchy(fs2, itemMod, ctx)
    decreases Remaining(ctx.currentModulePath), 1
  {
    match CurrentModule(ctx)
    case Failure(_) =>
    case Success(current) =>
      if itemMod.content.None? {
        JoinStaysBelow(ctx.currentDirectoryPath, current + RS_EXTENSION, dir);
        JoinStaysBelow(ctx.currentDirectoryPath, current, dir);
        ModRsReadsBelow(fs1, fs2, dir,
          CloneAndUpdateCurrentDirectoryPath(ctx, Join(ctx.currentDirectoryPath, current)));
      }
  }

  /** From a `mod.rs` on, only files below `dir` are read. */
  lemma {:induction false} ModRsReadsBelow(fs1: FileSystem, fs2: FileSystem, dir: Path, ctx: FindModuleContext)
    requires AgreeBelow(fs1, fs2, dir) && IsUnder(ctx.currentDirectoryPath, dir)
    ensures RecurseModRs(fs1, ctx) == RecurseModRs(fs2, ctx)
    decreases Remaining(ctx.currentModulePath), 0
  {
    JoinStaysBelow(ctx.currentDirectoryPath, MOD_RS, dir);
    match Load(fs1, ModRsPath(ctx.currentDirectoryPath))
    case Failure(_) =>
    case Success(modRs) =>
      var (advanced, next) := NextModule(ctx);
      match next
      case None =>
      case Some(nextMod) =>
        match FindModuleFromScope(GetModulesFromItemScope(modRs), nextMod)
        case None =>
        case Some(nextModule) => HierarchyReadsBelow(fs1, fs2, dir, nextModule, advanced);
  }

  /** Resolution reads nothing outside `<crate>/src`: file systems that agree there give the same answer. */
  lemma ReadsOnlyBelowSrc(fs1: FileSystem, fs2: FileSystem, crateDir: Path, modulePath: ModulePath)
    requires AgreeBelow(fs1, fs2, SrcPath(crateDir))
    ensures FindModInCrate(fs1, crateDir, modulePath) == FindModInCrate(fs2, crateDir, modulePath)
  {
    var src := SrcPath(crateDir);
    assert IsUnder(src, src);
    JoinStaysBelow(src, LIB_RS, src);
    match Load(fs1, LibPath(crateDir))
    case Failure(_) =>
    case Success(libRs) =>
      match GetCurrentModule(modulePath)
      case None =>
      case Some(first) =>
        match FindModuleFromScope(GetModulesFromItemScope(libRs), first)
        case None =>
        case Some(m) => HierarchyReadsBelow(fs1, fs2, src, m, InitialContext(crateDir, modulePath));
  }
}
