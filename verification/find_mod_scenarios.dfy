/**
 * The resolver on the crate layouts exercised by `find_mod.rs`'s tests,
 * for arbitrary module contents, and the three layout forms side by side.
 */
module FindModScenarios {
  import opened Wrappers
  import opened Syntax
  import opened External
  import opened ModulePaths
  import opened Errors
  import opened FindMod
  import opened FindModProperties

  /** The crate directory the tests use, `/example`. */
  const CRATE: Path := ["", "example"]

  function Src(rest: seq<string>): Path {
    ["", "example", "src"] + rest
  }

  /** Where the resolver looks for `lib.rs`, sibling files and `mod.rs` files below `/example/src`. */
  lemma LayoutPaths(name: Ident)
    ensures LibPath(CRATE) == Src(["lib.rs"])
    ensures SiblingFilePath(SrcPath(CRATE), name) == Src([name + ".rs"])
    ensures ModRsPath(Join(SrcPath(CRATE), name)) == Src([name, "mod.rs"])
  {
  }

  function InlineMod(name: Ident, body: seq<Item>): Item {
    Mod(ItemMod(name, Some(body)))
  }

  function DeclaredMod(name: Ident): Item {
    Mod(ItemMod(name, None))
  }

  /** A crate whose `lib.rs` holds `items`: the empty path yields exactly them. */
  lemma RootPath(items: seq<Item>)
    ensures FindModInCrate(map[Src(["lib.rs"]) := Success(items)], CRATE, Default()) == Success(items)
  {
    LayoutPaths("");
    EmptyPathYieldsLibRs(map[Src(["lib.rs"]) := Success(items)], CRATE, Default(), items);
  }

  /** A `lib.rs` without module items: asking for `foo` fails with the generic error and the two notes. */
  lemma NoModule(items: seq<Item>)
    requires forall i :: 0 <= i < |items| ==> !items[i].Mod?
    ensures FindModInCrate(map[Src(["lib.rs"]) := Success(items)], CRATE, New(["foo"]))
         == Failure(AddMessages(GenericError(), OutgoingNotes(CRATE, New(["foo"]))))
  {
    LayoutPaths("foo");
    FirstSegmentNotInLibRs(map[Src(["lib.rs"]) := Success(items)], CRATE, New(["foo"]), items, "foo");
  }

  /** A crate at the root directory whose `lib.rs` is missing: the notes name "/" as the crate directory. */
  lemma CrateAtRoot(fs: FileSystem, modulePath: ModulePath)
    requires LibPath(ROOT) !in fs
    ensures FindModInCrate(fs, ROOT, modulePath).Failure?
    ensures Notes(FindModInCrate(fs, ROOT, modulePath).error, SOURCE_PATH) == ["/"]
    ensures FindModInCrate(fs, ROOT, modulePath).error.topLevelMessage == LIB_RS_MESSAGE
  {
    OutgoingErrorNotes(fs, ROOT, modulePath);
  }

  /** `mod foo { A } mod bar { B }`: `foo` yields A and `bar` yields B. */
  lemma MultipleInlineModules(a: seq<Item>, b: seq<Item>)
    ensures var fs := map[Src(["lib.rs"]) := Success([InlineMod("foo", a), InlineMod("bar", b)])];
      FindModInCrate(fs, CRATE, New(["foo"])) == Success(a)
      && FindModInCrate(fs, CRATE, New(["bar"])) == Success(b)
  {
    var libRs := [InlineMod("foo", a), InlineMod("bar", b)];
    var fs := map[Src(["lib.rs"]) := Success(libRs)];
    assert libRs[1..] == [InlineMod("bar", b)];
    LayoutPaths("foo");
    InlineModuleInLibRs(fs, CRATE, "foo", [], libRs, a);
    InlineModuleInLibRs(fs, CRATE, "bar", [], libRs, b);
    assert ["foo"] + [] == ["foo"] && ["bar"] + [] == ["bar"];
  }

  /** `mod foo { mod bar { T } }`: `foo::bar` yields T. */
  lemma NestedInlineModules(t: seq<Item>)
    ensures FindModInCrate(map[Src(["lib.rs"]) := Success([InlineMod("foo", [InlineMod("bar", t)])])],
                           CRATE, New(["foo", "bar"])) == Success(t)
  {
    var libRs := [InlineMod("foo", [InlineMod("bar", t)])];
    var fs := map[Src(["lib.rs"]) := Success(libRs)];
    LayoutPaths("foo");
    InlineModuleInLibRs(fs, CRATE, "foo", ["bar"], libRs, [InlineMod("bar", t)]);
    assert ["foo"] + ["bar"] == ["foo", "bar"];
    assert ["bar"][1..] == [];
  }

  /** `mod foo;` with only `foo/mod.rs` holding T: `foo` yields T. */
  lemma ModRsModule(t: seq<Item>)
    ensures FindModInCrate(map[Src(["lib.rs"]) := Success([DeclaredMod("foo")]),
                               Src(["foo", "mod.rs"]) := Success(t)],
                           CRATE, New(["foo"])) == Success(t)
  {
    var fs := map[Src(["lib.rs"]) := Success([DeclaredMod("foo")]), Src(["foo", "mod.rs"]) := Success(t)];
    LayoutPaths("foo");
    assert "foo" + ".rs" == "foo.rs";
    DirectoryModule(fs, CRATE, "foo", [], [DeclaredMod("foo")]);
    assert ["foo"] + [] == ["foo"];
  }

  /** `mod foo;` in `lib.rs`, `mod bar;` in `foo/mod.rs`, T in `foo/bar.rs`: `foo::bar` yields T. */
  lemma ModRsThenSiblingFile(t: seq<Item>)
    ensures FindModInCrate(map[Src(["lib.rs"]) := Success([DeclaredMod("foo")]),
                               Src(["foo", "mod.rs"]) := Success([DeclaredMod("bar")]),
                               Src(["foo", "bar.rs"]) := Success(t)],
                           CRATE, New(["foo", "bar"])) == Success(t)
  {
    var fs := map[Src(["lib.rs"]) := Success([DeclaredMod("foo")]),
                  Src(["foo", "mod.rs"]) := Success([DeclaredMod("bar")]),
                  Src(["foo", "bar.rs"]) := Success(t)];
    LayoutPaths("foo");
    assert "foo" + ".rs" == "foo.rs";
    assert "bar" + ".rs" == "bar.rs";
    assert SiblingFilePath(Join(SrcPath(CRATE), "foo"), "bar") == Src(["foo", "bar.rs"]);
    DirectoryModuleChild(fs, CRATE, "foo", "bar", [], [DeclaredMod("foo")], [DeclaredMod("bar")]);
    assert ["foo", "bar"] + [] == ["foo", "bar"];
  }

  /**
   * `mod foo;` with `src/foo.rs` holding `mod bar;`: `foo::bar` fails with
   * "in source file", even though `src/foo/bar.rs` holds T. Children of a
   * sibling file must be inline.
   */
  lemma SiblingFileChildMustBeInline(t: seq<Item>)
    ensures FindModInCrate(map[Src(["lib.rs"]) := Success([DeclaredMod("foo")]),
                               Src(["foo.rs"]) := Success([DeclaredMod("bar")]),
                               Src(["foo", "bar.rs"]) := Success(t)],
                           CRATE, New(["foo", "bar"]))
         == Failure(AddMessages(CouldNotFindModuleInFile("bar"), OutgoingNotes(CRATE, New(["foo", "bar"]))))
  {
    var fs := map[Src(["lib.rs"]) := Success([DeclaredMod("foo")]),
                  Src(["foo.rs"]) := Success([DeclaredMod("bar")]),
                  Src(["foo", "bar.rs"]) := Success(t)];
    LayoutPaths("foo");
    assert "foo" + ".rs" == "foo.rs";
    SiblingFileFirst(fs, CRATE, "foo", ["bar"], [DeclaredMod("foo")], [DeclaredMod("bar")]);
    assert ["foo"] + ["bar"] == ["foo", "bar"];
    InlineChildErrors([DeclaredMod("bar")], "bar", []);
    assert ["bar"] + [] == ["bar"];
  }

  /**
   * The same body as an inline block, as a sibling file, or as a directory
   * index yields the same items (for any module name but `lib`, whose
   * sibling file would be `lib.rs` itself).
   */
  lemma LayoutFormsAgree(name: Ident, body: seq<Item>)
    requires name != "lib"
    ensures FindModInCrateCore(map[Src(["lib.rs"]) := Success([InlineMod(name, body)])],
                               CRATE, New([name])) == Success(body)
    ensures FindModInCrateCore(map[Src(["lib.rs"]) := Success([DeclaredMod(name)]),
                                   Src([name + ".rs"]) := Success(body)],
                               CRATE, New([name])) == Success(body)
    ensures FindModInCrateCore(map[Src(["lib.rs"]) := Success([DeclaredMod(name)]),
                                   Src([name, "mod.rs"]) := Success(body)],
                               CRATE, New([name])) == Success(body)
  {
    assert [name] + [] == [name];
    LayoutPaths(name);
    InlineModuleInLibRs(map[Src(["lib.rs"]) := Success([InlineMod(name, body)])],
                        CRATE, name, [], [InlineMod(name, body)], body);

    assert (name + ".rs")[..|name|] == name;
    assert "lib.rs"[..3] == "lib";
    assert name + ".rs" != "lib.rs";
    var sibling := map[Src(["lib.rs"]) := Success([DeclaredMod(name)]), Src([name + ".rs"]) := Success(body)];
    SiblingFileFirst(sibling, CRATE, name, [], [DeclaredMod(name)], body);

    var directory := map[Src(["lib.rs"]) := Success([DeclaredMod(name)]), Src([name, "mod.rs"]) := Success(body)];
    assert Src([name + ".rs"]) !in directory;
    DirectoryModule(directory, CRATE, name, [], [DeclaredMod(name)]);
  }

  /**
   * When both `src/foo.rs` and `src/foo/mod.rs` exist, `mod foo;` resolves
   * to the sibling file.
   */
  lemma SiblingFileBeatsDirectory(fromFile: seq<Item>, fromDirectory: seq<Item>)
    ensures FindModInCrate(map[Src(["lib.rs"]) := Success([DeclaredMod("foo")]),
                               Src(["foo.rs"]) := Success(fromFile),
                               Src(["foo", "mod.rs"]) := Success(fromDirectory)],
                           CRATE, New(["foo"])) == Success(fromFile)
  {
    var fs := map[Src(["lib.rs"]) := Success([DeclaredMod("foo")]),
                  Src(["foo.rs"]) := Success(fromFile),
                  Src(["foo", "mod.rs"]) := Success(fromDirectory)];
    LayoutPaths("foo");
    assert "foo" + ".rs" == "foo.rs";
    SiblingFileFirst(fs, CRATE, "foo", [], [DeclaredMod("foo")], fromFile);
    assert ["foo"] + [] == ["foo"];
  }

  /**
   * The deepest layout: `mod foo;` in `lib.rs`; `foo/mod.rs` declares
   * `mod hoop {}`, `mod bar;` and `mod baz;`; `foo/baz/mod.rs` declares
   * `mod boop;`; `foo/baz/boop.rs` holds `mod loo;`, `mod poo {}` and
   * `mod waldo { mod corge { T } }`.
   */
  function DeepCrate(t: seq<Item>): FileSystem {
    map[Src(["lib.rs"]) := Success([DeclaredMod("foo")]),
        Src(["foo", "mod.rs"]) := Success([InlineMod("hoop", []), DeclaredMod("bar"), DeclaredMod("baz")]),
        Src(["foo", "baz", "mod.rs"]) := Success([DeclaredMod("boop")]),
        Src(["foo", "baz", "boop.rs"]) := Success(BoopRs(t))]
  }

  function BoopRs(t: seq<Item>): seq<Item> {
    [DeclaredMod("loo"), InlineMod("poo", []), InlineMod("waldo", [InlineMod("corge", t)])]
  }

  const DEEP_PATH: seq<Ident> := ["foo", "baz", "boop", "waldo", "corge"]

  /** The cursor at `DEEP_PATH[i]`, resolving relative to `dir`. */
  function DeepContext(dir: Path, i: nat): FindModuleContext {
    FindModuleContext(CRATE, dir, ModulePath(DEEP_PATH, i))
  }

  /** The paths the resolver builds on its way down the deep crate. */
  lemma DeepPaths()
    ensures SiblingFilePath(Src(["foo"]), "baz") == Src(["foo", "baz.rs"])
    ensures Join(Src(["foo"]), "baz") == Src(["foo", "baz"])
    ensures ModRsPath(Src(["foo"])) == Src(["foo", "mod.rs"])
    ensures ModRsPath(Src(["foo", "baz"])) == Src(["foo", "baz", "mod.rs"])
    ensures SiblingFilePath(Src(["foo", "baz"]), "boop") == Src(["foo", "baz", "boop.rs"])
  {
    assert "baz" + ".rs" == "baz.rs";
    assert "boop" + ".rs" == "boop.rs";
  }

  /** What the deep crate's loader answers along the way. */
  lemma DeepCrateLoads(t: seq<Item>)
    ensures Load(DeepCrate(t), Src(["lib.rs"])) == Success([DeclaredMod("foo")])
    ensures Load(DeepCrate(t), Src(["foo.rs"])).Failure?
    ensures Load(DeepCrate(t), Src(["foo", "mod.rs"])) == Success([InlineMod("hoop", []), DeclaredMod("bar"), DeclaredMod("baz")])
    ensures Load(DeepCrate(t), Src(["foo", "baz.rs"])).Failure?
    ensures Load(DeepCrate(t), Src(["foo", "baz", "mod.rs"])) == Success([DeclaredMod("boop")])
    ensures Load(DeepCrate(t), Src(["foo", "baz", "boop.rs"])) == Success(BoopRs(t))
  {
    assert |Src(["foo.rs"])| == 4 && Src(["foo.rs"])[3] == "foo.rs";
    assert Src(["lib.rs"])[3] == "lib.rs";
    assert "foo.rs" != "lib.rs" by { assert "foo.rs"[0] != "lib.rs"[0]; }
    assert Src(["foo", "baz.rs"])[4] == "baz.rs";
    assert Src(["foo", "mod.rs"])[4] == "mod.rs";
    assert "baz.rs" != "mod.rs" by { assert "baz.rs"[0] != "mod.rs"[0]; }
    assert Src(["foo", "baz", "mod.rs"])[5] == "mod.rs";
    assert Src(["foo", "baz", "boop.rs"])[5] == "boop.rs";
    assert "boop.rs" != "mod.rs" by { assert "boop.rs"[0] != "mod.rs"[0]; }
  }

  /** `foo` is declared in `lib.rs` as `mod foo;`: the core hands it to `recurse_module_hierarchy` at `src`. */
  lemma DeepFoo(t: seq<Item>)
    ensures FindModInCrateCore(DeepCrate(t), CRATE, New(DEEP_PATH))
         == RecurseModuleHierarchy(DeepCrate(t), ItemMod("foo", None), DeepContext(SrcPath(CRATE), 0))
  {
    DeepCrateLoads(t);
    LayoutPaths("foo");
    FirstModuleLookup([DeclaredMod("foo")], "foo");
  }

  /** `src/foo.rs` is absent, so `foo` continues in `src/foo/mod.rs`. */
  lemma DeepFooDirectory(t: seq<Item>)
    ensures RecurseModuleHierarchy(DeepCrate(t), ItemMod("foo", None), DeepContext(SrcPath(CRATE), 0))
         == RecurseModRs(DeepCrate(t), DeepContext(Src(["foo"]), 0))
  {
    DeepCrateLoads(t);
    LayoutPaths("foo");
    assert "foo" + ".rs" == "foo.rs";
    DirectoryStep(DeepCrate(t), "foo", DeepContext(SrcPath(CRATE), 0));
    assert Join(SrcPath(CRATE), "foo") == Src(["foo"]);
  }

  /** `foo/mod.rs` declares `baz` as `mod baz;`, after `hoop` and `bar`. */
  lemma FooModRsDeclaresBaz()
    ensures FirstModNamed([InlineMod("hoop", []), DeclaredMod("bar"), DeclaredMod("baz")], "baz") == Some(ItemMod("baz", None))
  {
    var fooMod := [InlineMod("hoop", []), DeclaredMod("bar"), DeclaredMod("baz")];
    assert |"hoop"| != |"baz"|;
    assert "bar"[2] != "baz"[2];
    assert FirstModNamed(fooMod, "baz") == FirstModNamed(fooMod[1..], "baz");
    assert FirstModNamed(fooMod[1..], "baz") == FirstModNamed(fooMod[1..][1..], "baz");
    assert fooMod[1..][1..] == [DeclaredMod("baz")];
  }

  /** `baz`: declared in `foo/mod.rs`, as `mod baz;`. */
  lemma DeepBazLookup(t: seq<Item>)
    ensures RecurseModRs(DeepCrate(t), DeepContext(Src(["foo"]), 0))
         == RecurseModuleHierarchy(DeepCrate(t), ItemMod("baz", None), DeepContext(Src(["foo"]), 1))
  {
    DeepCrateLoads(t);
    DeepPaths();
    FooModRsDeclaresBaz();
    ModRsStep(DeepCrate(t), DeepContext(Src(["foo"]), 0), [InlineMod("hoop", []), DeclaredMod("bar"), DeclaredMod("baz")],
              ItemMod("baz", None));
    AdvanceByCounts(ModulePath(DEEP_PATH, 0), 1);
  }

  /** `src/foo/baz.rs` is absent, so `baz` continues in `src/foo/baz/mod.rs`. */
  lemma DeepBazDirectory(t: seq<Item>)
    ensures RecurseModuleHierarchy(DeepCrate(t), ItemMod("baz", None), DeepContext(Src(["foo"]), 1))
         == RecurseModRs(DeepCrate(t), DeepContext(Src(["foo", "baz"]), 1))
  {
    DeepCrateLoads(t);
    DeepPaths();
    DirectoryStep(DeepCrate(t), "baz", DeepContext(Src(["foo"]), 1));
  }

  /** `boop`: declared in `foo/baz/mod.rs`, as `mod boop;`. */
  lemma DeepBoopLookup(t: seq<Item>)
    ensures RecurseModRs(DeepCrate(t), DeepContext(Src(["foo", "baz"]), 1))
         == RecurseModuleHierarchy(DeepCrate(t), ItemMod("boop", None), DeepContext(Src(["foo", "baz"]), 2))
  {
    DeepCrateLoads(t);
    DeepPaths();
    ModRsStep(DeepCrate(t), DeepContext(Src(["foo", "baz"]), 1), [DeclaredMod("boop")], ItemMod("boop", None));
    AdvanceByCounts(ModulePath(DEEP_PATH, 1), 1);
  }

  /** `src/foo/baz/boop.rs` exists: `boop` is walked from its items along `waldo::corge`. */
  lemma DeepBoopFile(t: seq<Item>)
    ensures RecurseModuleHierarchy(DeepCrate(t), ItemMod("boop", None), DeepContext(Src(["foo", "baz"]), 2))
         == WalkInline(BoopRs(t), ["waldo", "corge"])
  {
    DeepCrateLoads(t);
    DeepPaths();
    SiblingFileStep(DeepCrate(t), "boop", DeepContext(Src(["foo", "baz"]), 2), BoopRs(t));
    assert DEEP_PATH[3..] == ["waldo", "corge"];
  }

  /** `waldo::corge`: inline blocks inside `boop.rs`. */
  lemma DeepWaldoCorge(t: seq<Item>)
    ensures WalkInline(BoopRs(t), ["waldo", "corge"]) == Success(t)
  {
    assert FirstModNamed(BoopRs(t), "waldo") == Some(ItemMod("waldo", Some([InlineMod("corge", t)]))) by {
      var boop := BoopRs(t);
      assert |"loo"| != |"waldo"| && |"poo"| != |"waldo"|;
      assert FirstModNamed(boop, "waldo") == FirstModNamed(boop[1..], "waldo");
      assert FirstModNamed(boop[1..], "waldo") == FirstModNamed(boop[1..][1..], "waldo");
      assert boop[1..][1..] == [InlineMod("waldo", [InlineMod("corge", t)])];
    }
    assert WalkInline(BoopRs(t), ["waldo", "corge"]) == WalkInline([InlineMod("corge", t)], ["corge"]) by {
      assert ["waldo", "corge"][1..] == ["corge"];
    }
    assert WalkInline([InlineMod("corge", t)], ["corge"]) == WalkInline(t, []) by {
      assert ["corge"][1..] == [];
    }
  }

  /** `foo::baz::boop::waldo::corge` in `DeepCrate(t)` yields T. */
  lemma DeeplyNestedModules(t: seq<Item>)
    ensures FindModInCrate(DeepCrate(t), CRATE, New(DEEP_PATH)) == Success(t)
  {
    DeepFoo(t);
    DeepFooDirectory(t);
    DeepBazLookup(t);
    DeepBazDirectory(t);
    DeepBoopLookup(t);
    DeepBoopFile(t);
    DeepWaldoCorge(t);
  }
}
