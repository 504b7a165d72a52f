/**
 * `CargoQueryError`: a one-sentence top-level message for the user plus
 * developer notes indexed by category. Notes are only ever appended.
 */
module Errors {
  import opened Wrappers
  import opened Syntax
  import opened External

  datatype CargoQueryError = CargoQueryError(
    topLevelMessage: string,
    indexedMessages: map<string, seq<string>>)

  // `message_identifier`: the note categories attached on the way out of the resolver.
  const SOURCE_PATH: string := "source path"
  const MODULE_PATH: string := "module path"

  // Note categories used by the file-error constructors.
  const FILE_ERROR: string := "file error"
  const FILE_ERROR_BACKTRACE: string := "file error backtrace"
  const CURRENT_DIRECTORY: string := "current_directory"

  const GENERIC_MESSAGE: string := "An error has occurred."
  const LIB_RS_MESSAGE: string := "Could not process `lib.rs` in src_path."
  const UNMAPPED_PATH_MESSAGE: string :=
    "Module path does not map to any known module. "
    + "Using the src_path, manually validate that the module you are looking for exists. "
    + "If it does exist, cut an issue [here]()."

  /** The notes under `key`, oldest first; none when the key is absent. */
  function Notes(e: CargoQueryError, key: string): seq<string> {
    if key in e.indexedMessages then e.indexedMessages[key] else []
  }

  /**
   * The argument of `add_messages`, a `BTreeMap<&str, String>`, as its
   * entries in iteration order.
   */
  type Messages = seq<(string, string)>

  /** The keys of the entries. */
  function KeysOf(msgs: Messages): set<string> {
    if |msgs| == 0 then {} else {msgs[0].0} + KeysOf(msgs[1..])
  }

  /** The values of the entries under `key`, in entry order. */
  function ValuesUnder(msgs: Messages, key: string): seq<string> {
    if |msgs| == 0 then []
    else (if msgs[0].0 == key then [msgs[0].1] else []) + ValuesUnder(msgs[1..], key)
  }

  /** A map's entries: no key occurs twice. */
  predicate DistinctKeys(msgs: Messages) {
    forall i, j :: 0 <= i < j < |msgs| ==> msgs[i].0 != msgs[j].0
  }

  /** `entry(key).or_insert(vec![]).push(message)`. */
  function AddNote(e: CargoQueryError, key: string, message: string): CargoQueryError {
    e.(indexedMessages := e.indexedMessages[key := Notes(e, key) + [message]])
  }

  /** One note lands at the end of its key's list and touches no other key. */
  lemma AddNoteAppends(e: CargoQueryError, key: string, message: string)
    ensures AddNote(e, key, message).topLevelMessage == e.topLevelMessage
    ensures AddNote(e, key, message).indexedMessages.Keys == e.indexedMessages.Keys + {key}
    ensures forall k {:trigger Notes(AddNote(e, key, message), k)} :: Notes(AddNote(e, key, message), k) == Notes(e, k) + (if k == key then [message] else [])
  {
  }

  /**
   * `add_messages`: every entry's message goes to the end of the list under
   * its key. The top-level message and all existing notes are kept.
   */
  function AddMessages(e: CargoQueryError, msgs: Messages): (r: CargoQueryError)
    ensures r.topLevelMessage == e.topLevelMessage
    ensures forall key {:trigger Notes(r, key)} :: Notes(r, key) == Notes(e, key) + ValuesUnder(msgs, key)
    decreases |msgs|
  {
    if |msgs| == 0 then e
    else
      AddNoteAppends(e, msgs[0].0, msgs[0].1);
      AddMessages(AddNote(e, msgs[0].0, msgs[0].1), msgs[1..])
  }

  /** `add_messages` adds exactly the entries' keys, even when a value is the empty string. */
  lemma {:induction false} AddMessagesKeys(e: CargoQueryError, msgs: Messages)
    ensures AddMessages(e, msgs).indexedMessages.Keys == e.indexedMessages.Keys + KeysOf(msgs)
    decreases |msgs|
  {
    if |msgs| > 0 {
      AddNoteAppends(e, msgs[0].0, msgs[0].1);
      AddMessagesKeys(AddNote(e, msgs[0].0, msgs[0].1), msgs[1..]);
    }
  }

  /** `generic_error`: the placeholder failure. */
  function GenericError(): (r: CargoQueryError)
    ensures r.topLevelMessage == GENERIC_MESSAGE && r.indexedMessages == map[]
  {
    CargoQueryError(GENERIC_MESSAGE, map[])
  }

  /** The error carries no notes but the loader's. */
  predicate CarriesOnlyFileNotes(e: CargoQueryError) {
    e.indexedMessages.Keys <= {FILE_ERROR, FILE_ERROR_BACKTRACE}
  }

  /** The notes both file-error constructors attach: the loader's text and its backtrace. */
  function FileErrorNotes(error: LoadError): map<string, seq<string>> {
    map[FILE_ERROR := [error.message], FILE_ERROR_BACKTRACE := [error.backtrace]]
  }

  /** `message` is `opening`, then `inner`, then `closing`, and nothing else. */
  predicate Wraps(message: string, opening: string, inner: string, closing: string) {
    var n := |opening|;
    && |message| == n + |inner| + |closing|
    && message[..n] == opening
    && message[n..n + |inner|] == inner
    && message[n + |inner|..] == closing
  }

  /** The words around the file's name in both file-error messages. */
  const FILE_ERROR_OPENING: string := "Could not process `"
  const FILE_ERROR_CLOSING: string := "` in src_path."

  /** `could_not_process_lib_rs`: the file-error message, naming `lib.rs`. */
  function CouldNotProcessLibRs(error: LoadError): (r: CargoQueryError)
    ensures r.topLevelMessage == LIB_RS_MESSAGE
    ensures Wraps(r.topLevelMessage, FILE_ERROR_OPENING, "lib.rs", FILE_ERROR_CLOSING)
    ensures r.indexedMessages.Keys == {FILE_ERROR, FILE_ERROR_BACKTRACE}
    ensures Notes(r, FILE_ERROR) == [error.message]
    ensures Notes(r, FILE_ERROR_BACKTRACE) == [error.backtrace]
  {
    assert LIB_RS_MESSAGE == FILE_ERROR_OPENING + "lib.rs" + FILE_ERROR_CLOSING;
    CargoQueryError(LIB_RS_MESSAGE, FileErrorNotes(error))
  }

  /** `could_not_process_file`: the top-level message names the file. */
  function CouldNotProcessFile(filePath: Path, error: LoadError): (r: CargoQueryError)
    ensures Wraps(r.topLevelMessage, FILE_ERROR_OPENING, PathToString(filePath), FILE_ERROR_CLOSING)
    ensures r.indexedMessages.Keys == {FILE_ERROR, FILE_ERROR_BACKTRACE}
    ensures Notes(r, FILE_ERROR) == [error.message]
    ensures Notes(r, FILE_ERROR_BACKTRACE) == [error.backtrace]
  {
    CargoQueryError("Could not process `" + PathToString(filePath) + "` in src_path.", FileErrorNotes(error))
  }

  /** The opening words of every module-not-found message, up to the module's name. */
  const MODULE_NOT_FOUND_OPENING: string := "Could not find module `"

  /** `message` quotes `name` in backticks right after the opening words, then ends with `closing`. */
  predicate QuotesModule(message: string, name: Ident, closing: string) {
    Wraps(message, MODULE_NOT_FOUND_OPENING, name, closing)
  }

  /** `could_not_find_defined_module`. */
  function CouldNotFindDefinedModule(moduleName: Ident): (r: CargoQueryError)
    ensures QuotesModule(r.topLevelMessage, moduleName, "` in scope")
    ensures r.indexedMessages == map[]
  {
    CargoQueryError("Could not find module `" + moduleName + "` in scope", map[])
  }

  /** `could_not_find_module_in_scope`: worded exactly like `could_not_find_defined_module`. */
  function CouldNotFindModuleInScope(moduleName: Ident): (r: CargoQueryError)
    ensures r == CouldNotFindDefinedModule(moduleName)
  {
    CargoQueryError("Could not find module `" + moduleName + "` in scope", map[])
  }

  /** `could_not_find_module_from_path`: one note naming the directory. */
  function CouldNotFindModuleFromPath(currentDirectory: Path): (r: CargoQueryError)
    ensures r.indexedMessages.Keys == {CURRENT_DIRECTORY}
    ensures Notes(r, CURRENT_DIRECTORY) == [PathToString(currentDirectory)]
    ensures r.topLevelMessage == CouldNotFindModule().topLevelMessage
  {
    CargoQueryError(UNMAPPED_PATH_MESSAGE, map[CURRENT_DIRECTORY := [PathToString(currentDirectory)]])
  }

  /** `could_not_find_module`. */
  function CouldNotFindModule(): (r: CargoQueryError)
    ensures r.topLevelMessage == UNMAPPED_PATH_MESSAGE
    ensures r.indexedMessages == map[]
  {
    CargoQueryError(UNMAPPED_PATH_MESSAGE, map[])
  }

  /** `could_not_find_module_in_file`. */
  function CouldNotFindModuleInFile(moduleName: Ident): (r: CargoQueryError)
    ensures QuotesModule(r.topLevelMessage, moduleName, "` in source file.")
    ensures r.indexedMessages == map[]
  {
    CargoQueryError("Could not find module `" + moduleName + "` in source file.", map[])
  }

  /**
   * `into_proc_err`: a success passes through; a failure becomes an error
   * whose top-level message is the failure's display text, with no notes.
   */
  function IntoProcErr<T>(result: Result<T, string>): (r: Result<T, CargoQueryError>)
    ensures result.Success? <==> r.Success?
    ensures result.Success? ==> r.value == result.value
    ensures result.Failure? ==> r.error.topLevelMessage == result.error && r.error.indexedMessages == map[]
  {
    match result
    case Success(v) => Success(v)
    case Failure(text) => Failure(CargoQueryError(text, map[]))
  }

  // ---------------------------------------------------------------------
  // Properties
  // ---------------------------------------------------------------------

  /** A key is among the entries' keys exactly when some entry carries it. */
  lemma {:induction false} KeysOfIndexes(msgs: Messages, key: string)
    ensures key in KeysOf(msgs) <==> exists j :: 0 <= j < |msgs| && msgs[j].0 == key
    decreases |msgs|
  {
    if |msgs| > 0 {
      KeysOfIndexes(msgs[1..], key);
      assert forall j :: 0 <= j < |msgs[1..]| ==> msgs[1..][j] == msgs[j + 1];
      if key in KeysOf(msgs[1..]) {
        var j :| 0 <= j < |msgs[1..]| && msgs[1..][j].0 == key;
        assert msgs[j + 1].0 == key;
      }
    }
  }

  /** A key with no entry collects no values. */
  lemma {:induction false} KeyWithoutEntry(msgs: Messages, key: string)
    requires key !in KeysOf(msgs)
    ensures ValuesUnder(msgs, key) == []
    decreases |msgs|
  {
    if |msgs| > 0 {
      KeyWithoutEntry(msgs[1..], key);
    }
  }

  /** The values under a key of a map's entries: exactly that key's one value. */
  lemma {:induction false} ValuesUnderDistinct(msgs: Messages, i: nat)
    requires DistinctKeys(msgs) && i < |msgs|
    ensures ValuesUnder(msgs, msgs[i].0) == [msgs[i].1]
    decreases |msgs|
  {
    var tail := msgs[1..];
    if i == 0 {
      forall j | 0 <= j < |tail| ensures tail[j].0 != msgs[0].0 {
        assert tail[j] == msgs[j + 1];
      }
      KeysOfIndexes(tail, msgs[0].0);
      KeyWithoutEntry(tail, msgs[0].0);
    } else {
      assert DistinctKeys(tail) by {
        forall a, b | 0 <= a < b < |tail| ensures tail[a].0 != tail[b].0 {
          assert tail[a] == msgs[a + 1] && tail[b] == msgs[b + 1];
        }
      }
      assert tail[i - 1] == msgs[i];
      ValuesUnderDistinct(tail, i - 1);
    }
  }

  /**
   * `add_messages` with a map: each key of the map gains exactly its one
   * message at the end of its list; every other key keeps its notes.
   */
  lemma AddMessagesFromMap(e: CargoQueryError, msgs: Messages)
    requires DistinctKeys(msgs)
    ensures AddMessages(e, msgs).topLevelMessage == e.topLevelMessage
    ensures forall i :: 0 <= i < |msgs| ==>
      Notes(AddMessages(e, msgs), msgs[i].0) == Notes(e, msgs[i].0) + [msgs[i].1]
    ensures forall key :: key !in KeysOf(msgs) ==> Notes(AddMessages(e, msgs), key) == Notes(e, key)
  {
    forall key | key !in KeysOf(msgs) ensures ValuesUnder(msgs, key) == [] {
      KeyWithoutEntry(msgs, key);
    }
    forall i | 0 <= i < |msgs| ensures ValuesUnder(msgs, msgs[i].0) == [msgs[i].1] {
      ValuesUnderDistinct(msgs, i);
    }
  }

  /** Adding two batches of notes is adding their concatenation: notes keep attachment order. */
  lemma {:induction false} AddMessagesCompose(e: CargoQueryError, first: Messages, second: Messages)
    ensures AddMessages(AddMessages(e, first), second) == AddMessages(e, first + second)
    decreases |first|
  {
    if |first| == 0 {
      assert first + second == second;
    } else {
      assert (first + second)[0] == first[0];
      assert (first + second)[1..] == first[1..] + second;
      AddMessagesCompose(AddNote(e, first[0].0, first[0].1), first[1..], second);
    }
  }

  /** Text wrapped between the same prefix and suffix can be recovered. */
  lemma WrappedTextIsInjective(prefix: string, a: string, b: string, suffix: string)
    requires prefix + a + suffix == prefix + b + suffix
    ensures a == b
  {
    var s := prefix + a + suffix;
    assert |a| == |b|;
    forall i | 0 <= i < |a| ensures a[i] == b[i] {
      assert a[i] == s[|prefix| + i];
      assert b[i] == (prefix + b + suffix)[|prefix| + i];
    }
  }

  /** The module-not-found errors name the module: different modules, different errors. */
  lemma NotFoundErrorsNameTheModule(a: Ident, b: Ident)
    ensures CouldNotFindDefinedModule(a) == CouldNotFindDefinedModule(b) <==> a == b
    ensures CouldNotFindModuleInFile(a) == CouldNotFindModuleInFile(b) <==> a == b
    ensures CouldNotFindModuleInScope(a) == CouldNotFindDefinedModule(a)
  {
    if CouldNotFindDefinedModule(a) == CouldNotFindDefinedModule(b) {
      WrappedTextIsInjective("Could not find module `", a, b, "` in scope");
    }
    if CouldNotFindModuleInFile(a) == CouldNotFindModuleInFile(b) {
      WrappedTextIsInjective("Could not find module `", a, b, "` in source file.");
    }
  }

  /** "in source file" and "in scope" errors are never confused, whatever the modules. */
  lemma InFileDiffersFromInScope(a: Ident, b: Ident)
    ensures CouldNotFindModuleInFile(a) != CouldNotFindDefinedModule(b)
  {
    var inFile := CouldNotFindModuleInFile(a).topLevelMessage;
    var inScope := CouldNotFindDefinedModule(b).topLevelMessage;
    assert inFile[|inFile| - 1] == '.';
    assert inScope[|inScope| - 1] == 'e';
  }

  /** The file error names the file: different rendered paths, different errors. */
  lemma FileErrorNamesThePath(p: Path, q: Path, e: LoadError)
    ensures CouldNotProcessFile(p, e) == CouldNotProcessFile(q, e) <==> PathToString(p) == PathToString(q)
  {
    if CouldNotProcessFile(p, e) == CouldNotProcessFile(q, e) {
      WrappedTextIsInjective("Could not process `", PathToString(p), PathToString(q), "` in src_path.");
    }
  }
}
