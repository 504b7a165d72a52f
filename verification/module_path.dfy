/**
 * `ModulePath`: the cursor over a `a::b::c` path that the resolver advances
 * one segment per hop. The Rust value is cloned, never shared, so a value
 * type captures its copy-on-write behaviour: a clone's position and segments
 * can never be changed through the original, nor the original's through it.
 */
module ModulePaths {
  import opened Wrappers
  import opened Syntax

  /**
   * The identifiers of the path and the index of the current one. `position`
   * is not bounded by `|path|`: `next` keeps incrementing it past the end.
   */
  datatype ModulePath = ModulePath(path: seq<Ident>, position: nat)

  /** `ModulePath::new`: the cursor starts on the first identifier. */
  function New(path: seq<Ident>): (r: ModulePath)
    ensures r.path == path && r.position == 0
    ensures GetCurrentModule(r) == if |path| > 0 then Some(path[0]) else None
  {
    ModulePath(path, 0)
  }

  /** The identifiers of a `syn::Path`'s segments, in order. */
  function Idents(segments: seq<PathSegment>): (r: seq<Ident>)
    ensures |r| == |segments|
    ensures forall i :: 0 <= i < |segments| ==> r[i] == segments[i].ident
  {
    if |segments| == 0 then [] else [segments[0].ident] + Idents(segments[1..])
  }

  /** `From<syn::Path>`: one identifier per segment, arguments and leading `::` dropped. */
  function FromSynPath(p: SynPath): (r: ModulePath)
    ensures |r.path| == |p.segments| && r.position == 0
    ensures forall i :: 0 <= i < |p.segments| ==> r.path[i] == p.segments[i].ident
  {
    New(Idents(p.segments))
  }

  /** `Default`: the empty path, already exhausted. */
  function Default(): (r: ModulePath)
    ensures r.path == [] && GetPosition(r) == 0
    ensures GetCurrentModule(r) == None
    ensures Display(r) == ""
  {
    ModulePath([], 0)
  }

  /** `get_current_module`: the identifier at `position`, if there is one. */
  function GetCurrentModule(mp: ModulePath): (r: Option<Ident>)
    ensures r.Some? <==> mp.position < |mp.path|
    ensures r.Some? ==> r.value == mp.path[mp.position]
  {
    if mp.position < |mp.path| then Some(mp.path[mp.position]) else None
  }

  /** `Iterator::next`: advance first, then read the new current identifier. */
  function Next(mp: ModulePath): (r: (ModulePath, Option<Ident>))
    ensures r.0.path == mp.path && r.0.position == mp.position + 1
    ensures r.1 == GetCurrentModule(r.0)
  {
    var advanced := ModulePath(mp.path, mp.position + 1);
    (advanced, GetCurrentModule(advanced))
  }

  /** `get_position`: the index of the current identifier, which exists only below the length. */
  function GetPosition(mp: ModulePath): (r: nat)
    ensures GetCurrentModule(mp).Some? <==> r < |mp.path|
    ensures GetCurrentModule(mp).Some? ==> GetCurrentModule(mp).value == mp.path[r]
  {
    mp.position
  }

  /** The cursor after `n` calls of `next`. */
  function AdvanceBy(mp: ModulePath, n: nat): ModulePath
    decreases n
  {
    if n == 0 then mp else AdvanceBy(Next(mp).0, n - 1)
  }

  /** Segments still ahead of the cursor, counting the current one: the resolver's termination measure. */
  function Remaining(mp: ModulePath): nat {
    if mp.position < |mp.path| then |mp.path| - mp.position else 0
  }

  /**
   * `clone_and_overwrite`: a copy whose current identifier is replaced.
   * Indexing `path[position]` panics past the end, hence the precondition.
   */
  function CloneAndOverwrite(mp: ModulePath, value: Ident): (r: ModulePath)
    requires mp.position < |mp.path|
    ensures |r.path| == |mp.path| && r.position == mp.position
    ensures r.path[mp.position] == value
    ensures forall i :: 0 <= i < |mp.path| && i != mp.position ==> r.path[i] == mp.path[i]
  {
    ModulePath(mp.path[mp.position := value], mp.position)
  }

  /**
   * `clone_and_insert`: a copy with `value` inserted at the current position.
   * `Vec::insert` panics when the index exceeds the length.
   */
  function CloneAndInsert(mp: ModulePath, value: Ident): (r: ModulePath)
    requires mp.position <= |mp.path|
    ensures |r.path| == |mp.path| + 1 && r.position == mp.position
    ensures r.path[mp.position] == value
    ensures forall i :: 0 <= i < mp.position ==> r.path[i] == mp.path[i]
    ensures forall i :: mp.position <= i < |mp.path| ==> r.path[i + 1] == mp.path[i]
  {
    ModulePath(mp.path[..mp.position] + [value] + mp.path[mp.position..], mp.position)
  }

  /**
   * `Display`: the identifiers from `position` on; each is preceded by `::`
   * unless it is the identifier at absolute index 0.
   */
  function Display(mp: ModulePath): (r: string)
    ensures mp.position == 0 ==> r == JoinSegments(mp.path)
    ensures 0 < mp.position < |mp.path| ==> r == "::" + JoinSegments(mp.path[mp.position..])
    ensures mp.position >= |mp.path| ==> r == ""
  {
    DisplayRendersRemainder(mp.path, mp.position);
    DisplayFrom(mp.path, mp.position)
  }

  function DisplayFrom(path: seq<Ident>, i: nat): string
    decreases |path| - i
  {
    if i >= |path| then ""
    else (if i == 0 then path[0] else "::" + path[i]) + DisplayFrom(path, i + 1)
  }

  /** Reference rendering: identifiers separated by `::` (`segments.join("::")`). */
  function JoinSegments(s: seq<Ident>): string {
    if |s| == 0 then "" else s[0] + SeparatedTail(s[1..])
  }

  /** Each identifier preceded by `::`. */
  function SeparatedTail(s: seq<Ident>): string {
    if |s| == 0 then "" else "::" + s[0] + SeparatedTail(s[1..])
  }

  // ---------------------------------------------------------------------
  // Properties
  // ---------------------------------------------------------------------

  /** `get_position` counts the calls of `next`; the identifiers never change. */
  lemma {:induction false} AdvanceByCounts(mp: ModulePath, n: nat)
    ensures AdvanceBy(mp, n) == ModulePath(mp.path, mp.position + n)
    ensures GetPosition(AdvanceBy(mp, n)) == GetPosition(mp) + n
    decreases n
  {
    if n > 0 {
      AdvanceByCounts(Next(mp).0, n - 1);
    }
  }

  /**
   * A fresh path yields its identifiers in order, one per `next`, and None
   * from its length on, for ever.
   */
  lemma NewWalksInOrder(s: seq<Ident>, n: nat)
    ensures GetPosition(AdvanceBy(New(s), n)) == n
    ensures n < |s| ==> GetCurrentModule(AdvanceBy(New(s), n)) == Some(s[n])
    ensures n >= |s| ==> GetCurrentModule(AdvanceBy(New(s), n)) == None
    ensures n + 1 >= |s| ==> Next(AdvanceBy(New(s), n)).1 == None
  {
    AdvanceByCounts(New(s), n);
  }

  /** Once past the end, `next` keeps returning None and keeps counting. */
  lemma ExhaustedStaysExhausted(mp: ModulePath, n: nat)
    requires GetCurrentModule(mp) == None
    ensures GetCurrentModule(AdvanceBy(mp, n)) == None
    ensures GetPosition(AdvanceBy(mp, n)) == GetPosition(mp) + n
  {
    AdvanceByCounts(mp, n);
  }

  /**
   * An overwritten clone reads the new identifier now and exactly the
   * original's identifiers after any number of further `next` calls.
   */
  lemma OverwriteDiffersOnlyAtCurrent(mp: ModulePath, value: Ident, k: nat)
    requires mp.position < |mp.path|
    ensures GetCurrentModule(CloneAndOverwrite(mp, value)) == Some(value)
    ensures k >= 1 ==>
      GetCurrentModule(AdvanceBy(CloneAndOverwrite(mp, value), k)) == GetCurrentModule(AdvanceBy(mp, k))
    ensures GetPosition(AdvanceBy(CloneAndOverwrite(mp, value), k)) == GetPosition(AdvanceBy(mp, k))
  {
    AdvanceByCounts(mp, k);
    AdvanceByCounts(CloneAndOverwrite(mp, value), k);
  }

  /**
   * An inserted clone reads the inserted identifier first and then, one
   * `next` later than the original, every identifier the original reads.
   */
  lemma InsertShiftsRight(mp: ModulePath, value: Ident, k: nat)
    requires mp.position <= |mp.path|
    ensures GetCurrentModule(CloneAndInsert(mp, value)) == Some(value)
    ensures GetCurrentModule(AdvanceBy(CloneAndInsert(mp, value), k + 1)) == GetCurrentModule(AdvanceBy(mp, k))
  {
    AdvanceByCounts(mp, k);
    AdvanceByCounts(CloneAndInsert(mp, value), k + 1);
  }

  /** Past the start, `Display` is the `::`-joined identifiers from index `i` on, each with a leading `::`. */
  lemma {:induction false} DisplayFromIsSeparatedTail(path: seq<Ident>, i: nat)
    requires 0 < i <= |path|
    ensures DisplayFrom(path, i) == SeparatedTail(path[i..])
    decreases |path| - i
  {
    if i < |path| {
      DisplayFromIsSeparatedTail(path, i + 1);
      assert path[i..][1..] == path[i + 1..];
    }
  }

  /** Rendering from index 0 joins all the identifiers with `::`. */
  lemma DisplayFromStart(path: seq<Ident>)
    requires 0 < |path|
    ensures DisplayFrom(path, 0) == JoinSegments(path)
  {
    DisplayFromIsSeparatedTail(path, 1);
    assert DisplayFrom(path, 0) == path[0] + DisplayFrom(path, 1);
  }

  /** Rendering from inside the path puts `::` before the joined rest. */
  lemma DisplayFromInside(path: seq<Ident>, pos: nat)
    requires 0 < pos < |path|
    ensures DisplayFrom(path, pos) == "::" + JoinSegments(path[pos..])
  {
    var rest := path[pos..];
    assert rest[1..] == path[pos + 1..];
    var tail := SeparatedTail(path[pos + 1..]);
    DisplayFromIsSeparatedTail(path, pos + 1);
    assert DisplayFrom(path, pos) == "::" + path[pos] + tail;
    assert JoinSegments(rest) == path[pos] + tail;
  }

  /**
   * `Display` renders the identifiers not yet consumed, joined by `::`; a
   * cursor that has moved off index 0 renders with a leading `::`.
   */
  lemma DisplayRendersRemainder(path: seq<Ident>, pos: nat)
    ensures pos == 0 ==> DisplayFrom(path, pos) == JoinSegments(path)
    ensures 0 < pos < |path| ==> DisplayFrom(path, pos) == "::" + JoinSegments(path[pos..])
    ensures pos >= |path| ==> DisplayFrom(path, pos) == ""
  {
    if pos == 0 && 0 < |path| {
      DisplayFromStart(path);
    } else if 0 < pos < |path| {
      DisplayFromInside(path, pos);
    }
  }

  /** `From<syn::Path>` keeps the identifiers in order and starts at the first. */
  lemma FromSynPathStartsAtFirst(p: SynPath)
    ensures GetPosition(FromSynPath(p)) == 0
    ensures |p.segments| > 0 ==> GetCurrentModule(FromSynPath(p)) == Some(p.segments[0].ident)
    ensures Display(FromSynPath(p)) == JoinSegments(FromSynPath(p).path)
  {
  }
}
