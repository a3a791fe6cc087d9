/**
 * The load path, `loadCanvasData`: every `src` string that starts with the
 * scope's reference prefix is replaced by a data URL built from the stored
 * file. A file that cannot be read leaves the reference as it is; the walk
 * goes on and the reference is reported in `failures` (the source logs it).
 */
module Inliner {
  import opened Json
  import opened Text
  import opened Images
  import opened Storage

  /** What a load step yields: its value and the references it could not resolve, in walk order. */
  datatype Loaded<T> = Loaded(value: T, failures: seq<string>)

  // ---------------------------------------------------------------------------
  // Specification
  // ---------------------------------------------------------------------------

  /** The `try` block at lines 78-87 for one reference `v`. */
  function ResolveReference(v: string, c: Codec, files: Files): Loaded<string> {
    var name := Basename(v);
    if Readable(files, name) then Loaded(InlineFor(c, name, files[name]), []) else Loaded(v, [v])
  }

  function InlineTree(t: Tree, sc: Scope, c: Codec, files: Files): Loaded<Tree>
    decreases t
  {
    match t
    case Arr(items) =>
      var l := InlineItems(items, sc, c, files);
      Loaded(Arr(l.value), l.failures)
    case Obj(fields) =>
      var l := InlineFields(fields, sc, c, files);
      Loaded(Obj(l.value), l.failures)
    case _ => Loaded(t, [])
  }

  function InlineItems(items: seq<Tree>, sc: Scope, c: Codec, files: Files): Loaded<seq<Tree>>
    decreases items
  {
    if items == [] then Loaded([], [])
    else
      var done := InlineItems(items[..|items| - 1], sc, c, files);
      var last := InlineTree(items[|items| - 1], sc, c, files);
      Loaded(done.value + [last.value], done.failures + last.failures)
  }

  function InlineFields(fields: seq<Member>, sc: Scope, c: Codec, files: Files): Loaded<seq<Member>>
    decreases fields
  {
    if fields == [] then Loaded([], [])
    else
      var done := InlineFields(fields[..|fields| - 1], sc, c, files);
      var last := InlineMember(fields[|fields| - 1], sc, c, files);
      Loaded(done.value + [last.value], done.failures + last.failures)
  }

  function InlineMember(m: Member, sc: Scope, c: Codec, files: Files): Loaded<Member>
    decreases m
  {
    if IsSrcString(m) && IsReference(sc, m.value.text) then
      var r := ResolveReference(m.value.text, c, files);
      Loaded(Member(m.key, Str(r.value)), r.failures)
    else
      var l := InlineTree(m.value, sc, c, files);
      Loaded(Member(m.key, l.value), l.failures)
  }

  // ---------------------------------------------------------------------------
  // Independent descriptions of the outcome
  // ---------------------------------------------------------------------------

  function InScope(sc: Scope): string -> bool {
    v => IsReference(sc, v)
  }

  /** What a reference becomes: the data URL of its file when that file exists, else itself. */
  function ResolverFor(c: Codec, files: Files): string -> string {
    v => ResolveReference(v, c, files).value
  }

  /**
   * `f` rewrites every string as `ResolveReference` does. The properties of the
   * walk are stated for any such `f`, which keeps the proofs about the tree
   * apart from the path and encoding details of a single reference.
   */
  ghost predicate Resolves(f: string -> string, c: Codec, files: Files) {
    forall v :: f(v) == ResolveReference(v, c, files).value
  }

  /** The references into the scope among `vs` whose file cannot be read. */
  ghost function Unresolved(sc: Scope, files: Files, vs: set<string>): set<string> {
    set v | v in vs && IsReference(sc, v) && !Readable(files, Basename(v))
  }

  // ---------------------------------------------------------------------------
  // The walk as the source runs it
  // ---------------------------------------------------------------------------

  /** Lines 78-87: read the named file and inline it, or keep the reference. */
  method LoadImage(v: string, c: Codec, store: ImageStore) returns (r: Loaded<string>)
    ensures r == ResolveReference(v, c, store.files)
  {
    var name := Basename(v);
    var data := store.Read(name);
    if data.Some? {
      r := Loaded(InlineFor(c, name, data.value), []);
    } else {
      r := Loaded(v, [v]);
    }
  }

  /** `loadShapes`: the recursive walk over the copy. */
  method LoadShapes(t: Tree, sc: Scope, c: Codec, store: ImageStore) returns (r: Loaded<Tree>)
    ensures r == InlineTree(t, sc, c, store.files)
    decreases t
  {
    match t {
      case Arr(items) =>
        var l := LoadItems(items, sc, c, store);
        r := Loaded(Arr(l.value), l.failures);
      case Obj(fields) =>
        var l := LoadFields(fields, sc, c, store);
        r := Loaded(Obj(l.value), l.failures);
      case _ =>
        r := Loaded(t, []);
    }
  }

  /** The array branch of `loadShapes` (lines 71-74). */
  method LoadItems(items: seq<Tree>, sc: Scope, c: Codec, store: ImageStore) returns (r: Loaded<seq<Tree>>)
    ensures r == InlineItems(items, sc, c, store.files)
    decreases items
  {
    var done: seq<Tree> := [];
    var failures: seq<string> := [];
    for i := 0 to |items|
      invariant InlineItems(items[..i], sc, c, store.files) == Loaded(done, failures)
    {
      assert items[..i + 1][..i] == items[..i];
      var item := LoadShapes(items[i], sc, c, store);
      done := done + [item.value];
      failures := failures + item.failures;
    }
    assert items[..|items|] == items;
    r := Loaded(done, failures);
  }

  /** The object branch of `loadShapes` (lines 75-91). */
  method LoadFields(fields: seq<Member>, sc: Scope, c: Codec, store: ImageStore) returns (r: Loaded<seq<Member>>)
    ensures r == InlineFields(fields, sc, c, store.files)
    decreases fields
  {
    var done: seq<Member> := [];
    var failures: seq<string> := [];
    for i := 0 to |fields|
      invariant InlineFields(fields[..i], sc, c, store.files) == Loaded(done, failures)
    {
      assert fields[..i + 1][..i] == fields[..i];
      var m := LoadMember(fields[i], sc, c, store);
      done := done + [m.value];
      failures := failures + m.failures;
    }
    assert fields[..|fields|] == fields;
    r := Loaded(done, failures);
  }

  /** The body of the key loop (lines 77-90) for one member. */
  method LoadMember(m: Member, sc: Scope, c: Codec, store: ImageStore) returns (r: Loaded<Member>)
    ensures r == InlineMember(m, sc, c, store.files)
    decreases m
  {
    if IsSrcString(m) && IsReference(sc, m.value.text) {
      var img := LoadImage(m.value.text, c, store);
      r := Loaded(Member(m.key, Str(img.value)), img.failures);
    } else {
      var l := LoadShapes(m.value, sc, c, store);
      r := Loaded(Member(m.key, l.value), l.failures);
    }
  }

  /** `loadCanvasData`: a non-container is returned as it is; otherwise the copy is walked. */
  method LoadCanvasData(t: Tree, sc: Scope, c: Codec, store: ImageStore) returns (r: Loaded<Tree>)
    ensures !IsContainer(t) ==> r == Loaded(t, [])
    ensures r == InlineTree(t, sc, c, store.files)
  {
    if !IsContainer(t) {
      return Loaded(t, []);
    }
    r := LoadShapes(t, sc, c, store);
  }
}
