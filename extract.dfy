/**
 * The save path, `processCanvasData`: every `src` string that starts with
 * `data:image/` is stored once under its content-addressed name and replaced
 * by a reference path. The specification functions fold over arrays and
 * objects from left to right, the way the `for` loops visit them; the methods
 * below are proved to compute exactly what they describe.
 */
module Extract {
  import opened Wrappers
  import opened Json
  import opened Images
  import opened Storage

  /** What a save step yields: its outcome, the directory afterwards, and the names it wrote, in order. */
  datatype Saved<T> = Saved(result: Result<T, SaveError>, files: Files, writes: seq<string>)

  // ---------------------------------------------------------------------------
  // Specification
  // ---------------------------------------------------------------------------

  /**
   * One inline image (the branch at lines 33-52): parse it, write the decoded
   * payload under its content-addressed name only when that name is absent,
   * and produce the reference path.
   */
  function SaveImage(v: string, sc: Scope, c: Codec, files: Files): (s: Saved<string>)
    requires IsInline(v)
    ensures s.result.Ok? <==> ParseInline(v).Ok?
    ensures s.result.Err? ==> s.files == files && s.writes == []
    ensures s.result.Ok? ==> ImageFile(c, ParseInline(v).value) in s.files
    ensures WriteOnce(files, s.files, s.writes)
  {
    match ParseInline(v)
    case Err(e) => Saved(Err(e), files, [])
    case Ok(img) =>
      var name := ImageFile(c, img);
      if name in files then Saved(Ok(ReferenceTo(sc, name)), files, [])
      else Saved(Ok(ReferenceTo(sc, name)), files[name := c.base64Decode(img.payload)], [name])
  }

  function SaveTree(t: Tree, sc: Scope, c: Codec, files: Files): Saved<Tree>
    decreases t
  {
    match t
    case Arr(items) =>
      var s := SaveItems(items, sc, c, files);
      Saved(if s.result.Ok? then Ok(Arr(s.result.value)) else Err(s.result.error), s.files, s.writes)
    case Obj(fields) =>
      var s := SaveFields(fields, sc, c, files);
      Saved(if s.result.Ok? then Ok(Obj(s.result.value)) else Err(s.result.error), s.files, s.writes)
    case _ => Saved(Ok(t), files, [])
  }

  /** The array loop: elements in order; the first failure ends the walk. */
  function SaveItems(items: seq<Tree>, sc: Scope, c: Codec, files: Files): Saved<seq<Tree>>
    decreases items
  {
    if items == [] then Saved(Ok([]), files, [])
    else
      var done := SaveItems(items[..|items| - 1], sc, c, files);
      if done.result.Err? then done
      else
        var last := SaveTree(items[|items| - 1], sc, c, done.files);
        Saved(if last.result.Ok? then Ok(done.result.value + [last.result.value]) else Err(last.result.error),
              last.files, done.writes + last.writes)
  }

  /** The object loop: members in enumeration order; the first failure ends the walk. */
  function SaveFields(fields: seq<Member>, sc: Scope, c: Codec, files: Files): Saved<seq<Member>>
    decreases fields
  {
    if fields == [] then Saved(Ok([]), files, [])
    else
      var done := SaveFields(fields[..|fields| - 1], sc, c, files);
      if done.result.Err? then done
      else
        var last := SaveMember(fields[|fields| - 1], sc, c, done.files);
        Saved(if last.result.Ok? then Ok(done.result.value + [last.result.value]) else Err(last.result.error),
              last.files, done.writes + last.writes)
  }

  /** One member: an inline `src` string is extracted; any other value is descended into. */
  function SaveMember(m: Member, sc: Scope, c: Codec, files: Files): Saved<Member>
    decreases m
  {
    if IsSrcString(m) && IsInline(m.value.text) then
      var s := SaveImage(m.value.text, sc, c, files);
      Saved(if s.result.Ok? then Ok(Member(m.key, Str(s.result.value))) else Err(s.result.error), s.files, s.writes)
    else
      var s := SaveTree(m.value, sc, c, files);
      Saved(if s.result.Ok? then Ok(Member(m.key, s.result.value)) else Err(s.result.error), s.files, s.writes)
  }

  // ---------------------------------------------------------------------------
  // Independent descriptions of the outcome
  // ---------------------------------------------------------------------------

  /** What an inline `src` string becomes: the reference to its content-addressed file. */
  function StoredReference(sc: Scope, c: Codec, v: string): string {
    if IsInline(v) && ParseInline(v).Ok? then ReferenceTo(sc, ImageFile(c, ParseInline(v).value)) else v
  }

  function ReferenceFor(sc: Scope, c: Codec): string -> string {
    v => StoredReference(sc, c, v)
  }

  /** Every inline image among `vs` has both a MIME type and a payload. */
  ghost predicate WellFormed(vs: set<string>) {
    forall v :: v in vs && IsInline(v) ==> ParseInline(v).Ok?
  }

  /** The content-addressed names of the well-formed inline images among `vs`. */
  ghost function NamesOf(c: Codec, vs: set<string>): set<string> {
    set v | v in vs && IsInline(v) && ParseInline(v).Ok? :: ImageFile(c, ParseInline(v).value)
  }

  /**
   * The write-once policy between two directory states: nothing that was there
   * changes, no name is written twice, only absent names are written, and the
   * writes are the only new files.
   */
  ghost predicate WriteOnce(before: Files, after: Files, writes: seq<string>) {
    && (forall n :: n in before ==> n in after && after[n] == before[n])
    && (forall i, j :: 0 <= i < j < |writes| ==> writes[i] != writes[j])
    && (forall i :: 0 <= i < |writes| ==> writes[i] !in before)
    && after.Keys == before.Keys + (set w | w in writes)
  }

  /** Every stored file named after a well-formed inline image of `vs` holds that image's decoded payload. */
  ghost predicate Agrees(c: Codec, files: Files, vs: set<string>) {
    forall v :: v in vs && IsInline(v) && ParseInline(v).Ok? && ImageFile(c, ParseInline(v).value) in files ==>
      files[ImageFile(c, ParseInline(v).value)] == c.base64Decode(ParseInline(v).value.payload)
  }

  /** No two inline images of `vs` with different payload text get the same file name. */
  ghost predicate CollisionFree(c: Codec, vs: set<string>) {
    forall v, u ::
      v in vs && u in vs && IsInline(v) && IsInline(u) && ParseInline(v).Ok? && ParseInline(u).Ok? &&
      ImageFile(c, ParseInline(v).value) == ImageFile(c, ParseInline(u).value) ==>
        ParseInline(v).value.payload == ParseInline(u).value.payload
  }

  // ---------------------------------------------------------------------------
  // The walk as the source runs it
  // ---------------------------------------------------------------------------

  /** Lines 35-52 for one `src` value. */
  method ExtractImage(v: string, sc: Scope, c: Codec, store: ImageStore) returns (r: Result<string, SaveError>)
    requires IsInline(v)
    modifies store
    ensures var s := SaveImage(v, sc, c, old(store.files));
      r == s.result && store.files == s.files && store.log == old(store.log) + s.writes
  {
    var parsed := ParseInline(v);
    if parsed.Err? {
      return Err(parsed.error);
    }
    var name := ImageFile(c, parsed.value);
    var present := store.Exists(name);
    if !present {
      store.Write(name, c.base64Decode(parsed.value.payload));
    }
    r := Ok(ReferenceTo(sc, name));
  }

  /** `processShapes`: the recursive walk over the copy, writing images as it meets them. */
  method ProcessShapes(t: Tree, sc: Scope, c: Codec, store: ImageStore) returns (r: Result<Tree, SaveError>)
    modifies store
    ensures var s := SaveTree(t, sc, c, old(store.files));
      r == s.result && store.files == s.files && store.log == old(store.log) + s.writes
    decreases t
  {
    match t {
      case Arr(items) =>
        var out := ProcessItems(items, sc, c, store);
        r := if out.Ok? then Ok(Arr(out.value)) else Err(out.error);
      case Obj(fields) =>
        var out := ProcessFields(fields, sc, c, store);
        r := if out.Ok? then Ok(Obj(out.value)) else Err(out.error);
      case _ =>
        r := Ok(t);
    }
  }

  /** The array branch of `processShapes` (lines 27-30). */
  method ProcessItems(items: seq<Tree>, sc: Scope, c: Codec, store: ImageStore) returns (r: Result<seq<Tree>, SaveError>)
    modifies store
    ensures var s := SaveItems(items, sc, c, old(store.files));
      r == s.result && store.files == s.files && store.log == old(store.log) + s.writes
    decreases items
  {
    var done: seq<Tree> := [];
    for i := 0 to |items|
      invariant var s := SaveItems(items[..i], sc, c, old(store.files));
        s.result == Ok(done) && store.files == s.files && store.log == old(store.log) + s.writes
    {
      assert items[..i + 1][..i] == items[..i];
      var item := ProcessShapes(items[i], sc, c, store);
      if item.Err? {
        SaveItemsStopsAtFailure(items, i + 1, sc, c, old(store.files));
        return Err(item.error);
      }
      done := done + [item.value];
    }
    assert items[..|items|] == items;
    r := Ok(done);
  }

  /** The object branch of `processShapes` (lines 31-56). */
  method ProcessFields(fields: seq<Member>, sc: Scope, c: Codec, store: ImageStore) returns (r: Result<seq<Member>, SaveError>)
    modifies store
    ensures var s := SaveFields(fields, sc, c, old(store.files));
      r == s.result && store.files == s.files && store.log == old(store.log) + s.writes
    decreases fields
  {
    var done: seq<Member> := [];
    for i := 0 to |fields|
      invariant var s := SaveFields(fields[..i], sc, c, old(store.files));
        s.result == Ok(done) && store.files == s.files && store.log == old(store.log) + s.writes
    {
      assert fields[..i + 1][..i] == fields[..i];
      var m := ProcessMember(fields[i], sc, c, store);
      if m.Err? {
        SaveFieldsStopsAtFailure(fields, i + 1, sc, c, old(store.files));
        return Err(m.error);
      }
      done := done + [m.value];
    }
    assert fields[..|fields|] == fields;
    r := Ok(done);
  }

  /** The body of the key loop (lines 33-55) for one member. */
  method ProcessMember(m: Member, sc: Scope, c: Codec, store: ImageStore) returns (r: Result<Member, SaveError>)
    modifies store
    ensures var s := SaveMember(m, sc, c, old(store.files));
      r == s.result && store.files == s.files && store.log == old(store.log) + s.writes
    decreases m
  {
    if IsSrcString(m) && IsInline(m.value.text) {
      var ref := ExtractImage(m.value.text, sc, c, store);
      r := if ref.Ok? then Ok(Member(m.key, Str(ref.value))) else Err(ref.error);
    } else {
      var value := ProcessShapes(m.value, sc, c, store);
      r := if value.Ok? then Ok(Member(m.key, value.value)) else Err(value.error);
    }
  }

  /** `processCanvasData`: a non-container is returned as it is; otherwise the copy is walked. */
  method ProcessCanvasData(t: Tree, sc: Scope, c: Codec, store: ImageStore) returns (r: Result<Tree, SaveError>)
    modifies store
    ensures !IsContainer(t) ==> r == Ok(t) && store.files == old(store.files) && store.log == old(store.log)
    ensures var s := SaveTree(t, sc, c, old(store.files));
      r == s.result && store.files == s.files && store.log == old(store.log) + s.writes
  {
    if !IsContainer(t) {
      return Ok(t);
    }
    r := ProcessShapes(t, sc, c, store);
  }

  // ---------------------------------------------------------------------------
  // A failure ends the walk
  // ---------------------------------------------------------------------------

  lemma {:induction false} SaveItemsStopsAtFailure(items: seq<Tree>, k: nat, sc: Scope, c: Codec, files: Files)
    requires k <= |items|
    requires SaveItems(items[..k], sc, c, files).result.Err?
    ensures SaveItems(items, sc, c, files) == SaveItems(items[..k], sc, c, files)
    decreases |items|
  {
    if k < |items| {
      var prefix := items[..|items| - 1];
      assert prefix[..k] == items[..k];
      SaveItemsStopsAtFailure(prefix, k, sc, c, files);
    } else {
      assert items[..k] == items;
    }
  }

  lemma {:induction false} SaveFieldsStopsAtFailure(fields: seq<Member>, k: nat, sc: Scope, c: Codec, files: Files)
    requires k <= |fields|
    requires SaveFields(fields[..k], sc, c, files).result.Err?
    ensures SaveFields(fields, sc, c, files) == SaveFields(fields[..k], sc, c, files)
    decreases |fields|
  {
    if k < |fields| {
      var prefix := fields[..|fields| - 1];
      assert prefix[..k] == fields[..k];
      SaveFieldsStopsAtFailure(prefix, k, sc, c, files);
    } else {
      assert fields[..k] == fields;
    }
  }
}
