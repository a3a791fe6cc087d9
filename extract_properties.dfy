/**
 * What the save path promises, proved about its specification functions:
 * the output tree, when the call fails, the write-once policy of the store,
 * what the stored files hold, and that a repeated save writes nothing.
 */
module ExtractProperties {
  import opened Json
  import opened Images
  import opened Extract

  // ---------------------------------------------------------------------------
  // The output tree and the failure condition
  // ---------------------------------------------------------------------------

  /**
   * A save succeeds exactly when every inline image has a MIME type and a
   * payload, and then its output is the input with each inline `src` string
   * replaced by its reference path and everything else kept in place.
   */
  lemma {:induction false} SaveTreeOutcome(t: Tree, sc: Scope, c: Codec, files: Files)
    ensures var s := SaveTree(t, sc, c, files);
      && (s.result.Ok? <==> WellFormed(SrcSet(t)))
      && (s.result.Ok? ==> s.result.value == MapSrc(t, IsInline, ReferenceFor(sc, c)))
    decreases t
  {
    match t
    case Arr(items) => SaveItemsOutcome(items, sc, c, files);
    case Obj(fields) => SaveFieldsOutcome(fields, sc, c, files);
    case _ =>
  }

  lemma {:induction false} SaveItemsOutcome(items: seq<Tree>, sc: Scope, c: Codec, files: Files)
    ensures var s := SaveItems(items, sc, c, files);
      && (s.result.Ok? <==> WellFormed(ItemsSrc(items)))
      && (s.result.Ok? ==> s.result.value == MapItems(items, IsInline, ReferenceFor(sc, c)))
    decreases items
  {
    if items != [] {
      var prefix := items[..|items| - 1];
      SaveItemsOutcome(prefix, sc, c, files);
      SaveTreeOutcome(items[|items| - 1], sc, c, SaveItems(prefix, sc, c, files).files);
    }
  }

  lemma {:induction false} SaveFieldsOutcome(fields: seq<Member>, sc: Scope, c: Codec, files: Files)
    ensures var s := SaveFields(fields, sc, c, files);
      && (s.result.Ok? <==> WellFormed(FieldsSrc(fields)))
      && (s.result.Ok? ==> s.result.value == MapFields(fields, IsInline, ReferenceFor(sc, c)))
    decreases fields
  {
    if fields != [] {
      var prefix := fields[..|fields| - 1];
      SaveFieldsOutcome(prefix, sc, c, files);
      SaveMemberOutcome(fields[|fields| - 1], sc, c, SaveFields(prefix, sc, c, files).files);
    }
  }

  lemma {:induction false} SaveMemberOutcome(m: Member, sc: Scope, c: Codec, files: Files)
    ensures var s := SaveMember(m, sc, c, files);
      && (s.result.Ok? <==> WellFormed(MemberSrc(m)))
      && (s.result.Ok? ==> s.result.value == MapMember(m, IsInline, ReferenceFor(sc, c)))
    decreases m
  {
    if IsSrcString(m) && IsInline(m.value.text) {
      assert MemberSrc(m) == {m.value.text};
    } else {
      SaveTreeOutcome(m.value, sc, c, files);
    }
  }

  /** After a successful save no `src` string anywhere in the output is an inline image. */
  lemma SaveLeavesNoInlineImages(t: Tree, sc: Scope, c: Codec, files: Files)
    requires SaveTree(t, sc, c, files).result.Ok?
    ensures forall u :: u in SrcSet(SaveTree(t, sc, c, files).result.value) ==> !IsInline(u)
  {
    SaveTreeOutcome(t, sc, c, files);
    var f := ReferenceFor(sc, c);
    MapSrcStrings(t, IsInline, f);
    forall u | u in Rewritten(SrcSet(t), IsInline, f)
      ensures !IsInline(u)
    {
      var v :| v in SrcSet(t) && u == (if IsInline(v) then f(v) else v);
      if IsInline(v) {
        assert u[0] == '/';
      }
    }
  }

  // ---------------------------------------------------------------------------
  // The write-once store
  // ---------------------------------------------------------------------------

  lemma WriteOnceChain(a: Files, b: Files, w1: seq<string>, d: Files, w2: seq<string>)
    requires WriteOnce(a, b, w1) && WriteOnce(b, d, w2)
    ensures WriteOnce(a, d, w1 + w2)
  {
    var w := w1 + w2;
    forall i, j | 0 <= i < j < |w| ensures w[i] != w[j] {
      if i < |w1| <= j {
        assert w[i] in b && w[j] !in b;
      }
    }
    assert (set x | x in w) == (set x | x in w1) + (set x | x in w2);
  }

  lemma NamesOfUnion(c: Codec, a: set<string>, b: set<string>)
    ensures NamesOf(c, a + b) == NamesOf(c, a) + NamesOf(c, b)
  {
  }

  /**
   * The store only grows and existing files are never overwritten, whether
   * the save succeeds or fails; no name is written twice and only absent names
   * are written; every written name belongs to an inline image of the tree; and
   * after a successful save every such name is present.
   */
  lemma {:induction false} SaveTreeStore(t: Tree, sc: Scope, c: Codec, files: Files)
    ensures var s := SaveTree(t, sc, c, files);
      && WriteOnce(files, s.files, s.writes)
      && (forall w :: w in s.writes ==> w in NamesOf(c, SrcSet(t)))
      && (s.result.Ok? ==> NamesOf(c, SrcSet(t)) <= s.files.Keys)
    decreases t
  {
    match t
    case Arr(items) => SaveItemsStore(items, sc, c, files);
    case Obj(fields) => SaveFieldsStore(fields, sc, c, files);
    case _ =>
  }

  lemma {:induction false} SaveItemsStore(items: seq<Tree>, sc: Scope, c: Codec, files: Files)
    ensures var s := SaveItems(items, sc, c, files);
      && WriteOnce(files, s.files, s.writes)
      && (forall w :: w in s.writes ==> w in NamesOf(c, ItemsSrc(items)))
      && (s.result.Ok? ==> NamesOf(c, ItemsSrc(items)) <= s.files.Keys)
    decreases items
  {
    if items != [] {
      var prefix, item := items[..|items| - 1], items[|items| - 1];
      SaveItemsStore(prefix, sc, c, files);
      NamesOfUnion(c, ItemsSrc(prefix), SrcSet(item));
      var done := SaveItems(prefix, sc, c, files);
      if done.result.Ok? {
        SaveTreeStore(item, sc, c, done.files);
        var last := SaveTree(item, sc, c, done.files);
        WriteOnceChain(files, done.files, done.writes, last.files, last.writes);
      }
    }
  }

  lemma {:induction false} SaveFieldsStore(fields: seq<Member>, sc: Scope, c: Codec, files: Files)
    ensures var s := SaveFields(fields, sc, c, files);
      && WriteOnce(files, s.files, s.writes)
      && (forall w :: w in s.writes ==> w in NamesOf(c, FieldsSrc(fields)))
      && (s.result.Ok? ==> NamesOf(c, FieldsSrc(fields)) <= s.files.Keys)
    decreases fields
  {
    if fields != [] {
      var prefix, m := fields[..|fields| - 1], fields[|fields| - 1];
      SaveFieldsStore(prefix, sc, c, files);
      NamesOfUnion(c, FieldsSrc(prefix), MemberSrc(m));
      var done := SaveFields(prefix, sc, c, files);
      if done.result.Ok? {
        SaveMemberStore(m, sc, c, done.files);
        var last := SaveMember(m, sc, c, done.files);
        WriteOnceChain(files, done.files, done.writes, last.files, last.writes);
      }
    }
  }

  lemma {:induction false} SaveMemberStore(m: Member, sc: Scope, c: Codec, files: Files)
    ensures var s := SaveMember(m, sc, c, files);
      && WriteOnce(files, s.files, s.writes)
      && (forall w :: w in s.writes ==> w in NamesOf(c, MemberSrc(m)))
      && (s.result.Ok? ==> NamesOf(c, MemberSrc(m)) <= s.files.Keys)
    decreases m
  {
    if IsSrcString(m) && IsInline(m.value.text) {
      var v := m.value.text;
      assert MemberSrc(m) == {v};
      if ParseInline(v).Ok? {
        assert NamesOf(c, {v}) == {ImageFile(c, ParseInline(v).value)};
      } else {
        assert NamesOf(c, {v}) == {};
      }
    } else {
      SaveTreeStore(m.value, sc, c, files);
      NamesOfUnion(c, if IsSrcString(m) then {m.value.text} else {}, SrcSet(m.value));
    }
  }

  /**
   * Writes are durable: whatever the walk over the first `k` elements left in
   * the store is still there, unchanged, at the end of the whole walk, and its
   * writes begin the whole walk's writes, whether or not a later element fails.
   */
  lemma {:induction false} SaveItemsKeepsPrefix(items: seq<Tree>, k: nat, sc: Scope, c: Codec, files: Files)
    requires k <= |items|
    ensures var p, s := SaveItems(items[..k], sc, c, files), SaveItems(items, sc, c, files);
      && (forall n :: n in p.files ==> n in s.files && s.files[n] == p.files[n])
      && p.writes <= s.writes
    decreases items
  {
    if k < |items| {
      var prefix, item := items[..|items| - 1], items[|items| - 1];
      assert prefix[..k] == items[..k];
      SaveItemsKeepsPrefix(prefix, k, sc, c, files);
      var done := SaveItems(prefix, sc, c, files);
      if done.result.Ok? {
        SaveTreeStore(item, sc, c, done.files);
      }
    } else {
      assert items[..k] == items;
    }
  }

  /** The same durability for the members of an object, in enumeration order. */
  lemma {:induction false} SaveFieldsKeepsPrefix(fields: seq<Member>, k: nat, sc: Scope, c: Codec, files: Files)
    requires k <= |fields|
    ensures var p, s := SaveFields(fields[..k], sc, c, files), SaveFields(fields, sc, c, files);
      && (forall n :: n in p.files ==> n in s.files && s.files[n] == p.files[n])
      && p.writes <= s.writes
    decreases fields
  {
    if k < |fields| {
      var prefix, m := fields[..|fields| - 1], fields[|fields| - 1];
      assert prefix[..k] == fields[..k];
      SaveFieldsKeepsPrefix(prefix, k, sc, c, files);
      var done := SaveFields(prefix, sc, c, files);
      if done.result.Ok? {
        SaveMemberStore(m, sc, c, done.files);
      }
    } else {
      assert fields[..k] == fields;
    }
  }

  // ---------------------------------------------------------------------------
  // What the stored files hold
  // ---------------------------------------------------------------------------

  lemma SaveImageAgrees(v: string, sc: Scope, c: Codec, files: Files, vs: set<string>)
    requires IsInline(v) && v in vs
    requires Agrees(c, files, vs) && CollisionFree(c, vs)
    ensures Agrees(c, SaveImage(v, sc, c, files).files, vs)
  {
  }

  /**
   * When the files already present agree with the tree's images and no two of
   * its payloads share a name, a save keeps that agreement: each file it
   * writes holds the decoded payload of every image named after it.
   */
  lemma {:induction false} SaveTreeAgrees(t: Tree, sc: Scope, c: Codec, files: Files, vs: set<string>)
    requires SrcSet(t) <= vs
    requires Agrees(c, files, vs) && CollisionFree(c, vs)
    ensures Agrees(c, SaveTree(t, sc, c, files).files, vs)
    decreases t
  {
    match t
    case Arr(items) => SaveItemsAgrees(items, sc, c, files, vs);
    case Obj(fields) => SaveFieldsAgrees(fields, sc, c, files, vs);
    case _ =>
  }

  lemma {:induction false} SaveItemsAgrees(items: seq<Tree>, sc: Scope, c: Codec, files: Files, vs: set<string>)
    requires ItemsSrc(items) <= vs
    requires Agrees(c, files, vs) && CollisionFree(c, vs)
    ensures Agrees(c, SaveItems(items, sc, c, files).files, vs)
    decreases items
  {
    if items != [] {
      var prefix := items[..|items| - 1];
      SaveItemsAgrees(prefix, sc, c, files, vs);
      SaveTreeAgrees(items[|items| - 1], sc, c, SaveItems(prefix, sc, c, files).files, vs);
    }
  }

  lemma {:induction false} SaveFieldsAgrees(fields: seq<Member>, sc: Scope, c: Codec, files: Files, vs: set<string>)
    requires FieldsSrc(fields) <= vs
    requires Agrees(c, files, vs) && CollisionFree(c, vs)
    ensures Agrees(c, SaveFields(fields, sc, c, files).files, vs)
    decreases fields
  {
    if fields != [] {
      var prefix := fields[..|fields| - 1];
      SaveFieldsAgrees(prefix, sc, c, files, vs);
      SaveMemberAgrees(fields[|fields| - 1], sc, c, SaveFields(prefix, sc, c, files).files, vs);
    }
  }

  lemma {:induction false} SaveMemberAgrees(m: Member, sc: Scope, c: Codec, files: Files, vs: set<string>)
    requires MemberSrc(m) <= vs
    requires Agrees(c, files, vs) && CollisionFree(c, vs)
    ensures Agrees(c, SaveMember(m, sc, c, files).files, vs)
    decreases m
  {
    if IsSrcString(m) && IsInline(m.value.text) {
      SaveImageAgrees(m.value.text, sc, c, files, vs);
    } else {
      SaveTreeAgrees(m.value, sc, c, files, vs);
    }
  }

  /**
   * After a successful save, every inline image of the input has its file in
   * the store, holding its decoded payload.
   */
  lemma SaveStoresEveryImage(t: Tree, sc: Scope, c: Codec, files: Files)
    requires Agrees(c, files, SrcSet(t)) && CollisionFree(c, SrcSet(t))
    requires SaveTree(t, sc, c, files).result.Ok?
    ensures var s := SaveTree(t, sc, c, files);
      forall v :: v in SrcSet(t) && IsInline(v) ==>
        && ParseInline(v).Ok?
        && ImageFile(c, ParseInline(v).value) in s.files
        && s.files[ImageFile(c, ParseInline(v).value)] == c.base64Decode(ParseInline(v).value.payload)
  {
    SaveTreeOutcome(t, sc, c, files);
    SaveTreeStore(t, sc, c, files);
    SaveTreeAgrees(t, sc, c, files, SrcSet(t));
    var s := SaveTree(t, sc, c, files);
    forall v | v in SrcSet(t) && IsInline(v)
      ensures ImageFile(c, ParseInline(v).value) in s.files
    {
      assert ImageFile(c, ParseInline(v).value) in NamesOf(c, SrcSet(t));
    }
  }

  // ---------------------------------------------------------------------------
  // Saving again
  // ---------------------------------------------------------------------------

  /** With every image's file already present, a save writes nothing. */
  lemma {:induction false} SaveTreeNoWrites(t: Tree, sc: Scope, c: Codec, files: Files, vs: set<string>)
    requires SrcSet(t) <= vs && NamesOf(c, vs) <= files.Keys
    ensures var s := SaveTree(t, sc, c, files); s.files == files && s.writes == []
    decreases t
  {
    match t
    case Arr(items) => SaveItemsNoWrites(items, sc, c, files, vs);
    case Obj(fields) => SaveFieldsNoWrites(fields, sc, c, files, vs);
    case _ =>
  }

  lemma {:induction false} SaveItemsNoWrites(items: seq<Tree>, sc: Scope, c: Codec, files: Files, vs: set<string>)
    requires ItemsSrc(items) <= vs && NamesOf(c, vs) <= files.Keys
    ensures var s := SaveItems(items, sc, c, files); s.files == files && s.writes == []
    decreases items
  {
    if items != [] {
      var prefix := items[..|items| - 1];
      SaveItemsNoWrites(prefix, sc, c, files, vs);
      SaveTreeNoWrites(items[|items| - 1], sc, c, files, vs);
    }
  }

  lemma {:induction false} SaveFieldsNoWrites(fields: seq<Member>, sc: Scope, c: Codec, files: Files, vs: set<string>)
    requires FieldsSrc(fields) <= vs && NamesOf(c, vs) <= files.Keys
    ensures var s := SaveFields(fields, sc, c, files); s.files == files && s.writes == []
    decreases fields
  {
    if fields != [] {
      var prefix := fields[..|fields| - 1];
      SaveFieldsNoWrites(prefix, sc, c, files, vs);
      SaveMemberNoWrites(fields[|fields| - 1], sc, c, files, vs);
    }
  }

  lemma {:induction false} SaveMemberNoWrites(m: Member, sc: Scope, c: Codec, files: Files, vs: set<string>)
    requires MemberSrc(m) <= vs && NamesOf(c, vs) <= files.Keys
    ensures var s := SaveMember(m, sc, c, files); s.files == files && s.writes == []
    decreases m
  {
    if IsSrcString(m) && IsInline(m.value.text) {
      var v := m.value.text;
      if ParseInline(v).Ok? {
        assert ImageFile(c, ParseInline(v).value) in NamesOf(c, vs);
      }
    } else {
      SaveTreeNoWrites(m.value, sc, c, files, vs);
    }
  }

  /**
   * Saving the same tree a second time writes no file and yields the same
   * output: the store after the first save already holds every image.
   */
  lemma SaveAgainWritesNothing(t: Tree, sc: Scope, c: Codec, files: Files)
    requires SaveTree(t, sc, c, files).result.Ok?
    ensures var s := SaveTree(t, sc, c, files);
      SaveTree(t, sc, c, s.files) == Saved(s.result, s.files, [])
  {
    var s := SaveTree(t, sc, c, files);
    SaveTreeStore(t, sc, c, files);
    SaveTreeNoWrites(t, sc, c, s.files, SrcSet(t));
    SaveTreeOutcome(t, sc, c, files);
    SaveTreeOutcome(t, sc, c, s.files);
  }
}
