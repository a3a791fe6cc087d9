/**
 * What the load path promises, proved about its specification functions:
 * the output tree, the references reported as unresolved, and that values
 * outside the scope are never touched.
 */
module InlinerProperties {
  import opened Json
  import opened Text
  import opened Images
  import opened Inliner

  /** The walk's own rewrite of a reference is one such `f`. */
  lemma ResolverForResolves(c: Codec, files: Files) returns (f: string -> string)
    ensures Resolves(f, c, files)
  {
    f := ResolverFor(c, files);
  }

  lemma UnresolvedUnion(sc: Scope, files: Files, a: set<string>, b: set<string>)
    ensures Unresolved(sc, files, a + b) == Unresolved(sc, files, a) + Unresolved(sc, files, b)
  {
  }

  /**
   * The load output is the input with every `src` string in the scope replaced
   * by the data URL of its file, or kept when the file is missing; the failures
   * are exactly the `src` references in the scope whose file is missing.
   */
  lemma {:induction false} InlineTreeOutcome(t: Tree, sc: Scope, c: Codec, files: Files, f: string -> string)
    requires Resolves(f, c, files)
    ensures var l := InlineTree(t, sc, c, files);
      && l.value == MapSrc(t, InScope(sc), f)
      && (set v | v in l.failures) == Unresolved(sc, files, SrcSet(t))
    decreases t
  {
    match t
    case Arr(items) => InlineItemsOutcome(items, sc, c, files, f);
    case Obj(fields) => InlineFieldsOutcome(fields, sc, c, files, f);
    case _ =>
  }

  lemma {:induction false} InlineItemsOutcome(items: seq<Tree>, sc: Scope, c: Codec, files: Files, f: string -> string)
    requires Resolves(f, c, files)
    ensures var l := InlineItems(items, sc, c, files);
      && l.value == MapItems(items, InScope(sc), f)
      && (set v | v in l.failures) == Unresolved(sc, files, ItemsSrc(items))
    decreases items
  {
    if items != [] {
      var prefix, item := items[..|items| - 1], items[|items| - 1];
      InlineItemsOutcome(prefix, sc, c, files, f);
      InlineTreeOutcome(item, sc, c, files, f);
      UnresolvedUnion(sc, files, ItemsSrc(prefix), SrcSet(item));
      var done, last := InlineItems(prefix, sc, c, files), InlineTree(item, sc, c, files);
      assert (set v | v in done.failures + last.failures)
          == (set v | v in done.failures) + (set v | v in last.failures);
    }
  }

  lemma {:induction false} InlineFieldsOutcome(fields: seq<Member>, sc: Scope, c: Codec, files: Files, f: string -> string)
    requires Resolves(f, c, files)
    ensures var l := InlineFields(fields, sc, c, files);
      && l.value == MapFields(fields, InScope(sc), f)
      && (set v | v in l.failures) == Unresolved(sc, files, FieldsSrc(fields))
    decreases fields
  {
    if fields != [] {
      var prefix, m := fields[..|fields| - 1], fields[|fields| - 1];
      InlineFieldsOutcome(prefix, sc, c, files, f);
      InlineMemberOutcome(m, sc, c, files, f);
      UnresolvedUnion(sc, files, FieldsSrc(prefix), MemberSrc(m));
      var done, last := InlineFields(prefix, sc, c, files), InlineMember(m, sc, c, files);
      assert (set v | v in done.failures + last.failures)
          == (set v | v in done.failures) + (set v | v in last.failures);
    }
  }

  lemma {:induction false} InlineMemberOutcome(m: Member, sc: Scope, c: Codec, files: Files, f: string -> string)
    requires Resolves(f, c, files)
    ensures var l := InlineMember(m, sc, c, files);
      && l.value == MapMember(m, InScope(sc), f)
      && (set v | v in l.failures) == Unresolved(sc, files, MemberSrc(m))
    decreases m
  {
    if IsSrcString(m) && IsReference(sc, m.value.text) {
      assert MemberSrc(m) == {m.value.text};
    } else {
      InlineTreeOutcome(m.value, sc, c, files, f);
      UnresolvedUnion(sc, files, if IsSrcString(m) then {m.value.text} else {}, SrcSet(m.value));
    }
  }

  /** A walk with no failures reports none: the empty set of failures is the empty list. */
  lemma NoFailures(failures: seq<string>)
    ensures (set v | v in failures) == {} ==> failures == []
  {
    if failures != [] {
      var listed := set v | v in failures;
      assert failures[0] in listed;
    }
  }

  /**
   * A tree none of whose `src` strings points into the scope (references of
   * other scopes, plain URLs, inline images) loads unchanged and without failures.
   */
  lemma LoadLeavesOtherValues(t: Tree, sc: Scope, c: Codec, files: Files)
    requires forall v :: v in SrcSet(t) ==> !IsReference(sc, v)
    ensures InlineTree(t, sc, c, files) == Loaded(t, [])
  {
    var f := ResolverForResolves(c, files);
    InlineTreeOutcome(t, sc, c, files, f);
    MapSrcUnselected(t, InScope(sc), f);
    NoFailures(InlineTree(t, sc, c, files).failures);
  }

  /**
   * A reference whose file is missing, or whose basename is `.` or `..`, stays
   * in the output as it was, and it is reported; the rest of the tree is still
   * loaded.
   */
  lemma LoadKeepsMissingReference(t: Tree, sc: Scope, c: Codec, files: Files, v: string)
    requires v in SrcSet(t) && IsReference(sc, v) && !Readable(files, Basename(v))
    ensures var l := InlineTree(t, sc, c, files); v in SrcSet(l.value) && v in l.failures
  {
    var f := ResolverForResolves(c, files);
    InlineTreeOutcome(t, sc, c, files, f);
    MapSrcStrings(t, InScope(sc), f);
    assert f(v) == v;
    assert v in Unresolved(sc, files, SrcSet(t));
  }
}
