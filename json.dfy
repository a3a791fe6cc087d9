/**
 * The canvas document: a JSON value. Object members are kept in the order a
 * `for…in` loop enumerates them. The one field name the image handler
 * interprets is `src`; everything here is generic in how a `src` string is
 * rewritten.
 */
module Json {

  datatype Tree =
    | Null
    | Bool(b: bool)
    | Num(n: real)
    | Str(text: string)
    | Arr(items: seq<Tree>)
    | Obj(fields: seq<Member>)

  datatype Member = Member(key: string, value: Tree)

  const SrcKey := "src"

  /** What `canvasData && typeof canvasData === 'object'` accepts: an array or an object. */
  predicate IsContainer(t: Tree) {
    t.Arr? || t.Obj?
  }

  /** A member the walks treat specially: key `src` with a string value. */
  predicate IsSrcString(m: Member) {
    m.key == SrcKey && m.value.Str?
  }

  /** Every string held by a `src` member anywhere in the tree. */
  ghost function SrcSet(t: Tree): set<string>
    decreases t
  {
    match t
    case Arr(items) => ItemsSrc(items)
    case Obj(fields) => FieldsSrc(fields)
    case _ => {}
  }

  ghost function ItemsSrc(items: seq<Tree>): set<string>
    decreases items
  {
    if items == [] then {} else ItemsSrc(items[..|items| - 1]) + SrcSet(items[|items| - 1])
  }

  ghost function FieldsSrc(fields: seq<Member>): set<string>
    decreases fields
  {
    if fields == [] then {} else FieldsSrc(fields[..|fields| - 1]) + MemberSrc(fields[|fields| - 1])
  }

  ghost function MemberSrc(m: Member): set<string>
    decreases m
  {
    (if IsSrcString(m) then {m.value.text} else {}) + SrcSet(m.value)
  }

  /**
   * The reference shape of both walks: every `src` string `v` with `sel(v)`
   * becomes `f(v)`; every other value keeps its place and is descended into.
   */
  function MapSrc(t: Tree, sel: string -> bool, f: string -> string): (r: Tree)
    ensures r.Arr? == t.Arr? && r.Obj? == t.Obj?
    ensures !IsContainer(t) ==> r == t
    decreases t
  {
    match t
    case Arr(items) => Arr(MapItems(items, sel, f))
    case Obj(fields) => Obj(MapFields(fields, sel, f))
    case _ => t
  }

  function MapItems(items: seq<Tree>, sel: string -> bool, f: string -> string): (r: seq<Tree>)
    ensures |r| == |items|
    ensures forall i :: 0 <= i < |items| ==> r[i] == MapSrc(items[i], sel, f)
    decreases items
  {
    if items == [] then []
    else MapItems(items[..|items| - 1], sel, f) + [MapSrc(items[|items| - 1], sel, f)]
  }

  function MapFields(fields: seq<Member>, sel: string -> bool, f: string -> string): (r: seq<Member>)
    ensures |r| == |fields|
    ensures forall i :: 0 <= i < |fields| ==> r[i] == MapMember(fields[i], sel, f)
    decreases fields
  {
    if fields == [] then []
    else MapFields(fields[..|fields| - 1], sel, f) + [MapMember(fields[|fields| - 1], sel, f)]
  }

  function MapMember(m: Member, sel: string -> bool, f: string -> string): (r: Member)
    ensures r.key == m.key
    decreases m
  {
    if IsSrcString(m) && sel(m.value.text) then Member(m.key, Str(f(m.value.text)))
    else Member(m.key, MapSrc(m.value, sel, f))
  }

  /** The `src` strings after a rewrite: selected ones replaced by their image under `f`. */
  ghost function Rewritten(s: set<string>, sel: string -> bool, f: string -> string): set<string>
  {
    set v | v in s :: if sel(v) then f(v) else v
  }

  lemma RewrittenUnion(a: set<string>, b: set<string>, sel: string -> bool, f: string -> string)
    ensures Rewritten(a + b, sel, f) == Rewritten(a, sel, f) + Rewritten(b, sel, f)
  {
  }

  // ---------------------------------------------------------------------------
  // Where each element's `src` strings sit inside its container's
  // ---------------------------------------------------------------------------

  lemma {:induction false} ItemsSrcContains(items: seq<Tree>, i: nat)
    requires i < |items|
    ensures SrcSet(items[i]) <= ItemsSrc(items)
    decreases items
  {
    if i < |items| - 1 {
      ItemsSrcContains(items[..|items| - 1], i);
    }
  }

  lemma {:induction false} FieldsSrcContains(fields: seq<Member>, i: nat)
    requires i < |fields|
    ensures MemberSrc(fields[i]) <= FieldsSrc(fields)
    decreases fields
  {
    if i < |fields| - 1 {
      FieldsSrcContains(fields[..|fields| - 1], i);
    }
  }

  // ---------------------------------------------------------------------------
  // Properties of the reference rewrite
  // ---------------------------------------------------------------------------

  /** The `src` strings of the rewritten tree are exactly the rewritten `src` strings. */
  lemma {:induction false} MapSrcStrings(t: Tree, sel: string -> bool, f: string -> string)
    ensures SrcSet(MapSrc(t, sel, f)) == Rewritten(SrcSet(t), sel, f)
    decreases t
  {
    match t
    case Arr(items) => MapItemsStrings(items, sel, f);
    case Obj(fields) => MapFieldsStrings(fields, sel, f);
    case _ =>
  }

  lemma {:induction false} MapItemsStrings(items: seq<Tree>, sel: string -> bool, f: string -> string)
    ensures ItemsSrc(MapItems(items, sel, f)) == Rewritten(ItemsSrc(items), sel, f)
    decreases items
  {
    if items != [] {
      var prefix, last := items[..|items| - 1], items[|items| - 1];
      var mapped := MapItems(items, sel, f);
      assert mapped[..|mapped| - 1] == MapItems(prefix, sel, f);
      MapItemsStrings(prefix, sel, f);
      MapSrcStrings(last, sel, f);
      RewrittenUnion(ItemsSrc(prefix), SrcSet(last), sel, f);
    }
  }

  lemma {:induction false} MapFieldsStrings(fields: seq<Member>, sel: string -> bool, f: string -> string)
    ensures FieldsSrc(MapFields(fields, sel, f)) == Rewritten(FieldsSrc(fields), sel, f)
    decreases fields
  {
    if fields != [] {
      var prefix, last := fields[..|fields| - 1], fields[|fields| - 1];
      var mapped := MapFields(fields, sel, f);
      assert mapped[..|mapped| - 1] == MapFields(prefix, sel, f);
      MapFieldsStrings(prefix, sel, f);
      MapMemberStrings(last, sel, f);
      RewrittenUnion(FieldsSrc(prefix), MemberSrc(last), sel, f);
    }
  }

  lemma {:induction false} MapMemberStrings(m: Member, sel: string -> bool, f: string -> string)
    ensures MemberSrc(MapMember(m, sel, f)) == Rewritten(MemberSrc(m), sel, f)
    decreases m
  {
    if IsSrcString(m) && sel(m.value.text) {
      assert Rewritten({m.value.text}, sel, f) == {f(m.value.text)};
    } else {
      MapSrcStrings(m.value, sel, f);
      if IsSrcString(m) {
        assert Rewritten({m.value.text}, sel, f) == {m.value.text};
      }
      RewrittenUnion(if IsSrcString(m) then {m.value.text} else {}, SrcSet(m.value), sel, f);
    }
  }

  /** A rewrite that selects no `src` string of the tree leaves the tree as it is. */
  lemma {:induction false} MapSrcUnselected(t: Tree, sel: string -> bool, f: string -> string)
    requires forall v :: v in SrcSet(t) ==> !sel(v)
    ensures MapSrc(t, sel, f) == t
    decreases t
  {
    match t
    case Arr(items) =>
      forall i | 0 <= i < |items| ensures MapSrc(items[i], sel, f) == items[i] {
        ItemsSrcContains(items, i);
        MapSrcUnselected(items[i], sel, f);
      }
    case Obj(fields) =>
      forall i | 0 <= i < |fields| ensures MapMember(fields[i], sel, f) == fields[i] {
        FieldsSrcContains(fields, i);
        MapSrcUnselected(fields[i].value, sel, f);
      }
    case _ =>
  }

  /**
   * Two rewrites cancel when the second one selects exactly the strings the
   * first one produced and maps each back to the original.
   */
  lemma {:induction false} MapSrcUndone(t: Tree, sel: string -> bool, f: string -> string,
                                        sel': string -> bool, g: string -> string)
    requires forall v :: v in SrcSet(t) ==> if sel(v) then sel'(f(v)) && g(f(v)) == v else !sel'(v)
    ensures MapSrc(MapSrc(t, sel, f), sel', g) == t
    decreases t
  {
    match t
    case Arr(items) =>
      forall i | 0 <= i < |items| ensures MapSrc(MapSrc(items[i], sel, f), sel', g) == items[i] {
        ItemsSrcContains(items, i);
        MapSrcUndone(items[i], sel, f, sel', g);
      }
    case Obj(fields) =>
      forall i | 0 <= i < |fields|
        ensures MapMember(MapMember(fields[i], sel, f), sel', g) == fields[i]
      {
        FieldsSrcContains(fields, i);
        MapSrcUndone(fields[i].value, sel, f, sel', g);
      }
    case _ =>
  }
}
