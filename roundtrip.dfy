/**
 * The two walks together: a canvas saved under a scope and loaded back under
 * the same scope is the canvas that was saved, for inline images in the form
 * the load path itself produces; loading under any other scope leaves the
 * saved references alone.
 */
module RoundTrip {
  import opened Json
  import opened Text
  import opened Images
  import opened Extract
  import opened ExtractProperties
  import opened Inliner
  import opened InlinerProperties

  /**
   * An inline image the load path gives back character for character: it is
   * written as `data:image/<subtype>;base64,<payload>`, its subtype has no dot
   * (the extension keeps only the last dotted piece) and is not `jpg` (which
   * comes back as `jpeg`), and re-encoding its decoded payload gives the same text.
   */
  ghost predicate Restorable(c: Codec, v: string) {
    && IsInline(v)
    && ParseInline(v).Ok?
    && var img := ParseInline(v).value;
      && v == DataUrl(img.subtype, img.payload)
      && '.' !in img.subtype
      && img.subtype != "jpg"
      && c.base64Encode(c.base64Decode(img.payload)) == img.payload
  }

  lemma HexDigestSeparators(h: string)
    requires IsHexDigest(h)
    ensures h != [] && '/' !in h && '.' !in h
  {
  }

  /**
   * Any well-formed image, once stored: its reference lies in the scope and
   * loads as a data URL whose subtype is the last dotted piece of the saved
   * subtype, with `jpg` announced as `jpeg`, and whose payload is the
   * re-encoded file.
   */
  lemma ReloadedImage(v: string, sc: Scope, c: Codec, files: Files)
    requires IsInline(v) && ParseInline(v).Ok?
    requires IsHexDigest(c.sha256Hex(ParseInline(v).value.payload))
    requires var name := ImageFile(c, ParseInline(v).value);
      name in files && files[name] == c.base64Decode(ParseInline(v).value.payload)
    ensures IsReference(sc, StoredReference(sc, c, v))
    ensures var img := ParseInline(v).value; var pieces := Split(img.subtype, '.');
      ResolveReference(StoredReference(sc, c, v), c, files)
        == Loaded(DataUrl(MimeSubtype(pieces[|pieces| - 1]), c.base64Encode(c.base64Decode(img.payload))), [])
  {
    var img := ParseInline(v).value;
    var name := ImageFile(c, img);
    HexDigestSeparators(c.sha256Hex(img.payload));
    assert '/' !in name;
    assert name[0] == c.sha256Hex(img.payload)[0] != '.';
    ReferenceNamesFile(sc, name);
    ExtensionOfImageFile(c, img);
  }

  /** A restorable image comes back exactly. */
  lemma ImageRoundTrip(v: string, sc: Scope, c: Codec, files: Files)
    requires Restorable(c, v)
    requires IsHexDigest(c.sha256Hex(ParseInline(v).value.payload))
    requires var name := ImageFile(c, ParseInline(v).value);
      name in files && files[name] == c.base64Decode(ParseInline(v).value.payload)
    ensures IsReference(sc, StoredReference(sc, c, v))
    ensures ResolveReference(StoredReference(sc, c, v), c, files) == Loaded(v, [])
  {
    ReloadedImage(v, sc, c, files);
    SplitWithoutSeparator(ParseInline(v).value.subtype, '.');
  }

  /** A `jpg` image does not come back as itself: it is announced as `jpeg`. */
  lemma JpgReloadsAsJpeg(payload: string, sc: Scope, c: Codec, files: Files)
    requires ',' !in payload && c.base64Encode(c.base64Decode(payload)) == payload
    requires IsHexDigest(c.sha256Hex(payload))
    requires var name := ImageFile(c, InlineImage("jpg", payload));
      name in files && files[name] == c.base64Decode(payload)
    ensures var v := DataUrl("jpg", payload);
      && IsInline(v)
      && ResolveReference(StoredReference(sc, c, v), c, files) == Loaded(DataUrl("jpeg", payload), [])
      && DataUrl("jpeg", payload) != v
  {
    var v := DataUrl("jpg", payload);
    ParseDataUrl("jpg", payload);
    ReloadedImage(v, sc, c, files);
    SplitWithoutSeparator("jpg", '.');
    assert DataUrl("jpeg", payload)[|InlinePrefix| + 3] != v[|InlinePrefix| + 3];
  }

  /**
   * A dotted subtype comes back shortened to its last piece: `svg+xml` is
   * kept, but `x.y` returns as `y`.
   */
  lemma DottedSubtypeReloadsShortened(head: string, last: string, payload: string, sc: Scope, c: Codec, files: Files)
    requires var subtype := head + "." + last;
      ';' !in subtype && ',' !in subtype && '/' !in subtype
    requires '.' !in last
    requires ',' !in payload && c.base64Encode(c.base64Decode(payload)) == payload
    requires IsHexDigest(c.sha256Hex(payload))
    requires var name := ImageFile(c, InlineImage(head + "." + last, payload));
      name in files && files[name] == c.base64Decode(payload)
    ensures var v := DataUrl(head + "." + last, payload);
      && IsInline(v)
      && ResolveReference(StoredReference(sc, c, v), c, files) == Loaded(DataUrl(MimeSubtype(last), payload), [])
      && DataUrl(MimeSubtype(last), payload) != v
  {
    var subtype := head + "." + last;
    var v := DataUrl(subtype, payload);
    ParseDataUrl(subtype, payload);
    ReloadedImage(v, sc, c, files);
    SplitAtLast(head, last, '.');
    DottedSubtypeDiffers(head, last, payload);
  }

  /** The shortened subtype has no dot, the saved one has, so the two data URLs differ. */
  lemma DottedSubtypeDiffers(head: string, last: string, payload: string)
    requires '.' !in last
    ensures DataUrl(MimeSubtype(last), payload) != DataUrl(head + "." + last, payload)
  {
    var subtype := head + "." + last;
    assert subtype[|head|] == '.';
    DataUrlSubtypes(MimeSubtype(last), subtype, payload);
  }

  /** Two data URLs with the same payload are equal only when their subtypes are. */
  lemma DataUrlSubtypes(a: string, b: string, payload: string)
    ensures DataUrl(a, payload) == DataUrl(b, payload) ==> a == b
  {
    if DataUrl(a, payload) == DataUrl(b, payload) {
      var k := |InlinePrefix|;
      assert |a| == |b|;
      assert a == DataUrl(a, payload)[k..k + |a|];
      assert b == DataUrl(b, payload)[k..k + |b|];
    }
  }

  /**
   * Save, then load under the same scope: the loaded canvas is the saved
   * input and nothing is reported missing. The input carries no reference
   * into the scope already (those would be inlined on load), every inline
   * image is restorable, the digest prints hex, files already in the store
   * hold what their names promise, and no two images share a name.
   */
  lemma LoadAfterSave(t: Tree, sc: Scope, c: Codec, files: Files)
    requires HexDigests(c)
    requires forall v :: v in SrcSet(t) ==> !IsReference(sc, v)
    requires forall v :: v in SrcSet(t) && IsInline(v) ==> Restorable(c, v)
    requires Agrees(c, files, SrcSet(t)) && CollisionFree(c, SrcSet(t))
    ensures SaveTree(t, sc, c, files).result.Ok?
    ensures var s := SaveTree(t, sc, c, files);
      InlineTree(s.result.value, sc, c, s.files) == Loaded(t, [])
  {
    SaveTreeOutcome(t, sc, c, files);
    var s := SaveTree(t, sc, c, files);
    SaveStoresEveryImage(t, sc, c, files);
    var g := ReferenceFor(sc, c);
    var f := ResolverForResolves(c, s.files);
    forall v | v in SrcSet(t)
      ensures if IsInline(v) then InScope(sc)(g(v)) && f(g(v)) == v else !InScope(sc)(v)
    {
      if IsInline(v) {
        ImageRoundTrip(v, sc, c, s.files);
      }
    }
    MapSrcUndone(t, IsInline, g, InScope(sc), f);
    InlineTreeOutcome(s.result.value, sc, c, s.files, f);
    MapSrcStrings(t, IsInline, g);
    forall u | u in SrcSet(s.result.value)
      ensures u !in Unresolved(sc, s.files, SrcSet(s.result.value))
    {
      var v :| v in SrcSet(t) && u == (if IsInline(v) then g(v) else v);
      if IsInline(v) {
        ImageRoundTrip(v, sc, c, s.files);
      }
    }
    NoFailures(InlineTree(s.result.value, sc, c, s.files).failures);
  }

  /**
   * Scope isolation end to end: a canvas saved under `other` and loaded under
   * a different scope `sc`, whatever `sc`'s directory holds, comes back as
   * saved, with its references intact and nothing reported, provided
   * identifiers hold no `/` and the input held no reference into `sc`.
   */
  lemma LoadUnderOtherScope(t: Tree, sc: Scope, other: Scope, c: Codec, files: Files, scFiles: Files)
    requires '/' !in sc.userId && '/' !in sc.bookId
    requires '/' !in other.userId && '/' !in other.bookId
    requires sc != other
    requires forall v :: v in SrcSet(t) ==> !IsReference(sc, v)
    requires SaveTree(t, other, c, files).result.Ok?
    ensures var saved := SaveTree(t, other, c, files).result.value;
      InlineTree(saved, sc, c, scFiles) == Loaded(saved, [])
  {
    SaveTreeOutcome(t, other, c, files);
    var saved := SaveTree(t, other, c, files).result.value;
    var g := ReferenceFor(other, c);
    MapSrcStrings(t, IsInline, g);
    forall u | u in SrcSet(saved)
      ensures !IsReference(sc, u)
    {
      var v :| v in SrcSet(t) && u == (if IsInline(v) then g(v) else v);
      if IsInline(v) {
        ScopesAreIsolated(sc, other, ImageFile(c, ParseInline(v).value));
      }
    }
    LoadLeavesOtherValues(saved, sc, c, scFiles);
  }
}
