/**
 * The content-addressing scheme the two walks share: how an inline
 * `data:image/...` URL is taken apart on save (RFC 2397, section 3; the
 * payload is base64 text in the sense of RFC 4648, section 4), how the stored
 * file is named from the SHA-256 digest of that text (FIPS 180-4), how the
 * reference path is formed, and how a reference is turned back into a data URL.
 */
module Images {
  import opened Wrappers
  import opened Text

  newtype byte = b: int | 0 <= b < 256

  type Bytes = seq<byte>

  /** The files of one (user, book) storage directory, by file name. */
  type Files = map<string, Bytes>

  /**
   * A name whose file can be read from the directory: it is present, and it is
   * not `.` or `..`, which `path.join` turns into a directory rather than a file.
   */
  predicate Readable(files: Files, name: string) {
    name in files && name != "." && name != ".."
  }

  /**
   * The foreign primitives: `crypto.createHash('sha256')…digest('hex')` over
   * the payload text, and Node's base64 decoder and encoder. Their internals are
   * not modelled; what a property needs of them is stated where it is used.
   */
  datatype Codec = Codec(
    sha256Hex: string -> string,
    base64Decode: string -> Bytes,
    base64Encode: Bytes -> string)

  /** A hex digest as SHA-256 prints it: 64 lower-case hex digits. */
  predicate IsHexDigest(h: string) {
    |h| == 64 && forall i :: 0 <= i < |h| ==> h[i] in "0123456789abcdef"
  }

  /** The digest function always produces hex digests. */
  ghost predicate HexDigests(c: Codec) {
    forall p :: IsHexDigest(c.sha256Hex(p))
  }

  /** The (user, book) pair that partitions storage and reference paths. */
  datatype Scope = Scope(userId: string, bookId: string)

  const InlinePrefix := "data:image/"

  /** A `src` value the save path extracts: it starts with `data:image/`. */
  predicate IsInline(v: string) {
    InlinePrefix <= v
  }

  /** The two derived parts of an inline image: the MIME subtype and the base64 payload text. */
  datatype InlineImage = InlineImage(subtype: string, payload: string)

  /**
   * Why a save fails: no `;` after the MIME type, so `match(...)` is null and
   * indexing it throws; or no comma, so the payload is undefined and hashing it
   * throws.
   */
  datatype SaveError = MissingMimeType | MissingPayload

  /** `v.match(/data:([^;]+);/)[1]`: the text between `data:` and the first `;`. */
  function MimeType(v: string): (mime: Option<string>)
    requires IsInline(v)
    ensures mime.Some? <==> ';' in v
    ensures mime.Some? ==> "data:" + mime.value + ";" <= v && ';' !in mime.value
    ensures mime.Some? ==> "image/" <= mime.value
  {
    var parts := Split(v, ';');
    SplitFirstPiece(v, ';');
    if |parts| == 1 then None
    else
      assert v[|parts[0]|] == ';';
      assert |parts[0]| >= |InlinePrefix|;
      assert v[..|parts[0]| + 1] == parts[0] + ";";
      Some(parts[0][5..])
  }

  /** `mimeType.split('/')[1]`, which a template literal prints as "undefined" when absent. */
  function Subtype(mime: string): (subtype: string)
    ensures '/' !in subtype
  {
    var parts := Split(mime, '/');
    if |parts| >= 2 then parts[1] else "undefined"
  }

  /** `v.split(',')[1]`: the text between the first and the second comma. */
  function Payload(v: string): (payload: Option<string>)
    ensures payload.Some? <==> ',' in v
    ensures payload.Some? ==> ',' !in payload.value
  {
    SplitFirstPiece(v, ',');
    var parts := Split(v, ',');
    if |parts| >= 2 then Some(parts[1]) else None
  }

  /**
   * The derivations at the head of the save branch. The MIME type is taken
   * first, so a URL lacking both `;` and `,` fails for the missing MIME type.
   */
  function ParseInline(v: string): (r: Result<InlineImage, SaveError>)
    requires IsInline(v)
    ensures r.Ok? <==> ';' in v && ',' in v
    ensures r == Err(MissingMimeType) <==> ';' !in v
    ensures r.Ok? ==> ',' !in r.value.payload && '/' !in r.value.subtype
  {
    SplitFirstPiece(v, ',');
    match MimeType(v)
    case None => Err(MissingMimeType)
    case Some(mime) =>
      match Payload(v)
      case None => Err(MissingPayload)
      case Some(p) => Ok(InlineImage(Subtype(mime), p))
  }

  /** The stored file's name: `<sha256(payload text)>.<subtype>`. */
  function ImageFile(c: Codec, img: InlineImage): string {
    c.sha256Hex(img.payload) + "." + img.subtype
  }

  /** `/api/images/<userId>/<bookId>/`, the start of every reference into a scope. */
  function ReferencePrefix(sc: Scope): string {
    "/api/images/" + sc.userId + "/" + sc.bookId + "/"
  }

  /** The value that replaces an inline image: `/api/images/<userId>/<bookId>/<name>`. */
  function ReferenceTo(sc: Scope, name: string): string {
    ReferencePrefix(sc) + name
  }

  /** A `src` value the load path resolves: it starts with the scope's prefix. */
  predicate IsReference(sc: Scope, v: string) {
    ReferencePrefix(sc) <= v
  }

  /** `data:image/<subtype>;base64,<payload>`. */
  function DataUrl(subtype: string, payload: string): string {
    InlinePrefix + subtype + ";base64," + payload
  }

  /** The MIME subtype announced for a stored file's extension: `jpg` is announced as `jpeg`. */
  function MimeSubtype(ext: string): string {
    if ext == "jpg" then "jpeg" else ext
  }

  /** The data URL the load path builds for a stored file `name` holding `data`. */
  function InlineFor(c: Codec, name: string, data: Bytes): string {
    DataUrl(MimeSubtype(ExtensionOf(name)), c.base64Encode(data))
  }

  // ---------------------------------------------------------------------------
  // Lemmas about the formats
  // ---------------------------------------------------------------------------

  /** A data URL in the standard shape is taken apart into exactly its subtype and payload. */
  lemma ParseDataUrl(subtype: string, payload: string)
    requires ';' !in subtype && ',' !in subtype && '/' !in subtype
    requires ',' !in payload
    ensures IsInline(DataUrl(subtype, payload))
    ensures ParseInline(DataUrl(subtype, payload)) == Ok(InlineImage(subtype, payload))
  {
    var v := DataUrl(subtype, payload);
    assert InlinePrefix <= v;
    DataUrlMimeType(subtype, payload);
    DataUrlPayload(subtype, payload);
  }

  lemma DataUrlMimeType(subtype: string, payload: string)
    requires ';' !in subtype && '/' !in subtype
    ensures IsInline(DataUrl(subtype, payload))
    ensures MimeType(DataUrl(subtype, payload)) == Some("image/" + subtype)
    ensures Subtype("image/" + subtype) == subtype
  {
    var v := DataUrl(subtype, payload);
    assert v == (InlinePrefix + subtype) + [';'] + ("base64," + payload);
    SplitAtFirst(InlinePrefix + subtype, "base64," + payload, ';');
    assert (InlinePrefix + subtype)[5..] == "image/" + subtype;
    assert "image/" + subtype == Join(["image", subtype], '/');
    SplitJoin(["image", subtype], '/');
  }

  lemma DataUrlPayload(subtype: string, payload: string)
    requires ',' !in subtype && ',' !in payload
    ensures Payload(DataUrl(subtype, payload)) == Some(payload)
  {
    var v := DataUrl(subtype, payload);
    var head := InlinePrefix + subtype + ";base64";
    assert v == Join([head, payload], ',');
    SplitJoin([head, payload], ',');
  }

  /**
   * A stored file's extension, as the load path reads it back, is the last
   * dot-separated piece of the saved subtype: the whole subtype when it has no dot.
   */
  lemma ExtensionOfImageFile(c: Codec, img: InlineImage)
    requires IsHexDigest(c.sha256Hex(img.payload))
    ensures var pieces := Split(img.subtype, '.'); ExtensionOf(ImageFile(c, img)) == pieces[|pieces| - 1]
    ensures '.' !in img.subtype ==> ExtensionOf(ImageFile(c, img)) == img.subtype
  {
    var h := c.sha256Hex(img.payload);
    assert '.' !in h;
    assert ImageFile(c, img) == h + ['.'] + img.subtype;
    SplitAtFirst(h, img.subtype, '.');
    if '.' !in img.subtype {
      SplitWithoutSeparator(img.subtype, '.');
    }
  }

  /** A reference the save path builds points into its scope and names the file it was built from. */
  lemma ReferenceNamesFile(sc: Scope, name: string)
    requires name != [] && '/' !in name
    ensures IsReference(sc, ReferenceTo(sc, name))
    ensures Basename(ReferenceTo(sc, name)) == name
  {
    var ref := ReferenceTo(sc, name);
    assert ref[|ref| - 1] == name[|name| - 1];
    var head := "/api/images/" + sc.userId + "/" + sc.bookId;
    assert ref == head + ['/'] + name;
    SplitAtLast(head, name, '/');
  }

  /** The first `/` of `a + "/" + x`, for a slash-free `a`, is the one after `a`. */
  lemma FirstSlash(a: string, x: string)
    requires '/' !in a
    ensures forall i :: 0 <= i < |a| ==> (a + "/" + x)[i] != '/'
    ensures (a + "/" + x)[|a|] == '/'
  {
  }

  lemma SegmentsAgree(a: string, b: string, x: string, y: string)
    requires '/' !in a && '/' !in b
    requires a + "/" + x <= b + "/" + y
    ensures a == b && x <= y
  {
    FirstSlash(a, x);
    FirstSlash(b, y);
    assert (a + "/" + x)[|b|] == (b + "/" + y)[|b|] || |b| >= |a + "/" + x|;
    assert |a| == |b|;
    assert a == (a + "/" + x)[..|a|] == (b + "/" + y)[..|b|] == b;
    assert (a + "/" + x)[|a| + 1..] == x;
    assert (b + "/" + y)[|b| + 1..] == y;
  }

  /**
   * Scope isolation: when identifiers contain no `/`, a reference into one
   * scope never carries the prefix of another scope.
   */
  lemma ScopesAreIsolated(sc: Scope, other: Scope, name: string)
    requires '/' !in sc.userId && '/' !in sc.bookId
    requires '/' !in other.userId && '/' !in other.bookId
    requires sc != other
    ensures !IsReference(sc, ReferenceTo(other, name))
  {
    if IsReference(sc, ReferenceTo(other, name)) {
      var api := "/api/images/";
      var left := sc.userId + "/" + (sc.bookId + "/");
      var right := other.userId + "/" + (other.bookId + "/" + name);
      assert ReferencePrefix(sc) == api + left;
      assert ReferenceTo(other, name) == api + right;
      assert left <= right by {
        assert (api + left)[|api|..] == left;
        assert (api + right)[|api|..] == right;
      }
      SegmentsAgree(sc.userId, other.userId, sc.bookId + "/", other.bookId + "/" + name);
      assert sc.bookId + "/" + "" <= other.bookId + "/" + name;
      SegmentsAgree(sc.bookId, other.bookId, "", name);
      assert false;
    }
  }

  /** Two stored names coincide exactly when their digests and subtypes do. */
  lemma ImageFilesDistinct(c: Codec, i1: InlineImage, i2: InlineImage)
    requires IsHexDigest(c.sha256Hex(i1.payload)) && IsHexDigest(c.sha256Hex(i2.payload))
    ensures ImageFile(c, i1) == ImageFile(c, i2)
        <==> c.sha256Hex(i1.payload) == c.sha256Hex(i2.payload) && i1.subtype == i2.subtype
  {
    var n1, n2 := ImageFile(c, i1), ImageFile(c, i2);
    if n1 == n2 {
      assert n1[..64] == c.sha256Hex(i1.payload);
      assert n2[..64] == c.sha256Hex(i2.payload);
      assert n1[65..] == i1.subtype;
      assert n2[65..] == i2.subtype;
    }
  }
}
