/**
 * The OPF package editor that records a split chapter in the book: new
 * manifest items placed directly after the original chapter's item, new
 * spine itemrefs placed directly after its itemref, structure validation,
 * read-back of the manifest and spine, and the choice of fresh item ids.
 */
module ManifestUpdater {
  import opened Wrappers
  import opened Strings
  import opened Dom
  import opened Seqs
  import ChapterSplitter

  /**
   * The browser services the editor calls: `DOMParser` as `application/xml`
   * (which reports malformed input by a `parsererror` element in the result)
   * and `XMLSerializer`. Each takes or gives the document element.
   */
  datatype XmlCodec = XmlCodec(parse: string -> Node, serialize: Node -> string)

  /** A file to add to the manifest; the optional fields are JavaScript values that may be missing or empty. */
  datatype NewFile = NewFile(id: string, href: string, mediaType: Option<string>, properties: Option<string>)

  const ManifestPrefix := "Failed to update manifest: "
  const SpinePrefix := "Failed to update spine: "
  const CombinedPrefix := "Failed to update manifest and spine: "
  const ParsePrefix := "Failed to parse OPF file: "
  const NoManifest := "No manifest element found in OPF file"
  const NoSpine := "No spine element found in OPF file"
  /** The message of the `TypeError` a `for...of` over `undefined` throws, in the V8 engine's wording. */
  const NotIterable := "newFiles is not iterable"
  const InvalidUpdateData := "Invalid update data: originalId and newFiles array required"
  const XhtmlMediaType := "application/xhtml+xml"
  const DefaultLinear := "yes"
  const XmlStart := "<?xml"
  const XmlDeclaration := XmlStart + " version=\"1.0\" encoding=\"UTF-8\"?>\n"

  function ItemNotFound(id: string): string {
    "Original item with id \"" + id + "\" not found in manifest"
  }

  /** A JavaScript value that is a non-empty string (missing and empty count as false). */
  predicate Truthy(v: Option<string>) {
    v.Some? && v.value != ""
  }

  /** `item[id="..."]` and `itemref[idref="..."]`. */
  function ItemSelector(id: string): Selector { TagAttr("item", "id", id) }
  function ItemrefSelector(id: string): Selector { TagAttr("itemref", "idref", id) }

  // ---------------------------------------------------------------------------
  // Parsing and serialization
  // ---------------------------------------------------------------------------

  /** The text of the `parsererror` element the parser left in the document, if any. */
  function ParserError(doc: Node): (r: Option<string>)
    ensures r.None? <==> !Contains(doc, Tag("parsererror"))
  {
    match Find(doc, Tag("parsererror"))
    case Some(p) => Some(ChapterSplitter.TextContent(Get(doc, p)))
    case None => None
  }

  /** The declaration `_serializeXml` puts in front of output that does not start with `<?xml`. */
  function WithDeclaration(s: string): (r: string)
    ensures StartsWith(r, XmlStart)
    ensures |s| <= |r| && r[|r| - |s|..] == s
    ensures r == s || r == XmlDeclaration + s
    ensures StartsWith(s, XmlStart) <==> r == s
  {
    if StartsWith(s, XmlStart) then s
    else
      assert (XmlDeclaration + s)[..|XmlStart|] == XmlStart;
      XmlDeclaration + s
  }

  /** Adding the declaration twice adds it once. */
  lemma WithDeclarationIdempotent(s: string)
    ensures WithDeclaration(WithDeclaration(s)) == WithDeclaration(s)
  {
  }

  /** `_serializeXml`. */
  function SerializeXml(xml: XmlCodec, doc: Node): string {
    WithDeclaration(xml.serialize(doc))
  }

  // ---------------------------------------------------------------------------
  // The new elements
  // ---------------------------------------------------------------------------

  /** The `item` element made for a new file. */
  function ManifestItem(f: NewFile): (r: Node)
    ensures r.Element? && r.tag == "item" && r.children == []
    ensures GetAttribute(r.attrs, "id") == Some(f.id)
    ensures GetAttribute(r.attrs, "href") == Some(f.href)
    ensures GetAttribute(r.attrs, "media-type") == Some(if Truthy(f.mediaType) then f.mediaType.value else XhtmlMediaType)
    ensures GetAttribute(r.attrs, "properties") == if Truthy(f.properties) then f.properties else None
  {
    ItemAttrsLookup(f);
    Element("item", ItemAttrs(f), [])
  }

  /** `id`, `href`, `media-type` (the file's or XHTML), then `properties` when the file has some. */
  function ItemAttrs(f: NewFile): seq<Attr> {
    var mediaType := if Truthy(f.mediaType) then f.mediaType.value else XhtmlMediaType;
    var base := [Attr("id", f.id), Attr("href", f.href), Attr("media-type", mediaType)];
    if Truthy(f.properties) then base + [Attr("properties", f.properties.value)] else base
  }

  /** `getAttribute` on the attributes of a new item reads back the values they were built from. */
  lemma ItemAttrsLookup(f: NewFile)
    ensures GetAttribute(ItemAttrs(f), "id") == Some(f.id)
    ensures GetAttribute(ItemAttrs(f), "href") == Some(f.href)
    ensures GetAttribute(ItemAttrs(f), "media-type") == Some(if Truthy(f.mediaType) then f.mediaType.value else XhtmlMediaType)
    ensures GetAttribute(ItemAttrs(f), "properties") == if Truthy(f.properties) then f.properties else None
  {
    var mediaType := if Truthy(f.mediaType) then f.mediaType.value else XhtmlMediaType;
    var extra := if Truthy(f.properties) then [Attr("properties", f.properties.value)] else [];
    var base := [Attr("id", f.id), Attr("href", f.href), Attr("media-type", mediaType)];
    assert ItemAttrs(f) == base + extra;
    LeadingAttrsLookup(f.id, f.href, mediaType, extra);
  }

  /** The three leading attributes of an item are found first; any other name is looked up in what follows them. */
  lemma LeadingAttrsLookup(id: string, href: string, mediaType: string, extra: seq<Attr>)
    ensures var attrs := [Attr("id", id), Attr("href", href), Attr("media-type", mediaType)] + extra;
      && GetAttribute(attrs, "id") == Some(id)
      && GetAttribute(attrs, "href") == Some(href)
      && GetAttribute(attrs, "media-type") == Some(mediaType)
      && GetAttribute(attrs, "properties") == GetAttribute(extra, "properties")
  {
    var attrs := [Attr("id", id), Attr("href", href), Attr("media-type", mediaType)] + extra;
    var a1, a2 := attrs[1..], attrs[1..][1..];
    assert a1[0] == Attr("href", href) && a2[0] == Attr("media-type", mediaType) && a2[1..] == extra;
    assert "id" != "href" by { assert |"id"| != |"href"|; }
    assert "id" != "media-type" by { assert |"id"| != |"media-type"|; }
    assert "href" != "media-type" by { assert |"href"| != |"media-type"|; }
    assert "id" != "properties" by { assert |"id"| != |"properties"|; }
    assert "href" != "properties" by { assert |"href"| != |"properties"|; }
    assert "media-type" != "properties" by { assert "media-type"[0] != "properties"[0]; }
    assert GetAttribute(a2, "media-type") == Some(mediaType);
    assert GetAttribute(a1, "href") == Some(href);
    assert GetAttribute(a1, "media-type") == GetAttribute(a2, "media-type");
    assert GetAttribute(a2, "properties") == GetAttribute(extra, "properties");
    assert GetAttribute(a1, "properties") == GetAttribute(a2, "properties");
  }

  /** The `itemref` element made for a new id. */
  function SpineItemref(id: string, linear: string): (r: Node)
    ensures r.Element? && r.tag == "itemref" && r.children == []
    ensures GetAttribute(r.attrs, "idref") == Some(id)
    ensures GetAttribute(r.attrs, "linear") == Some(linear)
  {
    Element("itemref", [Attr("idref", id), Attr("linear", linear)], [])
  }

  function ManifestItems(files: seq<NewFile>): (r: seq<Node>)
    ensures |r| == |files| && forall i :: 0 <= i < |files| ==> r[i] == ManifestItem(files[i])
  {
    seq(|files|, i requires 0 <= i < |files| => ManifestItem(files[i]))
  }

  function SpineItemrefs(ids: seq<string>, linear: string): (r: seq<Node>)
    ensures |r| == |ids| && forall i :: 0 <= i < |ids| ==> r[i] == SpineItemref(ids[i], linear)
  {
    seq(|ids|, i requires 0 <= i < |ids| => SpineItemref(ids[i], linear))
  }

  /** A new `item` or `itemref` is neither a `parsererror`, nor a `manifest`, nor a `spine`, and contains none. */
  lemma NewElementsMatchNothing(n: Node, s: Selector)
    requires n.Element? && n.children == [] && n.tag in {"item", "itemref"}
    requires s.name in {"parsererror", "manifest", "spine"}
    ensures !Contains(n, s)
  {
  }

  // ---------------------------------------------------------------------------
  // updateManifest
  // ---------------------------------------------------------------------------

  /**
   * The lookups of the manifest update on the parsed document: the path to
   * the original item, or the message of the error thrown.
   */
  function LocateItem(doc: Node, originalId: string): (r: Result<Path, string>)
    ensures r.Success? ==> r.value != [] && ValidPath(doc, r.value) && Matches(ItemSelector(originalId), Get(doc, r.value))
  {
    match ParserError(doc)
    case Some(t) => Failure(ParsePrefix + t)
    case None =>
      match Find(doc, Tag("manifest"))
      case None => Failure(NoManifest)
      case Some(mp) =>
        match QuerySelector(Get(doc, mp), ItemSelector(originalId))
        case None => Failure(ItemNotFound(originalId))
        case Some(ip) =>
          GetAppend(doc, mp, ip);
          Success(mp + ip)
  }

  /**
   * `LocateItem` finds the first matching `item` below the first `manifest`:
   * its path is the manifest's path followed by the item's path inside the
   * manifest, no node before the manifest is a `manifest`, and no descendant
   * of the manifest before the item is a matching `item`.
   */
  lemma LocateItemIsFirst(doc: Node, originalId: string)
    requires LocateItem(doc, originalId).Success?
    ensures ParserError(doc).None? && Find(doc, Tag("manifest")).Some?
    ensures var mp := Find(doc, Tag("manifest")).value;
      var ip := QuerySelector(Get(doc, mp), ItemSelector(originalId));
      && ip.Some?
      && LocateItem(doc, originalId).value == mp + ip.value
      && (forall q :: ValidPath(doc, q) && Before(q, mp) ==> !Matches(Tag("manifest"), Get(doc, q)))
      && (forall q :: q != [] && ValidPath(Get(doc, mp), q) && Before(q, ip.value) ==>
            !Matches(ItemSelector(originalId), Get(Get(doc, mp), q)))
  {
    var mp := Find(doc, Tag("manifest")).value;
    forall q | ValidPath(doc, q) && Before(q, mp)
      ensures !Matches(Tag("manifest"), Get(doc, q))
    {
      FindIsFirst(doc, Tag("manifest"), q);
    }
    var m := Get(doc, mp);
    forall q | q != [] && ValidPath(m, q) && Before(q, QuerySelector(m, ItemSelector(originalId)).value)
      ensures !Matches(ItemSelector(originalId), Get(m, q))
    {
      QuerySelectorIsFirst(m, ItemSelector(originalId), q);
    }
  }

  /**
   * The manifest update on the parsed document: the document with the new
   * items in place, or the message of the error thrown.
   */
  function ManifestTree(doc: Node, originalId: string, newFiles: Option<seq<NewFile>>): Result<Node, string>
  {
    match LocateItem(doc, originalId)
    case Failure(e) => Failure(e)
    case Success(a) =>
      if newFiles.None? then Failure(NotIterable)
      else Success(InsertAfter(doc, a, ManifestItems(newFiles.value)))
  }

  /** What `updateManifest` returns, or the message it throws. */
  function ManifestUpdate(xml: XmlCodec, opf: string, originalId: string, newFiles: Option<seq<NewFile>>): Result<string, string> {
    match ManifestTree(xml.parse(opf), originalId, newFiles)
    case Failure(e) => Failure(ManifestPrefix + e)
    case Success(d) => Success(SerializeXml(xml, d))
  }

  /**
   * The manifest update succeeds exactly when the item is located and there
   * is an array of new files; its output then starts with an XML declaration,
   * and an error carries the manifest step's prefix.
   */
  lemma ManifestUpdateOutcome(xml: XmlCodec, opf: string, originalId: string, newFiles: Option<seq<NewFile>>)
    ensures var r := ManifestUpdate(xml, opf, originalId, newFiles);
      && (r.Success? <==> LocateItem(xml.parse(opf), originalId).Success? && newFiles.Some?)
      && (r.Success? ==> StartsWith(r.value, XmlStart))
      && (r.Failure? ==> StartsWith(r.error, ManifestPrefix))
  {
    var t := ManifestTree(xml.parse(opf), originalId, newFiles);
    if t.Failure? {
      StartsWithConcat(ManifestPrefix, t.error);
    }
  }

  /** A parse error is reported with the `parsererror` element's text. */
  lemma ManifestParseError(doc: Node, originalId: string, newFiles: Option<seq<NewFile>>)
    requires Contains(doc, Tag("parsererror"))
    ensures ManifestTree(doc, originalId, newFiles) == Failure(ParsePrefix + ParserError(doc).value)
  {
  }

  /** A well-formed package without a `manifest` element is rejected. */
  lemma ManifestMissing(doc: Node, originalId: string, newFiles: Option<seq<NewFile>>)
    requires !Contains(doc, Tag("parsererror")) && !Contains(doc, Tag("manifest"))
    ensures ManifestTree(doc, originalId, newFiles) == Failure(NoManifest)
  {
  }

  /** The item is looked for only below the first `manifest` element, at path `mp`. */
  lemma ManifestItemMissing(doc: Node, originalId: string, newFiles: Option<seq<NewFile>>, mp: Path)
    requires !Contains(doc, Tag("parsererror")) && Find(doc, Tag("manifest")) == Some(mp)
    requires forall j :: 0 <= j < |Children(Get(doc, mp))| ==> !Contains(Children(Get(doc, mp))[j], ItemSelector(originalId))
    ensures ManifestTree(doc, originalId, newFiles) == Failure(ItemNotFound(originalId))
  {
  }

  /** Once the item is found below the first `manifest`, the update fails only when the new files are not an array. */
  lemma ManifestItemFound(doc: Node, originalId: string, newFiles: Option<seq<NewFile>>, mp: Path)
    requires !Contains(doc, Tag("parsererror")) && Find(doc, Tag("manifest")) == Some(mp)
    requires exists j :: 0 <= j < |Children(Get(doc, mp))| && Contains(Children(Get(doc, mp))[j], ItemSelector(originalId))
    ensures ManifestTree(doc, originalId, newFiles).Success? <==> newFiles.Some?
    ensures newFiles.None? ==> ManifestTree(doc, originalId, newFiles) == Failure(NotIterable)
  {
  }

  /** The error for a missing item names the id it looked for. */
  lemma ItemNotFoundNamesId(id: string)
    ensures exists i :: OccursAt(ItemNotFound(id), id, i)
  {
    var msg := ItemNotFound(id);
    var i := |"Original item with id \""|;
    assert msg[i..i + |id|] == id;
    assert OccursAt(msg, id, i);
  }

  /**
   * On success the new items sit, in order, directly after the original
   * item (the first `item` with the id below the first `manifest`) among
   * its siblings; the original item keeps its place; and taking the new
   * items out gives back the parsed document: nothing else changes.
   */
  lemma ManifestTreeInserts(doc: Node, originalId: string, files: seq<NewFile>, a: Path)
    requires LocateItem(doc, originalId) == Success(a)
    ensures |a| > 0 && ValidPath(doc, a) && Get(doc, a).Element?
    ensures var r, parent, k := ManifestTree(doc, originalId, Some(files)).value, a[..|a| - 1], a[|a| - 1];
      && IsElementAt(doc, parent) && IsElementAt(r, parent)
      && ValidPath(r, a) && Get(r, a) == Get(doc, a) && Matches(ItemSelector(originalId), Get(r, a))
      && var old_, new_ := Get(doc, parent).children, Get(r, parent).children;
      && k < |old_| && |new_| == |old_| + |files|
      && new_[..k + 1] == old_[..k + 1]
      && new_[k + 1..k + 1 + |files|] == ManifestItems(files)
      && new_[k + 1 + |files|..] == old_[k + 1..]
      && WithChildren(r, parent, new_[..k + 1] + new_[k + 1 + |files|..]) == doc
  {
    assert ManifestTree(doc, originalId, Some(files)) == Success(InsertAfter(doc, a, ManifestItems(files)));
    assert |ManifestItems(files)| == |files|;
    InsertAfterShape(doc, a, ManifestItems(files));
  }

  /** One turn of the insertion loop: the next node goes right after those already inserted. */
  lemma SpliceStep(pre: seq<Node>, nodes: seq<Node>, post: seq<Node>, i: nat, kids: seq<Node>)
    requires i < |nodes| && kids == pre + nodes[..i] + post
    ensures kids[..|pre| + i] + [nodes[i]] + kids[|pre| + i..] == pre + nodes[..i + 1] + post
  {
    assert kids[..|pre| + i] == pre + nodes[..i];
    assert kids[|pre| + i..] == post;
    assert nodes[..i + 1] == nodes[..i] + [nodes[i]];
  }

  /** The insertion the loop performs is the one `ManifestTree` describes. */
  lemma ManifestTreeIsSplice(doc: Node, originalId: string, files: seq<NewFile>, a: Path)
    requires LocateItem(doc, originalId) == Success(a)
    ensures |a| > 0 && ValidPath(doc, a) && Get(doc, a).Element?
    ensures var parent, k := a[..|a| - 1], a[|a| - 1];
      && IsElementAt(doc, parent) && k < |Get(doc, parent).children|
      && var siblings := Get(doc, parent).children;
      ManifestTree(doc, originalId, Some(files))
        == Success(WithChildren(doc, parent, siblings[..k + 1] + ManifestItems(files) + siblings[k + 1..]))
  {
    ParentOf(doc, a);
  }

  /**
   * The insertion loop of `updateManifest`: each new item goes directly
   * after the previously inserted one, starting after the sibling at `k`.
   */
  method InsertItemsAfter(siblings: seq<Node>, k: nat, files: seq<NewFile>) returns (kids: seq<Node>)
    requires k < |siblings|
    ensures kids == siblings[..k + 1] + ManifestItems(files) + siblings[k + 1..]
  {
    ghost var items := ManifestItems(files);
    kids := siblings;
    var current := k;
    for i := 0 to |files|
      invariant current == k + i
      invariant kids == siblings[..k + 1] + items[..i] + siblings[k + 1..]
    {
      var item := ManifestItem(files[i]);
      assert kids[..current + 1] + [item] + kids[current + 1..] == siblings[..k + 1] + items[..i + 1] + siblings[k + 1..] by {
        assert item == items[i] && |siblings[..k + 1]| == current + 1 - i;
        SpliceStep(siblings[..k + 1], items, siblings[k + 1..], i, kids);
      }
      kids := kids[..current + 1] + [item] + kids[current + 1..];
      current := current + 1;
    }
    assert items[..|files|] == items;
  }

  /** `updateManifest`: look the original item up, then insert each new item after the previous one. */
  method UpdateManifest(xml: XmlCodec, opfContent: string, originalId: string, newFiles: Option<seq<NewFile>>)
    returns (r: Result<string, string>)
    ensures r == ManifestUpdate(xml, opfContent, originalId, newFiles)
  {
    var doc := xml.parse(opfContent);
    var located := LocateItem(doc, originalId);
    if located.Failure? {
      assert ManifestTree(doc, originalId, newFiles) == Failure(located.error);
      return Failure(ManifestPrefix + located.error);
    }
    var anchor := located.value;
    if newFiles.None? {
      assert ManifestTree(doc, originalId, newFiles) == Failure(NotIterable);
      return Failure(ManifestPrefix + NotIterable);
    }
    var files := newFiles.value;
    ManifestTreeIsSplice(doc, originalId, files, anchor);
    var parent, k := anchor[..|anchor| - 1], anchor[|anchor| - 1];
    var kids := InsertItemsAfter(Get(doc, parent).children, k, files);
    assert ManifestTree(doc, originalId, newFiles) == Success(WithChildren(doc, parent, kids));
    r := Success(SerializeXml(xml, WithChildren(doc, parent, kids)));
  }

  // ---------------------------------------------------------------------------
  // updateSpine
  // ---------------------------------------------------------------------------

  /** `getAttribute('linear') || 'yes'`: never empty, so every new itemref gets a `linear` attribute. */
  function LinearOf(itemref: Node): (r: string)
    requires itemref.Element?
    ensures r != ""
    ensures Truthy(GetAttribute(itemref.attrs, "linear")) ==> Some(r) == GetAttribute(itemref.attrs, "linear")
    ensures !Truthy(GetAttribute(itemref.attrs, "linear")) ==> r == DefaultLinear
  {
    var v := GetAttribute(itemref.attrs, "linear");
    if Truthy(v) then v.value else DefaultLinear
  }

  /**
   * The lookups of the spine update on the parsed document: the path to the
   * original itemref, none when the spine does not list the id, or the
   * message of the error thrown.
   */
  function LocateItemref(doc: Node, originalId: string): (r: Result<Option<Path>, string>)
    ensures r.Success? && r.value.Some? ==>
      r.value.value != [] && ValidPath(doc, r.value.value) && Matches(ItemrefSelector(originalId), Get(doc, r.value.value))
  {
    match ParserError(doc)
    case Some(t) => Failure(ParsePrefix + t)
    case None =>
      match Find(doc, Tag("spine"))
      case None => Failure(NoSpine)
      case Some(sp) =>
        match QuerySelector(Get(doc, sp), ItemrefSelector(originalId))
        case None => Success(None)
        case Some(ip) =>
          GetAppend(doc, sp, ip);
          Success(Some(sp + ip))
  }

  /**
   * `LocateItemref` finds the first matching `itemref` below the first
   * `spine`, and answers none only when the first spine has no such itemref.
   */
  lemma LocateItemrefIsFirst(doc: Node, originalId: string)
    requires LocateItemref(doc, originalId).Success?
    ensures ParserError(doc).None? && Find(doc, Tag("spine")).Some?
    ensures var sp := Find(doc, Tag("spine")).value;
      var ip := QuerySelector(Get(doc, sp), ItemrefSelector(originalId));
      && (forall q :: ValidPath(doc, q) && Before(q, sp) ==> !Matches(Tag("spine"), Get(doc, q)))
      && (LocateItemref(doc, originalId).value.None? <==> ip.None?)
      && (ip.Some? ==>
            && LocateItemref(doc, originalId).value == Some(sp + ip.value)
            && (forall q :: q != [] && ValidPath(Get(doc, sp), q) && Before(q, ip.value) ==>
                  !Matches(ItemrefSelector(originalId), Get(Get(doc, sp), q))))
  {
    var sp := Find(doc, Tag("spine")).value;
    forall q | ValidPath(doc, q) && Before(q, sp)
      ensures !Matches(Tag("spine"), Get(doc, q))
    {
      FindIsFirst(doc, Tag("spine"), q);
    }
    var m := Get(doc, sp);
    if QuerySelector(m, ItemrefSelector(originalId)).Some? {
      forall q | q != [] && ValidPath(m, q) && Before(q, QuerySelector(m, ItemrefSelector(originalId)).value)
        ensures !Matches(ItemrefSelector(originalId), Get(m, q))
      {
        QuerySelectorIsFirst(m, ItemrefSelector(originalId), q);
      }
    }
  }

  /** The spine update on the parsed document: the new document, none when nothing is to be done, or the error message. */
  function SpineTree(doc: Node, originalId: string, newIds: seq<string>): Result<Option<Node>, string>
  {
    match LocateItemref(doc, originalId)
    case Failure(e) => Failure(e)
    case Success(None) => Success(None)
    case Success(Some(a)) => Success(Some(InsertAfter(doc, a, SpineItemrefs(newIds, LinearOf(Get(doc, a))))))
  }

  /** What `updateSpine` returns, or the message it throws. */
  function SpineUpdate(xml: XmlCodec, opf: string, originalId: string, newIds: seq<string>): Result<string, string> {
    match SpineTree(xml.parse(opf), originalId, newIds)
    case Failure(e) => Failure(SpinePrefix + e)
    case Success(None) => Success(opf)
    case Success(Some(d)) => Success(SerializeXml(xml, d))
  }

  /**
   * The spine update fails exactly on a parse error or a missing spine, and
   * then with the spine step's prefix; it hands the input back unchanged
   * exactly when the first spine lists no itemref with the id, and otherwise
   * its output starts with an XML declaration.
   */
  lemma SpineUpdateOutcome(xml: XmlCodec, opf: string, originalId: string, newIds: seq<string>)
    ensures var doc, r := xml.parse(opf), SpineUpdate(xml, opf, originalId, newIds);
      && (r.Success? <==> !Contains(doc, Tag("parsererror")) && Contains(doc, Tag("spine")))
      && (r.Failure? ==> StartsWith(r.error, SpinePrefix))
      && (SpineTree(doc, originalId, newIds) == Success(None) <==> LocateItemref(doc, originalId) == Success(None))
      && (SpineTree(doc, originalId, newIds) == Success(None) ==> r == Success(opf))
      && (r.Success? && SpineTree(doc, originalId, newIds) != Success(None) ==> StartsWith(r.value, XmlStart))
  {
    var t := SpineTree(xml.parse(opf), originalId, newIds);
    if t.Failure? {
      StartsWithConcat(SpinePrefix, t.error);
    }
  }

  /** A well-formed package without a `spine` element is rejected. */
  lemma SpineMissing(xml: XmlCodec, opf: string, originalId: string, newIds: seq<string>)
    requires !Contains(xml.parse(opf), Tag("parsererror")) && !Contains(xml.parse(opf), Tag("spine"))
    ensures SpineUpdate(xml, opf, originalId, newIds) == Failure(SpinePrefix + NoSpine)
  {
  }

  /** When the first spine lists no itemref with the id, the input comes back untouched, not re-serialized. */
  lemma SpineNotListed(xml: XmlCodec, opf: string, originalId: string, newIds: seq<string>, sp: Path)
    requires !Contains(xml.parse(opf), Tag("parsererror")) && Find(xml.parse(opf), Tag("spine")) == Some(sp)
    requires var kids := Children(Get(xml.parse(opf), sp));
      forall j :: 0 <= j < |kids| ==> !Contains(kids[j], ItemrefSelector(originalId))
    ensures SpineUpdate(xml, opf, originalId, newIds) == Success(opf)
  {
    var doc := xml.parse(opf);
    assert QuerySelector(Get(doc, sp), ItemrefSelector(originalId)).None?;
  }

  /**
   * When the original itemref is found, the new itemrefs sit, in order,
   * directly after it among its siblings, each naming its id and carrying
   * the original's `linear` value (or "yes"); taking them out gives back the
   * parsed document: nothing else changes.
   */
  lemma SpineTreeInserts(doc: Node, originalId: string, newIds: seq<string>, a: Path)
    requires LocateItemref(doc, originalId) == Success(Some(a))
    ensures |a| > 0 && ValidPath(doc, a) && Get(doc, a).Element?
    ensures var r, parent, k := SpineTree(doc, originalId, newIds).value.value, a[..|a| - 1], a[|a| - 1];
      && IsElementAt(doc, parent) && IsElementAt(r, parent)
      && ValidPath(r, a) && Get(r, a) == Get(doc, a)
      && var old_, new_ := Get(doc, parent).children, Get(r, parent).children;
      && k < |old_| && |new_| == |old_| + |newIds|
      && new_[..k + 1] == old_[..k + 1]
      && new_[k + 1..k + 1 + |newIds|] == SpineItemrefs(newIds, LinearOf(Get(doc, a)))
      && new_[k + 1 + |newIds|..] == old_[k + 1..]
      && WithChildren(r, parent, new_[..k + 1] + new_[k + 1 + |newIds|..]) == doc
  {
    InsertAfterShape(doc, a, SpineItemrefs(newIds, LinearOf(Get(doc, a))));
  }

  /** The insertion `updateSpine`'s loop performs is the one `SpineTree` describes. */
  lemma SpineTreeIsSplice(doc: Node, originalId: string, newIds: seq<string>, a: Path)
    requires LocateItemref(doc, originalId) == Success(Some(a))
    ensures |a| > 0 && ValidPath(doc, a) && Get(doc, a).Element?
    ensures var parent, k := a[..|a| - 1], a[|a| - 1];
      && IsElementAt(doc, parent) && k < |Get(doc, parent).children|
      && var siblings := Get(doc, parent).children;
      SpineTree(doc, originalId, newIds)
        == Success(Some(WithChildren(doc, parent, siblings[..k + 1] + SpineItemrefs(newIds, LinearOf(Get(doc, a))) + siblings[k + 1..])))
  {
    ParentOf(doc, a);
  }

  /**
   * The insertion loop of `updateSpine`: each new itemref goes directly
   * after the previously inserted one, starting after the sibling at `k`;
   * `linear` is set when the value is not empty, which the caller ensures.
   */
  method InsertItemrefsAfter(siblings: seq<Node>, k: nat, newIds: seq<string>, linearValue: string) returns (kids: seq<Node>)
    requires k < |siblings| && linearValue != ""
    ensures kids == siblings[..k + 1] + SpineItemrefs(newIds, linearValue) + siblings[k + 1..]
  {
    ghost var refs := SpineItemrefs(newIds, linearValue);
    kids := siblings;
    var current := k;
    for i := 0 to |newIds|
      invariant current == k + i
      invariant kids == siblings[..k + 1] + refs[..i] + siblings[k + 1..]
    {
      var id := newIds[i];
      var itemref := if linearValue != "" then SpineItemref(id, linearValue) else Element("itemref", [Attr("idref", id)], []);
      assert kids[..current + 1] + [itemref] + kids[current + 1..] == siblings[..k + 1] + refs[..i + 1] + siblings[k + 1..] by {
        assert itemref == refs[i] && |siblings[..k + 1]| == current + 1 - i;
        SpliceStep(siblings[..k + 1], refs, siblings[k + 1..], i, kids);
      }
      kids := kids[..current + 1] + [itemref] + kids[current + 1..];
      current := current + 1;
    }
    assert refs[..|newIds|] == refs;
  }

  /** `updateSpine`: look the original itemref up, then insert each new itemref after the previous one. */
  method UpdateSpine(xml: XmlCodec, opfContent: string, originalId: string, newIds: seq<string>)
    returns (r: Result<string, string>)
    ensures r == SpineUpdate(xml, opfContent, originalId, newIds)
  {
    var doc := xml.parse(opfContent);
    var located := LocateItemref(doc, originalId);
    if located.Failure? {
      return Failure(SpinePrefix + located.error);
    }
    if located.value.None? {
      return Success(opfContent);
    }
    var anchor := located.value.value;
    SpineTreeIsSplice(doc, originalId, newIds, anchor);
    var linearValue := LinearOf(Get(doc, anchor));
    var parent, k := anchor[..|anchor| - 1], anchor[|anchor| - 1];
    var kids := InsertItemrefsAfter(Get(doc, parent).children, k, newIds, linearValue);
    r := Success(SerializeXml(xml, WithChildren(doc, parent, kids)));
  }

  // ---------------------------------------------------------------------------
  // updateManifestAndSpine
  // ---------------------------------------------------------------------------

  /** `newFiles.map(file => file.id)`. */
  function FileIds(files: seq<NewFile>): (r: seq<string>)
    ensures |r| == |files| && forall i :: 0 <= i < |files| ==> r[i] == files[i].id
  {
    seq(|files|, i requires 0 <= i < |files| => files[i].id)
  }

  /** `String(newFiles)`: what an array of file objects becomes when it is passed where a string id is expected. */
  function ArrayAsString(files: seq<NewFile>): string {
    Join(",", seq(|files|, i => "[object Object]"))
  }

  /** Without an array of new files, the manifest update always fails: it finds the item and then cannot iterate. */
  lemma ManifestUpdateWithoutFilesFails(xml: XmlCodec, opf: string, originalId: string)
    ensures ManifestUpdate(xml, opf, originalId, None).Failure?
  {
  }

  /**
   * `updateManifestAndSpine` as written: the manifest step is called with
   * the file array in the id's place and nothing in the files' place, so
   * every call ends in an error, whatever the package holds.
   */
  method UpdateManifestAndSpineAsWritten(xml: XmlCodec, opfContent: string, originalId: Option<string>, newFiles: Option<seq<NewFile>>)
    returns (r: Result<string, string>)
    ensures r.Failure?
    ensures !Truthy(originalId) || newFiles.None? ==> r == Failure(CombinedPrefix + InvalidUpdateData)
    ensures Truthy(originalId) && newFiles.Some? ==>
      r == Failure(CombinedPrefix + ManifestUpdate(xml, opfContent, ArrayAsString(newFiles.value), None).error)
  {
    if !Truthy(originalId) || newFiles.None? {
      return Failure(CombinedPrefix + InvalidUpdateData);
    }
    var updated := UpdateManifest(xml, opfContent, ArrayAsString(newFiles.value), None);
    ManifestUpdateWithoutFilesFails(xml, opfContent, ArrayAsString(newFiles.value));
    if updated.Success? {
      assert false;
    }
    r := Failure(CombinedPrefix + updated.error);
  }

  /** What `updateManifestAndSpine` returns, or the message it throws, once the id is passed to the manifest step. */
  function ManifestAndSpineUpdate(xml: XmlCodec, opf: string, originalId: Option<string>, newFiles: Option<seq<NewFile>>): Result<string, string> {
    if !Truthy(originalId) || newFiles.None? then Failure(CombinedPrefix + InvalidUpdateData)
    else
      match ManifestUpdate(xml, opf, originalId.value, newFiles)
      case Failure(e) => Failure(CombinedPrefix + e)
      case Success(updated) =>
        match SpineUpdate(xml, updated, originalId.value, FileIds(newFiles.value))
        case Failure(e) => Failure(CombinedPrefix + e)
        case Success(result) => Success(result)
  }

  /**
   * The composition succeeds only with an id, an array of files and a
   * successful manifest step; its output then starts with an XML
   * declaration, and an error carries the composition's prefix.
   */
  lemma ManifestAndSpineOutcome(xml: XmlCodec, opf: string, originalId: Option<string>, newFiles: Option<seq<NewFile>>)
    ensures var r := ManifestAndSpineUpdate(xml, opf, originalId, newFiles);
      && (r.Success? ==> Truthy(originalId) && newFiles.Some? && ManifestUpdate(xml, opf, originalId.value, newFiles).Success?)
      && (r.Success? ==> StartsWith(r.value, XmlStart))
      && (r.Failure? ==> StartsWith(r.error, CombinedPrefix))
  {
    var r := ManifestAndSpineUpdate(xml, opf, originalId, newFiles);
    if r.Failure? {
      StartsWithConcat(CombinedPrefix, r.error[|CombinedPrefix|..]);
      assert CombinedPrefix + r.error[|CombinedPrefix|..] == r.error;
    } else {
      var m := ManifestUpdate(xml, opf, originalId.value, newFiles);
      ManifestUpdateOutcome(xml, opf, originalId.value, newFiles);
      SpineUpdateOutcome(xml, m.value, originalId.value, FileIds(newFiles.value));
    }
  }

  /** `updateManifestAndSpine` with the original id passed to the manifest step. */
  method UpdateManifestAndSpine(xml: XmlCodec, opfContent: string, originalId: Option<string>, newFiles: Option<seq<NewFile>>)
    returns (r: Result<string, string>)
    ensures r == ManifestAndSpineUpdate(xml, opfContent, originalId, newFiles)
  {
    if !Truthy(originalId) || newFiles.None? {
      return Failure(CombinedPrefix + InvalidUpdateData);
    }
    var updated := UpdateManifest(xml, opfContent, originalId.value, newFiles);
    if updated.Failure? {
      return Failure(CombinedPrefix + updated.error);
    }
    var newIds := FileIds(newFiles.value);
    var result := UpdateSpine(xml, updated.value, originalId.value, newIds);
    if result.Failure? {
      return Failure(CombinedPrefix + result.error);
    }
    r := result;
  }

  /**
   * Parsing what the serializer wrote gives no parse error and keeps a spine,
   * for any document that had no parse error and had a spine. This is weaker
   * than an exact round trip: adjacent text may merge, comments may change.
   */
  ghost predicate KeepsWellFormedSpine(xml: XmlCodec) {
    forall d {:trigger SerializeXml(xml, d)} :: !Contains(d, Tag("parsererror")) && Contains(d, Tag("spine")) ==>
      var back := xml.parse(SerializeXml(xml, d));
      !Contains(back, Tag("parsererror")) && Contains(back, Tag("spine"))
  }

  /**
   * For a well-formed package whose first manifest has an item with the id
   * and which has a spine, the corrected composition succeeds: the inserted
   * items add no parse error and remove no spine.
   */
  lemma CorrectedCompositionSucceeds(xml: XmlCodec, opf: string, originalId: string, files: seq<NewFile>, mp: Path)
    requires KeepsWellFormedSpine(xml) && originalId != ""
    requires var doc := xml.parse(opf);
      && !Contains(doc, Tag("parsererror")) && Contains(doc, Tag("spine"))
      && Find(doc, Tag("manifest")) == Some(mp)
      && exists j :: 0 <= j < |Children(Get(doc, mp))| && Contains(Children(Get(doc, mp))[j], ItemSelector(originalId))
    ensures ManifestAndSpineUpdate(xml, opf, Some(originalId), Some(files)).Success?
    ensures ManifestAndSpineUpdate(xml, opf, Some(originalId), Some(files)).value
      == SpineUpdate(xml, ManifestUpdate(xml, opf, originalId, Some(files)).value, originalId, FileIds(files)).value
  {
    var doc := xml.parse(opf);
    assert ManifestTree(doc, originalId, Some(files)).Success? by {
      ManifestItemFound(doc, originalId, Some(files), mp);
    }
    var d1 := ManifestTree(doc, originalId, Some(files)).value;
    var s1 := SerializeXml(xml, d1);
    assert ManifestUpdate(xml, opf, originalId, Some(files)) == Success(s1);
    assert SpineUpdate(xml, s1, originalId, FileIds(files)).Success? by {
      ManifestTreeKeepsSpine(doc, originalId, files);
      SpineTreeSucceeds(xml.parse(s1), originalId, FileIds(files));
    }
    CompositionOfSuccesses(xml, opf, originalId, files);
  }

  /** When both steps succeed, the composition returns what the spine step returns on the manifest step's output. */
  lemma CompositionOfSuccesses(xml: XmlCodec, opf: string, originalId: string, files: seq<NewFile>)
    requires originalId != "" && ManifestUpdate(xml, opf, originalId, Some(files)).Success?
    requires SpineUpdate(xml, ManifestUpdate(xml, opf, originalId, Some(files)).value, originalId, FileIds(files)).Success?
    ensures ManifestAndSpineUpdate(xml, opf, Some(originalId), Some(files))
      == SpineUpdate(xml, ManifestUpdate(xml, opf, originalId, Some(files)).value, originalId, FileIds(files))
  {
  }

  /** A successful manifest update leaves a well-formed document that still has a spine when the original had one. */
  lemma ManifestTreeKeepsSpine(doc: Node, originalId: string, files: seq<NewFile>)
    requires ManifestTree(doc, originalId, Some(files)).Success? && Contains(doc, Tag("spine"))
    ensures var d := ManifestTree(doc, originalId, Some(files)).value;
      !Contains(d, Tag("parsererror")) && Contains(d, Tag("spine"))
  {
    var a := LocateItem(doc, originalId).value;
    var items := ManifestItems(files);
    forall j | 0 <= j < |items| ensures !Contains(items[j], Tag("parsererror")) {
      NewElementsMatchNothing(items[j], Tag("parsererror"));
    }
    InsertAfterNoNewMatch(doc, a, items, Tag("parsererror"));
    InsertAfterContains(doc, a, items, Tag("spine"));
  }

  /** On a well-formed document with a spine the spine update does not fail. */
  lemma SpineTreeSucceeds(doc: Node, originalId: string, newIds: seq<string>)
    requires !Contains(doc, Tag("parsererror")) && Contains(doc, Tag("spine"))
    ensures SpineTree(doc, originalId, newIds).Success?
  {
  }

  // ---------------------------------------------------------------------------
  // validateOpfStructure
  // ---------------------------------------------------------------------------

  /** The outcome of `validateOpfStructure`: the four elements found, or the reason the package is rejected. */
  datatype Validation =
    | Valid(package: Path, manifest: Path, spine: Path, metadata: Path)
    | Invalid(error: string)

  const XmlErrorPrefix := "XML parsing error: "
  const MissingPrefix := "Missing required elements: "
  /** The elements a package must hold, in the order they are reported missing. */
  const RequiredElements := ["package", "manifest", "spine", "metadata"]

  /** The names among `names`, in their order, that no element of `doc` carries. */
  function MissingOf(doc: Node, names: seq<string>): seq<string> {
    if names == [] then []
    else MissingFlag(doc, names[0]) + MissingOf(doc, names[1..])
  }

  /** `[t]` when no element of `doc` is named `t`, nothing otherwise. */
  function MissingFlag(doc: Node, t: string): seq<string> {
    if Contains(doc, Tag(t)) then [] else [t]
  }

  /** Exactly the names without an element are reported, and no more of them than were asked about. */
  lemma {:induction false} MissingOfMembers(doc: Node, names: seq<string>)
    ensures forall t :: t in MissingOf(doc, names) <==> t in names && !Contains(doc, Tag(t))
    ensures |MissingOf(doc, names)| <= |names|
  {
    if names != [] {
      MissingOfMembers(doc, names[1..]);
      assert forall t :: t in names <==> t == names[0] || t in names[1..];
    }
  }

  /** What `validateOpfStructure` returns. */
  function OpfValidation(xml: XmlCodec, opf: string): (v: Validation)
    ensures Contains(xml.parse(opf), Tag("parsererror")) ==> v.Invalid? && StartsWith(v.error, XmlErrorPrefix)
    ensures v.Invalid? ==> StartsWith(v.error, XmlErrorPrefix) || StartsWith(v.error, MissingPrefix)
  {
    var doc := xml.parse(opf);
    match ParserError(doc)
    case Some(t) => StartsWithConcat(XmlErrorPrefix, t); Invalid(XmlErrorPrefix + t)
    case None =>
      var missing := MissingOf(doc, RequiredElements);
      if missing != [] then StartsWithConcat(MissingPrefix, Join(", ", missing)); Invalid(MissingPrefix + Join(", ", missing))
      else
        NoneMissing(doc);
        Valid(Find(doc, Tag("package")).value, Find(doc, Tag("manifest")).value,
                 Find(doc, Tag("spine")).value, Find(doc, Tag("metadata")).value)
  }

  /** With no name missing, each required element is there. */
  lemma NoneMissing(doc: Node)
    requires MissingOf(doc, RequiredElements) == []
    ensures Contains(doc, Tag("package")) && Contains(doc, Tag("manifest"))
    ensures Contains(doc, Tag("spine")) && Contains(doc, Tag("metadata"))
  {
    MissingOfMembers(doc, RequiredElements);
    assert "package" !in MissingOf(doc, RequiredElements);
    assert "manifest" !in MissingOf(doc, RequiredElements);
    assert "spine" !in MissingOf(doc, RequiredElements);
    assert "metadata" !in MissingOf(doc, RequiredElements);
  }

  /**
   * A package is valid exactly when it parses and holds all four required
   * elements; the paths then lead to the first element of each name.
   */
  lemma ValidationValid(xml: XmlCodec, opf: string)
    ensures var doc := xml.parse(opf);
      OpfValidation(xml, opf).Valid? <==> !Contains(doc, Tag("parsererror")) && forall t :: t in RequiredElements ==> Contains(doc, Tag(t))
    ensures var doc, v := xml.parse(opf), OpfValidation(xml, opf);
      v.Valid? ==>
        && Some(v.package) == Find(doc, Tag("package")) && Some(v.manifest) == Find(doc, Tag("manifest"))
        && Some(v.spine) == Find(doc, Tag("spine")) && Some(v.metadata) == Find(doc, Tag("metadata"))
  {
    var doc := xml.parse(opf);
    var missing := MissingOf(doc, RequiredElements);
    MissingOfMembers(doc, RequiredElements);
    if missing != [] {
      assert missing[0] in missing;
    } else {
      NoneMissing(doc);
    }
  }

  /** A malformed package is reported with the parser's message. */
  lemma ValidationParseError(xml: XmlCodec, opf: string)
    requires Contains(xml.parse(opf), Tag("parsererror"))
    ensures OpfValidation(xml, opf) == Invalid(XmlErrorPrefix + ParserError(xml.parse(opf)).value)
  {
  }

  /** A well-formed package lacking required elements is reported with the list of exactly those that are missing. */
  lemma ValidationMissing(xml: XmlCodec, opf: string)
    requires !Contains(xml.parse(opf), Tag("parsererror"))
    requires exists t :: t in RequiredElements && !Contains(xml.parse(opf), Tag(t))
    ensures exists missing: seq<string> ::
      && OpfValidation(xml, opf) == Invalid(MissingPrefix + Join(", ", missing))
      && missing != [] && |missing| <= |RequiredElements|
      && forall t :: t in missing <==> t in RequiredElements && !Contains(xml.parse(opf), Tag(t))
  {
    var doc := xml.parse(opf);
    var missing := MissingOf(doc, RequiredElements);
    MissingOfMembers(doc, RequiredElements);
    var t :| t in RequiredElements && !Contains(doc, Tag(t));
    assert t in missing;
    assert ParserError(doc).None?;
    assert OpfValidation(xml, opf) == Invalid(MissingPrefix + Join(", ", missing));
  }

  /** The required names are reported one flag at a time, in order. */
  lemma MissingOfRequired(doc: Node)
    ensures MissingOf(doc, RequiredElements)
      == MissingFlag(doc, "package") + MissingFlag(doc, "manifest") + MissingFlag(doc, "spine") + MissingFlag(doc, "metadata")
  {
    var f1, f2, f3, f4 := MissingFlag(doc, "package"), MissingFlag(doc, "manifest"), MissingFlag(doc, "spine"), MissingFlag(doc, "metadata");
    RequiredTails();
    MissingOfCons(doc, RequiredElements);
    MissingOfCons(doc, RequiredElements[1..]);
    MissingOfCons(doc, RequiredElements[2..]);
    MissingOfCons(doc, RequiredElements[3..]);
    assert MissingOf(doc, []) == [];
    AppendAssoc(f1, f2, f3 + f4);
    AppendAssoc(f1 + f2, f3, f4);
  }

  /** The first name is reported, or not, before the rest. */
  lemma MissingOfCons(doc: Node, names: seq<string>)
    requires names != []
    ensures MissingOf(doc, names) == MissingFlag(doc, names[0]) + MissingOf(doc, names[1..])
  {
  }

  /** The suffixes of the list of required names. */
  lemma RequiredTails()
    ensures RequiredElements[0] == "package" && RequiredElements[1..][0] == "manifest"
    ensures RequiredElements[2..][0] == "spine" && RequiredElements[3..][0] == "metadata"
    ensures RequiredElements[1..][1..] == RequiredElements[2..] && RequiredElements[2..][1..] == RequiredElements[3..]
    ensures RequiredElements[3..] != [] && RequiredElements[3..][1..] == []
  {
  }

  /** `validateOpfStructure`: collect the names of the missing elements one check at a time. */
  method ValidateOpfStructure(xml: XmlCodec, opfContent: string) returns (r: Validation)
    ensures r == OpfValidation(xml, opfContent)
  {
    var doc := xml.parse(opfContent);
    var parserError := ParserError(doc);
    if parserError.Some? {
      return Invalid(XmlErrorPrefix + parserError.value);
    }
    var packageElement := Find(doc, Tag("package"));
    var manifest := Find(doc, Tag("manifest"));
    var spine := Find(doc, Tag("spine"));
    var metadata := Find(doc, Tag("metadata"));
    var missing: seq<string> := [];
    if packageElement.None? { missing := missing + ["package"]; }
    assert missing == MissingFlag(doc, "package");
    if manifest.None? { missing := missing + ["manifest"]; }
    assert missing == MissingFlag(doc, "package") + MissingFlag(doc, "manifest");
    if spine.None? { missing := missing + ["spine"]; }
    assert missing == MissingFlag(doc, "package") + MissingFlag(doc, "manifest") + MissingFlag(doc, "spine");
    if metadata.None? { missing := missing + ["metadata"]; }
    assert missing == MissingFlag(doc, "package") + MissingFlag(doc, "manifest") + MissingFlag(doc, "spine") + MissingFlag(doc, "metadata");
    MissingOfRequired(doc);
    if |missing| > 0 {
      return Invalid(MissingPrefix + Join(", ", missing));
    }
    r := Valid(packageElement.value, manifest.value, spine.value, metadata.value);
  }

  // ---------------------------------------------------------------------------
  // getExistingManifestItems and getExistingSpineItems
  // ---------------------------------------------------------------------------

  /** What is read back from an `item`: each attribute, null when absent. */
  datatype ManifestEntry = ManifestEntry(id: Option<string>, href: Option<string>, mediaType: Option<string>, properties: Option<string>)

  /** What is read back from an `itemref`: its `idref`, and its `linear` value or "yes". */
  datatype SpineEntry = SpineEntry(idref: Option<string>, linear: string)

  function ManifestEntryOf(item: Node): ManifestEntry
    requires item.Element?
  {
    ManifestEntry(GetAttribute(item.attrs, "id"), GetAttribute(item.attrs, "href"),
                  GetAttribute(item.attrs, "media-type"), GetAttribute(item.attrs, "properties"))
  }

  function SpineEntryOf(itemref: Node): SpineEntry
    requires itemref.Element?
  {
    SpineEntry(GetAttribute(itemref.attrs, "idref"), LinearOf(itemref))
  }

  /**
   * `getExistingManifestItems`: one entry per `item` below the first
   * manifest, in document order; none when there is no manifest. A parse
   * error is not checked for.
   */
  function ExistingManifestItems(xml: XmlCodec, opf: string): (r: seq<ManifestEntry>)
    ensures !Contains(xml.parse(opf), Tag("manifest")) ==> r == []
    ensures Contains(xml.parse(opf), Tag("manifest")) ==>
      var items := AllIn(Children(Get(xml.parse(opf), Find(xml.parse(opf), Tag("manifest")).value)), Tag("item"));
      |r| == |items| && forall i :: 0 <= i < |items| ==> items[i].Element? && r[i] == ManifestEntryOf(items[i])
  {
    var doc := xml.parse(opf);
    match Find(doc, Tag("manifest"))
    case None => []
    case Some(m) =>
      var items := AllIn(Children(Get(doc, m)), Tag("item"));
      AllInMatches(Children(Get(doc, m)), Tag("item"));
      seq(|items|, i requires 0 <= i < |items| => ManifestEntryOf(items[i]))
  }

  /**
   * `getExistingSpineItems`: one entry per `itemref` below the first spine,
   * in document order; none when there is no spine. Every entry has a
   * non-empty `linear`.
   */
  function ExistingSpineItems(xml: XmlCodec, opf: string): (r: seq<SpineEntry>)
    ensures !Contains(xml.parse(opf), Tag("spine")) ==> r == []
    ensures Contains(xml.parse(opf), Tag("spine")) ==>
      var refs := AllIn(Children(Get(xml.parse(opf), Find(xml.parse(opf), Tag("spine")).value)), Tag("itemref"));
      |r| == |refs| && forall i :: 0 <= i < |refs| ==> refs[i].Element? && r[i] == SpineEntryOf(refs[i])
    ensures forall i :: 0 <= i < |r| ==> r[i].linear != ""
  {
    var doc := xml.parse(opf);
    match Find(doc, Tag("spine"))
    case None => []
    case Some(sp) =>
      var refs := AllIn(Children(Get(doc, sp)), Tag("itemref"));
      AllInMatches(Children(Get(doc, sp)), Tag("itemref"));
      seq(|refs|, i requires 0 <= i < |refs| => SpineEntryOf(refs[i]))
  }

  /** An item made for a new file reads back as that file's id, href, media type and properties. */
  lemma ManifestItemReadBack(f: NewFile)
    ensures ManifestEntryOf(ManifestItem(f)) == ManifestEntry(
      Some(f.id), Some(f.href),
      Some(if Truthy(f.mediaType) then f.mediaType.value else XhtmlMediaType),
      if Truthy(f.properties) then f.properties else None)
  {
  }

  /** An itemref made for a new id reads back as that id and the `linear` value it was given, when that is not empty. */
  lemma SpineItemrefReadBack(id: string, linear: string)
    requires linear != ""
    ensures SpineEntryOf(SpineItemref(id, linear)) == SpineEntry(Some(id), linear)
  {
  }

  // ---------------------------------------------------------------------------
  // generateUniqueIds
  // ---------------------------------------------------------------------------

  /** The id proposed for the `i`-th part: the base id itself, then `base_-i`. */
  function BaseFor(baseId: string, i: nat): string {
    if i == 0 then baseId else baseId + "_-" + NatToString(i)
  }

  /** The `k`-th candidate tried for a proposed id: the id itself, then `id_k`. */
  function Cand(x: string, k: nat): string {
    if k == 0 then x else x + "_" + NatToString(k)
  }

  /** Distinct counters give distinct candidates. */
  lemma CandInjective(x: string, a: nat, b: nat)
    requires Cand(x, a) == Cand(x, b)
    ensures a == b
  {
    if a != 0 && b != 0 {
      var c := Cand(x, a);
      assert NatToString(a) == c[|x| + 1..] == NatToString(b);
      NatToStringInjective(a, b);
    }
  }

  /** The first `k` candidates for `x`. */
  ghost function Candidates(x: string, k: nat): set<string> {
    if k == 0 then {} else Candidates(x, k - 1) + {Cand(x, k - 1)}
  }

  lemma {:induction false} CandidatesBelow(x: string, k: nat, m: nat)
    requires k <= m
    ensures Cand(x, m) !in Candidates(x, k)
  {
    if k > 0 {
      CandidatesBelow(x, k - 1, m);
      assert Cand(x, m) != Cand(x, k - 1) by {
        if Cand(x, m) == Cand(x, k - 1) {
          CandInjective(x, m, k - 1);
        }
      }
    }
  }

  lemma {:induction false} CandidatesCount(x: string, k: nat)
    ensures |Candidates(x, k)| == k
  {
    if k > 0 {
      CandidatesCount(x, k - 1);
      CandidatesBelow(x, k - 1, k - 1);
    }
  }

  lemma {:induction false} CandidatesTaken(x: string, taken: set<string>, k: nat)
    requires forall j :: 0 <= j < k ==> Cand(x, j) in taken
    ensures Candidates(x, k) <= taken
  {
    if k > 0 {
      CandidatesTaken(x, taken, k - 1);
    }
  }

  /** When the first `k` candidates are all taken, there are at least `k` taken ids. */
  lemma TakenBound(x: string, taken: set<string>, k: nat)
    requires forall j :: 0 <= j < k ==> Cand(x, j) in taken
    ensures k <= |taken|
  {
    CandidatesCount(x, k);
    CandidatesTaken(x, taken, k);
    assert taken == Candidates(x, k) + (taken - Candidates(x, k));
  }

  /** The counter at which the search for a free candidate, started at `k`, stops. */
  function LeastFree(x: string, taken: set<string>, k: nat): (r: nat)
    requires forall j :: 0 <= j < k ==> Cand(x, j) in taken
    ensures k <= r && Cand(x, r) !in taken
    ensures forall j :: 0 <= j < r ==> Cand(x, j) in taken
    decreases |taken| - k
  {
    if Cand(x, k) !in taken then k
    else
      TakenBound(x, taken, k + 1);
      LeastFree(x, taken, k + 1)
  }

  /** The search stops at the first free candidate, and only there. */
  lemma LeastFreeIsFirst(x: string, taken: set<string>, c: nat)
    requires Cand(x, c) !in taken && forall j :: 0 <= j < c ==> Cand(x, j) in taken
    ensures LeastFree(x, taken, 0) == c
  {
  }

  /** The ids `generateUniqueIds` produces for parts `i` to `count - 1`, given the ids already taken. */
  function UniqueIdsFrom(baseId: string, count: int, i: nat, taken: set<string>): (r: seq<string>)
    ensures |r| == if count <= i then 0 else count - i
    decreases count - i
  {
    if count <= i then []
    else
      var x := BaseFor(baseId, i);
      var id := Cand(x, LeastFree(x, taken, 0));
      [id] + UniqueIdsFrom(baseId, count, i + 1, taken + {id})
  }

  /** What `generateUniqueIds(baseId, count, existingIds)` returns. */
  function UniqueIds(baseId: string, count: int, existingIds: seq<string>): (r: seq<string>)
    ensures |r| == if count <= 0 then 0 else count
  {
    UniqueIdsFrom(baseId, count, 0, IdSet(existingIds))
  }

  /** `new Set(ids)`. */
  function IdSet(ids: seq<string>): (r: set<string>)
    ensures forall x :: x in r <==> x in ids
  {
    set x | x in ids
  }

  predicate Distinct(r: seq<string>) {
    forall a, b :: 0 <= a < b < |r| ==> r[a] != r[b]
  }

  predicate NoneTaken(r: seq<string>, taken: set<string>) {
    forall a :: 0 <= a < |r| ==> r[a] !in taken
  }

  /** The ids are pairwise distinct and none was taken before. */
  lemma {:induction false} UniqueIdsFromFresh(baseId: string, count: int, i: nat, taken: set<string>)
    ensures NoneTaken(UniqueIdsFrom(baseId, count, i, taken), taken)
    ensures Distinct(UniqueIdsFrom(baseId, count, i, taken))
    decreases count - i
  {
    if i < count {
      var x := BaseFor(baseId, i);
      var id := Cand(x, LeastFree(x, taken, 0));
      var rest := UniqueIdsFrom(baseId, count, i + 1, taken + {id});
      var r := UniqueIdsFrom(baseId, count, i, taken);
      UniqueIdsFromFresh(baseId, count, i + 1, taken + {id});
      assert r == [id] + rest;
      assert NoneTaken(rest, taken + {id}) && Distinct(rest);
      forall a | 0 <= a < |r|
        ensures r[a] !in taken
      {
        if a > 0 {
          assert r[a] == rest[a - 1];
        }
      }
      forall a, b | 0 <= a < b < |r|
        ensures r[a] != r[b]
      {
        assert r[b] == rest[b - 1];
        if a > 0 {
          assert r[a] == rest[a - 1];
        } else {
          assert r[b] !in taken + {id};
        }
      }
    }
  }

  /**
   * `id` is the candidate for `x` with counter `k`, and every candidate with
   * a smaller counter is an id already taken or chosen earlier.
   */
  predicate FirstFreeAt(id: string, x: string, k: nat, taken: set<string>, earlier: seq<string>) {
    && id == Cand(x, k) && id !in taken && id !in earlier
    && forall j :: 0 <= j < k ==> Cand(x, j) in taken || Cand(x, j) in earlier
  }

  /** `id` is the first candidate for `x` that is neither taken nor chosen earlier. */
  ghost predicate IsFirstFree(id: string, x: string, taken: set<string>, earlier: seq<string>) {
    exists k: nat :: FirstFreeAt(id, x, k, taken, earlier)
  }

  /**
   * Each id is the first free candidate for its proposed id: `k` is the
   * counter it was found at.
   */
  lemma {:induction false} UniqueIdsFromLeast(baseId: string, count: int, i: nat, taken: set<string>, a: nat)
    returns (k: nat)
    requires a < |UniqueIdsFrom(baseId, count, i, taken)|
    ensures FirstFreeAt(UniqueIdsFrom(baseId, count, i, taken)[a], BaseFor(baseId, i + a),
                        k, taken, UniqueIdsFrom(baseId, count, i, taken)[..a])
    decreases count - i
  {
    if a == 0 {
      k := LeastHead(baseId, count, i, taken);
    } else {
      var x := BaseFor(baseId, i);
      var id := Cand(x, LeastFree(x, taken, 0));
      k := UniqueIdsFromLeast(baseId, count, i + 1, taken + {id}, a - 1);
      LeastShift(baseId, count, i, taken, a, k);
    }
  }

  /** The base case of `UniqueIdsFromLeast`: the first id is the first free candidate. */
  lemma LeastHead(baseId: string, count: int, i: nat, taken: set<string>) returns (k: nat)
    requires i < count
    ensures FirstFreeAt(UniqueIdsFrom(baseId, count, i, taken)[0], BaseFor(baseId, i + 0),
                        k, taken, UniqueIdsFrom(baseId, count, i, taken)[..0])
  {
    k := LeastFree(BaseFor(baseId, i), taken, 0);
    assert UniqueIdsFrom(baseId, count, i, taken)[..0] == [];
  }

  /** The induction step of `UniqueIdsFromLeast`: from the ids after the first to all of them. */
  lemma LeastShift(baseId: string, count: int, i: nat, taken: set<string>, a: nat, k: nat)
    requires 0 < a < |UniqueIdsFrom(baseId, count, i, taken)|
    requires var x := BaseFor(baseId, i);
      var id := Cand(x, LeastFree(x, taken, 0));
      var rest := UniqueIdsFrom(baseId, count, i + 1, taken + {id});
      a - 1 < |rest| && FirstFreeAt(rest[a - 1], BaseFor(baseId, i + 1 + (a - 1)), k, taken + {id}, rest[..a - 1])
    ensures FirstFreeAt(UniqueIdsFrom(baseId, count, i, taken)[a], BaseFor(baseId, i + a),
                        k, taken, UniqueIdsFrom(baseId, count, i, taken)[..a])
  {
    var x := BaseFor(baseId, i);
    var id := Cand(x, LeastFree(x, taken, 0));
    var rest := UniqueIdsFrom(baseId, count, i + 1, taken + {id});
    assert UniqueIdsFrom(baseId, count, i, taken) == [id] + rest;
    assert i + 1 + (a - 1) == i + a;
    FirstFreeShift(id, rest, a, BaseFor(baseId, i + a), k, taken);
  }

  /** An id chosen after `first` is free of the ids taken before `first` and of `first` itself. */
  lemma FirstFreeShift(first: string, rest: seq<string>, a: nat, x: string, k: nat, taken: set<string>)
    requires 0 < a <= |rest|
    requires FirstFreeAt(rest[a - 1], x, k, taken + {first}, rest[..a - 1])
    ensures FirstFreeAt(([first] + rest)[a], x, k, taken, ([first] + rest)[..a])
  {
    var r := [first] + rest;
    assert r[..a] == [first] + rest[..a - 1];
    assert r[a] == rest[a - 1];
  }

  /** `generateUniqueIds` returns `count` ids (none for a count below one), pairwise distinct and new. */
  lemma UniqueIdsFresh(baseId: string, count: int, existingIds: seq<string>)
    ensures var r := UniqueIds(baseId, count, existingIds);
      && |r| == (if count < 0 then 0 else count)
      && (forall a :: 0 <= a < |r| ==> r[a] !in existingIds)
      && Distinct(r)
  {
    var taken := IdSet(existingIds);
    var r := UniqueIds(baseId, count, existingIds);
    UniqueIdsFromFresh(baseId, count, 0, taken);
    forall a | 0 <= a < |r|
      ensures r[a] !in existingIds
    {
      assert r[a] !in taken;
    }
  }

  /**
   * The `a`-th id is the `a`-th proposed id with the least counter that
   * avoids the existing ids and the ids before it.
   */
  lemma UniqueIdsLeast(baseId: string, count: int, existingIds: seq<string>, a: nat)
    requires a < |UniqueIds(baseId, count, existingIds)|
    ensures var r := UniqueIds(baseId, count, existingIds);
      IsFirstFree(r[a], BaseFor(baseId, a), IdSet(existingIds), r[..a])
  {
    var k := UniqueIdsFromLeast(baseId, count, 0, IdSet(existingIds), a);
  }

  /** The first id is the base id itself whenever that is free. */
  lemma UniqueIdsKeepsBase(baseId: string, count: int, existingIds: seq<string>)
    requires 0 < count && baseId !in existingIds
    ensures UniqueIds(baseId, count, existingIds)[0] == baseId
  {
  }

  /** One step of the generation: the next id is the proposed id with the first free counter. */
  lemma UniqueIdsFromStep(baseId: string, count: int, i: nat, taken: set<string>, k: nat)
    requires i < count
    requires Cand(BaseFor(baseId, i), k) !in taken && forall j :: 0 <= j < k ==> Cand(BaseFor(baseId, i), j) in taken
    ensures UniqueIdsFrom(baseId, count, i, taken)
      == [Cand(BaseFor(baseId, i), k)] + UniqueIdsFrom(baseId, count, i + 1, taken + {Cand(BaseFor(baseId, i), k)})
  {
    LeastFreeIsFirst(BaseFor(baseId, i), taken, k);
  }

  /** The inner loop of `generateUniqueIds`: bump the counter until the candidate is not taken. */
  method FirstFreeCandidate(newId: string, existingSet: set<string>) returns (counter: nat, candidateId: string)
    ensures candidateId == Cand(newId, counter) && candidateId !in existingSet
    ensures forall j :: 0 <= j < counter ==> Cand(newId, j) in existingSet
  {
    counter := 0;
    candidateId := newId;
    while candidateId in existingSet
      invariant candidateId == Cand(newId, counter)
      invariant forall j :: 0 <= j < counter ==> Cand(newId, j) in existingSet
      invariant counter <= |existingSet|
      decreases |existingSet| - counter
    {
      assert counter + 1 <= |existingSet| by {
        TakenBound(newId, existingSet, counter + 1);
      }
      counter := counter + 1;
      candidateId := newId + "_" + NatToString(counter);
    }
  }

  /** The outer loop's step: the chosen id extends the ids so far towards the result. */
  lemma GenerateStep(baseId: string, count: int, i: nat, taken: set<string>, k: nat, ids: seq<string>, target: seq<string>)
    requires i < count
    requires Cand(BaseFor(baseId, i), k) !in taken && forall j :: 0 <= j < k ==> Cand(BaseFor(baseId, i), j) in taken
    requires ids + UniqueIdsFrom(baseId, count, i, taken) == target
    ensures var c := Cand(BaseFor(baseId, i), k);
      (ids + [c]) + UniqueIdsFrom(baseId, count, i + 1, taken + {c}) == target
  {
    var c := Cand(BaseFor(baseId, i), k);
    UniqueIdsFromStep(baseId, count, i, taken, k);
    assert (ids + [c]) + UniqueIdsFrom(baseId, count, i + 1, taken + {c})
      == ids + ([c] + UniqueIdsFrom(baseId, count, i + 1, taken + {c}));
  }

  /** `generateUniqueIds`: propose an id per part, then bump a counter until the candidate is free. */
  method GenerateUniqueIds(baseId: string, count: int, existingIds: seq<string>) returns (ids: seq<string>)
    ensures ids == UniqueIds(baseId, count, existingIds)
  {
    ids := [];
    var existingSet := IdSet(existingIds);
    var i := 0;
    while i < count
      invariant 0 <= i
      invariant ids + UniqueIdsFrom(baseId, count, i, existingSet) == UniqueIds(baseId, count, existingIds)
      decreases count - i
    {
      var newId := BaseFor(baseId, i);
      var counter, candidateId := FirstFreeCandidate(newId, existingSet);
      GenerateStep(baseId, count, i, existingSet, counter, ids, UniqueIds(baseId, count, existingIds));
      ids := ids + [candidateId];
      existingSet := existingSet + {candidateId};
      i := i + 1;
    }
  }

  /** A chapter `ch1` split in three, in a book whose manifest already uses `ch1` and `ch2`. */
  lemma UniqueIdsExample()
    ensures UniqueIds("ch1", 3, ["ch1", "ch2"]) == ["ch1_1", "ch1_-1", "ch1_-2"]
  {
    var t0 := IdSet(["ch1", "ch2"]);
    ExampleFromOne();
    assert NatToString(1) == "1";
    assert BaseFor("ch1", 0) == "ch1" == Cand("ch1", 0);
    assert Cand("ch1", 1) == "ch1_1";
    assert "ch1" in t0 && "ch1_1" !in t0;
    UniqueIdsFromStep("ch1", 3, 0, t0, 1);
  }

  /** The last two ids of the example, once `ch1_1` is taken. */
  lemma ExampleFromOne()
    ensures UniqueIdsFrom("ch1", 3, 1, IdSet(["ch1", "ch2"]) + {"ch1_1"}) == ["ch1_-1", "ch1_-2"]
  {
    var t1 := IdSet(["ch1", "ch2"]) + {"ch1_1"};
    ExampleFromTwo();
    assert NatToString(1) == "1";
    assert BaseFor("ch1", 1) == "ch1_-1" == Cand("ch1_-1", 0);
    assert "ch1_-1" !in t1;
    UniqueIdsFromStep("ch1", 3, 1, t1, 0);
  }

  /** The last id of the example, once `ch1_1` and `ch1_-1` are taken. */
  lemma ExampleFromTwo()
    ensures UniqueIdsFrom("ch1", 3, 2, IdSet(["ch1", "ch2"]) + {"ch1_1"} + {"ch1_-1"}) == ["ch1_-2"]
  {
    var t2 := IdSet(["ch1", "ch2"]) + {"ch1_1"} + {"ch1_-1"};
    assert NatToString(2) == "2";
    assert BaseFor("ch1", 2) == "ch1_-2" == Cand("ch1_-2", 0);
    assert "ch1_-2" !in t2;
    UniqueIdsFromStep("ch1", 3, 2, t2, 0);
    assert UniqueIdsFrom("ch1", 3, 3, t2 + {"ch1_-2"}) == [];
  }

  // ---------------------------------------------------------------------------
  // createManifestFiles
  // ---------------------------------------------------------------------------

  const CreatePrefix := "Failed to create manifest files: "
  const InvalidSplit := "Invalid split result: missing filenames or contents"

  /**
   * `createManifestFiles`: one XHTML manifest file per part file name, in
   * order, under ids that are distinct and not in use; a result that is not
   * a split has no file names and is rejected.
   */
  method CreateManifestFiles(split: ChapterSplitter.SplitResult, originalId: string, existingIds: seq<string>)
    returns (r: Result<seq<NewFile>, string>)
    ensures !split.Split? <==> r.Failure?
    ensures !split.Split? ==> r.error == CreatePrefix + InvalidSplit
    ensures split.Split? ==> |r.value| == |split.filenames|
    ensures split.Split? ==> forall i :: 0 <= i < |r.value| ==>
      && r.value[i].href == split.filenames[i]
      && r.value[i].mediaType == Some(XhtmlMediaType) && r.value[i].properties.None?
    ensures split.Split? ==> FileIds(r.value) == UniqueIds(originalId, |split.filenames|, existingIds)
    ensures split.Split? ==> Distinct(FileIds(r.value)) && forall i :: 0 <= i < |r.value| ==> r.value[i].id !in existingIds
  {
    if !split.Split? {
      return Failure(CreatePrefix + InvalidSplit);
    }
    var filenames := split.filenames;
    var uniqueIds := GenerateUniqueIds(originalId, |filenames|, existingIds);
    UniqueIdsFresh(originalId, |filenames|, existingIds);
    var files := seq(|filenames|, i requires 0 <= i < |filenames| => NewFile(uniqueIds[i], filenames[i], Some(XhtmlMediaType), None));
    assert FileIds(files) == uniqueIds;
    r := Success(files);
  }
}
