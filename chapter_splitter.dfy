/**
 * The chapter splitter: classifies the children of a chapter's content root
 * as text, image or whitespace, groups consecutive children of one type, and
 * turns each group into a copy of the chapter whose content root holds only
 * that group; plus the part file names, the skip list and the result record.
 */
module ChapterSplitter {
  import opened Wrappers
  import opened Strings
  import opened Dom
  import opened Seqs

  /** The base file names that are never split. */
  const FilenameWhitelist: set<string> :=
    {"nav.xhtml", "toc.xhtml", "title.xhtml", "contents.xhtml", "content.xhtml", "author.xhtml", "cover.xhtml"}

  /** The class `getElementType` gives a node. */
  datatype ContentType = TextType | ImageType | WhitespaceType

  /**
   * The browser services the splitter calls: `DOMParser` as XHTML (which
   * reports malformed input by a `parsererror` element in the result) and as
   * lenient HTML, and `XMLSerializer`. Each takes or gives the document
   * element.
   */
  datatype Markup = Markup(
    parseXhtml: string -> Node,
    parseHtml: string -> Node,
    serialize: Node -> string)

  // ---------------------------------------------------------------------------
  // Classification (getElementType)
  // ---------------------------------------------------------------------------

  /** `textContent`: the text of every descendant text or CDATA node, in document order. */
  function TextContent(n: Node): string
    decreases n, 1
  {
    match n
    case Text(d) => d
    case CData(d) => d
    case Element(_, _, kids) => TextContentIn(kids)
    case Other => ""
  }

  function TextContentIn(kids: seq<Node>): string
    decreases kids, 0
  {
    if kids == [] then "" else TextContent(kids[0]) + TextContentIn(kids[1..])
  }

  /** A tag the selector `img, svg` matches. */
  predicate IsMediaTag(tag: string) {
    Lower(tag) == "img" || Lower(tag) == "svg"
  }

  /** Some node among `kids` or their descendants is an `img` or `svg` element. */
  predicate HasMediaIn(kids: seq<Node>)
    decreases kids
  {
    exists j :: 0 <= j < |kids| && kids[j].Element?
      && (IsMediaTag(kids[j].tag) || HasMediaIn(kids[j].children))
  }

  /** The text of `n` once every `img`/`svg` element (with its subtree) is removed. */
  function TextWithoutMedia(n: Node): (r: string)
    ensures |r| <= |TextContent(n)|
    decreases n, 1
  {
    match n
    case Text(d) => d
    case CData(d) => d
    case Element(tag, _, kids) => if IsMediaTag(tag) then "" else TextWithoutMediaIn(kids)
    case Other => ""
  }

  function TextWithoutMediaIn(kids: seq<Node>): (r: string)
    ensures |r| <= |TextContentIn(kids)|
    decreases kids, 0
  {
    if kids == [] then "" else TextWithoutMedia(kids[0]) + TextWithoutMediaIn(kids[1..])
  }

  /**
   * `getElementType`: non-elements are whitespace; an element tagged exactly
   * `IMG` or `SVG` is an image; otherwise, with no media descendant it is text
   * when its trimmed text is not empty, and with one it is text when text
   * remains after the media are removed, an image when none does.
   */
  function ElementType(n: Node): (t: ContentType)
    ensures t != WhitespaceType ==> n.Element?
    ensures t == ImageType ==> n.tag == "IMG" || n.tag == "SVG" || HasMediaIn(n.children)
  {
    if !n.Element? then WhitespaceType
    else if n.tag == "IMG" || n.tag == "SVG" then ImageType
    else if !HasMediaIn(n.children) then
      if Trim(TextContentIn(n.children)) != "" then TextType else WhitespaceType
    else
      if Trim(TextWithoutMediaIn(n.children)) != "" then TextType else ImageType
  }

  /** Without media, removing the media changes no text. */
  lemma {:induction false} NoMediaSameText(kids: seq<Node>)
    requires !HasMediaIn(kids)
    ensures TextWithoutMediaIn(kids) == TextContentIn(kids)
    decreases kids
  {
    if kids != [] {
      NoMediaSameText(kids[1..]);
      match kids[0]
      case Element(tag, _, ch) =>
        assert !IsMediaTag(tag) && !HasMediaIn(ch);
        NoMediaSameText(ch);
      case _ =>
    }
  }

  /** Removing media cannot turn blank text into non-blank text. */
  lemma {:induction false} StrippedTextOfBlank(kids: seq<Node>)
    requires Blank(TextContentIn(kids))
    ensures Blank(TextWithoutMediaIn(kids))
    decreases kids
  {
    if kids != [] {
      BlankConcat(TextContent(kids[0]), TextContentIn(kids[1..]));
      StrippedTextOfBlank(kids[1..]);
      match kids[0]
      case Element(tag, _, ch) =>
        if !IsMediaTag(tag) { StrippedTextOfBlank(ch); }
      case _ =>
      BlankConcat(TextWithoutMedia(kids[0]), TextWithoutMediaIn(kids[1..]));
    }
  }

  /**
   * The classification rules: a node is whitespace unless it is an element;
   * an element tagged exactly IMG or SVG is an image; any other element is
   * text exactly when non-blank text remains after its media descendants are
   * removed, an image exactly when it has a media descendant and no text
   * remains, and whitespace exactly when it has no media and blank text. A
   * node whose whole text is blank is never text.
   */
  lemma ClassificationRules(n: Node)
    ensures !n.Element? ==> ElementType(n) == WhitespaceType
    ensures n.Element? && (n.tag == "IMG" || n.tag == "SVG") ==> ElementType(n) == ImageType
    ensures n.Element? && n.tag != "IMG" && n.tag != "SVG" ==>
      && (ElementType(n) == TextType <==> !Blank(TextWithoutMediaIn(n.children)))
      && (ElementType(n) == ImageType <==> HasMediaIn(n.children) && Blank(TextWithoutMediaIn(n.children)))
      && (ElementType(n) == WhitespaceType <==> !HasMediaIn(n.children) && Blank(TextContentIn(n.children)))
    ensures Blank(TextContent(n)) ==> ElementType(n) != TextType
  {
    if n.Element? {
      TrimEmptyIffBlank(TextContentIn(n.children));
      TrimEmptyIffBlank(TextWithoutMediaIn(n.children));
      if !HasMediaIn(n.children) {
        NoMediaSameText(n.children);
      }
      if Blank(TextContent(n)) {
        StrippedTextOfBlank(n.children);
      }
    }
  }

  /**
   * The case-sensitive name test in practice: the XHTML parse keeps a bare
   * `<img/>` in lower case, so it is no image and, having no text, counts as
   * whitespace; the HTML parse upper-cases it to `IMG`, an image.
   */
  lemma LowerCaseImgIsWhitespace()
    ensures ElementType(Element("img", [], [])) == WhitespaceType
    ensures ElementType(Element("IMG", [], [])) == ImageType
  {
  }

  // ---------------------------------------------------------------------------
  // The content root (document.body, findContentContainer)
  // ---------------------------------------------------------------------------

  /** The indices of the element children in `kids[from..]`, in order: `children` of the parent. */
  function ElementIndices(kids: seq<Node>, from: nat): (r: seq<nat>)
    requires from <= |kids|
    ensures forall j :: 0 <= j < |r| ==> from <= r[j] < |kids| && kids[r[j]].Element?
    ensures forall i :: from <= i < |kids| && kids[i].Element? ==> i in r
    ensures forall j, k :: 0 <= j < k < |r| ==> r[j] < r[k]
    decreases |kids| - from
  {
    if from == |kids| then []
    else if kids[from].Element? then [from] + ElementIndices(kids, from + 1)
    else ElementIndices(kids, from + 1)
  }

  lemma {:induction false} ElementIndicesOfSole(kids: seq<Node>, from: nat, i: nat)
    requires from <= |kids| && SoleElementChild(kids, i)
    ensures ElementIndices(kids, from) == if from <= i then [i] else []
    decreases |kids| - from
  {
    if from < |kids| {
      ElementIndicesOfSole(kids, from + 1, i);
    }
  }

  /** `kids[i]` is the only element among `kids`. */
  predicate SoleElementChild(kids: seq<Node>, i: int) {
    0 <= i < |kids| && kids[i].Element?
    && forall j :: 0 <= j < |kids| && j != i ==> !kids[j].Element?
  }

  /**
   * `findContentContainer`: none for a missing body; the body's only element
   * child when that child is a `div` (any case; text children do not count);
   * the body itself otherwise. The result is a path from the body.
   */
  function FindContentContainer(body: Option<Node>): (r: Option<Path>)
    ensures r.None? <==> body.None?
    ensures r.Some? ==> r.value == [] || (|r.value| == 1 && r.value[0] < |Children(body.value)|)
    ensures r.Some? ==> forall i :: 0 <= i < |Children(body.value)| ==>
      (r.value == [i] <==> SoleElementChild(Children(body.value), i) && Lower(Children(body.value)[i].tag) == "div")
  {
    if body.None? then None
    else
      var kids := Children(body.value);
      var idx := ElementIndices(kids, 0);
      assert forall i :: SoleElementChild(kids, i) ==> idx == [i] by {
        forall i | SoleElementChild(kids, i) ensures idx == [i] {
          ElementIndicesOfSole(kids, 0, i);
        }
      }
      if |idx| == 1 && Lower(kids[idx[0]].tag) == "div" then Some([idx[0]]) else Some([])
  }

  /** `document.body`: the first `body` child of an `html` document element. */
  function BodyPath(doc: Node): (r: Option<Path>)
    ensures r.Some? ==>
      && |r.value| == 1 && IsElementAt(doc, r.value)
      && Lower(doc.tag) == "html" && Lower(Get(doc, r.value).tag) == "body"
      && (forall j :: 0 <= j < r.value[0] ==> !(doc.children[j].Element? && Lower(doc.children[j].tag) == "body"))
    ensures r.None? <==>
      !(&& doc.Element? && Lower(doc.tag) == "html"
        && exists j :: 0 <= j < |doc.children| && doc.children[j].Element? && Lower(doc.children[j].tag) == "body")
  {
    if doc.Element? && Lower(doc.tag) == "html" then
      var i := FirstBody(doc.children, 0);
      if i.Some? then
        assert [i.value][1..] == [];
        assert Get(doc, [i.value]) == doc.children[i.value];
        assert ValidPath(doc.children[i.value], []);
        assert ValidPath(doc, [i.value]);
        assert IsElementAt(doc, [i.value]);
        Some([i.value])
      else
        assert forall j :: 0 <= j < |doc.children| ==> !(doc.children[j].Element? && Lower(doc.children[j].tag) == "body");
        None
    else None
  }

  function FirstBody(kids: seq<Node>, from: nat): (r: Option<nat>)
    ensures r.Some? ==> from <= r.value < |kids| && kids[r.value].Element? && Lower(kids[r.value].tag) == "body"
    ensures r.Some? ==> forall j :: from <= j < r.value ==> !(kids[j].Element? && Lower(kids[j].tag) == "body")
    ensures r.None? <==> forall j :: from <= j < |kids| ==> !(kids[j].Element? && Lower(kids[j].tag) == "body")
    decreases |kids| - from
  {
    if from >= |kids| then None
    else if kids[from].Element? && Lower(kids[from].tag) == "body" then Some(from)
    else FirstBody(kids, from + 1)
  }

  function BodyNode(doc: Node): Option<Node> {
    if BodyPath(doc).Some? then Some(Get(doc, BodyPath(doc).value)) else None
  }

  /** The path from the document element to the content root, when there is a body. */
  function ContentRoot(doc: Node): (r: Option<Path>)
    ensures r.None? <==> BodyPath(doc).None?
    ensures r.Some? ==> IsElementAt(doc, r.value)
  {
    if BodyPath(doc).None? then None
    else
      var b := BodyPath(doc).value;
      var c := FindContentContainer(BodyNode(doc)).value;
      GetAppend(doc, b, c);
      assert c != [] ==> SoleElementChild(Children(Get(doc, b)), c[0]);
      Some(b + c)
  }

  /** The document the splitter works on: the XHTML parse, or the HTML parse when that fails or has no body. */
  function LoadChapter(m: Markup, html: string): Node {
    var x := m.parseXhtml(html);
    if Find(x, Tag("parsererror")).Some? || BodyPath(x).None? then m.parseHtml(html) else x
  }

  /** The fallback rule: the XHTML parse is kept exactly when it has no `parsererror` and has a body. */
  lemma LoadChapterFallback(m: Markup, html: string)
    ensures var x := m.parseXhtml(html);
      LoadChapter(m, html) == (if !Contains(x, Tag("parsererror")) && BodyPath(x).Some? then x else m.parseHtml(html))
  {
  }

  // ---------------------------------------------------------------------------
  // Filtering and grouping
  // ---------------------------------------------------------------------------

  /** The filter over `childNodes`: elements, and text nodes whose trimmed text is not empty. */
  predicate Meaningful(n: Node) {
    n.Element? || (n.Text? && Trim(n.data) != "")
  }

  function MeaningfulChildren(kids: seq<Node>): (r: seq<Node>)
    ensures |r| <= |kids|
    ensures forall x :: x in r <==> x in kids && Meaningful(x)
  {
    if kids == [] then []
    else (if Meaningful(kids[0]) then [kids[0]] else []) + MeaningfulChildren(kids[1..])
  }

  /** The filter keeps the order: filtering a concatenation concatenates the filtered halves. */
  lemma {:induction false} MeaningfulChildrenAppend(a: seq<Node>, b: seq<Node>)
    ensures MeaningfulChildren(a + b) == MeaningfulChildren(a) + MeaningfulChildren(b)
    decreases a
  {
    if a == [] {
      assert a + b == b;
    } else {
      assert (a + b)[0] == a[0] && (a + b)[1..] == a[1..] + b;
      MeaningfulChildrenAppend(a[1..], b);
    }
  }

  /** A maximal run of consecutive children of one type. */
  datatype Group = Group(kind: ContentType, elements: seq<Node>)

  /** The children whose type is not whitespace, in order. */
  function NonWhitespace(cs: seq<Node>): (r: seq<Node>)
    ensures |r| <= |cs|
    ensures forall x :: x in r <==> x in cs && ElementType(x) != WhitespaceType
    decreases |cs|
  {
    if cs == [] then []
    else
      var last := cs[|cs| - 1];
      var rest := NonWhitespace(cs[..|cs| - 1]);
      assert forall x :: x in cs <==> x in cs[..|cs| - 1] || x == last;
      rest + (if ElementType(last) != WhitespaceType then [last] else [])
  }

  /** The members of the groups, group after group. */
  function Flatten(gs: seq<Group>): seq<Node>
    decreases |gs|
  {
    if gs == [] then [] else Flatten(gs[..|gs| - 1]) + gs[|gs| - 1].elements
  }

  /**
   * The group invariants: no group is empty or of type whitespace, every
   * member has its group's type, and adjacent groups differ in type.
   */
  predicate WellGrouped(gs: seq<Group>) {
    && (forall i :: 0 <= i < |gs| ==> GoodGroup(gs[i]))
    && (forall i :: 0 < i < |gs| ==> gs[i - 1].kind != gs[i].kind)
  }

  /** A non-empty group, not of type whitespace, whose members all have its type. */
  predicate GoodGroup(g: Group) {
    g.elements != [] && g.kind != WhitespaceType
    && forall e :: e in g.elements ==> ElementType(e) == g.kind
  }

  /** One turn of the grouping loop: skip whitespace, extend the current group, or open a new one. */
  function AddChild(gs: seq<Group>, child: Node): seq<Group> {
    var t := ElementType(child);
    if t == WhitespaceType then gs
    else if gs != [] && gs[|gs| - 1].kind == t then
      gs[..|gs| - 1] + [Group(t, gs[|gs| - 1].elements + [child])]
    else gs + [Group(t, [child])]
  }

  /** The groups the loop builds from `cs`. */
  function Grouped(cs: seq<Node>): (gs: seq<Group>)
    ensures |gs| <= |cs|
    decreases |cs|
  {
    if cs == [] then [] else AddChild(Grouped(cs[..|cs| - 1]), cs[|cs| - 1])
  }

  /**
   * The groups satisfy the group invariants, they hold exactly the
   * non-whitespace children in their original order, and there are no more
   * groups than such children.
   */
  lemma {:induction false} GroupedInvariants(cs: seq<Node>)
    ensures WellGrouped(Grouped(cs))
    ensures Flatten(Grouped(cs)) == NonWhitespace(cs)
    ensures |Grouped(cs)| <= |NonWhitespace(cs)| <= |cs|
    decreases |cs|
  {
    if cs != [] {
      var init, last := cs[..|cs| - 1], cs[|cs| - 1];
      GroupedInvariants(init);
      AddChildInvariants(Grouped(init), last);
    }
  }

  /** Appending a group appends its members. */
  lemma FlattenAppend(gs: seq<Group>, g: Group)
    ensures Flatten(gs + [g]) == Flatten(gs) + g.elements
  {
    assert (gs + [g])[..|gs|] == gs;
  }

  /** One turn of the loop keeps the group invariants and adds the child to the members unless it is whitespace. */
  lemma {:induction false} AddChildInvariants(gs: seq<Group>, c: Node)
    requires WellGrouped(gs)
    ensures WellGrouped(AddChild(gs, c))
    ensures Flatten(AddChild(gs, c)) == Flatten(gs) + (if ElementType(c) != WhitespaceType then [c] else [])
    ensures |AddChild(gs, c)| <= |gs| + (if ElementType(c) != WhitespaceType then 1 else 0)
  {
    var t := ElementType(c);
    if t != WhitespaceType {
      if gs != [] && gs[|gs| - 1].kind == t {
        assert AddChild(gs, c) == gs[..|gs| - 1] + [Group(gs[|gs| - 1].kind, gs[|gs| - 1].elements + [c])];
        ExtendLastWellGrouped(gs, c);
        ExtendLastFlatten(gs, c);
      } else {
        assert AddChild(gs, c) == gs + [Group(t, [c])];
        FlattenAppend(gs, Group(t, [c]));
        NewGroupInvariants(gs, c);
      }
    }
  }

  /** Opening a new group for a child of another type than the last group keeps the group invariants. */
  lemma NewGroupInvariants(gs: seq<Group>, c: Node)
    requires WellGrouped(gs) && ElementType(c) != WhitespaceType
    requires gs == [] || gs[|gs| - 1].kind != ElementType(c)
    ensures WellGrouped(gs + [Group(ElementType(c), [c])])
  {
    var r := gs + [Group(ElementType(c), [c])];
    forall i | 0 <= i < |r| ensures GoodGroup(r[i]) {
      if i < |gs| { assert r[i] == gs[i]; }
    }
    forall i | 0 < i < |r| ensures r[i - 1].kind != r[i].kind {
      assert r[i - 1] == gs[i - 1];
      if i < |gs| { assert r[i] == gs[i]; }
    }
  }

  /** Appending a child to the last group appends it to the members. */
  lemma ExtendLastFlatten(gs: seq<Group>, c: Node)
    requires gs != []
    ensures Flatten(gs[..|gs| - 1] + [Group(gs[|gs| - 1].kind, gs[|gs| - 1].elements + [c])]) == Flatten(gs) + [c]
  {
    var n := |gs|;
    var g := gs[n - 1];
    var init := gs[..n - 1];
    LastSplit(gs);
    FlattenAppend(init, g);
    FlattenAppend(init, Group(g.kind, g.elements + [c]));
    AppendAssoc(Flatten(init), g.elements, [c]);
  }

  /** Appending a child of the last group's type to that group keeps the group invariants. */
  lemma ExtendLastWellGrouped(gs: seq<Group>, c: Node)
    requires WellGrouped(gs) && gs != [] && gs[|gs| - 1].kind == ElementType(c)
    ensures WellGrouped(gs[..|gs| - 1] + [Group(gs[|gs| - 1].kind, gs[|gs| - 1].elements + [c])])
  {
    var g := gs[|gs| - 1];
    ExtendedGroupGood(g, c);
    ReplaceLastWellGrouped(gs, Group(g.kind, g.elements + [c]));
  }

  /** A good group stays good when a child of its type joins it. */
  lemma ExtendedGroupGood(g: Group, c: Node)
    requires GoodGroup(g) && ElementType(c) == g.kind
    ensures GoodGroup(Group(g.kind, g.elements + [c]))
  {
    forall e | e in g.elements + [c] ensures ElementType(e) == g.kind {
      if e != c { assert e in g.elements; }
    }
  }

  /** Replacing the last group by a good group of the same type keeps the group invariants. */
  lemma ReplaceLastWellGrouped(gs: seq<Group>, g: Group)
    requires WellGrouped(gs) && gs != [] && GoodGroup(g) && g.kind == gs[|gs| - 1].kind
    ensures WellGrouped(gs[..|gs| - 1] + [g])
  {
    var n := |gs|;
    var r := gs[..n - 1] + [g];
    forall i | 0 <= i < |r| ensures GoodGroup(r[i]) {
      if i < n - 1 { assert r[i] == gs[i]; }
    }
    forall i | 0 < i < |r| ensures r[i - 1].kind != r[i].kind {
      assert r[i - 1] == gs[i - 1];
      assert r[i].kind == gs[i].kind;
    }
  }

  /** The last step of `_groupElementsByType`: keep the non-empty groups. */
  function NonEmptyGroups(gs: seq<Group>): (r: seq<Group>)
    ensures (forall i :: 0 <= i < |gs| ==> gs[i].elements != []) ==> r == gs
  {
    if gs == [] then []
    else (if gs[0].elements != [] then [gs[0]] else []) + NonEmptyGroups(gs[1..])
  }

  /** The loop's new-group branch: push an empty group, then push the child onto it. */
  lemma OpenGroupStep(gs: seq<Group>, child: Node)
    requires ElementType(child) != WhitespaceType
    requires gs == [] || gs[|gs| - 1].kind != ElementType(child)
    ensures var g0 := gs + [Group(ElementType(child), [])];
      g0[|gs| := g0[|gs|].(elements := g0[|gs|].elements + [child])] == AddChild(gs, child)
  {
    var t := ElementType(child);
    assert [] + [child] == [child];
    UpdateAfterAppend(gs, Group(t, []), Group(t, [child]));
  }

  /** The loop's same-type branch: push the child onto the last group. */
  lemma ExtendGroupStep(gs: seq<Group>, child: Node)
    requires ElementType(child) != WhitespaceType
    requires gs != [] && gs[|gs| - 1].kind == ElementType(child)
    ensures var c := |gs| - 1;
      gs[c := gs[c].(elements := gs[c].elements + [child])] == AddChild(gs, child)
  {
    var c := |gs| - 1;
    UpdateLast(gs, Group(ElementType(child), gs[c].elements + [child]));
  }

  /**
   * One turn of the loop in `_groupElementsByType`: skip whitespace, open a
   * new current group when the type changes, and push the child onto the
   * current group.
   */
  method PlaceChild(groups: seq<Group>, current: Option<nat>, child: Node)
    returns (groups': seq<Group>, current': Option<nat>)
    requires current.None? <==> groups == []
    requires current.Some? ==> current.value == |groups| - 1
    ensures groups' == AddChild(groups, child)
    ensures current'.None? <==> groups' == []
    ensures current'.Some? ==> current'.value == |groups'| - 1
  {
    groups', current' := groups, current;
    var elementType := ElementType(child);
    if elementType == WhitespaceType {
      return;
    }
    if current'.None? || groups'[current'.value].kind != elementType {
      groups' := groups' + [Group(elementType, [])];
      current' := Some(|groups'| - 1);
      var c := current'.value;
      groups' := groups'[c := groups'[c].(elements := groups'[c].elements + [child])];
      OpenGroupStep(groups, child);
    } else {
      var c := current'.value;
      groups' := groups'[c := groups'[c].(elements := groups'[c].elements + [child])];
      ExtendGroupStep(groups, child);
    }
  }

  /** `_groupElementsByType`: the loop with a current group, then the filter. */
  method GroupElementsByType(children: seq<Node>) returns (groups: seq<Group>)
    ensures groups == Grouped(children)
    ensures WellGrouped(groups) && Flatten(groups) == NonWhitespace(children)
    ensures |groups| <= |children|
  {
    groups := [];
    var current: Option<nat> := None;
    for i := 0 to |children|
      invariant groups == Grouped(children[..i])
      invariant current.None? <==> groups == []
      invariant current.Some? ==> current.value == |groups| - 1
    {
      TakeOfTake(children, i);
      groups, current := PlaceChild(groups, current, children[i]);
    }
    assert children[..|children|] == children;
    GroupedInvariants(children);
    groups := NonEmptyGroups(groups);
  }

  // ---------------------------------------------------------------------------
  // Deciding and performing the split
  // ---------------------------------------------------------------------------

  /** The content root's children that pass the filter, for a body (none without one). */
  function Candidates(body: Option<Node>): (cs: seq<Node>)
    ensures body.None? ==> cs == []
    ensures forall x :: x in cs ==> Meaningful(x)
  {
    if body.None? then []
    else
      var c := FindContentContainer(body).value;
      assert c != [] ==> SoleElementChild(Children(body.value), c[0]);
      MeaningfulChildren(Children(Get(body.value, c)))
  }

  /** The groups that become parts: none unless at least two children pass the filter and form two or more groups. */
  function PartGroups(doc: Node): (gs: seq<Group>)
    ensures gs == [] || |gs| >= 2
  {
    var cs := Candidates(BodyNode(doc));
    if |cs| < 2 then []
    else
      var gs := Grouped(cs);
      if |gs| <= 1 then [] else gs
  }

  /** `_analyzeContentForSplitting`. */
  method AnalyzeContentForSplitting(body: Option<Node>) returns (b: bool)
    ensures b <==> |Grouped(Candidates(body))| >= 2
  {
    var container := FindContentContainer(body);
    if container.None? {
      return false;
    }
    assert container.value != [] ==> SoleElementChild(Children(body.value), container.value[0]);
    var children := MeaningfulChildren(Children(Get(body.value, container.value)));
    GroupedInvariants(children);
    if |children| < 2 {
      return false;
    }
    var groups := GroupElementsByType(children);
    b := |groups| > 1;
  }

  /** `needsSplitting`: the chapter needs splitting exactly when its content root has two groups or more. */
  method NeedsSplitting(m: Markup, html: string) returns (b: bool)
    ensures b <==> PartGroups(LoadChapter(m, html)) != []
    ensures b <==> |Grouped(Candidates(BodyNode(LoadChapter(m, html))))| >= 2
  {
    var doc := LoadChapter(m, html);
    GroupedInvariants(Candidates(BodyNode(doc)));
    b := AnalyzeContentForSplitting(BodyNode(doc));
  }

  /** The copies of the document, one per group, whose content root holds only that group. */
  function PartDocuments(doc: Node): (parts: seq<Node>)
    ensures |parts| == |PartGroups(doc)|
  {
    var gs := PartGroups(doc);
    if gs == [] then []
    else
      var root := ContentRoot(doc).value;
      seq(|gs|, i requires 0 <= i < |gs| => WithChildren(doc, root, gs[i].elements))
  }

  /** The serialized parts of a chapter, in group order. */
  function SplitParts(m: Markup, html: string): (parts: seq<string>)
    ensures |parts| == |PartGroups(LoadChapter(m, html))|
    ensures parts == [] || |parts| >= 2
  {
    var docs := PartDocuments(LoadChapter(m, html));
    seq(|docs|, i requires 0 <= i < |docs| => m.serialize(docs[i]))
  }

  /**
   * Part `i`'s content root holds exactly group `i`'s nodes, in order, and
   * putting the original children back into it gives the original document:
   * nothing outside the content root differs.
   */
  lemma PartDocumentsShape(doc: Node, i: nat)
    requires i < |PartDocuments(doc)|
    ensures ContentRoot(doc).Some?
    ensures var root, part := ContentRoot(doc).value, PartDocuments(doc)[i];
      && IsElementAt(part, root)
      && Get(part, root).children == PartGroups(doc)[i].elements
      && WithChildren(part, root, Get(doc, root).children) == doc
  {
    var root := ContentRoot(doc).value;
    var g := PartGroups(doc)[i].elements;
    GetWithChildren(doc, root, g);
    WithChildrenTwice(doc, root, g, Get(doc, root).children);
    WithOwnChildren(doc, root);
  }

  /**
   * Read one after another, the parts' content roots hold exactly the
   * children of the original content root that passed the filter and are
   * not of type whitespace, in their original order.
   */
  lemma PartsKeepOrder(doc: Node)
    requires PartGroups(doc) != []
    ensures Flatten(PartGroups(doc)) == NonWhitespace(Candidates(BodyNode(doc)))
    ensures WellGrouped(PartGroups(doc))
  {
    GroupedInvariants(Candidates(BodyNode(doc)));
  }

  /** What the body and its content container give: the content root's path and children. */
  lemma ContainerIsContentRoot(doc: Node)
    requires BodyNode(doc).Some?
    ensures var body, c := BodyNode(doc).value, FindContentContainer(BodyNode(doc)).value;
      && ContentRoot(doc) == Some(BodyPath(doc).value + c)
      && ValidPath(body, c) && IsElementAt(doc, ContentRoot(doc).value)
      && Get(body, c) == Get(doc, ContentRoot(doc).value)
      && Candidates(BodyNode(doc)) == MeaningfulChildren(Get(doc, ContentRoot(doc).value).children)
  {
    var b, c := BodyPath(doc).value, FindContentContainer(BodyNode(doc)).value;
    assert c != [] ==> SoleElementChild(Children(Get(doc, b)), c[0]);
    GetAppend(doc, b, c);
  }

  /** Part `i` of the serialized chapter is the serialized copy whose content root holds group `i`. */
  lemma SplitPartAt(m: Markup, html: string, i: nat)
    requires i < |PartGroups(LoadChapter(m, html))|
    ensures var doc := LoadChapter(m, html);
      && |SplitParts(m, html)| == |PartGroups(doc)|
      && ContentRoot(doc).Some? && IsElementAt(doc, ContentRoot(doc).value)
      && SplitParts(m, html)[i] == m.serialize(WithChildren(doc, ContentRoot(doc).value, PartGroups(doc)[i].elements))
  {
    PartDocumentsShape(LoadChapter(m, html), i);
  }

  /** The candidates are the filtered children of the content container, and without two groups there are no parts. */
  lemma SplitPartsCases(m: Markup, html: string)
    ensures var doc := LoadChapter(m, html);
      var container := FindContentContainer(BodyNode(doc));
      && (container.None? ==> SplitParts(m, html) == [])
      && (container.Some? ==>
            && ValidPath(BodyNode(doc).value, container.value)
            && Candidates(BodyNode(doc)) == MeaningfulChildren(Children(Get(BodyNode(doc).value, container.value))))
      && (PartGroups(doc) == [] ==> SplitParts(m, html) == [])
  {
    var doc := LoadChapter(m, html);
    if BodyNode(doc).Some? {
      ContainerIsContentRoot(doc);
    }
  }

  /** The clearing loop and the appending loop of one part: the content root ends up holding the group's nodes. */
  method ReplaceChildren(kids: seq<Node>, elements: seq<Node>) returns (r: seq<Node>)
    ensures r == elements
  {
    r := kids;
    while r != []
      decreases |r|
    {
      r := r[1..];
    }
    for e := 0 to |elements|
      invariant r == elements[..e]
    {
      r := r + [elements[e]];
    }
    assert elements[..|elements|] == elements;
  }

  /** `splitChapterContent`: one serialized copy of the chapter per group, none when there is nothing to split. */
  method SplitChapterContent(m: Markup, html: string) returns (parts: seq<string>)
    ensures parts == SplitParts(m, html)
  {
    var doc := LoadChapter(m, html);
    var container := FindContentContainer(BodyNode(doc));
    if container.None? {
      SplitPartsCases(m, html);
      return [];
    }
    var body := BodyNode(doc).value;
    assert ValidPath(body, container.value) by { SplitPartsCases(m, html); }
    var children := MeaningfulChildren(Children(Get(body, container.value)));
    assert children == Candidates(BodyNode(doc)) by { SplitPartsCases(m, html); }
    if |children| < 2 {
      SplitPartsCases(m, html);
      return [];
    }
    var groups := GroupElementsByType(children);
    if |groups| <= 1 {
      SplitPartsCases(m, html);
      return [];
    }
    assert groups == PartGroups(doc);
    SplitPartAt(m, html, 0);
    parts := SerializeParts(m, doc, ContentRoot(doc).value, groups);
    forall i | 0 <= i < |groups| ensures parts[i] == SplitParts(m, html)[i] {
      SplitPartAt(m, html, i);
    }
  }

  /** The loop of `splitChapterContent`: for each group in turn, the document serialized with the group in the content root. */
  method SerializeParts(m: Markup, doc: Node, root: Path, groups: seq<Group>) returns (parts: seq<string>)
    requires IsElementAt(doc, root)
    ensures |parts| == |groups|
    ensures forall i :: 0 <= i < |groups| ==> parts[i] == m.serialize(WithChildren(doc, root, groups[i].elements))
  {
    parts := [];
    for g := 0 to |groups|
      invariant |parts| == g
      invariant forall i :: 0 <= i < g ==> parts[i] == m.serialize(WithChildren(doc, root, groups[i].elements))
    {
      var kids := ReplaceChildren(Get(doc, root).children, groups[g].elements);
      parts := parts + [m.serialize(WithChildren(doc, root, kids))];
    }
  }

  // ---------------------------------------------------------------------------
  // _extractHeaderFooter
  // ---------------------------------------------------------------------------

  datatype HeaderFooter = HeaderFooter(header: string, footer: string)

  /** `_extractHeaderFooter`. */
  function ExtractHeaderFooter(html: string, tag: string): (r: Option<HeaderFooter>)
    ensures r.Some? ==> 0 < |r.value.header| <= |html| && r.value.header == html[..|r.value.header|]
    ensures r.Some? ==> |tag| + 3 <= |r.value.footer| <= |html| && r.value.footer == html[|html| - |r.value.footer|..]
  {
    var lower := Lower(html);
    var openTagStart := IndexOf(lower, "<" + tag, 0);
    if openTagStart.None? then None
    else
      var openTagEnd := IndexOf(html, ">", openTagStart.value);
      var closeTagStart := LastIndexOf(lower, "</" + tag + ">");
      if openTagEnd.None? || closeTagStart.None? then None
      else Some(HeaderFooter(html[..openTagEnd.value + 1], html[closeTagStart.value..]))
  }

  /** No `c` in `s` from `from` on, as a character test. */
  lemma NoCharFrom(s: string, c: char, from: nat)
    requires forall j :: from <= j ==> !OccursAt(s, [c], j)
    ensures forall j :: from <= j < |s| ==> s[j] != c
  {
    forall j | from <= j < |s| ensures s[j] != c {
      assert !OccursAt(s, [c], j);
      assert s[j..j + 1] == [s[j]];
    }
  }

  /** `o` is the first place `t` occurs in `s`. */
  predicate FirstOccurrence(s: string, t: string, o: nat) {
    OccursAt(s, t, o) && forall j :: 0 <= j < o ==> !OccursAt(s, t, j)
  }

  /**
   * When found, the header is the prefix of the input that ends with the
   * first `>` at or after the first `<tag` (compared lower-case), and the
   * footer is the suffix that starts with the last `</tag>`.
   */
  lemma ExtractHeaderFooterFound(html: string, tag: string)
    requires ExtractHeaderFooter(html, tag).Some?
    ensures var lower, h, f := Lower(html), ExtractHeaderFooter(html, tag).value.header, ExtractHeaderFooter(html, tag).value.footer;
      && |h| > 0 && h <= html && h[|h| - 1] == '>'
      && (exists o: nat :: o < |h| && FirstOccurrence(lower, "<" + tag, o)
            && forall j :: o <= j < |h| - 1 ==> html[j] != '>')
      && |f| <= |html| && f == html[|html| - |f|..]
      && OccursAt(lower, "</" + tag + ">", |html| - |f|)
      && forall j :: |html| - |f| < j ==> !OccursAt(lower, "</" + tag + ">", j)
  {
    var lower := Lower(html);
    var o := IndexOf(lower, "<" + tag, 0).value;
    var e := IndexOf(html, ">", o).value;
    assert html[e..e + 1] == ">";
    forall j | o <= j < e ensures html[j] != '>' {
      assert !OccursAt(html, ">", j);
      assert html[j..j + 1] == [html[j]];
    }
    assert FirstOccurrence(lower, "<" + tag, o);
  }

  /**
   * Nothing is found only when `<tag` does not occur, no `>` comes at or
   * after its first occurrence, or `</tag>` does not occur.
   */
  lemma ExtractHeaderFooterMissing(html: string, tag: string)
    requires ExtractHeaderFooter(html, tag).None?
    ensures var lower := Lower(html);
      || (forall j :: !OccursAt(lower, "<" + tag, j))
      || (exists o: nat :: FirstOccurrence(lower, "<" + tag, o) && forall j :: o <= j < |html| ==> html[j] != '>')
      || (forall j :: !OccursAt(lower, "</" + tag + ">", j))
  {
    var lower := Lower(html);
    var o := IndexOf(lower, "<" + tag, 0);
    if o.Some? && IndexOf(html, ">", o.value).None? {
      NoCharFrom(html, '>', o.value);
      assert FirstOccurrence(lower, "<" + tag, o.value);
    }
  }

  // ---------------------------------------------------------------------------
  // File names
  // ---------------------------------------------------------------------------

  /** The split of a file name at its last '.': the extension keeps the dot; without a dot it is empty. */
  function BaseAndExtension(name: string): (r: (string, string))
    ensures r.0 + r.1 == name
    ensures r.1 == [] || (r.1[0] == '.' && forall j :: 1 <= j < |r.1| ==> r.1[j] != '.')
    ensures r.1 == [] ==> forall j :: 0 <= j < |name| ==> name[j] != '.'
  {
    var dot := LastIndexOf(name, ".");
    if dot.None? then
      NoCharFrom(name, '.', 0);
      (name, "")
    else
      var k := dot.value;
      NoCharFrom(name, '.', k + 1);
      assert name[k..k + 1] == ".";
      var ext := name[k..];
      assert ext[0] == name[k] == '.';
      assert forall j :: 1 <= j < |ext| ==> ext[j] == name[k + j];
      TakeDrop(name, k);
      (name[..k], ext)
  }

  /** The name of part `i`: the original for part 0, `base_-i.ext` after it. */
  function PartFilename(name: string, i: nat): string {
    if i == 0 then name
    else
      var (base, ext) := BaseAndExtension(name);
      base + "_-" + NatToString(i) + ext
  }

  /** The names `generateSplitFilenames` returns: at least one, the first the original. */
  function SplitFilenames(name: string, partCount: int): (names: seq<string>)
    ensures |names| == if partCount < 1 then 1 else partCount
    ensures names[0] == name
    ensures forall i :: 0 <= i < |names| ==> names[i] == PartFilename(name, i)
  {
    var n := if partCount < 1 then 1 else partCount;
    seq(n, i requires 0 <= i < n => PartFilename(name, i))
  }

  /** The part names of one chapter are pairwise distinct. */
  lemma SplitFilenamesDistinct(name: string, partCount: int, i: nat, j: nat)
    requires i < j < |SplitFilenames(name, partCount)|
    ensures SplitFilenames(name, partCount)[i] != SplitFilenames(name, partCount)[j]
  {
    var (base, ext) := BaseAndExtension(name);
    var mid := base + "_-";
    var nj := mid + NatToString(j) + ext;
    if i == 0 {
      assert |nj| > |name|;
    } else {
      var ni := mid + NatToString(i) + ext;
      if |NatToString(i)| == |NatToString(j)| && ni == nj {
        assert ni[|mid|..|mid| + |NatToString(i)|] == NatToString(i);
        assert nj[|mid|..|mid| + |NatToString(j)|] == NatToString(j);
        NatToStringInjective(i, j);
      }
    }
  }

  /** A chapter split in three keeps its name for the first part and suffixes the others before the extension. */
  lemma SplitFilenamesExample()
    ensures SplitFilenames("ch1.xhtml", 3) == ["ch1.xhtml", "ch1_-1.xhtml", "ch1_-2.xhtml"]
  {
    var a := SplitFilenames("ch1.xhtml", 3);
    ChapterPartName(1, '1');
    ChapterPartName(2, '2');
    PartNameSpelling();
    assert a == [a[0], a[1], a[2]];
  }

  /** The part names of the example, spelled out. */
  lemma PartNameSpelling()
    ensures "ch1_-" + ['1'] + ".xhtml" == "ch1_-1.xhtml"
    ensures "ch1_-" + ['2'] + ".xhtml" == "ch1_-2.xhtml"
  {
  }

  /** Part `i` (a single digit `d`) of `ch1.xhtml` is `ch1_-d.xhtml`. */
  lemma ChapterPartName(i: nat, d: char)
    requires 0 < i < 10 && d == Digit(i)
    ensures PartFilename("ch1.xhtml", i) == "ch1_-" + [d] + ".xhtml"
  {
    ChapterNameParts();
    assert NatToString(i) == [d];
  }

  /** The extension of `ch1.xhtml` starts at its only dot. */
  lemma ChapterNameParts()
    ensures BaseAndExtension("ch1.xhtml") == ("ch1", ".xhtml")
  {
    assert LastIndexOf("ch1.xhtml", ".") == Some(3) by {
      assert OccursAt("ch1.xhtml", ".", 3);
      forall j | 3 < j ensures !OccursAt("ch1.xhtml", ".", j) {
        if j + 1 <= 9 {
          assert "ch1.xhtml"[j..j + 1] == ["ch1.xhtml"[j]];
        }
      }
    }
    assert "ch1.xhtml"[..3] == "ch1" && "ch1.xhtml"[3..] == ".xhtml";
  }

  /** A name without an extension gets the suffix at its end. */
  lemma SplitFilenamesNoExtensionExample()
    ensures SplitFilenames("ch1", 2) == ["ch1", "ch1_-1"]
  {
    assert BaseAndExtension("ch1") == ("ch1", "") by {
      forall j ensures !OccursAt("ch1", ".", j) {
        if 0 <= j && j + 1 <= 3 {
          assert "ch1"[j..j + 1] == ["ch1"[j]];
        }
      }
    }
    var b := SplitFilenames("ch1", 2);
    assert b[1] == "ch1_-1" by {
      assert NatToString(1) == "1";
      assert b[1] == PartFilename("ch1", 1) == "ch1" + "_-" + "1" + "";
    }
    assert b == [b[0], b[1]];
  }

  /** `generateSplitFilenames`: the original name, then one suffixed name per further part. */
  method GenerateSplitFilenames(originalFilename: string, partCount: int) returns (filenames: seq<string>)
    ensures filenames == SplitFilenames(originalFilename, partCount)
  {
    var (baseName, extension) := BaseAndExtension(originalFilename);
    filenames := [originalFilename];
    var i := 1;
    while i < partCount
      invariant 1 <= i && (partCount >= 1 ==> i <= partCount) && (partCount < 1 ==> i == 1)
      invariant |filenames| == i
      invariant forall j :: 0 <= j < i ==> filenames[j] == PartFilename(originalFilename, j)
    {
      filenames := filenames + [baseName + "_-" + NatToString(i) + extension];
      i := i + 1;
    }
    assert |filenames| == |SplitFilenames(originalFilename, partCount)|;
  }

  /** `filename.split('/').pop()`: the text after the last '/', or all of it. */
  function BaseName(filename: string): (r: string)
    ensures |r| <= |filename| && r == filename[|filename| - |r|..]
    ensures forall j :: 0 <= j < |r| ==> r[j] != '/'
    ensures |r| < |filename| ==> filename[|filename| - |r| - 1] == '/'
  {
    var slash := LastIndexOf(filename, "/");
    if slash.None? then
      assert forall j :: 0 <= j < |filename| ==> filename[j] != '/' by {
        forall j | 0 <= j < |filename| ensures filename[j] != '/' {
          assert !OccursAt(filename, "/", j);
          assert filename[j..j + 1] == [filename[j]];
        }
      }
      filename
    else
      var k := slash.value;
      assert filename[k..k + 1] == "/";
      var r := filename[k + 1..];
      assert forall j :: 0 <= j < |r| ==> r[j] != '/' by {
        forall j | 0 <= j < |r| ensures r[j] != '/' {
          assert !OccursAt(filename, "/", k + 1 + j);
          assert filename[k + 1 + j..k + 2 + j] == [r[j]];
        }
      }
      r
  }

  /** `shouldSkipFile`: the base name is one of the seven whitelisted names. */
  function ShouldSkipFile(filename: string): (b: bool)
    ensures b <==> exists k :: 0 <= k <= |filename| && (k == 0 || filename[k - 1] == '/') && filename[k..] in FilenameWhitelist
  {
    SkipBySuffix(filename);
    BaseName(filename) in FilenameWhitelist
  }

  /** No whitelisted name contains a '/'. */
  lemma WhitelistHasNoSlash()
    ensures forall w :: w in FilenameWhitelist ==> '/' !in w
  {
  }

  /** The base name is whitelisted exactly when the file name is a whitelisted name or ends in '/' and one. */
  lemma SkipBySuffix(f: string)
    ensures BaseName(f) in FilenameWhitelist
      <==> exists k :: 0 <= k <= |f| && (k == 0 || f[k - 1] == '/') && f[k..] in FilenameWhitelist
  {
    var r := BaseName(f);
    var kr := |f| - |r|;
    assert f[kr..] == r;
    if exists k :: 0 <= k <= |f| && (k == 0 || f[k - 1] == '/') && f[k..] in FilenameWhitelist {
      var k :| 0 <= k <= |f| && (k == 0 || f[k - 1] == '/') && f[k..] in FilenameWhitelist;
      WhitelistHasNoSlash();
      assert kr == k;
    }
  }


  /**
   * Only the part after the last '/' decides whether a file is skipped, and
   * the match is exact: a whitelisted name anywhere under any directory is
   * skipped, nothing else is.
   */
  lemma ShouldSkipFileByBaseName(dir: string, name: string)
    requires forall j :: 0 <= j < |name| ==> name[j] != '/'
    ensures ShouldSkipFile(dir + "/" + name) <==> name in FilenameWhitelist
    ensures ShouldSkipFile(name) <==> name in FilenameWhitelist
  {
    var f := dir + "/" + name;
    var r := BaseName(f);
    assert f[|dir|] == '/';
    assert r == f[|f| - |name|..] == name;
  }

  // ---------------------------------------------------------------------------
  // processChapter
  // ---------------------------------------------------------------------------

  /** The record `processChapter` returns. `success` is false only for `Failed`. */
  datatype SplitResult =
    | Skipped(reason: string, originalContent: string)
    | Split(splitCount: nat, contents: seq<string>, filenames: seq<string>, originalFilename: string)
    | Failed(error: string, originalContent: string)
  {
    predicate Success() { !Failed? }
  }

  const WhitelistReason := "File in whitelist"
  const NoSplitReason := "No splitting needed"
  const NotBeneficialReason := "Splitting failed or not beneficial"

  /**
   * `processChapter`: a whitelisted file is skipped before anything is
   * parsed; a chapter that does not need splitting is skipped; otherwise the
   * result holds the parts and as many file names, the first the original.
   */
  method ProcessChapter(m: Markup, htmlContent: string, filename: string) returns (r: SplitResult)
    ensures r.Success()
    ensures ShouldSkipFile(filename) ==> r == Skipped(WhitelistReason, htmlContent)
    ensures !ShouldSkipFile(filename) && PartGroups(LoadChapter(m, htmlContent)) == [] ==>
      r == Skipped(NoSplitReason, htmlContent)
    ensures r.Split? <==> !ShouldSkipFile(filename) && PartGroups(LoadChapter(m, htmlContent)) != []
    ensures r.Split? ==>
      && r.contents == SplitParts(m, htmlContent)
      && r.splitCount == |r.contents| == |r.filenames| && r.splitCount >= 2
      && r.filenames == SplitFilenames(filename, r.splitCount)
      && r.filenames[0] == filename && r.originalFilename == filename
  {
    if ShouldSkipFile(filename) {
      return Skipped(WhitelistReason, htmlContent);
    }
    var needs := NeedsSplitting(m, htmlContent);
    if !needs {
      return Skipped(NoSplitReason, htmlContent);
    }
    var splitContents := SplitChapterContent(m, htmlContent);
    if |splitContents| <= 1 {
      return Skipped(NotBeneficialReason, htmlContent);
    }
    var filenames := GenerateSplitFilenames(filename, |splitContents|);
    r := Split(|splitContents|, splitContents, filenames, filename);
  }
}
