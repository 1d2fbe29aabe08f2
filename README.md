# EPUB chapter splitting and OPF editing, modelled in Dafny

This project models the two components of an EPUB tool that do document-level work:

- **The chapter splitter** (`ChapterSplitter`). It first finds a chapter's content root: the `body`, or the body's only element child when that child is a `div`. It classifies each child of the root as text, image or whitespace, and groups consecutive children of the same type. When there are at least two groups, it emits one serialized copy of the chapter per group, and that copy's content root holds only that group. It also:
  - names the parts (`ch1.xhtml`, `ch1_-1.xhtml`, ...);
  - skips the whitelisted navigation and cover files;
  - assembles the result record of `processChapter`.
- **The OPF manifest and spine editor** (`ManifestUpdater`). It inserts new `item` elements right after the original chapter's item in the manifest, and new `itemref` elements right after its itemref in the spine. It also validates the package's required elements, reads the manifest and spine back, and chooses fresh item ids.

The browser's `DOMParser` and `XMLSerializer` are parameters. Each is a pair of functions inside a codec value (`Markup`, `XmlCodec`). A document is an immutable tree value (`Dom.Node`), and a node is addressed by a path of child indices. `querySelector` is the first match in document order, and `querySelectorAll` is all matches in that order. The source's loops become methods over local sequences, and each method is proved equal to a specification function. The properties the source promises are proved as lemmas about those functions. Supporting modules:

- `Strings`: JavaScript's `trim`, `toLowerCase` on ASCII letters only, `indexOf`/`lastIndexOf` and decimal printing. A string is a sequence of Unicode code points.
- `Seqs`: generic sequence facts.
- `Wrappers`: `Option` and `Result`.

## Model

| member | source | states |
|---|---|---|
| ChapterSplitter.ClassificationRules | js/chapter-splitter.js:24-50 | A non-element is whitespace. An element tagged exactly IMG or SVG is an image. Any other element is text iff non-blank text remains after its img/svg descendants are removed. It is an image iff it has such a descendant and no text remains. It is whitespace iff it has neither media nor non-blank text. A node whose whole text is blank is never text. |
| ChapterSplitter.LowerCaseImgIsWhitespace | js/chapter-splitter.js:24-32 | The name test is exact: a childless `img` element is whitespace, and a childless `IMG` element is an image. |
| ChapterSplitter.ElementType | js/chapter-splitter.js:24-50 | Only an element can be text or image. An image is an element tagged exactly IMG or SVG, or one with an img/svg descendant. |
| ChapterSplitter.TextWithoutMedia | js/chapter-splitter.js:43-47 | The text left after the img/svg descendants of a copy are removed is never longer than the element's `textContent`. That is the text of all its text and CDATA descendants. |
| ChapterSplitter.NoMediaSameText | js/chapter-splitter.js:37-40 | Without media descendants, the text that remains after removing media is the full text content. |
| ChapterSplitter.StrippedTextOfBlank | js/chapter-splitter.js:43-48 | Removing media from a node whose text is blank leaves blank text. |
| ChapterSplitter.ElementIndices | js/chapter-splitter.js:61 | `children`: exactly the indices of the element children from a start index, strictly increasing. |
| ChapterSplitter.ElementIndicesOfSole | js/chapter-splitter.js:64 | When one child is the only element child, the element indices are exactly that index. |
| ChapterSplitter.FindContentContainer | js/chapter-splitter.js:57-69 | No container exactly when there is no body. The container is the child at index i iff that child is the body's sole element child and its tag lower-cases to `div`. Otherwise it is the body itself. |
| ChapterSplitter.BodyPath | js/chapter-splitter.js:83 | `document.body` is the first child named `body` of an `html` document element. There is none exactly when no such child exists. |
| ChapterSplitter.FirstBody | js/chapter-splitter.js:83 | Returns the first index from a start whose child is a `body` element, or none exactly when no such child follows. |
| ChapterSplitter.LoadChapterFallback | js/chapter-splitter.js:78-86 | The chapter document is the XHTML parse when that has no `parsererror` and has a body. Otherwise it is the HTML parse. |
| ChapterSplitter.ContentRoot | js/chapter-splitter.js:166-170 | The path to the content root exists exactly when there is a body, and it leads to an element. |
| ChapterSplitter.MeaningfulChildren | js/chapter-splitter.js:106-110 | The filter keeps exactly the element children and the text children with non-blank text, and never adds anything. |
| ChapterSplitter.MeaningfulChildrenAppend | js/chapter-splitter.js:106-110 | The filter keeps the children's order: filtering a concatenation gives the filtered halves, concatenated. |
| ChapterSplitter.NonWhitespace | js/chapter-splitter.js:134 | The children that grouping keeps are exactly those not classified as whitespace. |
| ChapterSplitter.Grouped | js/chapter-splitter.js:127-148 | The groups built from the children are never more than the children. |
| ChapterSplitter.GroupedInvariants | js/chapter-splitter.js:127-148 | Grouping yields groups that are non-empty, uniform in type, with no two neighbours of the same type. Concatenated, the groups are exactly the non-whitespace children in their original order. |
| ChapterSplitter.AddChildInvariants | js/chapter-splitter.js:131-145 | One step of the grouping loop keeps the groups well formed. It appends the child to the flattened content exactly when the child is not whitespace. |
| ChapterSplitter.NewGroupInvariants | js/chapter-splitter.js:136-144 | Opening a new group for a child whose type differs from the last group's keeps the groups well formed. |
| ChapterSplitter.ExtendLastFlatten | js/chapter-splitter.js:144 | Pushing a child onto the current group appends it to the flattened content. |
| ChapterSplitter.ExtendLastWellGrouped | js/chapter-splitter.js:144 | Pushing a child of the current group's type onto that group keeps the groups well formed. |
| ChapterSplitter.OpenGroupStep | js/chapter-splitter.js:136-144 | Pushing an empty group of the child's type, then pushing the child onto it, is the specified step when the type differs from the last group's. |
| ChapterSplitter.ExtendGroupStep | js/chapter-splitter.js:144 | Pushing the child onto the last group is the specified step when the types agree. |
| ChapterSplitter.PlaceChild | js/chapter-splitter.js:131-145 | One turn of the loop performs the specified step. A whitespace child is skipped, a child of a new type opens a new current group, and any other child joins the current group. The current group stays the last one, and there is one exactly when there are groups. |
| ChapterSplitter.NonEmptyGroups | js/chapter-splitter.js:147 | The final filter changes nothing when every group is non-empty. |
| ChapterSplitter.GroupElementsByType | js/chapter-splitter.js:127-148 | The loop with a current group, followed by the filter, computes the grouping. The result is well formed, flattens to the non-whitespace children in order, and has no more groups than children. |
| ChapterSplitter.PartGroups | js/chapter-splitter.js:178-181 | The groups that become parts are either none or at least two. |
| ChapterSplitter.AnalyzeContentForSplitting | js/chapter-splitter.js:101-119 | Returns true iff the filtered children of the content root form at least two groups. |
| ChapterSplitter.NeedsSplitting | js/chapter-splitter.js:76-93 | After parsing as XHTML, or as HTML when XHTML fails or has no body, returns true iff the chapter has parts to split into. |
| ChapterSplitter.Candidates | js/chapter-splitter.js:166-176 | Without a body there are no candidates. Every candidate passes the filter: it is an element, or a text node with non-blank text. |
| ChapterSplitter.PartDocuments | js/chapter-splitter.js:186-206 | Builds one part document per group. |
| ChapterSplitter.PartDocumentsShape | js/chapter-splitter.js:188-201 | Part i's content root holds exactly group i's nodes, in order. Putting the original children back gives the original document, so nothing outside the content root changes. |
| ChapterSplitter.PartsKeepOrder | js/chapter-splitter.js:186-208 | Read one after another, the parts hold exactly the non-whitespace filtered children of the content root, in their original order, grouped by type. |
| ChapterSplitter.ContainerIsContentRoot | js/chapter-splitter.js:166-172 | The body path followed by the container path is the content root, and the filter works on its children. |
| ChapterSplitter.SplitPartAt | js/chapter-splitter.js:186-205 | Serialized part i is the serialized copy of the document whose content root holds group i. |
| ChapterSplitter.SplitPartsCases | js/chapter-splitter.js:166-181 | No container, fewer than two filtered children, or a single group all give no parts. |
| ChapterSplitter.ReplaceChildren | js/chapter-splitter.js:192-201 | Emptying the container and then appending the group's nodes leaves exactly the group's nodes, in order. |
| ChapterSplitter.SplitChapterContent | js/chapter-splitter.js:155-213 | `splitChapterContent` returns exactly the serialized parts: none when there is nothing to split, otherwise one per group in group order. |
| ChapterSplitter.SplitParts | js/chapter-splitter.js:155-213 | There is one serialized part per group that becomes a part, so there are none or at least two. |
| ChapterSplitter.SerializeParts | js/chapter-splitter.js:183-208 | The part loop yields one string per group. String i is the serialized document with group i in the content root. |
| ChapterSplitter.NoCharFrom | js/chapter-splitter.js:226 | A one-character search that finds nothing from some index means the character does not occur from there on. |
| ChapterSplitter.ExtractHeaderFooter | js/chapter-splitter.js:222-241 | When found, the header is a non-empty prefix of the content. The footer is a suffix of the content, at least as long as `</tag>`. |
| ChapterSplitter.ExtractHeaderFooterFound | js/chapter-splitter.js:222-236 | The header is the prefix up to the first `>` at or after the first `<tag` in the lower-cased content. The footer is the suffix that starts at the last `</tag>` in the lower-cased content. The tag name itself is not lower-cased, so a name with an upper-case letter never matches. |
| ChapterSplitter.ExtractHeaderFooterMissing | js/chapter-splitter.js:229-231 | Null is returned only when `<tag` is absent, no `>` follows it, or `</tag>` is absent. |
| ChapterSplitter.BaseAndExtension | js/chapter-splitter.js:250-256 | Base name and extension concatenate to the file name. The extension is empty, or starts at the last `.` and contains no other dot. An empty extension means the name has no dot. |
| ChapterSplitter.SplitFilenames | js/chapter-splitter.js:249-265 | There are max(partCount, 1) names. The first is the original name, and name i is `base_-i` plus the extension. |
| ChapterSplitter.SplitFilenamesDistinct | js/chapter-splitter.js:258-262 | The generated file names are pairwise distinct. |
| ChapterSplitter.SplitFilenamesExample | js/chapter-splitter.js:258-262 | `ch1.xhtml` in three parts gives `ch1.xhtml`, `ch1_-1.xhtml`, `ch1_-2.xhtml`. |
| ChapterSplitter.ChapterNameParts | js/chapter-splitter.js:250-256 | `ch1.xhtml` splits into `ch1` and `.xhtml`. |
| ChapterSplitter.SplitFilenamesNoExtensionExample | js/chapter-splitter.js:251-256 | A name without a dot gets suffixes and no extension: `ch1` in two parts gives `ch1`, `ch1_-1`. |
| ChapterSplitter.GenerateSplitFilenames | js/chapter-splitter.js:249-265 | The loop pushes exactly the specified names. |
| ChapterSplitter.BaseName | js/chapter-splitter.js:273 | `split('/').pop()` is the longest suffix without `/`, and a `/` precedes it whenever it is not the whole name. |
| ChapterSplitter.ShouldSkipFile | js/chapter-splitter.js:272-275 | A file is skipped iff the part of its name after the start or after some `/` is a whitelisted name. |
| ChapterSplitter.SkipBySuffix | js/chapter-splitter.js:273-274 | The base name is whitelisted iff the name is a whitelisted name, or ends with `/` followed by one. This holds because no whitelisted name contains `/`. |
| ChapterSplitter.ShouldSkipFileByBaseName | js/chapter-splitter.js:272-275 | A file is skipped iff its base name is one of the seven whitelisted names, under any directory or none. |
| ChapterSplitter.ProcessChapter | js/chapter-splitter.js:283-337 | A whitelisted file is skipped before any parsing. A chapter without parts is skipped with reason "No splitting needed". Otherwise the result holds the parts, as many file names with the original first, and a split count of at least two. The result always reports success. |
| ManifestUpdater.ParserError | js/epub-manifest-updater.js:29-32 | A parser error is reported exactly when the parsed document contains a `parsererror` element. |
| ManifestUpdater.WithDeclaration | js/epub-manifest-updater.js:142-156 | `_serializeXml` is the serializer followed by this step. The output always starts with `<?xml` and ends with the serializer's output. The declaration is added exactly when the output did not already start with `<?xml`. |
| ManifestUpdater.WithDeclarationIdempotent | js/epub-manifest-updater.js:142-156 | Adding the declaration twice is the same as adding it once. |
| ManifestUpdater.ManifestItem | js/epub-manifest-updater.js:42-49 | A new `item` carries the file's id and href. Its media type is the file's, or `application/xhtml+xml` when that is missing or empty. It has `properties` only when the file's properties are non-empty. |
| ManifestUpdater.ItemAttrsLookup | js/epub-manifest-updater.js:43-48 | Each attribute set on a new item reads back with the value it was given. |
| ManifestUpdater.LeadingAttrsLookup | js/epub-manifest-updater.js:43-48 | `id`, `href` and `media-type` read back the values they were set to. Any later attribute is looked up after them. |
| ManifestUpdater.SpineItemref | js/epub-manifest-updater.js:93-97 | A new `itemref` carries the id as `idref` and the given `linear` value. |
| ManifestUpdater.ManifestItems | js/epub-manifest-updater.js:41-54 | Builds one new item per file, in order. |
| ManifestUpdater.SpineItemrefs | js/epub-manifest-updater.js:92-101 | Builds one new itemref per id, in order. |
| ManifestUpdater.NewElementsMatchNothing | js/epub-manifest-updater.js:42 | A new item or itemref is not, and contains no, `parsererror`, `manifest` or `spine` element. |
| ManifestUpdater.LocateItem | js/epub-manifest-updater.js:29-38 | On success, the path leads to an `item` whose id is the original id. |
| ManifestUpdater.LocateItemIsFirst | js/epub-manifest-updater.js:34-38 | On success, the path is the first `manifest` in document order followed by the first matching `item` below it: no earlier node is a `manifest`, and no earlier descendant of the manifest is a matching `item`. |
| ManifestUpdater.ManifestParseError | js/epub-manifest-updater.js:29-32 | A malformed package is rejected with the parser error's text. |
| ManifestUpdater.ManifestMissing | js/epub-manifest-updater.js:34-35 | A package without a manifest is rejected with "No manifest element found in OPF file". |
| ManifestUpdater.ManifestItemMissing | js/epub-manifest-updater.js:37-38 | When no item under the first manifest has the id, the error names that id. |
| ManifestUpdater.ManifestItemFound | js/epub-manifest-updater.js:37-41 | Once the item is found, the update fails only when there is no file array to iterate. |
| ManifestUpdater.ItemNotFoundNamesId | js/epub-manifest-updater.js:38 | The not-found message contains the id. |
| ManifestUpdater.ManifestTreeInserts | js/epub-manifest-updater.js:40-54 | The new items sit, in order, directly after the original item among its siblings, and the original keeps its place. Removing them gives back the parsed document, so nothing else changes. |
| ManifestUpdater.SpliceStep | js/epub-manifest-updater.js:52-53 | Inserting before the next sibling of the last inserted node extends the splice by one node. |
| ManifestUpdater.ManifestTreeIsSplice | js/epub-manifest-updater.js:40-54 | The cursor insertion of the loop is the splice of all new items after the original. |
| ManifestUpdater.InsertItemsAfter | js/epub-manifest-updater.js:40-54 | The loop yields the siblings up to the original, then the new items, then the rest. |
| ManifestUpdater.UpdateManifest | js/epub-manifest-updater.js:24-60 | `updateManifest` returns the specified document serialized with a declaration. Otherwise it throws the specified message, prefixed with "Failed to update manifest: ". |
| ManifestUpdater.ManifestUpdateOutcome | js/epub-manifest-updater.js:24-60 | The manifest update succeeds exactly when the package parses, has a manifest with the item, and there is a file array. Its output then starts with `<?xml`. Every error starts with "Failed to update manifest: ". |
| ManifestUpdater.LinearOf | js/epub-manifest-updater.js:89 | The `linear` value is never empty: it is the original's when that is non-empty, otherwise "yes". |
| ManifestUpdater.LocateItemref | js/epub-manifest-updater.js:74-87 | On success with a path, the path leads to an `itemref` whose idref is the original id. |
| ManifestUpdater.LocateItemrefIsFirst | js/epub-manifest-updater.js:79-87 | On success, the spine is the first `spine` in document order. The answer is none exactly when no itemref below it has the idref. Otherwise the path is that spine followed by the first matching `itemref` below it, and no earlier descendant of the spine matches. |
| ManifestUpdater.SpineMissing | js/epub-manifest-updater.js:79-80 | A package without a spine is rejected with "No spine element found in OPF file". |
| ManifestUpdater.SpineNotListed | js/epub-manifest-updater.js:82-87 | When the first spine does not list the id, the input text comes back unchanged and is not re-serialized. |
| ManifestUpdater.SpineTreeInserts | js/epub-manifest-updater.js:89-101 | The new itemrefs sit, in order, directly after the original itemref. Each names its id and carries the original's `linear` value or "yes". Removing them gives back the parsed document. |
| ManifestUpdater.SpineTreeIsSplice | js/epub-manifest-updater.js:91-101 | The cursor insertion of the loop is the splice of all new itemrefs after the original. |
| ManifestUpdater.InsertItemrefsAfter | js/epub-manifest-updater.js:91-101 | The loop yields the siblings up to the original, then the new itemrefs, then the rest. |
| ManifestUpdater.UpdateSpine | js/epub-manifest-updater.js:69-107 | `updateSpine` returns the specified result, or throws the specified message prefixed with "Failed to update spine: ". |
| ManifestUpdater.SpineUpdateOutcome | js/epub-manifest-updater.js:69-107 | The spine update fails exactly on a parse error or a missing spine, and then starts with "Failed to update spine: ". The input comes back unchanged exactly when the first spine lists no itemref with the id. Otherwise the output starts with `<?xml`. |
| ManifestUpdater.FileIds | js/epub-manifest-updater.js:127 | `newFiles.map(file => file.id)` gives the ids, in order. |
| ManifestUpdater.ManifestUpdateWithoutFilesFails | js/epub-manifest-updater.js:41 | Without a file array, the manifest update fails for every package and every id. |
| ManifestUpdater.UpdateManifestAndSpineAsWritten | js/epub-manifest-updater.js:115-134 | As written, every call fails: either the data is invalid, or the manifest step gets the file array as the id and no files. |
| ManifestUpdater.UpdateManifestAndSpine | js/epub-manifest-updater.js:115-134 | The corrected composition: validate the data, update the manifest, then update the spine with the files' ids. The first error is rethrown with a prefix. |
| ManifestUpdater.ManifestAndSpineOutcome | js/epub-manifest-updater.js:115-134 | The composition succeeds only with an id, a file array and a successful manifest step, and its output then starts with `<?xml`. Every error starts with "Failed to update manifest and spine: ". |
| ManifestUpdater.CorrectedCompositionSucceeds | js/epub-manifest-updater.js:123-130 | Assume the serializer's output parses back without a parse error, and with a spine, whenever the serialized document had neither a parse error nor a missing spine. Then a well-formed package with the item under its first manifest and a spine makes the corrected composition succeed. The result is the spine step applied to the manifest step's output. |
| ManifestUpdater.CompositionOfSuccesses | js/epub-manifest-updater.js:123-130 | When both steps succeed, the result is the spine step applied to the manifest step's output. |
| ManifestUpdater.ManifestTreeKeepsSpine | js/epub-manifest-updater.js:40-54 | Inserting manifest items adds no parse error and keeps an existing spine. |
| ManifestUpdater.SpineTreeSucceeds | js/epub-manifest-updater.js:74-101 | On a well-formed document with a spine, the spine update does not fail. |
| ManifestUpdater.MissingOfMembers | js/epub-manifest-updater.js:183-187 | Exactly the required names that have no element are reported, and no more names than were checked. |
| ManifestUpdater.NoneMissing | js/epub-manifest-updater.js:189-204 | With nothing missing, all four required elements are present. |
| ManifestUpdater.ValidationValid | js/epub-manifest-updater.js:163-204 | A package is valid iff it parses and holds package, manifest, spine and metadata. The elements returned are the first of each name. |
| ManifestUpdater.ValidationParseError | js/epub-manifest-updater.js:169-175 | A malformed package is reported with "XML parsing error: " followed by the parser's text. |
| ManifestUpdater.ValidationMissing | js/epub-manifest-updater.js:183-194 | A well-formed package lacking required elements is reported with "Missing required elements: " and the missing names joined by ", ". A name is listed exactly when its element is absent. |
| ManifestUpdater.MissingOfRequired | js/epub-manifest-updater.js:184-187 | The four checks report their names one at a time, in order. |
| ManifestUpdater.OpfValidation | js/epub-manifest-updater.js:163-211 | A parse error always makes the package invalid with "XML parsing error: ". Every rejection starts with that prefix or with "Missing required elements: ". |
| ManifestUpdater.ValidateOpfStructure | js/epub-manifest-updater.js:163-211 | The pushes into `missing` compute the specified validation. |
| ManifestUpdater.ExistingManifestItems | js/epub-manifest-updater.js:218-239 | Without a manifest, returns no entries. Otherwise it returns one entry per `item` under the first manifest, in document order, each with its four attributes or null. |
| ManifestUpdater.ExistingSpineItems | js/epub-manifest-updater.js:246-265 | Without a spine, returns no entries. Otherwise it returns one entry per `itemref` under the first spine, in document order, with `linear` defaulting to "yes" and never empty. |
| ManifestUpdater.ManifestItemReadBack | js/epub-manifest-updater.js:228-234 | An item made for a new file reads back as that file's id, href, media type and properties. |
| ManifestUpdater.SpineItemrefReadBack | js/epub-manifest-updater.js:256-260 | An itemref made for an id reads back as that id and its non-empty `linear` value. |
| ManifestUpdater.CandInjective | js/epub-manifest-updater.js:289-294 | Distinct counters give distinct candidate ids. |
| ManifestUpdater.TakenBound | js/epub-manifest-updater.js:291-294 | If the first k candidates are all taken, at least k ids are taken, so the counter search terminates. |
| ManifestUpdater.LeastFree | js/epub-manifest-updater.js:289-294 | The search stops at a free candidate, and every candidate before it is taken. |
| ManifestUpdater.LeastFreeIsFirst | js/epub-manifest-updater.js:291-294 | The search stops at the first free candidate and only there. |
| ManifestUpdater.UniqueIdsFrom | js/epub-manifest-updater.js:278-298 | Produces one id per remaining part. |
| ManifestUpdater.IdSet | js/epub-manifest-updater.js:276 | `new Set(existingIds)` holds exactly the existing ids. |
| ManifestUpdater.UniqueIdsFromFresh | js/epub-manifest-updater.js:278-298 | The generated ids are pairwise distinct and none was taken before. |
| ManifestUpdater.UniqueIdsFromLeast | js/epub-manifest-updater.js:280-297 | Each id is its proposed id with the least counter that avoids the taken ids and the ids chosen before it. |
| ManifestUpdater.UniqueIds | js/epub-manifest-updater.js:274-301 | `generateUniqueIds` gives max(count, 0) ids. |
| ManifestUpdater.UniqueIdsFresh | js/epub-manifest-updater.js:274-301 | `generateUniqueIds` returns max(count, 0) ids, pairwise distinct and none of them existing. |
| ManifestUpdater.UniqueIdsLeast | js/epub-manifest-updater.js:280-297 | Id a is the proposed id for part a (the base id, then `base_-a`) with the first counter that is free. |
| ManifestUpdater.UniqueIdsKeepsBase | js/epub-manifest-updater.js:280-282 | The first id is the base id itself whenever that is free. |
| ManifestUpdater.UniqueIdsFromStep | js/epub-manifest-updater.js:288-297 | One step chooses the proposed id with the first free counter, then adds it to the taken set. |
| ManifestUpdater.FirstFreeCandidate | js/epub-manifest-updater.js:289-294 | The inner loop ends at a free candidate, with every smaller counter taken. |
| ManifestUpdater.GenerateStep | js/epub-manifest-updater.js:296-297 | Pushing the chosen id and adding it to the set keeps the loop's accumulated ids a prefix of the result. |
| ManifestUpdater.GenerateUniqueIds | js/epub-manifest-updater.js:274-301 | The two loops compute exactly the specified ids. |
| ManifestUpdater.UniqueIdsExample | js/epub-manifest-updater.js:274-301 | Splitting `ch1` into three with `ch1` and `ch2` taken gives `ch1_1`, `ch1_-1`, `ch1_-2`. |
| ManifestUpdater.CreateManifestFiles | js/epub-manifest-updater.js:310-326 | A result without file names is rejected. Otherwise there is one XHTML file per part file name, in order, with ids that are distinct, unused and exactly those `generateUniqueIds` gives. |
| Strings.TrimEmptyIffBlank | js/chapter-splitter.js:39 | `trim()` is empty exactly when every character is JavaScript whitespace. |
| Strings.NatToStringInjective | js/epub-manifest-updater.js:293 | Distinct counters print as distinct decimal strings. |
| Strings.IndexOf | js/chapter-splitter.js:225-226 | `indexOf(t, from)` is the first occurrence at or after `from`, or none when there is no occurrence from there on. |
| Strings.LastIndexOf | js/chapter-splitter.js:227 | `lastIndexOf(t)` is the last occurrence, or none when there is none at all. |
| Dom.GetAttributeAt | js/epub-manifest-updater.js:89 | `getAttribute` gives the value of the first attribute with the name, wherever it sits. |
| Dom.Find | js/epub-manifest-updater.js:34 | `document.querySelector` gives a path to a matching element, the document element included, or null exactly when nothing matches. |
| Dom.FindIn | js/epub-manifest-updater.js:37 | The first match in the children from an index is inside one of them, or there is none exactly when none of them contains a match. |
| Dom.QuerySelector | js/epub-manifest-updater.js:37 | `element.querySelector` gives a path to a matching proper descendant, or null exactly when no child subtree contains a match. |
| Dom.QuerySelectorIsFirst | js/epub-manifest-updater.js:37 | `element.querySelector` answers the first matching descendant in document order: no descendant before it matches. |
| Dom.All | js/epub-manifest-updater.js:228 | `querySelectorAll` is empty exactly when nothing matches. |
| Dom.AllIn | js/epub-manifest-updater.js:256 | The matches below a list of children are empty exactly when no child subtree contains a match. |
| Dom.InsertAfter | js/epub-manifest-updater.js:52 | After `insertBefore(node, anchor.nextSibling)`, the parent is still an element, with exactly as many more children as nodes inserted. |
| Dom.GetAttributeCases | js/epub-manifest-updater.js:89 | `getAttribute` gives null exactly when no attribute has the name, and otherwise the value of one that has. |
| Dom.QuerySelectorIsFirstOfAll | js/epub-manifest-updater.js:228 | `querySelector` on an element gives the first descendant that `querySelectorAll` lists, or null exactly when that list is empty. |
| Dom.InsertAfterShape | js/epub-manifest-updater.js:52 | Inserting after a node puts the new nodes right after it and leaves everything else as it was. |
| Dom.InsertAfterNoNewMatch | js/epub-manifest-updater.js:52 | Inserting nodes that match nothing creates no new match for a selector. |

## Left out

- The parsers and the serializer are parameters, not models of DOMParser and XMLSerializer. Two things are assumed outright and never derived: how malformed input produces a `parsererror` element, and how the serializer spells namespaces and entities.
- Element names: the code compares `tagName` itself only in two places, exactly `IMG`/`SVG` at the top of `getElementType` and the lower-cased name `div` in `findContentContainer`. The model matches the `img, svg` selector by ASCII lower-casing. That is right for an HTML document, but in an XML document the selector is case-sensitive, so `IMG` there would not match. An HTML parser's upper-casing of tag names is left to the parser parameter.
- ChapterSplitter.ExtractHeaderFooter: `toLowerCase` is modelled on ASCII letters only (`Strings.Lower`), and strings are sequences of code points, not of UTF-16 code units. JavaScript lower-cases some characters into more code units, for example `İ` (U+0130) into two. The source then uses indexes found in the lower-cased text to cut the original text, so they shift. For `"İ<body>x</body>"` the source's footer is `"/body>"`, while the model's is `"</body>"`. The model agrees with the source on text whose lower-casing keeps its length in UTF-16 code units.
- ChapterSplitter.BodyPath: `document.body` is modelled as the first `body` child of an `html` document element, with both names compared by ASCII lower-casing. Three things are not modelled. A `frameset` child can also be the body. In an XML document the `html` element must be in the XHTML namespace. The names are compared exactly, without lower-casing. So for `<html><body><img src="a.jpg"/><p>Hi</p></body></html>` without an `xmlns`, the browser's XHTML parse has no body and the code falls back to the HTML parse, where the image and the text form two groups and `needsSplitting` is true. The model takes the XHTML parse and answers false.
- Namespaces are not modelled at all. Element names carry no namespace, and no selector or `document.body` test looks at one. `createElementNS` with the OPF namespace becomes a plain `item`/`itemref` element. `importNode` and `cloneNode` become copies of values, because the model has no node identity and no aliasing.
- Document-level nodes are not modelled: a document is its document element. The doctype and comments or processing instructions outside the document element are kept by `cloneNode` and written by `serializeToString`, but they are not in the model. ChapterSplitter.PartDocumentsShape's "nothing outside the content root changes" covers the document element only.
- CDATA sections count toward `textContent`, as in the browser, but the meaningful-children filter drops a top-level CDATA section because its `nodeType` is not `TEXT_NODE`. Comments and processing instructions are one opaque node kind that contributes no text.
- Selector strings are built from the id by interpolation. The model matches the attribute value exactly and does not model ids that contain quotes or otherwise break the selector syntax.
- `console` logging, the module exports and the global `window` registration are left out. The namespace table in the constructor matters only to `createElementNS`, which is not modelled.
- ManifestUpdater.CorrectedCompositionSucceeds: its premise `KeepsWellFormedSpine` speaks of every tree, including names and attribute values that XML cannot hold, such as a file id containing U+0001. `XMLSerializer` does not check well-formedness, so a real serializer breaks the premise on such trees. The lemma promises nothing for packages or files that carry such text.
- The unreachable `catch` paths are left out: "Validation error: ..." in `validateOpfStructure`, "Failed to serialize XML: ..." in `_serializeXml`, the error branch of `processChapter` and `splitChapterContent`, `false` from the `catch` of `needsSplitting` (js/chapter-splitter.js:89-92), null from the `catch` of `_extractHeaderFooter` (js/chapter-splitter.js:237-240), and the empty lists from the `catch` of `getExistingManifestItems` and `getExistingSpineItems` (js/epub-manifest-updater.js:235-238 and 261-264). The model's parser and serializer are total functions, so nothing inside these `try` blocks can throw.
- ChapterSplitter.ProcessChapter: the `success: false` result exists in the datatype but is never produced, for the reason above.
- ManifestUpdater.GenerateUniqueIds: `count` is an integer. A fractional or non-numeric `count` from JavaScript is not modelled.
- ManifestUpdater.UpdateManifest: a `newFiles` value that is present but not an array is not modelled. `None` stands for a missing array, and its error message follows the V8 engine's wording "newFiles is not iterable".
- ManifestUpdater.UpdateManifestAndSpineAsWritten: when the file array is used as an id, its conversion to text is modelled as `[object Object]` once per file, joined by commas. A custom `toString` on the file objects is not modelled. Its failure does not depend on that text, because the manifest step receives no files.
- The loops are modelled over local sequences, not over the live DOM, and the cursor insertion is factored into its own method (`InsertItemsAfter`, `InsertItemrefsAfter`, `ReplaceChildren`, `SerializeParts`, `FirstFreeCandidate`). The object identity of inserted nodes is not modelled.
- Splitting drops children whose type is whitespace: bare non-blank text nodes count as whitespace in `getElementType`, and so do empty elements. Because the name test is exact, a bare `<img/>` from the XHTML parse keeps its lower-case name and is whitespace too, while the HTML parse's `IMG` is an image (`ChapterSplitter.LowerCaseImgIsWhitespace`). It drops them because the code does. A broader reading would keep every non-whitespace child, and the model does not take that reading.
- Re-running the split decision on a part is not shown to say "no split". A part whose content root holds a single `div` gets a new content root when it is parsed again, so the code does not guarantee this.
- The `translations.js` strings, the user interface and the archive packaging are not part of this model.

## Findings

| source | as written | input that shows it | evidently intended | confidence | as-written member | corrected member |
|---|---|---|---|---|---|---|
| js/epub-manifest-updater.js:124 | `this.updateManifest(opfContent, newFiles)` passes the file array as the original id and leaves the files undefined | any package with a manifest item `ch1` and a spine, with `originalId = "ch1"` and one new file: the manifest step looks for an item whose id is the array's text and gets no files, so it throws and the whole call fails | `this.updateManifest(opfContent, originalId, newFiles)`, which succeeds on that package | not executed | ManifestUpdater.UpdateManifestAndSpineAsWritten | ManifestUpdater.UpdateManifestAndSpine |
