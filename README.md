# foliant Confluence backend: inline comments, managed region, small transforms

This project models the core of foliantcontrib.confluence, the foliant backend that
uploads Markdown documents to Confluence pages, and proves properties of that model.
There are three groups.

- **Inline-comment reconciliation** (`ref_diff.py`). When a page is re-uploaded,
  `restore_refs` moves the inline comments of the stored page onto the new content.
  The pipeline has six steps:
  - `remove_outline_resolved` / `basic_unwrap` drop markers that contain other markers;
  - `unwrap` / `generate_ref_dict` merge each marker into one string and record the pieces;
  - `find_place2` maps each commented string through diff opcodes onto strings of the new page;
  - `correct_places` drops strings inside `ac:` macros;
  - `divide_places` / `add_unique` split unchanged placements from strings claimed by several comments;
  - `restore_equal_refs` / `insert_unequal_refs` splice the markers back into the new page.
- **Managed region.**
  - `extract` and `detect_foliant_blocks` (`extracter.py`) cut a page into the part before
    the `foliant` anchor macro, the managed part and the part after.
  - `Page` (`wrapper.py`) wraps new content between `foliant_start` and `foliant_end` anchors.
    It keeps the parts `extract` cut, and decides from a stored hash whether an upload is needed.
- **Small transforms and bookkeeping.**
  - `crop_title`, `unique_name`, `add_toc` and the `add_comments` guard (`convert.py`);
  - the code macro, task lists and `_normalize` of the `confluence_final` preprocessor (`process.py`);
  - the attachment registry and the choice of a parent page (`uploader.py`);
  - the legacy marker collector and re-inserter of the `confluence_upload` backend (`confluence_upload.py`).

## How the model is built

A parsed page is an arena, `Markup.Doc`: a sequence of nodes.
- Each node is a string (`TextNode`) or an element (`ElemNode`) with a name, attributes and child indices.
- Node 0 is the root.
- A child's index is larger than its parent's, so every walk over the tree terminates.
- `WellFormed` states that parent and child links agree and that no node is listed twice.

BeautifulSoup's strings are node indices; Python's `id()` keys become those indices.

A page that operations change in place is a `Soup` object. Its `nodes` field is reassigned by:
- `BasicUnwrap` and `Unwrap`;
- `GenerateRefDict`;
- `RestoreEqualRefs` and `InsertUnequalRefs`.

Each of these is proved against a function of the old nodes (`Dissolve`, `UnwrapDoc`,
`EqualRestored`, `UnequalInserted`). The text-preservation and well-formedness lemmas are
proved about those functions.

Other state:
- `Page` and `TaskList` are classes whose methods update their fields.
- The attachment registry is a class holding a map and its insertion order.

Outside services are parameters:
- the difflib matcher is a function from two string lists to opcodes, required to partition both lists;
- the Confluence lookups are functions;
- md5 is an opaque function;
- the file copy is a function.

| file | module | source |
|---|---|---|
| wrappers.dfy | Wrappers | Option and Result |
| text.dfy | Text | `str.strip`, `str.isspace`, `str.lower`, `str(n)` |
| markup.dfy | Markup | the node tree, its text, `.strings`, serialisation |
| ref_tree.dfy | RefTree | `remove_outline_resolved`, `basic_unwrap` (first half), `find_all` |
| merging.dfy | Merging | `basic_unwrap` (joining adjacent strings) |
| ref_dict.dfy | RefDict | `unwrap`, `generate_ref_dict` |
| ref_places.dfy | RefPlaces | `find_place2`, `correct_places`, `add_unique`, `divide_places`, `get_refs` |
| ref_restore.dfy | RefRestore | `restore_equal_refs`, `get_content_list`, `insert_unequal_refs` |
| ref_diff.dfy | RefDiff | `restore_refs`, `is_empty` |
| extracter.dfy | Extracter | `extracter.py` |
| wrapper.dfy | Wrapper | `Page` in `wrapper.py` |
| process.dfy | Process | `gen_code_macro`, `Task`, `TaskList`, `_normalize` |
| convert.dfy | Convert | `crop_title`, `unique_name`, `add_toc`, `add_comments` |
| uploader.dfy | Uploader | `AttachmentManager`, `_get_parent_id`, `get_content_id_by_title` |
| confluence_upload.dfy | ConfluenceUpload | nested `collect_refs` and `restore_refs` of `add_comments` |

## Model

| member | source | states |
|---|---|---|
| Text.LStrip | foliant/backends/confluence/ref_diff.py:37 | the result is a suffix of the string; what was cut is whitespace, and the result does not start with whitespace |
| Text.RStrip | foliant/backends/confluence/ref_diff.py:37 | the result is a prefix of the string; what was cut is whitespace, and the result does not end with whitespace |
| Text.StripEmptyIffBlank | foliant/backends/confluence/ref_diff.py:37 | `s.strip()` is empty exactly when every character of `s` is whitespace |
| Text.NatToStringInjective | foliant/backends/confluence/convert.py:98 | different counters give different decimal suffixes |
| RefDiff.IsEmpty | foliant/backends/confluence/ref_diff.py:48-53 | `is_empty` is true exactly when every string of the page is whitespace only, that is, when no non-blank string is left |
| RefDiff.NonBlankMembers | foliant/backends/confluence/ref_diff.py:37-38 | the `[s for s in bs.strings if s.strip()]` lists keep exactly the strings that are not whitespace only |
| RefDiff.NonBlankNone | foliant/backends/confluence/ref_diff.py:32-34 | the list of non-blank strings is empty exactly when every string is blank, which is when `restore_refs` returns early |
| RefDiff.PlacesFromRecords | foliant/backends/confluence/ref_diff.py:230-256 | every placement carries one of the dictionary's records |
| RefDiff.PlacesIndexed | foliant/backends/confluence/ref_diff.py:242-255 | every index of every placement names one of the new page's strings |
| RefDiff.CorrectedHold | foliant/backends/confluence/ref_diff.py:326-327 | correct_places keeps each placement's record, so every equal placement still carries a record that matches the old page |
| RefDiff.PlaceRecords | foliant/backends/confluence/ref_diff.py:38-42 | fails (ValueError of `list.index`) exactly when a record's string is not among the old page's non-blank strings; otherwise the result is find_place2, then correct_places, then divide_places over the matcher's opcodes for the stripped strings |
| RefDiff.PlaceComments | foliant/backends/confluence/ref_diff.py:35-42 | the old page goes through a run of remove_outline_resolved rounds, each dissolving the first marker with a marker child, and then keeps its text and has no marker with a marker child; fails exactly when a marker lacks `ac:ref` or a record's string is not a non-blank string of the old page; without a missing id the records describe every unwrappable marker; the placements are those of PlaceRecords |
| RefDiff.RestoreRefs | foliant/backends/confluence/ref_diff.py:15-45 | a new page with no non-blank string is returned unchanged and nothing changes; otherwise it fails exactly when generate_ref_dict, find_place2, restore_equal_refs or (unless resolve_changed is set) insert_unequal_refs fails, and on success the result is the new page after restore_equal_refs over the equal placements and, unless resolve_changed is set, after insert_unequal_refs over the claims; the old page is cleaned by a run of remove_outline_resolved rounds; the placements are those derived from the records of the cleaned old page; insert_unequal_refs keeps the text restore_equal_refs produced |
| RefTree.Markers | foliant/backends/confluence/ref_diff.py:65 | `find_all` of the marker pattern: exactly the descendants whose name contains it |
| RefTree.MarkersFacts | foliant/backends/confluence/ref_diff.py:65 | find_all lists each marker once, and each is an element attached to the tree |
| RefTree.ParentMarkerFirst | foliant/backends/confluence/ref_diff.py:65-72 | a marker inside another marker comes after it in find_all's order |
| RefTree.FindOutline | foliant/backends/confluence/ref_diff.py:65-72 | finds the first marker, in document order, with a child named exactly `ac:inline-comment-marker`, or reports that no marker has one |
| RefTree.DissolveWellFormed | foliant/backends/confluence/ref_diff.py:89-90 | `element.unwrap()` on an attached element keeps the tree well formed |
| RefTree.DissolveText | foliant/backends/confluence/ref_diff.py:89-90 | unwrapping an element keeps the text of its parent |
| RefTree.DissolveRootText | foliant/backends/confluence/ref_diff.py:89-90 | unwrapping an element keeps the text of the whole page |
| RefTree.DissolveParents | foliant/backends/confluence/ref_diff.py:90 | unwrapping empties the element and makes no element that was empty non-empty |
| RefTree.DissolveKinds | foliant/backends/confluence/ref_diff.py:90 | unwrapping turns no element into a string and no string into an element |
| RefTree.BasicUnwrap | foliant/backends/confluence/ref_diff.py:80-107 | the element's children take its place under its parent; the parent's text is kept and no two of its children are adjacent strings; the parent's element children are the ones before the element, the element's own, then the ones after it, in order; the parent's new children cut its children after the unwrap into consecutive blocks with no two adjacent strings, so each new string joins a maximal run (with GroupsMaximal); the page's text is kept |
| RefTree.OutlineRound | foliant/backends/confluence/ref_diff.py:63-77 | one pass of the restart loop: either no marker has a marker child and nothing changes, or the first such marker is basic_unwrapped, the page keeps its text, and fewer elements have children |
| RefTree.RemoveOutlineResolved | foliant/backends/confluence/ref_diff.py:56-77 | terminates; afterwards no marker has a marker child; the page keeps its text; each round unwraps the first marker, in document order, that has a marker child |
| Merging.GroupRuns | foliant/backends/confluence/ref_diff.py:91-102 | groups the parent's children so that no two strings are adjacent; the joined text, the element children and their order are kept; the result cuts the old children into consecutive blocks (`Segments`), each output entry standing for one block: a lone child is kept as it is, a block of two or more strings becomes one new string holding their joined text |
| Merging.GroupsMaximal | foliant/backends/confluence/ref_diff.py:91-102 | with no two adjacent strings in the result, every string of it stands for a maximal run of consecutive strings of the old children: the block holds only strings, the children just before and after it are elements (or the ends of the list), and its text is the block's joined text |
| Merging.MergedWellFormed | foliant/backends/confluence/ref_diff.py:103-107 | replacing each group by one joined string keeps the tree well formed |
| Merging.MergedText | foliant/backends/confluence/ref_diff.py:103-107 | joining the groups keeps the parent's text |
| Merging.MergedNoAdjacent | foliant/backends/confluence/ref_diff.py:103-107 | after the join no two children of the parent are adjacent strings |
| Merging.MergedElems | foliant/backends/confluence/ref_diff.py:103-107 | after the join the parent's element children are the same, in the same order |
| Merging.MergedFacts | foliant/backends/confluence/ref_diff.py:91-107 | the merge meets every clause of MergedFrom: the same text, no adjacent strings, the same element children in order, every other node unchanged |
| Merging.MergeRuns | foliant/backends/confluence/ref_diff.py:91-107 | the joining half of basic_unwrap gives a page that is MergedFrom the old one, and the parent's new children cut its old children into consecutive blocks, each new string the joined text of a maximal run of two or more strings (with GroupsMaximal) |
| Merging.MergedEntries | foliant/backends/confluence/ref_diff.py:103-107 | after the join, the parent's children are exactly the grouped entries: same node, same kind, same text |
| RefDict.Unwrap | foliant/backends/confluence/ref_diff.py:164-193 | raises exactly when the marker has more than one child or a child that is not a string, changing nothing then; otherwise the page is UnwrapDoc and the result names the new string, the strings before and after, and the marker |
| RefDict.UnwrapText | foliant/backends/confluence/ref_diff.py:184-192 | the new string is the string before, the marker's text and the string after; the parent's text is kept and the tree stays well formed |
| RefDict.UnwrappedWellFormed | foliant/backends/confluence/ref_diff.py:185-192 | replacing the marker and its neighbouring strings by one new string keeps the tree well formed |
| RefDict.AddRecord | foliant/backends/confluence/ref_diff.py:148-158 | the new record is keyed by the new string; its `before` is absorbed exactly when the string before is non-empty and is the key of an earlier record, and that record is then popped; every other record is kept |
| RefDict.AddRecordAscends | foliant/backends/confluence/ref_diff.py:158 | the dictionary's keys stay in insertion (ascending) order |
| RefDict.AddRecordRecorded | foliant/backends/confluence/ref_diff.py:148-158 | the markers the records stand for, absorbed records included, grow by exactly the new marker |
| RefDict.AddRecordKeeps | foliant/backends/confluence/ref_diff.py:140-158 | after an unwrap and its record, every record still describes the page: its string is the before piece, the marker's text and the after piece |
| RefDict.NewAbsorbs | foliant/backends/confluence/ref_diff.py:156-157 | a new record absorbs exactly the earlier record keyed by its before string |
| RefDict.WalkAbsorbs | foliant/backends/confluence/ref_diff.py:156-157 | after a new record is added, every record still absorbs exactly the earlier record keyed by its before string |
| RefDict.WalkRecords | foliant/backends/confluence/ref_diff.py:140-158 | one pass of generate_ref_dict's loop keeps its invariant |
| RefDict.WalkText | foliant/backends/confluence/ref_diff.py:143 | every unwrap keeps the page's text |
| RefDict.UnwrapOne | foliant/backends/confluence/ref_diff.py:140-158 | one pass: stops on a marker without `ac:ref` (KeyError) and changes nothing, skips a marker unwrap refuses, and otherwise unwraps and records the marker |
| RefDict.UnwrapMarkers | foliant/backends/confluence/ref_diff.py:139-159 | the loop over find_all's markers stops at the first marker without `ac:ref`, or else walks them all |
| RefDict.WalkDone | foliant/backends/confluence/ref_diff.py:161 | after the whole walk the page keeps its text and the records form the dictionary RefDictOf |
| RefDict.WrapsCounted | foliant/backends/confluence/ref_diff.py:139-147 | the markers recorded are exactly the markers unwrap accepts, each once |
| RefDict.GenerateRefDict | foliant/backends/confluence/ref_diff.py:110-161 | fails exactly when some marker has no `ac:ref`; otherwise each unwrappable marker is recorded exactly once, directly or absorbed into a later record, and no other node is recorded; every record describes the page and the page keeps its text |
| RefPlaces.FindPlace2 | foliant/backends/confluence/ref_diff.py:196-259 | fails exactly when a record's string is not among the old strings; otherwise gives, for each record in dictionary order, the placement of the first opcode whose old block holds its string |
| RefPlaces.TargetsInRange | foliant/backends/confluence/ref_diff.py:242-255 | for opcodes that partition both lists and a non-empty new list, the indices of an equal, replace or delete opcode all lie in the new list |
| RefPlaces.PlacesInRange | foliant/backends/confluence/ref_diff.py:229-256 | every index find_place2 produces lies in `[0, len(new_strings))` |
| RefPlaces.NoneSkipped | foliant/backends/confluence/ref_diff.py:230-256 | with partitioning opcodes no record is skipped: one placement per record, in order |
| RefPlaces.MacroPositionsOf | foliant/backends/confluence/ref_diff.py:288-298 | the positions, in order, of the indices whose string has an ancestor named `ac:...` |
| RefPlaces.PopPositions | foliant/backends/confluence/ref_diff.py:299-300 | popping those positions in reverse removes exactly them |
| RefPlaces.CorrectIndices | foliant/backends/confluence/ref_diff.py:287-300 | one place's index list becomes Keep of it: its indices outside macros, in order |
| RefPlaces.KeepExactly | foliant/backends/confluence/ref_diff.py:287-300 | an index is kept exactly when it was in the list and its string is not inside an `ac:` element |
| RefPlaces.KeepSplits | foliant/backends/confluence/ref_diff.py:287-300 | correcting a list split in two corrects each part, so the kept indices keep their order |
| RefPlaces.CorrectPlaces | foliant/backends/confluence/ref_diff.py:275-302 | every place's list is corrected; records and equal flags are unchanged |
| RefPlaces.AddUnique | foliant/backends/confluence/ref_diff.py:262-272 | the loop of add_unique computes AddedUnique |
| RefPlaces.AddedMembers | foliant/backends/confluence/ref_diff.py:262-272 | the result holds exactly the elements of both lists |
| RefPlaces.AddedNoDups | foliant/backends/confluence/ref_diff.py:262-272 | a list without repeats stays without repeats |
| RefPlaces.AddedKeeps | foliant/backends/confluence/ref_diff.py:262-272 | only adds: the original list is the tail (inserting at the beginning) or the head (appending) of the result |
| RefPlaces.AddedKeepsFront | foliant/backends/confluence/ref_diff.py:262-272 | inserting at the beginning keeps the original list as the tail of the result |
| RefPlaces.AddedKeepsBack | foliant/backends/confluence/ref_diff.py:262-272 | appending keeps the original list as the head of the result |
| RefPlaces.GetRefsIds | foliant/backends/confluence/ref_diff.py:339-344 | get_refs gives each id of a chain of absorbed records once, the record's own id last |
| RefPlaces.ChainOrderSwapped | foliant/backends/confluence/ref_diff.py:339-344 | for a chain a, b, c, get_refs gives `[b, a, c]` |
| RefPlaces.OrderedRefsIds | foliant/backends/confluence/ref_diff.py:339-344 | the corrected get_refs gives the chain's ids once each, in document order when they are distinct |
| RefPlaces.EqualPlaces | foliant/backends/confluence/ref_diff.py:326-327 | the equal placements that still have an index |
| RefPlaces.WithoutMembers | foliant/backends/confluence/ref_diff.py:333-334 | removing targets leaves exactly the indices that are not targets |
| RefPlaces.PopIsWithout | foliant/backends/confluence/ref_diff.py:333-334 | on a list without repeats, one `pop(index(t))` removes every occurrence of t |
| RefPlaces.PopAllIsStripped | foliant/backends/confluence/ref_diff.py:330-334 | on lists without repeats, popping a target from every place's list is Stripped |
| RefPlaces.AsWrittenAgrees | foliant/backends/confluence/ref_diff.py:329-334 | when no equal place was emptied and no list repeats an index, the loop as written agrees with the corrected one |
| RefPlaces.EmptiedEqualPlaceFails | foliant/backends/confluence/ref_diff.py:330-332 | an equal place emptied by correct_places makes `equal_indeces[0]` raise IndexError |
| RefPlaces.RepeatedTargetSurvives | foliant/backends/confluence/ref_diff.py:330-334 | a list `[t, t]` keeps one `t` after the single pop |
| RefPlaces.DeletedAtEndRepeats | foliant/backends/confluence/ref_diff.py:253-255 | the delete fallback gives `[0, 0]` when the last of two old strings is deleted and the new page has one string |
| RefPlaces.RemoveTargets | foliant/backends/confluence/ref_diff.py:329-334 | every target of an equal placement is removed from every place's list |
| RefPlaces.ClaimPlaces | foliant/backends/confluence/ref_diff.py:346-351 | the map from string index to ids is built place by place |
| RefPlaces.ClaimsAt | foliant/backends/confluence/ref_diff.py:346-351 | an index has an entry exactly when some place lists it, and the entry holds exactly the chain ids of those places |
| RefPlaces.ClaimsShape | foliant/backends/confluence/ref_diff.py:346-351 | every index has one entry and every id list is without repeats |
| RefPlaces.StrippedAt | foliant/backends/confluence/ref_diff.py:329-351 | an index that is an equal placement's target gets no entry; any other index gets exactly the chain ids of the places listing it |
| RefPlaces.DividePlaces | foliant/backends/confluence/ref_diff.py:305-356 | equal placements with an index, and the claims of the other placements once every equal target is removed and emptied places are dropped |
| RefRestore.ContentText | foliant/backends/confluence/ref_diff.py:372-387 | the pieces of get_content_list read as the old string they were taken from |
| RefRestore.ContentIds | foliant/backends/confluence/ref_diff.py:372-387 | the markers among those pieces carry the chain's ids, the earliest first |
| RefRestore.SpliceDoc | foliant/backends/confluence/ref_diff.py:403-409 | `replace_with` succeeds exactly when the target is attached (ValueError otherwise); the tree stays well formed and no old string changes |
| RefRestore.SpliceDocText | foliant/backends/confluence/ref_diff.py:403-409 | splicing pieces that read as the target's text keeps the text of every node |
| RefRestore.SpliceAt | foliant/backends/confluence/ref_diff.py:403-409 | the replace_with and insert_after chain builds Spliced |
| RefRestore.SpliceIn | foliant/backends/confluence/ref_diff.py:398-409 | the splice of one placement, or ValueError on a detached target, changing nothing |
| RefRestore.PyIndex | foliant/backends/confluence/ref_diff.py:398 | Python's list subscript: defined exactly for `-n <= i < n`, counting negative indices from the end |
| RefRestore.RestoreOne | foliant/backends/confluence/ref_diff.py:391-409 | one placement keeps the tree well formed and leaves every old string in place |
| RefRestore.EqualRestored | foliant/backends/confluence/ref_diff.py:391-409 | the loop keeps the tree well formed; it fails only with IndexError or ValueError |
| RefRestore.RestoreEqualRefs | foliant/backends/confluence/ref_diff.py:359-411 | restore_equal_refs computes EqualRestored, with the same error |
| RefRestore.EqualRestoredText | foliant/backends/confluence/ref_diff.py:359-411 | when each placement's pieces read as the string they replace, the page keeps its text |
| RefRestore.DivFacts | foliant/backends/confluence/ref_diff.py:451-452 | `len // n` chunks fit the string, and the chunk size is positive |
| RefRestore.ChunkSizes | foliant/backends/confluence/ref_diff.py:456-461 | every chunk but the last has `len // n` characters; the last has at least that many |
| RefRestore.ChunksText | foliant/backends/confluence/ref_diff.py:456-462 | the chunks put together give the string back |
| RefRestore.ChunkIds | foliant/backends/confluence/ref_diff.py:456-462 | the chunk markers carry the first n ids in order |
| RefRestore.CutChunks | foliant/backends/confluence/ref_diff.py:456-462 | the chunk loop builds one marker per chunk |
| RefRestore.MakeChunks | foliant/backends/confluence/ref_diff.py:445-462 | cuts the string into n chunks of `len // n` characters, the last taking the rest, one marker each |
| RefRestore.Unresolved | foliant/backends/confluence/ref_diff.py:438 | keeps exactly the ids that are not resolved |
| RefRestore.ClaimPieces | foliant/backends/confluence/ref_diff.py:432-462 | fails only with IndexError or ZeroDivisionError; otherwise skips the string or gives at least one marker |
| RefRestore.ClaimPiecesMeaning | foliant/backends/confluence/ref_diff.py:432-462 | `min(#refs, len)` markers that read as the claimed string and carry the first ids in order |
| RefRestore.ClaimPiecesUnresolved | foliant/backends/confluence/ref_diff.py:434-441 | when a claim has several ids, no marker carries a resolved one |
| RefRestore.InsertOne | foliant/backends/confluence/ref_diff.py:432-468 | one claim keeps the tree well formed and the old strings in place; it fails only with the three errors |
| RefRestore.UnequalInserted | foliant/backends/confluence/ref_diff.py:432-468 | the loop over the claims keeps the tree well formed; it fails only with IndexError, ZeroDivisionError or ValueError |
| RefRestore.InsertUnequalRefs | foliant/backends/confluence/ref_diff.py:414-470 | insert_unequal_refs computes UnequalInserted, with the same error |
| RefRestore.UnequalInsertedText | foliant/backends/confluence/ref_diff.py:414-470 | insert_unequal_refs never changes the page's text |
| Extracter.FirstParam | foliant/backends/confluence/extracter.py:95-98 | the first child named `ac:parameter`, or none |
| Extracter.GetAnchorName | foliant/backends/confluence/extracter.py:94-98 | the lower-cased text of that child, or None |
| Extracter.AnchorNames | foliant/backends/confluence/extracter.py:99-106 | the anchor name of each macro in find_all's order |
| Extracter.FirstNamed | foliant/backends/confluence/extracter.py:101-106 | the first name in a tag table, or the end |
| Extracter.ScanOne | foliant/backends/confluence/extracter.py:101-106 | one pass: takes the first open anchor and stops at a close anchor |
| Extracter.ScanStep | foliant/backends/confluence/extracter.py:101-106 | one step of the scan: an open anchor while nothing is open is taken, a close anchor stops the scan, anything else is skipped |
| Extracter.ScanMacros | foliant/backends/confluence/extracter.py:100-106 | the loop with its `break` gives Scan, and both anchors are among the macros |
| Extracter.ScanFinds | foliant/backends/confluence/extracter.py:100-106 | the scan finds the first close anchor and the first open anchor before it |
| Extracter.ScanPositions | foliant/backends/confluence/extracter.py:101-106 | when both anchors are found, the open one comes first |
| Extracter.TopAncestor | foliant/backends/confluence/extracter.py:40-47 | the ancestor whose parent is the root; None only for the root |
| Extracter.GetTopParent | foliant/backends/confluence/extracter.py:40-47 | the loop climbing parents computes TopAncestor |
| Extracter.TopInRoot | foliant/backends/confluence/extracter.py:40-47 | a node below the root has as top parent the root child that contains it |
| Extracter.SameTop | foliant/backends/confluence/extracter.py:107-110 | two root children above one node are the same |
| Extracter.DetectFoliantBlocks | foliant/backends/confluence/extracter.py:89-111 | the top parents of the two anchors, the close one dropped when it shares the open one's |
| Extracter.DetectedInRoot | foliant/backends/confluence/extracter.py:107-111 | both results are children of the root |
| Extracter.DetectedOrder | foliant/backends/confluence/extracter.py:99-111 | when both are found, the open block comes before the close block among the root's children |
| Extracter.TopsOrder | foliant/backends/confluence/extracter.py:107-111 | when a close block is kept for two macros in find_all order, both blocks are root children and the first one's comes first |
| Extracter.BlocksOrder | foliant/backends/confluence/extracter.py:99-106 | nodes found in document order lie under root children in the same order |
| Extracter.DetectedLinked | foliant/backends/confluence/extracter.py:107-111 | the blocks detect_foliant_blocks returns are attached children of the root |
| Extracter.GetContentBeforeTag | foliant/backends/confluence/extracter.py:63-73 | the rendered siblings before the tag, in document order; when asked, the tag itself is put in front of them, as the source writes it |
| Extracter.GetContentAfterTag | foliant/backends/confluence/extracter.py:76-86 | the rendered siblings after the tag, in document order; when asked, the tag itself is put after them |
| Extracter.AppendSiblings | foliant/backends/confluence/extracter.py:81-85 | the loop renders the siblings from a position on |
| Extracter.GetContentBetweenTwoTags | foliant/backends/confluence/extracter.py:50-60 | the rendered siblings strictly between the two tags |
| Extracter.AppendSiblingsUntil | foliant/backends/confluence/extracter.py:55-59 | the loop renders the siblings up to the second tag |
| Extracter.SiblingsRejoin | foliant/backends/confluence/extracter.py:63-86 | before, the tag and after rebuild the tag's parent's children |
| Extracter.BetweenRejoin | foliant/backends/confluence/extracter.py:50-86 | before, open tag, between, close tag and after rebuild the parent's children |
| Extracter.Extract | foliant/backends/confluence/extracter.py:12-37 | the three parts of extract in each of its three branches |
| Extracter.ExtractRejoins | foliant/backends/confluence/extracter.py:12-37 | with both anchors, the five parts rebuild the page; with one, the managed part is empty and the three parts rebuild it; with none, the managed part is the page |
| Wrapper.AnchorDetected | foliant/backends/confluence/wrapper.py:135-137 | an anchor macro as generate_new_body writes it is a structured macro whose anchor name is the given name, lower-cased |
| Wrapper.LowerKeeps | foliant/backends/confluence/wrapper.py:135-140 | lower-casing leaves the anchor names `foliant_start` and `foliant_end` as they are, so they match extract's lower-cased tables |
| Wrapper.StartAnchorOpens | foliant/backends/confluence/wrapper.py:139 | `foliant_start` is among extract's open tags |
| Wrapper.EndAnchorCloses | foliant/backends/confluence/wrapper.py:140 | `foliant_end` is among extract's close tags |
| Wrapper.MergedLookup | foliant/backends/confluence/wrapper.py:168-169 | after the copy a key is present exactly when it was before or a fetched pair names it, with the last such pair's value |
| Wrapper.MergeProperties | foliant/backends/confluence/wrapper.py:168-169 | the loop computes that merge |
| Wrapper.Page.Init | foliant/backends/confluence/wrapper.py:47-57 | the fields `__init__` sets before the lookup |
| Wrapper.Page.NeedUpdate | foliant/backends/confluence/wrapper.py:277-287 | an upload is needed when the page does not exist or has no stored hash; otherwise it fails (AttributeError) exactly when the title is missing, and no upload is needed exactly when the stored hash equals the hash of this content and title |
| Wrapper.Page.Load | foliant/backends/confluence/wrapper.py:165-167 | keeps the page and its id, and cuts its body with extract |
| Wrapper.Page.UpdateProperties | foliant/backends/confluence/wrapper.py:164-173 | the parts are extract's; the properties are merged over the old ones; the url is set when links are given; the title is taken only when none was given |
| Wrapper.Page.GetInfo | foliant/backends/confluence/wrapper.py:145-162 | with an id, fetch it or fail; else a page found by title is fetched, or fail; a page not found leaves no id and empty parts, and the properties, url and title as they were; a fetched page is held with its properties merged over the old ones, the url from its links and its title when none was given (`TookIn`); a failure changes nothing |
| Wrapper.Page.UpdateHash | foliant/backends/confluence/wrapper.py:320-330 | deletes the stored hash on the server exactly when the page has one; succeeds exactly when a title is given and the property is accepted, storing hash(content, title), after which no upload is needed; a missing title or a refusal raises and leaves the properties unchanged |
| Wrapper.Page.UploadContent | foliant/backends/confluence/wrapper.py:289-318 | sends generate_new_body of the content, with the given title or, when it is missing or empty, the page's own; a page in the answer is loaded even when update_hash then fails, with the url from its links and its title when none was given; succeeds exactly when the API answers with a page, a title is given and the hash is accepted, and then the properties are the answer's merged over the old ones with the new hash stored, after which no upload is needed; with no answer nothing changes |
| Wrapper.Page.Store | foliant/backends/confluence/wrapper.py:314-315 | loads the answered page as _update_properties does, then runs update_hash: the old hash is deleted exactly when the merged properties hold one, the new one is stored exactly when a title is given and accepted, and the merged properties are kept either way |
| Wrapper.OpenPage | foliant/backends/confluence/wrapper.py:41-58 | raises unless an id or both title and space are given; with a non-zero id it succeeds exactly when that page can be fetched and holds it; searching by title, a page not found gives an empty page with no id, no properties, no url and the given title, and a found one succeeds exactly when it can be fetched and holds it; an opened page has the fetched properties, the url from its links and the given title or else the fetched one |
| Wrapper.ExistsIffId | foliant/backends/confluence/wrapper.py:85-87 | a loaded page exists exactly when it has an id |
| Wrapper.FullBodyWithoutAnchors | foliant/backends/confluence/wrapper.py:109-111 | full_body is the stored page without its anchor blocks |
| Wrapper.NewPageBody | foliant/backends/confluence/wrapper.py:129-142 | a page that does not exist yet gets the content between the two anchors and nothing else |
| Wrapper.NewBodyInjective | foliant/backends/confluence/wrapper.py:129-142 | two contents give the same new body only when they are equal |
| Process.ValueOf | foliant/preprocessors/confluence_final/process.py:130-139 | a parameter has a value exactly when the list holds it |
| Process.CodeMacroFrame | foliant/preprocessors/confluence_final/process.py:129-141 | the macro starts with the code macro head and ends with the CDATA body holding the source verbatim |
| Process.ParamsValues | foliant/preprocessors/confluence_final/process.py:130-139 | language only when its lower case is a SYNTAX_CONVERT key, with the mapped value; theme only when its lower case is in THEMES; title, linenumbers and collapse only when truthy |
| Process.ParamsOrdered | foliant/preprocessors/confluence_final/process.py:130-139 | the parameters appear in the order language, theme, title, linenumbers, collapse |
| Process.NewTask | foliant/preprocessors/confluence_final/process.py:172-177 | the status is `complete` exactly when checked; no children |
| Process.TaskList.constructor | foliant/preprocessors/confluence_final/process.py:204-206 | no tasks and last id 0 |
| Process.TaskList.AddItem | foliant/preprocessors/confluence_final/process.py:208-218 | fails (IndexError) exactly when level > 0 and the list is empty, changing nothing; otherwise appends the task with the next id at depth min(level, depth of the last-task spine) |
| Process.AppendAtIds | foliant/preprocessors/confluence_final/process.py:209-218 | appending at a depth adds the new id after all others in document order |
| Process.AddedIds | foliant/preprocessors/confluence_final/process.py:217-218 | ids run 1, 2, ..., n and the count grows by one |
| Process.TaskToString | foliant/preprocessors/confluence_final/process.py:182-200 | the loop builds TaskMarkup |
| Process.TaskList.ToString | foliant/preprocessors/confluence_final/process.py:223-228 | the loop builds ListMarkup |
| Process.TaskWrapsChildren | foliant/preprocessors/confluence_final/process.py:190-195 | every child's markup appears wrapped in `ac:task-list` |
| Process.CrLfToLfDropsPairedCr | foliant/preprocessors/confluence_final/process.py:113 | CRLF→LF removes only carriage returns, one per CRLF pair of the input, and keeps the last character |
| Process.CrToLf | foliant/preprocessors/confluence_final/process.py:114 | same length; each lone carriage return becomes a newline in place and every other character stays; no carriage return is left |
| Process.EndLine | foliant/preprocessors/confluence_final/process.py:115 | the text gains one final newline exactly when it ends in a non-whitespace character, or in one followed by a final newline; otherwise it is unchanged; a non-empty result ends in whitespace |
| Process.ExpandTabsWidens | foliant/preprocessors/confluence_final/process.py:116 | the text grows by three characters per tab, and a final tab becomes a final space |
| Process.ExpandTabsKeepsText | foliant/preprocessors/confluence_final/process.py:116 | once spaces are erased, the result is the input with spaces and tabs erased |
| Process.TrimEnd | foliant/preprocessors/confluence_final/process.py:117 | the text before the trailing run of spaces and newlines is kept; that run becomes one newline; the result ends in at most one space or newline |
| Process.DropRemovesDoomedSpaces | foliant/preprocessors/confluence_final/process.py:118 | only spaces are removed, exactly as many as stand in runs ending at a newline, and a last character that is not a space stays |
| Process.DropSpacesBeforeNewline | foliant/preprocessors/confluence_final/process.py:118 | no space stands before a newline; only input characters remain |
| Process.NormalizeClean | foliant/preprocessors/confluence_final/process.py:104-120 | _normalize's output has no carriage return, no tab and no space before a newline |
| Process.NormalizeEndsLine | foliant/preprocessors/confluence_final/process.py:105-118 | the trailing newline the docstring promises: a non-empty text whose last character is not whitespace, or is a space, tab, CR or LF, comes out ending in exactly one newline, with no space or newline before it |
| Process.NormalizeLeavesFormFeed | foliant/preprocessors/confluence_final/process.py:115-117 | a text ending in a form feed comes out unchanged, without a trailing newline |
| Convert.TitleMatches | foliant/backends/confluence/convert.py:31 | the title test decides `^#{1,6} .+` |
| Convert.HashRun | foliant/backends/confluence/convert.py:31 | the leading run of `#` characters: all `#`, and followed by something else or the end |
| Convert.Find | foliant/backends/confluence/convert.py:32-33 | the first occurrence of the character, or none |
| Convert.CropTitle | foliant/backends/confluence/convert.py:22-37 | the untouched source when the stripped source does not start with a title; otherwise everything after its first newline, or empty |
| Convert.SplitExt | foliant/backends/confluence/convert.py:98 | stem and extension put together give the name; the extension is empty or a dot and non-dot characters |
| Convert.RFind | foliant/backends/confluence/convert.py:98 | the last position of the character, or -1 when it does not occur |
| Convert.CandidateNotOld | foliant/backends/confluence/convert.py:98 | a numbered name differs from the old name |
| Convert.CandidateInjective | foliant/backends/confluence/convert.py:96-98 | different counters give different names |
| Convert.NextIsFresh | foliant/backends/confluence/convert.py:96-98 | the next candidate has not been tried |
| Convert.UniqueName | foliant/backends/confluence/convert.py:88-99 | never an existing name; the old name if free; else stem + `_N` + extension for the smallest free N >= 2; the legacy backend's copy of unique_name (`confluence_upload.py:16-27`) follows the same rule |
| Convert.AddTocPrepends | foliant/backends/confluence/convert.py:299-303 | exactly the toc macro, a newline, then the source |
| Convert.AddComments | foliant/backends/confluence/convert.py:277-296 | a page that does not exist leaves the content and both trees unchanged; otherwise restore_refs runs with RestoreRefs' contract: a blank new page comes back as it is with both trees unchanged; else the old page is outline-resolved and recorded, the call fails exactly on a missing ac:ref, a missing record string or a failure of restore_equal_refs or (unless resolve_changed) insert_unequal_refs, and on success the placements are Placed of the diff, the new tree is what EqualRestored and UnequalInserted compute and the result is its rendering |
| Uploader.AddCases | foliant/backends/confluence/uploader.py:46-58 | a registered path returns its copy unchanged; otherwise the copy's result, registered only when it is a path |
| Uploader.AddTwice | foliant/backends/confluence/uploader.py:50-52 | a second add of a registered file returns the same path and adds nothing |
| Uploader.AddKeeps | foliant/backends/confluence/uploader.py:54-58 | the registry only grows, by at most one entry |
| Uploader.AttachmentManager.constructor | foliant/backends/confluence/uploader.py:37-40 | an empty registry |
| Uploader.AttachmentManager.AddAttachment | foliant/backends/confluence/uploader.py:46-58 | add_attachment on the resolved path, as Add |
| Uploader.AttachmentManager.Attachments | foliant/backends/confluence/uploader.py:60-62 | the registry's values, one per registered file, in insertion order |
| Uploader.GetContentIdByTitle | foliant/backends/confluence/uploader.py:221-234 | raises without a space key; the page's id when found; None in a test run otherwise, else raises |
| Uploader.ParentIdPrecedence | foliant/backends/confluence/uploader.py:161-176 | a configured id means no parent; a parent id wins over a title; neither asks the server |
| Uploader.ParentByTitle | foliant/backends/confluence/uploader.py:166-174 | with only a parent title, fails exactly when get_content_id_by_title would raise |
| ConfluenceUpload.FindOpen | foliant/backends/confluence_upload/confluence_upload.py:132-133 | the first match of the open-marker pattern, with its lazy id |
| ConfluenceUpload.FindClose | foliant/backends/confluence_upload/confluence_upload.py:134 | the first close marker |
| ConfluenceUpload.CollectRefs | foliant/backends/confluence_upload/confluence_upload.py:128-145 | the loop computes Collect, including its two crashes |
| ConfluenceUpload.CollectClean | foliant/backends/confluence_upload/confluence_upload.py:131-136 | on success no open or close marker is left |
| ConfluenceUpload.CollectSpans | foliant/backends/confluence_upload/confluence_upload.py:137-144 | each close pairs with the latest open; offsets are positions in the stripped text |
| ConfluenceUpload.CollectRendered | foliant/backends/confluence_upload/confluence_upload.py:128-145 | a page rendered from nested spans gives its spans' refs, in closing order, and the text without markers |
| ConfluenceUpload.UnopenedCloseFails | foliant/backends/confluence_upload/confluence_upload.py:141-142 | a close marker with nothing open crashes popping the empty stack |
| ConfluenceUpload.PySlice | foliant/backends/confluence_upload/confluence_upload.py:153-158 | Python slicing, clamped |
| ConfluenceUpload.RestoreRefs | foliant/backends/confluence_upload/confluence_upload.py:147-159 | the loop computes Restored |
| ConfluenceUpload.IdentityRestores | foliant/backends/confluence_upload/confluence_upload.py:148-158 | with refs in order and an add_ref that returns its text unchanged, the text comes back unchanged |
| ConfluenceUpload.RestoreInvertsCollect | foliant/backends/confluence_upload/confluence_upload.py:128-159 | for a page of marked spans that are not nested, with an add_ref that writes the marker back, restore_refs rebuilds exactly the page collect_refs took apart |

## Left out

- RefDiff.RestoreRefs runs the corrected divide_places (see Findings). The source raises IndexError at `ref_diff.py:332` when an equal place was emptied. It raises ValueError at `:464` when a delete fallback repeats an index. It orders chains of three or more comments as `[b, a, c]`. The model differs from the source on exactly those inputs.
- Extracter.ExtractRejoins holds for `Markup.Render`, a stand-in for BeautifulSoup's `str()`.
  - bs4 prints a NavigableString unescaped when it is taken alone (`extracter.py:58/71/84`), but `str(tag)` escapes `&`, `<` and `>` inside text. So the five-part round trip holds in the model, but not in the source when a top-level string holds those characters.
  - Comments, CData and processing instructions are not node kinds, so `.strings` has nothing to drop.
- Text.Lower maps only `A`-`Z` and the Kelvin sign. These are the only characters whose lower case is an ASCII letter. It decides membership in the program's lower-case ASCII tables exactly as Python does, but is not `str.lower` in general.
- `_check_params` (`wrapper.py:60-83`) only asks the server whether the space and parent exist. It is left out with the rest of the API.
- The matcher stands for difflib's `SequenceMatcher(None, a, b).get_opcodes()` over the stripped strings (`ref_diff.py:217-223`). It is a parameter, and the model only requires that its opcodes partition both lists.
- No lemma proves that `extract` of a page built by `generate_new_body` gives back its parts. Wrapper.AnchorDetected, StartAnchorOpens and EndAnchorCloses prove that the written anchors are recognised. Equating the rendered literal macro with the parsed tree was left out.
- Parsing is left out: the model starts from the parsed tree, and the HTML parser is not modelled. `copy()` of tags is modelled as pieces copied into new nodes.
- Process.NormalizeEndsLine: a text whose last character is whitespace other than space, tab, CR and LF (a form feed, say) gets no trailing newline from `_normalize`: `(?<=\S)$` and `[ \n]+$` both pass over it. NormalizeLeavesFormFeed shows one such text.
- Process.TaskList.AddItem: the source appends to a child list it reaches by aliasing. The model rebuilds the forest on values with `AppendAt`, so aliasing is not modelled.
- ConfluenceUpload.CollectRendered is proved only for pages rendered from nested spans whose text has no `<`. A text holding a literal `</ac:inline-comment-` can, once a marker is cut, form a new close marker across the cut. The storage format escapes `<` in text.
- ConfluenceUpload.RestoreInvertsCollect is proved only for spans that are not nested. collect_refs lists nested markers in closing order (inner first). restore_refs then cuts overlapping slices (`confluence_upload.py:155-158`), so the inner text is written twice and no round trip holds for nested markers.
- `find_place`, `cut_out_tag_fragment`, `fix_refs` and `add_ref` of the legacy backend are not part of this model. `add_ref` is a parameter of ConfluenceUpload.RestoreRefs.
- I/O is left out:
  - the Confluence API calls (page lookup, properties, attachments, resolved comment ids), which are parameters;
  - md5, which is an opaque function;
  - pandoc, file copies and the file system, with the existing names given as a set;
  - logging.
- Regex-driven HTML rewriting (`fix_pandoc_images`, `process_images`, `unformat`, `confluence_unescape`) and the pyparsing grammar of `process_task_lists` are not part of this model.

## Findings

| source | as written | input that shows it | evidently intended | confidence | as-written member | corrected member |
|---|---|---|---|---|---|---|
| foliant/backends/confluence/ref_diff.py:332 | `equal_indeces[0]` is read for every equal place, after correct_places may have emptied its list | an unchanged commented paragraph inside an `ac:` macro body: its only index is removed by correct_places, and divide_places raises IndexError | skip equal places whose list is empty | not executed | RefPlaces.EmptiedEqualPlaceFails | RefPlaces.DividePlaces |
| foliant/backends/confluence/ref_diff.py:333-334 | one `pop(index(...))` per place removes only the first occurrence of an equal target | the delete fallback at `:254-255` gives `[0, 0]` (or `[n-1, n-1]`); one copy survives, and insert_unequal_refs later calls `replace_with` on a string restore_equal_refs detached, so ValueError at `:464` | remove every occurrence of the target | not executed | RefPlaces.RepeatedTargetSurvives | RefPlaces.StrippedAt |
| foliant/backends/confluence/ref_diff.py:339-344 | get_refs inserts each absorbed id at the front, one at a time | three comments a, b, c in one string: get_refs gives `[b, a, c]` | the ids in document order, as its docstring says | not executed | RefPlaces.ChainOrderSwapped | RefPlaces.OrderedRefsIds |
