# Browser observation core: models and proofs

A Dafny model of the parts of the repository whose correctness depends on order,
interleaving, budgets or failures, with proofs of what those parts promise. Run
`dafny verify dfyconfig.toml` to check everything.

* **Canonical registry and semantic tree** (`CanonicalRegistry`, `RegistryRecords`, `SemanticTree`,
  `DomForest`, `EntangledPage`, `SemanticSerializer`, `SemanticPage`, `StableSort`). DOM, layout, accessibility and
  target records are merged under canonical keys; the mixed DOM/accessibility parent graph, which may
  have cycles, is contracted into a forest; the forest is pruned and cut to budgets.
* **Observation state** (`PageBudget`, `BrowserState`, `SnapshotPaging`,
  `BrowserSession`, `InspectProtocol`, `InspectRuns`, `StoreHistory`,
  `Revocation`, `PagingLiveness`, `PagingEnds`). Up to three frozen snapshots with a
  generation, per-frame epochs, expiry and a paging cursor. `BrowserState` is the
  session as a value, `BrowserSession` the mutable session proved to do the same, and
  `InspectProtocol` cuts `inspect`, the editable query and typing into the steps between
  their awaits and lets an arbitrary scheduler interleave invalidations, navigations and time.
* **Action gate** (`ActionGate`). One call at a time owns the shared command state;
  an interruption ends in a recovered transport or a poisoned session.
* **Diagnostics** (`NetworkDiagnostics`, `Redaction`, `ConsoleText`). The ring of
  request records aliased by the in-flight map, its pages, and the in-place redaction
  of parsed console values.
* **Algorithms elsewhere** (`Utf8Budget`, `DataDir`, `ProviderKeys`,
  `ProviderMigration`, `Occlusion`, `OverlayResolution`). UTF-8 truncation of UTF-16
  text, data-directory migration under failing file-system calls, migration of
  hand-written providers, paint-order occlusion, and overlay resolution.

Code that updates state is a class or a method with loops, proved against a
specification function or predicate; the properties are lemmas about that
specification. Three hypotheses are explicit: the parent graph may be cyclic (lemmas
that need it acyclic say so), the clock does not run backwards, and snapshot ids and
refs are fresh (they are counters).

Results that qualify what one might expect of the code:

* The contraction reaches every kept node exactly when no link cycle runs through two
  distinct kept nodes (`SemanticTree.EveryKeptNodeReached`); on other cycles nodes are
  attached below each other and reachable from no root, and a DOM and an accessibility
  tree that nest two nodes the opposite way make such a cycle
  (`EntangledPage.BuildLosingBoth`).
* Under provider migration the default model keeps its model part exactly when its
  provider does not go back to a recorded key that holds a slash and still holds a custom
  provider (`ProviderMigration.ModelPartSurvives`); generated keys have no slash, recorded
  keys are free text, and a document where it changes is given.
* A legacy provider whose recorded custom provider was deleted is dropped, unless the
  same run gave that very key to a provider listed before it; then its references lead
  to the other provider (`ProviderMigration.SurvivesExactlyWhenTakenOver`).
* Paint-order filtering goes by element numbers. For any numbers, nothing is lost
  exactly when no visible element shares its number with a covered one sorted before it
  (`Occlusion.NothingLostExactly`). Elements are renumbered where they are collected
  (browser-snapshot.ts:521, cdp-page-scanner.ts:357); distinct numbers meet the
  condition.
* A frame invalidation revokes the keyboard target at once, but typing under way into an
  element of the frame sets one for it all the same when it finishes, unless the page
  navigated. Invalidated after the element was looked at a second time, the target names
  the frame that look had found, so another invalidation takes it; invalidated before, the
  frame is forgotten and the target names the session only, or nothing
  (`Revocation.TypingOutlivesRevocation`, with a run of each kind).
* An interrupted call that leaves the session usable need not have seen a reset since it
  began: a recovery whose reset succeeded before the call and which is recorded after it
  counts as one. The call is sure of a reset of its own exactly when no such recovery is
  outstanding as it is accepted (`ActionGate.ResetSeenExactly`).

## Model

| member | source | states |
|---|---|---|
| CanonicalRegistry.CanonicalNodeRegistry.Ensure | packages/browser-core/src/browser-semantic-registry.ts:19-35 | A known key is left alone; a new one is added last, under its frame and backend id, and the index still holds exactly the keys a full scan finds |
| CanonicalRegistry.CanonicalNodeRegistry.ResolveKey | packages/browser-core/src/browser-semantic-registry.ts:37-47 | The index lookup returns what scanning all nodes gives: the exact frame's node, else the only owner of the backend id, else the main frame's owner, else none |
| CanonicalRegistry.CanonicalNodeRegistry.AddDomTree | packages/browser-core/src/browser-semantic-registry.ts:49-63 | Walking the DOM builds the reference registry (frames inherited, shadow roots and documents included, no node its own parent) and keeps index and keys in agreement; DomForest.AncestryIsNesting says what its links are |
| CanonicalRegistry.CanonicalNodeRegistry.AddSnapshotRecords | packages/browser-core/src/browser-semantic-registry.ts:65-77 | Layout records merge into the node they resolve to by scanning, in order, and index and keys stay in agreement |
| CanonicalRegistry.CanonicalNodeRegistry.AddAxTree | packages/browser-core/src/browser-semantic-registry.ts:79-108 | Accessibility nodes merge first and are linked second, the last parent listing a child winning; index and keys stay in agreement |
| CanonicalRegistry.CanonicalNodeRegistry.AddInteractiveElements | packages/browser-core/src/browser-semantic-registry.ts:110-125 | Targets attach to their own node and name the node whose semantics they take over; index and keys stay in agreement |
| RegistryRecords.AxRecorded | packages/browser-core/src/browser-semantic-registry.ts:79-99 | An accessibility node goes to the node its backend id resolves to, else to one of its own, and changes no other |
| RegistryRecords.LastListingWins | packages/browser-core/src/browser-semantic-registry.ts:100-108 | A node's accessibility parent is the last other node that lists it as a child; one that none lists keeps what it had |
| RegistryRecords.LayoutRecorded | packages/browser-core/src/browser-semantic-registry.ts:65-77 | A layout record goes to the node its id resolves to, else to one of its own, and changes no other |
| RegistryRecords.TargetRecorded | packages/browser-core/src/browser-semantic-registry.ts:110-125 | A target goes to the node of its frame and id, and takes over the semantics of another node exactly when it names another id |
| SemanticTree.NearestSemanticParent | packages/browser-core/src/browser-semantic-tree.ts:405-418 | The parent search ends on every link graph and returns the closest kept ancestor, or none exactly when no node above is kept, cycles or not |
| SemanticTree.LoopedChainStaysInside | packages/browser-core/src/browser-semantic-tree.ts:409-416 | A parent chain that returns to a visited node never leaves the visited ones, so stopping there misses nothing |
| SemanticTree.NearestIsUnique | packages/browser-core/src/browser-semantic-tree.ts:405-418 | There is only one possible answer of the parent search |
| SemanticTree.ClassifyAll | packages/browser-core/src/browser-semantic-tree.ts:352-402 | One pass finds exactly the kept nodes and counts exactly the collapsed ones |
| SemanticTree.KeptExactly | packages/browser-core/src/browser-semantic-tree.ts:356-372 | Kept are the targeted nodes but texts and comments, and of the others exactly the meaningful, visible ones that are neither ignored nor the source of another node's semantics |
| SemanticTree.Attach | packages/browser-core/src/browser-semantic-tree.ts:404-425 | Every child list and the root list hold, in registry order, exactly the kept nodes whose nearest kept ancestor they belong to |
| SemanticTree.HangingInOrder | packages/browser-core/src/browser-semantic-tree.ts:419-425 | Roots and child lists are in registry order |
| SemanticTree.BuildSemanticPageTree | packages/browser-core/src/browser-semantic-tree.ts:345-441 | The forest is the contraction of the kept nodes; the counters are the true counts, and every targeted node that is no text or comment is kept |
| SemanticTree.AttachedExactlyOnce | packages/browser-core/src/browser-semantic-tree.ts:419-425 | On any link graph a kept node occurs exactly once over the root list and all child lists |
| SemanticTree.AncestryPreserved | packages/browser-core/src/browser-semantic-tree.ts:404-425 | Of two distinct kept nodes one is above the other in the forest exactly when it is in the canonical graph, cycles or not |
| SemanticTree.EveryKeptNodeReached | packages/browser-core/src/browser-semantic-tree.ts:404-425 | All kept nodes hang below a root if and only if no two distinct kept nodes are above each other |
| SemanticTree.AcyclicLinksGiveForest | packages/browser-core/src/browser-semantic-tree.ts:404-425 | With acyclic links every kept node is below a root and none is its own ancestor |
| DomForest.DomGrows | packages/browser-core/src/browser-semantic-registry.ts:49-63 | The DOM walk lists the tree's keys in walking order, each after its parent, and leaves every earlier node as it was |
| DomForest.DomIsLinked | packages/browser-core/src/browser-semantic-registry.ts:49-63 | The walk records every DOM node and links it to the node that directly contains it, as a child, a shadow root or a content document |
| DomForest.AncestryIsNesting | packages/browser-core/src/browser-semantic-registry.ts:49-63 | In the registry of a DOM tree with different keys one node is above another exactly when the DOM nests the other inside it, across shadow roots and frames |
| DomForest.ParentsFirstIsAcyclic | packages/browser-core/src/browser-semantic-tree.ts:404-416 | Nodes listed after their parents form no link cycle |
| DomForest.DomLinksAreAcyclic | packages/browser-core/src/browser-semantic-registry.ts:49-63 | A DOM tree whose nodes have different keys gives acyclic links |
| DomForest.BuildFromDom | packages/browser-core/src/browser-semantic-tree.ts:345-425 | So the semantic tree of such a page, known from its DOM alone, is a forest that reaches every kept node, in which kept nodes are above each other exactly as the DOM nests them |
| EntangledPage.NodesAboveEachOther | packages/browser-core/src/browser-semantic-registry.ts:79-108 | A DOM tree and an accessibility tree that nest two nodes the opposite way leave each of them the parent of the other |
| EntangledPage.BuildLosingBoth | packages/browser-core/src/browser-semantic-tree.ts:404-425 | On that page both nodes are kept, the root list is empty, and neither node is reached |
| StableSort.SortedAndStable | packages/browser-core/src/browser-semantic-serializer.ts:69-77 | The sort is descending by key and keeps the given order among equal keys |
| StableSort.SortPermutes | packages/browser-core/src/browser-semantic-serializer.ts:69-77 | Sorting neither loses nor repeats an element |
| SemanticSerializer.PageSerializer.SubtreeCounts | packages/browser-core/src/browser-semantic-serializer.ts:36-53 | The memoised count of a node is its true count and the table then covers its whole subtree |
| SemanticSerializer.BuilderOutputIdDetermines | packages/browser-core/src/browser-semantic-serializer.ts:36-53 | Trees unfolded from a built forest meet the memoisation's hypothesis that an id stands for one node |
| SemanticSerializer.UnfoldingIsUnique | packages/browser-core/src/browser-semantic-tree.ts:404-425 | Two trees unfolded from one forest under the same id are the same tree |
| SemanticSerializer.PageSerializer.Serialize | packages/browser-core/src/browser-semantic-serializer.ts:79-120 | A node is charged in full or dropped with its subtree; what comes out is the unbudgeted page with subtrees taken out, flagged exactly when that page does not fit |
| SemanticSerializer.PruneKeepsEligible | packages/browser-core/src/browser-semantic-serializer.ts:79-120 | Pruning keeps exactly the allowed refs all of whose ref-bearing ancestors are allowed, whatever the context flag |
| SemanticSerializer.SerializeSemanticTreePage | packages/browser-core/src/browser-semantic-serializer.ts:55-126 | Budgets are never exceeded, nothing left out below a node of the page would fit into what is left, only eligible refs appear, the page is flagged exactly when the input was or the unbudgeted page does not fit, and unflagged pages are the unbudgeted page, carrying exactly the eligible refs |
| SemanticPage.PageDepicts | packages/browser-core/src/browser-semantic-serializer.ts:69-120 | The unbudgeted page shows, at every level and ranked by the number of allowed targets within, exactly the nodes that belong: with a target, those whose ref is allowed; without one, those that hold no ref or an allowed one, and hold an allowed ref, are below a node that does, or have a context role; each with its facts, ref, frame and rectangle |
| SemanticPage.CountsAreTrue | packages/browser-core/src/browser-semantic-serializer.ts:36-53 | The counts the page goes by are the numbers of nodes with a target and with an allowed one, the node itself included |
| SemanticPage.DifferentIdsHaveIndex | packages/browser-core/src/browser-semantic-serializer.ts:36-53 | Trees whose ids are all different meet the hypothesis that an id stands for one node |
| SemanticPage.OneWayDown | packages/browser-core/src/browser-semantic-tree.ts:419-425 | A node of the forest is reached from one root only and at one depth |
| SemanticPage.Unfold | packages/browser-core/src/browser-semantic-tree.ts:419-425 | So the forest unfolds below a reached node into a finite tree, on every link graph |
| SemanticPage.BuildAndSerialize | packages/browser-core/src/browser-semantic-serializer.ts:55-126 | From any registry, cyclic or not: the page of the contraction stays within its budgets and carries only eligible refs of the unfolded trees; unless flagged it carries all of them and shows exactly the nodes that belong |
| PageBudget.PageLimit | packages/browser-core/src/browser-snapshot.ts:85-91 | A page size is between 1 and 200: the requested one when it is, the nearer bound when it is not, 100 when none is requested |
| PageBudget.TruncatedPagesMonotone | packages/browser-core/src/browser-snapshot.ts:262-283 | Among truncated pages without a tree, more elements never take fewer bytes, digit widths and continuation included |
| PageBudget.SearchLargest | packages/browser-core/src/browser-snapshot.ts:257-283 | The binary search returns the largest element count whose page fits, or none |
| PageBudget.LargestFittingIsLargest | packages/browser-core/src/browser-snapshot.ts:257-283 | The count found fits and no larger proper prefix does |
| PageBudget.ChoosePage | packages/browser-core/src/browser-snapshot.ts:238-292 | Tree first, then no tree, then the searched prefix, else the size error |
| PageBudget.ChoiceIsMaximal | packages/browser-core/src/browser-snapshot.ts:238-292 | A returned page fits 56 KiB, advances, is the largest that fits, and has the tree exactly if everything fits with it; the size error occurs exactly when not even one element fits |
| PageBudget.ChooseEditable | packages/browser-core/src/browser-query.ts:277-289 | Editable pages drop elements from the end until they fit, always sending at least one |
| BrowserState.MatchesIsSharedKey | packages/browser-core/src/browser-state.ts:283-298 | An element matches an invalidation exactly when they share an epoch key |
| BrowserState.BumpRaisesExactly | packages/browser-core/src/browser-state.ts:228-231 | An invalidation raises the epochs of its own keys by one and no others |
| BrowserState.EvictKeepsNewest | packages/browser-core/src/browser-state.ts:154-165 | Eviction leaves at most three, never drops the newest, and drops only what was used no later than anything kept |
| BrowserState.StorePolicy | packages/browser-core/src/browser-state.ts:147-166 | With a monotone clock: at most three retained, the one just stored is retained last and is the latest, and only expired or least recently used snapshots went |
| BrowserState.PruneKeeps | packages/browser-core/src/browser-state.ts:300-319 | Pruning drops exactly the expired snapshots and the latest stays one of the stored |
| BrowserState.LookupsOnlyTouch | packages/browser-core/src/browser-state.ts:168-200 | A lookup drops what has expired, marks what it finds as used now, and changes nothing else |
| BrowserState.RefResolution | packages/browser-core/src/browser-state.ts:186-200 | In any one store, a ref resolves if and only if a retained, unexpired, current-generation snapshot lists it, and to such a snapshot; over runs that is the one that issued it, see InspectRuns.EveryRunResolvesToTheIssuer |
| BrowserState.ContinuationLookup | packages/browser-core/src/browser-state.ts:168-184 | A continuation finds its snapshot if and only if it is retained, unexpired, current and may still be continued |
| BrowserState.RevokeIsExact | packages/browser-core/src/browser-state.ts:235-248 | Revocation takes out exactly the matching elements, from the editable query too, drops the frame's ref, ends paging exactly when something was taken out, and changes nothing else |
| BrowserState.FrameInvalidationIsComplete | packages/browser-core/src/browser-state.ts:224-256 | Afterwards no snapshot, editable query, mirrored ref or keyboard target mentions the frame or session; everything else stays in place, and the mirror is that of the latest snapshot |
| BrowserSession.BrowserSession.StoreSnapshot | packages/browser-core/src/browser-state.ts:147-166 | The mutable store, latest field and access time end as the specification says, and the latest snapshot is one of the stored objects |
| BrowserSession.BrowserSession.Prune | packages/browser-core/src/browser-state.ts:300-319 | The pruning loop leaves exactly the live objects, and the latest field points into them |
| BrowserSession.BrowserSession.Refresh | packages/browser-core/src/browser-state.ts:313-319 | The latest snapshot stays if stored, else the newest stored one takes its place |
| BrowserSession.BrowserSession.GetSnapshot | packages/browser-core/src/browser-state.ts:168-184 | Returns the stored object the specification finds, marked used, or nothing |
| BrowserSession.BrowserSession.ResolveElement | packages/browser-core/src/browser-state.ts:186-200 | Returns the newest current object that lists the ref, with its first such element |
| BrowserSession.BrowserSession.ClearSnapshots | packages/browser-core/src/browser-state.ts:202-205 | The store is emptied and there is no latest snapshot |
| BrowserSession.BrowserSession.Navigate | packages/browser-core/src/browser-action-targets.ts:332-338 | A main navigation starts a new generation with no epochs, refs, snapshots or keyboard target |
| BrowserSession.BrowserSession.RevokeAll | packages/browser-core/src/browser-state.ts:233-248 | Each stored object is revoked once, in place |
| BrowserSession.BrowserSession.InvalidateFrame | packages/browser-core/src/browser-state.ts:224-256 | The mutable session after a frame invalidation is the specified one |
| BrowserSession.BrowserSession.InvalidateObservations | packages/browser-core/src/browser-state.ts:263-272 | Every stored object stops being continuable, and nothing else about it or the store changes |
| BrowserSession.BrowserSession.ReplaceOpaqueRefs | packages/browser-core/src/element-map-manager.ts:500-503 | The mirror holds exactly the given elements by ref |
| BrowserSession.EvictOldest | packages/browser-core/src/browser-state.ts:154-164 | The eviction loop keeps the objects the specification keeps |
| BrowserSession.Snapshot.Page | packages/browser-core/src/browser-snapshot.ts:238-293 | Serving a page moves the cursor to where the page ends, or ends it; a page that does not fit leaves the snapshot unchanged |
| BrowserSession.Snapshot.EditablePage | packages/browser-core/src/browser-query.ts:271-314 | Serving editable targets moves the query's cursor to where the page ends, or ends it |
| SnapshotPaging.PageContinuesPrefix | packages/browser-core/src/browser-snapshot.ts:92-108 | An accepted page continues what was served without gap or repeat, advances when anything is left, and can only fail for size |
| SnapshotPaging.EditableContinuesPrefix | packages/browser-core/src/browser-query.ts:39-62 | The same for pages of editable targets, which never fail for size |
| SnapshotPaging.RunServesEverything | packages/browser-core/src/browser-snapshot.ts:92-108 | Successful pages asked for from cursor to cursor serve the whole list in order once the cursor has ended, within as many pages as there are elements |
| SnapshotPaging.QueryServesEverything | packages/browser-core/src/browser-query.ts:271-314 | The same for the pages of an editable query |
| SnapshotPaging.EditablesMembers | packages/browser-core/src/browser-query.ts:66-74 | The editable query lists exactly the snapshot's editable elements |
| SnapshotPaging.EditablesInOrder | packages/browser-core/src/browser-query.ts:66-74 | And lists them in the snapshot's order |
| PagingLiveness.ContinueInspectAnswered | packages/browser-core/src/browser-snapshot.ts:92-108 | A continuation from the cursor of a retained, live snapshot is answered by exactly the next elements, as many as the page can carry; only if not one fits it fails, and the cursor stays |
| PagingLiveness.ContinueQueryAnswered | packages/browser-core/src/browser-query.ts:39-62 | A continuation of an editable query from its cursor is always answered by its next targets, at least one while any is left |
| PagingLiveness.AcceptedPagesReachTheEnd | packages/browser-core/src/browser-snapshot.ts:92-108 | Accepted continuations of one inspection with nothing between them hand out one element each at least, and when the cursor has ended the published list has been served in order |
| PagingLiveness.InspectReachesTheEnd | packages/browser-core/src/browser-snapshot.ts:92-108 | If every page from the cursor on can be sent, continuing from each cursor, with any limit, envelope and tree each time, serves the whole published list within as many requests as elements are left |
| PagingLiveness.QueryReachesTheEnd | packages/browser-core/src/browser-query.ts:39-62 | Continuing an editable query always serves all editable elements of its snapshot, within as many requests as are left |
| PagingLiveness.FirstPageIsPageable | packages/browser-core/src/browser-snapshot.ts:113-166 | Every inspection answered with a first page can be continued |
| PagingLiveness.QueryStarts | packages/browser-core/src/browser-query.ts:66-74 | An editable query that nothing disturbs between its inspection and its first targets is answered with them and can be continued |
| PagingLiveness.ResumedIsPageable | packages/browser-core/src/browser-query.ts:66-74 | Whatever came in between, an answered query can be continued if and only if the snapshot it took up is a query's, current, unexpired and not frozen off |
| PagingEnds.ContinueInspectExactly | packages/browser-core/src/browser-snapshot.ts:92-108 | Every answer to an inspect continuation: stale unless its snapshot is retained, unexpired, current and not frozen off; else refused for another kind or offset; else the next page, or the size error |
| PagingEnds.ContinueQueryExactly | packages/browser-core/src/browser-query.ts:39-62 | Every answer to a continuation of an editable query |
| PagingEnds.EveryRunFreezesOff | packages/browser-core/src/browser-state.ts:263-272 | Over every run: once a mutating action is over or typing has finished, no continuation of anything published before is ever served again; it is stale |
| PagingEnds.MutationKeepsRefs | packages/browser-core/src/browser-state.ts:263-272 | The mutating action leaves snapshots, their order, elements, queries and cursors, and every ref resolves to the same element of the same snapshot as before |
| PagingEnds.EveryRunLeavesThePage | packages/browser-core/src/browser-action-targets.ts:332-338 | Over every run: after a main navigation no earlier ref resolves, is listed or mirrored, no key press continues at one, and earlier continuations are stale |
| InspectProtocol.EpochTestIsExact | packages/browser-core/src/browser-state.ts:211-222 | Comparing epochs tells exactly whether an invalidation since the capture matched the element |
| InspectProtocol.PublishIsExact | packages/browser-core/src/browser-snapshot.ts:113-163 | In every reachable state, publication lists exactly the scanned elements that no invalidation since the capture matches, in order, under fresh refs |
| InspectProtocol.StepKeepsInv | packages/browser-core/src/browser-snapshot.ts:78-166 | Every step of the protocol, whatever the scheduler picks, keeps the store, cursors, trails and in-flight inspection consistent |
| InspectProtocol.RunKeepsInv | packages/browser-core/src/browser-snapshot.ts:78-166 | So does every run from the initial session |
| InspectRuns.EveryRunPagesFrozenLists | packages/browser-core/src/browser-snapshot.ts:92-166 | Over every interleaving: each snapshot ever published listed exactly its surviving elements, and its pages concatenate to a prefix of that list, its editable pages to a prefix of theirs; a snapshot that may still be continued, and its editable query, stand exactly where their pages end, and the query pages exactly the editable elements of what was published; see EveryListIsTraced for where the lists come from |
| InspectRuns.EveryListIsTraced | packages/browser-core/src/browser-snapshot.ts:113-163 | Every list ever published, from end to end: its inspection was in flight from a `Begin` to a publication, a scan ended in between, and the list is what that scan gave less what any frame invalidation delivered between the two events matches, in order, under the refs next at the publication |
| Revocation.EveryRunRevokesFrames | packages/browser-core/src/browser-state.ts:211-256 | Over every run: after a frame invalidation, and until another inspection begins, no snapshot, editable query or mirrored ref is of the frame, though an inspection in flight may publish what it scanned before |
| Revocation.EveryRunRevokesRefs | packages/browser-core/src/browser-state.ts:186-256 | Whatever follows, further inspections included: a ref minted for an element of the invalidated frame is never listed, mirrored or resolved again, and a key press continues at it only if typing into it was under way, or its target had lost the frame, at the invalidation |
| Revocation.EveryRunRevokesKeyboard | packages/browser-core/src/browser-state.ts:250-255 | Over every run: after a frame was invalidated no keyboard target names it until some typing finishes |
| Revocation.OnlyTypingSetsKeyboard | packages/browser-core/src/browser-core.ts:397-398 | Only typing that finishes sets a keyboard target; every other step keeps it or takes it |
| Revocation.KeyboardExactly | packages/browser-core/src/browser-core.ts:397-398 | In every step but the end of typing: requests and navigations take the keyboard target, an invalidation takes it exactly when it names the frame or session, everything else keeps it |
| Revocation.TypingSetsKeyboard | packages/browser-core/src/browser-actions.ts:907-917 | Typing into any ref that resolves, with nothing in between, leaves a keyboard target for that ref |
| Revocation.TypingOutlivesRevocation | packages/browser-core/src/browser-actions.ts:739-917 | Over every run in which typing into an element is under way at a frame invalidation and finishes later: it sets a keyboard target for the element if and only if no navigation came and the element was looked at a second time; and the target names the invalidated identity if and only if, besides, the target known already named it or, before that second look, the identity has a session and the element is of it |
| Revocation.RunIsTypable | packages/browser-core/src/browser-actions.ts:739-917 | In every reachable state each mirrored element, and each keyboard target and typing under way, is of an element some snapshot was published with; a target names that element's session, and its frame or none |
| Revocation.FrameIsForgotten | packages/browser-core/src/browser-actions.ts:739-917 | A run from the start in which a target is set for an element of an invalidated frame, names no frame, and stays when the frame is invalidated again |
| Revocation.FrameIsNamed | packages/browser-core/src/browser-actions.ts:739-917 | A run in which the target set after the invalidation names the invalidated frame |
| InspectRuns.EveryRunResolvesToTheIssuer | packages/browser-core/src/browser-state.ts:186-200 | In every reachable state a ref that resolves names the one snapshot, of all ever published, that it was minted for, and the element it was minted for |
| Revocation.PublishedRefsResolve | packages/browser-core/src/browser-snapshot.ts:142-163 | Every ref of a snapshot resolves right after its publication |
| InspectRuns.NavigationEndsInspections | packages/browser-core/src/browser-snapshot.ts:112-141 | Over every run: after a main navigation nothing is published until another inspection begins, whatever was in flight |
| InspectRuns.LogIsEveryInvalidationSince | packages/browser-core/src/browser-state.ts:207-231 | The invalidations a publication is judged by are all those delivered since the inspection captured its epochs |
| InspectRuns.StepAccounting | packages/browser-core/src/browser-snapshot.ts:92-108 | A handed-out page is appended to its own snapshot's trail and to no other; failures hand out nothing |
| InspectRuns.FailedContinuationKeepsCursors | packages/browser-core/src/browser-snapshot.ts:92-108 | A refused or failing continuation moves no cursor of any snapshot |
| InspectRuns.AcceptedPageAdvances | packages/browser-core/src/browser-snapshot.ts:92-108 | An accepted continuation hands out at least one element while any is left |
| ActionGate.GateSafety | packages/browser-core/src/browser-core.ts:258-395 | Over every run: an idle, unpoisoned session has no operation running; while unpoisoned only the owner's operations run; an interrupted call that left it usable was decided by a transport reset that succeeded, and its operations settled |
| ActionGate.ResetSeenExactly | packages/browser-core/src/browser-core.ts:300-373 | A call sees a reset succeed after it began in every continuation that interrupts it and leaves the session usable, if and only if no recovery is unrecorded, with its reset already successful, when the call is accepted |
| ActionGate.CallSeesItsReset | packages/browser-core/src/browser-core.ts:300-373 | A call accepted while no such recovery is outstanding sees a reset of its own if it is interrupted and leaves the session usable, whatever the call and whatever follows |
| ActionGate.RecoveryMayBeLate | packages/browser-core/src/cdp-helper.ts:251-279 | A run in which such a recovery is outstanding while the session is free |
| ActionGate.RunKeepsInv | packages/browser-core/src/browser-core.ts:258-395 | The gate's invariant holds after every sequence of steps |
| ActionGate.PoisonedIsForever | packages/browser-core/src/browser-core.ts:263-268 | Once poisoned, no event clears it and no call is accepted any more |
| ActionGate.OwnerChangesOnlyThroughRelease | packages/browser-core/src/browser-core.ts:288-363 | The command state keeps its owner until that very call is released; no second call is accepted meanwhile |
| ActionGate.EveryInterruptionIsDecided | packages/browser-core/src/browser-core.ts:337-353 | Over every run: an interrupted call left the session usable if and only if the recovery it was decided by, one recorded since it began, was a success and its operations settled in time; operations reported settled stay so |
| ActionGate.EveryEndingIsReported | packages/browser-core/src/browser-core.ts:319-363 | Over every run: a call is reported as interrupted if and only if it was aborted, or its start or action failed with an interruption, while it owned the gate, and as ended if and only if its start failed or its action settled otherwise; an interrupted one is reported once its operations settled, or took too long, and says which |
| ActionGate.InterruptionAwaits | packages/browser-core/src/browser-core.ts:365-374 | An interruption is decided by the last recovery recorded since the call began, else by one started for it |
| ActionGate.EveryCallIsServedInTurn | packages/browser-core/src/browser-core.ts:263-395 | Over every run: calls are reported one at a time in the order accepted; a valid call is accepted if and only if all earlier ones are reported and none poisoned the session, else busy while one is unreported, else poisoned; the page generation counts the interruptions |
| NetworkDiagnostics.NetworkDiagnostics.RequestWillBeSent | packages/browser-core/src/cdp-helper.ts:871-911 | Only main-frame requests are recorded; a redirect completes the previous record, a new one gets the next number, and the ring keeps the newest 200 |
| NetworkDiagnostics.NetworkDiagnostics.Append | packages/browser-core/src/cdp-helper.ts:975-987 | The oldest record leaves a full ring, and the in-flight map if it is still there itself |
| NetworkDiagnostics.NetworkDiagnostics.ResponseReceived | packages/browser-core/src/cdp-helper.ts:915-925 | A response updates the in-flight record alone; a status of 400 or more makes it an HTTP error |
| NetworkDiagnostics.NetworkDiagnostics.LoadingFinished | packages/browser-core/src/cdp-helper.ts:926-934 | The record succeeds unless it was an HTTP error, gets its duration, and is no longer in flight |
| NetworkDiagnostics.NetworkDiagnostics.LoadingFailed | packages/browser-core/src/cdp-helper.ts:935-949 | The record fails with its reason and duration, and is no longer in flight |
| NetworkDiagnostics.NetworkDiagnostics.ResetForNavigation | packages/browser-core/src/cdp-helper.ts:1029-1040 | A navigation keeps exactly the records of the new document's loader, in the ring and in flight; without a loader nothing is kept |
| NetworkDiagnostics.OfLoaderSelects | packages/browser-core/src/cdp-helper.ts:1034-1036 | Kept are all records of the loader and no others |
| NetworkDiagnostics.PushedTracked | packages/browser-core/src/cdp-helper.ts:975-987 | After a push everything in flight is still, object for object, an unfinished record of the ring |
| NetworkDiagnostics.PushedExactly | packages/browser-core/src/cdp-helper.ts:975-987 | A push adds the record at the end and keeps the 200 newest |
| NetworkDiagnostics.EvictedExactly | packages/browser-core/src/cdp-helper.ts:975-987 | What is in flight stays so exactly if the ring still holds it |
| NetworkDiagnostics.NetworkDiagnostics.Handle | packages/browser-core/src/cdp-helper.ts:716-1045 | What each event leaves: only a main-frame request adds a record, numbered next; a redirect, response, end or failure changes the record in flight under its id and no other; what ended is out of flight; a navigation keeps the new document's records; a detached page, a recovery and a removed listener forget what is in flight, the first two the ring as well |
| NetworkDiagnostics.NetworkDiagnostics.HandleAll | packages/browser-core/src/cdp-helper.ts:867-1045 | Over every event sequence: at most 200 records in increasing order, in-flight ones identical to ring records and unfinished, and a record that has left flight is never changed or put back |
| NetworkDiagnostics.NewestPagesGrow | packages/browser-core/src/cdp-helper.ts:665-683 | A page of more of the newest records never takes fewer bytes |
| NetworkDiagnostics.SelectedInOrder | packages/browser-core/src/cdp-helper.ts:655-661 | Filtering keeps the ring's order |
| NetworkDiagnostics.NetworkDiagnostics.GetNetworkDiagnostics | packages/browser-core/src/cdp-helper.ts:643-692 | The page shows the longest newest suffix of the matching records within the limit and 48 KiB, in order, with the true total and truncation flag |
| NetworkDiagnostics.NetworkDiagnostics.PollTwice | packages/browser-core/src/cdp-helper.ts:651-661 | Polling one transport from the previous `lastSequence` shows only records made since, whatever events came between, navigations and recoveries included |
| Redaction.RedactStructuredCredentials | packages/browser-core/src/console-diagnostic-sanitizer.ts:47-91 | The work list accepts exactly when, sensitive subtrees cut, there are at most 1000 containers nested at most 12 deep; then the value in place is the recursive redaction; in every case only values of sensitive keys changed |
| Redaction.Visit | packages/browser-core/src/console-diagnostic-sanitizer.ts:66-86 | Visiting a container replaces exactly its sensitive values and stacks every other container in it |
| Redaction.DoneReadsRedacted | packages/browser-core/src/console-diagnostic-sanitizer.ts:47-91 | Once all containers reachable past no sensitive key are visited, the heap reads as the recursive definition |
| Redaction.RedactCleans | packages/browser-core/src/console-diagnostic-sanitizer.ts:47-91 | The recursive definition leaves no value under a sensitive key and changes nothing that had none |
| Redaction.SensitiveExactly | packages/browser-core/src/console-diagnostic-sanitizer.ts:43-45 | A key is sensitive exactly when it spells one of nine names, letters in either case, hyphens and underscores anywhere |
| Redaction.HeightExactly | packages/browser-core/src/console-diagnostic-sanitizer.ts:47-91 | The depth that is bounded is that of the longest nesting of containers past no sensitive key |
| ConsoleText.CollectBoundedConsoleArgumentText | packages/browser-core/src/console-diagnostic-sanitizer.ts:151-168 | The text is a prefix of the first 50 bounded arguments joined by spaces, within 16 Ki characters, and all of them unless the budget is used up to the last character or separator |
| Utf8Budget.ByteLengthSplits | packages/agent-extension/src/tool-output-budget.ts:214-252 | UTF-8 length adds up over a cut wherever no surrogate pair is split |
| Utf8Budget.TakeUtf8Start | packages/agent-extension/src/tool-output-budget.ts:220-230 | The forward scan returns the longest prefix of whole code points within the budget |
| Utf8Budget.TakeUtf8End | packages/agent-extension/src/tool-output-budget.ts:232-252 | The backward scan returns the longest suffix of whole code points within the budget |
| Utf8Budget.PreviousBoundary | packages/agent-extension/src/tool-output-budget.ts:236-247 | The backward scan steps over the same code points as the forward scan |
| Utf8Budget.CutsAreUnique | packages/agent-extension/src/tool-output-budget.ts:220-252 | For each budget there is one longest prefix and one longest suffix |
| Utf8Budget.HeadAndTailDisjoint | packages/agent-extension/src/tool-output-budget.ts:214-218 | Head and tail of a text larger than the budget do not overlap |
| Utf8Budget.HeadTailPreview | packages/agent-extension/src/tool-output-budget.ts:214-218 | The preview is that head, the notice and that tail, and exceeds the budget by no more than the notice |
| Utf8Budget.TruncateUtf8 | packages/agent-extension/src/tool-output-budget.ts:320-326 | Never over the bound; the text itself when it fits, nothing when not even the ellipsis does, else the longest prefix that leaves room for it |
| Utf8Budget.BoundedSourceReferenceMarkers | packages/agent-extension/src/tool-output-budget.ts:146-160 | Markers are kept in order within the limit, and a marker is left out only if it does not fit after the kept ones before it |
| DataDir.ResolveDataDirPair | packages/config/src/data-dir.ts:287-382 | Whatever calls fail, no directory that holds or may hold data loses it, a primary directory with data is the one returned, and, if the primary path could be looked at, the path returned is or leads to the legacy data, unless its link outlived the moved end; a failure-free run from a missing or real primary directory ends in a state it leaves alone, and takes such a state to itself |
| DataDir.ResolveTwice | packages/config/src/data-dir.ts:287-382 | Two failure-free runs return the same path, and the second leaves the tree exactly as the first left it |
| DataDir.PrepareLegacyPathForLink | packages/config/src/data-dir.ts:156-183 | The legacy path is cleared only by backing up a real directory or removing a link or file that leads to no data |
| DataDir.EnsureCompatLink | packages/config/src/data-dir.ts:185-193 | The only possible outcomes: nothing, the link, or the cleared path with or without the link |
| DataDir.CopyLinkTarget | packages/config/src/data-dir.ts:220-249 | Copying across devices never leaves the data in neither place, and a failed copy leaves link and target as they were |
| DataDir.MigrateLinkTarget | packages/config/src/data-dir.ts:251-275 | The link's data ends at its old place or in the primary directory; the one state in which the link outlives a moved target is told apart |
| DataDir.TakeOverDirectory | packages/config/src/data-dir.ts:342-348 | A legacy directory moves to the primary path in one rename or stays, and the path returned holds it |
| DataDir.MigrateIntoEmptyPrimary | packages/config/src/data-dir.ts:318-330 | Removing an empty primary directory first loses nothing even when the following migration fails |
| DataDir.ResolveBesideDirectory | packages/config/src/data-dir.ts:301-335 | A primary directory with data is used and the legacy path set aside; without data it gives way to legacy data |
| DataDir.ResolveWithoutDirectory | packages/config/src/data-dir.ts:337-382 | With no primary directory, legacy data is migrated, unreadable data is used where it is, and otherwise a primary directory is created |
| ProviderKeys.GenerateKey | packages/config/src/byok-config.ts:411-426 | The unbounded suffix search ends and returns the first candidate neither used nor reserved |
| ProviderKeys.OneIsFree | packages/config/src/byok-config.ts:420-425 | Pigeonhole: more distinct candidates than keys in use cannot all be in use |
| ProviderKeys.CandidatesDiffer | packages/config/src/byok-config.ts:421 | Different suffixes give different candidates |
| ProviderKeys.CandidateNumbers | packages/config/src/byok-config.ts:421 | The first candidate is the base, the next is numbered 2, and so on |
| ProviderKeys.SlugsAreClean | packages/config/src/byok-config.ts:428-436 | A slug is lower-case words of letters and digits joined by single hyphens |
| ProviderKeys.SlugJoinsWords | packages/config/src/byok-config.ts:428-436 | A slug is the text's words in lower case joined by hyphens; there is none when there is no word or another character inside |
| ProviderKeys.CandidatesHaveNoSlash | packages/config/src/byok-config.ts:420-425 | A generated key holds no slash if its base holds none |
| ProviderMigration.MigrateLegacyByokProviders | packages/config/src/byok-config.ts:178-256 | The loops over the raw document compute the specified migration |
| ProviderMigration.MigrationIsSound | packages/config/src/byok-config.ts:189-244 | Exactly the eligible providers leave; no custom provider changes; each leaving provider without a usable record finds its configuration under a new unreserved key of its own, recorded in the marker; nothing else is added; the three references to providers are rewritten by where their providers went, anything else in those fields stays; other fields stay |
| ProviderMigration.StepsAreSound | packages/config/src/byok-config.ts:198-232 | The same for the loop alone, in whatever order providers are listed |
| ProviderMigration.EligibleExactly | packages/config/src/byok-config.ts:372-394 | Eligible is exactly a provider that is not built in and not managed, with an API key and an address that are not blank, and models |
| ProviderMigration.MigratedKeepsTheRest | packages/config/src/byok-config.ts:396-409 | A migrated provider is of the custom kind, signs in with its API key, is enabled unless switched off, and is otherwise as it was |
| ProviderMigration.KeyBaseExactly | packages/config/src/byok-config.ts:411-419 | A new key starts from the id's slug, else the name's, else the hash |
| ProviderMigration.SecondRunChangesNothing | packages/config/src/byok-config.ts:198-244 | Running again, in any order, leaves the document as it is |
| ProviderMigration.SurvivesExactlyWhenTakenOver | packages/config/src/byok-config.ts:203-217 | A provider whose recorded key holds no custom provider is migrated, then under that key, if and only if this run gave the key to a provider without a record listed before it; otherwise it is dropped |
| ProviderMigration.RecordedKeyMayBeTakenOver | packages/config/src/byok-config.ts:203-232 | Both happen, with providers that are eligible: listed after the other provider it points at the other's configuration, listed before it is dropped |
| ProviderMigration.RewriteKeepsModel | packages/config/src/byok-config.ts:455-462 | A reference to a migrated provider names the new key; its model part is kept if and only if the key holds no slash; all other references stay |
| ProviderMigration.OutcomeRewritesReferences | packages/config/src/byok-config.ts:440-475 | `defaultModel` and `defaultLightModel` become the rewritten references and `nexus.model.providerID` the new key; values of other shapes stay |
| ProviderMigration.ModelPartSurvives | packages/config/src/byok-config.ts:440-462 | A default model keeps its model part through the whole migration if and only if it does not refer to an eligible provider recorded under a key that holds a slash and still holds a custom provider; references to providers not migrated stay |
| ProviderMigration.SlashedKeyChangesModelPart | packages/config/src/byok-config.ts:455-462 | A document where it does not |
| ProviderMigration.NewKeysHaveNoSlash | packages/config/src/byok-config.ts:411-426 | Generated keys hold no slash, so references to them keep their model part |
| ProviderMigration.OutcomeReadsBack | packages/config/src/byok-config.ts:236-244 | The written document reads back as the run's providers, custom providers and marker, and only six fields are touched |
| Occlusion.FilterByPaintOrder | packages/browser-core/src/dom-serializer.ts:187-229 | The nested loops make the specified pass over the elements sorted by paint order |
| Occlusion.ContainmentIsOfPoints | packages/browser-core/src/dom-serializer.ts:310-317 | An element lies in another exactly when every point of its box does |
| Occlusion.VisibleWitness | packages/browser-core/src/dom-serializer.ts:207-222 | A covered element is covered by a visible one even if its own cover was dropped |
| Occlusion.PassIsExact | packages/browser-core/src/dom-serializer.ts:187-229 | A number is excluded exactly when a covered element carries it; an element is kept exactly when it is visible and shares its number with no covered one before it |
| Occlusion.CountIsExact | packages/browser-core/src/dom-serializer.ts:187-229 | Kept plus dropped is at most the input count, and equal to it exactly when no element shares the number of a covered one before it |
| Occlusion.NothingLostExactly | packages/browser-core/src/dom-serializer.ts:187-229 | For any numbers: every element lies in a kept one sorted no later if and only if no visible element shares its number with a covered one sorted before it |
| Occlusion.OcclusionCoverage | packages/browser-core/src/dom-serializer.ts:187-229 | With distinct numbers: every element lies in a kept one painted no earlier, the kept elements are exactly those inside no element sorted before them, ties included, and kept plus dropped is the input count |
| Occlusion.SharedNumberLosesAnElement | packages/browser-core/src/dom-serializer.ts:202-205 | The condition can fail: with a shared number an element that nothing covers is lost |
| OverlayResolution.ResolveExtensions | packages/agent-runtime/src/resolve.ts:21-102 | Either the first conflict in the order of the checks, or the simultaneous replacement in (base without disabled, then enabled additions in their order), without repeated ids |
| OverlayResolution.FailsExactlyOnConflicts | packages/agent-runtime/src/resolve.ts:27-99 | Resolution succeeds if and only if pool ids are distinct, every disabled, enabled, replaced and replacing id exists where it must, none is both enabled and disabled, and result ids are distinct |
| OverlayResolution.ConflictExactly | packages/agent-runtime/src/resolve.ts:27-99 | Which conflict is reported: the first kind there is, in the order of the checks, and of its kind the first written |
| OverlayResolution.SelectedExactly | packages/agent-runtime/src/resolve.ts:41-68 | Before replacements: every base extension that is not disabled and every addition that is enabled, nothing else, in order |
| OverlayResolution.ReplacingIsSimultaneous | packages/agent-runtime/src/resolve.ts:72-89 | Whatever else is replaced, each place gets the extension written for what stood there before, and keeps what stood there if nothing is written |
| OverlayResolution.SwapsWork | packages/agent-runtime/src/resolve.ts:72-89 | Two extensions that replace each other, among any other replacements, change places, and those with no replacement stay |
| OverlayResolution.Registry.InitExtensions | packages/agent-runtime/src/registry.ts:158-187 | Initialization ends ready with all extensions or failed with none, succeeds exactly when ids are distinct and no `init` throws, and reports the first extension that stops it |
| OverlayResolution.LoadProfile | packages/agent-runtime/src/registry.ts:158-187 | A resolved list is never refused for a repeated id; loading it fails only if an extension's `init` throws |

## Left out

- Commands, screenshots, downloads, keyboard input, in-page scripts and the page scanner's heuristics: foreign calls; their results are parameters.
- Real timers and promises: `execute`, `inspect` and the recovery of the transport are steps between awaits with an arbitrary scheduler; a recovery joins only resets that are still pending, not one whose promise has settled but is not cleared yet.
- Canonical keys are a datatype, so the accidental equality of a backed key in a frame named `ax` with the key of an accessibility-only node is not modelled.
- Roles, names, descriptions, states and style rules of the semantic tree: they enter as three booleans per node (text or comment, hidden, meaningful).
- JSON text: sizes are additive functions (fixed part, element sizes, separators, digit widths); `filterSemanticTree`, `offsetSemanticTree`, `mergeSemanticTrees` and frame refs beyond their deletion are not modelled.
- UUIDs and hashes: snapshot ids and refs are counters, the provider hash is a function parameter.
- A latest snapshot that is not in the store (adopted on first use, lines 274-281 of browser-state.ts): only code that assigns the field directly can produce it.
- InspectProtocol.StepKeepsInv: `searchSemantic` beyond publishing its snapshot and taking one element, and `synchronizeGeneration` (it is a navigation), are not separate events.
- The console diagnostics ring: it is the network ring without in-flight records, so it would only repeat easier results; text sanitizing by regular expressions is not modelled.
- NetworkDiagnostics.NetworkDiagnostics.Handle: the console's and the network's main-frame ids are always assigned together and are one field; message decoding (absent fields and their defaults) happens before the event.
- Redaction.RedactStructuredCredentials: keys lower-case as far as ASCII letters are concerned (A to Z and the Kelvin sign); other letters cannot make a key sensitive.
- DataDir.ResolveDataDirPair: that the returned path reaches the data is not claimed when the unlink after a successful rename fails or a read fails transiently; link targets inside each other or containing the primary path, Windows path rules, and the contents of a regular file at the legacy path are not modelled.
- ProviderMigration.MigrateLegacyByokProviders: reading, backing up and writing the file are left out, and records have no members inherited from `Object.prototype`; the same holds for the profile map of OverlayResolution.ResolveExtensions.
- Occlusion.FilterByPaintOrder: coordinates are reals; `filterByBoundingBox` is left out because two near-identical propagating boxes can exclude each other.
- OverlayResolution.Registry.InitExtensions: what extensions contribute, enablement and session overrides are left out as easy.
- Source-reference citation rewriting, the element map's file cache, prompts, permissions, reminders and configuration defaults: text heuristics or one-branch code.
