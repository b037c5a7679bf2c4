# Models of the BetterTrack logger, overlay inventory, admin harness and demo app

Four pieces of the repository whose correctness is not visible from any one function, modelled
in Dafny with their main properties proved for all inputs and all runs.

**The log redaction walk** (`apps/api/src/logger.ts`). Objects are records in a heap, so cycles
and sharing are real: a kind, elements, own properties with their enumerability, slots that hold
data, run a getter or throw on read, and a prototype that `toJSON` and tag lookups go on to. `JsHeap`
unfolds a heap to a tree of bounded depth; `Redaction` is the policy as a function from a heap to a tree, together
with the claim whether the value keeps its identity; `LogWalk` is the imperative clone-on-write
walk with its mutable path set, proved to compute that policy; `RedactionLaws` says what the policy
guarantees, `RedactionTrails` when it lets an exception out or fails to settle, and `RedactionScrub` what it is
without any mention of the walk: reading a graph, and scrubbing what was read. The policy is proved for any set of secret key names and used with `SecretKeys`.

**The overlay inventory** (`e2e/support/overlayInventory.ts`). Files are statement lists over a
small syntax tree. `OverlayExports` finds the primitives a module publishes, `OverlayResolver`
follows re-export barrels with a memo table and a stack of modules in progress, `OverlayDiscovery`
binds imports, and `OverlayVisit` collects the outermost overlay nodes. `OverlayFound` says what is found
in the terms of the file and of derivability alone; `OverlayAliases` and `OverlayBarrels` say what the
result depends on. Attributes and initializers are texts, sequences of
names and what is between them; the two regular expressions are any functions on texts. The references are
independent of the algorithms: derivability by a chain of re-exports, positions in a tree.

**The admin harness** (`e2e/support/adminApi.ts`). `Base32` holds the decoder and the API's encoder
(`apps/api/src/services/auth/totp.ts`), with the 32-bit buffer as an explicit residue, over the digit
sequences of `Radix`. `TotpCursor` is
the time-step reservation over runs with lost writes, crashes and restarts. `AdminSignIn` is the
enrol, confirm and login protocol against the API's factor state (read off
`apps/api/src/services/auth/twoFactorService.ts`), one step per request or file write, with crashes between
any two and replies that get lost. `SingleFlight` is the cached sign-in under every interleaving.

**The demo app** (`apps/redesign-demo/src/App.tsx`). The projection recurrence and its band, wealth
across scopes, the portfolio structure, and the holdings replay, over reals.

## Where the code and its documentation differ

The model follows the code.

- The comment on `readOwn` (logger, lines 474-480) says that one hostile accessor must not take
  down the log call. A throwing `toJSON` accessor (line 410), a throwing array element (line 427), the
  read of `Symbol.toStringTag` inside `isError` (lines 316 and 468) and the accessors of an object that
  only inherits from `URL.prototype` (line 337) are outside any guard and do escape;
  `RedactionTrails.ThrowsExactlyOnTrail` gives the exact condition, and
  `RedactionExamples.RebuildingReadsTheTag` the tag.
- An Error owning a `toJSON` that is not a function is rebuilt without it, and one inherited from
  its prototype shows through again: `RedactionExamples.RebuiltErrorUncoversInheritedToJson`.
- The comment on `rebuildError` (lines 490-492) has the rebuilt object stay an Error. It has the prototype
  and the hidden properties of one, but `isError` is false of it, so a second pass that has to rebuild
  it again makes it a plain object: `RedactionExamples.SecondPassLosesTheMessage`, and exactly when in
  `RedactionTrails.ErrorOverTwoPasses`.
- NaN differs from itself, so it forces a clone: `RedactionExamples.NaNIsClonedEveryTime`. A second
  pass is the identity exactly when the first result is settled, which
  `RedactionTrails.UnsettledExactlyOnTrail` reads off the input.
- The comment on `primitiveExportsOf` (overlay inventory, lines 376-379) says that only modules in
  progress resolve to nothing and that those results are never cached. They are not
  (`OverlayResolver.MemoKeeps`), but what was computed from them is:
  `OverlayResolver.CyclesAreCachedIncomplete`. Where no cycle can be reached the memo table is exact.
- Discovery is meant not to depend on local names. Callees and attributes are recognised by their text:
  importing `createPortal` under another name loses the site (`OverlayAliases.PortalAliasLosesTheSite`), and
  a flag whose new name includes `true` adds one (`OverlayAliases.ModalAliasAddsASite`).
  `OverlayAliases.AliasesMatterOnlyInMarkup` gives the exact condition.
- `export * from` also hands on `default` here, unlike in ECMAScript modules.
- The projection band is documented nowhere as partial, but fails below half a percent
  (`DemoProjection.BandHoldsExactlyFromHalfAPercent`); wealth is conserved for a name exactly when one
  scope goes by it; a portfolio hung below an owner node is not below the root
  (`DemoStructure.AllBelowRootExactlyWhenInside`).
- Both files of the harness are written as best effort. A lost cursor write repeats a step after a
  restart (`TotpCursor.LostWriteRepeatsAStep`), a lost secret locks later workers out
  (`AdminSignIn.LostSecretLocksOut`).

## Model

| member | source | states |
|---|---|---|
| `LogWalk.Walker.RedactForLog` | apps/api/src/logger.ts:392-394 | The walk from the top: existing objects stay as they are; outcome, tree and identity are those of scrubbing what serialization would read of the graph, through every `toJSON`, over 24 levels; the result is clean, and is the very value passed in exactly when the value's unfolding is pristine; an exception escapes exactly when the walk enters a hostile object, or a URL that cannot be read. |
| `LogWalk.Walker.Walk` | apps/api/src/logger.ts:396-472 | Refines the policy on any finite heap, cyclic or shared: same exception or same tree, identity kept exactly when the policy hands the value on, no existing object changed, and the path set restored on every exit; terminates on the containers not on the path. |
| `LogWalk.Walker.WalkNode` | apps/api/src/logger.ts:405-421 | A container is replaced by what its `toJSON` renders, at the same depth, or by the marker when rendering throws; otherwise its edges are walked. |
| `LogWalk.Walker.WalkArray` | apps/api/src/logger.ts:423-433 | The loop over an array: the array itself when no element changed, else a new array; a throwing element read escapes. |
| `LogWalk.Walker.WalkRecord` | apps/api/src/logger.ts:435-468 | The loop over own keys: secrets and `__proto__` dropped, unreadable fields marked; the object itself when nothing changed, else a rebuilt one, or an exception if the read of the tag inside `isError` throws. |
| `LogWalk.Walker.RebuildArray` | apps/api/src/logger.ts:424-432 | The copied array is new and unfolds to the walked elements; existing objects are untouched. |
| `LogWalk.Walker.RebuildRecord` | apps/api/src/logger.ts:467-468 | The copy of a changed object is new and unfolds to the kept fields; an Error is rebuilt over its own prototype with its hidden properties, without an own `toJSON`, and is no Error any more inside; everything else becomes a plain object. |
| `LogWalk.Walker.RebuildError` | apps/api/src/logger.ts:508-534 | The loop over own property keys yields, in order, each property copied, replaced by its kept value, read into a data property, or left out. |
| `LogWalk.CloneOf` | apps/api/src/logger.ts:508-534 | What a rebuilt Error shows, hides and renders: the kept fields without `toJSON`; every hidden property that is not erased, accessors turned into data; its prototype's `toJSON`. |
| `LogWalk.RebuiltEdges` | apps/api/src/logger.ts:508-517 | What a log line can enumerate on a rebuilt Error is exactly the kept fields in order, without `toJSON`. |
| `LogWalk.RebuiltKeepsHidden` | apps/api/src/logger.ts:518-531 | A rebuilt Error still has every hidden property (message, stack, symbols) with the value a read of the original yields, accessors turned into data. |
| `LogWalk.KeptToJson` | apps/api/src/logger.ts:435-468 | A rebuilt plain object runs code on serialization exactly when the walked value under `toJSON` came out as a function. |
| `LogWalk.Walker.RedactTwice` | apps/api/src/logger.ts:371-374 | Over two passes: the second hands the first result on unchanged if and only if the first enters no container that comes out unsettled, read off the input graph; and an Error that the first pass rebuilds keeps prototype and hidden properties then, and over the second pass exactly when that left everything unchanged or its tag alone makes it an Error. Where the first result runs no `toJSON`, the second pass makes of it, at every depth, what scrubbing its tree says. |
| `LogWalk.ProductionWalker` | apps/api/src/logger.ts:170 | The logger's walk is this walk under the production key list. |
| `Redaction.RedactedIsClean` | apps/api/src/logger.ts:396-472 | Whatever the graph, the tree let through holds no secret and no `__proto__` key, no level beyond the bound, no throwing slot and no URL with a query. |
| `Redaction.SameIsUnfolded` | apps/api/src/logger.ts:423-468 | A value the policy hands on reads back as exactly the redacted tree. |
| `RedactionLaws.HandedOnExactlyWhenPristine` | apps/api/src/logger.ts:423-468 | An object comes back by reference if and only if its unfolding to depth 24 holds nothing to erase, mark, cut or redirect, and no NaN. |
| `RedactionLaws.PristineIsSame` | apps/api/src/logger.ts:423-468 | A pristine value is handed on at any depth, below any path it does not lead back to. |
| `RedactionLaws.SameExactlyWhenPristine` | apps/api/src/logger.ts:423-468 | At any depth and below any path: a value keeps its identity if and only if its unfolding is pristine and does not lead back to the path. |
| `RedactionTrails.KeptExactlyWhenUntouched` | apps/api/src/logger.ts:464-468 | A walked container is rebuilt exactly when its unfolding is not pristine or leads back to the path. |
| `RedactionLaws.CleanGraph` | apps/api/src/logger.ts:402-468 | The object graph behind a clean result: every chain of containers is at most as long as the depth bound, meets no container twice, and meets no secret key, throwing slot or URL object. |
| `RedactionLaws.CleanIsComplete` | apps/api/src/logger.ts:402-403 | A clean unfolding leaves nothing out: unfolding deeper shows the same tree. |
| `RedactionTrails.ThrowsExactlyOnTrail` | apps/api/src/logger.ts:315-472 | An exception leaves the walk if and only if it enters, over edges it does not erase and within the depth, an object whose `toJSON` accessor throws, an array with an element that throws, a record that has to be rebuilt and whose tag throws, or a URL whose origin or path throws. |
| `RedactionTrails.UnsettledExactlyOnTrail` | apps/api/src/logger.ts:410-514 | The first result holds something a second pass changes if and only if the walk enters a container right below which NaN comes to stand, or one it rebuilds and whose own inert `toJSON` (of an Error) uncovers a live inherited one or whose `toJSON` field (of a record) comes out as a function. |
| `RedactionTrails.OrdinaryGraphsSettle` | apps/api/src/logger.ts:410-514 | If nothing the walk can reach holds NaN or owns a `toJSON` that is no function, the result is settled, whatever else is in the heap. |
| `RedactionTrails.ErrorOverTwoPasses` | apps/api/src/logger.ts:508-534 | An Error rebuilt anywhere, at any depth and below any path, keeps its prototype and hidden properties; a second pass, wherever it meets the rebuilt one, leaves them alone exactly when everything below is settled and does not lead back to the path, or the tag alone makes it an Error, and otherwise drops them. |
| `RedactionTrails.RenderedIsLeaf` | apps/api/src/logger.ts:410-421 | If a chain of `toJSON`s ends at something that is no object, that comes out, as it is. |
| `RedactionScrub.RedactIsScrub` | apps/api/src/logger.ts:396-472 | On every graph, at every depth and below every path, the policy is two halves that know nothing of each other: reading the graph as a tree, where what a `toJSON` returns stands in the place of its container, on the same level; and scrubbing a tree. Same exception, same tree, same identity. |
| `RedactionScrub.ShownIsUnfolded` | apps/api/src/logger.ts:402-421 | Where no `toJSON` runs and no container repeats on the way down, what is read is the plain unfolding. |
| `RedactionScrub.ValuesAreKept` | apps/api/src/logger.ts:423-468 | Every value in the tree that is reached under no secret key, no `__proto__` and no `toJSON` is in the scrubbed tree, under the same labels. |
| `RedactionScrub.NothingIsAdded` | apps/api/src/logger.ts:423-468 | Every value in the scrubbed tree was there under the same labels, none of them secret or `__proto__`, or is the very marker or link text that stands for what was. |
| `RedactionScrub.FieldsKeepTheirOrder` | apps/api/src/logger.ts:438-466 | The fields that are left keep their order, and only secret ones and `__proto__` are gone. |
| `RedactionScrub.ElementsKeepTheirPlaces` | apps/api/src/logger.ts:424-432 | Array elements keep their number and their places. |
| `RedactionScrub.SecondPassIsScrub` | apps/api/src/logger.ts:392-468 | A second pass over a first result that runs no `toJSON` is that scrub once more. |
| `RedactionScrub.ScrubKeepsHiddenExactlyWhen` | apps/api/src/logger.ts:464-534 | At any depth, a record's prototype and hidden properties stay exactly when it is pristine, or reads as an Error with nothing hidden to erase, or had nothing beyond a plain object's. |
| `RedactionLaws.SharingIsNotACycle` | apps/api/src/logger.ts:384-402 | Containers on the path outside the part of the graph a value can reach change nothing: a shared object is treated alike in every branch, and is marked circular only below itself. |
| `RedactionExamples.NaNIsClonedEveryTime` | apps/api/src/logger.ts:464 | An object that reads back as one NaN field is cloned into one that reads back alike: so it is cloned again on every pass. |
| `RedactionExamples.RebuildingReadsTheTag` | apps/api/src/logger.ts:315-468 | An object with a secret and a throwing `Symbol.toStringTag` makes the walk throw, although every field of it can be read. |
| `RedactionExamples.RebuiltErrorUncoversInheritedToJson` | apps/api/src/logger.ts:503-517 | An Error owning a non-function `toJSON` and a secret comes out with its prototype's `toJSON` function uncovered, so that result is not settled. |
| `RedactionExamples.SecondPassLosesTheMessage` | apps/api/src/logger.ts:508-514 | An Error with a secret, a NaN field and a hidden message keeps the message over the first pass and loses it, and its prototype, in the second. |
| `SecretKeys.ToJsonIsNotSecret` | apps/api/src/logger.ts:73-167 | `toJSON` is not on the key list, so its removal needs the separate rule. |
| `SecretKeys.AllAreListed` | apps/api/src/logger.ts:73-170 | The policy has 68 names, and each is a secret key. |
| `OverlaySyntax.PortalByItsText` | e2e/support/overlayInventory.ts:205-209 | On names without dots, the test on the callee's text asks whether its last name is `createPortal`. |
| `OverlaySyntax.IncludedInAPiece` | e2e/support/overlayInventory.ts:243-245 | On a text taken apart at its names, a word, quoted or not, is included exactly when one piece includes it. |
| `OverlaySyntax.BuildsOverlay` | e2e/support/overlayInventory.ts:229-254 | The early-stopping search answers exactly whether a portal or modal markup occurs anywhere in the tree. |
| `OverlayExports.OverlayPrimitiveExports` | e2e/support/overlayInventory.ts:273-338 | The published names are exactly those under which some overlay-building local is published. |
| `OverlayExports.Declare` | e2e/support/overlayInventory.ts:289-331 | What one statement adds to the builder set and to the publication table. |
| `OverlayExports.DeclarationsPublish` | e2e/support/overlayInventory.ts:293-316 | Form by form: an exported function, an exported default function, named or not, an exported constant and a default expression with overlay markup are published as they say. |
| `OverlayExports.NamingPublishes` | e2e/support/overlayInventory.ts:308-330 | A builder declared anywhere in the file is published by `export default` of its name, as `default`, and by an export list, under the name it gives. |
| `OverlayExports.OnlyExportsPublish` | e2e/support/overlayInventory.ts:289-337 | Nothing is published that no statement exports under that name, and no type. |
| `OverlayExports.OrderDoesNotMatter` | e2e/support/overlayInventory.ts:280-337 | Published primitives depend on the set of statements only: order and repetition change nothing. |
| `OverlayExports.PublishingMeansBuilding` | e2e/support/overlayInventory.ts:298-337 | A module that publishes a primitive holds overlay markup in its tree. |
| `OverlayResolver.Resolve` | e2e/support/overlayInventory.ts:355-366 | A specifier resolves to a file exactly when that is one of base.tsx, base.ts, base/index.tsx and base/index.ts and none before it in that order is a file; to nothing exactly when none is, or it names a package. |
| `OverlayResolver.Resolver.PrimitiveExportsOf` | e2e/support/overlayInventory.ts:381-435 | Table and stack updates yield exactly the export map and memo table of the resolver as a function, and the stack is restored; terminates on cyclic module graphs. |
| `OverlayResolver.OwnExports` | e2e/support/overlayInventory.ts:393-400 | A registered file maps exactly its published primitives to itself. |
| `OverlayResolver.MergeClause` | e2e/support/overlayInventory.ts:421-430 | A named or star clause adds what it carries of the reachable names, later names winning; a namespace clause adds nothing. |
| `OverlayResolver.LaterNamesWin` | e2e/support/overlayInventory.ts:421-430 | The last element or star that hands a name on says which file it is from. |
| `OverlayResolver.MemoIsSound` | e2e/support/overlayInventory.ts:381-435 | On every module graph and after any queries, every reported and every cached name is derivable by a chain of re-exports ending at a registered file that publishes it. |
| `OverlayResolver.MemoIsExact` | e2e/support/overlayInventory.ts:381-435 | A query for a module from which no import cycle can be reached equals the plain recursion, and no query, for whatever module and amid whatever cycle, spoils the table for such modules. |
| `OverlayResolver.OrderOfQueriesDoesNotMatter` | e2e/support/overlayInventory.ts:376-388 | A query for a module from which no import cycle can be reached yields the plain recursion's map after any series of queries sharing the table, for modules on cycles too. |
| `OverlayResolver.MemoKeeps` | e2e/support/overlayInventory.ts:378-391 | A query never changes a cached entry and never caches a module still in progress. |
| `OverlayResolver.CyclesAreCachedIncomplete` | e2e/support/overlayInventory.ts:390-434 | A cycle of two barrels: a query for the first caches the second as exposing nothing, for good, although a fresh query for the second finds its derivable name. |
| `OverlayResolver.StackDoesNotMatter` | e2e/support/overlayInventory.ts:390-391 | Where no import cycle can be reached, the modules in progress have no influence on a result. |
| `OverlayResolver.ExportedIsDerivable` | e2e/support/overlayInventory.ts:402-431 | Whatever the plain recursion exposes is derivable, on every graph and stack. |
| `OverlayResolver.ExposedExactlyWhenDerivable` | e2e/support/overlayInventory.ts:381-435 | Where no import cycle can be reached, a name is exposed if and only if it is derivable from some registered file. |
| `OverlayDiscovery.OverlayBindings` | e2e/support/overlayInventory.ts:444-489 | Every bound component and every member of a bound namespace stands for a derivable primitive, on every module graph, and the bindings are those of all imports resolved in order over one memo table. |
| `OverlayDiscovery.BindImport` | e2e/support/overlayInventory.ts:466-485 | Default, named and namespace imports bind exactly the reachable names. |
| `OverlayVisit.Collector.Visit` | e2e/support/overlayInventory.ts:544-591 | The recursive visit appends exactly the outermost overlay nodes at and below the node. |
| `OverlayVisit.SitesAreOutermost` | e2e/support/overlayInventory.ts:511-593 | A site is recorded if and only if it is an overlay node with no overlay node above it. |
| `OverlayVisit.SitesAreInOrder` | e2e/support/overlayInventory.ts:536-592 | Sites come in document order and none lies inside another. |
| `OverlayVisit.EveryOverlayIsCovered` | e2e/support/overlayInventory.ts:511-516 | Every overlay node of the tree lies at or below a recorded site. |
| `OverlayVisit.RendersOverlayIffAny` | e2e/support/overlayInventory.ts:599-601 | The file-level answer holds if and only if the tree has an overlay node anywhere. |
| `OverlayDiscovery.OverlaySites` | e2e/support/overlayInventory.ts:518-593 | The method yields the outermost overlay nodes under sound bindings, on every module graph. |
| `OverlayDiscovery.FindsPlainSites` | e2e/support/overlayInventory.ts:444-593 | Where the file's imports reach no cycle, the sites found are those under bindings by what the plain recursion exposes: the memo table has no influence. |
| `OverlayDiscovery.PublisherRendersOverlay` | e2e/support/overlayInventory.ts:273-338 | A file that publishes an overlay primitive renders an overlay itself, whatever it imports. |
| `OverlayFound.ComponentsAre` | e2e/support/overlayInventory.ts:444-481 | Where the imports reach no cycle, a name is bound as a component exactly when some value import binds a derivable name as it, by default or in a list. |
| `OverlayFound.MembersAre` | e2e/support/overlayInventory.ts:483-485 | A namespace has exactly the derivable members of the last `import * as` of its name that brings in any. |
| `OverlayFound.ClassifiedExactly` | e2e/support/overlayInventory.ts:544-588 | A node is taken for an overlay exactly when it is a `createPortal` call, has a component's or a namespace member's tag, includes `true` in `aria-modal` or `"dialog"` in `role`, or has a class that holds the popover token or mentions a constant that does. |
| `OverlayFound.PlacesAreOutermostOverlays` | e2e/support/overlayInventory.ts:518-593 | The places recorded are exactly those of such nodes with none above them: found and told from one another without bindings, memo table or visit. |
| `OverlayFound.EveryOverlayIsFound` | e2e/support/overlayInventory.ts:511-516 | Every such node lies at or below a place recorded. |
| `OverlayFound.KindsAre` | e2e/support/overlayInventory.ts:547-586 | A site says portal, primitive, modal markup or popover, in that order of precedence, as its node is. |
| `OverlayFound.BuildersPaintThemselves` | e2e/support/overlayInventory.ts:229-254 | A component builds an overlay exactly when some node in it is a portal call or modal markup by its attributes' texts. |
| `OverlayFound.DirectoryImportIsFound` | e2e/support/overlayInventory.ts:361-365 | An element imported from a directory whose index re-exports it from a registered file is an overlay. |
| `OverlayAliases.AliasesMatterOnlyInMarkup` | e2e/support/overlayInventory.ts:205-593 | Renaming a file's imported names injectively, in imports and wherever they are used, keeps the number and positions of its sites if and only if, at every node the visit comes to that is no primitive, it leaves at that whether callee, `aria-modal`, `role` or class name paint an overlay; on every module graph and for any regular expressions. |
| `OverlayAliases.PortalStaysByName` | e2e/support/overlayInventory.ts:205-209 | A renaming makes or unmakes a portal call exactly when the callee is one name and exactly one of it and its new name is `createPortal`. |
| `OverlayAliases.ModalStaysByName` | e2e/support/overlayInventory.ts:243-245 | A renaming leaves the reading of `aria-modal` alone exactly when the text includes `true` outside its names, or some name includes it before if and only if some does afterwards. |
| `OverlayAliases.DialogStays` | e2e/support/overlayInventory.ts:244-245 | A renaming never changes how `role` reads. |
| `OverlayAliases.AliasesDoNotMatter` | e2e/support/overlayInventory.ts:444-593 | So a renaming that keeps `createPortal` callees, which names in `aria-modal` include `true`, and the names in classes and constants keeps the number and positions of the sites. |
| `OverlayAliases.PortalAliasLosesTheSite` | e2e/support/overlayInventory.ts:205-209 | Importing `createPortal` under another name, consistently in import and call, takes the file from one site to none. |
| `OverlayAliases.ModalAliasAddsASite` | e2e/support/overlayInventory.ts:566-570 | Importing a flag as `trueO` instead of `o`, consistently in import and `aria-modal`, takes the file from no site to one. |
| `OverlayBarrels.NewFileChangesNothing` | e2e/support/overlayInventory.ts:381-435 | A file nothing refers to changes no other module's exports. |
| `OverlayBarrels.BarrelForwards` | e2e/support/overlayInventory.ts:408-430 | A barrel of one `export … from` exposes what its clause makes of its module's exports. |
| `OverlayBarrels.MergeRenames` | e2e/support/overlayInventory.ts:424-430 | `{ p1 as q1, … }` exposes exactly each `q`, from the same source, whose `p` is exposed. |
| `OverlayBarrels.BarrelStaysAcyclic` | e2e/support/overlayInventory.ts:402-419 | A barrel nothing referred to before closes no cycle that the file's imports could reach. |
| `OverlayBarrels.BarrelsDoNotMatter` | e2e/support/overlayInventory.ts:444-593 | Where the file's imports reach no cycle, putting a barrel in front of an import yields the very same sites: one that re-exports everything, before an import of any form, namespaces too, or one that renames each name imported, the default among them. |
| `Base32.Base32Decode` | e2e/support/adminApi.ts:177-194 | For every input text: exactly floor(5n/8) octets over its n alphabet characters, spelling the leading bits of their bit string (section 6 of RFC 4648), although the 32-bit buffer is never masked; whatever upper-casing does outside ASCII. |
| `Radix.BufferHolds` | e2e/support/adminApi.ts:186-190 | Bits still to be written survive any amount of wrap-around of the 32-bit buffer. |
| `Base32.PendingOctet` | e2e/support/adminApi.ts:188-191 | Giving an octet out of the wrapped buffer keeps the invariant between digits read, octets written and bits left. |
| `Base32.DecodingIsUnique` | e2e/support/adminApi.ts:177-194 | The octets are determined by the digits: no other sequence meets the decoder's contract. |
| `Base32.DigitIsPlace` | e2e/support/adminApi.ts:178-185 | A character has a digit exactly when it is in the alphabet, and the digit is its place there. |
| `Base32.KnownVector` | e2e/support/adminApi.ts:177-194 | The vector of section 10 of RFC 4648 for "fooba" holds. |
| `Base32.PaddingHasNoDigits` | e2e/support/adminApi.ts:179-185 | Stripping trailing padding never changes the digits read. |
| `Base32.Base32Encode` | apps/api/src/services/auth/totp.ts:22-38 | The API's encoder spells the bytes' bit string, filled with zero bits to a whole digit, although its buffer wraps too. |
| `Base32.WriteGroups` | apps/api/src/services/auth/totp.ts:29-32 | The inner loop writes every full group and leaves fewer than five bits buffered. |
| `Base32.DecodingInvertsEncoding` | apps/api/src/services/auth/totp.ts:22-57 | Whatever text spells the encoder's digits decodes to the bytes encoded. |
| `Base32.RoundTrip` | apps/api/src/services/auth/totp.ts:22-57 | Decoding the encoder's text, with any letters in lower case and any amount of padding, returns the bytes, for every byte string. |
| `TotpCursor.Harness.FreshCode` | e2e/support/adminApi.ts:143-165 | A call fails, writing nothing, exactly when the cursor is more than one step ahead; else its step is past the cursor, is reserved, and the wait asked for is none when the current step is past the cursor, else to 100 ms into the step after the cursor, at most 60.1 s. |
| `TotpCursor.Harness.ReadStep` | e2e/support/adminApi.ts:115-124 | The in-process mirror wins; it is primed once from the file, where only non-negative safe integers count. |
| `TotpCursor.OnlySafeIntegersCount` | e2e/support/adminApi.ts:118-119 | A cursor file counts exactly when it holds an integer from 0 to 2^53 - 1. |
| `TotpCursor.Harness.PersistStep` | e2e/support/adminApi.ts:126-134 | The mirror always moves, the file only if it can be written. |
| `TotpCursor.StepsAreNeverReused` | e2e/support/adminApi.ts:138-165 | In every run that forgets no reservation, reserved and minted steps strictly increase, so no step is used twice. |
| `TotpCursor.DurableRunsNeverReuse` | e2e/support/adminApi.ts:115-165 | With successful writes that holds for every initial file, every clock, and crashes before or after the reservation and restarts anywhere. |
| `TotpCursor.RestartIsSafeExactlyWhenRecorded` | e2e/support/adminApi.ts:115-134 | After a restart every run that forgets nothing keeps reservations increasing if and only if the file holds the last reserved step or a later one. |
| `TotpCursor.LostWriteRepeatsAStep` | e2e/support/adminApi.ts:131-133 | A worker that cannot write the cursor and is restarted mints the same step twice. |
| `TotpCursor.CounterIsTheReservedStep` | e2e/support/adminApi.ts:136-203 | The counter and the step derived from one reading of the clock are the same, under the rounding of doubles, up to about the year 73,000. |
| `TotpCursor.CounterBytes` | e2e/support/adminApi.ts:203-206 | The eight bytes hashed are that step, big-endian (section 4.2 of RFC 6238). |
| `AdminSignIn.InvariantHolds` | e2e/support/adminApi.ts:219-335 | Every request, lost reply, file write, crash and start keeps: a factor this harness confirmed is the server's, with its secret on disk if the last write succeeded; codes are for remembered secrets and the step reserved last; no cursor is more than one step, and no code and no step taken for our factor at all, ahead of the clock; a session is assured exactly when the sign-in has returned. |
| `AdminSignIn.NeverTooFarAhead` | e2e/support/adminApi.ts:147-157 | With one clock that never goes back, the cursor is never too far ahead when a code is minted. |
| `AdminSignIn.SentInTime` | e2e/support/adminApi.ts:222-265 | A code sent within a time step of its minting lies in the window the server accepts. |
| `AdminSignIn.ConfirmedSecretsAreOnDisk` | e2e/support/adminApi.ts:293-303 | In every reachable state, from any server, a factor this harness confirmed is the server's, and its secret is in the file unless the last write of it failed; a normal return means an assured session. |
| `AdminSignIn.RefusedFails` | e2e/support/adminApi.ts:226-302 | From every state that sends a request, a refusal leaves server and session as they were and fails the sign-in. |
| `AdminSignIn.LostFails` | e2e/support/adminApi.ts:222-302 | So does a reply that gets lost, whatever the server did. |
| `AdminSignIn.OnlyVerificationReturns` | e2e/support/adminApi.ts:245-267 | The only event that returns is a verification answered by success, of a code for the confirmed secret, within a step of the clock and past every step taken. |
| `AdminSignIn.ReturnedByVerification` | e2e/support/adminApi.ts:219-335 | So every run that has returned has such a verification, and no crash or start since. |
| `AdminSignIn.OnlyConfirmationArms` | e2e/support/adminApi.ts:293-303 | The only event that changes the confirmed factor is a confirmation of the pending secret, with a code within a step of the clock. |
| `AdminSignIn.SecondEnrolmentFails` | e2e/support/adminApi.ts:326-334 | A second enrolment is not followed by a third attempt. |
| `AdminSignIn.AtMostTwoAttempts` | e2e/support/adminApi.ts:325-334 | No run makes more than two attempts in one sign-in. |
| `AdminSignIn.ChallengeSucceedsExactlyWhen` | e2e/support/adminApi.ts:233-267 | With the confirmed secret known, in memory or on file, one attempt on a healthy stack ends assured if and only if the step of its second code is not used up by somebody; else it fails. |
| `AdminSignIn.ChallengeSucceeds` | e2e/support/adminApi.ts:249-262 | So it does whenever the server has taken no step ahead of the clock. |
| `AdminSignIn.StepAheadIsUsedUp` | e2e/support/adminApi.ts:251-264 | A person's code of the next step, which the API takes, can use up both codes, and the sign-in fails. |
| `AdminSignIn.EnrolmentSucceeds` | e2e/support/adminApi.ts:272-303 | A first attempt on a healthy stack arms the server with the generated secret, remembered and on file if that can be written, and goes to the second attempt. |
| `AdminSignIn.WrongSecretNeverSucceeds` | e2e/support/adminApi.ts:233-265 | With a confirmed factor whose secret is neither in memory nor on file, no sign-in ever returns, whatever replies, crashes and restarts there are. |
| `AdminSignIn.WrongSecretFails` | e2e/support/adminApi.ts:233-265 | On a healthy stack it fails within one attempt, also after its one retry. |
| `AdminSignIn.RestartRecoversExactlyWhen` | e2e/support/adminApi.ts:325-335 | After any history, a fresh worker on a healthy stack ends assured within two attempts if and only if no factor is confirmed, or the file holds the confirmed secret and the step of the second code is not used up by somebody. |
| `AdminSignIn.FreshServersHaveOnlyOurFactor` | e2e/support/adminApi.ts:287-303 | Starting from a server without a factor, the confirmed factor is always one this harness confirmed. |
| `AdminSignIn.AnyCrashIsRecoverable` | e2e/support/adminApi.ts:315-335 | From a fresh server, with writes of the secret that succeed, after any number of crashes and lost replies anywhere, a new worker on a healthy stack signs in. |
| `AdminSignIn.LostSecretLocksOut` | e2e/support/adminApi.ts:105-113 | A worker that cannot write the secret still signs in on a fresh stack, but once it dies no sign-in ever returns, whatever happens. |
| `SingleFlight.InvariantAlways` | e2e/support/adminApi.ts:360-371 | Every interleaving of calls, completions, handlers and resumptions keeps the cache the newest attempt and never a failed one. |
| `SingleFlight.AtMostOneInFlight` | e2e/support/adminApi.ts:363-369 | At most one sign-in is in flight, and a caller arriving meanwhile joins it. |
| `SingleFlight.FailureClearsOnlyItself` | e2e/support/adminApi.ts:364-367 | When a failure's handler runs, the cache holds that very attempt, the newest; the next caller starts a new one. |
| `SingleFlight.CallersShareTheOutcome` | e2e/support/adminApi.ts:369-370 | All callers that joined one attempt get one outcome. |
| `SingleFlight.SuccessIsKept` | e2e/support/adminApi.ts:363-370 | After a success no further sign-in ever starts. |
| `SingleFlight.AttemptsEndAsTheySay` | e2e/support/adminApi.ts:364-367 | In every run an attempt has succeeded exactly when its sign-in ended well, and failed exactly when it ended badly. |
| `SingleFlight.CallersGetWhatHappened` | e2e/support/adminApi.ts:369-370 | A caller has a session only from a sign-in that ended well, and an error only from one that ended badly. |
| `DemoProjection.BuildProjectionSeries` | apps/redesign-demo/src/App.tsx:623-636 | The loop yields the recurrence's value for every month from 0 on. |
| `DemoProjection.CompoundInterest` | apps/redesign-demo/src/App.tsx:631-633 | Without the wave the series is, in closed form, compound interest at a twelfth of the rate with a contribution every month. |
| `DemoProjection.WaveMovesAMonth` | apps/redesign-demo/src/App.tsx:632-633 | The wave adds its height times 0.0007 of the month before. |
| `DemoProjection.SeriesInOrder` | apps/redesign-demo/src/App.tsx:630-634 | A higher non-negative rate never gives a lower value in any month, despite the shared oscillating term. |
| `DemoProjection.BandContainsScenario` | apps/redesign-demo/src/App.tsx:1071-1078 | From half a percent on, the scenario lies between the low and the high series in every month. |
| `DemoProjection.BandIsWide` | apps/redesign-demo/src/App.tsx:1072-1078 | From three and a half percent on, the band spans five and a half percent a year. |
| `DemoProjection.BandHoldsExactlyFromHalfAPercent` | apps/redesign-demo/src/App.tsx:1072-1078 | The scenario lies in its band in every month if and only if the rate is at least half a percent, or start and contribution are both 0. |
| `DemoWealth.ScopesCountEntriesByName` | apps/redesign-demo/src/App.tsx:8652-8699 | The portfolios' changes add up to every entry counted once per scope of the name it is booked to. |
| `DemoWealth.WealthIsConserved` | apps/redesign-demo/src/App.tsx:8652-8699 | With every entry booked to exactly one scope, the total's change is the sum of the portfolios' changes. |
| `DemoWealth.ConservedExactlyWhenNamedOnce` | apps/redesign-demo/src/App.tsx:8661-8985 | From any conserved state, a cash flow of any amount, new or replacing one by id, keeps conservation if and only if exactly one scope goes by its portfolio's name. |
| `DemoWealth.AllScopeShowsTotal` | apps/redesign-demo/src/App.tsx:8665-8679 | The scope for all wealth changes by the total of all trades and cash flows. |
| `DemoWealth.TradeIsCashAndValue` | apps/redesign-demo/src/App.tsx:8653-8668 | From any state, a trade changes its portfolio and all wealth by the cash and the value it moves; a buy costs its gross and its fees. |
| `DemoWealth.FlowIsCash` | apps/redesign-demo/src/App.tsx:8661-8669 | A cash flow under a new id changes them by the cash it moves. |
| `DemoWealth.LaterFlowReplaces` | apps/redesign-demo/src/App.tsx:8985 | One under an id that was there takes the place of the earlier one. |
| `DemoWealth.AlwaysConserved` | apps/redesign-demo/src/App.tsx:8866-9030 | After any sequence of trades, cash flows (new or replacing one by id) and new portfolios under fresh names, conservation holds. |
| `DemoStructure.StaysForest` | apps/redesign-demo/src/App.tsx:9027-9093 | A new portfolio, whatever its id, name and parent, keeps ids unique, every node with at most one parent and below a top, and the tops without a parent. |
| `DemoStructure.AlwaysForest` | apps/redesign-demo/src/App.tsx:9027-9093 | So does any sequence of new portfolios. |
| `DemoStructure.AlwaysTree` | apps/redesign-demo/src/App.tsx:9027-9093 | A tree below the root stays one under any sequence of new portfolios, whatever their ids, names and parents. |
| `DemoStructure.NewPortfolioIsBelowItsParent` | apps/redesign-demo/src/App.tsx:9031-9068 | A new portfolio is below exactly what the node found as its parent is below. |
| `DemoStructure.HangsBelowItsParent` | apps/redesign-demo/src/App.tsx:9031-9078 | A new portfolio is a node below the first node by its parent's name, or below the root if there is none, with an edge of either kind. |
| `DemoStructure.BelowNeverChanges` | apps/redesign-demo/src/App.tsx:9059-9068 | No sequence of new portfolios changes what is below what among the nodes there are. |
| `DemoStructure.AllBelowRootExactlyWhenInside` | apps/redesign-demo/src/App.tsx:9027-9093 | With owners beside the root that nothing contains, everything else stays below the root over a sequence if and only if no new portfolio is put right below an owner. |
| `DemoStructure.RepeatingChangesNothing` | apps/redesign-demo/src/App.tsx:9030 | Completing a portfolio under an id that exists changes neither nodes nor edges. |
| `DemoStructure.EveryOtherNodeHasAParent` | apps/redesign-demo/src/App.tsx:9059-9068 | In a forest every node but the tops has exactly one parent. |
| `DemoStructure.ForestsHaveNoCycle` | apps/redesign-demo/src/App.tsx:9059-9068 | In a forest no chain of containment returns to its start. |
| `DemoHoldings.Adjust` | apps/redesign-demo/src/App.tsx:2265-2289 | The in-place loops yield the replay of the trades, oldest first, with every allocation shown; symbols stay unique, values non-negative, and shown allocations of a positive total sum to 100 within 0.005 for each row. |
| `DemoHoldings.ReplayKeepsRowsSound` | apps/redesign-demo/src/App.tsx:2266-2285 | Any trades keep symbols unique and values non-negative under the clamp. |
| `DemoHoldings.ReplayIsPerSymbol` | apps/redesign-demo/src/App.tsx:2269-2284 | The value of a symbol is its own trades replayed alone: other symbols never interfere. |
| `DemoHoldings.OldestFirst` | apps/redesign-demo/src/App.tsx:2266-2268 | Trades are replayed from the last in the list to the first. |
| `DemoHoldings.TradesMoveTheirSymbol` | apps/redesign-demo/src/App.tsx:2269-2284 | A buy raises its symbol by its gross, from nothing if it is new; a sale lowers it, to nothing at most; no other symbol moves. |
| `DemoHoldings.ToFixed2IsNearest` | apps/redesign-demo/src/App.tsx:2288 | The shown share is a hundredth no more than half a hundredth away. |
| `DemoHoldings.AllocationsSumToHundred` | apps/redesign-demo/src/App.tsx:2286-2289 | With a positive total the shown allocations of n rows sum to 100 within 0.005 n. |

## Left out

- pino's wiring, `LOG_REDACTION`, the error serializer and child loggers: library behaviour not in the repository.
- Getters whose value changes between reads, and `toJSON` functions that make new objects without end: the model is of finite graphs whose reads repeat.
- Proxies, and `Object.prototype` or `Array.prototype` with a `toJSON` or a tag added to it.
- Named properties of arrays, and the prototype of an array that is rebuilt: the tree follows the edges the walk follows.
- A stack overflow on a very long chain of `toJSON` redirections.
- Hidden (non-enumerable) properties of a rebuilt Error are copied unwalked, as in the source; the cleanliness claims are about walked edges.
- LogWalk.Walker.WalkRecord: the objects and arrays being built are sequences until they are finished, and are allocated then; no one else can see them earlier.
- The TypeScript parser, the regular expression engine, file listing, and the descriptions and line numbers of sites: the model starts at the syntax tree, and a site is its position and kind.
- OverlayResolver.MemoIsExact: says nothing of a module that reaches an import cycle, for which only soundness holds (`OverlayResolver.MemoIsSound`) and a counterexample to exactness is given.
- OverlayAliases.AliasesMatterOnlyInMarkup: states the positions of sites, not their descriptions, which quote the local name; what the two regular expressions match is not modelled.
- White space and comments inside a callee or a tag name.
- `overlayRegistrationProblems`, registry comparison and `surfaceSourcesUnder`: list bookkeeping on top of the discovery.
- HMAC-SHA1, digest truncation and the six digits: the code is a function of the secret and the counter bytes.
- HTTP, the wait after a 429, cookies and storage state: a request succeeds, is refused, or loses its reply.
- Upper-casing that depends on neighbouring characters, in the base32 decoder.
- AdminSignIn.NeverTooFarAhead: worker and API read one clock, as on one machine; a skew between the two, and the expiry of a pending challenge during a wait, are not modelled.
- Other parties changing the admin's factors, and several workers at once: the source rules both out for a shard.
- Floating-point rounding in the demo app: amounts are reals, and `toFixed(2)` rounds a tie upward.
- Rendering, chart geometry, local storage, notifications, available cash, and the structure's audit entries and ownership shares.
- The demo app's seed data: trees and scopes are arbitrary, with owner nodes as a set outside the tree.
