# FireDash: verified models of its shared-state components

FireDash administers fire departments: file libraries, document publications for tablets, imports of reference data,
outbound mail and administrator accounts. This project models the parts of it whose correctness depends on more than one
function at a time, as Dafny datatypes, functions, classes and state machines, and proves what they keep over all inputs,
runs and interleavings. `dafny verify dfyconfig.toml` checks everything.

A database transaction is one step that commits entirely or changes nothing. Clocks, random values and fresh identities are
parameters. Cryptographic primitives are records of functions with stated laws. A method of a class is proved equal to a
specification function, and the theorems are about those functions. What such a function means is in turn stated without it:
which inputs it accepts and what it leaves in which field, told from the tables alone.

| area | modules |
|---|---|
| File library: tree, sizes, quotas, pinning, collection | `LibraryTree`, `FileLibrary`, `FileLibraryInvariant`, `LibraryWalks`, `LibraryService`, `LibraryPublication`, `LibraryRuns`, `LibraryMeaning` |
| Change detection of published libraries | `SourceFingerprint` |
| One-shot station access | `TemporaryAccess` |
| Shared encrypted artifacts and their garbage collection | `DocumentArtifacts`, `ArtifactRuns` |
| Document generations, manifests, validation | `DocumentSources`, `DocumentGeneration`, `DocumentManifest` |
| Document import: packages, preview, review, apply, files | `PackageIdentity`, `DocumentImport`, `DocumentReview`, `DocumentVisitors`, `DocumentApply`, `DocumentBatch`, `DocumentFiles` |
| Hydrant and phonebook import | `HydrantImport`, `PhonebookImport` |
| At-most-once report delivery | `ReportDelivery` |
| Secret envelopes and key rotation | `Base64`, `SecretEnvelope`, `SecretRotation` |
| Administrator lifecycle | `AdminLifecycle` |

## What turned out not to hold

- Decoding undoes encoding of unpadded base64url for every byte string except the empty one, which the decoder refuses
  (`Base64.DecodeUndoesEncode`). Envelopes are not affected, since a nonce and a ciphertext are never empty.
- A document import that fails changes no document, but it may have moved sanitised PDFs, because a promoted file is moved
  and not put back. `DocumentFiles.FailureLeavesFiles` gives the exact condition. A replaced KLGV plan is then left with the
  new PDF under its name while its row still has the old digest, so that later builds refuse it;
  `DocumentFiles.FailureKeepsMatchIff` says exactly when. `DocumentFiles.RetryExactly` says when such a batch can still be
  applied: every row whose PDF was moved has to be a replacement that is now skipped. `DocumentFiles.ReplacedThenUndecided`
  shows all three on one family of inputs.
- A batch whose baseline still holds may nevertheless ask for a PDF that was never staged: which contents need no staging is
  decided before the baseline is read, and the two reads are not one transaction.
  `DocumentBatch.ApprovedBatchAppliesIffReuseHeld` gives the exact condition, and `DocumentBatch.EditBreaksReuse` the failing
  apply for every edit that replaces a plan's content in between.
- Completing coordinates previews against the live table. A document that has the key of a row only at that moment can show
  in the counts, although the baseline still holds afterwards (`DocumentVisitors.VisitorMisleads`). The counts and the review
  list are bound to be those of the documents met when applying exactly when every document that had a row's key at that
  moment gives the row the same proposal and, for an update, is the document found now (`DocumentVisitors.PreviewAgreesIff`).
- Preview and apply look documents up through dictionaries filled by unordered queries. They are bound to agree exactly
  where no two documents share the key (`DocumentImport.FindAgreesIffUnique`). Given that identifiers and addresses are
  trimmed before they are saved, the uniqueness constraints of the database ensure that for fire plans
  (`DocumentImport.FirePlanKeysUnique`) and for KLGV plans with an identifier, but not for two KLGV plans of one name and
  address (`DocumentImport.KlgvExternalKeysUnique`).
- A KLGV package may hold several deactivations that name no external identifier. The package check tells them apart, but
  their names are blanked on the way in, so they become one import identity and match no plan
  (`PackageIdentity.NamedDeactivationsCollide`, `PackageIdentity.NamelessNeverMatches`); apart from that, package identities
  carry over (`PackageIdentity.PackageKeysDistinct`).
- With no live credential the rotation status allows retiring the active key version, and the key ring left over is refused
  (`SecretRotation.ActiveVersionMayLookRetirable`).

Where code and comments differ, the model follows the code. Approving all updates also overrides earlier skips, although it
is described as approving pending ones. Completing coordinates keeps the decisions of all updates still proposed, although a
comment speaks of invalidating decisions on a changed diff. A batch whose apply fails stays ready for another attempt,
because the write that would mark it failed is rolled back with the rest. A grant that runs out between the check of an
elevated deletion and its commit is recorded as expired, but it is revoked all the same.

## Model

| member | source | states |
|---|---|---|
| `LibraryTree.Acyclic` | apps/file_library/services.py:336-361 | in a forest no entry is its own proper ancestor |
| `LibraryTree.SubtreeIsCascade` | apps/file_library/services.py:436-451 | an entry's subtree is the least set containing it and closed under children, which is what the database cascade removes |
| `LibraryTree.AddKeepsForest` | apps/file_library/services.py:401-411 | a leaf hung at a place of its own library that is shallow enough keeps closure and depth bound |
| `LibraryTree.MoveKeepsForest` | apps/file_library/services.py:336-361 | a subtree moved out of itself to a place where all its levels fit keeps the forest |
| `LibraryTree.RemoveKeepsForest` | apps/file_library/services.py:436-469 | removing a whole subtree keeps the forest |
| `LibraryWalks.FolderAncestry` | apps/file_library/services.py:318-333 | navigation terminates, succeeds for every folder of the library with exactly its ancestors root first, and otherwise reports unavailable |
| `LibraryWalks.ClimbNeverRepeats` | apps/file_library/services.py:322-331 | the defensive cycle and depth test of the climb never fires on a forest |
| `LibraryWalks.SubtreeHeight` | apps/file_library/services.py:349-361 | the frontier loop returns the number of folder levels below an entry |
| `LibraryWalks.HeightDecidesFit` | apps/file_library/services.py:349-361 | that height decides whether the whole subtree fits below a given depth |
| `LibraryWalks.ClimbToRoot` | apps/file_library/services.py:341-349 | the depth loop fails exactly when the target lies below the moved entry, and otherwise returns the depth |
| `LibraryWalks.ValidateLocation` | apps/file_library/services.py:336-361 | duplicate, cycle and depth checks together decide a location |
| `LibraryWalks.CollectSubtree` | apps/file_library/services.py:440-449 | the breadth-first loop collects exactly the subtree |
| `LibraryWalks.SumSizes` | apps/file_library/services.py:449-453 | the deleted bytes are the sizes of the collected documents |
| `LibraryService.LibraryDatabase.CreateFolderEntry` | apps/file_library/services.py:401-411 | new state or refusal as specified; a refusal changes nothing |
| `LibraryService.LibraryDatabase.EditEntry` | apps/file_library/services.py:414-433 | rename and move as specified; a refusal changes nothing |
| `LibraryService.LibraryDatabase.DeleteEntry` | apps/file_library/services.py:436-469 | removes exactly the subtree and its bytes from the counter |
| `LibraryService.LibraryDatabase.UploadPdf` | apps/file_library/services.py:498-542 | the loops and updates come to the upload that `LibraryMeaning.UploadExactly` describes; a refusal changes nothing |
| `LibraryService.LibraryDatabase.ReplacePdf` | apps/file_library/services.py:498-542 | the same for the replacement that `LibraryMeaning.ReplaceExactly` describes |
| `LibraryService.LibraryDatabase.FitsQuota` | apps/file_library/services.py:510-513 | usage passes exactly if it does not rise, or stays within what the policy table permits the library: a station its department's station bytes, a department its department bytes, the defaults without a policy row |
| `LibraryService.LibraryDatabase.CollectContent` | apps/file_library/services.py:628-642 | a content row goes exactly when no entry and no publication refers to it |
| `LibraryService.LibraryDatabase.ReconcileOrphans` | apps/file_library/reconciliation.py:23-69 | removes exactly the old files without a content row; a dry run only counts them |
| `LibraryService.LibraryDatabase.PinSource` | apps/file_library/publication.py:99-107 | one pin per snapshot document, or nothing if a content row is missing |
| `LibraryService.LibraryDatabase.ReadFrozen` | apps/file_library/publication.py:113-160 | the frozen documents, or the error of the first failing check |
| `FileLibraryInvariant.CreateFolderKeepsValid` | apps/file_library/services.py:401-411 | keeps forest, distinct and trimmed names, exact usage and stored files |
| `FileLibraryInvariant.EditKeepsValid` | apps/file_library/services.py:414-433 | the same for rename and move |
| `FileLibraryInvariant.DeleteKeepsValid` | apps/file_library/services.py:436-469 | the same for recursive deletion |
| `FileLibraryInvariant.UploadKeepsValid` | apps/file_library/services.py:498-542 | the same for uploads |
| `FileLibraryInvariant.ReplaceKeepsValid` | apps/file_library/services.py:498-542 | the same for replacements |
| `FileLibraryInvariant.CollectKeepsValid` | apps/file_library/services.py:628-642 | the same for content collection |
| `LibraryMeaning.AddAllowedIff` | apps/file_library/services.py:336-361 | a new entry is let in exactly when the entries with it are still a forest of that depth whose siblings have different names under both case foldings |
| `LibraryMeaning.EditAllowedIff` | apps/file_library/services.py:336-361 | a renamed or moved entry is let through exactly when the entries are still such a forest: no move is refused that the tree could bear |
| `LibraryMeaning.NameIff` | apps/file_library/services.py:290-301 | which names are accepted, and that they are stored trimmed |
| `LibraryMeaning.CreateFolderExactly` | apps/file_library/services.py:401-411 | a folder is created exactly if the library is there, the name is good, the identity new and the entries stay a tree; one entry and the revision change |
| `LibraryMeaning.EditExactly` | apps/file_library/services.py:414-433 | rename and move succeed exactly if the name is good and the entries stay a tree; an edit that changes nothing leaves the revision alone |
| `LibraryMeaning.UploadExactly` | apps/file_library/services.py:498-542 | an upload succeeds exactly if moreover its bytes are not too many and the policy table permits the usage; the content row has the given size and digest |
| `LibraryMeaning.ReplaceExactly` | apps/file_library/services.py:498-542 | the same for a replacement, which is asked only for what it adds |
| `LibraryMeaning.DeleteExactly` | apps/file_library/services.py:436-469 | a deletion takes exactly the entries whose parents lead to the one deleted, and the usage is the sum of what is left |
| `LibraryMeaning.RenameExactly` | apps/file_library/services.py:391-398 | a library is renamed exactly if the name is good, with a new revision exactly if the name is another one |
| `LibraryMeaning.QuotasExactly` | apps/file_library/services.py:564-599 | setting quotas succeeds exactly within bounds, and from then on the policy permits exactly the values given, and to every other department what it did |
| `LibraryMeaning.CollectExactly` | apps/file_library/services.py:628-642 | collection takes exactly a row that no entry and no pin names, and its removal exactly its file |
| `LibraryMeaning.ReconcileExactly` | apps/file_library/reconciliation.py:23-69 | reconciling keeps a file exactly if a row of its library owns it or it is not older than the cut-off |
| `LibraryMeaning.RevisionTracksChange` | apps/file_library/services.py:364-366 | over any run the revision never falls, and as long as it stays the snapshot is the same |
| `LibraryMeaning.OneLibraryPerScope` | apps/file_library/services.py:250-264 | in every reachable state a station or department has at most one library; opening a scope makes it exactly one, empty and at revision zero |
| `LibraryRuns.ReachableLibrariesAreForests` | apps/file_library/services.py:318-542 | in every reachable state parents are folders of the same library, nothing is its own ancestor, folders lie at most five deep and documents under at most five, sibling names differ ignoring case, usage is the sum of document sizes, and every document has its row and every row its file |
| `LibraryRuns.StepUsage` | apps/file_library/services.py:510-513 | only an upload or replacement raises a library's usage, and only to what the policy table permits it, told from the table's rows and the defaults |
| `LibraryRuns.UsageNeverAboveEveryQuota` | apps/file_library/services.py:510-599 | from the empty store usage never exceeds a bound that the policy table has at no moment exceeded |
| `LibraryRuns.OverQuotaOnlyShrinks` | apps/file_library/services.py:510-513 | a library that uses more than the policy table permits never grows |
| `LibraryPublication.CurrentSnapshotPins` | apps/file_library/publication.py:47-107 | a snapshot of the current source always pins |
| `LibraryPublication.PinHolds` | apps/file_library/publication.py:99-107 | pinning holds every content row of the snapshot |
| `LibraryPublication.ThawedAreDistinct` | apps/file_library/publication.py:113-160 | reading back succeeds only with pairwise distinct documents |
| `LibraryRuns.PinnedSourceSurvives` | apps/file_library/publication.py:99-160 | after pinning, any run of edits, replacements, deletes, collections and reconciliations without that publication's release reads back exactly the snapshot's documents, their files present |
| `LibraryMeaning.PinnedDocumentsReadBack` | apps/file_library/publication.py:99-160 | told from the store at the time of the pin: every document of the library, once and in order, with its name, folder, size, digest and storage key of then |
| `LibraryMeaning.PinExactly` | apps/file_library/publication.py:99-107 | pinning succeeds exactly if every document of the snapshot has its content row in that library; the publication then pins exactly those documents, and nobody else's pins change |
| `LibraryMeaning.ReadsExactly` | apps/file_library/publication.py:113-160 | a frozen source is read exactly if its ids are distinct, the pins are exactly of those ids, and each pinned row still has the recorded library, size and digest |
| `LibraryMeaning.ReleaseExactly` | apps/file_library/publication.py:99-107 | dropping a publication's pins and snapshot touches nobody else's |
| `SourceFingerprint.NormaliseIsCanonical` | apps/publications/builders.py:42-61 | two well-formed snapshots normalise equally exactly when library and folders agree and each document of either is in the other with the same id, name, folder, size and digest |
| `SourceFingerprint.FingerprintTracksAppearance` | apps/file_library/publication.py:47-84 | a library's fingerprint input stays the same exactly when the stores agree on its row, on which entries it has, on their names and parents, and on size and digest of each document's content row |
| `SourceFingerprint.ReplacementSeenIff` | apps/publications/builders.py:42-61 | a replacement leaves the fingerprint input alone exactly if size and digest are the old ones: other bytes always show |
| `SourceFingerprint.RevertedEditIsInvisible` | apps/publications/builders.py:42-61 | in every valid library an edit and its reverse leave the fingerprint input unchanged, whatever the revision |
| `SourceFingerprint.CurrentExactlyWhenAlike` | apps/publications/builders.py:84-93 | with an injective digest a publication counts as current exactly when the stores agree, in that sense, on the library |
| `TemporaryAccess.ReachableGrants` | apps/file_library/services.py:119-245 | over any run a user has at most one unrevoked grant, each grant spans six hours, and elevated deletions never exceed activations |
| `TemporaryAccess.ElevatedSpendsItsGrant` | apps/file_library/services.py:436-469 | an elevated deletion uses a live grant of that user and station that no deletion used before, and leaves it revoked |
| `TemporaryAccess.DepartmentChangeEndsGrants` | apps/file_library/services.py:364-387 | after its holder changed a department library no grant is live |
| `TemporaryAccess.DeletionIsGranted` | apps/file_library/services.py:64-81 | who may delete: with standing authority anyone, without it exactly the holder of a grant in force for that very station, nobody else |
| `TemporaryAccess.ActivationMeans` | apps/file_library/services.py:142-191 | activation succeeds exactly for an active station of a department the user administers; a grant in force for it is kept, otherwise one of six hours is added and an earlier one revoked |
| `TemporaryAccess.SweepMeans` | apps/file_library/services.py:120-139 | exactly the user's unrevoked grant that is not in force is revoked, as expired or for lost authority |
| `TemporaryAccess.RevokeMeans` | apps/file_library/services.py:194-207 | a grant in force goes for the reason given, any other for its own |
| `TemporaryAccess.DeletionSpendsGrants` | apps/file_library/services.py:436-469 | what a deletion request makes of the user's grant, case by case and with its reason, over its three clock readings |
| `TemporaryAccess.ChangeSpendsGrants` | apps/file_library/services.py:364-387 | the same for any other change of a library |
| `TemporaryAccess.AccessService.ActiveAccess` | apps/file_library/services.py:120-139 | returns the usable grant and revokes unusable ones on the way |
| `TemporaryAccess.AccessService.ActivateAccess` | apps/file_library/services.py:142-191 | activation as specified; afterwards the user holds exactly one grant, for that station |
| `TemporaryAccess.AccessService.RevokeForDepartment` | apps/file_library/services.py:223-232 | revokes exactly the department's live grants and counts them |
| `TemporaryAccess.AccessService.DeleteEntry` | apps/file_library/services.py:436-469 | the deletion's effect on grants, keeping the invariant |
| `DocumentArtifacts.ReleaseIsExact` | apps/publications/document_artifacts.py:52-92 | a release deletes and queues exactly the artifacts no other publication references, and touches nobody else's references |
| `DocumentArtifacts.ArtifactStore.Release` | apps/publications/document_artifacts.py:52-92 | terminal publications only; the release as specified, returning the number queued |
| `DocumentArtifacts.ArtifactStore.Process` | apps/publications/document_artifacts.py:95-118 | a queued removal is settled exactly when it has no row and unlinking works |
| `DocumentArtifacts.ArtifactStore.RetryQueue` | apps/publications/document_artifacts.py:121-134 | for any listing, however stale, exactly the settleable records are settled |
| `DocumentArtifacts.ArtifactStore.SweepOrphans` | apps/publications/document_artifacts.py:135-157 | exactly the stored unreferenced artifacts go, file included unless unlinking fails |
| `ArtifactRuns.StepKeepsInv` | apps/publications/document_v2.py:97-147 | every step of builds, races, commits, crashes, compensation, releases, retries and sweeps keeps the invariant; what the single steps do is stated by the rows below |
| `ArtifactRuns.AddedReference` | apps/publications/document_v2.py:97-147 | a step that adds a reference adds one, for a document of the publication's dataset that had none, to an intact artifact of precisely the content asked for, and changes nothing else |
| `ArtifactRuns.CommitIsExact` | apps/publications/document_v2.py:191-208 | committing leaves the publication with exactly the references the build held, to the same artifacts, and leaves all other references, rows and files as they were |
| `ArtifactRuns.StatusMovesOn` | apps/publications/services.py:722-734 | a publication is opened once, moves on from building only when nobody works on it, and can then not be built again |
| `ArtifactRuns.CommittedBuildSurvives` | apps/publications/services.py:722-734 | what a build referred to when it committed is stored, row and ciphertext, until that publication ends, whatever runs in between |
| `ArtifactRuns.DocumentIsInserted` | apps/publications/document_v2.py:111-147 | a build gets a document that nobody stored or is inserting by encrypting and inserting it |
| `ArtifactRuns.DocumentIsReused` | apps/publications/document_v2.py:101-113 | a build gets a stored document, not locked by another build, by reusing its artifact |
| `ArtifactRuns.PublishedDocumentSurvives` | apps/publications/document_v2.py:97-208 | from opening a publication to any later state: its document's reference leads to a row of exactly that content and to its ciphertext, short of its end |
| `ArtifactRuns.TerminateEnds` | apps/publications/document_artifacts.py:52-92 | a publication nobody works on can end: it is over, has no reference left, and an artifact goes exactly if it referred to it and no other publication does |
| `ArtifactRuns.TerminatedForever` | apps/publications/document_artifacts.py:52-92 | it stays over in every later state and never refers to anything again |
| `ArtifactRuns.RollbackIsClean` | apps/publications/services.py:776-804 | a build undone leaves the tables as they were and has its files queued by compensation |
| `ArtifactRuns.ReachableArtifacts` | apps/publications/document_artifacts.py:21-157 | in every reachable state referenced artifacts, committed or pending, have row and intact file; nothing queued has a row; ended publications have no references. That references get there is `ArtifactRuns.CommitIsExact` |
| `ArtifactRuns.ReferencedArtifactSurvives` | apps/publications/document_artifacts.py:52-157 | a reference keeps its artifact's row and ciphertext through any run until its own publication ends |
| `ArtifactRuns.NoFileForgotten` | apps/publications/services.py:776-788 | without crashes and with no build under way every file is either stored or queued, never both |
| `ArtifactRuns.QueueDrains` | apps/publications/document_artifacts.py:21-31 | a queued removal is never refused as unsafe: a working unlink settles it |
| `DocumentSources.FrozenAreDistinct` | apps/publications/document_dataset_adapters.py:31-122 | freezing succeeds exactly on snapshots of pairwise distinct identities whose entries are well formed, field by field, and match their sources, and yields those entries in order with metadata and accepted file |
| `DocumentGeneration.EncryptedIsWellMade` | apps/publications/artifacts.py:120-187 | a new artifact has every length, digest and algorithm that validation demands; its content key unwraps and opens the ciphertext to the bytes encrypted; it is signed without its signature |
| `DocumentGeneration.AddDocumentsSucceed` | apps/publications/document_v2.py:97-147 | a generation is built exactly when each document could be added on its own |
| `DocumentGeneration.BuiltIsComplete` | apps/publications/document_v2.py:150-208 | a successful build has one reference per frozen document and no other, each to a distinct, intact, well-made artifact of that content; nothing stored is altered |
| `DocumentGeneration.BuiltIsDelivered` | apps/publications/document_v2.py:150-208 | after a build each frozen document's accepted bytes are the ones frozen, and its reference leads to a ciphertext in its own place, as recorded, that its content key opens to bytes of the frozen digest; that stored ciphertext opens is itself kept |
| `DocumentGeneration.BuildDecides` | apps/publications/document_v2.py:150-208 | exactly when a build succeeds, told from the tables, the files and the accepted sources |
| `DocumentGeneration.RebuildIsIdle` | apps/publications/document_v2.py:172-190 | building a complete generation again changes nothing, whatever is drawn |
| `DocumentGeneration.BuildWorker.Build` | apps/publications/document_v2.py:150-208 | the build as specified; failure rolls back the tables and never touches stored artifacts' files |
| `DocumentManifest.ManifestSucceeds` | apps/publications/document_v2.py:211-307 | over a complete generation a first manifest is built exactly when credentials are in order and generation key and content keys unwrap |
| `DocumentManifest.ManifestDeliversKeys` | apps/publications/document_v2.py:249-276 | for every reference the manifest has one entry naming its artifact, whose wrapped key the stored generation key unwraps to the content key that the row protects; a new generation key is the random bytes drawn |
| `DocumentManifest.TabletReadsEveryDocument` | apps/publications/document_v2.py:150-307 | from accepted file to tablet: after build and manifest, the holder of the generation key reads each frozen document out of the manifest and the stored ciphertext, and gets bytes of the frozen digest |
| `DocumentManifest.StoredManifestStates` | apps/publications/document_v2.py:277-304 | the stored payload field by field, its entries in document order, the library part exactly for file datasets, and the signature over that very payload; a manifest there already is accepted only as that, and stays |
| `DocumentManifest.RebuildReturnsStored` | apps/publications/document_v2.py:293-307 | rebuilding returns the identical stored manifest for any new randomness, other artifacts and version labels |
| `DocumentManifest.ManifestWorker.BuildManifest` | apps/publications/document_v2.py:234-307 | the loop and the get-or-create come to the manifest that the rows above describe; an error changes nothing |
| `DocumentManifest.Validate` | apps/publications/document_v2.py:399-525 | accepts exactly the acceptable generations |
| `DocumentManifest.AcceptedIsVouched` | apps/publications/document_v2.py:426-525 | what acceptance guarantees, whoever built the generation: only the frozen documents are referenced, each leads to a whole artifact row of its content, and one manifest entry repeats that row and the frozen metadata, field by field |
| `DocumentManifest.BuiltGenerationIsAccepted` | apps/publications/document_v2.py:399-525 | a first manifest over a complete generation is accepted exactly when there is no companion artifact and no version label is empty |
| `DocumentManifest.BuildManifestValidate` | apps/publications/document_v2.py:150-525 | the same from a fresh publication through build, manifest and validation |
| `DocumentManifest.FreshPublicationGoesThrough` | apps/publications/services.py:722-734 | with sources, credentials and labels in order, build, manifest and validation all succeed |
| `Base64.WrappedKeyText` | apps/publications/document_v2.py:508-509 | forty bytes always encode to 54 base64 characters and two pads |
| `Base64.EncodeIsInjective` | apps/publications/document_v2.py:262-276 | padded base64 determines the bytes |
| `Base64.TestVectors` | apps/application_secrets/crypto.py:66-76 | the test vectors of section 10 of RFC 4648, and the two characters in which the alphabets differ |
| `PackageIdentity.ParsePackage` | apps/ingestion/pdf_packages.py:99-195 | a package is accepted exactly when every row is in order by itself, no two rows name one plan or bring one file, and every member is some row's file, all told from the manifest's cells; the entries read as the rows do, trimmed |
| `PackageIdentity.RefusalMeans` | apps/ingestion/pdf_packages.py:100-194 | each refusal of a row has its reason |
| `PackageIdentity.GathersExactlyClean` | apps/ingestion/pdf_packages.py:100-147 | the sets kept by the loop detect exactly the repetitions |
| `PackageIdentity.PackageKeysDistinct` | apps/ingestion/pdf_packages.py:107-121 | two rows of an accepted package share an import identity exactly when both are KLGV deactivations without an external identifier; fire-plan packages never collide |
| `PackageIdentity.NamedDeactivationsCollide` | apps/ingestion/pdf_packages.py:112-121 | two named KLGV deactivations are accepted and collide |
| `PackageIdentity.NamelessNeverMatches` | apps/ingestion/services.py:1711-1731 | such a row matches no named plan, whichever document a query lists last |
| `PackageIdentity.PackageIsApart` | apps/ingestion/services.py:2344-2365 | the rows staged for an accepted package, rejected ones left out, share an identity key only as deactivations that match no named plan |
| `DocumentImport.FindAgreesIffUnique` | apps/ingestion/services.py:2474-2478 | two dictionaries are bound to hold the same document for a key exactly when no two documents share the key |
| `DocumentImport.IdentityMeans` | apps/ingestion/services.py:1711-1731 | when row and document have one identity: by trimmed identifier if either has one, else by trimmed address, for KLGV plans with the name |
| `DocumentImport.FirePlanKeysUnique` | apps/reference_data/models.py:147-170 | trimmed on saving and constrained by the database, fire plans have unique identity keys |
| `DocumentImport.KlgvExternalKeysUnique` | apps/reference_data/models.py:203-216 | KLGV plans have unique keys by identifier; a key by name and address is unique exactly when no two plans without an identifier share it |
| `DocumentImport.PreviewDocuments` | apps/ingestion/services.py:1840-1871 | the preview loop computes the specified counts and review list |
| `DocumentImport.PreviewPartitions` | apps/ingestion/services.py:1840-1871 | every row is counted once and the review list has one entry per proposed update |
| `DocumentImport.PreviewCountsWhatFits` | apps/ingestion/services.py:1840-1871 | the counts are the numbers of rows that would add, amend, deactivate or change nothing, told from the document found; under review are exactly the documents to be amended |
| `DocumentImport.DecideFits` | apps/ingestion/services.py:2480-2512 | which verdict a row gets, told from the document found, the decision and the staged output |
| `DocumentImport.EffectKeepsKey` | apps/ingestion/services.py:2610-2676 | applying a row never changes the identity key of the document it matched |
| `DocumentImport.AppliedProposesNothing` | apps/ingestion/services.py:2779-2806 | once applied a row proposes nothing, unless its update was skipped |
| `DocumentReview.BaselineNames` | apps/ingestion/services.py:1776-1837 | an unchanged baseline finds the same documents in the version they had when it was taken, derived from edits that each stamp a new time |
| `DocumentReview.BaselineAgreesIff` | apps/ingestion/services.py:1776-1837 | two baselines are equal exactly when for every key the queries list documents of one time stamp, activity and digest, or none |
| `DocumentReview.StagedMeans` | apps/ingestion/services.py:2367-2382 | a row whose content the plan holds already is staged without an output, with the digest, size and page count of the plan's PDF; any other as offered |
| `DocumentReview.SeenAsNowIffNoVisitor` | apps/ingestion/services.py:2259-2263 | with the baseline unchanged, a look-up made in between is bound to find what apply finds exactly when no other document had the row's key at that moment |
| `DocumentReview.PreviewedAsNow` | apps/ingestion/services.py:1840-1871 | such a preview has the counts and the review list of the documents that apply meets |
| `DocumentVisitors.PreviewAgreesIff` | apps/ingestion/services.py:2259-2285 | counts and review list of a preview made in between are bound to be those of now exactly when every document that had a row's key then gives the row the same proposal and, for an update, is the document found now |
| `DocumentVisitors.VisitorMisleads` | apps/ingestion/services.py:2259-2285 | for every document and upsert row of one key: saved after the baseline and removed again, the document makes the counts previewed in between wrong although the baseline holds |
| `DocumentReview.SessionStaysExact` | apps/ingestion/services.py:1924-1994 | however reviews and edits interleave, the batch is the exact preview of its rows on the table it was last previewed on, and only updates proposed there carry decisions |
| `DocumentReview.ApproveAllDecides` | apps/ingestion/services.py:2114-2141 | approving everything leaves no update undecided |
| `DocumentReview.ApprovingAllIsExact` | apps/ingestion/services.py:2114-2141 | approving all decides exactly the documents under review, all by approval, and changes nothing else |
| `DocumentReview.DecisionIsStored` | apps/ingestion/services.py:1924-1994 | a decision is stored as given for exactly that document, if it is under review |
| `DocumentReview.CoordinatesAreStored` | apps/ingestion/services.py:2229-2300 | coordinates in range are stored in exactly their row, the batch is previewed again, and the decisions still asked for are kept; others change nothing |
| `DocumentReview.DecisionStands` | apps/ingestion/services.py:1924-2141 | whatever edits, other decisions and previews follow, a decision is still the one given, unless a new preview has dropped it |
| `DocumentReview.KeysThroughout` | apps/ingestion/services.py:2229-2300 | staging and completing coordinates change no row's identity or action |
| `DocumentApply.AppliesExactly` | apps/ingestion/services.py:2471-2560 | the loop succeeds exactly when every row would be granted on the state at its start; otherwise the first refusal is its error |
| `DocumentApply.FollowsPlan` | apps/ingestion/services.py:2471-2560 | row by row the loop deals with the documents found at its start, leaves all others alone, and creates documents only for rows; what a row leaves behind is `DocumentApply.AppliedFieldByField` |
| `DocumentApply.AppliedFieldByField` | apps/ingestion/services.py:2563-2676 | each document field by field: a fire plan takes over what the row fills in and keeps the rest, a KLGV plan reads as the row does; identifier and unlisted fields stay; a replacement sets digests, file, path and activity, a merge keeps them, a skip changes nothing; a created document reads as its row |
| `DocumentApply.AppliedTouchesOnlyRows` | apps/ingestion/services.py:2471-2560 | every other document is as it was, and none is there that was not before or created for a row |
| `DocumentBatch.AppliesIffDecided` | apps/ingestion/services.py:2471-2560 | with the staged outputs intact a batch applies exactly when every proposed update is decided and no row is asked for an output it was never given; its counts are then the preview's |
| `DocumentBatch.SuppliedIffReuseHolds` | apps/ingestion/services.py:2367-2382 | no decisions can make a row ask for an output it was never given exactly when every reused content is still the stored one |
| `DocumentBatch.ReuseSettledByBaseline` | apps/ingestion/services.py:1776-1837 | while the baseline holds, reuse holds now exactly if it held when the baseline was taken |
| `DocumentBatch.UneditedReuseHolds` | apps/ingestion/services.py:2346-2382 | with no edit between staging and the baseline and unique keys, reuse held there |
| `DocumentBatch.ReviewedBatchApplies` | apps/ingestion/services.py:1193-1254 | staged, previewed, reviewed among any edits and applied on an unchanged baseline, with the rows' keys unique then, reuse holding at the baseline, and every document that had a row's key at the last preview giving the row what it gets now: success exactly when all is decided, no PDF missed, and the counts the reviewer saw |
| `DocumentBatch.ApprovedBatchAppliesIffReuseHeld` | apps/ingestion/services.py:2503-2512 | under the same assumptions but for reuse, and with everything approved, the batch applies exactly when reuse held when the baseline was taken, and otherwise fails for a missing output |
| `DocumentBatch.EditBreaksReuse` | apps/ingestion/services.py:2367-2382 | for any edit that replaces a plan's content between staging and the baseline: the batch, approved at once and applied on the very documents of the baseline, fails for a missing output |
| `DocumentBatch.ApplyingIsAFixpoint` | apps/ingestion/services.py:2563-2676 | documents keep their keys, unique keys stay unique, and previewing the same rows again, by whatever query, proposes exactly the skipped updates |
| `DocumentBatch.AppliedTableServesNext` | apps/ingestion/services.py:2471-2560 | an applied batch is a series of stamped saves, so the table it leaves is one on which the next import can be staged, previewed and applied |
| `DocumentFiles.FailureLeavesFiles` | apps/reference_data/storage.py:56-77 | an apply that fails after any number of rows changes no document, and no file exactly when none of those rows created or replaced |
| `DocumentFiles.RetryExactly` | apps/ingestion/services.py:2485-2512 | after that the batch can be applied exactly when every row whose PDF was moved is a replacement now skipped and every other row is granted |
| `DocumentFiles.SuccessKeepsMatch` | apps/ingestion/services.py:2563-2646 | a successful apply keeps every document's PDF in place with its digest |
| `DocumentFiles.FailureKeepsMatchIff` | apps/ingestion/services.py:2610-2616 | a failed one does so exactly when no KLGV plan was replaced by a different PDF before it failed |
| `DocumentFiles.ReplacedThenUndecided` | apps/ingestion/services.py:2485-2512 | an approved replacement before an undecided update: the apply fails, the plan no longer matches its PDF, and skipping both lets the batch through |
| `DocumentFiles.DocumentTables.Apply` | apps/ingestion/services.py:2471-2560 | the method leaves exactly the state and counts of the loop that `DocumentApply.AppliedFieldByField` describes, rolling documents back on refusal |
| `DocumentFiles.DocumentTables.ApplyPreview` | apps/ingestion/services.py:1193-1254 | a changed baseline changes nothing at all; otherwise the loop's outcome |
| `HydrantImport.HydrantStore.ApplyPreview` | apps/ingestion/services.py:1405-1470 | with an equal baseline each imported identifier reads as its row, a stored hydrant keeping the fields an import never touches and, if unchanged, its time stamp; everything else stays; counts are the preview's, and the scope is dirtied exactly when something changed; otherwise nothing happens |
| `HydrantImport.Diff` | apps/ingestion/services.py:1405-1440 | the loop gathers exactly the rows to write, with the preview's counts |
| `HydrantImport.CountsPartition` | apps/ingestion/services.py:1103-1141 | every row is counted once |
| `HydrantImport.PreviewCounts` | apps/ingestion/services.py:1103-1141 | the counts are the numbers of rows not stored, stored with other values, and stored as they are |
| `HydrantImport.BaselineAgreesIff` | apps/ingestion/services.py:450-481 | a baseline notices exactly the hydrants named, and of those the time stamp and the values |
| `HydrantImport.BaselineDecides` | apps/ingestion/services.py:450-481 | equal baselines classify every row alike |
| `HydrantImport.OverrideSettlesRows` | apps/ingestion/services.py:484-515 | after an override every imported identifier has the row's values and nothing is left to do |
| `HydrantImport.AppliedCountsArePreviewed` | apps/ingestion/services.py:1103-1141 | previewed counts hold under an equal baseline |
| `HydrantImport.ApplyingTwiceIsIdle` | apps/ingestion/services.py:1405-1470 | applying again is a no-op |
| `PhonebookImport.ReviewStep` | apps/ingestion/services.py:766-817 | every accepted review action keeps the review sound and strictly lowers a measure |
| `PhonebookImport.ReachableReviews` | apps/ingestion/services.py:682-817 | in every reachable review pending rows show a candidate, no two rows update one entry, and the number of actions is bounded |
| `PhonebookImport.IntentMeans` | apps/ingestion/services.py:682-733 | each row as first offered: its possible duplicates with their fingerprints, to be created exactly if there are none |
| `PhonebookImport.ReviewMeans` | apps/ingestion/services.py:766-817 | an action is accepted exactly when it is open, and does to its row what was chosen and to no other |
| `PhonebookImport.ChoiceIsCarriedOut` | apps/ingestion/services.py:766-1355 | from choice to book: whatever review follows, the applied batch adds an entry, rewrites the candidate shown, or adds nothing, as chosen |
| `PhonebookImport.AppliesExactlyIf` | apps/ingestion/services.py:1310-1355 | the condition for applying, row by row, told from resolution, stations, values and the targets' fingerprints |
| `PhonebookImport.BaselineKeepsTargets` | apps/ingestion/services.py:666-679 | an unchanged baseline keeps every reviewed target valid |
| `PhonebookImport.TargetUntouched` | apps/ingestion/services.py:1340-1350 | rows applied earlier leave a later row's target as it was |
| `PhonebookImport.CountsPartition` | apps/ingestion/services.py:1310-1355 | creates, updates and skips partition the rows |
| `PhonebookImport.CountsResolutions` | apps/ingestion/services.py:1310-1355 | the counts are the numbers of rows created, updated and neither |
| `PhonebookImport.Phonebook.Apply` | apps/ingestion/services.py:1310-1355 | succeeds exactly when the batch is ready and all targets were valid before the first row; then each row is written where it belongs and nothing else changes |
| `ReportDelivery.TerminalStateMeaning` | apps/outbound_mail/report_delivery_requests.py:95-100 | SUCCESS means an accepted send; UNKNOWN means an indeterminate provider outcome or a message that could not be constructed, in which case nothing was sent |
| `ReportDelivery.CodesAreTold` | apps/outbound_mail/report_delivery.py:62-164 | which code each way of delivering ends with; unknown refusals are not passed on |
| `ReportDelivery.AtMostOneSend` | apps/outbound_mail/report_delivery_requests.py:32-84 | over every interleaving with crashes the provider is called at most once per request |
| `ReportDelivery.ReachableOutcomes` | apps/outbound_mail/report_delivery.py:62-132 | SUCCESS in a row or an answer implies an accepted send, FAILED that there was none; the claimant has been told what the row says |
| `ReportDelivery.TerminalForever` | apps/outbound_mail/report_delivery_requests.py:32-62 | a terminal row never changes |
| `ReportDelivery.LateCallersOnlyReplay` | apps/outbound_mail/report_delivery_requests.py:87-92 | a caller that finds a claim never sends: another recipient gets CONFLICT, an unfinished claim reads UNKNOWN, a finished one what its row says |
| `ReportDelivery.OnlyTheClaimantSends` | apps/outbound_mail/report_delivery_requests.py:32-62 | only the claimant sends, and only if nothing was sent for the request |
| `ReportDelivery.DeliveryTable.Submit` | apps/outbound_mail/report_delivery_requests.py:32-62 | a lone submit is the caller's three steps, with the number of sends |
| `ReportDelivery.DeliveryTable.Claim` | apps/outbound_mail/report_delivery_requests.py:65-84 | creates the row or returns the one that is there |
| `Base64.DecodeUndoesEncode` | apps/application_secrets/crypto.py:66-76 | unpadded base64url decoding undoes encoding exactly for non-empty byte strings (section 5 of RFC 4648) |
| `Base64.EncodeUndoesDecode` | apps/application_secrets/crypto.py:70-76 | re-encoding restores a text exactly when its unused bits are zero |
| `Base64.EncodedNeverHasColon` | apps/application_secrets/crypto.py:66-67 | encoded text never contains the separator |
| `SecretEnvelope.ParseUndoesPrint` | apps/application_secrets/crypto.py:136-149 | parsing a printed envelope returns it exactly for well-formed envelopes |
| `SecretEnvelope.ParsesExactly` | apps/application_secrets/crypto.py:136-149 | a text parses exactly if it spells the fixed words, a version label, twelve bytes of nonce and at least sixteen of ciphertext, and to those |
| `SecretEnvelope.RingMeans` | apps/application_secrets/crypto.py:164-178 | a ring is valid exactly if its labels are labels, its keys have thirty-two bytes and the active one is in it |
| `SecretEnvelope.DecryptsExactly` | apps/application_secrets/crypto.py:195-208 | what decrypts, under which key, nonce and context, and the reason of each failure |
| `SecretEnvelope.MakeCipher` | apps/application_secrets/crypto.py:164-178 | a ring is accepted exactly when every version and key is valid and the active one is present |
| `SecretEnvelope.DecryptUndoesEncrypt` | apps/application_secrets/crypto.py:184-208 | decryption under the same context undoes encryption, also under any later ring that keeps the key |
| `SecretRotation.RotationPreservesPlaintext` | apps/outbound_mail/secret_rotation.py:150-180 | a rotated row is at the active version and reads as before |
| `SecretRotation.UntouchedSecretsReadTheSame` | apps/outbound_mail/secret_rotation.py:150-180 | stopped anywhere and interleaved with replacement and clearing, rotation leaves untouched secrets readable as before |
| `SecretRotation.MailSecrets.Rotate` | apps/outbound_mail/secret_rotation.py:150-180 | a completed run leaves every live secret at the active version, and a run over such a state rotates nothing |
| `SecretRotation.MailSecrets.RotateOne` | apps/outbound_mail/secret_rotation.py:150-176 | one row under its lock, after other requests have committed |
| `SecretRotation.AloneCountsExactly` | apps/outbound_mail/secret_rotation.py:150-180 | an uninterrupted rotation completes exactly if every secret to be rewritten opens, and counts the rows as they were found |
| `SecretRotation.Status` | apps/outbound_mail/secret_rotation.py:107-121 | the counter holds exactly the live secrets per version |
| `SecretRotation.CanRetireExactly` | apps/outbound_mail/secret_rotation.py:46-50 | a version may be retired exactly when every live secret parses and none carries it or the reserved malformed label |
| `SecretRotation.RetiringChangesNoDecryption` | apps/outbound_mail/secret_rotation.py:46-50 | dropping a retirable version changes no decryption |
| `SecretRotation.ShortenedRing` | apps/application_secrets/crypto.py:164-178 | the shortened ring is accepted exactly when the dropped version is not the active one |
| `SecretRotation.ActiveVersionMayLookRetirable` | apps/outbound_mail/secret_rotation.py:46-50 | without live secrets the active version looks retirable |
| `AdminLifecycle.NeverOrphaned` | apps/authorization/services.py:433-802 | once a department has an ACTIVE membership with an active account, every later state has one |
| `AdminLifecycle.RemovalKeepsStaffed` | apps/authorization/services.py:754-802 | permanent removal keeps every department staffed, including those elsewhere |
| `AdminLifecycle.RemovalIsPermanent` | apps/accounts/services.py:26-35 | a removed account stays closed and administers no department in any later state, although a suspended membership elsewhere may be reinstated; right after the removal it has no ACTIVE membership |
| `AdminLifecycle.LastMeans` | apps/authorization/services.py:529-541 | a membership is the last one exactly when it counts, in an active department, and no other does |
| `AdminLifecycle.StatusChangesMean` | apps/authorization/services.py:544-631 | suspending, revoking and reinstating: by whom, on what status, and never the last one; exactly one status changes |
| `AdminLifecycle.ProvisionMeans` | apps/authorization/services.py:454-486 | who may provide a new administrator, what is added, and that its setup token activates the account once and in time |
| `AdminLifecycle.RemovalMeans` | apps/authorization/services.py:754-802 | exactly when an account can be removed for good |
| `AdminLifecycle.RemovalChanges` | apps/authorization/services.py:754-802 | it revokes all the account holds there, closes the account and its tokens, and touches no other |
| `AdminLifecycle.DepartmentStatusMeans` | apps/authorization/services.py:433-451 | only system administrators change a department's status |
| `AdminLifecycle.AdminService.PreventLast` | apps/authorization/services.py:529-541 | blocks exactly the last effective administrator |
| `AdminLifecycle.AdminService.SuspendAdmin` | apps/authorization/services.py:544-568 | suspension as specified; a refusal changes nothing |
| `AdminLifecycle.AdminService.RevokeAdmin` | apps/authorization/services.py:602-631 | revocation as specified; a refusal changes nothing |
| `AdminLifecycle.AdminService.RemoveAdministrator` | apps/authorization/services.py:754-802 | removal as specified, all memberships or none |

## Left out

- Views, forms, navigation, audit events, notification mail and formatting: presentation, no property of these components depends on them.
- Authorization of library, import and publication requests: modelled only where it is state, in `TemporaryAccess` and `AdminLifecycle`.
- PDF sanitising, ZIP and CSV decoding, number parsing of coordinates: the models start from parsed rows.
- AES-GCM, AES key wrap, Ed25519, SHA-256, HPKE: taken as functions with their laws; the key grants to tablets are not modelled.
- The publication job and scope life cycle: publications have only the states the artifact protocol distinguishes.
- Personnel, station and vehicle imports, dangerous goods, mail settings, tablets: mostly guards and field copies.
- Station administrators: they do not count towards a staffed department.
- Stored artifact paths in the removal queue: they are a function of the artifact's identity, so comparing them with the generated path always agrees.
- Symbolic links, permissions and durability of files: a file is present or absent, with a digest.
- `DocumentGeneration.AddDocument`: has no competitor for the unique key; competing builds are the subject of `ArtifactRuns`.
- `DocumentManifest.Validate`: takes a payload whose documents are a list of objects, so the checks for other JSON shapes and the cached read-only projection are not captured.
- `DocumentArtifacts.ArtifactStore.RetryQueue`: takes the listing as given; that the oldest records come first is not captured.
- `DocumentFiles.DocumentTables.Apply`: asks that rows of one identity key be deactivations that match nothing, which `PackageIdentity.PackageIsApart` shows of every accepted package while KLGV plans have names.
- `DocumentReview.BaselineNames`: keeps of a fingerprint only the time stamp, the active flag and the digest, and takes every save to stamp a time of its own.
- Rejected PDFs of a package: the rows considered are those whose PDF was sanitised or reused.
- `PhonebookImport.Phonebook.Apply`: the duplicate search and the entry fingerprint are parameters.
