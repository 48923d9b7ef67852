# A verified model of the Gemara content service

The Gemara content service has two halves. One is a small, read-only OCI registry:
a seed program fills a storage root (blob files named after their SHA-256 digest, a
`tags` bucket and a `manifests` bucket), and an HTTP server answers requests for
catalogs, tags, manifests and blobs from it. The other enriches policy findings:
plans are loaded from directories, grouped by the catalog they refer to, and a policy
rule is looked up in them.

This project models both in Dafny and proves what they promise: that the storage root
is consistent after every single write of a seed run, that what was seeded is what a
client pulls, that the cursor-based listings and the last-separator path decoder do
what their simple definitions say, and that an enrichment answer depends on files,
configuration and request only.

`dafny verify dfyconfig.toml` checks everything.

## How the model is laid out

| files | what they model |
|---|---|
| `ByteStrings`, `Buckets` | Go strings and their bytewise order; one sorted bucket of the index, updated in place |
| `Paths`, `Digests` | how path strings are joined and cleaned; digest printing and parsing, the file a digest leads to |
| `Listings`, `Stores`, `Registries` | the registry's four reads: their meaning on a store taken as a value, and the loops that compute them |
| `Routing`, `Handlers` | the path decoder and the responses |
| `Seeding`, `Effects` | the seed run as a sequence of single writes, closure, and what a whole run amounts to |
| `StorageRoots`, `Seeders` | the storage root as an object and the seed program's loops, with every operation's failure as an input |
| `Pulling`, `Sessions` | the registry from end to end: what the responses of a seeded root are, and seed program, server and pulling client run one after the other |
| `LastWins`, `Catalogs`, `Lookups`, `Mappers` | last-wins tables, the answer to a rule through them and read off the content itself, the basic mapper with Go slices on the heap |
| `Grouping`, `Configs`, `Services` | loading and grouping plans, start-up, the enrichment endpoint |

Conventions:

* A Go string or byte slice is a sequence with one character per byte. No result
  depends on an upper bound of the characters.
* SHA-256 and JSON are the fields of a `Codec`, so every result holds for any hash
  function. Where distinct contents must not share a hash, `CollisionFree` says so for
  the byte strings of the run at hand only. `Decodes` says that a client decodes the
  manifests of the run as they were encoded, which any encoding that can be undone
  provides (`RoundTripDecodes`).
* Blob files are known by their absolute, cleaned paths. A digest's algorithm goes into
  the path as it was sent, so it is joined and cleaned as `filepath.Join` does it.
* Any file, database or encoding operation of the seed program may fail; which of them
  do is an input of the run (`Faults`), and a failed operation changes nothing.
* Definitions that follow the code are pinned by `…Exactly` lemmas that name characters,
  literals and positions only, and the main results use such literals.
* The order of a Go map iteration is any duplicate-free ordering of the keys.
* A commit replaces both buckets at once; an aborted transaction leaves them alone.

## Where code and comments part

The model follows the code.

* `internal/oci/routes.go:25-28` lists `/{name...}/tags/list` as the tags path, but
  `/tags/list` itself is decoded as a request for a repository named `tags/list`
  (`TagsRouteExactly`).
* A repository with a path component `manifests` cannot serve its blobs: their paths
  are decoded as manifest requests (`BlobRouteExactly`, `ShadowedBlobs`, `ServedBlob`).
* `internal/oci/registry.go:161-163` knows digests as `sha256:{hex}`, but any algorithm
  whose cleaned path leads to the same directory will do: `/sha256:{hex}` is served too
  (`SameFileExactly`, `DigestsOfFileExactly`, `ServedSpelling`).
* `c.File` refuses request paths with a `..` component, so names with one list their tags
  and serve their manifests but not their blobs (`BlobRequestExactly`, `ServedBlob`).
* `internal/oci/registry.go:56-58` relies on names and tags without colons. Nothing
  enforces it; the two listings agree exactly when it holds (`ListingsAgreeExactly`).
* The catalog is in key order, which is plain name order exactly when no listed name
  extends another below the colon: `policies/cis` comes before `policies`
  (`PlainOrderExactly`, `LowExtensionIsListedFirst`).
* `hack/seed/main.go:255` ignores a failure to remove the old index, whose tags and
  manifests then stay visible unless superseded (`StaleIndexExactly`).
* A successful enrichment may carry nil arrays where `api.yaml:317-319` requires arrays
  (`NilArraysExactly`, `DeployedNilArrays`, `NilArraysServed`).
* `append` on slices that share spare capacity loses plans, under the exact condition of
  `AddEvaluationPlan`; the loader never creates that situation
  (`SharedCapacityLosesAPlan`, `Configs.NewMapperFromDir`).

## Model

| member | source | states |
|---|---|---|
| `Routing.ManifestRouteExactly` | internal/oci/routes.go:57-67 | A path selects the manifest request (n, r) if and only if it is `/n/manifests/r` with n and r non-empty and `/r` neither containing `/manifests/` nor ending in `/tags/list`. Soundness and round trip in one, for every path. |
| `Routing.PlainExactly` | internal/oci/routes.go:45-79 | What the route lemmas ask of references, names and digests, character by character: a reference is non-empty and behind a slash neither ends in `/tags/list` nor contains `/manifests/`; a name between slashes does not contain `/manifests/`; a digest behind a slash does not contain `/blobs/` either. |
| `Routing.DispatchExactly` | internal/oci/routes.go:23-82 | For every path that starts with a slash, the conditions on its text for each request: handshake, catalog, tags, manifest, blob. Whatever meets none of them has no route. |
| `Routing.BlobRouteExactly` | internal/oci/routes.go:69-79 | A path selects blob d if and only if it is `/n/blobs/d` for a name n without a path component `manifests` and a d that hides no separator of its own; the split is at the last `/blobs/`. |
| `Routing.BlobRouteRoundTrip` | internal/oci/routes.go:58-79 | For non-empty n and d, the printed blob path is read back as d exactly under those two conditions. |
| `Routing.ShadowedBlobs` | internal/oci/routes.go:58-70 | Under a name with a path component `manifests`, the blob path of every non-empty digest whose text does not end in `/tags/list` is decoded as a manifest request or not at all. |
| `Routing.TagsRouteExactly` | internal/oci/routes.go:45-55 | A path selects the tags of n if and only if it is `/n/tags/list` with n non-empty, or it is `/tags/list` and n is `tags/list`. |
| `Digests.ParseDigestExactly` | internal/oci/registry.go:187-196 | A string is accepted if and only if it is `algo:hex` with algo non-empty and colon-free and hex an even, non-zero number of hex digits, so the two-digit prefix always exists; the parts returned are these. |
| `Digests.HexRoundTrip` | hack/seed/main.go:332-335 | Decoding the printed hex gives back the octets of the sum, in order. |
| `Digests.HexExactly` | hack/seed/main.go:332-335 | Each octet is printed as its high and its low digit, `0` to `9` then `a` to `f`. |
| `Digests.PrintedDigestParses` | hack/seed/main.go:332-345 | A printed digest parses, has 64 lower-case hex digits, and the registry computes for it, under every blob root, the very file the seeder wrote. |
| `Digests.SameFileIffSameSum` | hack/seed/main.go:337-345 | Two byte strings are written to the same file, and get the same digest, if and only if their sums are equal. |
| `Paths.JoinArrivesExactly` | internal/oci/registry.go:172 | Joining a string to a base arrives at an entry of the base if and only if, cleaned, it comes down again by the names it went up and then goes to that entry. |
| `Paths.JoinExactly` | internal/oci/registry.go:172 | Joining goes slash by slash; nothing and `.` stay, `..` goes up unless at the top, anything else goes down by that name. |
| `Paths.ParentExactly` | internal/oci/handler.go:92 | The test by which the file server refuses a path holds if and only if the path has a part `..` with a slash, a backslash or an end of the string on either side. |
| `Digests.SameFileExactly` | internal/oci/registry.go:164-172 | Two accepted digests name one file if and only if their hex parts are equal and their algorithms, cleaned as relative paths, lead to one directory. |
| `Digests.DigestsOfFileExactly` | internal/oci/registry.go:164-196 | A digest leads to the file of given data if and only if it is the printed hex behind an algorithm whose path leads to `sha256`. |
| `Digests.LeadingNothingInDigest` | internal/oci/registry.go:164-172 | A slash or `./` in front of an accepted digest changes nothing about the file it leads to. |
| `ByteStrings.LessExactly` | internal/oci/registry.go:92-96 | The key order is bytewise: what comes first is a proper prefix, or has the smaller byte where the two first differ. |
| `ByteStrings.PrefixRunEnds` | internal/oci/registry.go:92-96 | Once the key order has passed a prefix and left it, no later key has the prefix: keys with a common prefix form one run. |
| `Buckets.Bucket.Seek` | internal/oci/registry.go:92-93 | Binary search finds the first key not before the one sought. |
| `Buckets.Bucket.Put` | hack/seed/main.go:309-317 | A sorted insert or a replacement: the keys stay strictly increasing and exactly one association changes. |
| `Listings.TagsOfElements` | internal/oci/registry.go:83-107 | The tags collected for a repository are exactly those t with `repo:t` among the keys. |
| `Registries.Registry.ListTags` | internal/oci/registry.go:83-107 | Seeking to `repo:` and scanning while the prefix lasts gives the same result as filtering all keys of the bucket, including the not-found error and the missing bucket. |
| `Stores.ListTagsMeaning` | internal/oci/registry.go:81-107 | Tags come out in bytewise order, each once, they are exactly those t with `repo:t` stored, and the error occurs exactly when there are none. |
| `Registries.Registry.ListRepositories` | internal/oci/registry.go:45-79 | The loop with its set of seen names lists the repositories of all keys with a colon, each where it first occurs. |
| `Listings.ReposOfElements` | internal/oci/registry.go:46-69 | The repository listing is complete and has no duplicates. |
| `Listings.ListedExactly` | internal/oci/registry.go:54-69 | A name is listed if and only if some key is the name, a colon and a colon-free tag. |
| `Listings.ReposInKeyOrder` | internal/oci/registry.go:54-69 | Whatever the keys, of two listed repositories the one listed first has a key before all keys of the other. |
| `Listings.ReposInColonOrder` | internal/oci/registry.go:54-69 | Without stray colons repositories are listed in strictly increasing order of `repo:`. |
| `Listings.PlainOrderExactly` | internal/oci/registry.go:54-69 | Without stray colons the listing is in plain name order if and only if no listed name extends another with a character below the colon. |
| `Listings.LowExtensionIsListedFirst` | internal/oci/registry.go:54-69 | For every name and every such extension there is an index where the extension is listed first. |
| `Listings.ColonOrderIsNotPlainOrder` | internal/oci/registry.go:54-69 | The instance at hand: `policies/cis` is listed before `policies`. |
| `Listings.SeenSetIsAdjacentDedupe` | internal/oci/registry.go:63-67 | Without stray colons, remembering all repositories seen is the same as comparing with the last one. |
| `Listings.ListedHasTags` | internal/oci/registry.go:45-107 | Every listed repository has tags to list, for any index. |
| `Listings.ListingsPartitionIndex` | internal/oci/registry.go:45-107 | Without stray colons, listing the tags of all listed repositories and rejoining them gives exactly the tagged keys, each once and in order. |
| `Listings.ListingsAgreeExactly` | internal/oci/registry.go:45-107 | The repositories with tags are exactly those listed and the listings make up the index, if and only if no key holds two colons. |
| `Registries.Registry.GetManifest` | internal/oci/registry.go:114-159 | The lookup by tag or digest through the buckets, with every not-found branch, answers as the store prescribes. |
| `Stores.GetManifestExactly` | internal/oci/registry.go:122-144 | Which manifest that is: a reference that starts with `sha256:` is the digest, any other is a tag whose stored digest is used; it is found if and only if the digest is indexed. |
| `Registries.Registry.BlobPath` | internal/oci/registry.go:164-182 | The file of a digest, or not-found for malformed digests and missing files. |
| `Seeding.ManifestExactly` | hack/seed/main.go:287-296 | The manifest of an artifact: schema version 2, its media type, the empty config with type, digest and size 2, and for each layer in order its media type, digest and size. |
| `Seeding.ClosedExactly` | hack/seed/main.go:248-326 | What a closed store is, in terms of paths and sums: files sit where their hash says, manifests hash to their keys and have their own file, every descriptor in one has its file, every tag leads to an indexed manifest. |
| `Seeding.StepKeepsClosed` | hack/seed/main.go:276-317 | A single write keeps the store closed when the digest is that of the bytes, a manifest's descriptors have their blobs, and a tag's manifest is indexed. |
| `Seeding.SeedWritesLegal` | hack/seed/main.go:248-320 | The order of the program provides all of this for every write of every run. |
| `Seeding.ClosedAtEveryStep` | hack/seed/main.go:248-326 | After each single write of a run from a closed store: blobs and manifests hash to their keys, every indexed manifest and every descriptor of one has its blob, every tag names an indexed manifest; and the same if the transaction is aborted there. |
| `Seeding.FreshIndexIsClosed` | hack/seed/main.go:255-260 | An empty index over any properly named blob files, of earlier runs say, is a closed start. |
| `Seeders.WriteLayers` | hack/seed/main.go:274-285 | The layer loop writes the blobs in order and returns the descriptors of the layers in order; it succeeds if and only if no layer write fails, and otherwise has made an initial part of its writes. |
| `Seeders.PutTags` | hack/seed/main.go:313-319 | The tag loop points every tag at the manifest, in order; it succeeds if and only if no put fails, and otherwise has made an initial part of its writes. |
| `Seeders.SeedArtifact` | hack/seed/main.go:273-320 | One round of the outer loop makes exactly the writes of the artifact if none of its operations fails, and an initial part of them otherwise. |
| `Seeders.Populate` | hack/seed/main.go:263-323 | The transaction commits if and only if none of its operations fails. Committed, it has made all writes; aborted, it leaves the index unchanged and keeps only blob files of an initial part. |
| `Seeders.Seed` | hack/seed/main.go:248-326 | The whole program, for every combination of failing operations: which outcome it has, that the old index is removed unless that fails, and the resulting root, which is the run's or the rolled-back one and closed in every outcome. |
| `Effects.RunAt` | hack/seed/main.go:263-323 | After any sequence of writes a location holds the last value written to it, and otherwise what it held before. |
| `Effects.SeedWritesElements` | hack/seed/main.go:248-320 | The writes of a run are exactly: the config blob, each artifact's layers and manifest as blobs, its manifest in the index, its tags. |
| `Effects.RunIsIdempotent` | hack/seed/main.go:248-326 | Repeating the same writes on any store, index included, changes nothing. |
| `Effects.ReseedingChangesNothing` | hack/seed/main.go:248-326 | Seeding the same artifacts again gives the same index and blobs. |
| `Effects.OrderDoesNotMatter` | hack/seed/main.go:273-320 | Lists with the same artifacts seed the same store, whatever their order, if no two byte strings collide and no tag key is claimed for two manifests. |
| `Effects.OrderDoesNotMatterExactly` | hack/seed/main.go:273-320 | Without collisions, every reordering of a list of artifacts seeds the same store if and only if no tag key is claimed for two manifests. |
| `Effects.SeededTags` | hack/seed/main.go:313-317 | A fresh index has exactly the tag keys of the artifacts, each leading to the manifest of the last artifact that carries it. |
| `Effects.OwnerIsLast` | hack/seed/main.go:273-317 | The artifact a tag key belongs to after a run is the one that carries it after which no other does. |
| `Effects.CarriesExactly` | hack/seed/main.go:313-317 | An artifact carries a key if and only if the key is its repository, a colon and one of its tags. |
| `Effects.StaleIndexExactly` | hack/seed/main.go:255-260 | If the old index was not removed, the store is that of a fresh one if and only if every old tag key is carried by a new artifact and every old manifest is one of a new artifact. |
| `Effects.SeededManifests` | hack/seed/main.go:298-311 | A fresh index has exactly the manifests of the artifacts. |
| `Effects.SeededManifestBytes` | hack/seed/main.go:298-311 | Each manifest is stored, under its digest, as the bytes that were encoded. |
| `Effects.SeededBlobs` | hack/seed/main.go:275-307 | Every config, layer and manifest byte string is found under its digest, unchanged. |
| `Effects.SeededBlobsOnly` | hack/seed/main.go:275-307 | A digest, however it is spelt, has a blob after the run if and only if it leads to the file of something the run stored or had a file before. |
| `Effects.BlobsIntactExactly` | hack/seed/main.go:275-307 | All stored byte strings can be read back unchanged if and only if no two different ones share a hash. |
| `Effects.SeedingKeepsBlobs` | hack/seed/main.go:248-326 | Seeding over old blob files keeps them all and ends in a closed store. |
| `Handlers.Handler.Get` | internal/oci/handler.go:23-93 | A request is answered with the status, headers and body that decoder, store and response shapes prescribe. |
| `Handlers.ErrorCodesExactly` | internal/oci/handler.go:39-93 | For every path and store, the four 404 responses with status and header: NAME_UNKNOWN exactly for the tags path of a name without tags, MANIFEST_UNKNOWN exactly for a manifest path with an unindexed digest or a tag that leads to none indexed, BLOB_UNKNOWN exactly for a blob path whose digest leads to no file, plain not-found exactly without a route. |
| `Handlers.EmptyRootIsServed` | internal/oci/handler.go:23-93 | On an empty storage root the printed path of every name, reference and digest is answered with 404 and the error code of what was asked for; the handshake is an empty object with its version header and the catalog is an empty list. |
| `Pulling.ServedTag` | internal/oci/handler.go:57-76 | On a freshly seeded root a request for any reference that does not start with `sha256:` yields 200 with the exact manifest bytes of the last artifact seeded under that tag, their type, digest and length, and MANIFEST_UNKNOWN if there is none. |
| `Pulling.ServedDigest` | internal/oci/registry.go:122-144 | Any reference that starts with `sha256:` yields the seeded manifest with that digest under any repository, and MANIFEST_UNKNOWN if there is none; it is never taken for a tag. |
| `Pulling.TagAndDigestAgree` | internal/oci/registry.go:109-159 | In every addressed store, the digest a manifest came with yields the same response under any repository, and the bytes hash to it. |
| `Pulling.BlobRequestExactly` | internal/oci/handler.go:80-93 | In any store, a blob file is served unchanged, with type and digest, under a name if and only if the name has no path component `manifests` and no `..` between separators; under the others the response is no blob response. |
| `Pulling.ServedBlob` | internal/oci/handler.go:80-93 | Seeded bytes are served unchanged under exactly these names. |
| `Pulling.ServedSpelling` | internal/oci/handler.go:80-93 | They are served under every spelling of the digest that leads to their file, with the digest header repeating the spelling, or refused with 400 if the request path has a `..` component. |
| `Pulling.ServedWithLeadingSlash` | internal/oci/registry.go:164-172 | So asking for the digest with a slash in front gets the same bytes. |
| `Pulling.SeededIsPulled` | hack/seed/main.go:248-323 | Pulling a tag (manifest, config, then layers, checking types, sizes and digests) returns the layers of the last artifact seeded under it, in order and unchanged, and nothing exactly when there is none or the name has a path component `manifests` or `..`. |
| `Sessions.Fetch` | internal/oci/handler.go:55-93 | A client's requests for manifest, config and layers, one after the other with early exits, come to that pull. |
| `Sessions.SeedAndFetch` | hack/seed/main.go:248-326 | Running the seed program and then server and client on one root: if no operation fails, the client gets what was seeded under the tag, whatever the root held before; also if operations fail but the root was reported ready and the old index removed; and nothing if the run stopped with the old index removed. |
| `Pulling.ServedTagList` | internal/oci/handler.go:39-53 | The tags endpoint lists, in bytewise order, exactly the tags seeded under the name, or answers NAME_UNKNOWN. |
| `Pulling.ServedCatalog` | internal/oci/handler.go:29-36 | With colon-free tags the catalog lists exactly the repositories of tagged artifacts, each once, in the order of their first keys. |
| `Pulling.ServedCatalogColonOrder` | internal/oci/registry.go:54-69 | If names hold no colons either, the catalog is in strictly increasing bytewise order of `repo:`. |
| `LastWins.OverlayFindsLast` | mapper/plugins/basic/basic.go:141-173 | A lookup in a table filled entry by entry finds exactly the last entry for the key. |
| `Mappers.Mapper.BuildProceduresMap` | mapper/plugins/basic/basic.go:141-157 | The three nested loops fill the table of all procedures in plan, assessment and procedure order. |
| `Mappers.Mapper.BuildControlDataMap` | mapper/plugins/basic/basic.go:160-173 | The two nested loops fill the table of all controls in family and control order. |
| `Catalogs.ProceduresOfConcat` | mapper/plugins/basic/basic.go:141-157 | The table over two lists of plans is the second's laid over the first's. |
| `Catalogs.RequirementsExactly` | mapper/plugins/basic/basic.go:176-184 | The requirements of no mappings are none, those of one mapping its entries, those of two lists one after the other. |
| `Catalogs.RequirementAt` | mapper/plugins/basic/basic.go:176-184 | Each entry of each mapping is there, right after all entries before it. |
| `Lookups.AnswerMeaning` | mapper/plugins/basic/basic.go:63-114 | A catalog answers a rule if and only if it is in scope and there are a last plan, assessment and procedure with the rule's id and a last family and control for that plan's control id; every field of the answer is read off these positions, with all entries and all references of the control's mappings in order. |
| `Lookups.FailureMeaning` | mapper/plugins/basic/basic.go:65-120 | When each reason for no answer arises: the catalog is not in scope, no procedure has the id, or no control has the id that the last such procedure's plan names. |
| `Catalogs.NilArraysExactly` | mapper/plugins/basic/basic.go:63-114 | In an answer the frameworks array is nil exactly when the last entry for the control that the last procedure names has no mappings, the requirements array exactly when its mappings have no entries. |
| `Catalogs.MapInOrderMeaning` | mapper/plugins/basic/basic.go:59-138 | For every iteration order the result is a success exactly when some catalog answers, is then that catalog's own answer, and is otherwise the answer with `UNMAPPED`, `UNCATEGORIZED` and empty arrays. |
| `Catalogs.OrderIrrelevantExactly` | mapper/plugins/basic/basic.go:63-99 | The result is the same for all iteration orders if and only if at most one catalog answers. |
| `Catalogs.SingleCatalogScope` | cmd/compass/server/config.go:37-39 | With one catalog in scope the result is that catalog's answer for every order. |
| `Mappers.Mapper.Map` | mapper/plugins/basic/basic.go:59-138 | The loop with early return gives the first answer in the order the runtime picked; when unmapped there is exactly one failure reason per catalog, and it is that catalog's. |
| `Mappers.Append` | mapper/plugins/basic/basic.go:43 | `append` reads as the concatenation, in place when the capacity suffices, which changes exactly the elements behind the slice, and otherwise in a new array with the old one untouched. |
| `Mappers.Mapper.AddEvaluationPlan` | mapper/plugins/basic/basic.go:38-46 | The catalog's list grows by exactly the given plans, in place or with the old array untouched. The list of another catalog reads as before if and only if the plans are not written over different ones of it in a shared array. |
| `Mappers.Mapper.OwnedGrows` | mapper/plugins/basic/basic.go:38-46 | So if no backing array is shared, all other lists are unchanged and still nothing is shared. |
| `Mappers.SharedCapacityLosesAPlan` | mapper/plugins/basic/basic.go:38-46 | Two catalogs added with one slice that has spare capacity: after one more plan for each, both lists end in the second plan and the first is lost. |
| `Grouping.GroupByMeaning` | cmd/compass/server/config.go:123-130 | There is a list for exactly the non-empty reference ids, and it is the subsequence of the plans with that id. |
| `Grouping.PlansInExactly` | cmd/compass/server/config.go:123-130 | The subsequence of the plans with given ids, plan by plan. |
| `Grouping.GroupingConserves` | cmd/compass/server/config.go:123-130 | All lists together hold exactly the plans with a reference id, each as often as it was given. |
| `Configs.NewMapperFromDir` | cmd/compass/server/config.go:101-141 | The walk groups the plans of all files before the first failure, succeeds exactly when there is none, and no two catalogs share a backing array. |
| `Configs.AllPlansExactly` | cmd/compass/server/config.go:105-130 | The plans of a walk are all plans of its files, in order; directories add none. |
| `Configs.DirErrorExactly` | cmd/compass/server/config.go:77-92 | Which error a directory gives for each state it may be in; it loads if and only if the walk meets only directories and files with plans. |
| `Configs.EngineMeaning` | cmd/compass/server/config.go:70-96 | An engine has a mapper if and only if some plugin entry with its id has an evaluations directory, and the last such entry decides. |
| `Configs.NewMapperSet` | cmd/compass/server/config.go:66-99 | Loading succeeds exactly when every needed directory loads; each mapper then holds its directory's grouped plans; otherwise the error is that of the first plugin that fails. |
| `Services.Service.PostV1Enrich` | service/service.go:31-79 | The engine's mapper answers; an engine without one is unmapped for every rule and scope. |
| `Services.NothingToMap` | service/service.go:49-56 | A mapper without plans leaves every rule unmapped, for every scope and order. |
| `Services.GroupedAnswer` | service/service.go:65 | A grouped list of plans with one catalog in scope answers from exactly the plans that refer to that catalog, in any order. |
| `Services.DeployedNilArrays` | service/service.go:31-79 | When the running server's answer has nil arrays, in terms of files, configuration and request; an unmapped answer never has. |
| `Services.NilArraysServed` | service/service.go:31-79 | One plan with one procedure, for a control without mappings, is answered with both arrays nil. |
| `Services.StartAndEnrich` | cmd/compass/main.go:51-79 | Mappers and scope are set up exactly when the catalog, the configuration and all evaluation directories can be loaded, and the answer is then a function of files, configuration and request. |

## Left out

- JWT and OIDC, TLS, start-up retries, logging, flags: library plumbing around the modelled code.
- Generated API types, the embedded API description and the enum checks: one-branch facts.
- SHA-256 itself, JSON encoding, YAML parsing, URL decoding and routing above `/v2`: abstract functions or already decoded inputs.
- Database pages, locks, key-size limits and concurrent transactions: a bucket is a sorted map, any operation may fail, a commit is atomic.
- Partially written blob files, directories in place of blob files, symbolic links, `os.Stat` errors other than a missing file, and files that vanish while served.
- Services.StartAndEnrich: does not model the other ways in which start-up can fail (log level, index database, TLS files, port), because they do not bear on the answer.
- The 500 responses: they need database or file system errors that the read model does not have.
- HEAD requests for manifests, the texts of error messages and the header fields the HTTP library adds.
- The five literal artifacts of the seed program: everything holds for every list of artifacts.
- The 64-bit width of sizes: lengths of byte slices never exceed it.
- Slices with an offset into their backing array: the mapper never creates one.
