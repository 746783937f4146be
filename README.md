# metallb-converter, modelled in Dafny

metallb-converter moves a Kubernetes cluster from MetalLB's legacy
`AddressPool` custom resources (API group `metallb.io`, version `v1beta1`
only) to the current resources. Each `AddressPool` becomes:

- one `IPAddressPool`;
- one `L2Advertisement` named `<pool>-l2-advertisement`, when the pool uses
  the `layer2` protocol;
- one `BGPAdvertisement` named `<pool>-bgp-advertisement-<i>` per legacy BGP
  advertisement, when the pool uses the `bgp` protocol. A pool with no
  advertisements gets one advertisement with every tuning field empty.

Any other protocol is an error.

There are two ways to run the migration:

- **Offline migration** reads the pools from the API server or from a
  directory of YAML/JSON manifests. It converts them and writes the result
  to stdout or to one `<Kind>.yaml` file per list kind.
- **Online migration** works one pool at a time against the API server.
  Each round fetches one pool, backs it up, converts it, deletes the legacy
  object and creates its replacements. It stops at the first error, and
  nothing is rolled back.

The model covers `pkg/converter/converter.go`. The modules are:

- `Api`: resources, their keys (kind, namespace, name) and the errors.
- `Names`: the derived names and their injectivity.
- `Conversion`: `Convert` as a loop, proved against the function
  `ConvertAll`.
- `Store`: the API client, as a class over a map from keys to objects.
- `Lifecycle`: the `Create`/`Delete` methods of both object sets, proved
  against the folds `CreateAll`/`DeleteAll`.
- `Readers`: reading from the API (limit and truncation) and from a
  directory (split on `"\n---"`, then decode, then check group, version
  and kind).
- `Printing`: which writes `PrintObjects` makes. The serializer is left
  abstract.
- `Fragments`: the objects one pool converts to.
- `Migration`: the offline and online drivers.
- `Scenarios`: the repository's own test fixture, carried through both
  drivers.

The store's failure modes are fixed when it is built:

- a set of keys whose writes it refuses (`Rejected`);
- a flag that makes listing fail.

The directory contents and the decoder are parameters.

Notes on the code:

- **Backup is per round.** `OnlineMigration` writes the backup inside the
  loop (converter.go:369-373), once per round, before that round's convert,
  delete and create. Each write truncates `AddressPoolList.yaml`, so the
  file ends holding only the last pool fetched
  (`Migration.BackupKeepsLastPool`). If the last round fails, that pool is
  in the file without having been migrated. By contrast, the repository's
  tests expect one backup file holding all three fixture pools
  (converter_test.go:77-127).
- **File names use the list kind.** The file name is the kind of the list
  being written (converter.go:283-287). For the backup that is
  `AddressPoolList.yaml`, because the fetched list's kind is set to
  `AddressPoolList` (converter.go:135). For the converted set it is
  `IPAddressPoolList.yaml`, `L2AdvertisementList.yaml` and
  `BGPAdvertisementList.yaml`, the kinds `Convert` gives its lists
  (converter.go:197-205). The tests expect the item kinds instead:
  `AddressPool.yaml` (converter_test.go:78) and `IPAddressPool.yaml`,
  `L2Advertisement.yaml`, `BGPAdvertisement.yaml`
  (converter_test.go:343-430).
- **The extension is always `.yaml`**, including when JSON output is
  chosen.
- **Stdout newline.** On stdout, a newline precedes every list whose field
  index is above 0. This holds even when the lists before it were empty
  and skipped (`Printing.StdoutNewlineFollowsFieldIndex`).
- **Order of current objects.** `CurrentObjects` creates and deletes
  IPAddressPools first, then BGPAdvertisements, then L2Advertisements.
  Printing uses field order instead: IPAddressPools, L2Advertisements,
  BGPAdvertisements.

## Model

| member | source | states |
|---|---|---|
| Names.DecimalRoundTrip | pkg/converter/converter.go:237 | the decimal index written into a BGPAdvertisement name reads back as the same number |
| Names.DecimalStringInjective | pkg/converter/converter.go:237 | distinct indices give distinct decimal strings |
| Names.L2AdvertisementNameInjective | pkg/converter/converter.go:219 | `<pool>-l2-advertisement` determines the pool name |
| Names.DigitSuffixAligned | pkg/converter/converter.go:237 | two names ending in a non-digit and followed by digit runs are equal only if the prefixes and the digit runs are equal |
| Names.BgpAdvertisementNameInjective | pkg/converter/converter.go:237 | `<pool>-bgp-advertisement-<i>` determines both the pool name and the index |
| Conversion.CombineAssociative | pkg/converter/converter.go:206-256 | appending per-pool conversion results, with the first error winning, is associative |
| Conversion.ConvertAllErrorPersists | pkg/converter/converter.go:253-255 | once a prefix of the pools fails to convert, the whole conversion returns that same error |
| Conversion.ConvertAllSucceedsIff | pkg/converter/converter.go:218-255 | conversion succeeds iff every pool's protocol is `layer2` or `bgp`; on failure the error names the first pool with another protocol |
| Conversion.ConvertAllSizes | pkg/converter/converter.go:216-251 | one IPAddressPool per pool, one L2Advertisement per layer2 pool, one BGPAdvertisement per effective advertisement of a bgp pool |
| Conversion.ConvertAllIPAddressPools | pkg/converter/converter.go:207-216 | the i-th IPAddressPool has the i-th pool's name, namespace, addresses and auto-assign flag |
| Conversion.ConvertAllAppend | pkg/converter/converter.go:206-256 | converting `a + b` is converting `a`, then `b`, with their lists appended and the first error kept |
| Conversion.ConvertSinglePool | pkg/converter/converter.go:206-256 | converting a one-pool list is converting that pool |
| Conversion.ConvertAllPlacesFragment | pkg/converter/converter.go:206-256 | each pool's own objects appear in the output lists at the positions of the pools before it |
| Conversion.Layer2PoolConversion | pkg/converter/converter.go:218-227 | a layer2 pool gives its IPAddressPool and one L2Advertisement `<pool>-l2-advertisement` that references the pool, and no BGPAdvertisement |
| Conversion.BgpPoolConversion | pkg/converter/converter.go:228-252 | a bgp pool with advertisements gives one BGPAdvertisement per advertisement, index i named `<pool>-bgp-advertisement-i`, carrying its aggregation lengths, local preference and communities |
| Conversion.BgpPoolWithoutAdvertisements | pkg/converter/converter.go:232-235 | a bgp pool with no advertisements gives exactly one BGPAdvertisement `<pool>-bgp-advertisement-0` with every tuning field empty |
| Conversion.AppendBgpAdvertisements | pkg/converter/converter.go:232-252 | the inner loop appends exactly the pool's BGPAdvertisements, in order, to the list built so far |
| Conversion.Convert | pkg/converter/converter.go:194-262 | the loop computes the conversion of the whole pool list, error included |
| Store.Store.constructor | pkg/converter/converter.go:125 | a client over the given objects, with the given refused keys and listing failure |
| Store.Store.Create | pkg/converter/converter.go:63-64 | a refused key fails with Rejected; otherwise an existing key fails with AlreadyExists; otherwise the object is stored under its key. Nothing else changes |
| Store.Store.Delete | pkg/converter/converter.go:52-53 | a refused key fails with Rejected; otherwise a missing key fails with NotFound; otherwise the key is removed. Nothing else changes |
| Store.Store.ListAddressPools | pkg/converter/converter.go:130-134 | listing fails exactly when the store is set to fail; otherwise it returns every stored AddressPool once and nothing else |
| Lifecycle.CreateAllSucceedsIff | pkg/converter/converter.go:61-69 | creating a sequence succeeds iff no key is refused, no key already exists and no key repeats |
| Lifecycle.CreateAllOnSuccess | pkg/converter/converter.go:61-69 | a successful create adds exactly the sequence's objects, under their keys, and keeps every other entry |
| Lifecycle.CreateAllStopsAtFirstFailure | pkg/converter/converter.go:64-66 | a failed create has created exactly the objects before the first failing one, and reports that one |
| Lifecycle.DeleteAllSucceedsIff | pkg/converter/converter.go:50-58 | deleting succeeds iff no key is refused; absent objects (NotFound) are skipped |
| Lifecycle.DeleteAllOnSuccess | pkg/converter/converter.go:50-58 | a successful delete removes exactly the sequence's keys |
| Lifecycle.DeleteAllStopsAtFirstFailure | pkg/converter/converter.go:53-55 | a failed delete has removed the keys before the first refused one, and reports that one |
| Lifecycle.DeleteAllIdempotent | pkg/converter/converter.go:78-99 | deleting a second time changes nothing and succeeds again |
| Lifecycle.CreateAllFrame | pkg/converter/converter.go:61-69 | creating never touches a key outside the sequence |
| Lifecycle.DeleteAllFrame | pkg/converter/converter.go:50-58 | deleting never touches a key outside the sequence |
| Lifecycle.CreateAllConcat | pkg/converter/converter.go:102-122 | creating `a + b` is creating `a`, then, if that succeeded, creating `b` |
| Lifecycle.DeleteAllConcat | pkg/converter/converter.go:79-99 | deleting `a + b` is deleting `a`, then, if that succeeded, deleting `b` |
| Lifecycle.DeleteEach | pkg/converter/converter.go:51-57 | the delete loop leaves the store and error given by the delete fold |
| Lifecycle.CreateEach | pkg/converter/converter.go:62-68 | the create loop leaves the store and error given by the create fold |
| Lifecycle.DeleteLegacyObjects | pkg/converter/converter.go:50-58 | `LegacyObjects.Delete` deletes the pools in list order, as the fold states |
| Lifecycle.CreateLegacyObjects | pkg/converter/converter.go:61-69 | `LegacyObjects.Create` creates the pools in list order, as the fold states |
| Lifecycle.DeleteCurrentObjects | pkg/converter/converter.go:79-99 | `CurrentObjects.Delete` deletes IPAddressPools, then BGPAdvertisements, then L2Advertisements, stopping at the first refused key |
| Lifecycle.CreateCurrentObjects | pkg/converter/converter.go:102-122 | `CurrentObjects.Create` creates IPAddressPools, then BGPAdvertisements, then L2Advertisements, stopping at the first failure |
| Readers.Truncate | pkg/converter/converter.go:139-143 | a limit of 0 keeps every item; a positive limit keeps the first `min(limit, n)` items |
| Readers.ReadLegacyObjectsFromAPI | pkg/converter/converter.go:124-148 | a negative limit is an error; a failing list is an error; otherwise the result is the stored pools, truncated to the limit |
| Readers.SplitFromJoin | pkg/converter/converter.go:165 | splitting on the separator, from any partial piece, rejoins to the input |
| Readers.SplitFromPiecesFree | pkg/converter/converter.go:165 | the split cuts at every occurrence: when no occurrence starts inside the collected part, no piece contains the separator |
| Readers.SplitJoin | pkg/converter/converter.go:165 | `bytes.Split` gives at least one piece, joining the pieces with the separator restores the file, and no piece contains the separator |
| Readers.AndThenAssociative | pkg/converter/converter.go:166-186 | accumulating document results, with the first error winning, is associative |
| Readers.ReadDocumentsErrorPersists | pkg/converter/converter.go:167-186 | once a prefix of a file's documents fails, reading the file fails with that error |
| Readers.ReadFilesErrorPersists | pkg/converter/converter.go:159-164 | once a prefix of the files fails, reading the directory fails with that error |
| Readers.DocumentPoolsByKind | pkg/converter/converter.go:167-186 | a document is accepted iff it decodes, its group is `metallb.io`, its version is supported and its kind is AddressPool or AddressPoolList; it contributes one pool or the list's pools |
| Readers.ReadDocumentsSucceedsIff | pkg/converter/converter.go:166-187 | reading a file's documents succeeds iff every document is accepted |
| Readers.ReadFilesSucceedsIff | pkg/converter/converter.go:159-188 | reading the directory's files succeeds iff every file is accepted |
| Readers.ReadDocumentsAppend | pkg/converter/converter.go:166-187 | the pools of `a + b` documents are the pools of `a` followed by those of `b` |
| Readers.ReadFilesAppend | pkg/converter/converter.go:159-188 | the pools of `a + b` files are the pools of `a` followed by those of `b` |
| Readers.AppendDocuments | pkg/converter/converter.go:165-187 | the per-file loop appends the file's pools in document order, or returns the first document error |
| Readers.ReadLegacyObjectsFromDirectory | pkg/converter/converter.go:153-192 | the loops compute the directory reading function: an unreadable directory or file fails, else the pools of all files in order or the first error |
| Printing.PrintFromWrites | pkg/converter/converter.go:273-306 | the writes from field i on carry the members of the lists from field i on, in order; each write is non-empty, in the chosen format, and goes to `<dir>/<Kind>.yaml` with a directory, else to stdout |
| Printing.PrintFromSound | pkg/converter/converter.go:279-305 | each write is one whole list at some field j >= i: that list's kind and all its members, with a leading newline exactly when on stdout and j > 0 |
| Printing.PrintFromComplete | pkg/converter/converter.go:279-305 | every non-empty list at a field j >= i is written whole, under its kind, with a leading newline exactly when on stdout and j > 0 |
| Printing.PrintObjectsWrites | pkg/converter/converter.go:266-308 | every member of every list is written, in field order; each write is one whole non-empty list with its own kind, so it goes to that list's `<dir>/<Kind>.yaml`, or to stdout preceded by a newline exactly when its field index is above 0; every non-empty list is written |
| Printing.CurrentCollectionsItems | pkg/converter/converter.go:72-75 | the lists of a current set, in field order, hold its IPAddressPools, then L2Advertisements, then BGPAdvertisements |
| Printing.CurrentWritesSound | pkg/converter/converter.go:273-305 | each write of a converted set is its IPAddressPoolList (no newline), its L2AdvertisementList or its BGPAdvertisementList (newline on stdout), whole |
| Printing.CurrentWritesComplete | pkg/converter/converter.go:273-305 | each non-empty list of a converted set is written whole under its list kind |
| Printing.StdoutNewlineFollowsFieldIndex | pkg/converter/converter.go:280-300 | with no IPAddressPools, the first stdout write (the L2Advertisements) is still preceded by a newline |
| Fragments.FragmentShape | pkg/converter/converter.go:206-252 | each object a pool converts to is in the pool's namespace, is not an AddressPool, and is an IPAddressPool only at position 0 |
| Fragments.FragmentDistinct | pkg/converter/converter.go:206-252 | a pool's converted objects have pairwise distinct keys |
| Fragments.FragmentsDisjoint | pkg/converter/converter.go:206-252 | two distinct pools convert to objects with disjoint keys |
| Fragments.CountKindAppend | pkg/converter/converter.go:216-251 | per-kind counts add up over concatenation |
| Fragments.CountKindUniform | pkg/converter/converter.go:216-251 | a sequence of one kind counts its length for that kind and 0 for the others |
| Fragments.FragmentCounts | pkg/converter/converter.go:216-251 | one pool converts to 1 IPAddressPool, 1 L2Advertisement if layer2, `n` BGPAdvertisements if bgp with `n` effective advertisements, and no AddressPool |
| Migration.FragmentHasNoLegacyKey | pkg/converter/converter.go:206-252 | no converted object has an AddressPool key |
| Migration.MigratePoolLegacyEffect | pkg/converter/converter.go:376-389 | a round touches no AddressPool but its own, and a successful round has removed it |
| Migration.MigratePoolUnsupported | pkg/converter/converter.go:376-379 | a pool of an unknown protocol ends the round with an error before the store is changed |
| Migration.MigratePoolSucceedsIff | pkg/converter/converter.go:376-389 | a round succeeds iff the protocol is known, the pool's delete is not refused, and no replacement's key is taken or refused |
| Migration.MigratePoolSuccess | pkg/converter/converter.go:376-389 | a successful round replaces the pool's key by its replacements' keys, stores each replacement and keeps every other entry |
| Migration.MigratePoolLeavesGap | pkg/converter/converter.go:382-389 | with no rollback, a failure while creating leaves the pool deleted and only the replacements before the failing one created |
| Migration.CurrentKeysNotLegacy | pkg/converter/converter.go:71-75 | no object of a current set has an AddressPool key |
| Migration.CurrentResourcesAppend | pkg/converter/converter.go:206-256 | the objects and keys of two appended current sets are the union of theirs |
| Migration.ReplacedByStep | pkg/converter/converter.go:356-390 | replacing pools round by round composes into replacing all of them |
| Migration.MigratePoolsMatchesConversion | pkg/converter/converter.go:356-390 | successful rounds equal converting all the migrated pools at once: their keys are removed, the whole conversion is stored, and everything else is unchanged |
| Migration.ConvertedKeysFromFragments | pkg/converter/converter.go:206-256 | every key of a conversion comes from one of the pools |
| Migration.MigratePoolsSucceed | pkg/converter/converter.go:356-390 | rounds over distinct, supported, unrefused pools whose replacements are not yet stored all succeed |
| Migration.KindKeysInsert | pkg/converter/converter.go:104-116 | storing a new object raises the count of its kind by one |
| Migration.CreateAllKindCount | pkg/converter/converter.go:102-122 | a successful create raises each kind's count by the number of created objects of that kind |
| Migration.KindKeysRemove | pkg/converter/converter.go:52 | removing a stored key lowers its kind's count by one |
| Migration.MigratePoolCounts | pkg/converter/converter.go:376-389 | a successful round removes one AddressPool and adds 1 IPAddressPool, 1 L2Advertisement for layer2 and one BGPAdvertisement per effective advertisement for bgp |
| Migration.MigrationCounts | pkg/converter/converter.go:356-390 | successful rounds over distinct stored pools lower the AddressPool count by their number, and raise IPAddressPools by the same number, L2Advertisements by the layer2 count and BGPAdvertisements by the advertisement count |
| Migration.BackupKeepsLastPool | pkg/converter/converter.go:369-373 | with a backup directory, the backup directory ends holding only `AddressPoolList.yaml`, which contains only the last pool fetched (written before that round converts, deletes and creates, so also when that round fails) |
| Migration.MigrationStep | pkg/converter/converter.go:356-390 | a successful round keeps the loop's bookkeeping and strictly lowers the number of stored AddressPools |
| Migration.MigrationDone | pkg/converter/converter.go:362-364 | an empty listing means every original AddressPool has been migrated and none remains |
| Migration.MigrateRound | pkg/converter/converter.go:375-389 | one loop body: convert, delete the pool, create its replacements, as the round function states |
| Migration.OnlineMigration | pkg/converter/converter.go:352-392 | a failed listing changes nothing; otherwise the store ends as the rounds over the fetched pools leave it, the backups are one per round, and on success no AddressPool remains and every original one was migrated |
| Migration.OfflineOutputSucceedsIff | pkg/converter/converter.go:339-342 | the offline output fails iff a pool has an unknown protocol, and then the error is UnsupportedProtocol of the first such pool |
| Migration.OfflineOutputWrites | pkg/converter/converter.go:339-348 | a successful offline run writes every converted object, IPAddressPools then L2Advertisements then BGPAdvertisements; each write is one whole list of the converted set under its list kind, so it goes to that list's `<Kind>.yaml`, or to stdout with a newline exactly before the L2 and BGP lists; every non-empty list is written |
| Migration.OfflineMigration | pkg/converter/converter.go:321-350 | with no input directory, the store listing, unlimited, is converted and written; otherwise the directory's pools are; retrieval and conversion errors are returned |
| Scenarios.ListingConversionShape | pkg/converter/converter_test.go:22-74 | the three-pool fixture, in listing order, converts to 3 IPAddressPools, 1 L2Advertisement and 3 BGPAdvertisements, pool by pool |
| Scenarios.ListingOrderIsListing | pkg/converter/converter_test.go:744-750 | the by-name order `ap-bgp`, `ap-bgp2`, `ap-l2` is a listing of the store holding the fixture |
| Scenarios.FixtureNames | pkg/converter/converter_test.go:130-220 | the fixture's derived names are `ap-l2-l2-advertisement`, `ap-bgp-bgp-advertisement-0`/`-1` and `ap-bgp2-bgp-advertisement-0` |
| Scenarios.OfflineFixture | pkg/converter/converter_test.go:130-220 | the offline conversion of the fixture, as the store lists it, has IPAddressPools `ap-bgp`, `ap-bgp2`, `ap-l2` in that order, the expected L2Advertisement, and BGPAdvertisements with the expected names and local preferences |
| Scenarios.FixtureStoreKinds | pkg/converter/converter_test.go:858-865 | the fixture store holds the 3 AddressPools and no current object |
| Scenarios.ListingOrderCounts | pkg/converter/converter_test.go:22-74 | in listing order the fixture has 1 layer2 pool and 3 effective BGP advertisements |
| Scenarios.FixtureMigrationSucceeds | pkg/converter/converter_test.go:858-865 | every online round over the fixture succeeds |
| Scenarios.OnlineFixture | pkg/converter/converter_test.go:858-865 | online migration of the fixture leaves 0 AddressPools, 3 IPAddressPools, 1 L2Advertisement and 3 BGPAdvertisements |

## Left out

- Serialization: `printObj` and the YAML/JSON printers are not modelled. A write is recorded as its sink, format, list kind and objects. The decoder is a function parameter.
- File-system I/O: reading the directory and its files is given as a `DirectoryListing` value, whose unreadable cases are explicit. Errors from opening output files and from the printer are not modelled.
- The `log.Fatal` on a failed backup write, and the log lines, are not modelled: they are process exit and logging.
- Error message text and wrapping (`fmt.Errorf` with `%w`) are not modelled. Errors are variants that keep the failing object.
- The API server is a map with a fixed set of refused keys and a listing-failure flag. Transient or time-varying failures are not modelled, and neither are concurrent writers or the fake client's quirks.
- The listing order is not modelled: a listing is any ordering of the stored pools. `Scenarios.OnlineFixture` uses one concrete order; the counting lemmas hold for any order, but no scenario is stated for every order.
- `TypeMeta` and `APIVersion` fields, status fields and the deep copy are not modelled: they do not affect which objects are created.
- The `!ok` branch of `PrintObjects`, where a field is not a runtime object, is not modelled: every field of both object sets is a list.
- `main.go`, the command-line flags and the scheme setup are not part of this model.
