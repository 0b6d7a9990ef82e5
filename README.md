# gorjun catalog and repository front-ends in Dafny

gorjun is a content-addressed artifact repository. Clients upload Debian packages, raw blobs and
container templates. The repository keeps one copy per content hash, and any number of owners can
reference it. This project models:

- The metadata catalog of `db/db.go`. This is a bolt database with five top-level buckets:
  - `MyBucket`: hash to record, with a nested bucket of owners per record;
  - `SearchIndex`: display name to (timestamp to hash);
  - `Users`: each user's key and nested `files` bucket;
  - `Tokens`;
  - `AuthID`.
  Each exported function is one transaction. Module `Catalog` states it as a function from state to
  state. Module `Db` states it as a method of the class `Store`, whose fields are the five buckets;
  each method is proved equal to its `Catalog` function. Module `CatalogProps` proves what the
  catalog promises: reference-counted deletion, owner bookkeeping, the name index, latest-version
  resolution, token expiry and single-use exchange ids.
- The Debian front-end of `apt/apt.go`:
  - the `key: value` control-file parser;
  - the stanza that writePackage appends to the Packages list;
  - the metadata an upload records;
  - the deleteInfo loop that drops a package's stanza from the Packages list.
- The template front-end of `template/template.go`: getConf reads a `key = value` config and the
  archive name the upload records.
- The raw front-end of `raw/raw.go`: the Download routing and redirect, and the info map that Upload
  hands to the catalog.

The bolt behaviour the transactions rely on is written out in the model:

- Put refuses an empty key.
- CreateBucket refuses an empty name and an existing key.
- A key holds either a plain value or a nested bucket, never both.
- A panic inside an update rolls the whole transaction back.

Module `Text` gives the Go `strings` functions the code uses. Examples are Split, which always yields
at least one piece, and Replace with count 1.

Points of the code's behaviour that the model keeps and a reader may not expect:

- Delete's remaining count is `b.Stats().KeyN - 1` (db/db.go:123). Bolt's Stats reads the committed
  pages, so KeyN is the owner count before this transaction's delete, and the model returns that
  count minus one. A caller who is not an owner of a single-owner record therefore gets 0 and purges
  it (`CatalogProps.DeleteByOther`).
- The index cleanup of Delete scans the index entry named in the deleting user's `files` bucket
  (db/db.go:111-117, 130), not one found from the record itself. `Catalog.Delete` does the same; this
  is the second finding below.
- A second Write of an existing hash does not touch its attributes or the index: CreateBucket fails
  at db/db.go:72 and the options are dropped (`CatalogProps.WriteExisting`). Only the user's files
  bucket (when first created) and the owner bucket change.
- CheckToken refuses a token only when `date + 60m` is strictly before now (db/db.go:263), so a
  token is still honoured at exactly 60 minutes (`CatalogProps.TokenTtlWindow`).

## Model

| member | source | states |
|---|---|---|
| Catalog.EmptyValid | db/db.go:25-38 | the five empty buckets initdb creates satisfy the catalog invariant |
| Catalog.Owner | db/db.go:59-61 | the owner a write is filed under is never empty |
| Catalog.ApplyOptions | db/db.go:84-88 | every key of the result is a base attribute or a non-empty key of some option map |
| Catalog.AddUserFile | db/db.go:65-69 | associating a file with a user keeps the user bucket invariant |
| Catalog.NewRecord | db/db.go:71-88 | a freshly created record is well formed |
| Catalog.AddOwner | db/db.go:95-100 | adding an owner keeps a record well formed |
| Catalog.AddOwnerTo | db/db.go:95-100 | adding an owner to the record of a key keeps the file bucket invariant |
| Catalog.Write | db/db.go:58-105 | the write is rolled back exactly when it would create a record under a new non-empty key with an empty display name (the nil-bucket panic at line 91) |
| Catalog.WriteValid | db/db.go:58-105 | a committed write keeps the catalog invariant |
| Catalog.Drop | db/db.go:130-137 | the index cleanup keeps exactly the timestamps whose hash differs from the deleted one, with their hashes |
| Catalog.Delete | db/db.go:107-146 | delete keeps the catalog invariant |
| Catalog.SearchOverStep | db/db.go:199-203 | visiting the next name bucket in key order extends the prefix scan's result by that bucket's hashes |
| Catalog.MaxTimeExists | db/db.go:213 | a non-empty set of timestamps has a greatest element |
| Catalog.MaxTime | db/db.go:213 | the cursor's last key is a timestamp of the bucket, and no timestamp of the bucket is greater |
| Catalog.RegisterUser | db/db.go:221-229 | registering keeps the catalog invariant |
| Catalog.SaveToken | db/db.go:243-252 | saving a token keeps the catalog invariant |
| Catalog.SaveAuthID | db/db.go:275-280 | saving an exchange id keeps the catalog invariant |
| Catalog.CheckAuthID | db/db.go:282-292 | consuming an exchange id keeps the catalog invariant |
| Catalog.AlterDB | db/db.go:42-56 | the schema migration keeps the catalog invariant |
| Catalog.SaveTokenHashed | db/db.go:243-252 | corrected SaveToken (stores under the digest) keeps the catalog invariant |
| Catalog.DeletePurging | db/db.go:127-141 | corrected Delete (purges the hash from every index bucket) keeps the catalog invariant |
| CatalogProps.ApplyOptionsKeys | db/db.go:84-88 | a key is in the attributes iff it is a base attribute or a non-empty key of some option map |
| CatalogProps.ApplyOptionsLastWins | db/db.go:84-88 | for a key in several option maps, the last map that holds it decides its value |
| CatalogProps.ApplyOptionsKeeps | db/db.go:73-88 | a base attribute that no option names keeps its value |
| CatalogProps.OneOption | db/db.go:84-88 | one option map overrides the base attributes at every non-empty key |
| CatalogProps.Overlay | db/db.go:175-188 | with one option map, Info reports each key of the map with the map's value, plus the base attributes and owner |
| CatalogProps.NewRecordAttrs | db/db.go:71-88 | a new record holds name = display name, date = the timestamp, size only when the blob's size is known, and the option keys; the options win over the three |
| CatalogProps.WriteOwner | db/db.go:95-100 | after a write the owner owns the key iff the key is non-empty and either an owner bucket already exists, the record holds no plain owner value, or (for a new record) no option is named owner; no earlier ownership is lost |
| CatalogProps.WriteEmptyOwner | db/db.go:59-61 | a write with an empty owner files the existing record under public |
| CatalogProps.WriteAgain | db/db.go:58-105 | writing a key an owner already owns and lists changes nothing |
| CatalogProps.WriteFresh | db/db.go:71-93 | a write under a new key commits iff the name is non-empty; it then adds exactly that record, and the index entry of the name gains timestamp to key; nothing else in files or index changes |
| CatalogProps.WriteFreshFiles | db/db.go:71-88 | a committed write under a new key adds exactly that record, with the base attributes overlaid by the options |
| CatalogProps.WriteFreshIndex | db/db.go:90-92 | a committed write under a new key adds timestamp to key in the name's index bucket, creating it if needed, and leaves the other buckets alone |
| CatalogProps.WriteOneInfo | db/db.go:58-105 | a write of one option map under a new key commits; Info then shows the base attributes overlaid by the map, with owner public; other records are kept |
| CatalogProps.WriteRead | db/db.go:58-158 | a display name written under a new hash is what Read returns for it; the writer owns the hash; Read of every other hash is unchanged |
| CatalogProps.WriteExisting | db/db.go:72 | a write under an existing key always commits and leaves the record's attributes, the index, the tokens and the exchange ids as they were |
| CatalogProps.WriteUserFiles | db/db.go:65-69 | the user bucket is created if missing and keeps its key; its files bucket is created once, with key to name, and is never updated; other users are untouched |
| CatalogProps.RegisterAfterWrite | db/db.go:221-229 | after a write has created the owner's user bucket, registering that user is refused and changes nothing |
| CatalogProps.RegisterThenKey | db/db.go:221-241 | registering an existing user changes nothing; a new user's key is then returned by UserKey; other users' keys are unchanged |
| CatalogProps.UserKeyMissing | db/db.go:231-241 | UserKey is empty for an unknown user or one without a key |
| CatalogProps.DeleteRecord | db/db.go:119-141 | remains is the owner count before the delete minus one (0 without an owner bucket); the caller owns nothing afterwards; the record survives iff remains > 0, minus the caller as owner; other records, tokens and exchange ids are untouched |
| CatalogProps.DeleteUsers | db/db.go:111-117 | delete drops the key from the caller's files bucket only; user keys and other users are unchanged |
| CatalogProps.DeleteIndex | db/db.go:127-137 | if owners remain the index is untouched; otherwise only the bucket of the name the caller recorded loses the entries of the hash |
| CatalogProps.DeleteShared | db/db.go:119-141 | deleting one of two owners of a record keeps the record and the other owner |
| CatalogProps.DeleteByOther | db/db.go:119-141 | a caller who does not own a single-owner record gets 0 and purges the record |
| CatalogProps.DeleteUnknown | db/db.go:119-141 | deleting an unknown hash reports 0 and leaves the records unchanged |
| CatalogProps.ListRead | db/db.go:148-173 | List holds exactly the records with a name, each mapped to what Read returns; Read is empty for the others |
| CatalogProps.InfoOwner | db/db.go:175-188 | Info always reports owner public, and otherwise exactly the record's attributes (none for an unknown hash); its name agrees with Read |
| CatalogProps.SearchUnique | db/db.go:194-208 | the result of the prefix scan is determined by the index and the query |
| CatalogProps.SearchSound | db/db.go:194-208 | every hash found maps to a name starting with the query whose bucket lists it; no matching name means an empty result |
| CatalogProps.SearchAfterWrite | db/db.go:194-208 | a hash just written under a name with the query as prefix is found |
| CatalogProps.LastHashLatest | db/db.go:210-219 | LastHash is the hash at the greatest timestamp of the name's bucket, or empty for an unknown or empty bucket |
| CatalogProps.LastHashAfterWrite | db/db.go:210-219 | writing h1 and then h2 under a name makes LastHash of that name h2 |
| CatalogProps.TokenTtlWindow | db/db.go:254-273 | a token saved at T is checked within 60 minutes: it is honoured at T + 59m and refused at T + 61m |
| CatalogProps.CheckTokenFound | db/db.go:254-273 | CheckToken returns a name iff the token's digest is stored and not expired, and then the stored name |
| CatalogProps.AuthIDOnce | db/db.go:275-292 | a saved exchange id yields its name once; a second check yields empty; the id is then gone |
| CatalogProps.AlterDBMigrates | db/db.go:42-56 | every plain owner value becomes an owner bucket holding that owner; records without one are unchanged; the migration is idempotent |
| CatalogProps.SaveTokenNeverChecks | db/db.go:243-273 | a token saved as written is never honoured by CheckToken (its digest differs from it) |
| CatalogProps.SaveTokenHashedChecks | db/db.go:243-273 | a token saved under its digest is honoured at once |
| CatalogProps.EmptyIndexLive | db/db.go:25-38 | in a new database every index entry names a live record |
| CatalogProps.DeleteLeavesStaleIndex | db/db.go:65-137 | writing h1 "a" and then h2 "b" as u, then deleting h2 as u, leaves an index entry for the purged h2 |
| CatalogProps.WriteKeepsIndexLive | db/db.go:58-105 | a write keeps every index entry pointing at a live record |
| CatalogProps.DeletePurgingKeepsIndexLive | db/db.go:127-141 | the corrected Delete keeps every index entry pointing at a live record |
| Db.NewAttrs | db/db.go:71-88 | the attributes of a new record: the base attributes, then the option maps put in order |
| Db.PutOptions | db/db.go:84-88 | the options loop leaves the attributes ApplyOptions describes |
| Db.OptionsPrefix | db/db.go:84-88 | one more option map overrides the attributes at its non-empty keys |
| Db.Visit | db/db.go:200-203 | visiting a name bucket maps each of its hashes to the name and keeps the others |
| Db.AttachOwner | db/db.go:95-100 | the owner step of Write adds the owner to the record's owner bucket |
| Db.DropEntries | db/db.go:130-137 | the cleanup, modelled as a filter, keeps exactly the entries whose hash differs from the deleted one |
| Db.UserStep | db/db.go:65-69 | the users step of Write |
| Db.RecordStep | db/db.go:71-93 | the record step fails iff it creates a record with an empty name; otherwise it adds the record and the index entry for a new key, and changes nothing for an existing or empty one |
| Db.WriteTx | db/db.go:62-103 | the update callback of Write computes the catalog's Write |
| Db.DeleteTx | db/db.go:108-143 | the update callback of Delete computes the catalog's Delete |
| Db.SearchIndex | db/db.go:196-206 | the cursor loop maps each hash of the matching name buckets to the greatest matching name listing it |
| Db.SearchLoopStart | db/db.go:198-199 | the scan's invariant holds before the first matching name |
| Db.SearchLoopStep | db/db.go:199-204 | one visited name keeps the scan's invariant |
| Db.Store.constructor | db/db.go:25-38 | a new store holds the five empty buckets |
| Db.Store.Write | db/db.go:58-105 | the buckets become the catalog's Write if it commits, and stay as they were if it rolls back |
| Db.Store.Delete | db/db.go:107-146 | the buckets and remains are the catalog's Delete |
| Db.Store.Read | db/db.go:148-158 | the name of the record, or empty |
| Db.Store.List | db/db.go:160-173 | every named record's hash to its name |
| Db.Store.Info | db/db.go:175-188 | the record's attributes with owner public |
| Db.Store.Search | db/db.go:194-208 | the result of the prefix scan (see SearchSound, SearchUnique) |
| Db.Store.LastHash | db/db.go:210-219 | the latest hash under the name |
| Db.Store.RegisterUser | db/db.go:221-229 | the new buckets are the catalog's RegisterUser |
| Db.Store.UserKey | db/db.go:231-241 | the user's key or empty |
| Db.Store.SaveToken | db/db.go:243-252 | the new buckets are the catalog's SaveToken |
| Db.Store.CheckToken | db/db.go:254-273 | the name of an unexpired token stored under the digest |
| Db.Store.SaveAuthID | db/db.go:275-280 | the new buckets are the catalog's SaveAuthID |
| Db.Store.CheckAuthID | db/db.go:282-292 | the name found, and the exchange id removed |
| Db.Store.CheckOwner | db/db.go:294-305 | whether the owner is in the record's owner bucket |
| Db.Store.AlterDB | db/db.go:42-56 | the new buckets are the catalog's AlterDB |
| Apt.GetControl | apt/apt.go:59-68 | the loop over the control lines builds the map ControlOf describes |
| Apt.ControlLine | apt/apt.go:62-65 | a line `k:rest` maps k to rest up to its next ':', minus one leading space |
| Apt.ControlNoColon | apt/apt.go:62-63 | a line without ':' is ignored |
| Apt.ControlFromAppend | apt/apt.go:61-66 | parsing two runs of lines is parsing their concatenation |
| Apt.ControlKeys | apt/apt.go:61-66 | a key is in the map iff some line sets it |
| Apt.ControlLastWins | apt/apt.go:61-66 | the last line that sets a key decides its value |
| Apt.ControlUntouched | apt/apt.go:61-66 | a key no line sets keeps its value |
| Apt.WritePackage | apt/apt.go:94-99 | the appended text is one `k: v` line per key in visiting order, then a blank line |
| Apt.EntryLines | apt/apt.go:94-97 | one stanza line per visited key |
| Apt.SplitBody | apt/apt.go:94-99 | the appended text splits into the stanza lines and two empty pieces |
| Apt.EntryLine | apt/apt.go:62-64 | a stanza line of a colon-free key and value parses back to that key and value |
| Apt.ControlEntries | apt/apt.go:59-68 | parsing the stanza lines puts each visited key's value over the map |
| Apt.RestrictStep | apt/apt.go:94-97 | one more visited key adds its value over the map |
| Apt.PackageRoundTrip | apt/apt.go:59-99 | for colon-free keys and values, getControl of the text writePackage appends gives back the metadata, in any visiting order |
| Apt.UploadMeta | apt/apt.go:119-126 | the upload metadata holds the seven computed fields with their values over exactly the control fields |
| Apt.UploadRecord | apt/apt.go:119-128 | the write of a new upload commits; Info then shows type apt, the md5, the file name and the sha256, whatever the control file says |
| Apt.DeleteInfo | apt/apt.go:176-196 | the loop over the Packages lines computes the rewrite Filtered describes |
| Apt.Block | apt/apt.go:193 | a non-empty run of lines makes a non-empty block |
| Apt.RunAppend | apt/apt.go:178-196 | the loop over two runs of lines is the loop over their concatenation |
| Apt.RunLines | apt/apt.go:187-194 | a run of non-empty lines is collected as a block unless one ends with the hash, which drops the block and skips |
| Apt.RunSkipped | apt/apt.go:179-180 | while skipping, non-empty lines are ignored |
| Apt.StanzaRun | apt/apt.go:178-196 | a stanza and its blank line emit the stanza iff no line of it ends with the hash |
| Apt.LayoutRun | apt/apt.go:178-196 | the loop over stanzas emits those without a line ending with the hash, and records whether one was dropped |
| Apt.DropsCons | apt/apt.go:188-191 | a stanza list drops something iff its first stanza is dropped or its rest drops something |
| Apt.FilterStanzas | apt/apt.go:169-207 | deleteInfo rewrites the list iff some stanza has a line ending with the hash, and then writes the other complete stanzas, each with its blank line; the final unterminated stanza is lost |
| Apt.LayoutExists | apt/apt.go:178 | every Packages list is a sequence of blank-terminated stanzas and a final unterminated one |
| Apt.LaidCons | apt/apt.go:181-186 | a stanza ending at a blank line followed by a laid-out rest is laid out |
| Apt.LayoutCons | apt/apt.go:181 | a stanza's lines, its blank line, then the rest form the list |
| Apt.FirstBlank | apt/apt.go:181 | the first blank line ends a run of non-empty lines |
| Apt.FilterUnchanged | apt/apt.go:197 | with no line ending with the hash the list is left alone |
| Apt.LayoutMember | apt/apt.go:178 | every stanza line is a line of the list |
| Template.Set | template/template.go:66-73 | setting one field changes that field only and keeps the hash |
| Template.Initial | template/template.go:55-61 | before the config is read each field holds its own lookup key and the hash is given |
| Template.Match | template/template.go:65-74 | the switch selects the first field, in case order, whose current value is the key, or none |
| Template.GetConf | template/template.go:54-77 | the loop over the config lines computes the template ConfOf describes (none on the panic) |
| Template.ReadLines | template/template.go:63-75 | the loop over a list of lines computes ConfFrom |
| Template.Switch | template/template.go:64-74 | one iteration computes Step |
| Template.SwitchStep | template/template.go:64-74 | one line sets the first matching field to its trimmed second piece, panics without one, and changes nothing when no field matches |
| Template.ArchiveName | template/template.go:85 | the recorded name is name-subutai-template_version_arch.tar.gz |
| Template.StepLine | template/template.go:64-74 | a line `a=b` selects by trimmed a and sets the field to b up to its next '=', trimmed |
| Template.StepPanics | template/template.go:64-67 | a line matching a field without '=' panics, whatever follows |
| Template.StepFirstOnly | template/template.go:64-74 | a line changes at most the selected field, never the hash |
| Template.StepRetires | template/template.go:64-74 | once a field is set to another value, the same key no longer selects it |
| Template.ConfHash | template/template.go:54-77 | reading the config never changes the hash |
| Template.ConfPlaceholder | template/template.go:54-77 | a field whose key no line names keeps its lookup key as its value |
| Template.LineStep | template/template.go:64-74 | the line `key = v` for a field still at its lookup key sets the field to v |
| Template.PaddedKey | template/template.go:65 | a padded lookup key trims back to itself |
| Template.Padded | template/template.go:65 | a padded clean key trims back to itself |
| Template.PaddedValue | template/template.go:67 | a padded clean value trims back to itself |
| Template.ConfRoundTrip | template/template.go:54-85 | the four-line config for clean values reads back to exactly those values, and gives the archive name of line 85 |
| Template.ConfLines | template/template.go:63-75 | the four config lines read back to their values |
| Template.ConfStep | template/template.go:63-75 | a leading line for a still-unset field sets it and reads on |
| Raw.Args | raw/raw.go:59 | there is always at least one path segment |
| Raw.RewriteNone | raw/raw.go:57-58 | a URI holding neither rewrite pattern is left as it is |
| Raw.LegacyGetServes | raw/raw.go:57-63 | `/kurjun/rest/file/get...` becomes `/kurjun/rest/raw/download...` and goes to the download handler |
| Raw.DownloadServes | raw/raw.go:59-63 | a raw URI whose first segment starts with download goes to the download handler |
| Raw.RouteSegments | raw/raw.go:64-72 | `<owner>/<rest>` looks up the owner's file named by the second segment up to its first '?' |
| Raw.RouteSingle | raw/raw.go:59-64 | a single segment that does not start with download does nothing |
| Raw.DownloadRedirects | raw/raw.go:56-77 | Download redirects iff the route is a lookup that finds an id, to the download path with the first id and the token; it serves iff the route says so |
| Raw.TargetServes | raw/raw.go:74 | the redirect target is itself served by the download handler |
| Raw.UploadInfo | raw/raw.go:19-36 | no record unless both digests are non-empty; otherwise md5, sha256, type raw, the tag, and the first version only when one was sent |
| Raw.InfoShown | raw/raw.go:23-36 | Info of the info map shows the digests, type raw, the tag and a version only when sent |
| Raw.RawUploadRecord | raw/raw.go:38-43 | the write of a raw upload under a fresh id commits; Info shows the digests, type, tag and version as sent; the record under the md5 itself is left as it was |

## Left out

- Concurrency and durability. Bolt serializes all updates, so each transaction is one atomic step of
  the model, and nothing is said about crashes or the file on disk.
- Bolt limits (key and value sizes) and bolt's internal layout are not modelled. Only the behaviour
  of Put, Get, Delete, CreateBucket, CreateBucketIfNotExists, DeleteBucket, Cursor and ForEach is.
- The clock is a parameter, `now`, of type `Time` (nanoseconds). The `date` attribute is stored as
  the decimal text of that number rather than RFC 3339 text. Search-index keys are the `Time` values
  themselves, which assumes that MarshalText's byte order agrees with the order of time. Timestamps
  of successive writes are inputs; LastHashAfterWrite states the ordering it needs as a precondition.
- LastHashLatest and LastHashAfterWrite: the byte order of MarshalText's RFC 3339 text does not
  always agree with the order of time, and the model does not capture where it does not:
  - In UTC the fraction is trimmed of trailing zeros and the text ends in 'Z', which sorts after '.'
    and the digits. So "...:05Z" sorts after "...:05.5Z", and "...:05.1Z" after "...:05.12Z". Two
    writes of one name within the same second can make `Cursor().Last()` (db/db.go:213) return the
    earlier hash.
  - In a local zone at a daylight-saving fall-back, the later time can have the smaller text.
- The file size lookup of Write (`os.Open`/`Stat` of the blob) is a parameter, `size`, that is None
  when the blob cannot be opened.
- CheckToken's sha256 hex digest is a function parameter, `digest`. Any deterministic function gives
  the same results.
- Go map iteration order is unspecified. Within one option map all keys are distinct, so order does
  not matter there. writePackage's visiting order is a parameter, `order`.
- HTTP is modelled only as strings:
  - the request URI, and the `token` query value as a parameter;
  - the form values `version` and `tag` as parameters;
  - url.Parse and url.ParseQuery are not modelled;
  - status codes, response bodies and `http.Redirect` itself are not modelled; Download's `Redirect`
    action carries the location.
- The uuid of a raw upload is a parameter, `id`.
- The upload and download helper packages are not part of this model. Their results (md5, sha256,
  owner, hashes of the blob, the download handler) are inputs or the `Serve` route.
- db.UserFile is not part of this model. Download takes it as a function parameter.
- The calls db.AddTag, db.MakePrivate and db.MakePublic of raw Upload are not part of this model. The
  model stops at the write at raw/raw.go:43.
- The call `db.Delete(owner, "apt", md5)` (apt/apt.go:114), the two-argument `db.Write` and
  `db.Read` of the template upload (template/template.go:85-86) and the two-argument
  `db.LastHash(file, "apt")` of apt Download (apt/apt.go:144) belong to other versions of the catalog
  API and are not connected to it. Only the four-argument Write (owner, key, value, one option map)
  of apt/apt.go:128 and raw/raw.go:43 is. ArchiveName gives the name the template upload records.
- File I/O is not modelled:
  - readDeb, readTempl, readPackages and getSize;
  - opening, creating and renaming the Packages file;
  - the `Packages.new` rename.
  The Packages list is a sequence of lines. deleteInfo's result is the new text, or None when it
  leaves the file alone.
- Logging calls are not modelled.
- AlterDB mutates the records inside ForEach. The model writes this as a map over the records.
- Catalog.Drop and Db.DropEntries: Delete's index cleanup deletes keys inside `b.ForEach`
  (db/db.go:131-136). The model writes this as a filter on the entry's map, and bolt's cursor
  behaviour when keys are deleted during the iteration is not modelled.
- These HTTP handlers are not modelled, because they call helper packages that are not part of this
  model, or a catalog API of another version:
  - raw Delete calls upload.Delete (raw/raw.go:81);
  - raw Info calls download.Info (raw/raw.go:97);
  - raw List calls download.List (raw/raw.go:111);
  - apt Delete calls upload.Delete, then deleteInfo, which is modelled (apt/apt.go:210-221);
  - apt Info calls download.Info (apt/apt.go:223-230);
  - apt Download calls the two-argument db.LastHash above, then opens the file (apt/apt.go:138-153);
  - template Download calls download.Handler (template/template.go:90-93);
  - template Show calls download.List (template/template.go:95-98);
  - template Search calls download.Search (template/template.go:100-102).
- Text: strings are sequences of characters. There is no Unicode handling, and bytes and runes
  coincide.
- torrent/torrent.go is not part of this model.

## Findings

| source | as written | input that shows it | evidently intended | confidence | as-written member | corrected member |
|---|---|---|---|---|---|---|
| db/db.go:243-257 | SaveToken creates the Tokens bucket under the raw token, but CheckToken looks the token up under its sha256 hex digest | SaveToken("u", t) then CheckToken(t) at once: the digest of t is not stored, so the result is empty | tokens are stored under the digest that CheckToken looks up, so a saved token is honoured for 60 minutes | not executed | CatalogProps.SaveTokenNeverChecks | CatalogProps.SaveTokenHashedChecks |
| db/db.go:109-137 | Delete takes the index name from the user's files bucket. Write fills that bucket only when it creates it, so every later hash of the user has no recorded name, and its index entry survives the purge | Write("u","h1","a"), Write("u","h2","b"), Delete("u","h2"): h2 is purged but SearchIndex "b" still maps a timestamp to h2 | the purge removes the hash from the name index, so every index entry names a live record | not executed | CatalogProps.DeleteLeavesStaleIndex | CatalogProps.DeletePurgingKeepsIndexLive |

For the first finding, the corrected definition is `Catalog.SaveTokenHashed`. For the second, it is
`Catalog.DeletePurging`. The token properties (`CatalogProps.TokenTtlWindow`) are stated about the
corrected SaveTokenHashed. `Db.Store` mirrors db/db.go as written.
