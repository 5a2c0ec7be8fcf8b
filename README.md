# Session duplicate tracking and storage lifecycle of the 3D-quote backend

This project models, in Dafny, the `StorageService` of the 3D-quote backend
(`backend/services/storage_service.py`) and its configuration
(`backend/config/storage.py`), and proves properties of the model.

- **Session tracking.** `StorageService` keeps two process-wide dictionaries:
  session id → set of content hashes, and session id → (filename → hash).
  `is_duplicate_in_session` reports whether a hash is already in the session and
  whether the filename already maps to a different hash. `add_file_to_session`,
  `clear_session` and `remove_file_from_session` change the two dictionaries.
  `get_session_file_count` counts distinct hashes.
  In the model the two dictionaries are the fields of class `Storage.StorageService`.
  `Sessions.Tracking` is the same pair as a value, with one function per
  operation; each method is proved to leave exactly the value that function gives.
- **Uploads.** `save_file_with_duplicate_check` has three outcomes. Content already
  in the session is a duplicate, even when the name also conflicts. A known filename
  with different content is a name conflict. Anything else is stored under
  `<timestamp>_<uuid><suffix>` and registered. Storage goes to the local upload
  directory (the file plus a `<name>.meta` sidecar holding the upload time) or to
  the S3 bucket.
- **Expiry.** `_cleanup_local_files` visits every `*.meta` sidecar. It deletes the
  file and sidecar whose recorded upload time is strictly before
  `now - auto_delete_hours`. A sidecar it cannot read is skipped (the source also
  logs it).
- **Configuration.** `StorageConfig` selects the backend and checks that an S3
  configuration names a bucket, an access key id and a secret key.

Files: `wrappers.dfy` (Option, Result), `config.dfy` (module `Config`), `paths.dfy`
(module `Paths`: the pathlib `name`/`suffix`/`stem` rules and the unique stored
name), `sessions.dfy` (module `Sessions`), `local_disk.dfy` (module `LocalDisk`: the
upload directory and the sweep), `storage_service.dfy` (module `Storage`: the class).

Inputs the source takes from its surroundings are parameters of the model:

- the SHA-256 hex digest is the function `digest` given to the constructor;
- `datetime.now()` is `UploadContext.now` and the `now` of `CleanupLocalFiles`, in whole seconds;
- the `strftime` text is `UploadContext.timestamp`, and `uuid4()` is `UploadContext.uniqueId`;
- the URL boto3 presigns is `UploadContext.presignedUrl`;
- whether a backend write succeeds is `UploadContext.writeSucceeds`;
- the order in which `glob("*.meta")` yields the sidecars is the `listing` of `CleanupLocalFiles`;
- whether boto3 could be imported is the `s3Available` of `Open`;
- what `json.loads` and `datetime.fromisoformat` make of a stored file's bytes is the
  function `parseUploadTime` given to the constructor.

The upload directory is a map from file name to `Upload(bytes)` or
`Metadata(upload time)`. A metadata entry stands for a sidecar the service wrote, and
records the time its JSON holds. A time of `None` stands for a sidecar that cannot be
opened, parsed, or lacks `upload_time`. The sweep reads any other file that `*.meta`
matches through `parseUploadTime`. The S3 bucket is a map from
key to object.

Behaviour of the code that the model keeps as written:

- The session count is the number of distinct hashes, not of filenames.
- `add_file_to_session` overwrites a filename's hash but never drops the old hash
  from the set (`AddKeepsEarlierHashes`).
- `remove_file_from_session` discards the hash even when another filename still
  maps to it. The same content uploaded again under that other filename is then no
  longer a duplicate (`RemoveDropsSharedHash`).
- `_delete_local("")` joins the empty name to the upload directory itself. `unlink`
  then fails, so it returns `False` and deletes nothing, not even `.meta`.
- An empty hash string is falsy in Python. A filename mapped to `""` is never a
  conflict and cannot be removed.
- `save_file` registers only when the session id is truthy. An upload under the
  session id `""` passes the duplicate check but is never registered.
- The sweep result depends on the listing order in one case: an expired sidecar
  whose stem is itself another expired sidecar (`x.meta.meta` next to `x.meta`).
  If the outer one comes first, it deletes the inner sidecar before its turn, and
  `x` survives. The exact keep/delete lemmas assume this nesting is absent
  (`LocalDisk.Unnested`), and `SweepOrderMatters` shows both orders on a
  three-file directory. `SweptRemovesExpired` and `SweepIsIdempotent` need no
  such assumption.
- `save_file` accepts any original filename, so a stored upload can itself end in
  `.meta` (`T_U.meta`, with its sidecar `T_U.meta.meta`). The sweep reads that upload as
  a sidecar. If its bytes hold an expired `upload_time`, the sweep deletes `T_U` and
  `T_U.meta`, which is the fresh upload itself (`MetaSuffixedUploadIsSwept`).
  `SweepDecidesStoredFile` assumes no such upload in the directory (`NoUploadExpires`).

`save_file_with_duplicate_check` takes no lock between the duplicate check and the
registration. A rejected local write raises whatever aiofiles raises. `_save_s3` logs a
boto3 `ClientError` and raises it again as a plain `Exception`. The model runs
calls one after another, and a rejected write is `Failure(WriteFailed)` with nothing
registered.

## Model

| member | source | states |
|---|---|---|
| Config.StorageTypeOf | backend/config/storage.py:6-12 | the enumeration lookup yields the member whose value is the given text, and nothing (Python's ValueError) for any other text |
| Config.StorageTypeRoundTrip | backend/config/storage.py:6-8 | looking up a member's value gives that member back |
| Config.StorageConfig.IsLocalStorage | backend/config/storage.py:28-29 | holds exactly when the storage type's value is `local` |
| Config.StorageConfig.IsS3Storage | backend/config/storage.py:31-32 | holds exactly when the storage type's value is `s3` |
| Config.StorageConfig.ValidateS3Config | backend/config/storage.py:34-42 | true for local storage; false for S3 when the bucket name, the access key id or the secret key is missing or empty |
| Config.ExactlyOneBackend | backend/config/storage.py:28-32 | `is_local_storage` holds iff the type is LOCAL, `is_s3_storage` iff it is S3, and exactly one of them holds |
| Config.LocalConfigIsAlwaysValid | backend/config/storage.py:34-42 | `validate_s3_config` is true for local storage whatever the credentials |
| Config.S3ConfigValidIff | backend/config/storage.py:34-41 | for S3, `validate_s3_config` holds iff bucket name, access key id and secret key are all present and non-empty |
| Config.DefaultsAreLocal | backend/config/storage.py:12-22 | with no variables set the storage type is `local`, auto-delete is 24 hours, and the configuration is valid |
| Paths.LastIndexOf | backend/services/storage_service.py:53 | the result is the last index holding the character, or -1 when there is none |
| Paths.Name | backend/services/storage_service.py:53 | the final path component holds no '/', and a text without '/' is its own name |
| Paths.NameIsLastComponent | backend/services/storage_service.py:53 | the name is the tail of the path after its last '/' (or the whole path), and a directory joined with a plain name gives that name |
| Paths.Suffix | backend/services/storage_service.py:53 | a suffix is empty or a '.' followed by at least one character, holding no other '.' and no '/' |
| Paths.SplitAtLastDot | backend/services/storage_service.py:53 | a name `<base>.<ext>`, with a non-empty base and a non-empty extension without '.', has stem `<base>` and, without '/', suffix `.<ext>` |
| Paths.UndottedHasNoSuffix | backend/services/storage_service.py:53 | a name without a dot has an empty suffix and is its own stem |
| Paths.Stem | backend/services/storage_service.py:294 | the stem is a prefix of the name, and non-empty for a non-empty name |
| Paths.StemThenSuffix | backend/services/storage_service.py:294 | stem followed by suffix is the whole name |
| Paths.MetaNameIsMetaName | backend/services/storage_service.py:284 | every sidecar name `<name>.meta` matches `*.meta` |
| Paths.StemOfMetaName | backend/services/storage_service.py:294 | the stem of `<name>.meta` is `<name>` for a non-empty name; `.meta` alone is its own stem |
| Paths.MetaNameOfStem | backend/services/storage_service.py:294 | every `*.meta` name longer than `.meta` is the sidecar of its own stem |
| Paths.GenerateUniqueFilename | backend/services/storage_service.py:51-56 | the stored name is the timestamp, '_', the uuid, then the original's suffix, each at its own position |
| Paths.UniqueNameKeepsSuffix | backend/services/storage_service.py:51-56 | the generated stored name has the same suffix as the original filename when timestamp and uuid hold no '.' or '/' |
| Paths.UniqueNamesDiffer | backend/services/storage_service.py:51-56 | fixed-width timestamps and uuids that differ give different stored names, whatever the originals |
| Sessions.NoSessionsIsValid | backend/services/storage_service.py:31-33 | the two empty dictionaries of a new service agree on their sessions |
| Sessions.Tracking.IsDuplicateInSession | backend/services/storage_service.py:67-84 | an unknown session gives (False, False); the first flag is set iff the hash is in the session; the second iff the filename maps to a non-empty hash other than this one |
| Sessions.Tracking.GetSessionFileCount | backend/services/storage_service.py:103-107 | the count is the number of distinct hashes recorded for the session, 0 for an unknown one |
| Sessions.Tracking.Added | backend/services/storage_service.py:86-94 | the session's hashes gain the hash, its filename table maps the filename to it, and both dictionaries stay keyed alike |
| Sessions.Tracking.Cleared | backend/services/storage_service.py:96-101 | the session has no hashes and no filenames afterwards, and both dictionaries stay keyed alike |
| Sessions.Tracking.Tracks | backend/services/storage_service.py:111-117 | holds exactly when the session's table maps the filename to a non-empty hash |
| Sessions.Tracking.Removed | backend/services/storage_service.py:109-129 | an untracked filename changes nothing; a tracked one leaves the table without it and the hash set without its hash |
| Sessions.UnknownSessionIsEmpty | backend/services/storage_service.py:71-72 | a session id never registered reports (False, False) and a count of 0 |
| Sessions.ClearedSessionIsEmpty | backend/services/storage_service.py:96-101 | after clearing, the session reports (False, False), a count of 0 and no filename |
| Sessions.ClearIsIdempotent | backend/services/storage_service.py:96-101 | clearing twice is clearing once |
| Sessions.ClearKeepsOtherSessions | backend/services/storage_service.py:96-101 | clearing one session leaves every other session's hashes and filenames unchanged |
| Sessions.AddedIsRecorded | backend/services/storage_service.py:86-94 | after registration the hash is a duplicate under any filename, the filename maps to it, and a different hash under that filename is a name conflict (for a non-empty hash) |
| Sessions.AddKeepsEarlierHashes | backend/services/storage_service.py:93-94 | registration never removes a hash, including the one the filename mapped to before |
| Sessions.AddKeepsOtherSessions | backend/services/storage_service.py:86-94 | registration leaves other sessions unchanged |
| Sessions.AcceptedHashCountsOnce | backend/services/storage_service.py:93 | registering a hash not yet in the session raises its count by exactly one |
| Sessions.RepeatedHashCountsNothing | backend/services/storage_service.py:93 | registering a hash already in the session leaves the count as it was |
| Sessions.RemoveUntrackedChangesNothing | backend/services/storage_service.py:111-117 | removing from an unknown session, an unknown filename or one mapped to an empty hash changes nothing |
| Sessions.RemoveTrackedForgetsIt | backend/services/storage_service.py:119-129 | removing a tracked filename deletes its entry and its hash, and keeps the session's other filenames and all other sessions |
| Sessions.RemoveDropsSharedHash | backend/services/storage_service.py:121 | the removed filename's hash is dropped even when another filename maps to it, so that content is no longer a duplicate |
| Sessions.OperationsKeepValid | backend/services/storage_service.py:86-124 | registering, clearing and removing keep both dictionaries keyed by the same sessions |
| Storage.StorageService.constructor | backend/services/storage_service.py:27-33 | a new service tracks no session and holds the given configuration, digest, parser, directory and bucket |
| Storage.StorageService.Open | backend/services/storage_service.py:27-40 | S3 storage without boto3 or with an incomplete S3 configuration fails with the matching error; otherwise a fresh service is created |
| Storage.StorageService.AddFileToSession | backend/services/storage_service.py:86-94 | the tracking becomes `Added`: the hash joins the session set and the filename maps to it |
| Storage.StorageService.ClearSession | backend/services/storage_service.py:96-101 | the tracking becomes `Cleared`: both dictionaries forget the session |
| Storage.StorageService.RemoveFileFromSession | backend/services/storage_service.py:109-129 | returns whether the filename was tracked, and the tracking becomes `Removed` |
| Storage.StorageService.SaveLocal | backend/services/storage_service.py:174-195 | writes the bytes and a sidecar holding the upload time, and returns the name with the URL `/download/<name>`; a rejected write changes nothing |
| Storage.LocalAccessUrlNamesFile | backend/services/storage_service.py:194 | the local URL is `/download/` followed by the stored name, so different names get different URLs |
| Storage.StorageService.SaveS3 | backend/services/storage_service.py:197-226 | puts the object with its upload time and retention into the bucket and returns the presigned URL; a rejected write changes nothing |
| Storage.StorageService.SaveFile | backend/services/storage_service.py:131-150 | stores under the generated unique name in the configured backend only, returns the digest, and registers the upload only for a non-empty session id and only after a successful write |
| Storage.StorageService.SaveFileWithDuplicateCheck | backend/services/storage_service.py:152-172 | a duplicate hash gives (True, False, None, None, hash) even with a name conflict; a conflict gives (False, True, None, None, hash); both change nothing. Otherwise the file is stored, the count rises by one and the filename maps to the hash |
| Storage.StorageService.DeleteLocal | backend/services/storage_service.py:245-259 | for a non-empty name the file and its sidecar are gone and success is reported whether or not they existed; the empty name reports failure and changes nothing |
| Storage.StorageService.CleanupLocalFiles | backend/services/storage_service.py:280-299 | the directory becomes the sweep of the listed sidecars at cutoff `now - 3600 * auto_delete_hours`; it only deletes, and no expired sidecar remains |
| LocalDisk.Written | backend/services/storage_service.py:176-192 | the stored file holds the bytes, its sidecar reads back the upload time, and every other file is unchanged |
| LocalDisk.Deleted | backend/services/storage_service.py:248-259 | exactly the file and its sidecar are removed and every other file is unchanged; the empty name removes nothing |
| LocalDisk.Cutoff | backend/services/storage_service.py:282 | the cutoff lies `auto_delete_hours` hours before now: at or before now for a non-negative retention, and equal to now only for zero |
| LocalDisk.ReadUploadTime | backend/services/storage_service.py:286-290 | a sidecar the service wrote yields its recorded time; any other file's bytes yield what the parser makes of them |
| LocalDisk.SweepOne | backend/services/storage_service.py:284-295 | a listed entry that reads as expired deletes its stem and the stem's sidecar and nothing else; any other entry changes nothing |
| LocalDisk.Swept | backend/services/storage_service.py:284-299 | the sweep over a listing only removes names, and an empty listing changes nothing |
| LocalDisk.DeleteAbsentChangesNothing | backend/services/storage_service.py:251-256 | deleting a name that is not there leaves the directory as it is |
| LocalDisk.DeleteIsIdempotent | backend/services/storage_service.py:251-256 | deleting twice is deleting once |
| LocalDisk.WrittenFileHasSidecar | backend/services/storage_service.py:184-192 | the sidecar of a stored file matches `*.meta`, has the stored name as stem and reads back the upload time |
| LocalDisk.SweptOnlyDeletes | backend/services/storage_service.py:280-299 | every file left after the sweep was there before, with the same contents |
| LocalDisk.SweptKeeps | backend/services/storage_service.py:292-295 | a file that no expired listed sidecar names, as stem or as sidecar, survives |
| LocalDisk.ExpiredSidecarDeletesItself | backend/services/storage_service.py:294-295 | a `*.meta` name is one of the two files its own deletion removes |
| LocalDisk.SweptRemovesExpired | backend/services/storage_service.py:284-299 | every listed expired sidecar is gone afterwards, in any listing order and whatever unreadable entries the listing holds |
| LocalDisk.MetaSuffixedUploadIsSwept | backend/services/storage_service.py:284-295 | a stored upload named `*.meta` whose bytes hold an expired upload time is deleted by the sweep, whatever its own sidecar says |
| LocalDisk.SweptRemovesVictims | backend/services/storage_service.py:284-299 | without nested expired sidecars, each listed expired sidecar's file and sidecar are deleted, unreadable entries notwithstanding |
| LocalDisk.SweepOrderMatters | backend/services/storage_service.py:284-295 | with expired `x.meta` and `x.meta.meta` present (not `Unnested`), `x` survives when the outer sidecar is listed first and is deleted when the inner one is |
| LocalDisk.NothingExpiredRemains | backend/services/storage_service.py:280-299 | after a sweep over all sidecars no expired sidecar is left |
| LocalDisk.SweptNothingExpired | backend/services/storage_service.py:292 | a sweep whose listing holds no expired sidecar changes nothing |
| LocalDisk.SweepIsIdempotent | backend/services/storage_service.py:280-299 | a second sweep at the same clock deletes nothing more |
| LocalDisk.SweepDecidesStoredFile | backend/services/storage_service.py:282-295 | a stored file with a readable sidecar is deleted iff its upload time is strictly before the cutoff, and kept unchanged otherwise, when no `*.meta`-named upload reads as expired |

## Left out

- The SHA-256 computation and the chunked reads of `_calculate_file_hash`: the digest is an uninterpreted function of the bytes, given to the constructor.
- `_init_s3_client` and all boto3 calls: the bucket is an abstract map. The presigned URL and a rejected upload are parameters. Timestamps in the object metadata are integers, not ISO-8601 text.
- `get_file`: it returns the local path when the file exists and `None` for S3, and is not part of this model.
- `delete_file`, `cleanup_old_files`, `_delete_s3` and `_cleanup_s3_files`: these dispatch to the backends or make boto3 calls, and are not part of this model.
- Logging (`logger.error` and `logger.info`) is not modelled.
- Storage.StorageService.DeleteLocal: the `False` returned when unlinking raises is modelled only for the empty name. Permission errors and a stored name that is a directory are not modelled; for any other name, deletion succeeds.
- Storage.StorageService.SaveLocal: a write fails as a whole; a failure after the file is written but before its sidecar is not modelled.
- LocalDisk.ReadUploadTime: a sidecar the service writes is kept as the time it records, not as JSON text; only stored uploads go through `parseUploadTime`.
- Storage.StorageService.CleanupLocalFiles: takes the directory listing as a snapshot in `listing` order. The lazy `glob` iteration over a directory that changes under it is not modelled. A name that is already gone is skipped, exactly as a failed open.
- Upload times are whole seconds. Microseconds, the ISO-8601 format, and `timedelta` range errors are not modelled.
- Paths: only the POSIX pathlib rules of CPython 3.13 and earlier, for one path component. Python 3.14 also counts a trailing single dot as a suffix (`Path("foo.").suffix == "."`) and changes the stem of names made only of dots; neither change is modelled. `name` is the text after the last '/'; trailing slashes and `.` components are not normalised. Path joins with the upload directory are left out: the directory is keyed by file name.
- The `original_filename` key of the sidecar JSON: the sweep does not read it, and it is not represented.
- The async interleaving between the duplicate check and registration: the model runs calls one after another.
- Reading the environment and `mkdir` in `StorageConfig.__init__`: the model keeps only the resulting field values, with `DefaultConfig` for the unset case.
- Geometry parsing, format conversion, the FastAPI routes, the quote formula, `setup_env.py` and the response models: these are outside this model.
