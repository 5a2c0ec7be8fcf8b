/**
 * `StorageService` of backend/services/storage_service.py: session duplicate tracking in two
 * dictionaries, storing an upload in the local directory or the S3 bucket, and the local
 * expiry sweep. The clock, uuid4, SHA-256, the presigned URL and the outcome of a backend
 * write come in as parameters; the S3 bucket is an abstract map.
 */
module Storage {
  import opened Wrappers
  import opened Config
  import opened Paths
  import opened Sessions
  import opened LocalDisk

  /** An object in the bucket with the metadata `_save_s3` attaches to it. */
  datatype S3Object = S3Object(content: Bytes, uploadTime: int, autoDeleteHours: int)

  /**
   * What one upload takes from outside the service: the `%Y%m%d_%H%M%S` text of the clock,
   * the text of `uuid4()`, the clock in whole seconds, the URL boto3 presigns, and whether
   * the backend accepts the write (when not, aiofiles or boto3 raise).
   */
  datatype UploadContext = UploadContext(
    timestamp: string, uniqueId: string, now: int, presignedUrl: string, writeSucceeds: bool)

  /** `save_file`'s (stored_filename, access_url, file_hash). */
  datatype SavedFile = SavedFile(storedFilename: string, accessUrl: string, fileHash: Hash)

  /** `save_file_with_duplicate_check`'s (is_duplicate_hash, is_same_name_different_content, stored_filename, access_url, file_hash). */
  datatype DuplicateCheckResult = DuplicateCheckResult(
    isDuplicateHash: bool, isSameNameDifferentContent: bool,
    storedFilename: Option<string>, accessUrl: Option<string>, fileHash: Hash)

  /** The exception a rejected backend write raises. */
  datatype StorageError = WriteFailed

  /** The exceptions `__init__` raises. */
  datatype InitError = Boto3Missing | InvalidS3Configuration

  /** The URL a locally stored file is served at. */
  function LocalAccessUrl(filename: string): string
  {
    "/download/" + filename
  }

  /** A local download URL names exactly one stored file, which follows `/download/`. */
  lemma LocalAccessUrlNamesFile(filename: string, other: string)
    ensures |LocalAccessUrl(filename)| == |filename| + 10
    ensures LocalAccessUrl(filename)[..10] == "/download/" && LocalAccessUrl(filename)[10..] == filename
    ensures LocalAccessUrl(filename) == LocalAccessUrl(other) ==> filename == other
  {
    assert LocalAccessUrl(other)[10..] == other;
  }

  class StorageService {
    const config: StorageConfig
    /** SHA-256 of the content as a hex string (`_calculate_file_hash`). */
    const digest: Bytes -> Hash
    /** How the sweep reads the bytes of a stored upload that `*.meta` matches. */
    const parseUploadTime: Parser
    var sessionFileHashes: map<string, set<Hash>>
    var sessionFilenameHashes: map<string, map<string, Hash>>
    /** The files in `config.localUploadDir`. */
    var disk: Directory
    /** The objects in `config.s3BucketName`. */
    var bucket: map<string, S3Object>

    function Tracked(): Tracking
      reads this
    {
      Tracking(sessionFileHashes, sessionFilenameHashes)
    }

    ghost predicate Valid()
      reads this
    {
      Tracked().Valid() && config.ValidateS3Config()
    }

    constructor (config: StorageConfig, digest: Bytes -> Hash, parseUploadTime: Parser,
                 disk: Directory, bucket: map<string, S3Object>)
      requires config.ValidateS3Config()
      ensures Valid() && Tracked() == NoSessions
      ensures this.config == config && this.digest == digest && this.parseUploadTime == parseUploadTime
      ensures this.disk == disk && this.bucket == bucket
    {
      this.config := config;
      this.digest := digest;
      this.parseUploadTime := parseUploadTime;
      sessionFileHashes := map[];
      sessionFilenameHashes := map[];
      this.disk := disk;
      this.bucket := bucket;
      NoSessionsIsValid();
    }

    /** `StorageService()`: S3 storage needs boto3 and a complete S3 configuration. */
    static method Open(config: StorageConfig, digest: Bytes -> Hash, parseUploadTime: Parser, s3Available: bool,
                       disk: Directory, bucket: map<string, S3Object>)
      returns (r: Result<StorageService, InitError>)
      ensures config.IsS3Storage() && !s3Available ==> r == Failure(Boto3Missing)
      ensures config.IsS3Storage() && s3Available && !config.ValidateS3Config() ==>
        r == Failure(InvalidS3Configuration)
      ensures config.IsLocalStorage() || (s3Available && config.ValidateS3Config()) ==>
        && r.Success? && fresh(r.value) && r.value.Valid() && r.value.Tracked() == NoSessions
        && r.value.config == config && r.value.digest == digest && r.value.parseUploadTime == parseUploadTime
        && r.value.disk == disk && r.value.bucket == bucket
    {
      if config.IsS3Storage() {
        if !s3Available {
          return Failure(Boto3Missing);
        }
        if !config.ValidateS3Config() {
          return Failure(InvalidS3Configuration);
        }
      }
      var service := new StorageService(config, digest, parseUploadTime, disk, bucket);
      return Success(service);
    }

    /** `add_file_to_session`. */
    method AddFileToSession(sessionId: string, fileHash: Hash, filename: string)
      requires Valid()
      modifies this`sessionFileHashes, this`sessionFilenameHashes
      ensures Valid()
      ensures Tracked() == old(Tracked()).Added(sessionId, fileHash, filename)
    {
      if sessionId !in sessionFileHashes {
        sessionFileHashes := sessionFileHashes[sessionId := {}];
      }
      if sessionId !in sessionFilenameHashes {
        sessionFilenameHashes := sessionFilenameHashes[sessionId := map[]];
      }
      assert sessionFileHashes[sessionId] == old(Tracked()).HashesOf(sessionId);
      assert sessionFilenameHashes[sessionId] == old(Tracked()).NamesOf(sessionId);
      sessionFileHashes := sessionFileHashes[sessionId := sessionFileHashes[sessionId] + {fileHash}];
      sessionFilenameHashes := sessionFilenameHashes[sessionId := sessionFilenameHashes[sessionId][filename := fileHash]];
      assert sessionFileHashes == old(sessionFileHashes)[sessionId := old(Tracked()).HashesOf(sessionId) + {fileHash}];
      assert sessionFilenameHashes
          == old(sessionFilenameHashes)[sessionId := old(Tracked()).NamesOf(sessionId)[filename := fileHash]];
    }

    /** `clear_session`. */
    method ClearSession(sessionId: string)
      requires Valid()
      modifies this`sessionFileHashes, this`sessionFilenameHashes
      ensures Valid()
      ensures Tracked() == old(Tracked()).Cleared(sessionId)
    {
      if sessionId in sessionFileHashes {
        sessionFileHashes := sessionFileHashes - {sessionId};
      }
      if sessionId in sessionFilenameHashes {
        sessionFilenameHashes := sessionFilenameHashes - {sessionId};
      }
    }

    /** `remove_file_from_session`: tracking only, the stored file stays. */
    method RemoveFileFromSession(sessionId: string, filename: string) returns (removed: bool)
      requires Valid()
      modifies this`sessionFileHashes, this`sessionFilenameHashes
      ensures Valid()
      ensures removed == old(Tracked()).Tracks(sessionId, filename)
      ensures Tracked() == old(Tracked()).Removed(sessionId, filename)
    {
      if sessionId !in sessionFilenameHashes {
        return false;
      }
      var fileHash := if filename in sessionFilenameHashes[sessionId]
                      then Some(sessionFilenameHashes[sessionId][filename]) else None;
      if fileHash.None? || fileHash.value == "" {
        return false;
      }
      if sessionId in sessionFileHashes {
        sessionFileHashes := sessionFileHashes[sessionId := sessionFileHashes[sessionId] - {fileHash.value}];
      }
      if sessionId in sessionFilenameHashes {
        sessionFilenameHashes := sessionFilenameHashes[sessionId := sessionFilenameHashes[sessionId] - {filename}];
      }
      return true;
    }

    /** `_save_local`: the bytes under `filename`, then the sidecar with the upload time. */
    method SaveLocal(content: Bytes, filename: string, now: int, writeSucceeds: bool)
      returns (r: Result<(string, string), StorageError>)
      modifies this`disk
      ensures !writeSucceeds ==> r == Failure(WriteFailed) && disk == old(disk)
      ensures writeSucceeds ==> r == Success((filename, LocalAccessUrl(filename)))
      ensures writeSucceeds ==> disk == Written(old(disk), filename, content, now)
    {
      if !writeSucceeds {
        return Failure(WriteFailed);
      }
      disk := disk[filename := Upload(content)];
      disk := disk[MetaName(filename) := Metadata(Some(now))];
      return Success((filename, LocalAccessUrl(filename)));
    }

    /** `_save_s3`: the object with its upload time and retention, and the presigned URL. */
    method SaveS3(content: Bytes, filename: string, context: UploadContext)
      returns (r: Result<(string, string), StorageError>)
      modifies this`bucket
      ensures !context.writeSucceeds ==> r == Failure(WriteFailed) && bucket == old(bucket)
      ensures context.writeSucceeds ==> r == Success((filename, context.presignedUrl))
      ensures context.writeSucceeds ==>
        bucket == old(bucket)[filename := S3Object(content, context.now, config.autoDeleteHours)]
    {
      if !context.writeSucceeds {
        return Failure(WriteFailed);
      }
      bucket := bucket[filename := S3Object(content, context.now, config.autoDeleteHours)];
      return Success((filename, context.presignedUrl));
    }

    /**
     * `save_file`: store under a fresh unique name in the configured backend, then register
     * the upload in the session when a (non-empty) session id is given.
     */
    method SaveFile(content: Bytes, originalFilename: string, sessionId: Option<string>, context: UploadContext)
      returns (r: Result<SavedFile, StorageError>)
      requires Valid()
      modifies this`disk, this`bucket, this`sessionFileHashes, this`sessionFilenameHashes
      ensures Valid()
      ensures !context.writeSucceeds ==> r == Failure(WriteFailed) && unchanged(this)
      ensures context.writeSucceeds ==>
        var name := GenerateUniqueFilename(originalFilename, context.timestamp, context.uniqueId);
        && r.Success?
        && r.value.storedFilename == name
        && r.value.fileHash == digest(content)
        && (config.IsLocalStorage() ==>
              r.value.accessUrl == LocalAccessUrl(name)
              && disk == Written(old(disk), name, content, context.now) && bucket == old(bucket))
        && (config.IsS3Storage() ==>
              r.value.accessUrl == context.presignedUrl && disk == old(disk)
              && bucket == old(bucket)[name := S3Object(content, context.now, config.autoDeleteHours)])
        && Tracked() == if sessionId.Some? && sessionId.value != ""
                        then old(Tracked()).Added(sessionId.value, digest(content), originalFilename)
                        else old(Tracked())
    {
      var fileHash := digest(content);
      var uniqueFilename := GenerateUniqueFilename(originalFilename, context.timestamp, context.uniqueId);
      var stored;
      if config.IsLocalStorage() {
        stored := SaveLocal(content, uniqueFilename, context.now, context.writeSucceeds);
      } else {
        stored := SaveS3(content, uniqueFilename, context);
      }
      if stored.Failure? {
        return Failure(stored.error);
      }
      if sessionId.Some? && sessionId.value != "" {
        AddFileToSession(sessionId.value, fileHash, originalFilename);
      }
      return Success(SavedFile(stored.value.0, stored.value.1, fileHash));
    }

    /**
     * `save_file_with_duplicate_check`: identical content already in the session wins over a
     * name conflict; only an upload that is neither is stored and registered.
     */
    method SaveFileWithDuplicateCheck(content: Bytes, originalFilename: string, sessionId: string,
                                      context: UploadContext)
      returns (r: Result<DuplicateCheckResult, StorageError>)
      requires Valid()
      modifies this`disk, this`bucket, this`sessionFileHashes, this`sessionFilenameHashes
      ensures Valid()
      ensures old(Tracked()).IsDuplicateInSession(sessionId, digest(content), originalFilename).0 ==>
        r == Success(DuplicateCheckResult(true, false, None, None, digest(content))) && unchanged(this)
      ensures var status := old(Tracked()).IsDuplicateInSession(sessionId, digest(content), originalFilename);
        !status.0 && status.1 ==>
        r == Success(DuplicateCheckResult(false, true, None, None, digest(content))) && unchanged(this)
      ensures var status := old(Tracked()).IsDuplicateInSession(sessionId, digest(content), originalFilename);
        status == (false, false) && !context.writeSucceeds ==>
        r == Failure(WriteFailed) && unchanged(this)
      ensures var status := old(Tracked()).IsDuplicateInSession(sessionId, digest(content), originalFilename);
        var name := GenerateUniqueFilename(originalFilename, context.timestamp, context.uniqueId);
        status == (false, false) && context.writeSucceeds ==>
        && r.Success?
        && r.value == DuplicateCheckResult(
             false, false, Some(name),
             Some(if config.IsLocalStorage() then LocalAccessUrl(name) else context.presignedUrl),
             digest(content))
        && (config.IsLocalStorage() ==>
              disk == Written(old(disk), name, content, context.now) && bucket == old(bucket))
        && (config.IsS3Storage() ==>
              disk == old(disk)
              && bucket == old(bucket)[name := S3Object(content, context.now, config.autoDeleteHours)])
        && (sessionId != "" ==>
              && Tracked() == old(Tracked()).Added(sessionId, digest(content), originalFilename)
              && Tracked().GetSessionFileCount(sessionId) == old(Tracked().GetSessionFileCount(sessionId)) + 1
              && Tracked().HashOfName(sessionId, originalFilename) == Some(digest(content)))
        && (sessionId == "" ==> Tracked() == old(Tracked()))
    {
      var fileHash := digest(content);
      var status := Tracked().IsDuplicateInSession(sessionId, fileHash, originalFilename);
      if status.0 {
        return Success(DuplicateCheckResult(true, false, None, None, fileHash));
      }
      if status.1 {
        return Success(DuplicateCheckResult(false, true, None, None, fileHash));
      }
      AcceptedHashCountsOnce(Tracked(), sessionId, fileHash, originalFilename);
      AddedIsRecorded(Tracked(), sessionId, fileHash, originalFilename, originalFilename, fileHash);
      var saved := SaveFile(content, originalFilename, Some(sessionId), context);
      if saved.Failure? {
        return Failure(saved.error);
      }
      return Success(DuplicateCheckResult(false, false, Some(saved.value.storedFilename),
                                          Some(saved.value.accessUrl), fileHash));
    }

    /**
     * `_delete_local`: reports success whether or not the file or its sidecar existed. The
     * empty name is the upload directory itself, whose `unlink` raises: failure, nothing deleted.
     */
    method DeleteLocal(filename: string) returns (ok: bool)
      modifies this`disk
      ensures ok <==> filename != ""
      ensures disk == Deleted(old(disk), filename)
    {
      if filename == "" {
        return false;
      }
      if filename in disk {
        disk := disk - {filename};
      }
      if MetaName(filename) in disk {
        disk := disk - {MetaName(filename)};
      }
      return true;
    }

    /**
     * `_cleanup_local_files`, visiting the sidecars in the order `listing` gives, which is
     * the order `glob("*.meta")` yields them. A sidecar that is gone, unreadable or malformed
     * is skipped (the source logs it); the loop goes on with the rest.
     */
    method CleanupLocalFiles(now: int, listing: seq<string>)
      modifies this`disk
      ensures disk == Swept(parseUploadTime, old(disk), listing, Cutoff(now, config.autoDeleteHours))
      ensures forall k :: k in disk ==> k in old(disk) && disk[k] == old(disk)[k]
      ensures ListsMetadataFiles(old(disk), listing) ==>
        forall m :: IsMetaName(m) ==> !Expired(parseUploadTime, disk, m, Cutoff(now, config.autoDeleteHours))
    {
      var cutoff := Cutoff(now, config.autoDeleteHours);
      var i := 0;
      while i < |listing|
        invariant 0 <= i <= |listing|
        invariant Swept(parseUploadTime, disk, listing[i..], cutoff) == Swept(parseUploadTime, old(disk), listing, cutoff)
      {
        var metadataFile := listing[i];
        var uploadTime := if metadataFile in disk then ReadUploadTime(parseUploadTime, disk[metadataFile]) else None;
        if uploadTime.Some? && uploadTime.value < cutoff {
          var _ := DeleteLocal(Stem(metadataFile));
        }
        assert listing[i..][1..] == listing[i + 1..];
        i := i + 1;
      }
      SweptOnlyDeletes(parseUploadTime, old(disk), listing, cutoff);
      if ListsMetadataFiles(old(disk), listing) {
        NothingExpiredRemains(parseUploadTime, old(disk), listing, cutoff);
      }
    }
  }

  /** Uploads, a name conflict and a duplicate in one session, through the methods' contracts. */
  method UploadScenario(digest: Bytes -> Hash, parse: Parser, a: Bytes, b: Bytes, context: UploadContext)
    requires digest(a) != digest(b) && digest(a) != "" && context.writeSucceeds
  {
    var service := new StorageService(DefaultConfig, digest, parse, map[], map[]);
    var first := service.SaveFileWithDuplicateCheck(a, "part.stl", "s1", context);
    assert first.Success? && !first.value.isDuplicateHash && !first.value.isSameNameDifferentContent;
    assert service.Tracked().GetSessionFileCount("s1") == 1;
    var second := service.SaveFileWithDuplicateCheck(b, "part.stl", "s1", context);
    assert second == Success(DuplicateCheckResult(false, true, None, None, digest(b)));
    var third := service.SaveFileWithDuplicateCheck(a, "other.stl", "s1", context);
    assert third == Success(DuplicateCheckResult(true, false, None, None, digest(a)));
    assert service.Tracked().GetSessionFileCount("s1") == 1;
  }

  /** Content is a duplicate only in its own session, and no longer once that session is cleared. */
  method ClearScenario(digest: Bytes -> Hash, parse: Parser, a: Bytes, context: UploadContext)
    requires digest(a) != "" && context.writeSucceeds
  {
    var service := new StorageService(DefaultConfig, digest, parse, map[], map[]);
    var first := service.SaveFileWithDuplicateCheck(a, "part.stl", "s1", context);
    assert first.Success? && !first.value.isDuplicateHash;
    var elsewhere := service.SaveFileWithDuplicateCheck(a, "part.stl", "s2", context);
    assert elsewhere.Success? && !elsewhere.value.isDuplicateHash;
    service.ClearSession("s1");
    assert service.Tracked().GetSessionFileCount("s1") == 0;
    var again := service.SaveFileWithDuplicateCheck(a, "other.stl", "s1", context);
    assert again.Success? && !again.value.isDuplicateHash && !again.value.isSameNameDifferentContent;
  }
}
