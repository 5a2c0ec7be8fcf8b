/**
 * Per-session duplicate tracking of `StorageService` (backend/services/storage_service.py):
 * the two process-wide dictionaries as one value, the read-only queries on it, and the
 * new value each mutating operation leaves behind. `StorageService` in storage_service.dfy
 * holds the two dictionaries as fields and its methods are proved against these functions.
 */
module Sessions {
  import opened Wrappers

  /** A content hash: the hex SHA-256 digest of the uploaded bytes. */
  type Hash = string

  /** `_session_file_hashes` and `_session_filename_hashes`. */
  datatype Tracking = Tracking(
    fileHashes: map<string, set<Hash>>,
    filenameHashes: map<string, map<string, Hash>>)
  {
    /** Both dictionaries know the same sessions. */
    predicate Valid()
    {
      fileHashes.Keys == filenameHashes.Keys
    }

    /** The hashes recorded for a session (none for an unknown one). */
    function HashesOf(sessionId: string): set<Hash>
    {
      if sessionId in fileHashes then fileHashes[sessionId] else {}
    }

    /** The filename-to-hash table of a session (empty for an unknown one). */
    function NamesOf(sessionId: string): map<string, Hash>
    {
      if sessionId in filenameHashes then filenameHashes[sessionId] else map[]
    }

    /** `_session_filename_hashes[session_id].get(filename)` where the session is known. */
    function HashOfName(sessionId: string, filename: string): Option<Hash>
    {
      if sessionId in filenameHashes && filename in filenameHashes[sessionId]
      then Some(filenameHashes[sessionId][filename])
      else None
    }

    /**
     * `is_duplicate_in_session`: (is_duplicate_hash, is_same_name_different_content).
     * An empty recorded hash is falsy in Python and so never reports a conflict.
     */
    function IsDuplicateInSession(sessionId: string, fileHash: Hash, filename: string): (r: (bool, bool))
      ensures sessionId !in fileHashes ==> r == (false, false)
      ensures r.0 <==> fileHash in HashesOf(sessionId)
      ensures r.1 <==> sessionId in fileHashes && HashOfName(sessionId, filename).Some? &&
                       HashOfName(sessionId, filename).value !in {"", fileHash}
    {
      if sessionId !in fileHashes then (false, false)
      else
        var existing := HashOfName(sessionId, filename);
        (fileHash in fileHashes[sessionId],
         existing.Some? && existing.value != "" && existing.value != fileHash)
    }

    /** `get_session_file_count`: the number of distinct hashes, not of filenames. */
    function GetSessionFileCount(sessionId: string): (n: nat)
      ensures n == |HashesOf(sessionId)|
    {
      if sessionId !in fileHashes then 0 else |fileHashes[sessionId]|
    }

    /**
     * After `add_file_to_session`: the hash joins the session's set and the filename
     * maps to it; a hash the filename mapped to before stays in the set.
     */
    function Added(sessionId: string, fileHash: Hash, filename: string): (r: Tracking)
      ensures r.HashesOf(sessionId) == HashesOf(sessionId) + {fileHash}
      ensures r.NamesOf(sessionId) == NamesOf(sessionId)[filename := fileHash]
      ensures forall other :: other != sessionId ==>
        r.HashesOf(other) == HashesOf(other) && r.NamesOf(other) == NamesOf(other)
      ensures Valid() ==> r.Valid()
    {
      Tracking(fileHashes[sessionId := HashesOf(sessionId) + {fileHash}],
               filenameHashes[sessionId := NamesOf(sessionId)[filename := fileHash]])
    }

    /** After `clear_session`: the session is forgotten by both dictionaries. */
    function Cleared(sessionId: string): (r: Tracking)
      ensures r.HashesOf(sessionId) == {} && r.NamesOf(sessionId) == map[]
      ensures forall other :: other != sessionId ==>
        r.HashesOf(other) == HashesOf(other) && r.NamesOf(other) == NamesOf(other)
      ensures Valid() ==> r.Valid()
    {
      Tracking(fileHashes - {sessionId}, filenameHashes - {sessionId})
    }

    /** Whether `remove_file_from_session` finds an entry: a known filename with a non-empty hash. */
    predicate Tracks(sessionId: string, filename: string): (b: bool)
      ensures b <==> filename in NamesOf(sessionId) && NamesOf(sessionId)[filename] != ""
    {
      HashOfName(sessionId, filename).Some? && HashOfName(sessionId, filename).value != ""
    }

    /**
     * After `remove_file_from_session`: the filename's entry is deleted and its hash is
     * discarded from the set, even if another filename still maps to that hash.
     */
    function Removed(sessionId: string, filename: string): (r: Tracking)
      ensures !Tracks(sessionId, filename) ==> r == this
      ensures Tracks(sessionId, filename) ==>
        && r.NamesOf(sessionId) == NamesOf(sessionId) - {filename}
        && r.HashesOf(sessionId) == HashesOf(sessionId) - {NamesOf(sessionId)[filename]}
      ensures forall other :: other != sessionId ==>
        r.HashesOf(other) == HashesOf(other) && r.NamesOf(other) == NamesOf(other)
      ensures Valid() ==> r.Valid()
    {
      if !Tracks(sessionId, filename) then this
      else
        var h := filenameHashes[sessionId][filename];
        Tracking(if sessionId in fileHashes then fileHashes[sessionId := fileHashes[sessionId] - {h}] else fileHashes,
                 filenameHashes[sessionId := filenameHashes[sessionId] - {filename}])
    }
  }

  /** The state of a freshly constructed service. */
  const NoSessions := Tracking(map[], map[])

  lemma NoSessionsIsValid()
    ensures NoSessions.Valid()
  {
  }

  /** An unknown session reports no duplicate, no conflict and no files. */
  lemma UnknownSessionIsEmpty(t: Tracking, sessionId: string, fileHash: Hash, filename: string)
    requires sessionId !in t.fileHashes
    ensures t.IsDuplicateInSession(sessionId, fileHash, filename) == (false, false)
    ensures t.GetSessionFileCount(sessionId) == 0
  {
  }

  /** A cleared session is like one never seen. */
  lemma ClearedSessionIsEmpty(t: Tracking, sessionId: string, fileHash: Hash, filename: string)
    ensures t.Cleared(sessionId).IsDuplicateInSession(sessionId, fileHash, filename) == (false, false)
    ensures t.Cleared(sessionId).GetSessionFileCount(sessionId) == 0
    ensures t.Cleared(sessionId).HashOfName(sessionId, filename) == None
  {
  }

  lemma ClearIsIdempotent(t: Tracking, sessionId: string)
    ensures t.Cleared(sessionId).Cleared(sessionId) == t.Cleared(sessionId)
  {
  }

  /** Clearing one session leaves every other session's entries as they were. */
  lemma ClearKeepsOtherSessions(t: Tracking, sessionId: string, other: string)
    requires other != sessionId
    ensures t.Cleared(sessionId).HashesOf(other) == t.HashesOf(other)
    ensures t.Cleared(sessionId).NamesOf(other) == t.NamesOf(other)
    ensures (other in t.Cleared(sessionId).fileHashes) == (other in t.fileHashes)
  {
  }

  /**
   * After registering `fileHash` under `filename`: the hash is a duplicate under any name,
   * the filename maps to it, and a different hash under the same filename is a conflict.
   */
  lemma AddedIsRecorded(t: Tracking, sessionId: string, fileHash: Hash, filename: string,
                        anyName: string, otherHash: Hash)
    ensures t.Added(sessionId, fileHash, filename).IsDuplicateInSession(sessionId, fileHash, anyName).0
    ensures t.Added(sessionId, fileHash, filename).HashOfName(sessionId, filename) == Some(fileHash)
    ensures otherHash != fileHash && fileHash != "" ==>
      t.Added(sessionId, fileHash, filename).IsDuplicateInSession(sessionId, otherHash, filename).1
  {
  }

  /** Registration never forgets a hash: one a filename used to map to is still counted. */
  lemma AddKeepsEarlierHashes(t: Tracking, sessionId: string, fileHash: Hash, filename: string)
    ensures t.HashesOf(sessionId) <= t.Added(sessionId, fileHash, filename).HashesOf(sessionId)
    ensures t.HashOfName(sessionId, filename).Some? ==>
      t.HashOfName(sessionId, filename).value in t.HashesOf(sessionId) ==>
      t.HashOfName(sessionId, filename).value in t.Added(sessionId, fileHash, filename).HashesOf(sessionId)
  {
  }

  /** Registering leaves other sessions alone. */
  lemma AddKeepsOtherSessions(t: Tracking, sessionId: string, fileHash: Hash, filename: string, other: string)
    requires other != sessionId
    ensures t.Added(sessionId, fileHash, filename).HashesOf(other) == t.HashesOf(other)
    ensures t.Added(sessionId, fileHash, filename).NamesOf(other) == t.NamesOf(other)
  {
  }

  /** A hash that passed the duplicate check raises the session's count by exactly one. */
  lemma AcceptedHashCountsOnce(t: Tracking, sessionId: string, fileHash: Hash, filename: string)
    requires !t.IsDuplicateInSession(sessionId, fileHash, filename).0
    ensures t.Added(sessionId, fileHash, filename).GetSessionFileCount(sessionId)
         == t.GetSessionFileCount(sessionId) + 1
  {
    assert fileHash !in t.HashesOf(sessionId);
  }

  /** Registering a hash that is already recorded does not change the count. */
  lemma RepeatedHashCountsNothing(t: Tracking, sessionId: string, fileHash: Hash, filename: string)
    requires t.IsDuplicateInSession(sessionId, fileHash, filename).0
    ensures t.Added(sessionId, fileHash, filename).GetSessionFileCount(sessionId)
         == t.GetSessionFileCount(sessionId)
  {
    assert t.HashesOf(sessionId) + {fileHash} == t.HashesOf(sessionId);
  }

  /** Removing an untracked filename (unknown session, unknown name or empty hash) changes nothing. */
  lemma RemoveUntrackedChangesNothing(t: Tracking, sessionId: string, filename: string)
    requires !t.Tracks(sessionId, filename)
    ensures t.Removed(sessionId, filename) == t
  {
  }

  /**
   * Removing a tracked filename deletes its entry and its hash from the session,
   * and keeps every other filename of the session and every other session.
   */
  lemma RemoveTrackedForgetsIt(t: Tracking, sessionId: string, filename: string, otherName: string, other: string)
    requires t.Tracks(sessionId, filename)
    ensures t.Removed(sessionId, filename).HashOfName(sessionId, filename) == None
    ensures t.HashOfName(sessionId, filename).value !in t.Removed(sessionId, filename).HashesOf(sessionId)
    ensures t.Removed(sessionId, filename).HashesOf(sessionId)
         == t.HashesOf(sessionId) - {t.HashOfName(sessionId, filename).value}
    ensures otherName != filename ==>
      t.Removed(sessionId, filename).HashOfName(sessionId, otherName) == t.HashOfName(sessionId, otherName)
    ensures other != sessionId ==>
      t.Removed(sessionId, filename).HashesOf(other) == t.HashesOf(other) &&
      t.Removed(sessionId, filename).NamesOf(other) == t.NamesOf(other)
  {
  }

  /**
   * Two filenames with the same content: removing one drops the shared hash, so the same
   * content uploaded again under the remaining filename is no longer a duplicate.
   */
  lemma RemoveDropsSharedHash(t: Tracking, sessionId: string, filename: string, otherName: string)
    requires t.Valid() && t.Tracks(sessionId, filename) && otherName != filename
    requires t.HashOfName(sessionId, otherName) == t.HashOfName(sessionId, filename)
    ensures t.Removed(sessionId, filename).HashOfName(sessionId, otherName) == t.HashOfName(sessionId, filename)
    ensures t.Removed(sessionId, filename).IsDuplicateInSession(
              sessionId, t.HashOfName(sessionId, filename).value, otherName) == (false, false)
  {
  }

  /** Every operation keeps the two dictionaries' session sets equal. */
  lemma OperationsKeepValid(t: Tracking, sessionId: string, fileHash: Hash, filename: string)
    requires t.Valid()
    ensures t.Added(sessionId, fileHash, filename).Valid()
    ensures t.Cleared(sessionId).Valid()
    ensures t.Removed(sessionId, filename).Valid()
  {
  }
}
