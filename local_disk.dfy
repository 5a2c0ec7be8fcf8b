/**
 * The local upload directory of `StorageService` (backend/services/storage_service.py):
 * each stored file `<name>` has a sidecar `<name>.meta` recording its upload time, and the
 * cleanup sweep deletes every file whose recorded time is before the cutoff.
 */
module LocalDisk {
  import opened Wrappers
  import opened Paths

  type Bytes = seq<bv8>

  /**
   * A file in the upload directory: stored bytes, or a sidecar the service wrote, by the
   * upload time in whole seconds its JSON yields (`None` when it cannot be read, parsed or
   * has no `upload_time`).
   */
  datatype DiskFile = Upload(content: Bytes) | Metadata(uploadTime: Option<int>)

  /** The upload directory, by file name. */
  type Directory = map<string, DiskFile>

  /**
   * `json.loads` followed by `datetime.fromisoformat(metadata['upload_time'])` on the bytes of
   * a file: the upload time they hold, or `None` where any step raises.
   */
  type Parser = Bytes -> Option<int>

  /**
   * What the sweep reads from a file that `*.meta` matches: the time a sidecar written by the
   * service records, or whatever the parser makes of stored bytes (a stored upload whose
   * own name ends in `.meta` is read like any sidecar).
   */
  function ReadUploadTime(parse: Parser, file: DiskFile): (r: Option<int>)
    ensures file.Metadata? ==> r == file.uploadTime
    ensures file.Upload? ==> r == parse(file.content)
  {
    match file
    case Metadata(uploadTime) => uploadTime
    case Upload(content) => parse(content)
  }

  /** The directory after `_save_local` wrote `filename` and then its sidecar. */
  function Written(d: Directory, filename: string, content: Bytes, now: int): (r: Directory)
    ensures r.Keys == d.Keys + {filename, MetaName(filename)}
    ensures r[filename] == Upload(content)
    ensures r[MetaName(filename)] == Metadata(Some(now))
    ensures forall k :: k in d && k != filename && k != MetaName(filename) ==> r[k] == d[k]
  {
    assert |MetaName(filename)| != |filename|;
    d[filename := Upload(content)][MetaName(filename) := Metadata(Some(now))]
  }

  /**
   * The directory after `_delete_local`: the file and its sidecar are gone, if they were there.
   * The empty name joins to the upload directory itself, whose `unlink` fails before the
   * sidecar is reached, so nothing is deleted.
   */
  function Deleted(d: Directory, filename: string): (r: Directory)
    ensures filename != "" ==> r.Keys == d.Keys - {filename, MetaName(filename)}
    ensures filename == "" ==> r == d
    ensures forall k :: k in r ==> k in d && r[k] == d[k]
  {
    if filename == "" then d else d - {filename, MetaName(filename)}
  }

  /** `datetime.now() - timedelta(hours=auto_delete_hours)`, in seconds. */
  function Cutoff(now: int, autoDeleteHours: int): (cutoff: int)
    ensures autoDeleteHours >= 0 ==> cutoff <= now
    ensures cutoff == now <==> autoDeleteHours == 0
    ensures cutoff < now <==> autoDeleteHours > 0
  {
    now - autoDeleteHours * 3600
  }

  /** A readable sidecar whose upload time is strictly before the cutoff. */
  predicate Expired(parse: Parser, d: Directory, metadataFile: string, cutoff: int)
  {
    metadataFile in d && ReadUploadTime(parse, d[metadataFile]).Some? && ReadUploadTime(parse, d[metadataFile]).value < cutoff
  }

  /** One turn of the sweep loop: an expired sidecar deletes its stem and the stem's sidecar; anything else is skipped. */
  function SweepOne(parse: Parser, d: Directory, metadataFile: string, cutoff: int): (r: Directory)
    ensures !Expired(parse, d, metadataFile, cutoff) ==> r == d
    ensures Expired(parse, d, metadataFile, cutoff) && metadataFile != "" ==>
      r.Keys == d.Keys - {Stem(metadataFile), MetaName(Stem(metadataFile))}
    ensures forall k :: k in r ==> k in d && r[k] == d[k]
  {
    if Expired(parse, d, metadataFile, cutoff) then Deleted(d, Stem(metadataFile)) else d
  }

  /** `_cleanup_local_files` over the sidecar names in the order the directory listing gives them. */
  function Swept(parse: Parser, d: Directory, listing: seq<string>, cutoff: int): (r: Directory)
    ensures r.Keys <= d.Keys
    ensures listing == [] ==> r == d
    decreases |listing|
  {
    if listing == [] then d else Swept(parse, SweepOne(parse, d, listing[0], cutoff), listing[1..], cutoff)
  }

  /** `glob("*.meta")`: the listing names exactly the directory's files that end in `.meta`. */
  ghost predicate ListsMetadataFiles(d: Directory, listing: seq<string>)
  {
    forall m :: m in listing <==> m in d && IsMetaName(m)
  }

  /** Every metadata file is the sidecar `<name>.meta` of a non-empty name. */
  ghost predicate SidecarsNamed(d: Directory)
  {
    forall m :: m in d && d[m].Metadata? ==> IsMetaName(m) && |m| > 5
  }

  /**
   * No expired sidecar names another expired sidecar as its file. Only then is the outcome
   * of the sweep independent of the listing order.
   */
  ghost predicate Unnested(parse: Parser, d: Directory, cutoff: int)
  {
    forall m :: IsMetaName(m) && Expired(parse, d, m, cutoff) && Stem(m) != m ==>
      !(IsMetaName(Stem(m)) && Expired(parse, d, Stem(m), cutoff))
  }

  /** `_delete_local` of a name that is not there changes nothing (and still reports success). */
  lemma DeleteAbsentChangesNothing(d: Directory, filename: string)
    requires filename !in d && MetaName(filename) !in d
    ensures Deleted(d, filename) == d
  {
  }

  lemma DeleteIsIdempotent(d: Directory, filename: string)
    ensures Deleted(Deleted(d, filename), filename) == Deleted(d, filename)
  {
  }

  /** A file the service writes is read back by the sweep with the time it was written at. */
  lemma WrittenFileHasSidecar(parse: Parser, d: Directory, filename: string, content: Bytes, now: int)
    requires filename != ""
    ensures Stem(MetaName(filename)) == filename && IsMetaName(MetaName(filename))
    ensures ReadUploadTime(parse, Written(d, filename, content, now)[MetaName(filename)]) == Some(now)
    ensures SidecarsNamed(d) ==> SidecarsNamed(Written(d, filename, content, now))
  {
    StemOfMetaName(filename);
    MetaNameIsMetaName(filename);
  }

  /** The sweep only deletes: what is left was there before, unchanged. */
  lemma {:induction false} SweptOnlyDeletes(parse: Parser, d: Directory, listing: seq<string>, cutoff: int)
    ensures forall k :: k in Swept(parse, d, listing, cutoff) ==> k in d && Swept(parse, d, listing, cutoff)[k] == d[k]
    decreases |listing|
  {
    if listing != [] {
      SweptOnlyDeletes(parse, SweepOne(parse, d, listing[0], cutoff), listing[1..], cutoff);
    }
  }

  /** A file that no expired listed sidecar names survives the sweep. */
  lemma {:induction false} SweptKeeps(parse: Parser, d: Directory, listing: seq<string>, cutoff: int, k: string)
    requires k in d
    requires forall m :: m in listing && Expired(parse, d, m, cutoff) ==> k != Stem(m) && k != MetaName(Stem(m))
    ensures k in Swept(parse, d, listing, cutoff)
    decreases |listing|
  {
    if listing != [] {
      var next := SweepOne(parse, d, listing[0], cutoff);
      assert forall m :: m in listing[1..] && Expired(parse, next, m, cutoff) ==> m in listing && Expired(parse, d, m, cutoff);
      SweptKeeps(parse, next, listing[1..], cutoff, k);
    }
  }

  /** A sidecar is one of the two files it deletes. */
  lemma ExpiredSidecarDeletesItself(m: string)
    requires IsMetaName(m)
    ensures m == Stem(m) || m == MetaName(Stem(m))
  {
    if |m| > 5 {
      MetaNameOfStem(m);
    } else {
      assert m == MetaName("");
      StemOfMetaName("");
    }
  }

  /** Every listed expired sidecar is gone afterwards, whatever else the listing holds. */
  lemma {:induction false} SweptRemovesExpired(parse: Parser, d: Directory, listing: seq<string>, cutoff: int, m: string)
    requires m in listing && IsMetaName(m) && Expired(parse, d, m, cutoff)
    ensures m !in Swept(parse, d, listing, cutoff)
    decreases |listing|
  {
    var next := SweepOne(parse, d, listing[0], cutoff);
    if listing[0] == m {
      ExpiredSidecarDeletesItself(m);
      SweptOnlyDeletes(parse, next, listing[1..], cutoff);
    } else if m in next {
      SweptRemovesExpired(parse, next, listing[1..], cutoff, m);
    } else {
      SweptOnlyDeletes(parse, next, listing[1..], cutoff);
    }
  }

  lemma UnnestedAfterStep(parse: Parser, d: Directory, metadataFile: string, cutoff: int)
    requires Unnested(parse, d, cutoff)
    ensures Unnested(parse, SweepOne(parse, d, metadataFile, cutoff), cutoff)
  {
  }

  /**
   * Every listed expired sidecar's file and sidecar are deleted, however many unreadable or
   * unexpired entries the listing holds, provided no expired sidecar names another.
   */
  lemma {:induction false} SweptRemovesVictims(parse: Parser, d: Directory, listing: seq<string>, cutoff: int, m: string)
    requires forall x :: x in listing ==> IsMetaName(x)
    requires Unnested(parse, d, cutoff)
    requires m in listing && Expired(parse, d, m, cutoff)
    ensures Stem(m) !in Swept(parse, d, listing, cutoff) && MetaName(Stem(m)) !in Swept(parse, d, listing, cutoff)
    decreases |listing|
  {
    var first := listing[0];
    var next := SweepOne(parse, d, first, cutoff);
    SweptOnlyDeletes(parse, next, listing[1..], cutoff);
    if first != m {
      if m in next {
        UnnestedAfterStep(parse, d, first, cutoff);
        SweptRemovesVictims(parse, next, listing[1..], cutoff, m);
      } else {
        // m was deleted by the earlier sidecar `first`, and not as its stem (that would be nesting)
        assert Expired(parse, d, first, cutoff) && m != Stem(first);
        assert m == MetaName(Stem(first));
        assert IsMetaName(first) && Stem(first) != "";
        StemOfMetaName(Stem(first));
        assert Stem(m) == Stem(first);
      }
    }
  }

  /**
   * Without `Unnested` the listing order decides: next to an expired `x.meta`, an expired
   * `x.meta.meta` listed first deletes `x.meta` before its turn, and `x` survives; listed
   * after it, `x` is deleted.
   */
  lemma SweepOrderMatters(parse: Parser, content: Bytes, t: int, cutoff: int)
    requires t < cutoff
    ensures var d := map["x" := Upload(content), "x.meta" := Metadata(Some(t)), "x.meta.meta" := Metadata(Some(t))];
      && !Unnested(parse, d, cutoff)
      && "x" in Swept(parse, d, ["x.meta.meta", "x.meta"], cutoff)
      && "x" !in Swept(parse, d, ["x.meta", "x.meta.meta"], cutoff)
  {
    var d := map["x" := Upload(content), "x.meta" := Metadata(Some(t)), "x.meta.meta" := Metadata(Some(t))];
    assert MetaName("x") == "x.meta" && MetaName("x.meta") == "x.meta.meta";
    StemOfMetaName("x");
    StemOfMetaName("x.meta");
    MetaNameIsMetaName("x");
    MetaNameIsMetaName("x.meta");
    var outerFirst := SweepOne(parse, d, "x.meta.meta", cutoff);
    assert outerFirst == map["x" := Upload(content)];
    assert Swept(parse, outerFirst, ["x.meta"], cutoff) == outerFirst;
    var innerFirst := SweepOne(parse, d, "x.meta", cutoff);
    assert "x" !in innerFirst;
  }

  /** After a sweep no expired sidecar is left. */
  lemma NothingExpiredRemains(parse: Parser, d: Directory, listing: seq<string>, cutoff: int)
    requires ListsMetadataFiles(d, listing)
    ensures forall m :: IsMetaName(m) ==> !Expired(parse, Swept(parse, d, listing, cutoff), m, cutoff)
  {
    SweptOnlyDeletes(parse, d, listing, cutoff);
    forall m | IsMetaName(m) && m in Swept(parse, d, listing, cutoff)
      ensures !Expired(parse, Swept(parse, d, listing, cutoff), m, cutoff)
    {
      if Expired(parse, d, m, cutoff) {
        SweptRemovesExpired(parse, d, listing, cutoff, m);
      }
    }
  }

  /** A sweep over a listing with nothing expired in it leaves the directory as it is. */
  lemma {:induction false} SweptNothingExpired(parse: Parser, d: Directory, listing: seq<string>, cutoff: int)
    requires forall m :: m in listing ==> !Expired(parse, d, m, cutoff)
    ensures Swept(parse, d, listing, cutoff) == d
    decreases |listing|
  {
    if listing != [] {
      SweptNothingExpired(parse, d, listing[1..], cutoff);
    }
  }

  /** A second sweep at the same clock deletes nothing more. */
  lemma SweepIsIdempotent(parse: Parser, d: Directory, listing: seq<string>, relisting: seq<string>, cutoff: int)
    requires ListsMetadataFiles(d, listing)
    requires ListsMetadataFiles(Swept(parse, d, listing, cutoff), relisting)
    ensures Swept(parse, Swept(parse, d, listing, cutoff), relisting, cutoff) == Swept(parse, d, listing, cutoff)
  {
    NothingExpiredRemains(parse, d, listing, cutoff);
    SweptNothingExpired(parse, Swept(parse, d, listing, cutoff), relisting, cutoff);
  }

  /** No stored upload that `*.meta` matches reads as an expired upload time. */
  ghost predicate NoUploadExpires(parse: Parser, d: Directory, cutoff: int)
  {
    forall m :: m in d && d[m].Upload? && IsMetaName(m) ==> !Expired(parse, d, m, cutoff)
  }

  /**
   * A stored upload whose own name ends in `.meta` is read as a sidecar: when its bytes hold
   * an expired upload time it is deleted, whatever its own sidecar records.
   */
  lemma MetaSuffixedUploadIsSwept(parse: Parser, d: Directory, listing: seq<string>, cutoff: int, filename: string)
    requires ListsMetadataFiles(d, listing)
    requires filename in d && d[filename].Upload? && IsMetaName(filename)
    requires parse(d[filename].content).Some? && parse(d[filename].content).value < cutoff
    ensures filename !in Swept(parse, d, listing, cutoff)
  {
    SweptRemovesExpired(parse, d, listing, cutoff, filename);
  }

  /**
   * A stored file with a readable sidecar is deleted exactly when its upload time is strictly
   * before the cutoff, and kept unchanged otherwise, provided no `.meta`-named upload reads
   * as expired.
   */
  lemma SweepDecidesStoredFile(parse: Parser, d: Directory, listing: seq<string>, cutoff: int, filename: string, uploadTime: int)
    requires ListsMetadataFiles(d, listing) && SidecarsNamed(d) && Unnested(parse, d, cutoff)
    requires NoUploadExpires(parse, d, cutoff)
    requires filename in d && d[filename].Upload?
    requires MetaName(filename) in d && d[MetaName(filename)] == Metadata(Some(uploadTime))
    ensures filename in Swept(parse, d, listing, cutoff) <==> cutoff <= uploadTime
    ensures filename in Swept(parse, d, listing, cutoff) ==> Swept(parse, d, listing, cutoff)[filename] == d[filename]
  {
    var sidecar := MetaName(filename);
    MetaNameIsMetaName(filename);
    StemOfMetaName(filename);
    SweptOnlyDeletes(parse, d, listing, cutoff);
    if uploadTime < cutoff {
      SweptRemovesVictims(parse, d, listing, cutoff, sidecar);
    } else {
      forall m | m in listing && Expired(parse, d, m, cutoff)
        ensures filename != Stem(m) && filename != MetaName(Stem(m))
      {
        MetaNameOfStem(m);
      }
      SweptKeeps(parse, d, listing, cutoff, filename);
    }
  }
}
