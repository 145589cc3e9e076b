/** The upload directory and the three routes that use it: upload, list and delete. */
module Store {
  import opened Wrappers
  import opened Strings
  import opened Naming
  import opened Listing
  import opened Uploads

  datatype UploadOutcome = Uploaded(info: FileInfo) | Rejected(error: UploadError)

  datatype DeleteOutcome = Deleted | InvalidName | NotFound

  /** The flat upload directory: whether it exists, and its files by name. */
  class FirmwareStore {
    var dirExists: bool
    var files: Directory

    /** A directory that does not exist holds no files. */
    ghost predicate Valid()
      reads this
    {
      !dirExists ==> files == map[]
    }

    /** The state before startup: no upload directory yet. */
    constructor ()
      ensures Valid() && !dirExists && files == map[]
    {
      dirExists := false;
      files := map[];
    }

    /** createUploadsDir: makes the directory when it is missing, and nothing else. */
    method CreateUploadsDir()
      requires Valid()
      modifies this
      ensures Valid() && dirExists && files == old(files)
    {
      if !dirExists {
        dirExists := true;
      }
    }

    /** POST /upload at time `now`: on success the directory gains exactly the encoded
        name with the first file's contents, replacing a same-named earlier upload, and
        the metadata returned is getFileInfo of that stored entry (StoredUploadInfo says
        what it holds).  A rejection raised after the file was opened under its encoded
        name (AbortedAfterWrite) leaves that name removed, together with any earlier
        upload the open truncated; any other rejection changes nothing. */
    method Upload(parts: seq<Part>, now: nat) returns (r: UploadOutcome)
      requires Valid()
      modifies this
      ensures Valid() && dirExists == old(dirExists)
      ensures r.Rejected? <==> Rejection(parts, old(dirExists)).Some?
      ensures r.Rejected? ==> r.error == Rejection(parts, old(dirExists)).value
      ensures r.Rejected? && AbortedAfterWrite(parts, old(dirExists)) ==>
        files == old(files) - {Encode(VersionBeforeFile(parts), now)}
      ensures r.Rejected? && !AbortedAfterWrite(parts, old(dirExists)) ==> files == old(files)
      ensures r.Uploaded? ==>
        var name := Encode(VersionBeforeFile(parts), now);
        && files == old(files)[name := FileParts(parts)[0].data]
        && FileInfoOf(files, name) == Some(r.info)
    {
      var rejection := Rejection(parts, dirExists);
      if rejection.Some? {
        if AbortedAfterWrite(parts, dirExists) {
          files := files - {Encode(VersionBeforeFile(parts), now)};
        }
        return Rejected(rejection.value);
      }
      AcceptedShape(parts, dirExists);
      var data := FileParts(parts)[0].data;
      var name := Encode(VersionBeforeFile(parts), now);
      files := files[name := data];
      var info := FileInfoOf(files, name);
      r := Uploaded(info.value);
    }

    /** GET /firmwares, given the names readdir returned: empty when the directory is
        missing; otherwise exactly the ".bin" names that are still stored, each with its
        stored size and decoded name, without repetition when readdir repeats no name,
        most recent first. */
    function List(entries: seq<string>): (r: seq<FileInfo>)
      reads this
      ensures !dirExists ==> r == []
      ensures dirExists ==> forall name ::
        name in Names(r) <==> name in entries && name in files && EndsWith(name, BinSuffix)
      ensures forall i :: 0 <= i < |r| ==> FileInfoOf(files, r[i].filename) == Some(r[i])
      ensures Distinct(entries) ==> Distinct(Names(r))
      ensures SortedNewestFirst(r)
    {
      if !dirExists then []
      else
        PipelineProperties(entries, files);
        SortNewestFirst(Collect(entries, files))
    }

    /** DELETE /delete/:filename: a name failing the whitelist is refused before any path
        is built, a valid name that is not stored is not found, and otherwise exactly that
        entry is removed. */
    method Delete(name: string) returns (r: DeleteOutcome)
      requires Valid()
      modifies this
      ensures Valid() && dirExists == old(dirExists)
      ensures !IsSafeFileName(name) ==> r == InvalidName && files == old(files)
      ensures IsSafeFileName(name) && name !in old(files) ==> r == NotFound && files == old(files)
      ensures IsSafeFileName(name) && !old(dirExists) ==> r == NotFound
      ensures IsSafeFileName(name) && name in old(files) ==> r == Deleted && files == old(files) - {name}
    {
      if !IsSafeFileName(name) {
        return InvalidName;
      }
      if name !in files {
        return NotFound;
      }
      files := files - {name};
      r := Deleted;
    }
  }

  /** What a caller can conclude from the contracts alone: an upload with the version sent
      first is stored under its encoded name and listed, and deleting it twice reports
      not-found the second time. */
  method UploadListDelete(store: FirmwareStore, data: seq<byte>, now: nat)
    requires store.Valid() && store.dirExists && |data| <= MaxFileSize
    modifies store
  {
    var parts := [TextField(VersionField, "v2.1"), FilePart(FileField, "fw.bin", data)];
    TypicalRequestAccepted("v2.1", data);
    var up := store.Upload(parts, now);
    assert up.Uploaded?;
    var name := up.info.filename;
    assert name == Encode(Some("v2.1"), now);
    EncodedNameIsDeletable(Some("v2.1"), now);
    assert store.files[name] == data;
    var listing := store.List([name]);
    assert name in Names(listing);
    var first := store.Delete(name);
    assert first == Deleted && name !in store.files;
    var second := store.Delete(name);
    assert second == NotFound;
  }
}
