/** How multer, configured with the extension filter and the size and count limits, and
    the upload handler treat a multipart request. */
module Uploads {
  import opened Wrappers
  import opened Strings
  import opened Paths
  import opened Naming

  /** `limits.fileSize`: 50 MiB. */
  const MaxFileSize: nat := 50 * 1024 * 1024
  /** The field `upload.single` accepts. */
  const FileField: string := "firmware"
  const VersionField: string := "version"

  /** One part of the multipart body, in the order the client sent it. */
  datatype Part =
    | TextField(name: string, value: string)
    | FilePart(field: string, originalName: string, data: seq<byte>)

  datatype UploadError =
    | NoFile            // the handler finds no req.file
    | UnexpectedField   // LIMIT_UNEXPECTED_FILE: the file is not in the accepted field
    | InvalidExtension  // the extension filter's error
    | IOFailure         // the upload directory is missing; no other write failure is modelled
    | PayloadTooLarge   // LIMIT_FILE_SIZE
    | TooManyFiles      // LIMIT_FILE_COUNT

  /** The file parts of a request, in order. */
  function FileParts(parts: seq<Part>): (r: seq<Part>)
    ensures |r| <= |parts|
    ensures forall i :: 0 <= i < |r| ==> r[i].FilePart?
  {
    if parts == [] then []
    else if parts[0].FilePart? then [parts[0]] + FileParts(parts[1..])
    else FileParts(parts[1..])
  }

  /** `req.body.version` when multer names the file: multer fills `req.body` as the
      fields stream in, so only a `version` field sent before the first file counts. */
  function VersionBeforeFile(parts: seq<Part>): (r: Option<string>)
    ensures r.Some? ==> exists i :: 0 <= i < |parts| && parts[i] == TextField(VersionField, r.value)
  {
    if parts == [] || parts[0].FilePart? then None
    else if parts[0].name == VersionField then Some(parts[0].value)
    else VersionBeforeFile(parts[1..])
  }

  /** Only fields other than `version`, and no file, come before position `i`. */
  ghost predicate OnlyOtherFieldsBefore(parts: seq<Part>, i: nat)
  {
    forall k :: 0 <= k < i && k < |parts| ==> parts[k].TextField? && parts[k].name != VersionField
  }

  /** Some file part comes before position `i`. */
  ghost predicate FileBefore(parts: seq<Part>, i: nat)
  {
    exists k :: 0 <= k < i && k < |parts| && parts[k].FilePart?
  }

  /** The version that names the upload is the first `version` field, and it comes
      before every file part. */
  lemma {:induction false} VersionBeforeFileIsFirst(parts: seq<Part>)
    requires VersionBeforeFile(parts).Some?
    ensures exists i ::
      && 0 <= i < |parts|
      && parts[i] == TextField(VersionField, VersionBeforeFile(parts).value)
      && OnlyOtherFieldsBefore(parts, i)
  {
    if parts[0].TextField? && parts[0].name == VersionField {
      assert parts[0] == TextField(VersionField, VersionBeforeFile(parts).value);
      assert OnlyOtherFieldsBefore(parts, 0);
    } else {
      var t := parts[1..];
      VersionBeforeFileIsFirst(t);
      var i :| 0 <= i < |t| && t[i] == TextField(VersionField, VersionBeforeFile(t).value)
        && OnlyOtherFieldsBefore(t, i);
      assert parts[i + 1] == t[i];
      forall k | 0 <= k < i + 1 && k < |parts|
        ensures parts[k].TextField? && parts[k].name != VersionField
      {
        if k > 0 {
          assert parts[k] == t[k - 1];
        }
      }
      assert OnlyOtherFieldsBefore(parts, i + 1);
    }
  }

  /** No version names the upload exactly when a file part precedes every `version`
      field. */
  lemma {:induction false} NoVersionBeforeFile(parts: seq<Part>)
    requires VersionBeforeFile(parts).None?
    ensures forall i :: 0 <= i < |parts| && parts[i].TextField? && parts[i].name == VersionField ==>
      FileBefore(parts, i)
  {
    if parts != [] && !parts[0].FilePart? {
      var t := parts[1..];
      NoVersionBeforeFile(t);
      forall i | 0 <= i < |parts| && parts[i].TextField? && parts[i].name == VersionField
        ensures FileBefore(parts, i)
      {
        assert i > 0 && parts[i] == t[i - 1];
        var k :| 0 <= k < i - 1 && k < |t| && t[k].FilePart?;
        assert parts[k + 1] == t[k];
      }
    } else if parts != [] {
      forall i | 0 < i < |parts| ensures FileBefore(parts, i) {
        assert parts[0].FilePart?;
      }
    }
  }

  /** The file parts are exactly the request's file parts. */
  lemma {:induction false} FilePartsMembers(parts: seq<Part>)
    ensures forall p :: p in FileParts(parts) <==> p in parts && p.FilePart?
  {
    if parts != [] {
      var t := parts[1..];
      FilePartsMembers(t);
      assert parts == [parts[0]] + t;
    }
  }

  /** The first file part handled is the first file part of the request. */
  lemma {:induction false} FilePartsFirst(parts: seq<Part>)
    requires FileParts(parts) != []
    ensures exists i :: 0 <= i < |parts| && parts[i] == FileParts(parts)[0] && !FileBefore(parts, i)
  {
    if parts[0].FilePart? {
      assert parts[0] == FileParts(parts)[0] && !FileBefore(parts, 0);
    } else {
      var t := parts[1..];
      FilePartsFirst(t);
      var i :| 0 <= i < |t| && t[i] == FileParts(t)[0] && !FileBefore(t, i);
      assert parts[i + 1] == t[i];
      forall k | 0 <= k < i + 1 && k < |parts| ensures !parts[k].FilePart? {
        if k > 0 {
          assert parts[k] == t[k - 1];
        }
      }
    }
  }

  /** Two or more file parts are handled exactly when the request carries two. */
  lemma {:induction false} FilePartsTwo(parts: seq<Part>)
    ensures |FileParts(parts)| >= 2 <==>
      exists i, j :: 0 <= i < j < |parts| && parts[i].FilePart? && parts[j].FilePart?
  {
    if parts != [] {
      var t := parts[1..];
      FilePartsTwo(t);
      FilePartsMembers(t);
      if parts[0].FilePart? {
        if FileParts(t) != [] {
          var f := FileParts(t)[0];
          assert f in FileParts(t);
          var j :| 0 <= j < |t| && t[j] == f;
          assert parts[j + 1] == t[j];
        }
        if exists i, j :: 0 <= i < j < |parts| && parts[i].FilePart? && parts[j].FilePart? {
          var i, j :| 0 <= i < j < |parts| && parts[i].FilePart? && parts[j].FilePart?;
          assert parts[j] == t[j - 1] && t[j - 1] in t;
        }
      } else {
        if exists i, j :: 0 <= i < j < |t| && t[i].FilePart? && t[j].FilePart? {
          var i, j :| 0 <= i < j < |t| && t[i].FilePart? && t[j].FilePart?;
          assert parts[i + 1] == t[i] && parts[j + 1] == t[j];
        }
        if exists i, j :: 0 <= i < j < |parts| && parts[i].FilePart? && parts[j].FilePart? {
          var i, j :| 0 <= i < j < |parts| && parts[i].FilePart? && parts[j].FilePart?;
          assert i > 0;
          assert t[i - 1] == parts[i] && t[j - 1] == parts[j];
        }
      }
    }
  }

  /** The outcome of multer and the handler: None when the first file is written,
      otherwise the first error raised.  A file part without a filename is skipped, but
      still counts towards the one-file limit. */
  function Rejection(parts: seq<Part>, dirExists: bool): Option<UploadError>
  {
    var files := FileParts(parts);
    if files == [] then Some(NoFile)
    else
      var f := files[0];
      if f.originalName == [] then (if |files| > 1 then Some(TooManyFiles) else Some(NoFile))
      else if f.field != FileField then Some(UnexpectedField)
      else if ToLower(ExtName(f.originalName)) != BinSuffix then Some(InvalidExtension)
      else if !dirExists then Some(IOFailure)
      else if |f.data| > MaxFileSize then Some(PayloadTooLarge)
      else if |files| > 1 then Some(TooManyFiles)
      else None
  }

  /** An upload is written exactly when the directory exists and the request carries one
      file, in the accepted field, whose name has the extension ".bin" in any letter case
      and whose contents are at most 50 MiB. */
  lemma AcceptedIff(parts: seq<Part>, dirExists: bool)
    ensures Rejection(parts, dirExists).None? <==>
      var files := FileParts(parts);
      && dirExists
      && |files| == 1
      && files[0].field == FileField
      && ToLower(ExtName(files[0].originalName)) == BinSuffix
      && |files[0].data| <= MaxFileSize
  {
    var files := FileParts(parts);
    if files != [] && files[0].originalName == [] {
      EmptyNameHasNoExtension();
    }
  }

  /** A written upload comes from the one file of the request, into an existing directory. */
  lemma AcceptedShape(parts: seq<Part>, dirExists: bool)
    requires Rejection(parts, dirExists).None?
    ensures dirExists && |FileParts(parts)| == 1
  {
  }

  /** The rejections raised after the first file was opened under its encoded name:
      multer then removes that file again.  A too-large file is always one of them; a
      second file is one only when the first had a filename and was written. */
  predicate AbortedAfterWrite(parts: seq<Part>, dirExists: bool)
  {
    var rejection := Rejection(parts, dirExists);
    var files := FileParts(parts);
    || rejection == Some(PayloadTooLarge)
    || (rejection == Some(TooManyFiles) && files != [] && files[0].originalName != [])
  }

  /** An upload is aborted after its file was written exactly when the first file passes
      every check that precedes writing, and it is then too large or followed by a
      second file. */
  lemma AbortedAfterWriteIff(parts: seq<Part>, dirExists: bool)
    ensures AbortedAfterWrite(parts, dirExists) <==>
      var files := FileParts(parts);
      && dirExists
      && files != []
      && files[0].field == FileField
      && ToLower(ExtName(files[0].originalName)) == BinSuffix
      && (|files[0].data| > MaxFileSize || |files| > 1)
  {
    var files := FileParts(parts);
    if files != [] && files[0].originalName == [] {
      EmptyNameHasNoExtension();
    }
  }

  lemma EmptyNameHasNoExtension()
    ensures ToLower(ExtName([])) != BinSuffix
  {
    assert Basename([]) == [];
  }

  /** For a filename without directories, the extension filter accepts exactly the names
      longer than ".bin" that end in ".bin" in any letter case. */
  lemma ExtensionFilter(originalName: string)
    requires '/' !in originalName
    ensures ToLower(ExtName(originalName)) == BinSuffix <==>
      |originalName| > |BinSuffix| && ToLower(originalName[|originalName| - 4..]) == BinSuffix
  {
    BasenameWithoutSlash(originalName);
    ExtIsBinIff(originalName);
  }

  /** The web client appends the file before the version field, so the name is taken
      while no version is known, and every such upload gets the default label. */
  lemma FileBeforeVersionGetsDefault(originalName: string, data: seq<byte>, version: string, now: nat)
    ensures var parts := [FilePart(FileField, originalName, data), TextField(VersionField, version)];
      Encode(VersionBeforeFile(parts), now) == DefaultVersion + "_" + Decimal(now) + BinSuffix
  {
    var parts := [FilePart(FileField, originalName, data), TextField(VersionField, version)];
    assert VersionBeforeFile(parts) == None;
    DefaultLabelUsed(None, now);
  }

  /** Sent before the file, the version field names the upload. */
  lemma VersionBeforeFileNames(originalName: string, data: seq<byte>, version: string, now: nat)
    ensures var parts := [TextField(VersionField, version), FilePart(FileField, originalName, data)];
      Encode(VersionBeforeFile(parts), now) == Encode(Some(version), now)
  {
  }

  /** The client's usual request, version first, passes every check. */
  lemma TypicalRequestAccepted(version: string, data: seq<byte>)
    requires |data| <= MaxFileSize
    ensures var parts := [TextField(VersionField, version), FilePart(FileField, "fw.bin", data)];
      && FileParts(parts) == [parts[1]]
      && VersionBeforeFile(parts) == Some(version)
      && Rejection(parts, true).None?
  {
    var parts := [TextField(VersionField, version), FilePart(FileField, "fw.bin", data)];
    assert FileParts(parts[1..]) == [parts[1]];
    var n := "fw.bin";
    assert ToLower(n[2..]) == BinSuffix by {
      assert n[2..] == ".bin";
    }
    ExtensionFilter(n);
  }
}
