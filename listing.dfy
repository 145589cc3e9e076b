/** getFileInfo and the list handler's pipeline over the upload directory:
    keep the ".bin" entries, describe each, drop the ones that vanished, newest first. */
module Listing {
  import opened Wrappers
  import opened Strings
  import opened Naming

  /** The upload directory's files: name to contents. */
  type Directory = map<string, seq<byte>>

  /** What getFileInfo reports of an entry; `timestamp` stands for the upload time that
      is formatted from it. */
  datatype FileInfo = FileInfo(filename: string, version: string, size: nat, timestamp: Option<nat>)

  /** getFileInfo: null (None) when the entry no longer exists, otherwise its stat size
      and what its name decodes to. */
  function FileInfoOf(files: Directory, name: string): Option<FileInfo>
  {
    if name !in files then None
    else
      var d := Decode(name);
      Some(FileInfo(name, d.version, |files[name]|, d.timestamp))
  }

  /** What getFileInfo reports right after an upload is stored under its encoded name. */
  lemma StoredUploadInfo(files: Directory, version: Option<string>, now: nat, data: seq<byte>)
    ensures var name := Encode(version, now);
      FileInfoOf(files[name := data], name) ==
        Some(FileInfo(name, OrUnknown(RemoveFirst(SanitizedVersion(version), BinSuffix)), |data|, Some(now)))
  {
    DecodeEncode(version, now);
  }

  function Names(infos: seq<FileInfo>): (r: seq<string>)
    ensures |r| == |infos| && forall i :: 0 <= i < |infos| ==> r[i] == infos[i].filename
  {
    seq(|infos|, i requires 0 <= i < |infos| => infos[i].filename)
  }

  ghost predicate Distinct<T>(s: seq<T>)
  {
    forall i, j :: 0 <= i < j < |s| ==> s[i] != s[j]
  }

  /** `.filter(f => f.endsWith('.bin')).map(getFileInfo).filter(f => f !== null)` over the
      names readdir returned; every result describes a ".bin" entry still present. */
  function Collect(entries: seq<string>, files: Directory): (r: seq<FileInfo>)
    ensures |r| <= |entries|
    ensures forall i :: 0 <= i < |r| ==>
      && r[i].filename in entries
      && EndsWith(r[i].filename, BinSuffix)
      && FileInfoOf(files, r[i].filename) == Some(r[i])
  {
    if entries == [] then []
    else
      var rest := Collect(entries[1..], files);
      var info := FileInfoOf(files, entries[0]);
      if EndsWith(entries[0], BinSuffix) && info.Some? then [info.value] + rest else rest
  }

  lemma NamesCons(x: FileInfo, rest: seq<FileInfo>)
    ensures Names([x] + rest) == [x.filename] + Names(rest)
  {
  }

  /** Every ".bin" entry readdir returned that is still present is described. */
  lemma {:induction false} CollectComplete(entries: seq<string>, files: Directory, name: string)
    requires name in entries && name in files && EndsWith(name, BinSuffix)
    ensures name in Names(Collect(entries, files))
  {
    var rest := Collect(entries[1..], files);
    var info := FileInfoOf(files, entries[0]);
    var kept := EndsWith(entries[0], BinSuffix) && info.Some?;
    if entries[0] == name {
      assert kept;
      NamesCons(info.value, rest);
    } else {
      assert name in entries[1..];
      CollectComplete(entries[1..], files, name);
      if kept {
        NamesCons(info.value, rest);
      }
    }
  }

  lemma DistinctTail<T>(s: seq<T>)
    requires s != [] && Distinct(s)
    ensures Distinct(s[1..]) && s[0] !in s[1..]
  {
    var tail := s[1..];
    forall i, j | 0 <= i < j < |tail| ensures tail[i] != tail[j] {
      assert tail[i] == s[i + 1] && tail[j] == s[j + 1];
    }
    forall k | 0 <= k < |tail| ensures tail[k] != s[0] {
      assert tail[k] == s[k + 1];
    }
  }

  lemma DistinctNamesCons(x: FileInfo, rest: seq<FileInfo>)
    requires Distinct(Names(rest)) && x.filename !in Names(rest)
    ensures Distinct(Names([x] + rest))
  {
    var r := [x] + rest;
    forall i, j | 0 <= i < j < |r| ensures Names(r)[i] != Names(r)[j] {
      assert Names(r)[j] == Names(rest)[j - 1];
      if i > 0 {
        assert Names(r)[i] == Names(rest)[i - 1];
      }
    }
  }

  /** Distinct entries give distinct descriptions. */
  lemma {:induction false} CollectDistinct(entries: seq<string>, files: Directory)
    requires Distinct(entries)
    ensures Distinct(Names(Collect(entries, files)))
  {
    if entries != [] {
      var tail := entries[1..];
      DistinctTail(entries);
      CollectDistinct(tail, files);
      var rest := Collect(tail, files);
      var info := FileInfoOf(files, entries[0]);
      if EndsWith(entries[0], BinSuffix) && info.Some? {
        assert Collect(entries, files) == [info.value] + rest;
        assert entries[0] !in Names(rest) by {
          forall k | 0 <= k < |rest| ensures Names(rest)[k] != entries[0] {
            assert rest[k].filename in tail;
          }
        }
        DistinctNamesCons(info.value, rest);
      }
    }
  }

  // ---------------------------------------------------------------------------
  // Most recent first

  /** The comparator's order on upload times: a later timestamp first; a name whose
      timestamp does not parse after every name whose timestamp does. */
  predicate NewerOrSame(a: Option<nat>, b: Option<nat>)
  {
    b.None? || (a.Some? && a.value >= b.value)
  }

  predicate SortedNewestFirst(s: seq<FileInfo>)
  {
    forall i, j :: 0 <= i < j < |s| ==> NewerOrSame(s[i].timestamp, s[j].timestamp)
  }

  /** Places `x` before the first element that is not newer than it. */
  function Insert(x: FileInfo, s: seq<FileInfo>): (r: seq<FileInfo>)
    ensures multiset(r) == multiset(s) + multiset{x}
  {
    if s == [] || NewerOrSame(x.timestamp, s[0].timestamp) then [x] + s
    else
      assert s == [s[0]] + s[1..];
      [s[0]] + Insert(x, s[1..])
  }

  /** `.sort((a, b) => time(b) - time(a))`, keyed by the parsed timestamp. */
  function SortNewestFirst(s: seq<FileInfo>): (r: seq<FileInfo>)
    ensures multiset(r) == multiset(s)
  {
    if s == [] then []
    else
      assert s == [s[0]] + s[1..];
      Insert(s[0], SortNewestFirst(s[1..]))
  }

  /** A bound on the timestamps of `x` and of `s` bounds those of `Insert(x, s)`. */
  lemma InsertBounded(h: Option<nat>, x: FileInfo, s: seq<FileInfo>)
    requires NewerOrSame(h, x.timestamp)
    requires forall i :: 0 <= i < |s| ==> NewerOrSame(h, s[i].timestamp)
    ensures forall k :: 0 <= k < |Insert(x, s)| ==> NewerOrSame(h, Insert(x, s)[k].timestamp)
  {
    var t := Insert(x, s);
    forall k | 0 <= k < |t| ensures NewerOrSame(h, t[k].timestamp) {
      assert t[k] in multiset(t);
      assert t[k] == x || t[k] in multiset(s);
      if t[k] != x {
        var m :| 0 <= m < |s| && s[m] == t[k];
      }
    }
  }

  /** A sorted sequence behind a head that is newer than all of it is sorted. */
  lemma SortedCons(y: FileInfo, t: seq<FileInfo>)
    requires SortedNewestFirst(t)
    requires forall k :: 0 <= k < |t| ==> NewerOrSame(y.timestamp, t[k].timestamp)
    ensures SortedNewestFirst([y] + t)
  {
    var r := [y] + t;
    forall i, j | 0 <= i < j < |r| ensures NewerOrSame(r[i].timestamp, r[j].timestamp) {
      assert r[j] == t[j - 1];
      if i > 0 {
        assert r[i] == t[i - 1];
      }
    }
  }

  lemma SortedTail(s: seq<FileInfo>)
    requires s != [] && SortedNewestFirst(s)
    ensures SortedNewestFirst(s[1..])
    ensures forall k :: 0 <= k < |s[1..]| ==> NewerOrSame(s[0].timestamp, s[1..][k].timestamp)
  {
    var tail := s[1..];
    forall i, j | 0 <= i < j < |tail| ensures NewerOrSame(tail[i].timestamp, tail[j].timestamp) {
      assert tail[i] == s[i + 1] && tail[j] == s[j + 1];
    }
    forall k | 0 <= k < |tail| ensures NewerOrSame(s[0].timestamp, tail[k].timestamp) {
      assert tail[k] == s[k + 1];
    }
  }

  lemma {:induction false} InsertSorted(x: FileInfo, s: seq<FileInfo>)
    requires SortedNewestFirst(s)
    ensures SortedNewestFirst(Insert(x, s))
  {
    if s == [] {
      SortedCons(x, s);
    } else {
      SortedTail(s);
      var tail := s[1..];
      assert s == [s[0]] + tail;
      if NewerOrSame(x.timestamp, s[0].timestamp) {
        forall k | 0 <= k < |s| ensures NewerOrSame(x.timestamp, s[k].timestamp) {
          if k > 0 { assert s[k] == tail[k - 1]; }
        }
        SortedCons(x, s);
      } else {
        InsertSorted(x, tail);
        InsertBounded(s[0].timestamp, x, tail);
        SortedCons(s[0], Insert(x, tail));
      }
    }
  }

  /** The sort orders its input most recent first. */
  lemma {:induction false} SortSorted(s: seq<FileInfo>)
    ensures SortedNewestFirst(SortNewestFirst(s))
  {
    if s != [] {
      SortSorted(s[1..]);
      InsertSorted(s[0], SortNewestFirst(s[1..]));
    }
  }

  // ---------------------------------------------------------------------------
  // Distinctness through a permutation

  lemma {:induction false} DistinctCounts<T>(s: seq<T>, x: T)
    requires Distinct(s)
    ensures multiset(s)[x] <= 1
  {
    if s != [] {
      var tail := s[1..];
      assert s == [s[0]] + tail;
      DistinctTail(s);
      DistinctCounts(tail, x);
    }
  }

  lemma RepeatedCounts<T>(s: seq<T>, i: nat, j: nat)
    requires i < j < |s| && s[i] == s[j]
    ensures multiset(s)[s[i]] >= 2
  {
    assert s == s[..j] + s[j..];
    assert s[i] in s[..j];
    assert s[j] in s[j..];
  }

  /** A reordering of distinct elements is distinct. */
  lemma PermutationDistinct<T>(a: seq<T>, b: seq<T>)
    requires multiset(a) == multiset(b) && Distinct(a)
    ensures Distinct(b)
  {
    forall i, j | 0 <= i < j < |b| ensures b[i] != b[j] {
      DistinctCounts(a, b[i]);
      if b[i] == b[j] {
        RepeatedCounts(b, i, j);
      }
    }
  }

  /** Descriptions of present entries are distinct exactly when their names are. */
  /** Every entry of `r` is getFileInfo of its stored file. */
  ghost predicate Described(r: seq<FileInfo>, files: Directory)
  {
    forall i :: 0 <= i < |r| ==> FileInfoOf(files, r[i].filename) == Some(r[i])
  }

  lemma DistinctInfos(r: seq<FileInfo>, files: Directory)
    requires Described(r, files)
    ensures Distinct(r) <==> Distinct(Names(r))
  {
    if Distinct(r) {
      forall i, j | 0 <= i < j < |r| ensures Names(r)[i] != Names(r)[j] {
        assert r[i] != r[j];
        assert FileInfoOf(files, Names(r)[i]) == Some(r[i]);
        assert FileInfoOf(files, Names(r)[j]) == Some(r[j]);
      }
    }
  }

  // ---------------------------------------------------------------------------
  // The whole pipeline

  lemma NamesOfPermutation(a: seq<FileInfo>, b: seq<FileInfo>, name: string)
    requires multiset(a) == multiset(b)
    ensures name in Names(a) <==> name in Names(b)
  {
    if name in Names(a) {
      var i :| 0 <= i < |a| && Names(a)[i] == name;
      assert a[i] in multiset(b);
      var j :| 0 <= j < |b| && b[j] == a[i];
      assert Names(b)[j] == name;
    }
    if name in Names(b) {
      var j :| 0 <= j < |b| && Names(b)[j] == name;
      assert b[j] in multiset(a);
      var i :| 0 <= i < |a| && a[i] == b[j];
      assert Names(a)[i] == name;
    }
  }

  /** Sorting keeps exactly the names the filters kept. */
  lemma PipelineMembers(entries: seq<string>, files: Directory, name: string)
    ensures name in Names(SortNewestFirst(Collect(entries, files))) <==>
      name in entries && name in files && EndsWith(name, BinSuffix)
  {
    var c := Collect(entries, files);
    NamesOfPermutation(SortNewestFirst(c), c, name);
    if name in entries && name in files && EndsWith(name, BinSuffix) {
      CollectComplete(entries, files, name);
    }
    if name in Names(c) {
      var i :| 0 <= i < |c| && Names(c)[i] == name;
      assert FileInfoOf(files, c[i].filename).Some?;
    }
  }

  /** Sorting keeps every description tied to its stored entry. */
  lemma PipelineDescribed(entries: seq<string>, files: Directory)
    ensures Described(SortNewestFirst(Collect(entries, files)), files)
  {
    var c := Collect(entries, files);
    var r := SortNewestFirst(c);
    forall i | 0 <= i < |r| ensures FileInfoOf(files, r[i].filename) == Some(r[i]) {
      assert r[i] in multiset(c);
    }
  }

  /** What the list handler's pipeline yields from the names readdir returned: exactly the
      ".bin" entries still present, each described from its stored entry, without
      repetition when readdir repeats no name, most recent first. */
  lemma PipelineProperties(entries: seq<string>, files: Directory)
    ensures var r := SortNewestFirst(Collect(entries, files));
      && (forall name :: name in Names(r) <==> name in entries && name in files && EndsWith(name, BinSuffix))
      && (forall i :: 0 <= i < |r| ==> FileInfoOf(files, r[i].filename) == Some(r[i]))
      && (Distinct(entries) ==> Distinct(Names(r)))
      && SortedNewestFirst(r)
  {
    var c := Collect(entries, files);
    forall name ensures name in Names(SortNewestFirst(c)) <==> name in entries && name in files && EndsWith(name, BinSuffix) {
      PipelineMembers(entries, files, name);
    }
    PipelineDescribed(entries, files);
    if Distinct(entries) {
      PipelineDistinct(entries, files);
    }
    SortSorted(c);
  }

  /** When readdir returns every stored name exactly once, the listing holds every stored
      ".bin" file exactly once. */
  lemma ListingOfEveryName(entries: seq<string>, files: Directory)
    requires Distinct(entries) && forall name :: name in entries <==> name in files
    ensures var r := SortNewestFirst(Collect(entries, files));
      && (forall name :: name in Names(r) <==> name in files && EndsWith(name, BinSuffix))
      && Distinct(Names(r))
  {
    PipelineProperties(entries, files);
  }

  /** Sorting repeats no name when readdir repeats none. */
  lemma PipelineDistinct(entries: seq<string>, files: Directory)
    requires Distinct(entries)
    ensures Distinct(Names(SortNewestFirst(Collect(entries, files))))
  {
    var c := Collect(entries, files);
    var r := SortNewestFirst(c);
    CollectDistinctInfos(entries, files);
    PipelineDescribed(entries, files);
    DistinctInfos(r, files);
  }

  lemma CollectDistinctInfos(entries: seq<string>, files: Directory)
    requires Distinct(entries)
    ensures Distinct(SortNewestFirst(Collect(entries, files)))
  {
    var c := Collect(entries, files);
    CollectDistinct(entries, files);
    DistinctInfos(c, files);
    PermutationDistinct(c, SortNewestFirst(c));
  }
}
