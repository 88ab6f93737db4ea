/**
  The missing-asset bookkeeping of the finder: the file cache filled from the
  archives and from the loose files under the data folder, and the list of
  missing assets that groups each missing file under the record that names
  it. Records come from a plugin library this model does not see, so they are
  a type parameter with equality.
*/
module Finder {
  import opened Utils
  import opened DotNetPath
  import opened BsaReader

  datatype MissingAsset<R> = MissingAsset(record: R, files: seq<string>)

  datatype FinderState<R> = FinderState(
    dataFolder: string,
    fileList: seq<string>,
    missingAssets: seq<MissingAsset<R>>)

  /** A finder for `dataFolder`: nothing cached, nothing missing yet. */
  function NewFinder<R>(dataFolder: string): (r: FinderState<R>)
    ensures r.dataFolder == dataFolder
    ensures |r.fileList| == 0 && |r.missingAssets| == 0
  {
    FinderState(dataFolder, [], [])
  }

  // ----- The invariant of the missing-asset list.

  /** Every file of every entry, counted with multiplicity. */
  function MissingFiles<R>(assets: seq<MissingAsset<R>>): multiset<string>
    decreases |assets|
  {
    if assets == [] then multiset{} else multiset(assets[0].files) + MissingFiles(assets[1..])
  }

  /** No two entries belong to the same record. */
  ghost predicate UniqueRecords<R>(assets: seq<MissingAsset<R>>)
  {
    forall i, j :: 0 <= i < j < |assets| ==> assets[i].record != assets[j].record
  }

  /** No file occurs twice across all entries' files. */
  ghost predicate FilesOnce<R>(assets: seq<MissingAsset<R>>)
  {
    forall f :: MissingFiles(assets)[f] <= 1
  }

  ghost predicate Valid<R>(s: FinderState<R>)
  {
    UniqueRecords(s.missingAssets) && FilesOnce(s.missingAssets)
  }

  lemma NewFinderValid<R>(dataFolder: string)
    ensures Valid(NewFinder<R>(dataFolder))
  {
  }

  /** The multiset of all files counts `f` exactly when some entry lists it. */
  lemma {:induction false} MissingFilesHas<R>(assets: seq<MissingAsset<R>>, f: string)
    ensures MissingFiles(assets)[f] > 0 <==> exists i :: 0 <= i < |assets| && f in assets[i].files
    decreases |assets|
  {
    if assets != [] {
      MissingFilesHas(assets[1..], f);
      if f in assets[0].files {
        assert f in assets[0].files;
      } else if exists i :: 0 <= i < |assets| && f in assets[i].files {
        var i :| 0 <= i < |assets| && f in assets[i].files;
        assert f in assets[1..][i - 1].files;
      }
      if exists i :: 0 <= i < |assets[1..]| && f in assets[1..][i].files {
        var i :| 0 <= i < |assets[1..]| && f in assets[1..][i].files;
        assert f in assets[i + 1].files;
      }
    }
  }

  lemma {:induction false} MissingFilesAppend<R>(assets: seq<MissingAsset<R>>, e: MissingAsset<R>)
    ensures MissingFiles(assets + [e]) == MissingFiles(assets) + multiset(e.files)
    decreases |assets|
  {
    if assets == [] {
      assert [] + [e] == [e];
      assert [e][1..] == [];
    } else {
      assert (assets + [e])[1..] == assets[1..] + [e];
      MissingFilesAppend(assets[1..], e);
    }
  }

  /** Appending `f` to entry `k` adds one `f` to the files and nothing else. */
  lemma {:induction false} MissingFilesGrow<R>(assets: seq<MissingAsset<R>>, k: nat, f: string)
    requires k < |assets|
    ensures MissingFiles(assets[k := assets[k].(files := assets[k].files + [f])])
         == MissingFiles(assets) + multiset{f}
    decreases k
  {
    var grown := assets[k := assets[k].(files := assets[k].files + [f])];
    if k == 0 {
      assert grown[1..] == assets[1..];
      assert multiset(assets[0].files + [f]) == multiset(assets[0].files) + multiset{f};
    } else {
      assert grown[1..] == assets[1..][k - 1 := assets[k].(files := assets[k].files + [f])];
      MissingFilesGrow(assets[1..], k - 1, f);
    }
  }

  // ----- CanAdd and TryAdd.

  /** `All(x => !x.Files.Contains(file))`, entry by entry. */
  function NoEntryHas<R>(assets: seq<MissingAsset<R>>, file: string): bool
    decreases |assets|
  {
    if assets == [] then true else file !in assets[0].files && NoEntryHas(assets[1..], file)
  }

  /** A file can be added when neither the cache nor any entry has it yet. */
  function CanAdd<R>(s: FinderState<R>, file: string): bool
  {
    file !in s.fileList && NoEntryHas(s.missingAssets, file)
  }

  /** CanAdd fails exactly when the file is cached or already listed under
      some entry; equivalently, when the count of listed files is not zero. */
  lemma {:induction false} CanAddSpec<R>(s: FinderState<R>, file: string)
    ensures CanAdd(s, file) <==> file !in s.fileList && forall i :: 0 <= i < |s.missingAssets| ==> file !in s.missingAssets[i].files
    ensures CanAdd(s, file) <==> file !in s.fileList && MissingFiles(s.missingAssets)[file] == 0
  {
    NoEntryHasSpec(s.missingAssets, file);
    MissingFilesHas(s.missingAssets, file);
  }

  lemma {:induction false} NoEntryHasSpec<R>(assets: seq<MissingAsset<R>>, file: string)
    ensures NoEntryHas(assets, file) <==> forall i :: 0 <= i < |assets| ==> file !in assets[i].files
    decreases |assets|
  {
    if assets != [] {
      NoEntryHasSpec(assets[1..], file);
      if NoEntryHas(assets, file) {
        forall i | 0 <= i < |assets| ensures file !in assets[i].files {
          if i > 0 { assert assets[i] == assets[1..][i - 1]; }
        }
      }
      if forall i :: 0 <= i < |assets| ==> file !in assets[i].files {
        assert file !in assets[0].files;
        forall i | 0 <= i < |assets[1..]| ensures file !in assets[1..][i].files {
          assert assets[1..][i] == assets[i + 1];
        }
      }
    }
  }

  /** `i` is the first entry that belongs to `rec`. */
  ghost predicate FirstOf<R>(assets: seq<MissingAsset<R>>, rec: R, i: nat)
  {
    && i < |assets|
    && assets[i].record == rec
    && forall j :: 0 <= j < i ==> assets[j].record != rec
  }

  /** `First(x => x.Record.Equals(record))`, or None where `Any` is false. */
  function FindRecord<R(==)>(assets: seq<MissingAsset<R>>, rec: R): (r: Option<nat>)
    ensures r.Some? ==> FirstOf(assets, rec, r.value)
    ensures r.None? <==> forall i :: 0 <= i < |assets| ==> assets[i].record != rec
    decreases |assets|
  {
    if assets == [] then None
    else if assets[0].record == rec then Some(0)
    else match FindRecord(assets[1..], rec)
      case None => None
      case Some(k) => Some(k + 1)
  }

  /** Record `file` as missing for `rec`: in the entry of `rec` if it has one,
      in a new last entry otherwise, and not at all when CanAdd fails. */
  function TryAdd<R(==)>(s: FinderState<R>, rec: R, file: string): (r: FinderState<R>)
    ensures r.dataFolder == s.dataFolder && r.fileList == s.fileList
    ensures !CanAdd(s, file) ==> r == s
    ensures CanAdd(s, file) && (exists k :: FirstOf(s.missingAssets, rec, k)) ==>
              && |r.missingAssets| == |s.missingAssets|
              && forall i :: 0 <= i < |s.missingAssets| ==>
                   r.missingAssets[i] == if FirstOf(s.missingAssets, rec, i)
                                         then MissingAsset(rec, s.missingAssets[i].files + [file])
                                         else s.missingAssets[i]
    ensures CanAdd(s, file) && (forall i :: 0 <= i < |s.missingAssets| ==> s.missingAssets[i].record != rec) ==>
              r.missingAssets == s.missingAssets + [MissingAsset(rec, [file])]
  {
    if !CanAdd(s, file) then s
    else match FindRecord(s.missingAssets, rec)
      case Some(k) =>
        var e := s.missingAssets[k];
        s.(missingAssets := s.missingAssets[k := e.(files := e.files + [file])])
      case None =>
        s.(missingAssets := s.missingAssets + [MissingAsset(rec, [file])])
  }

  /** TryAdd lists `file` exactly once more when CanAdd holds, and leaves the
      listed files as they were otherwise. */
  lemma TryAddCounts<R>(s: FinderState<R>, rec: R, file: string)
    ensures MissingFiles(TryAdd(s, rec, file).missingAssets)
         == MissingFiles(s.missingAssets) + (if CanAdd(s, file) then multiset{file} else multiset{})
  {
    if CanAdd(s, file) {
      match FindRecord(s.missingAssets, rec)
      case Some(k) => MissingFilesGrow(s.missingAssets, k, file);
      case None => MissingFilesAppend(s.missingAssets, MissingAsset(rec, [file]));
    }
  }

  /** Afterwards the file is listed under the entry of `rec`, unless CanAdd
      failed. */
  lemma TryAddFiles<R>(s: FinderState<R>, rec: R, file: string)
    requires CanAdd(s, file)
    ensures var a := TryAdd(s, rec, file).missingAssets;
            exists i :: 0 <= i < |a| && a[i].record == rec && file in a[i].files
  {
    var a := TryAdd(s, rec, file).missingAssets;
    match FindRecord(s.missingAssets, rec)
    case Some(k) => assert file in a[k].files;
    case None => assert file in a[|a| - 1].files;
  }

  /** TryAdd keeps records unique and files listed at most once. */
  lemma TryAddValid<R>(s: FinderState<R>, rec: R, file: string)
    requires Valid(s)
    ensures Valid(TryAdd(s, rec, file))
  {
    TryAddFilesOnce(s, rec, file);
    TryAddUniqueRecords(s, rec, file);
  }

  lemma TryAddFilesOnce<R>(s: FinderState<R>, rec: R, file: string)
    requires FilesOnce(s.missingAssets)
    ensures FilesOnce(TryAdd(s, rec, file).missingAssets)
  {
    var a := s.missingAssets;
    var b := TryAdd(s, rec, file).missingAssets;
    TryAddCounts(s, rec, file);
    if CanAdd(s, file) {
      CanAddSpec(s, file);
      forall f ensures MissingFiles(b)[f] <= 1 {
        assert MissingFiles(b)[f] == MissingFiles(a)[f] + (if f == file then 1 else 0);
      }
    }
  }

  lemma TryAddUniqueRecords<R>(s: FinderState<R>, rec: R, file: string)
    requires UniqueRecords(s.missingAssets)
    ensures UniqueRecords(TryAdd(s, rec, file).missingAssets)
  {
    var a := s.missingAssets;
    var b := TryAdd(s, rec, file).missingAssets;
    if CanAdd(s, file) {
      match FindRecord(a, rec)
      case Some(k) =>
        forall i, j | 0 <= i < j < |b| ensures b[i].record != b[j].record {
          assert b[i].record == a[i].record && b[j].record == a[j].record;
        }
      case None =>
        forall i, j | 0 <= i < j < |b| ensures b[i].record != b[j].record {
          if j < |a| { assert b[i] == a[i] && b[j] == a[j]; }
        }
    }
  }

  /** A second TryAdd of the same file changes nothing. */
  lemma TryAddIdempotent<R>(s: FinderState<R>, rec: R, rec': R, file: string)
    ensures TryAdd(TryAdd(s, rec, file), rec', file) == TryAdd(s, rec, file)
  {
    var t := TryAdd(s, rec, file);
    if CanAdd(s, file) {
      TryAddCounts(s, rec, file);
      CanAddSpec(t, file);
    }
  }

  /** TryAdd never lists a cached file, so missing and cached files stay apart. */
  lemma TryAddApart<R>(s: FinderState<R>, rec: R, file: string)
    requires forall f :: MissingFiles(s.missingAssets)[f] > 0 ==> f !in s.fileList
    ensures var t := TryAdd(s, rec, file);
            forall f :: MissingFiles(t.missingAssets)[f] > 0 ==> f !in t.fileList
  {
    TryAddCounts(s, rec, file);
  }

  // ----- The archive cache.

  /** The extensions the caches keep, compared exactly (no case folding). */
  const ALLOWED_EXTENSIONS: seq<string> := [".nif", ".dds"]

  predicate IsAllowed(path: string)
  {
    GetExtension(path) in ALLOWED_EXTENSIONS
  }

  /** A path is kept exactly when it ends in ".nif" or ".dds". */
  lemma IsAllowedSuffix(path: string)
    ensures IsAllowed(path) <==> (|path| >= 4 && (path[|path| - 4..] == ".nif" || path[|path| - 4..] == ".dds"))
  {
    ExtensionIsSuffix(path, ".nif");
    ExtensionIsSuffix(path, ".dds");
  }

  /** The paths of one archive that pass the extension filter and are not yet
      in `known`, in archive order. */
  function SelectNew(paths: seq<string>, known: seq<string>): (r: seq<string>)
    ensures |r| <= |paths|
    decreases |paths|
  {
    if paths == [] then []
    else
      var rest := SelectNew(paths[1..], known);
      if IsAllowed(paths[0]) && paths[0] !in known then [paths[0]] + rest else rest
  }

  /** SelectNew keeps exactly the allowed paths not in `known`. */
  lemma {:induction false} SelectNewMembers(paths: seq<string>, known: seq<string>, p: string)
    ensures p in SelectNew(paths, known) <==> p in paths && IsAllowed(p) && p !in known
    decreases |paths|
  {
    if paths != [] {
      SelectNewMembers(paths[1..], known, p);
      assert paths == [paths[0]] + paths[1..];
    }
  }

  /** Filtering two lists in turn is filtering their concatenation. */
  lemma {:induction false} SelectNewConcat(xs: seq<string>, ys: seq<string>, known: seq<string>)
    ensures SelectNew(xs + ys, known) == SelectNew(xs, known) + SelectNew(ys, known)
    decreases |xs|
  {
    if xs == [] {
      assert xs + ys == ys;
    } else {
      assert (xs + ys)[1..] == xs[1..] + ys;
      SelectNewConcat(xs[1..], ys, known);
    }
  }

  /** The filter looks only at the cache as it was before the archive: a path
      listed twice in one archive is taken twice. */
  lemma SelectNewKeepsRepeats(p: string, known: seq<string>)
    requires IsAllowed(p) && p !in known
    ensures SelectNew([p, p], known) == [p, p]
  {
    assert [p, p][1..] == [p];
    assert [p][1..] == [];
  }

  /** One archive's turn: its new allowed paths go to the end of the cache. */
  function AddArchive(fileList: seq<string>, a: Archive): (r: seq<string>)
    ensures |r| >= |fileList| && r[..|fileList|] == fileList
    ensures forall i :: |fileList| <= i < |r| ==> r[i] in Paths(a) && IsAllowed(r[i]) && r[i] !in fileList
  {
    var added := SelectNew(Paths(a), fileList);
    forall i | 0 <= i < |added| ensures added[i] in Paths(a) && IsAllowed(added[i]) && added[i] !in fileList {
      SelectNewMembers(Paths(a), fileList, added[i]);
    }
    fileList + added
  }

  /** The archive cache: every archive in turn, each filtered against the
      cache as the earlier archives left it. */
  function BuildArchiveCache<R>(s: FinderState<R>, archives: seq<Archive>): (r: FinderState<R>)
    ensures r.dataFolder == s.dataFolder && r.missingAssets == s.missingAssets
  {
    s.(fileList := Do(archives, AddArchive, s.fileList))
  }

  /** The cache only grows: what was cached stays, in place. */
  lemma {:induction false} ArchiveCacheGrows(fileList: seq<string>, archives: seq<Archive>)
    ensures var r := Do(archives, AddArchive, fileList);
            |r| >= |fileList| && r[..|fileList|] == fileList
    decreases |archives|
  {
    if archives != [] {
      var next := AddArchive(fileList, archives[0]);
      ArchiveCacheGrows(next, archives[1..]);
      var r := Do(archives, AddArchive, fileList);
      assert r[..|fileList|] == r[..|next|][..|fileList|];
    }
  }

  /** Every cached path comes from the cache before or from some archive,
      with an allowed extension. */
  lemma {:induction false} ArchiveCacheFrom(fileList: seq<string>, archives: seq<Archive>, p: string)
    requires p in Do(archives, AddArchive, fileList)
    ensures p in fileList || exists k :: 0 <= k < |archives| && p in Paths(archives[k]) && IsAllowed(p)
    decreases |archives|
  {
    if archives != [] {
      var next := AddArchive(fileList, archives[0]);
      ArchiveCacheFrom(next, archives[1..], p);
      if p in next && p !in fileList {
        assert p in Paths(archives[0]) && IsAllowed(p);
      } else if p !in next {
        var k :| 0 <= k < |archives[1..]| && p in Paths(archives[1..][k]) && IsAllowed(p);
        assert archives[1..][k] == archives[k + 1];
      }
    }
  }

  /** After one archive's turn, each of its allowed paths is cached. */
  lemma AddArchiveHas(fileList: seq<string>, a: Archive, p: string)
    requires p in Paths(a) && IsAllowed(p)
    ensures p in AddArchive(fileList, a)
  {
    SelectNewMembers(Paths(a), fileList, p);
    if p !in fileList {
      var r := AddArchive(fileList, a);
      assert r == fileList + SelectNew(Paths(a), fileList);
    }
  }

  lemma InPrefix(prefix: seq<string>, r: seq<string>, p: string)
    requires |r| >= |prefix| && r[..|prefix|] == prefix && p in prefix
    ensures p in r
  {
    var i :| 0 <= i < |prefix| && prefix[i] == p;
    assert r[i] == p;
  }

  /** Every allowed path of every archive ends up cached. */
  lemma {:induction false} ArchiveCacheCovers(fileList: seq<string>, archives: seq<Archive>, k: nat, p: string)
    requires k < |archives| && p in Paths(archives[k]) && IsAllowed(p)
    ensures p in Do(archives, AddArchive, fileList)
    decreases k
  {
    var next, rest := AddArchive(fileList, archives[0]), archives[1..];
    assert Do(archives, AddArchive, fileList) == Do(rest, AddArchive, next);
    if k == 0 {
      AddArchiveHas(fileList, archives[0], p);
      ArchiveCacheGrows(next, rest);
      InPrefix(next, Do(rest, AddArchive, next), p);
    } else {
      assert rest[k - 1] == archives[k];
      ArchiveCacheCovers(next, rest, k - 1, p);
    }
  }

  // ----- The loose-file cache.

  /** `pat` occurs in `s` starting at `i`. */
  predicate OccursAt(s: string, pat: string, i: nat)
  {
    i + |pat| <= |s| && s[i..i + |pat|] == pat
  }

  /** `s.Replace(pat, "")`: every occurrence of `pat`, scanning left to right
      without overlap, is cut out. An empty `pat` makes Replace throw. */
  function RemoveAll(s: string, pat: string): (r: string)
    requires pat != ""
    ensures |r| <= |s|
    decreases |s|
  {
    if |s| < |pat| then s
    else if s[..|pat|] == pat then RemoveAll(s[|pat|..], pat)
    else [s[0]] + RemoveAll(s[1..], pat)
  }

  /** Where `pat` does not occur, nothing is removed. */
  lemma {:induction false} RemoveAllAbsent(s: string, pat: string)
    requires pat != ""
    requires forall i :: 0 <= i <= |s| - |pat| ==> !OccursAt(s, pat, i)
    ensures RemoveAll(s, pat) == s
    decreases |s|
  {
    if |s| >= |pat| {
      assert !OccursAt(s, pat, 0);
      forall i | 0 <= i <= |s[1..]| - |pat| ensures !OccursAt(s[1..], pat, i) {
        assert !OccursAt(s, pat, i + 1);
        assert s[1..][i..i + |pat|] == s[i + 1..i + 1 + |pat|];
      }
      RemoveAllAbsent(s[1..], pat);
    }
  }

  /** A leading occurrence is cut and the scan goes on after it. */
  lemma RemoveAllPrefix(pat: string, t: string)
    requires pat != ""
    ensures RemoveAll(pat + t, pat) == RemoveAll(t, pat)
  {
    assert (pat + t)[..|pat|] == pat;
    assert (pat + t)[|pat|..] == t;
  }

  /** `StartsWith("\\") ? x[1..] : x`. */
  function StripLeadingBackslash(x: string): (r: string)
    ensures |x| > 0 && x[0] == '\\' ==> x == "\\" + r
    ensures !(|x| > 0 && x[0] == '\\') ==> r == x
  {
    if |x| > 0 && x[0] == '\\' then x[1..] else x
  }

  /** A loose file's full path, made relative to the data folder. */
  function NormalizeLoosePath(dataFolder: string, full: string): string
    requires dataFolder != ""
  {
    StripLeadingBackslash(RemoveAll(full, dataFolder))
  }

  /** A file directly under the data folder comes out as its relative path,
      provided the folder's name does not recur inside that path. */
  lemma NormalizeUnderDataFolder(dataFolder: string, rel: string)
    requires dataFolder != ""
    requires forall i :: 0 <= i <= |"\\" + rel| - |dataFolder| ==> !OccursAt("\\" + rel, dataFolder, i)
    ensures NormalizeLoosePath(dataFolder, dataFolder + "\\" + rel) == rel
  {
    assert dataFolder + "\\" + rel == dataFolder + ("\\" + rel);
    RemoveAllPrefix(dataFolder, "\\" + rel);
    RemoveAllAbsent("\\" + rel, dataFolder);
    assert ("\\" + rel)[1..] == rel;
  }

  /** The loose files that enter the cache, in enumeration order: the
      extension is checked on the full path, the known-check on the
      normalised one. */
  function SelectLoose(paths: seq<string>, dataFolder: string, known: seq<string>): (r: seq<string>)
    requires dataFolder != ""
    ensures |r| <= |paths|
    decreases |paths|
  {
    if paths == [] then []
    else
      var rest := SelectLoose(paths[1..], dataFolder, known);
      var rel := NormalizeLoosePath(dataFolder, paths[0]);
      if IsAllowed(paths[0]) && rel !in known then [rel] + rest else rest
  }

  /** SelectLoose yields exactly the normalised forms of allowed paths that
      are not yet cached. */
  lemma {:induction false} SelectLooseMembers(paths: seq<string>, dataFolder: string, known: seq<string>, q: string)
    requires dataFolder != ""
    ensures q in SelectLoose(paths, dataFolder, known) <==>
              q !in known && exists i :: 0 <= i < |paths| && IsAllowed(paths[i]) && NormalizeLoosePath(dataFolder, paths[i]) == q
    decreases |paths|
  {
    if paths != [] {
      SelectLooseMembers(paths[1..], dataFolder, known, q);
      if exists i :: 0 <= i < |paths| && IsAllowed(paths[i]) && NormalizeLoosePath(dataFolder, paths[i]) == q {
        var i :| 0 <= i < |paths| && IsAllowed(paths[i]) && NormalizeLoosePath(dataFolder, paths[i]) == q;
        if i > 0 { assert paths[1..][i - 1] == paths[i]; }
      }
      if exists i :: 0 <= i < |paths[1..]| && IsAllowed(paths[1..][i]) && NormalizeLoosePath(dataFolder, paths[1..][i]) == q {
        var i :| 0 <= i < |paths[1..]| && IsAllowed(paths[1..][i]) && NormalizeLoosePath(dataFolder, paths[1..][i]) == q;
        assert paths[1..][i] == paths[i + 1];
      }
    }
  }

  /** The loose-file cache: the selected paths go to the end of the cache,
      and what is added is exactly the relative forms of the allowed paths
      that were not cached before. */
  function BuildLooseFileCache<R>(s: FinderState<R>, paths: seq<string>): (r: FinderState<R>)
    requires s.dataFolder != ""
    ensures r.dataFolder == s.dataFolder && r.missingAssets == s.missingAssets
    ensures |r.fileList| >= |s.fileList| && r.fileList[..|s.fileList|] == s.fileList
    ensures forall q :: q in r.fileList[|s.fileList|..] <==>
              q !in s.fileList && exists i :: 0 <= i < |paths| && IsAllowed(paths[i]) && NormalizeLoosePath(s.dataFolder, paths[i]) == q
  {
    var added := SelectLoose(paths, s.dataFolder, s.fileList);
    assert (s.fileList + added)[|s.fileList|..] == added;
    assert forall q :: q in added <==>
             q !in s.fileList && exists i :: 0 <= i < |paths| && IsAllowed(paths[i]) && NormalizeLoosePath(s.dataFolder, paths[i]) == q
    by {
      forall q ensures q in added <==>
          q !in s.fileList && exists i :: 0 <= i < |paths| && IsAllowed(paths[i]) && NormalizeLoosePath(s.dataFolder, paths[i]) == q
      {
        SelectLooseMembers(paths, s.dataFolder, s.fileList, q);
      }
    }
    s.(fileList := s.fileList + added)
  }
}
