/** Unpacking the uploaded zip (`extract_zip_recursively`) and searching the
    unpacked tree for files by extension (`find_files`). The file system is
    not modelled: an archive is given by its contents, and a directory walk
    by the list of (directory, file names) pairs `os.walk` yields. */
module Archives {
  import opened Text
  import opened Paths
  import opened Seqs

  /** The nesting limit the application runs with. */
  const DEFAULT_MAX_DEPTH: nat := 5

  /** A zip file: whether it opens, and the files it unpacks, in the order
      the walk over the unpacked directory meets them. */
  datatype Archive = Archive(readable: bool, members: seq<Member>)

  /** An unpacked file, by its path below the extraction directory, with its
      own contents read as an archive (only used when its name says `.zip`). */
  datatype Member = Member(path: Path, archive: Archive)

  /** What happens to one zip file: it is unpacked into a directory, it
      fails to open, or it lies beyond the depth limit and is skipped. */
  datatype Event =
    | Opened(zip: Path, into: Path, depth: nat)
    | Unreadable(zip: Path, depth: nat)
    | TooDeep(zip: Path, depth: nat)

  /** `file.lower().endswith('.zip')`, compared character by character. */
  predicate IsZipName(name: string)
  {
    var n := |name|;
    n >= 4 && name[n - 4] == '.' && Lower(name[n - 3]) == 'z' && Lower(name[n - 2]) == 'i' && Lower(name[n - 1]) == 'p'
  }

  /** The directory a nested zip is unpacked into: `extracted_<stem>`
      inside the extraction directory of the run that found the zip, which
      may be an ancestor of the directory holding it. */
  function InnerDir(into: Path, zip: Path): (d: Path)
    ensures |d| > |into| && d[..|into|] == into
  {
    Join(into, "extracted_" + Stem(zip))
  }

  /** Within `dir` or below it. */
  predicate Below(p: Path, dir: Path)
  {
    |p| >= |dir| && p[..|dir|] == dir
  }

  /** A rule naming the directory a nested zip is unpacked into, from the
      directory that holds it and its path. The application's rule is
      `InnerDir`; the properties below hold for every rule that keeps nested
      directories inside their parent. */
  type NestRule = (Path, Path) -> Path

  ghost predicate NestsBelow(nest: NestRule)
  {
    forall into, zip :: Below(nest(into, zip), into)
  }

  /** The application's rule keeps every nested directory inside its parent. */
  lemma InnerDirNestsBelow()
    ensures NestsBelow(InnerDir)
  {
    forall into, zip
      ensures Below(InnerDir(into, zip), into)
    {
    }
  }

  /** The events of `extract_zip_recursively(zip, into, depth, maxDepth)`,
      nested zips handled in walk order, nested directories named by `nest`. */
  function Extract(a: Archive, zip: Path, into: Path, depth: nat, maxDepth: nat, nest: NestRule): seq<Event>
    decreases a, 1, 0
  {
    if depth > maxDepth then [TooDeep(zip, depth)]
    else if !a.readable then [Unreadable(zip, depth)]
    else [Opened(zip, into, depth)] + ExtractMembers(a, 0, into, depth, maxDepth, nest)
  }

  /** The nested zips among members `k..` of an opened archive, each unpacked
      one level deeper. */
  function ExtractMembers(a: Archive, k: nat, into: Path, depth: nat, maxDepth: nat, nest: NestRule): seq<Event>
    requires k <= |a.members|
    decreases a, 0, |a.members| - k
  {
    if k == |a.members| then []
    else OwnEvents(a, k, into, depth, maxDepth, nest) + ExtractMembers(a, k + 1, into, depth, maxDepth, nest)
  }

  /** The events of member `k`: when its name says `.zip`, it is unpacked
      one level deeper into the directory `nest` names for it. */
  function OwnEvents(a: Archive, k: nat, into: Path, depth: nat, maxDepth: nat, nest: NestRule): seq<Event>
    requires k < |a.members|
    decreases a, 0, |a.members| - k - 1
  {
    var m := a.members[k];
    if IsZipName(m.path) then
      var zip := Join(into, m.path);
      Extract(m.archive, zip, nest(into, zip), depth + 1, maxDepth, nest)
    else []
  }

  /** The depth guard and the target directories, over a list of events:
      no event lies above `depth`; a zip is skipped exactly when its level
      exceeds `maxDepth`, so nothing deeper is opened; levels never pass
      `maxDepth + 1`; and every directory unpacked into lies below `into`. */
  ghost predicate Guarded(evs: seq<Event>, into: Path, depth: nat, maxDepth: nat)
  {
    forall e :: e in evs ==>
      && depth <= e.depth
      && (e.TooDeep? <==> e.depth > maxDepth)
      && (depth <= maxDepth + 1 ==> e.depth <= maxDepth + 1)
      && (e.Opened? ==> Below(e.into, into))
  }

  lemma BelowTransitive(p: Path, q: Path, r: Path)
    requires Below(p, q) && Below(q, r)
    ensures Below(p, r)
  {
    assert p[..|q|][..|r|] == p[..|r|];
  }

  lemma GuardedAppend(xs: seq<Event>, ys: seq<Event>, into: Path, depth: nat, maxDepth: nat)
    requires Guarded(xs, into, depth, maxDepth) && Guarded(ys, into, depth, maxDepth)
    ensures Guarded(xs + ys, into, depth, maxDepth)
  {
  }

  /** Every run of `extract_zip_recursively` respects the depth guard. */
  lemma {:induction false} ExtractGuarded(a: Archive, zip: Path, into: Path, depth: nat, maxDepth: nat, nest: NestRule)
    requires NestsBelow(nest)
    ensures Guarded(Extract(a, zip, into, depth, maxDepth, nest), into, depth, maxDepth)
    decreases a, 1, 0
  {
    if depth <= maxDepth && a.readable {
      ExtractMembersGuarded(a, 0, into, depth, maxDepth, nest);
      assert Below(into, into);
      GuardedAppend([Opened(zip, into, depth)], ExtractMembers(a, 0, into, depth, maxDepth, nest), into, depth, maxDepth);
    }
  }

  lemma {:induction false} ExtractMembersGuarded(a: Archive, k: nat, into: Path, depth: nat, maxDepth: nat, nest: NestRule)
    requires NestsBelow(nest)
    requires k <= |a.members| && depth <= maxDepth
    ensures Guarded(ExtractMembers(a, k, into, depth, maxDepth, nest), into, depth + 1, maxDepth)
    decreases a, 0, |a.members| - k
  {
    if k < |a.members| {
      var m := a.members[k];
      var rest := ExtractMembers(a, k + 1, into, depth, maxDepth, nest);
      ExtractMembersGuarded(a, k + 1, into, depth, maxDepth, nest);
      if IsZipName(m.path) {
        var zip := Join(into, m.path);
        var inner := nest(into, zip);
        var evs := OwnEvents(a, k, into, depth, maxDepth, nest);
        ExtractGuarded(m.archive, zip, inner, depth + 1, maxDepth, nest);
        forall e | e in evs && e.Opened?
          ensures Below(e.into, into)
        {
          BelowTransitive(e.into, inner, into);
        }
        GuardedAppend(evs, rest, into, depth + 1, maxDepth);
      }
    }
  }

  /** The events of the `k`-th member, when it is a nested zip. */
  function MemberEvents(a: Archive, k: nat, into: Path, depth: nat, maxDepth: nat, nest: NestRule): seq<Event>
    requires k < |a.members|
  {
    var zip := Join(into, a.members[k].path);
    Extract(a.members[k].archive, zip, nest(into, zip), depth + 1, maxDepth, nest)
  }

  /** The events of members `j..`, one block per member. */
  function MemberBlocks(a: Archive, j: nat, into: Path, depth: nat, maxDepth: nat, nest: NestRule): (bs: seq<seq<Event>>)
    requires j <= |a.members|
    ensures |bs| == |a.members| - j
    decreases |a.members| - j
  {
    if j == |a.members| then [] else [OwnEvents(a, j, into, depth, maxDepth, nest)] + MemberBlocks(a, j + 1, into, depth, maxDepth, nest)
  }

  lemma {:induction false} MemberBlocksIndex(a: Archive, j: nat, k: nat, into: Path, depth: nat, maxDepth: nat, nest: NestRule)
    requires j <= k < |a.members|
    ensures MemberBlocks(a, j, into, depth, maxDepth, nest)[k - j] == OwnEvents(a, k, into, depth, maxDepth, nest)
    decreases k - j
  {
    if j < k {
      MemberBlocksIndex(a, j + 1, k, into, depth, maxDepth, nest);
    }
  }

  /** The nested zips of an opened archive are handled member by member, in
      order: their events are the members' blocks laid end to end. */
  lemma {:induction false} ExtractMembersFlat(a: Archive, j: nat, into: Path, depth: nat, maxDepth: nat, nest: NestRule)
    requires j <= |a.members|
    ensures ExtractMembers(a, j, into, depth, maxDepth, nest) == Flatten(MemberBlocks(a, j, into, depth, maxDepth, nest))
    decreases |a.members| - j
  {
    if j < |a.members| {
      ExtractMembersFlat(a, j + 1, into, depth, maxDepth, nest);
      var bs := MemberBlocks(a, j, into, depth, maxDepth, nest);
      assert bs[1..] == MemberBlocks(a, j + 1, into, depth, maxDepth, nest);
    }
  }

  /** The events of a nested zip appear, as one block, among those of the
      archive holding it. */
  lemma MembersBlock(a: Archive, k: nat, into: Path, depth: nat, maxDepth: nat, nest: NestRule)
    requires k < |a.members| && IsZipName(a.members[k].path)
    ensures Occurs(MemberEvents(a, k, into, depth, maxDepth, nest), ExtractMembers(a, 0, into, depth, maxDepth, nest))
  {
    ExtractMembersFlat(a, 0, into, depth, maxDepth, nest);
    MemberBlocksIndex(a, 0, k, into, depth, maxDepth, nest);
    assert OwnEvents(a, k, into, depth, maxDepth, nest) == MemberEvents(a, k, into, depth, maxDepth, nest);
    BlockOccurs(MemberBlocks(a, 0, into, depth, maxDepth, nest), k);
  }

  /** A zip nested directly in an opened archive is handled, one level
      deeper, as one block inside the outer run. */
  lemma NestedZipHandled(a: Archive, zip: Path, into: Path, depth: nat, maxDepth: nat, nest: NestRule, k: nat)
    requires a.readable && depth <= maxDepth
    requires k < |a.members| && IsZipName(a.members[k].path)
    ensures Occurs(MemberEvents(a, k, into, depth, maxDepth, nest), Extract(a, zip, into, depth, maxDepth, nest))
  {
    MembersBlock(a, k, into, depth, maxDepth, nest);
    OccursExtend(MemberEvents(a, k, into, depth, maxDepth, nest), ExtractMembers(a, 0, into, depth, maxDepth, nest),
                 [Opened(zip, into, depth)], []);
    assert Extract(a, zip, into, depth, maxDepth, nest)
        == [Opened(zip, into, depth)] + ExtractMembers(a, 0, into, depth, maxDepth, nest) + [];
  }

  /** The depth guard: a zip is unpacked into `into` at its own level exactly
      when it opens and its level is at most `maxDepth`; so levels
      `0..maxDepth` are unpacked and nothing deeper. */
  lemma OpenedIffWithinDepth(a: Archive, zip: Path, into: Path, depth: nat, maxDepth: nat, nest: NestRule)
    ensures Opened(zip, into, depth) in Extract(a, zip, into, depth, maxDepth, nest)
        <==> a.readable && depth <= maxDepth
  {
    var evs := Extract(a, zip, into, depth, maxDepth, nest);
    if a.readable && depth <= maxDepth {
      assert evs[0] == Opened(zip, into, depth);
    } else if depth <= maxDepth {
      assert evs == [Unreadable(zip, depth)];
    } else {
      assert evs == [TooDeep(zip, depth)];
    }
  }

  /** A zip one level past the limit is skipped without being opened. */
  lemma TooDeepSkipped(a: Archive, zip: Path, into: Path, maxDepth: nat, nest: NestRule)
    ensures Extract(a, zip, into, maxDepth + 1, maxDepth, nest) == [TooDeep(zip, maxDepth + 1)]
  {
  }

  /** The call the application makes on the uploaded zip: level 0, the
      default limit and the `extracted_<stem>` naming. */
  function ExtractUpload(a: Archive, zip: Path, into: Path): seq<Event>
  {
    Extract(a, zip, into, 0, DEFAULT_MAX_DEPTH, InnerDir)
  }

  /** Unpacking an upload opens zips at levels 0 to 5 only, skips those at
      level 6, and unpacks everything inside the target directory. */
  lemma UploadGuarded(a: Archive, zip: Path, into: Path)
    ensures Guarded(ExtractUpload(a, zip, into), into, 0, DEFAULT_MAX_DEPTH)
  {
    InnerDirNestsBelow();
    ExtractGuarded(a, zip, into, 0, DEFAULT_MAX_DEPTH, InnerDir);
  }

  // ---------------------------------------------------------------------
  // find_files

  /** One step of `os.walk`: a directory and the names of the files in it. */
  datatype WalkStep = WalkStep(root: Path, files: seq<string>)

  /** The test `find_files` applies to a file name: its extension,
      lower-cased, is one of `extensions`. */
  function ExtensionTest(extensions: seq<string>): string -> bool
  {
    name => LowerExt(name) in extensions
  }

  /** The path of a file when it passes the test. */
  function Pick(root: Path, name: string, wanted: string -> bool): seq<Path>
  {
    if wanted(name) then [Join(root, name)] else []
  }

  /** The names in `files` that pass the test, joined to `root`, in order. */
  function Matching(root: Path, files: seq<string>, wanted: string -> bool): seq<Path>
  {
    if files == [] then []
    else Matching(root, files[..|files| - 1], wanted) + Pick(root, files[|files| - 1], wanted)
  }

  /** The files of a whole walk that pass the test, in walk order. */
  function FoundFiles(walk: seq<WalkStep>, wanted: string -> bool): seq<Path>
  {
    if walk == [] then []
    else FoundFiles(walk[..|walk| - 1], wanted) + Matching(walk[|walk| - 1].root, walk[|walk| - 1].files, wanted)
  }

  lemma MatchingStep(root: Path, files: seq<string>, wanted: string -> bool, j: nat)
    requires j < |files|
    ensures Matching(root, files[..j + 1], wanted) == Matching(root, files[..j], wanted) + Pick(root, files[j], wanted)
  {
    assert files[..j + 1][..j] == files[..j];
  }

  /** The inner loop of `find_files` over one directory's files. */
  method AppendMatching(found: seq<Path>, root: Path, files: seq<string>, extensions: seq<string>)
    returns (found': seq<Path>)
    ensures found' == found + Matching(root, files, ExtensionTest(extensions))
  {
    found' := found;
    for j := 0 to |files|
      invariant found' == found + Matching(root, files[..j], ExtensionTest(extensions))
    {
      var name := files[j];
      ghost var prev := found';
      if LowerExt(name) in extensions {
        found' := found' + [Join(root, name)];
      }
      assert found' == prev + Pick(root, name, ExtensionTest(extensions));
      MatchingStep(root, files, ExtensionTest(extensions), j);
      AppendAssoc(found, Matching(root, files[..j], ExtensionTest(extensions)), Pick(root, name, ExtensionTest(extensions)));
    }
    assert files[..|files|] == files;
  }

  /** `find_files(folder, extensions)`, given the walk of `folder`. */
  method FindFiles(walk: seq<WalkStep>, extensions: seq<string>) returns (found: seq<Path>)
    ensures found == FoundFiles(walk, ExtensionTest(extensions))
  {
    found := [];
    for i := 0 to |walk|
      invariant found == FoundFiles(walk[..i], ExtensionTest(extensions))
    {
      found := AppendMatching(found, walk[i].root, walk[i].files, extensions);
      assert walk[..i + 1][..i] == walk[..i];
    }
    assert walk[..|walk|] == walk;
  }

  /** Every path listed for a directory is one of its files that passes the test. */
  lemma {:induction false} MatchingSound(root: Path, files: seq<string>, wanted: string -> bool, p: Path)
    requires p in Matching(root, files, wanted)
    ensures exists j :: 0 <= j < |files| && wanted(files[j]) && p == Join(root, files[j])
  {
    var n := |files| - 1;
    var front := files[..n];
    assert Matching(root, files, wanted) == Matching(root, front, wanted) + Pick(root, files[n], wanted);
    if p in Matching(root, front, wanted) {
      MatchingSound(root, front, wanted, p);
      var j :| 0 <= j < n && wanted(front[j]) && p == Join(root, front[j]);
      assert front[j] == files[j];
    } else {
      assert wanted(files[n]) && p == Join(root, files[n]);
    }
  }

  /** Every file of a directory that passes the test is listed. */
  lemma {:induction false} MatchingComplete(root: Path, files: seq<string>, wanted: string -> bool, j: nat)
    requires j < |files| && wanted(files[j])
    ensures Join(root, files[j]) in Matching(root, files, wanted)
  {
    var n := |files| - 1;
    var front := files[..n];
    var p := Join(root, files[j]);
    assert Matching(root, files, wanted) == Matching(root, front, wanted) + Pick(root, files[n], wanted);
    if j < n {
      assert front[j] == files[j];
      MatchingComplete(root, front, wanted, j);
      assert p in Matching(root, front, wanted);
    } else {
      assert Pick(root, files[n], wanted) == [p];
    }
  }

  /** Every found path is the path of a walked file that passes the test. */
  lemma {:induction false} FoundFilesSound(walk: seq<WalkStep>, wanted: string -> bool, p: Path)
    requires p in FoundFiles(walk, wanted)
    ensures exists i, j :: 0 <= i < |walk| && 0 <= j < |walk[i].files|
              && wanted(walk[i].files[j]) && p == Join(walk[i].root, walk[i].files[j])
  {
    var n := |walk| - 1;
    var front := walk[..n];
    assert FoundFiles(walk, wanted) == FoundFiles(front, wanted) + Matching(walk[n].root, walk[n].files, wanted);
    if p in FoundFiles(front, wanted) {
      FoundFilesSound(front, wanted, p);
      var i, j :| 0 <= i < |front| && 0 <= j < |front[i].files|
        && wanted(front[i].files[j]) && p == Join(front[i].root, front[i].files[j]);
      assert front[i] == walk[i];
    } else {
      MatchingSound(walk[n].root, walk[n].files, wanted, p);
      var j :| 0 <= j < |walk[n].files| && wanted(walk[n].files[j]) && p == Join(walk[n].root, walk[n].files[j]);
    }
  }

  /** Every walked file that passes the test is found. */
  lemma {:induction false} FoundFilesComplete(walk: seq<WalkStep>, wanted: string -> bool, i: nat, j: nat)
    requires i < |walk| && j < |walk[i].files| && wanted(walk[i].files[j])
    ensures Join(walk[i].root, walk[i].files[j]) in FoundFiles(walk, wanted)
  {
    var n := |walk| - 1;
    var front := walk[..n];
    var p := Join(walk[i].root, walk[i].files[j]);
    assert FoundFiles(walk, wanted) == FoundFiles(front, wanted) + Matching(walk[n].root, walk[n].files, wanted);
    if i < n {
      assert front[i] == walk[i];
      FoundFilesComplete(front, wanted, i, j);
      assert p in FoundFiles(front, wanted);
    } else {
      MatchingComplete(walk[n].root, walk[n].files, wanted, j);
      assert p in Matching(walk[n].root, walk[n].files, wanted);
    }
  }
}
