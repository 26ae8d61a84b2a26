/** Client code replaying the assertions of the document-model tests against the
    contracts of Mets alone. Where a test relies on the sample document's
    contents, a small hand-built document stands in for it. */
module Scenarios {
  import opened Records
  import opened Seqs
  import opened Structure
  import opened Edits
  import opened Document
  import Syntax
  import Query

  /** With no earlier record carrying the ID, the record just appended is the
      first one with that ID ... */
  lemma FirstOfFresh(files: seq<FileRec>, a: FileRec, b: seq<FileRec>)
    requires a.id !in IdSet(files)
    ensures a.id in IdSet(files + [a] + b) && FirstWithId(files + [a] + b, a.id) == a
  {
    var all := files + [a] + b;
    assert all[|files|] == a && a in all;
    forall j | 0 <= j < |files| ensures all[j].id != a.id {
      assert all[j] == files[j] && files[j] in files;
    }
    assert FirstIndex(all, a.id) == |files|;
  }

  /** ... and the records with that ID are it and those after it. */
  lemma WithIdOfFresh(files: seq<FileRec>, a: FileRec, b: seq<FileRec>)
    requires a.id !in IdSet(files)
    ensures WithId(files + [a] + b, a.id) == [a] + WithId(b, a.id)
  {
    WithIdNone(files, a.id);
    assert files + [a] + b == files + ([a] + b);
    WithIdAppend(files, [a] + b, a.id);
    WithIdAppend([a], b, a.id);
    assert [a][1..] == [];
  }

  const TheId := "best-id-ever"
  const BeepBoop := FileRec(TheId, "OUTPUT", Some("beep/boop"), None, None, None)
  const BoopBeep := FileRec(TheId, "OUTPUT", Some("boop/beep"), None, None, None)

  /** The first steps of test_add_file_id_already_exists and
      test_add_file_nopageid_overwrite: on a document not using the ID yet the
      first add succeeds; adding the ID again fails by default, whatever the
      mimetype, and under force when the mimetype differs. */
  method RejectDuplicateId(m: Mets)
    requires m.Valid() && TheId !in IdSet(m.files)
    modifies m
    ensures m.Valid()
    ensures m.files == old(m.files) + [BeepBoop]
  {
    Syntax.AcceptedExamples();
    ghost var before := m.files;
    var f := m.AddFile("OUTPUT", Some(TheId), Some("beep/boop"), None, None, None, false, false);
    assert f == Ok(BeepBoop);
    var e0 := m.AddFile("OUTPUT", Some(TheId), Some("beep/boop"), None, None, None, false, false);
    assert e0 == Err(FileExists(TheId));
    var e1 := m.AddFile("OUTPUT", Some(TheId), Some("boop/beep"), None, None, None, false, false);
    assert e1 == Err(FileExists(TheId));
    FirstOfFresh(before, BeepBoop, []);
    assert before + [BeepBoop] + [] == before + [BeepBoop];
    var e2 := m.AddFile("OUTPUT", Some(TheId), Some("boop/beep"), None, None, None, true, false);
    assert e2 == Err(FileExists(TheId));
  }

  /** test_add_file_ignore: ignore adds a second record with the taken ID; the
      uncached lookup finds both, the cached one only the newer. The tests write
      this count as `assert len(...) == 1 if cached else 2` (test_ocrd_mets.py
      lines 162 and 195), which Python reads as `(len(...) == 1) if cached else 2`,
      so the uncached count is never checked there; this contract states it. */
  method IgnoreDuplicateId(m: Mets, re: Query.Matcher)
    requires m.Valid() && TheId !in IdSet(m.files)
    modifies m
    ensures m.Valid()
    ensures WithId(m.files, TheId) == [BeepBoop, BoopBeep]
    ensures |m.FindAllFiles(Query.IdFilter(TheId), re)| == if m.cached then 1 else 2
  {
    Syntax.AcceptedIds();
    ghost var before := m.files;
    RejectDuplicateId(m);
    var f2 := m.AddFile("OUTPUT", Some(TheId), Some("boop/beep"), None, None, None, false, true);
    assert f2 == Ok(BoopBeep);
    assert m.files == before + [BeepBoop] + [BoopBeep];
    TwoWithTheId(before);
    CountAfterIgnore(m, re);
  }

  /** Both records the ignore step leaves carry the ID, in order. */
  lemma TwoWithTheId(before: seq<FileRec>)
    requires TheId !in IdSet(before)
    ensures WithId(before + [BeepBoop] + [BoopBeep], TheId) == [BeepBoop, BoopBeep]
  {
    WithIdOfFresh(before, BeepBoop, [BoopBeep]);
    assert [BoopBeep][1..] == [];
    assert WithId([BoopBeep], TheId) == [BoopBeep];
  }

  /** With two records carrying the ID, the uncached lookup finds two, the cached one. */
  lemma CountAfterIgnore(m: Mets, re: Query.Matcher)
    requires m.Valid() && WithId(m.files, TheId) == [BeepBoop, BoopBeep]
    ensures |m.FindAllFiles(Query.IdFilter(TheId), re)| == if m.cached then 1 else 2
  {
    Syntax.AcceptedIds();
    assert BeepBoop in WithId(m.files, TheId);
    IdLookupCounts(m, TheId, re);
  }

  /** The last step of test_add_file_id_already_exists: force with matching
      group, mimetype and (no) page overwrites the first record in place and
      drops the duplicate, except with caching on, where it fails; either way
      one record is found afterwards. */
  method ForceAfterIgnore(m: Mets, re: Query.Matcher)
    requires m.Valid() && WithId(m.files, TheId) == [BeepBoop, BoopBeep]
    modifies m
    ensures m.Valid()
    ensures |m.FindAllFiles(Query.IdFilter(TheId), re)| == 1
  {
    Syntax.AcceptedExamples();
    assert BeepBoop in m.files;
    FirstWithIdIsHead(m.files, TheId);
    ghost var dup := m.files;
    forall x | x in dup && x.id == TheId ensures x.fileGrp == "OUTPUT" {
      assert x in WithId(dup, TheId);
    }
    ReplaceLeavesOne(dup, BeepBoop);
    var f3 := m.AddFile("OUTPUT", Some(TheId), Some("beep/boop"), None, None, None, true, false);
    if m.cached {
      assert f3 == Err(FileExists(TheId));
      assert m.files == dup;
    } else {
      assert f3 == Ok(BeepBoop);
      assert m.files == Overwrite(dup, BeepBoop);
    }
    OneFoundAfterForce(m, re);
  }

  lemma OneFoundAfterForce(m: Mets, re: Query.Matcher)
    requires m.Valid()
    requires m.cached ==> TheId in IdSet(m.files)
    requires !m.cached ==> WithId(m.files, TheId) == [BeepBoop]
    ensures |m.FindAllFiles(Query.IdFilter(TheId), re)| == 1
  {
    Syntax.AcceptedExamples();
    IdLookupCounts(m, TheId, re);
  }

  /** A compatible force that requests no page keeps the overwritten record's
      page, so the page is not pruned: add foo123 on foobar, then force it
      with a new URL and no page. */
  method ForceKeepsPage() returns (m: Mets)
    ensures m.Valid() && !m.cached
    ensures m.files == [Foo.(url := Some("new/url"))]
    ensures m.pages == [Page("foobar", None)]
  {
    m := new Mets.Empty(false, None);
    Syntax.AcceptedExamples();
    var f := m.AddFile("OUTPUT", Some("foo123"), Some("bla/quux"), None, None, Some("foobar"), false, false);
    assert m.files == [Foo] && m.pages == [Page("foobar", None)];
    assert FirstWithId(m.files, "foo123") == Foo;
    var g := m.AddFile("OUTPUT", Some("foo123"), Some("bla/quux"), Some("new/url"), None, None, true, false);
    assert g == Ok(Foo.(url := Some("new/url")));
    assert m.files == [Foo.(url := Some("new/url"))];
  }

  /** With caching on, an `ignore` duplicate hides the earlier record from ID
      lookups only: a query without filters still finds both records. */
  method IgnoreStaysVisible(re: Query.Matcher) returns (m: Mets)
    ensures m.Valid() && m.cached && |m.files| == 2
    ensures |m.FindAllFiles(Query.NoFilters, re)| == 2
    ensures |m.FindAllFiles(Query.IdFilter("foo123"), re)| == 1
  {
    m := new Mets.Empty(true, None);
    Syntax.AcceptedExamples();
    var a := FileRec("foo123", "OUTPUT", None, Some("a/a"), None, None);
    var b := a.(url := Some("b/b"));
    var f := m.AddFile("OUTPUT", Some("foo123"), None, Some("a/a"), None, None, false, false);
    assert m.files == [a];
    var g := m.AddFile("OUTPUT", Some("foo123"), None, Some("b/b"), None, None, false, true);
    assert m.files == [a, b];
    IgnoreVisibleCounts(m, re);
  }

  lemma IgnoreVisibleCounts(m: Mets, re: Query.Matcher)
    requires m.Valid() && |m.files| == 2 && m.files[0].id == "foo123"
    ensures |m.FindAllFiles(Query.NoFilters, re)| == 2
    ensures m.cached ==> |m.FindAllFiles(Query.IdFilter("foo123"), re)| == 1
  {
    Syntax.AcceptedExamples();
    assert |multiset(m.FindAllFiles(Query.NoFilters, re))| == |multiset(m.files)|;
    assert m.files[0] in m.files;
    IdLookupCounts(m, "foo123", re);
  }

  /** The whole of test_add_file_id_already_exists. */
  method AddFileIdAlreadyExists(m: Mets, re: Query.Matcher)
    requires m.Valid() && TheId !in IdSet(m.files)
    modifies m
    ensures m.Valid()
    ensures |m.FindAllFiles(Query.IdFilter(TheId), re)| == 1
  {
    IgnoreDuplicateId(m, re);
    ForceAfterIgnore(m, re);
  }

  // ---------------------------------------------------------------- empty documents

  /** test_add_group: declaring the same group twice declares it once. */
  method AddGroupTwice(cacheFlag: bool) returns (m: Mets)
    ensures m.Valid() && m.groups == ["TEST"]
  {
    m := new Mets.Empty(cacheFlag, None);
    assert |m.groups| == 0;
    Syntax.AcceptedExamples();
    var r := m.AddFileGroup("TEST");
    assert |m.groups| == 1;
    r := m.AddFileGroup("TEST");
  }

  /** test_physical_pages_from_empty_mets: a file on an unknown page creates it. */
  method PagesFromEmpty(cacheFlag: bool) returns (m: Mets)
    ensures m.Valid() && m.PhysicalPages() == ["foobar"]
  {
    m := new Mets.Empty(cacheFlag, None);
    assert m.PhysicalPages() == [];
    Syntax.AcceptedExamples();
    var f := m.AddFile("OUTPUT", Some("foo123"), None, None, None, Some("foobar"), false, false);
    assert m.pages == [Page("foobar", None)];
  }

  const Foo := FileRec("foo123", "OUTPUT", Some("bla/quux"), None, None, Some("foobar"))
  const Foo2 := FileRec("foo1232", "OUTPUT", Some("bla/quux"), None, None, Some("foobar"))

  /** A document without records finds nothing. */
  lemma NothingFound(m: Mets, q: Query.Filters, re: Query.Matcher)
    requires m.Valid() && m.files == []
    ensures m.FindAllFiles(q, re) == []
  {
    assert m.View(q) == [];
  }

  /** test_add_file0, first add: OUTPUT starts empty; the file lands on page
      foobar and creates the group. */
  method AddFirstFile(cacheFlag: bool, re: Query.Matcher) returns (m: Mets)
    ensures fresh(m) && m.Valid() && m.files == [Foo] && m.groups == ["OUTPUT"]
  {
    m := new Mets.Empty(cacheFlag, None);
    NothingFound(m, Query.NoFilters.(fileGrp := Some("OUTPUT")), re);
    Syntax.AcceptedExamples();
    var f := m.AddFile("OUTPUT", Some("foo123"), Some("bla/quux"), None, None, Some("foobar"), false, false);
    assert f == Ok(Foo) && f.value.pageId == Some("foobar");
  }

  /** test_add_file0, second add: a second file in the same group and page
      leaves one group. */
  method AddTwoFiles(cacheFlag: bool, re: Query.Matcher) returns (m: Mets)
    ensures fresh(m) && m.Valid() && m.files == [Foo, Foo2] && |m.groups| == 1
    ensures "foo123" in IdSet(m.files) && "foo1232" in IdSet(m.files)
  {
    m := AddFirstFile(cacheFlag, re);
    Syntax.AcceptedExamples();
    var f2 := m.AddFile("OUTPUT", Some("foo1232"), Some("bla/quux"), None, None, Some("foobar"), false, false);
    assert m.files == [Foo] + [Foo2];
    assert Foo in m.files && Foo2 in m.files;
  }

  /** test_add_file0: both files are then found in their group, on either path. */
  lemma BothInOutput(m: Mets, re: Query.Matcher)
    requires m.Valid() && m.files == [Foo, Foo2]
    ensures |m.FindAllFiles(Query.NoFilters.(fileGrp := Some("OUTPUT")), re)| == 2
  {
    var inOutput := Query.NoFilters.(fileGrp := Some("OUTPUT"));
    Syntax.AcceptedExamples();
    assert m.files[1] == Foo2 && m.files[0] == Foo;
    forall x | x in m.View(inOutput) ensures Query.Matches(inOutput, x, m.pages, re) {
      Query.ExactToken("OUTPUT", x.fileGrp, false, m.pages, re);
    }
  }

  /** test_add_file0, lines 141-142: foo123 moves to the new page barfoo. */
  method MoveFirstFile(m: Mets)
    requires m.Valid() && "foo123" in IdSet(m.files) && "foo1232" in IdSet(m.files)
    modifies m
    ensures m.Valid() && m.groups == old(m.groups)
    ensures "foo123" in IdSet(m.files) && "foo1232" in IdSet(m.files)
    ensures PageOf(m.files, "foo123") == Some("barfoo") && HasPage(m.pages, "barfoo")
  {
    SetPageMoves(m.files, "foo123", "barfoo");
    SetPageKeepsIds(m.files, "foo123", "barfoo");
    m.SetPhysicalPageForFile("barfoo", "foo123", Some(300));
  }

  /** Lines 143-144: foo1232 moves to the new page quux; foo123 stays on barfoo. */
  method MoveSecondToQuux(m: Mets)
    requires m.Valid() && "foo123" in IdSet(m.files) && "foo1232" in IdSet(m.files)
    requires PageOf(m.files, "foo123") == Some("barfoo")
    modifies m
    ensures m.Valid() && m.groups == old(m.groups)
    ensures "foo123" in IdSet(m.files) && "foo1232" in IdSet(m.files)
    ensures PageOf(m.files, "foo123") == Some("barfoo") && PageOf(m.files, "foo1232") == Some("quux")
  {
    SetPageMoves(m.files, "foo1232", "quux");
    SetPageKeepsOthers(m.files, "foo1232", "foo123", "quux");
    SetPageKeepsIds(m.files, "foo1232", "quux");
    m.SetPhysicalPageForFile("quux", "foo1232", Some(302));
  }

  /** Lines 145-146: foo1232 moves on to the existing page barfoo. */
  method MoveSecondToBarfoo(m: Mets)
    requires m.Valid() && "foo1232" in IdSet(m.files)
    requires PageOf(m.files, "foo123") == Some("barfoo")
    modifies m
    ensures m.Valid() && m.groups == old(m.groups)
    ensures PageOf(m.files, "foo123") == Some("barfoo") && PageOf(m.files, "foo1232") == Some("barfoo")
  {
    SetPageKeepsOthers(m.files, "foo1232", "foo123", "barfoo");
    SetPageMoves(m.files, "foo1232", "barfoo");
    m.SetPhysicalPageForFile("barfoo", "foo1232", Some(301));
  }

  /** test_add_file0, second half: the three moves in order, each step's page
      assertion being the contract of its member; afterwards both files are on
      barfoo and the groups are as they were. */
  method MoveBetweenPages(m: Mets)
    requires m.Valid() && "foo123" in IdSet(m.files) && "foo1232" in IdSet(m.files)
    modifies m
    ensures m.Valid() && m.groups == old(m.groups)
    ensures PageOf(m.files, "foo123") == Some("barfoo") && PageOf(m.files, "foo1232") == Some("barfoo")
  {
    MoveFirstFile(m);
    MoveSecondToQuux(m);
    MoveSecondToBarfoo(m);
  }

  /** The whole of test_add_file0. */
  method AddFile0(cacheFlag: bool, re: Query.Matcher) returns (m: Mets)
    ensures m.Valid() && |m.groups| == 1
    ensures PageOf(m.files, "foo123") == Some("barfoo") && PageOf(m.files, "foo1232") == Some("barfoo")
  {
    m := AddTwoFiles(cacheFlag, re);
    BothInOutput(m, re);
    MoveBetweenPages(m);
  }

  /** test_add_file_no_pageid: a file added without a page has none. */
  method AddFileNoPageId(m: Mets) returns (f: FileRec)
    requires m.Valid() && "foo3" !in IdSet(m.files)
    modifies m
    ensures m.Valid() && f.pageId.None? && m.files == old(m.files) + [f]
  {
    Syntax.AcceptedExamples();
    var r := m.AddFile("OUTPUT", Some("foo3"), Some("bla/quux"), None, None, None, false, false);
    f := r.value;
  }

  /** test_add_file_id_invalid, test_add_file_no_id and test_invalid_filegrp: each
      call fails with its own error and changes no record, page or group. */
  method InvalidArguments(m: Mets)
    requires m.Valid()
    modifies m
    ensures m.Valid()
    ensures m.files == old(m.files) && m.groups == old(m.groups) && m.pages == old(m.pages)
  {
    Syntax.RejectedExamples();
    Syntax.AcceptedExamples();
    var e0 := m.AddFile("OUTPUT", Some("1234:::"), Some("beep/boop"), None, None, None, false, false);
    assert e0 == Err(InvalidFileId("1234:::"));
    var e1 := m.AddFile("FOO", None, None, None, None, None, false, false);
    assert e1 == Err(MissingId);
    var e2 := m.AddFile("1:! bad filegrp", Some("foo123"), None, None, None, Some("foobar"), false, false);
    assert e2 == Err(InvalidFileGrp("1:! bad filegrp"));
  }

  /** test_agent: one agent more. */
  method AgentAdded(m: Mets)
    requires m.Valid()
    modifies m
    ensures m.Valid() && m.agents == old(m.agents) + 1
  {
    m.AddAgent();
  }

  /** test_metshdr: an empty document has no header until the first agent. */
  method HeaderOnDemand(cacheFlag: bool) returns (m: Mets)
    ensures m.Valid() && m.hasHeader && m.agents == 1
  {
    m := new Mets.Empty(cacheFlag, None);
    assert !m.hasHeader;
    m.AddAgent();
  }

  // ---------------------------------------------------------------- removals
  // The tests at test_ocrd_mets.py lines 263-291 write `assert x, expected`,
  // which only checks that x is non-empty; the scenarios below state the
  // comparison those lines evidently intend.

  /** test_remove_page: the page is gone, the others stay, no record points at it. */
  method RemovePage(m: Mets)
    requires m.Valid()
    modifies m
    ensures m.Valid() && !HasPage(m.pages, "PHYS_0001") && !Hosts(m.files, "PHYS_0001")
    ensures forall p :: p in old(m.pages) && p.id != "PHYS_0001" ==> p in m.pages
    ensures forall p :: p in m.pages ==> p in old(m.pages)
    ensures m.pages == DropPage(old(m.pages), "PHYS_0001")
  {
    ClearPageOrphansNothing(m.files, "PHYS_0001");
    m.RemovePhysicalPage("PHYS_0001");
  }

  /** test_remove_physical_page_fptr: after unlinking (twice) the file has no
      page, and the page list is untouched. */
  method RemoveFptrTwice(m: Mets)
    requires m.Valid()
    modifies m
    ensures m.Valid() && m.PhysicalPagesFor(["FILE_0002_IMAGE"]) == [None]
    ensures m.pages == old(m.pages)
  {
    ghost var before := m.files;
    m.RemovePhysicalPageFptr("FILE_0002_IMAGE");
    m.RemovePhysicalPageFptr("FILE_0002_IMAGE");
    ClearFptrProperties(before, "FILE_0002_IMAGE");
    assert m.files == ClearFptr(before, "FILE_0002_IMAGE");
  }

  /** test_remove_page_after_remove_file and test_remove_file_ocrdfile (which
      passes the record found by ID, i.e. the same ID): removing the only file
      on a page removes the page, and every page still holding a file stays. */
  method RemovePageAfterRemoveFile(m: Mets)
    requires m.Valid() && UniqueIds(m.files)
    requires "FILE_0005_IMAGE" in IdSet(m.files)
    requires FirstWithId(m.files, "FILE_0005_IMAGE").pageId == Some("PHYS_0005")
    requires forall i :: 0 <= i < |m.files| && i != FirstIndex(m.files, "FILE_0005_IMAGE") ==>
               m.files[i].pageId != Some("PHYS_0005")
    modifies m
    ensures m.Valid() && !HasPage(m.pages, "PHYS_0005")
    ensures forall pid :: HasPage(old(m.pages), pid) && Hosts(m.files, pid) ==> HasPage(m.pages, pid)
    ensures forall p :: p in m.pages ==> p in old(m.pages)
    ensures m.pages == Prune(old(m.pages), PagesOf(old(m.files)), m.files)
  {
    ghost var pages0, files0 := m.pages, m.files;
    RemoveLastFileOnPagePrunes(m.pages, m.files, "FILE_0005_IMAGE", "PHYS_0005");
    UniqueFirstIsLast(m.files, "FILE_0005_IMAGE");
    var r := m.RemoveOneFile("FILE_0005_IMAGE");
    forall pid | HasPage(pages0, pid) && Hosts(m.files, pid) ensures HasPage(m.pages, pid) {
      PruneKeepsHostedPages(pages0, files0, m.files, pid);
    }
  }

  /** test_remove_file_regex: when the pattern matches exactly the files on
      PHYS_0005, removing them removes that page and those files only, and
      every page still holding a file (PHYS_0001 and PHYS_0002 in the sample)
      stays. */
  method RemoveFileRegex(m: Mets, re: Query.Matcher)
    requires m.Valid() && Hosts(m.files, "PHYS_0005")
    requires forall f :: f in m.files ==> (re("FILE_0005.*", f.id) <==> f.pageId == Some("PHYS_0005"))
    modifies m
    ensures m.Valid() && !HasPage(m.pages, "PHYS_0005")
    ensures forall f :: f in m.files <==> f in old(m.files) && f.pageId != Some("PHYS_0005")
    ensures forall pid :: HasPage(old(m.pages), pid) && Hosts(m.files, pid) ==> HasPage(m.pages, pid)
    ensures forall p :: p in m.pages ==> p in old(m.pages)
    ensures m.pages == Prune(old(m.pages), PagesOf(old(m.files)), m.files)
  {
    ghost var pages0, files0 := m.pages, m.files;
    var q := Query.IdFilter("//FILE_0005.*");
    assert "//FILE_0005.*" == "//" + "FILE_0005.*";
    forall f | f in m.files ensures Query.Matches(q, f, m.pages, re) <==> f.pageId == Some("PHYS_0005") {
      Query.RegexToken("FILE_0005.*", f.id, false, m.pages, re);
    }
    RemoveMatchingPrunes(pages0, files0, q, "PHYS_0005", re);
    var removed := m.RemoveFile("//FILE_0005.*", re);
    forall pid | HasPage(pages0, pid) && Hosts(m.files, pid) ensures HasPage(m.pages, pid) {
      PruneKeepsHostedPages(pages0, files0, m.files, pid);
    }
  }

  // ---------------------------------------------------------------- groups

  /** test_rename_non_existent_filegroup_exception. */
  method RenameNonExistent(m: Mets) returns (r: Result<()>)
    requires m.Valid() && "FOOBAR" !in m.groups
    modifies m
    ensures m.Valid() && r == Err(NoSuchFileGrp("FOOBAR"))
    ensures m.groups == old(m.groups) && m.files == old(m.files)
  {
    r := m.RenameFileGroup("FOOBAR", "FOOBAR");
  }

  /** test_rename_file_group0. */
  method RenameFileGroup0(m: Mets)
    requires m.Valid() && "OCR-D-GT-PAGE" in m.groups && "FOOBAR" !in m.groups
    modifies m
    ensures m.Valid() && "OCR-D-GT-PAGE" !in m.groups && "FOOBAR" in m.groups
  {
    RenameProperties(m.groups, m.files, "OCR-D-GT-PAGE", "FOOBAR");
    Syntax.TokenByChars("FOOBAR");
    var r := m.RenameFileGroup("OCR-D-GT-PAGE", "FOOBAR");
  }

  /** test_remove_non_empty_filegroup_exception. */
  method RemoveNonEmptyGroup(m: Mets, re: Query.Matcher) returns (r: Result<seq<string>>)
    requires m.Valid() && exists f :: f in m.files && f.fileGrp == "OCR-D-GT-ALTO"
    modifies m
    ensures m.Valid() && r == Err(FileGrpNotEmpty("OCR-D-GT-ALTO"))
    ensures m.groups == old(m.groups) && m.files == old(m.files)
  {
    var f :| f in m.files && f.fileGrp == "OCR-D-GT-ALTO";
    assert Targets(m.groups, "OCR-D-GT-ALTO", re) == ["OCR-D-GT-ALTO"];
    assert Occupied(m.files, ["OCR-D-GT-ALTO"]);
    r := m.RemoveFileGroup("OCR-D-GT-ALTO", false, re);
  }

  /** test_remove_file_group0: one group fewer and exactly that group's files
      fewer in find_all_files, on either path. */
  method RemoveFileGroup0(m: Mets, re: Query.Matcher)
    requires m.Valid() && "OCR-D-GT-PAGE" in m.groups
    modifies m
    ensures m.Valid() && |m.groups| == |old(m.groups)| - 1
    ensures |m.FindAllFiles(Query.NoFilters, re)| == |old(m.files)| - |GroupFiles(old(m.files), "OCR-D-GT-PAGE")|
  {
    ghost var groups0, files0 := m.groups, m.files;
    assert Targets(m.groups, "OCR-D-GT-PAGE", re) == ["OCR-D-GT-PAGE"];
    var r := m.RemoveFileGroup("OCR-D-GT-PAGE", true, re);
    RemoveOneGroupCounts(groups0, files0, "OCR-D-GT-PAGE");
    assert |multiset(m.FindAllFiles(Query.NoFilters, re))| == |multiset(m.files)|;
  }

  /** test_remove_file_group_regex: every group the pattern matches goes, with
      its files; nothing else does. */
  method RemoveFileGroupRegex(m: Mets, re: Query.Matcher)
    requires m.Valid()
    modifies m
    ensures m.Valid()
    ensures forall g :: g in m.groups <==> g in old(m.groups) && !re("OCR-D-GT-.*", g)
    ensures forall f :: f in m.files <==> f in old(m.files) && !re("OCR-D-GT-.*", f.fileGrp)
  {
    ghost var groups0, files0 := m.groups, m.files;
    assert IsRegex("//OCR-D-GT-.*") && "//OCR-D-GT-.*"[2..] == "OCR-D-GT-.*";
    var r := m.RemoveFileGroup("//OCR-D-GT-.*", true, re);
    forall f | f in files0 && re("OCR-D-GT-.*", f.fileGrp)
      ensures f.fileGrp in Targets(groups0, "//OCR-D-GT-.*", re) {
    }
  }
}
