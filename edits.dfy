/** The state transitions of the mutation operations, as functions from the old
    records, pages and groups to the new ones, with what each promises. */
module Edits {
  import opened Records
  import opened Seqs
  import opened Structure
  import Query

  // ---------------------------------------------------------------- lookups by ID

  /** Position of the first record with this ID, or |files| when there is none. */
  function FirstIndex(files: seq<FileRec>, id: string): (k: nat)
    ensures k <= |files|
    ensures k < |files| <==> id in IdSet(files)
    ensures k < |files| ==> files[k].id == id
    ensures forall j :: 0 <= j < k ==> files[j].id != id
  {
    if files == [] then 0
    else
      IdSetCons(files);
      if files[0].id == id then 0 else FirstIndex(files[1..], id) + 1
  }

  function FirstWithId(files: seq<FileRec>, id: string): (f: FileRec)
    requires id in IdSet(files)
    ensures f in files && f.id == id
  {
    files[FirstIndex(files, id)]
  }

  /** The first record with an ID is the first one an ID lookup lists. */
  lemma {:induction false} FirstWithIdIsHead(files: seq<FileRec>, id: string)
    requires id in IdSet(files)
    ensures WithId(files, id) != [] && FirstWithId(files, id) == WithId(files, id)[0]
  {
    IdSetCons(files);
    if files[0].id != id {
      FirstWithIdIsHead(files[1..], id);
    }
  }

  /** The page the first pointer for this file ID leads to (get_physical_pages
      for one file ID), None when no record with that ID has a page. */
  function PageOf(files: seq<FileRec>, id: string): (r: Option<string>)
    ensures r.Some? ==> exists f :: f in files && f.id == id && f.pageId == r
    ensures r.None? ==> forall f :: f in files && f.id == id ==> f.pageId.None?
  {
    if files == [] then None
    else
      assert forall f :: f in files <==> f == files[0] || f in files[1..];
      if files[0].id == id && files[0].pageId.Some? then files[0].pageId
      else PageOf(files[1..], id)
  }

  // ---------------------------------------------------------------- removing records

  /** remove_one_file: drops the first record with this ID. */
  function DropFirstId(files: seq<FileRec>, id: string): (r: seq<FileRec>)
    ensures id !in IdSet(files) ==> r == files
    ensures id in IdSet(files) ==> |r| == |files| - 1
    ensures id in IdSet(files) ==> multiset(r) + multiset{FirstWithId(files, id)} == multiset(files)
    ensures forall x :: x in r ==> x in files
  {
    var k := FirstIndex(files, id);
    if k < |files| then
      assert files == files[..k] + [files[k]] + files[k + 1..];
      files[..k] + files[k + 1..]
    else files
  }

  /** Position of the last record with this ID, or |files| when there is none:
      the record the ID index points to. */
  function LastIndex(files: seq<FileRec>, id: string): (k: nat)
    ensures k <= |files|
    ensures k < |files| <==> id in IdSet(files)
    ensures k < |files| ==> files[k].id == id
    ensures forall j :: k < j < |files| ==> files[j].id != id
  {
    if files == [] then 0
    else
      IdSetCons(files);
      var t := LastIndex(files[1..], id);
      assert forall j :: 0 < j < |files| ==> files[j] == files[1..][j - 1] && files[1..][j - 1] in files[1..];
      if t < |files| - 1 then t + 1
      else if files[0].id == id then 0
      else |files|
  }

  /** remove_one_file with the index on: drops the record the index holds for
      this ID, the last one carrying it. */
  function DropLastId(files: seq<FileRec>, id: string): (r: seq<FileRec>)
    ensures id !in IdSet(files) ==> r == files
    ensures id in IdSet(files) ==> |r| == |files| - 1
    ensures id in IdSet(files) ==> multiset(r) + multiset{files[LastIndex(files, id)]} == multiset(files)
    ensures forall x :: x in r ==> x in files
  {
    var k := LastIndex(files, id);
    if k < |files| then
      assert files == files[..k] + [files[k]] + files[k + 1..];
      files[..k] + files[k + 1..]
    else files
  }

  /** The ID index holds, for each ID, the last record carrying it. */
  lemma IndexIsLastWithId(files: seq<FileRec>, id: string)
    requires id in IdSet(files)
    ensures Index(files)[id] == files[LastIndex(files, id)]
  {
    IndexIsLast(files, id);
    var i :| 0 <= i < |files| && files[i] == Index(files)[id] &&
             forall j :: i < j < |files| ==> files[j].id != id;
    var k := LastIndex(files, id);
    assert !(i < k);
    assert !(k < i);
  }

  /** With unique IDs, the first and the last record with an ID are the same
      one, so both removal paths drop the same record. */
  lemma UniqueFirstIsLast(files: seq<FileRec>, id: string)
    requires UniqueIds(files) && id in IdSet(files)
    ensures LastIndex(files, id) == FirstIndex(files, id)
    ensures DropLastId(files, id) == DropFirstId(files, id)
  {
    var i, k := FirstIndex(files, id), LastIndex(files, id);
    assert !(i < k);
    assert !(k < i);
  }

  /** The records a force replace compares against and removes: those with this
      ID in this group. */
  function DropIdInGroup(files: seq<FileRec>, id: string, grp: string): (r: seq<FileRec>)
    ensures forall x :: x in r <==> x in files && !(x.id == id && x.fileGrp == grp)
  {
    Filter(files, (f: FileRec) => !(f.id == id && f.fileGrp == grp))
  }

  /** A force replace: the new record takes the place of the first record with
      its ID (which is in the new record's group), and the other records with
      that ID in that group are dropped. */
  function Overwrite(files: seq<FileRec>, rec: FileRec): (r: seq<FileRec>)
    requires rec.id in IdSet(files) && FirstWithId(files, rec.id).fileGrp == rec.fileGrp
    ensures FirstIndex(files, rec.id) < |r| && r[FirstIndex(files, rec.id)] == rec
    ensures forall i :: 0 <= i < FirstIndex(files, rec.id) ==> r[i] == files[i]
    ensures forall x :: x in r <==> x == rec || (x in files && !(x.id == rec.id && x.fileGrp == rec.fileGrp))
  {
    var k := FirstIndex(files, rec.id);
    var after := DropIdInGroup(files[k + 1..], rec.id, rec.fileGrp);
    SpliceMembers(files, k, rec, after);
    files[..k] + [rec] + after
  }

  lemma SpliceMembers(files: seq<FileRec>, k: nat, rec: FileRec, after: seq<FileRec>)
    requires k < |files| && files[k].id == rec.id && files[k].fileGrp == rec.fileGrp
    requires forall j :: 0 <= j < k ==> files[j].id != rec.id
    requires after == DropIdInGroup(files[k + 1..], rec.id, rec.fileGrp)
    ensures forall x :: x in files[..k] + [rec] + after <==>
              x == rec || (x in files && !(x.id == rec.id && x.fileGrp == rec.fileGrp))
  {
    var r := files[..k] + [rec] + after;
    forall x ensures x in r <==> x == rec || (x in files && !(x.id == rec.id && x.fileGrp == rec.fileGrp)) {
      if x in files[..k] {
        var j :| 0 <= j < k && files[..k][j] == x;
        assert files[j] == x;
      } else if x in after {
        assert x in files[k + 1..];
        var j :| 0 <= j < |files[k + 1..]| && files[k + 1..][j] == x;
        assert files[k + 1 + j] == x;
      }
      if x in files && !(x.id == rec.id && x.fileGrp == rec.fileGrp) {
        var j :| 0 <= j < |files| && files[j] == x;
        if j < k {
          assert files[..k][j] == x;
        } else {
          assert j != k;
          assert files[k + 1..][j - k - 1] == x;
        }
      }
    }
  }

  lemma {:induction false} WithIdNone(files: seq<FileRec>, id: string)
    requires forall x :: x in files ==> x.id != id
    ensures WithId(files, id) == []
  {
    if files != [] {
      assert files[0] in files;
      WithIdNone(files[1..], id);
    }
  }

  /** No record before the first one with an ID carries it. */
  lemma PrefixWithoutId(files: seq<FileRec>, id: string)
    ensures WithId(files[..FirstIndex(files, id)], id) == []
  {
    var before := files[..FirstIndex(files, id)];
    forall x | x in before ensures x.id != id {
      var j :| 0 <= j < |before| && before[j] == x;
    }
    WithIdNone(before, id);
  }

  /** Dropping the records with an ID in a group from a suffix leaves none
      with that ID, when all of them were in that group. */
  lemma DroppedWithoutId(files: seq<FileRec>, k: nat, id: string, grp: string)
    requires k < |files|
    requires forall f :: f in files && f.id == id ==> f.fileGrp == grp
    ensures WithId(DropIdInGroup(files[k + 1..], id, grp), id) == []
  {
    assert forall f :: f in files[k + 1..] ==> f in files;
    WithIdNone(DropIdInGroup(files[k + 1..], id, grp), id);
  }

  /** One record with an ID between two stretches without it. */
  lemma WithIdSplice(before: seq<FileRec>, rec: FileRec, after: seq<FileRec>)
    requires WithId(before, rec.id) == [] && WithId(after, rec.id) == []
    ensures WithId(before + [rec] + after, rec.id) == [rec]
  {
    WithIdAppend(before + [rec], after, rec.id);
    WithIdAppend(before, [rec], rec.id);
    assert [rec][1..] == [];
  }

  /** After a force replace, when all records with the ID were in the new
      record's group, exactly one record with that ID remains: the new one. */
  lemma ReplaceLeavesOne(files: seq<FileRec>, rec: FileRec)
    requires rec.id in IdSet(files)
    requires forall f :: f in files && f.id == rec.id ==> f.fileGrp == rec.fileGrp
    ensures WithId(Overwrite(files, rec), rec.id) == [rec]
  {
    var k := FirstIndex(files, rec.id);
    PrefixWithoutId(files, rec.id);
    DroppedWithoutId(files, k, rec.id, rec.fileGrp);
    WithIdSplice(files[..k], rec, DropIdInGroup(files[k + 1..], rec.id, rec.fileGrp));
  }

  /** A force replace that keeps the group and, when one was requested, the page
      of the record it replaces keeps the document well-formed, with the pages
      its dropped records left empty pruned. */
  lemma OverwriteWellFormed(groups: seq<string>, files: seq<FileRec>, pages: seq<Page>, rec: FileRec)
    requires WellFormed(groups, files, pages)
    requires rec.id in IdSet(files) && FirstWithId(files, rec.id).fileGrp == rec.fileGrp
    requires rec.pageId.None? || rec.pageId == FirstWithId(files, rec.id).pageId
    ensures WellFormed(groups, Overwrite(files, rec), Prune(pages, PagesOf(files), Overwrite(files, rec)))
  {
    var r := Overwrite(files, rec);
    var pages' := Prune(pages, PagesOf(files), r);
    var first := FirstWithId(files, rec.id);
    forall f | f in r ensures f.fileGrp in groups && (f.pageId.Some? ==> HasPage(pages', f.pageId.value)) {
      var g := if f == rec then first else f;
      assert g in files && g.fileGrp == f.fileGrp && (f.pageId.Some? ==> g.pageId == f.pageId);
      if f.pageId.Some? {
        var p :| p in pages && p.id == f.pageId.value;
        assert Hosts(r, p.id);
        assert p in pages';
      }
    }
  }

  // ---------------------------------------------------------------- pages

  /** The pages after associating a record with `pageId`: created when missing,
      without an order (add_file passes none). */
  function PagesFor(pages: seq<Page>, pageId: Option<string>): (r: seq<Page>)
    requires PagesDistinct(pages)
    ensures PagesDistinct(r)
    ensures forall p :: p in pages ==> p in r
    ensures pageId.Some? ==> HasPage(r, pageId.value)
    ensures pageId.None? ==> r == pages
  {
    if pageId.None? then pages else EnsurePage(pages, pageId.value, None)
  }

  /** Declaring a group and appending a record in it, with its page created
      when missing, keeps the document well-formed. */
  lemma AppendWellFormed(groups: seq<string>, files: seq<FileRec>, pages: seq<Page>, rec: FileRec)
    requires WellFormed(groups, files, pages)
    ensures WellFormed(EnsureGroup(groups, rec.fileGrp), files + [rec], PagesFor(pages, rec.pageId))
  {
    var groups' := EnsureGroup(groups, rec.fileGrp);
    var pages' := PagesFor(pages, rec.pageId);
    forall f | f in files + [rec] ensures f.fileGrp in groups' && (f.pageId.Some? ==> HasPage(pages', f.pageId.value)) {
      if f != rec {
        assert f in files;
        if f.pageId.Some? {
          var p :| p in pages && p.id == f.pageId.value;
          assert p in pages';
        }
      }
    }
  }

  /** remove_physical_page on the page list. */
  function DropPage(pages: seq<Page>, pid: string): (r: seq<Page>)
    ensures forall p :: p in r <==> p in pages && p.id != pid
    ensures PagesDistinct(pages) ==> PagesDistinct(r)
  {
    var keep := (p: Page) => p.id != pid;
    if PagesDistinct(pages) then FilterPagesDistinct(pages, keep); Filter(pages, keep)
    else Filter(pages, keep)
  }

  /** remove_physical_page on the records: those on the page lose their page. */
  function ClearPage(files: seq<FileRec>, pid: string): (r: seq<FileRec>)
    ensures |r| == |files|
    ensures forall i :: 0 <= i < |files| ==>
              r[i] == if files[i].pageId == Some(pid) then files[i].(pageId := None) else files[i]
  {
    seq(|files|, i requires 0 <= i < |files| =>
      if files[i].pageId == Some(pid) then files[i].(pageId := None) else files[i])
  }

  /** remove_physical_page_fptr: the records with this ID lose their pointer. */
  function ClearFptr(files: seq<FileRec>, id: string): (r: seq<FileRec>)
    ensures |r| == |files|
    ensures forall i :: 0 <= i < |files| ==>
              r[i] == if files[i].id == id then files[i].(pageId := None) else files[i]
  {
    seq(|files|, i requires 0 <= i < |files| =>
      if files[i].id == id then files[i].(pageId := None) else files[i])
  }

  /** set_physical_page_for_file: the records with this ID point at `pid`. */
  function SetPage(files: seq<FileRec>, id: string, pid: string): (r: seq<FileRec>)
    ensures |r| == |files|
    ensures forall i :: 0 <= i < |files| ==>
              r[i] == if files[i].id == id then files[i].(pageId := Some(pid)) else files[i]
  {
    seq(|files|, i requires 0 <= i < |files| =>
      if files[i].id == id then files[i].(pageId := Some(pid)) else files[i])
  }

  /** After remove_physical_page no record points at the removed page, and
      every record keeps its ID and group. */
  lemma ClearPageOrphansNothing(files: seq<FileRec>, pid: string)
    ensures !Hosts(ClearPage(files, pid), pid)
    ensures IdSet(ClearPage(files, pid)) == IdSet(files)
  {
    var r := ClearPage(files, pid);
    forall f | f in r ensures f.pageId != Some(pid) {
      var i :| 0 <= i < |r| && r[i] == f;
    }
    forall id | id in IdSet(files) ensures id in IdSet(r) {
      var f :| f in files && f.id == id;
      var i :| 0 <= i < |files| && files[i] == f;
      assert r[i] in r;
    }
    forall id | id in IdSet(r) ensures id in IdSet(files) {
      var f :| f in r && f.id == id;
      var i :| 0 <= i < |r| && r[i] == f;
      assert files[i] in files;
    }
  }

  /** remove_physical_page_fptr leaves the file without a page, and a second call
      changes nothing. */
  lemma ClearFptrProperties(files: seq<FileRec>, id: string)
    ensures PageOf(ClearFptr(files, id), id).None?
    ensures ClearFptr(ClearFptr(files, id), id) == ClearFptr(files, id)
  {
    var r := ClearFptr(files, id);
    forall f | f in r && f.id == id ensures f.pageId.None? {
      var i :| 0 <= i < |r| && r[i] == f;
    }
  }

  /** After set_physical_page_for_file the file's page is the target page. */
  lemma SetPageMoves(files: seq<FileRec>, id: string, pid: string)
    requires id in IdSet(files)
    ensures PageOf(SetPage(files, id, pid), id) == Some(pid)
  {
    var r := SetPage(files, id, pid);
    var k := FirstIndex(files, id);
    assert r[k].id == id && r[k].pageId == Some(pid);
    assert r[k] in r;
    forall f | f in r && f.id == id ensures f.pageId == Some(pid) {
      var i :| 0 <= i < |r| && r[i] == f;
    }
  }

  /** set_physical_page_for_file changes no file ID. */
  lemma SetPageKeepsIds(files: seq<FileRec>, id: string, pid: string)
    ensures IdSet(SetPage(files, id, pid)) == IdSet(files)
  {
    var r := SetPage(files, id, pid);
    forall x | x in IdSet(r) ensures x in IdSet(files) {
      var f :| f in r && f.id == x;
      var i :| 0 <= i < |r| && r[i] == f;
      assert files[i] in files;
    }
    forall x | x in IdSet(files) ensures x in IdSet(r) {
      var f :| f in files && f.id == x;
      var i :| 0 <= i < |files| && files[i] == f;
      assert r[i] in r;
    }
  }

  /** set_physical_page_for_file leaves the page of every other file ID alone. */
  lemma {:induction false} SetPageKeepsOthers(files: seq<FileRec>, id: string, other: string, pid: string)
    requires other != id
    ensures PageOf(SetPage(files, id, pid), other) == PageOf(files, other)
  {
    if files != [] {
      var r := SetPage(files, id, pid);
      assert r[1..] == SetPage(files[1..], id, pid);
      SetPageKeepsOthers(files[1..], id, other, pid);
    }
  }

  /** remove_one_file prunes the page its record was alone on. */
  lemma RemoveLastFileOnPagePrunes(pages: seq<Page>, files: seq<FileRec>, id: string, pid: string)
    requires id in IdSet(files)
    requires FirstWithId(files, id).pageId == Some(pid)
    requires forall i :: 0 <= i < |files| && i != FirstIndex(files, id) ==> files[i].pageId != Some(pid)
    ensures !HasPage(Prune(pages, PagesOf(files), DropFirstId(files, id)), pid)
  {
    var k := FirstIndex(files, id);
    var rest := DropFirstId(files, id);
    var before, after := files[..k], files[k + 1..];
    assert rest == before + after;
    assert files[k] in files && files[k].pageId == Some(pid);
    assert pid in PagesOf(files);
    forall i | 0 <= i < |rest| ensures rest[i].pageId != Some(pid) {
      if i < k {
        assert rest[i] == before[i] == files[i];
      } else {
        assert rest[i] == after[i - k] == files[i + 1];
      }
    }
    assert !Hosts(rest, pid);
    forall p | p in Prune(pages, PagesOf(files), rest) ensures p.id != pid {
    }
  }

  /** remove_file with a pattern that matches exactly the records on a page finds
      something and prunes that page. */
  lemma RemoveMatchingPrunes(pages: seq<Page>, files: seq<FileRec>, q: Query.Filters, pid: string, re: Query.Matcher)
    requires Hosts(files, pid)
    requires forall f :: f in files ==> (Query.Matches(q, f, pages, re) <==> f.pageId == Some(pid))
    ensures Query.FindAllFiles(files, q, pages, re) != []
    ensures !HasPage(Prune(pages, PagesOf(files), Query.RejectAll(files, q, pages, re)), pid)
  {
    var g :| g in files && g.pageId == Some(pid);
    assert g in Query.FindAllFiles(files, q, pages, re);
    assert pid in PagesOf(files);
    var rest := Query.RejectAll(files, q, pages, re);
    assert !Hosts(rest, pid);
    forall p | p in Prune(pages, PagesOf(files), rest) ensures p.id != pid {
    }
  }

  /** Pruning after removing records never touches a page that still has a record. */
  lemma PruneKeepsHostedPages(pages: seq<Page>, before: seq<FileRec>, after: seq<FileRec>, pid: string)
    requires HasPage(pages, pid) && Hosts(after, pid)
    ensures HasPage(Prune(pages, PagesOf(before), after), pid)
  {
    var p :| p in pages && p.id == pid;
    assert p in Prune(pages, PagesOf(before), after);
  }

  // ---------------------------------------------------------------- groups

  /** rename_file_group on the group list. */
  function RenameIn(groups: seq<string>, from: string, to: string): (r: seq<string>)
    ensures |r| == |groups|
    ensures forall i :: 0 <= i < |groups| ==> r[i] == if groups[i] == from then to else groups[i]
  {
    seq(|groups|, i requires 0 <= i < |groups| => if groups[i] == from then to else groups[i])
  }

  /** rename_file_group on the records: membership follows the new name. */
  function Regroup(files: seq<FileRec>, from: string, to: string): (r: seq<FileRec>)
    ensures |r| == |files|
    ensures forall i :: 0 <= i < |files| ==>
              r[i] == if files[i].fileGrp == from then files[i].(fileGrp := to) else files[i]
  {
    seq(|files|, i requires 0 <= i < |files| =>
      if files[i].fileGrp == from then files[i].(fileGrp := to) else files[i])
  }

  /** Renaming an existing group to a fresh name: the old name disappears, the
      new one appears, names stay unique and every record stays in a group. */
  lemma RenameProperties(groups: seq<string>, files: seq<FileRec>, from: string, to: string)
    requires Distinct(groups) && from in groups && to !in groups
    requires forall f :: f in files ==> f.fileGrp in groups
    ensures from !in RenameIn(groups, from, to) && to in RenameIn(groups, from, to)
    ensures Distinct(RenameIn(groups, from, to))
    ensures forall f :: f in Regroup(files, from, to) ==> f.fileGrp in RenameIn(groups, from, to)
  {
    var r := RenameIn(groups, from, to);
    var k :| 0 <= k < |groups| && groups[k] == from;
    assert r[k] == to;
    forall f | f in Regroup(files, from, to) ensures f.fileGrp in r {
      var i :| 0 <= i < |files| && Regroup(files, from, to)[i] == f;
      assert files[i] in files;
      var j :| 0 <= j < |groups| && groups[j] == files[i].fileGrp;
      assert r[j] == f.fileGrp;
    }
  }

  /** A rename to an unused name, or to the same name, keeps the document well-formed. */
  lemma RenameWellFormed(groups: seq<string>, files: seq<FileRec>, pages: seq<Page>, from: string, to: string)
    requires WellFormed(groups, files, pages) && from in groups && (to == from || to !in groups)
    ensures WellFormed(RenameIn(groups, from, to), Regroup(files, from, to), pages)
  {
    if to != from {
      RenameProperties(groups, files, from, to);
    } else {
      assert RenameIn(groups, from, to) == groups;
      assert Regroup(files, from, to) == files;
    }
    var files' := Regroup(files, from, to);
    forall f | f in files' && f.pageId.Some? ensures HasPage(pages, f.pageId.value) {
      var i :| 0 <= i < |files'| && files'[i] == f;
      assert files[i] in files;
    }
  }

  predicate IsRegex(s: string)
  {
    |s| >= 2 && s[0] == '/' && s[1] == '/'
  }

  function MatchingGroups(groups: seq<string>, pattern: string, re: Query.Matcher): (r: seq<string>)
    ensures forall g :: g in r <==> g in groups && re(pattern, g)
  {
    Filter(groups, (g: string) => re(pattern, g))
  }

  /** The groups remove_file_group addresses: those a "//" pattern matches, or
      the one with the given name (none when it is not declared). */
  function Targets(groups: seq<string>, name: string, re: Query.Matcher): (r: seq<string>)
    ensures forall g :: g in r ==> g in groups
    ensures IsRegex(name) ==> |name| >= 2 && forall g :: g in r <==> g in groups && re(name[2..], g)
    ensures !IsRegex(name) ==> r == (if name in groups then [name] else [])
  {
    if IsRegex(name) then MatchingGroups(groups, name[2..], re)
    else if name in groups then [name] else []
  }

  function DropNames(groups: seq<string>, targets: seq<string>): (r: seq<string>)
    ensures forall g :: g in r <==> g in groups && g !in targets
    ensures Distinct(groups) ==> Distinct(r)
  {
    var keep := (g: string) => g !in targets;
    if Distinct(groups) then FilterDistinct(groups, keep); Filter(groups, keep)
    else Filter(groups, keep)
  }

  function DropGroups(files: seq<FileRec>, targets: seq<string>): (r: seq<FileRec>)
    ensures forall f :: f in r <==> f in files && f.fileGrp !in targets
  {
    Filter(files, (f: FileRec) => f.fileGrp !in targets)
  }

  lemma {:induction false} DropOneGroupIsOthers(files: seq<FileRec>, g: string)
    ensures DropGroups(files, [g]) == OtherFiles(files, g)
  {
    if files != [] {
      DropOneGroupIsOthers(files[1..], g);
    }
  }

  lemma {:induction false} DropOneName(groups: seq<string>, g: string)
    requires Distinct(groups) && g in groups
    ensures |DropNames(groups, [g])| == |groups| - 1
  {
    var rest := groups[1..];
    assert Distinct(rest) by {
      forall i, j | 0 <= i < j < |rest| ensures rest[i] != rest[j] {
        assert rest[i] == groups[i + 1] && rest[j] == groups[j + 1];
      }
    }
    if groups[0] == g {
      assert g !in rest by {
        forall j | 0 <= j < |rest| ensures rest[j] != g { assert rest[j] == groups[j + 1]; }
      }
      FilterAll(rest, (x: string) => x !in [g]);
    } else {
      DropOneName(rest, g);
    }
  }

  /** Recursive removal of one group: one group fewer, and exactly that group's
      records fewer. */
  lemma RemoveOneGroupCounts(groups: seq<string>, files: seq<FileRec>, g: string)
    requires Distinct(groups) && g in groups
    ensures |DropNames(groups, [g])| == |groups| - 1
    ensures |DropGroups(files, [g])| == |files| - |GroupFiles(files, g)|
  {
    DropOneName(groups, g);
    DropOneGroupIsOthers(files, g);
    SplitByGroup(files, g);
    assert |multiset(files)| == |multiset(GroupFiles(files, g))| + |multiset(OtherFiles(files, g))|;
  }
}
