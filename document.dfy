/** The mutable METS document (OcrdMets): file groups, file records, physical
    pages, the agent count of the metsHdr and, when caching is on, the ID index.
    Every mutation keeps the document well-formed and the index a projection of
    the records. */
module Document {
  import opened Records
  import opened Seqs
  import opened Structure
  import opened Edits
  import Syntax
  import Config
  import Query

  /** Both syntax checks add_file applies pass. */
  predicate ValidArgs(grp: string, id: Option<string>)
  {
    id.Some? && Syntax.IsToken(id.value) && Syntax.IsToken(grp)
  }

  /** The force policy's attribute comparison: same group and mimetype, and the
      same page unless no page was requested. */
  predicate Compatible(existing: FileRec, grp: string, mimetype: Option<string>, pageId: Option<string>)
  {
    existing.fileGrp == grp && existing.mimetype == mimetype &&
    (pageId.None? || existing.pageId == pageId)
  }

  /** Some record belongs to one of these groups. */
  predicate Occupied(files: seq<FileRec>, targets: seq<string>)
  {
    exists f :: f in files && f.fileGrp in targets
  }

  class Mets {
    var groups: seq<string>
    var files: seq<FileRec>
    var pages: seq<Page>
    var agents: nat
    var hasHeader: bool
    const cached: bool
    var cache: map<string, FileRec>

    ghost predicate Valid()
      reads this
    {
      && WellFormed(groups, files, pages)
      && (if cached then cache == Index(files) else cache == map[])
      && (agents > 0 ==> hasHeader)
    }

    /** A document parsed from "<mets/>": no groups, files, pages or header. */
    constructor Empty(cacheFlag: bool, env: Option<string>)
      ensures Valid()
      ensures groups == [] && files == [] && pages == [] && agents == 0 && !hasHeader
      ensures cached == Config.CacheFlag(env, cacheFlag)
    {
      groups, files, pages := [], [], [];
      agents, hasHeader := 0, false;
      cached := Config.CacheFlag(env, cacheFlag);
      cache := map[];
    }

    /** A document whose tree already holds these groups, records and pages;
        with caching on, the index is built from them. */
    constructor Load(groups0: seq<string>, files0: seq<FileRec>, pages0: seq<Page>,
                     agents0: nat, header0: bool, cacheFlag: bool, env: Option<string>)
      requires WellFormed(groups0, files0, pages0)
      requires agents0 > 0 ==> header0
      ensures Valid()
      ensures groups == groups0 && files == files0 && pages == pages0
      ensures agents == agents0 && hasHeader == header0
      ensures cached == Config.CacheFlag(env, cacheFlag)
    {
      groups, files, pages := groups0, files0, pages0;
      agents, hasHeader := agents0, header0;
      cached := Config.CacheFlag(env, cacheFlag);
      cache := if Config.CacheFlag(env, cacheFlag) then Index(files0) else map[];
    }

    // ------------------------------------------------------------ queries

    /** The records a query can see. An ID filter with caching on is answered
        from the ID index, which holds one record per ID, the last one added;
        every other query, and every query when uncached, sees the whole tree. */
    function View(q: Query.Filters): (v: seq<FileRec>)
      reads this
      requires Valid()
      ensures forall x :: x in v ==> x in files
      ensures !(cached && q.id.Some?) ==> v == files
      ensures cached && q.id.Some? ==> forall x :: x in v <==> x.id in cache && cache[x.id] == x
      ensures cached && q.id.Some? ==> UniqueIds(v)
    {
      if cached && q.id.Some? then KeepLastIsIndex(files); KeepLastDistinct(files); KeepLast(files) else files
    }

    /** find_all_files: the matching records in document order (groups in
        declaration order, then records in insertion order). */
    function FindAllFiles(q: Query.Filters, re: Query.Matcher): (r: seq<FileRec>)
      reads this
      requires Valid()
      ensures forall x :: x in r <==> x in View(q) && Query.Matches(q, x, pages, re)
      ensures multiset(r) <= multiset(View(q))
      ensures (forall x :: x in View(q) ==> Query.Matches(q, x, pages, re)) ==> multiset(r) == multiset(View(q))
      ensures q == Query.NoFilters ==> multiset(r) == multiset(files)
      ensures q == Query.NoFilters ==> r == DocOrder(groups, files)
      ensures r == Query.FindAllFiles(DocOrder(groups, View(q)), q, pages, re)
    {
      var v := View(q);
      var d := DocOrder(groups, v);
      DocOrderIsPermutation(groups, v);
      SameMembers(d, v);
      Query.NoFiltersReturnsAll(d, pages, re);
      if forall x :: x in v ==> Query.Matches(q, x, pages, re) then
        Query.AllMatchReturnsAll(d, q, pages, re);
        Query.FindAllFiles(d, q, pages, re)
      else
        Query.FindAllFiles(d, q, pages, re)
    }

    /** physical_pages: the page IDs in structMap order. */
    function PhysicalPages(): (r: seq<string>)
      reads this
      requires Valid()
      ensures |r| == |pages|
      ensures forall pid :: pid in r <==> HasPage(pages, pid)
      ensures Distinct(r)
    {
      assert forall pid :: pid in PageIds(pages) <==> exists i :: 0 <= i < |pages| && pages[i].id == pid;
      PageIds(pages)
    }

    /** get_physical_pages(for_fileIds=ids): each file's page, None when it has none. */
    function PhysicalPagesFor(ids: seq<string>): (r: seq<Option<string>>)
      reads this
      ensures |r| == |ids|
      ensures forall i :: 0 <= i < |ids| && r[i].Some? ==>
                exists f :: f in files && f.id == ids[i] && f.pageId == r[i]
      ensures forall i :: 0 <= i < |ids| && r[i].None? ==>
                forall f :: f in files && f.id == ids[i] ==> f.pageId.None?
    {
      seq(|ids|, i requires 0 <= i < |ids| reads this => PageOf(files, ids[i]))
    }

    // ------------------------------------------------------------ groups

    /** add_file_group: creates the group unless it exists. A group name
        follows the token syntax, so a malformed one is refused. */
    method AddFileGroup(name: string) returns (r: Result<()>)
      requires Valid()
      modifies this
      ensures Valid()
      ensures files == old(files) && pages == old(pages) && cache == old(cache)
      ensures agents == old(agents) && hasHeader == old(hasHeader)
      ensures !Syntax.IsToken(name) ==> r == Err(InvalidFileGrp(name)) && groups == old(groups)
      ensures Syntax.IsToken(name) ==> r == Ok(()) && groups == EnsureGroup(old(groups), name)
    {
      if !Syntax.IsToken(name) { return Err(InvalidFileGrp(name)); }
      groups := EnsureGroup(groups, name);
      r := Ok(());
    }

    /** rename_file_group: the new name follows the group-name token syntax. */
    method RenameFileGroup(from: string, to: string) returns (r: Result<()>)
      requires Valid()
      modifies this
      ensures Valid()
      ensures pages == old(pages) && agents == old(agents) && hasHeader == old(hasHeader)
      ensures from !in old(groups) ==> r == Err(NoSuchFileGrp(from))
      ensures from in old(groups) && !Syntax.IsToken(to) ==> r == Err(InvalidFileGrp(to))
      ensures from in old(groups) && Syntax.IsToken(to) && to != from && to in old(groups) ==>
                r == Err(FileGrpExists(to))
      ensures r.Err? ==> groups == old(groups) && files == old(files)
      ensures from in old(groups) && Syntax.IsToken(to) && (to == from || to !in old(groups)) ==>
                r.Ok? && groups == RenameIn(old(groups), from, to) && files == Regroup(old(files), from, to)
    {
      if from !in groups { return Err(NoSuchFileGrp(from)); }
      if !Syntax.IsToken(to) { return Err(InvalidFileGrp(to)); }
      if to != from && to in groups { return Err(FileGrpExists(to)); }
      RenameWellFormed(groups, files, pages, from, to);
      var files' := Regroup(files, from, to);
      groups := RenameIn(groups, from, to);
      files := files';
      cache := if cached then Index(files') else map[];
      r := Ok(());
    }

    /** remove_file_group: by exact name or "//" regex; a non-empty group needs
        `recursive`, which removes its records first (pruning their pages). */
    method RemoveFileGroup(name: string, recursive: bool, re: Query.Matcher)
      returns (r: Result<seq<string>>)
      requires Valid()
      modifies this
      ensures Valid()
      ensures agents == old(agents) && hasHeader == old(hasHeader)
      ensures !IsRegex(name) && name !in old(groups) ==> r == Err(NoSuchFileGrp(name))
      ensures (IsRegex(name) || name in old(groups)) && !recursive &&
              Occupied(old(files), Targets(old(groups), name, re)) ==>
                r == Err(FileGrpNotEmpty(name))
      ensures r.Err? ==> groups == old(groups) && files == old(files) && pages == old(pages)
      ensures (IsRegex(name) || name in old(groups)) &&
              (recursive || !Occupied(old(files), Targets(old(groups), name, re))) ==>
                r == Ok(Targets(old(groups), name, re))
      ensures r.Ok? ==>
                && groups == DropNames(old(groups), r.value)
                && files == DropGroups(old(files), r.value)
                && pages == Prune(old(pages), PagesOf(old(files)), files)
    {
      if !IsRegex(name) && name !in groups { return Err(NoSuchFileGrp(name)); }
      var targets := Targets(groups, name, re);
      if !recursive && Occupied(files, targets) {
        return Err(FileGrpNotEmpty(name));
      }
      Retain(DropNames(groups, targets), DropGroups(files, targets));
      r := Ok(targets);
    }

    // ------------------------------------------------------------ shared steps

    /** Keeps only the records `kept` (a sub-collection of the current ones) under
        the groups `groups'`, and prunes every page that thereby lost its last
        record; the index follows. */
    method Retain(groups': seq<string>, kept: seq<FileRec>)
      requires Valid()
      requires Distinct(groups')
      requires forall f :: f in kept ==> f in files && f.fileGrp in groups'
      modifies this
      ensures Valid()
      ensures agents == old(agents) && hasHeader == old(hasHeader)
      ensures groups == groups' && files == kept
      ensures pages == Prune(old(pages), PagesOf(old(files)), kept)
    {
      PruneWellFormed(groups, files, pages, groups', kept, PagesOf(files));
      groups, files, pages := groups', kept, Prune(pages, PagesOf(files), kept);
      cache := if cached then Index(kept) else map[];
    }

    /** Declares the record's group when needed, appends the record and creates
        its page when missing; the index points the ID at the new record. */
    method Insert(rec: FileRec)
      requires Valid()
      modifies this
      ensures Valid()
      ensures agents == old(agents) && hasHeader == old(hasHeader)
      ensures groups == EnsureGroup(old(groups), rec.fileGrp)
      ensures files == old(files) + [rec]
      ensures pages == PagesFor(old(pages), rec.pageId)
    {
      AppendWellFormed(groups, files, pages, rec);
      if cached {
        IndexAppend(files, rec);
        cache := cache[rec.id := rec];
      }
      groups, files, pages := EnsureGroup(groups, rec.fileGrp), files + [rec], PagesFor(pages, rec.pageId);
    }

    /** The force path of add_file: the new record replaces the first record
        with its ID in place, the index being off; pages only its dropped
        duplicates were on are pruned, and the new record's page stays. */
    method Replace(rec: FileRec)
      requires Valid() && !cached
      requires rec.id in IdSet(files) && Compatible(FirstWithId(files, rec.id), rec.fileGrp, rec.mimetype, rec.pageId)
      modifies this
      ensures Valid()
      ensures groups == old(groups) && agents == old(agents) && hasHeader == old(hasHeader)
      ensures files == Overwrite(old(files), rec)
      ensures pages == Prune(old(pages), PagesOf(old(files)), files)
      ensures rec.pageId.Some? ==> HasPage(pages, rec.pageId.value)
    {
      OverwriteWellFormed(groups, files, pages, rec);
      var files' := Overwrite(files, rec);
      pages := Prune(pages, PagesOf(files), files');
      files := files';
    }

    // ------------------------------------------------------------ files

    /** add_file: validates ID and group name, creates the group, then applies
        the duplicate-ID policy (default: fail; ignore: add a second record;
        force: replace a compatible record, which the cached path never does). */
    method AddFile(grp: string, id: Option<string>, mimetype: Option<string>,
                   url: Option<string>, local: Option<string>, pageId: Option<string>,
                   force: bool, ignore: bool)
      returns (r: Result<FileRec>)
      requires Valid()
      modifies this
      ensures Valid()
      ensures agents == old(agents) && hasHeader == old(hasHeader)
      ensures id.None? ==> r == Err(MissingId)
      ensures id.Some? && !Syntax.IsToken(id.value) ==> r == Err(InvalidFileId(id.value))
      ensures id.Some? && Syntax.IsToken(id.value) && !Syntax.IsToken(grp) ==> r == Err(InvalidFileGrp(grp))
      ensures !ValidArgs(grp, id) ==> groups == old(groups)
      ensures ValidArgs(grp, id) ==> groups == EnsureGroup(old(groups), grp)
      ensures r.Err? ==> files == old(files) && pages == old(pages)
      // a new ID, or ignore=True: the record is appended
      ensures ValidArgs(grp, id) && (id.value !in IdSet(old(files)) || ignore) ==>
                && r == Ok(FileRec(id.value, grp, mimetype, url, local, pageId))
                && files == old(files) + [r.value]
                && pages == PagesFor(old(pages), pageId)
      // a taken ID without ignore: fails unless force applies, never with caching on
      ensures ValidArgs(grp, id) && id.value in IdSet(old(files)) && !ignore && (!force || cached) ==>
                r == Err(FileExists(id.value))
      ensures ValidArgs(grp, id) && id.value in IdSet(old(files)) && !ignore && force && !cached &&
              !Compatible(FirstWithId(old(files), id.value), grp, mimetype, pageId) ==>
                r == Err(FileExists(id.value))
      // a compatible force: the record is overwritten, keeping its page when none is requested
      ensures ValidArgs(grp, id) && id.value in IdSet(old(files)) && !ignore && force && !cached &&
              Compatible(FirstWithId(old(files), id.value), grp, mimetype, pageId) ==>
                && r == Ok(FileRec(id.value, grp, mimetype, url, local,
                                   if pageId.Some? then pageId else FirstWithId(old(files), id.value).pageId))
                && files == Overwrite(old(files), r.value)
                && pages == Prune(old(pages), PagesOf(old(files)), files)
                && (r.value.pageId.Some? ==> HasPage(pages, r.value.pageId.value))
    {
      if id.None? { return Err(MissingId); }
      var fid := id.value;
      if !Syntax.IsToken(fid) { return Err(InvalidFileId(fid)); }
      if !Syntax.IsToken(grp) { return Err(InvalidFileGrp(grp)); }
      var rec := FileRec(fid, grp, mimetype, url, local, pageId);
      var taken: bool;
      if cached {
        taken := fid in cache;
      } else {
        taken := fid in IdSet(files);
      }
      if taken && !ignore {
        if !force || cached {
          groups := EnsureGroup(groups, grp);
          return Err(FileExists(fid));
        }
        if !Compatible(FirstWithId(files, fid), grp, mimetype, pageId) {
          groups := EnsureGroup(groups, grp);
          return Err(FileExists(fid));
        }
        var existing := FirstWithId(files, fid);
        assert existing.fileGrp in groups;
        if pageId.None? {
          rec := rec.(pageId := existing.pageId);
        }
        Replace(rec);
        return Ok(rec);
      }
      Insert(rec);
      r := Ok(rec);
    }

    /** remove_one_file: removes the record an ID lookup returns (the index's
        record with caching on, the first one with the ID otherwise) and prunes
        its page when no other record is left on it. */
    method RemoveOneFile(id: string) returns (r: Result<FileRec>)
      requires Valid()
      modifies this
      ensures Valid()
      ensures groups == old(groups) && agents == old(agents) && hasHeader == old(hasHeader)
      ensures id !in IdSet(old(files)) ==>
                r == Err(FileNotFound(id)) && files == old(files) && pages == old(pages)
      ensures id in IdSet(old(files)) && !cached ==>
                && r == Ok(FirstWithId(old(files), id))
                && files == DropFirstId(old(files), id)
                && pages == Prune(old(pages), PagesOf(old(files)), files)
      ensures id in IdSet(old(files)) && cached ==>
                && r == Ok(old(cache)[id])
                && r.value == old(files)[LastIndex(old(files), id)]
                && files == DropLastId(old(files), id)
                && pages == Prune(old(pages), PagesOf(old(files)), files)
    {
      if cached {
        if id !in cache { return Err(FileNotFound(id)); }
        var victim := cache[id];
        IndexIsLastWithId(files, id);
        Retain(groups, DropLastId(files, id));
        r := Ok(victim);
      } else {
        if id !in IdSet(files) { return Err(FileNotFound(id)); }
        var victim := FirstWithId(files, id);
        Retain(groups, DropFirstId(files, id));
        r := Ok(victim);
      }
    }

    /** remove_file(pattern): removes every record whose ID the pattern matches
        (exact, "//" regex, comma OR-list), pruning emptied pages; a pattern
        matching nothing removes nothing. */
    method RemoveFile(pattern: string, re: Query.Matcher) returns (removed: seq<FileRec>)
      requires Valid()
      modifies this
      ensures Valid()
      ensures groups == old(groups) && agents == old(agents) && hasHeader == old(hasHeader)
      ensures removed == Query.FindAllFiles(old(files), Query.IdFilter(pattern), old(pages), re)
      ensures files == Query.RejectAll(old(files), Query.IdFilter(pattern), old(pages), re)
      ensures pages == Prune(old(pages), PagesOf(old(files)), files)
      ensures removed == [] ==> files == old(files) && pages == old(pages)
    {
      var q := Query.IdFilter(pattern);
      removed := Query.FindAllFiles(files, q, pages, re);
      if removed == [] {
        Query.NothingFoundKeepsAll(files, q, pages, re);
        Structure.PruneNothing(pages, files);
      }
      Retain(groups, Query.RejectAll(files, q, pages, re));
    }

    // ------------------------------------------------------------ pages

    /** set_physical_page_for_file: links the file to the page, creating the page
        with the given order when it does not exist, and drops its old link. */
    method SetPhysicalPageForFile(pageId: string, fileId: string, order: Option<int>)
      requires Valid()
      modifies this
      ensures Valid()
      ensures groups == old(groups) && agents == old(agents) && hasHeader == old(hasHeader)
      ensures pages == EnsurePage(old(pages), pageId, order)
      ensures files == SetPage(old(files), fileId, pageId)
    {
      var pages' := EnsurePage(pages, pageId, order);
      var files' := SetPage(files, fileId, pageId);
      forall f | f in files' ensures f.fileGrp in groups && (f.pageId.Some? ==> HasPage(pages', f.pageId.value)) {
        var i :| 0 <= i < |files'| && files'[i] == f;
        assert files[i] in files;
      }
      pages := pages';
      files := files';
      cache := if cached then Index(files') else map[];
    }

    /** remove_physical_page: deletes the page; its records become page-less. */
    method RemovePhysicalPage(pageId: string)
      requires Valid()
      modifies this
      ensures Valid()
      ensures groups == old(groups) && agents == old(agents) && hasHeader == old(hasHeader)
      ensures pages == DropPage(old(pages), pageId)
      ensures files == ClearPage(old(files), pageId)
    {
      var pages' := DropPage(pages, pageId);
      var files' := ClearPage(files, pageId);
      forall f | f in files' ensures f.fileGrp in groups && (f.pageId.Some? ==> HasPage(pages', f.pageId.value)) {
        var i :| 0 <= i < |files'| && files'[i] == f;
        assert files[i] in files;
        if f.pageId.Some? {
          var p :| p in pages && p.id == f.pageId.value;
          assert p in pages';
        }
      }
      pages := pages';
      files := files';
      cache := if cached then Index(files') else map[];
    }

    /** remove_physical_page_fptr: unlinks the file from its page; the page stays,
        even when it is left empty. */
    method RemovePhysicalPageFptr(fileId: string)
      requires Valid()
      modifies this
      ensures Valid()
      ensures groups == old(groups) && agents == old(agents) && hasHeader == old(hasHeader)
      ensures pages == old(pages)
      ensures files == ClearFptr(old(files), fileId)
    {
      var files' := ClearFptr(files, fileId);
      forall f | f in files' ensures f.fileGrp in groups && (f.pageId.Some? ==> HasPage(pages, f.pageId.value)) {
        var i :| 0 <= i < |files'| && files'[i] == f;
        assert files[i] in files;
      }
      files := files';
      cache := if cached then Index(files') else map[];
    }

    // ------------------------------------------------------------ header

    /** add_agent: appends an agent, creating the metsHdr on first use. */
    method AddAgent()
      requires Valid()
      modifies this
      ensures Valid()
      ensures agents == old(agents) + 1 && hasHeader
      ensures groups == old(groups) && files == old(files) && pages == old(pages) && cache == old(cache)
    {
      agents := agents + 1;
      hasHeader := true;
    }
  }

  /** find_files(ID=x): without caching every record with that ID is found;
      with caching at most one, the one the index holds. */
  lemma IdLookupCounts(m: Mets, id: string, re: Query.Matcher)
    requires m.Valid() && Syntax.IsToken(id)
    ensures !m.cached ==> |m.FindAllFiles(Query.IdFilter(id), re)| == |WithId(m.files, id)|
    ensures m.cached ==> |m.FindAllFiles(Query.IdFilter(id), re)| == if id in IdSet(m.files) then 1 else 0
  {
    var v := m.View(Query.IdFilter(id));
    var d := DocOrder(m.groups, v);
    DocOrderIsPermutation(m.groups, v);
    Query.FindById(d, id, m.pages, re);
    WithIdPermutation(d, v, id);
    if m.cached {
      CachedLookupIsSingle(m.files, id);
    }
  }

  /** With caching on, find_files(ID=x) returns the one record the index holds,
      the last one with that ID: the record remove_one_file then removes. */
  lemma CachedLookupIsIndexed(m: Mets, id: string, re: Query.Matcher)
    requires m.Valid() && m.cached && Syntax.IsToken(id) && id in IdSet(m.files)
    ensures m.FindAllFiles(Query.IdFilter(id), re) == [m.cache[id]]
    ensures m.cache[id] == m.files[LastIndex(m.files, id)]
  {
    var v := m.View(Query.IdFilter(id));
    assert m.cache[id] in v;
    var d := DocOrder(m.groups, v);
    DocOrderIsPermutation(m.groups, v);
    SameMembers(d, v);
    Query.FindById(d, id, m.pages, re);
    WithIdPermutation(d, v, id);
    CachedLookupIsSingle(m.files, id);
    LoneWithId(d, m.cache[id], id);
    IndexIsLastWithId(m.files, id);
  }
}
