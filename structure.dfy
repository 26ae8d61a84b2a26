/** The document's state as values: file groups, file records and physical pages,
    the well-formedness they keep, the cache/index projected from them, the
    document order queries return, and page pruning. */
module Structure {
  import opened Records
  import opened Seqs

  // ---------------------------------------------------------------- well-formedness

  function PageIds(pages: seq<Page>): (ids: seq<string>)
    ensures |ids| == |pages|
    ensures forall i :: 0 <= i < |pages| ==> ids[i] == pages[i].id
  {
    seq(|pages|, i requires 0 <= i < |pages| => pages[i].id)
  }

  predicate HasPage(pages: seq<Page>, pid: string)
  {
    exists p :: p in pages && p.id == pid
  }

  predicate PagesDistinct(pages: seq<Page>)
  {
    forall i, j :: 0 <= i < j < |pages| ==> pages[i].id != pages[j].id
  }

  /** Group names are unique, page IDs are unique, every record sits in a
      declared group, and every page pointer leads to an existing page. */
  predicate WellFormed(groups: seq<string>, files: seq<FileRec>, pages: seq<Page>)
  {
    && Distinct(groups)
    && PagesDistinct(pages)
    && (forall f :: f in files ==> f.fileGrp in groups)
    && (forall f :: f in files && f.pageId.Some? ==> HasPage(pages, f.pageId.value))
  }

  lemma {:induction false} FilterPagesDistinct(pages: seq<Page>, keep: Page -> bool)
    requires PagesDistinct(pages)
    ensures PagesDistinct(Filter(pages, keep))
  {
    if pages != [] {
      FilterPagesDistinct(pages[1..], keep);
      var rest := Filter(pages[1..], keep);
      if keep(pages[0]) {
        var r := [pages[0]] + rest;
        forall i, j | 0 <= i < j < |r| ensures r[i].id != r[j].id {
          if i == 0 {
            assert r[j] == rest[j - 1] && r[j] in pages[1..];
            var k :| 0 <= k < |pages[1..]| && pages[1..][k] == r[j];
            assert pages[k + 1] == r[j];
          } else {
            assert r[i] == rest[i - 1] && r[j] == rest[j - 1];
          }
        }
      }
    }
  }

  /** Appends a page unless one with that ID exists (implicit page creation). */
  function EnsurePage(pages: seq<Page>, pid: string, order: Option<int>): (r: seq<Page>)
    requires PagesDistinct(pages)
    ensures PagesDistinct(r) && HasPage(r, pid)
    ensures forall p :: p in pages ==> p in r
    ensures HasPage(pages, pid) ==> r == pages
    ensures !HasPage(pages, pid) ==> r == pages + [Page(pid, order)]
  {
    if exists p :: p in pages && p.id == pid then pages
    else
      var r := pages + [Page(pid, order)];
      assert r[|pages|] == Page(pid, order);
      assert forall i :: 0 <= i < |pages| ==> r[i] == pages[i] && pages[i] in pages;
      r
  }

  /** Appends a group name unless it is already declared (idempotent creation). */
  function EnsureGroup(groups: seq<string>, name: string): (r: seq<string>)
    requires Distinct(groups)
    ensures Distinct(r) && name in r
    ensures forall g :: g in r <==> g in groups || g == name
    ensures name in groups ==> r == groups
    ensures name !in groups ==> r == groups + [name]
  {
    if name in groups then groups
    else
      var r := groups + [name];
      assert r[|groups|] == name;
      assert forall i :: 0 <= i < |groups| ==> r[i] == groups[i] && groups[i] in groups;
      r
  }

  // ---------------------------------------------------------------- the cache/index

  function IdSet(files: seq<FileRec>): set<string>
  {
    set f | f in files :: f.id
  }

  lemma IdSetCons(files: seq<FileRec>)
    requires files != []
    ensures IdSet(files) == {files[0].id} + IdSet(files[1..])
  {
    assert forall f :: f in files <==> f == files[0] || f in files[1..];
  }

  /** One step of building the index from the back: a record enters only when no
      later record has taken its ID. */
  function Enter(m: map<string, FileRec>, f: FileRec): map<string, FileRec>
  {
    if f.id in m then m else m[f.id := f]
  }

  /** Entering an earlier record commutes with pointing an ID at the newest one. */
  lemma EnterUnderUpdate(m: map<string, FileRec>, f: FileRec, r: FileRec)
    ensures Enter(m[r.id := r], f) == Enter(m, f)[r.id := r]
  {
    if f.id !in m && f.id != r.id {
      assert m[r.id := r][f.id := f] == m[f.id := f][r.id := r];
    }
  }

  /** The ID lookup the cache keeps: each ID maps to the LAST record carrying it
      (an `ignore` duplicate hides the earlier record). */
  function Index(files: seq<FileRec>): (m: map<string, FileRec>)
    ensures m.Keys == IdSet(files)
    ensures forall id :: id in m ==> m[id] in files && m[id].id == id
  {
    if files == [] then map[]
    else
      IdSetCons(files);
      Enter(Index(files[1..]), files[0])
  }

  /** Inserting a record points its ID at it, leaving every other ID alone. */
  lemma {:induction false} IndexAppend(files: seq<FileRec>, r: FileRec)
    ensures Index(files + [r]) == Index(files)[r.id := r]
  {
    if files == [] {
      assert [] + [r] == [r];
      assert [r][1..] == [];
    } else {
      var t := files + [r];
      assert t[0] == files[0] && t[1..] == files[1..] + [r];
      IndexAppend(files[1..], r);
      EnterUnderUpdate(Index(files[1..]), files[0], r);
    }
  }

  /** The index maps each ID to a record that no later record with the same ID follows. */
  lemma {:induction false} IndexIsLast(files: seq<FileRec>, id: string)
    requires id in IdSet(files)
    ensures exists i :: 0 <= i < |files| && files[i] == Index(files)[id] &&
              forall j :: i < j < |files| ==> files[j].id != id
  {
    IdSetCons(files);
    var t := files[1..];
    var m := Index(t);
    if id in IdSet(t) {
      IndexIsLast(t, id);
      assert Index(files)[id] == m[id];
      var i :| 0 <= i < |t| && t[i] == m[id] && forall j :: i < j < |t| ==> t[j].id != id;
      assert files[i + 1] == t[i];
      forall j | i + 1 < j < |files| ensures files[j].id != id {
        assert files[j] == t[j - 1];
      }
    } else {
      assert Index(files)[id] == files[0];
      forall j | 0 < j < |files| ensures files[j].id != id {
        assert files[j] == t[j - 1] && t[j - 1] in t;
      }
    }
  }

  /** The records the cached path can see: for each ID only its last record. */
  function KeepLast(files: seq<FileRec>): (r: seq<FileRec>)
    ensures forall x :: x in r ==> x in files
  {
    if files == [] then []
    else if files[0].id in IdSet(files[1..]) then KeepLast(files[1..])
    else [files[0]] + KeepLast(files[1..])
  }

  /** The cached view holds exactly the index's records. */
  lemma {:induction false} KeepLastIsIndex(files: seq<FileRec>)
    ensures forall x :: x in KeepLast(files) <==> x.id in Index(files) && Index(files)[x.id] == x
  {
    if files != [] {
      KeepLastIsIndex(files[1..]);
      IdSetCons(files);
      var f0 := files[0];
      var m := Index(files[1..]);
      if f0.id !in IdSet(files[1..]) {
        assert KeepLast(files) == [f0] + KeepLast(files[1..]);
        assert Index(files) == m[f0.id := f0];
        forall x ensures x in KeepLast(files) <==> x.id in Index(files) && Index(files)[x.id] == x {
          if x.id == f0.id {
            assert x !in KeepLast(files[1..]);
          }
        }
      } else {
        assert KeepLast(files) == KeepLast(files[1..]);
        assert Index(files) == m;
      }
    }
  }

  /** No two records share an ID (what a sound document has). */
  predicate UniqueIds(files: seq<FileRec>)
  {
    forall i, j :: 0 <= i < j < |files| ==> files[i].id != files[j].id
  }

  /** With unique IDs, the tail has unique IDs and does not use the head's ID. */
  lemma UniqueTail(files: seq<FileRec>)
    requires files != [] && UniqueIds(files)
    ensures UniqueIds(files[1..]) && files[0].id !in IdSet(files[1..])
  {
    var t := files[1..];
    forall i, j | 0 <= i < j < |t| ensures t[i].id != t[j].id {
      assert t[i] == files[i + 1] && t[j] == files[j + 1];
    }
    forall k | 0 <= k < |t| ensures t[k].id != files[0].id {
      assert t[k] == files[k + 1];
    }
  }

  /** Prepending a record with an unused ID keeps IDs unique. */
  lemma UniqueCons(x: FileRec, s: seq<FileRec>)
    requires UniqueIds(s) && x.id !in IdSet(s)
    ensures UniqueIds([x] + s)
  {
    var r := [x] + s;
    forall i, j | 0 <= i < j < |r| ensures r[i].id != r[j].id {
      assert r[j] == s[j - 1] && s[j - 1] in s;
      if i > 0 {
        assert r[i] == s[i - 1];
      }
    }
  }

  /** The cached view holds one record per ID. */
  lemma {:induction false} KeepLastDistinct(files: seq<FileRec>)
    ensures UniqueIds(KeepLast(files))
  {
    if files != [] {
      KeepLastDistinct(files[1..]);
      var rest := KeepLast(files[1..]);
      if files[0].id !in IdSet(files[1..]) {
        forall f | f in rest ensures f.id != files[0].id {
          assert f in files[1..];
        }
        UniqueCons(files[0], rest);
      }
    }
  }

  /** The records with a given ID, in order. */
  function WithId(files: seq<FileRec>, id: string): (r: seq<FileRec>)
    ensures forall x :: x in r <==> x in files && x.id == id
  {
    if files == [] then []
    else
      assert forall x :: x in files <==> x == files[0] || x in files[1..];
      if files[0].id == id then [files[0]] + WithId(files[1..], id) else WithId(files[1..], id)
  }

  /** When IDs are unique the cached view is the whole record list. */
  lemma {:induction false} KeepLastOfUnique(files: seq<FileRec>)
    requires UniqueIds(files)
    ensures KeepLast(files) == files
  {
    if files != [] {
      UniqueTail(files);
      KeepLastOfUnique(files[1..]);
      assert files == [files[0]] + files[1..];
    }
  }

  /** Removing records keeps IDs unique. */
  lemma {:induction false} FilterUniqueIds(files: seq<FileRec>, keep: FileRec -> bool)
    requires UniqueIds(files)
    ensures UniqueIds(Filter(files, keep))
  {
    if files != [] {
      UniqueTail(files);
      FilterUniqueIds(files[1..], keep);
      var rest := Filter(files[1..], keep);
      if keep(files[0]) {
        forall f | f in rest ensures f.id != files[0].id {
          assert f in files[1..];
        }
        UniqueCons(files[0], rest);
      }
    }
  }

  /** An ID lookup on the cached view finds one record when the ID exists, none otherwise. */
  lemma {:induction false} CachedLookupIsSingle(files: seq<FileRec>, id: string)
    ensures |WithId(KeepLast(files), id)| == if id in IdSet(files) then 1 else 0
  {
    if files != [] {
      IdSetCons(files);
      CachedLookupIsSingle(files[1..], id);
      if files[0].id !in IdSet(files[1..]) {
        WithIdAppend([files[0]], KeepLast(files[1..]), id);
      }
    }
  }

  /** An ID lookup that finds one record finds the record known to carry the ID. */
  lemma LoneWithId(files: seq<FileRec>, rec: FileRec, id: string)
    requires |WithId(files, id)| == 1 && rec in files && rec.id == id
    ensures WithId(files, id) == [rec]
  {
    var w := WithId(files, id);
    assert w[0] in w && rec in w;
  }

  /** On the full record list, an ID lookup finds every record with that ID. */
  lemma {:induction false} WithIdAppend(a: seq<FileRec>, b: seq<FileRec>, id: string)
    ensures WithId(a + b, id) == WithId(a, id) + WithId(b, id)
  {
    if a == [] {
      assert a + b == b;
    } else {
      assert (a + b)[1..] == a[1..] + b;
      WithIdAppend(a[1..], b, id);
    }
  }

  /** WithId keeps every copy of a matching record and nothing else. */
  lemma {:induction false} WithIdMultiset(files: seq<FileRec>, id: string)
    ensures forall x :: multiset(WithId(files, id))[x] == if x.id == id then multiset(files)[x] else 0
  {
    if files != [] {
      WithIdMultiset(files[1..], id);
      assert files == [files[0]] + files[1..];
    }
  }

  /** Reordering the records does not change how many carry an ID. */
  lemma WithIdPermutation(a: seq<FileRec>, b: seq<FileRec>, id: string)
    requires multiset(a) == multiset(b)
    ensures |WithId(a, id)| == |WithId(b, id)|
  {
    WithIdMultiset(a, id);
    WithIdMultiset(b, id);
    assert multiset(WithId(a, id)) == multiset(WithId(b, id));
    assert |multiset(WithId(a, id))| == |multiset(WithId(b, id))|;
  }

  // ---------------------------------------------------------------- document order

  function GroupFiles(files: seq<FileRec>, g: string): seq<FileRec>
  {
    if files == [] then []
    else if files[0].fileGrp == g then [files[0]] + GroupFiles(files[1..], g)
    else GroupFiles(files[1..], g)
  }

  function OtherFiles(files: seq<FileRec>, g: string): seq<FileRec>
  {
    if files == [] then []
    else if files[0].fileGrp == g then OtherFiles(files[1..], g)
    else [files[0]] + OtherFiles(files[1..], g)
  }

  /** The order the tree is traversed in: groups in declaration order, records
      within a group in insertion order. */
  function DocOrder(groups: seq<string>, files: seq<FileRec>): seq<FileRec>
  {
    if groups == [] then []
    else GroupFiles(files, groups[0]) + DocOrder(groups[1..], files)
  }

  lemma {:induction false} SplitByGroup(files: seq<FileRec>, g: string)
    ensures multiset(files) == multiset(GroupFiles(files, g)) + multiset(OtherFiles(files, g))
    ensures forall f :: f in OtherFiles(files, g) ==> f in files && f.fileGrp != g
  {
    if files != [] {
      SplitByGroup(files[1..], g);
      assert files == [files[0]] + files[1..];
    }
  }

  lemma {:induction false} GroupFilesOfOthers(files: seq<FileRec>, g: string, h: string)
    requires g != h
    ensures GroupFiles(OtherFiles(files, g), h) == GroupFiles(files, h)
  {
    if files != [] {
      GroupFilesOfOthers(files[1..], g, h);
    }
  }

  lemma {:induction false} DocOrderOfOthers(groups: seq<string>, files: seq<FileRec>, g: string)
    requires g !in groups
    ensures DocOrder(groups, OtherFiles(files, g)) == DocOrder(groups, files)
  {
    if groups != [] {
      GroupFilesOfOthers(files, g, groups[0]);
      DocOrderOfOthers(groups[1..], files, g);
    }
  }

  lemma SameMembers(a: seq<FileRec>, b: seq<FileRec>)
    requires multiset(a) == multiset(b)
    ensures forall x :: x in a <==> x in b
  {
    forall x ensures x in a <==> x in b {
      assert x in a <==> x in multiset(a);
      assert x in b <==> x in multiset(b);
    }
  }

  lemma HeadIsMember(files: seq<FileRec>)
    ensures files != [] ==> files[0] in files
  {
  }

  /** In a well-formed document, traversal order lists every record exactly once. */
  lemma {:induction false} DocOrderIsPermutation(groups: seq<string>, files: seq<FileRec>)
    requires Distinct(groups)
    requires forall f :: f in files ==> f.fileGrp in groups
    ensures multiset(DocOrder(groups, files)) == multiset(files)
  {
    if groups == [] {
      HeadIsMember(files);
    } else {
      var g := groups[0];
      var others := OtherFiles(files, g);
      SplitByGroup(files, g);
      assert g !in groups[1..] by {
        forall j | 0 <= j < |groups[1..]| ensures groups[1..][j] != g { assert groups[1..][j] == groups[j + 1]; }
      }
      DocOrderOfOthers(groups[1..], files, g);
      assert Distinct(groups[1..]) by {
        forall i, j | 0 <= i < j < |groups[1..]| ensures groups[1..][i] != groups[1..][j] {
          assert groups[1..][i] == groups[i + 1] && groups[1..][j] == groups[j + 1];
        }
      }
      forall f | f in others ensures f.fileGrp in groups[1..] {
        assert f.fileGrp in groups && f.fileGrp != g;
      }
      DocOrderIsPermutation(groups[1..], others);
    }
  }

  // ---------------------------------------------------------------- page pruning

  predicate Hosts(files: seq<FileRec>, pid: string)
  {
    exists f :: f in files && f.pageId == Some(pid)
  }

  /** Drops those candidate pages that no remaining record points to: what
      removing files does to the pages they were on. */
  function Prune(pages: seq<Page>, candidates: set<string>, files: seq<FileRec>): (r: seq<Page>)
    ensures forall p :: p in r <==> p in pages && (p.id in candidates ==> Hosts(files, p.id))
    ensures PagesDistinct(pages) ==> PagesDistinct(r)
  {
    var keep := Survives(candidates, files);
    if PagesDistinct(pages) then FilterPagesDistinct(pages, keep); Filter(pages, keep)
    else Filter(pages, keep)
  }

  /** A page survives pruning unless it is a candidate no record points to. */
  function Survives(candidates: set<string>, files: seq<FileRec>): Page -> bool
  {
    (p: Page) => p.id in candidates ==> Hosts(files, p.id)
  }

  /** The pages a set of records points to. */
  function PagesOf(files: seq<FileRec>): set<string>
  {
    set f | f in files && f.pageId.Some? :: f.pageId.value
  }

  /** Pruning with nothing removed keeps every page. */
  lemma PruneNothing(pages: seq<Page>, files: seq<FileRec>)
    ensures Prune(pages, PagesOf(files), files) == pages
  {
    var keep := Survives(PagesOf(files), files);
    forall p | p in pages ensures keep(p) {
      if p.id in PagesOf(files) {
        var f :| f in files && f.pageId.Some? && f.pageId.value == p.id;
      }
    }
    FilterAll(pages, keep);
  }

  /** Removing records and pruning the pages they left empty keeps the document
      well-formed, as long as the groups of the remaining records survive. */
  lemma PruneWellFormed(groups: seq<string>, files: seq<FileRec>, pages: seq<Page>,
                        groups': seq<string>, files': seq<FileRec>, candidates: set<string>)
    requires WellFormed(groups, files, pages)
    requires Distinct(groups')
    requires forall f :: f in files' ==> f in files && f.fileGrp in groups'
    ensures WellFormed(groups', files', Prune(pages, candidates, files'))
  {
    var r := Prune(pages, candidates, files');
    forall f | f in files' && f.pageId.Some? ensures HasPage(r, f.pageId.value) {
      var p :| p in pages && p.id == f.pageId.value;
      assert Hosts(files', p.id);
      assert p in r;
    }
  }
}
