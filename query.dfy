/** The filter mini-language of find_all_files and its evaluation over a sequence
    of file records. Each filter field holds a comma-separated OR-list of tokens:
    a token starting with "//" is a regular expression, on the page field a token
    "A..B" is an inclusive page range by ORDER, and any other token must equal the
    field value. Supplied fields are AND-combined. */
module Query {
  import opened Records
  import Syntax
  import opened Structure

  /** The regular-expression engine, left abstract: `re(pattern, value)` says
      whether `pattern` matches `value`. Whether matching is anchored is not
      decided here. */
  type Matcher = (string, string) -> bool

  // ---------------------------------------------------------------- tokens

  /** Splits on every ',' (an empty string gives one empty token). */
  function SplitComma(s: string): (parts: seq<string>)
    ensures |parts| >= 1
    ensures forall i :: 0 <= i < |parts| ==> ',' !in parts[i]
  {
    if s == [] then [""]
    else
      var rest := SplitComma(s[1..]);
      if s[0] == ',' then [""] + rest
      else [[s[0]] + rest[0]] + rest[1..]
  }

  /** Joins tokens with ','; the inverse of SplitComma. */
  function Join(parts: seq<string>): string
    requires |parts| >= 1
  {
    if |parts| == 1 then parts[0] else parts[0] + "," + Join(parts[1..])
  }

  lemma {:induction false} JoinSplit(s: string)
    ensures Join(SplitComma(s)) == s
  {
    if s != [] {
      var rest := SplitComma(s[1..]);
      JoinSplit(s[1..]);
      if s[0] == ',' {
        assert SplitComma(s) == [""] + rest;
        assert Join([""] + rest) == "" + "," + Join(rest);
        assert s == [s[0]] + s[1..];
      } else {
        var parts := [[s[0]] + rest[0]] + rest[1..];
        assert SplitComma(s) == parts;
        if |rest| == 1 {
          assert Join(rest) == rest[0];
        } else {
          assert parts[1..] == rest[1..];
          assert Join(rest) == rest[0] + "," + Join(rest[1..]);
        }
        assert Join(parts) == [s[0]] + Join(rest);
        assert s == [s[0]] + s[1..];
      }
    }
  }

  /** A string without ',' is a single token. */
  lemma {:induction false} SplitNoComma(s: string)
    requires ',' !in s
    ensures SplitComma(s) == [s]
  {
    if s != [] {
      assert ',' !in s[1..] by {
        forall i | 0 <= i < |s[1..]| ensures s[1..][i] != ',' { assert s[1..][i] == s[i + 1]; }
      }
      SplitNoComma(s[1..]);
      assert s == [s[0]] + s[1..];
    }
  }

  /** The first token of an OR-list ends at the first ','. */
  lemma {:induction false} SplitOr(a: string, b: string)
    requires ',' !in a
    ensures SplitComma(a + "," + b) == [a] + SplitComma(b)
  {
    if a == [] {
      assert a + "," + b == [','] + b;
      assert (a + "," + b)[1..] == b;
    } else {
      var t := a + "," + b;
      assert t[1..] == a[1..] + "," + b;
      assert ',' !in a[1..] by {
        forall i | 0 <= i < |a[1..]| ensures a[1..][i] != ',' { assert a[1..][i] == a[i + 1]; }
      }
      SplitOr(a[1..], b);
      assert t[0] == a[0] && a[0] != ',';
      assert a == [a[0]] + a[1..];
    }
  }

  /** Position of the first "..", or |t| when there is none. */
  function DotsAt(t: string): (k: nat)
    ensures k <= |t|
    ensures k < |t| ==> k + 1 < |t| && t[k] == '.' && t[k + 1] == '.'
    ensures forall j :: 0 <= j < k && j + 1 < |t| ==> !(t[j] == '.' && t[j + 1] == '.')
  {
    if |t| < 2 then |t|
    else if t[0] == '.' && t[1] == '.' then 0
    else
      var k := DotsAt(t[1..]);
      assert forall j :: 1 <= j < |t| ==> t[j] == t[1..][j - 1];
      if k == |t| - 1 then |t| else k + 1
  }

  datatype Token = Exact(value: string) | Regex(pattern: string) | Range(first: string, last: string)

  /** Classifies one token; `ranges` is set only for the page field. */
  function ParseToken(t: string, ranges: bool): (tok: Token)
    ensures tok.Regex? <==> |t| >= 2 && t[..2] == "//"
    ensures tok.Regex? ==> "//" + tok.pattern == t
    ensures tok.Range? ==> ranges && tok.first + ".." + tok.last == t && DotsAt(t) == |tok.first|
    ensures tok.Exact? ==> tok.value == t && (ranges ==> DotsAt(t) == |t|)
  {
    if |t| >= 2 && t[0] == '/' && t[1] == '/' then Regex(t[2..])
    else if ranges && DotsAt(t) < |t| then Range(t[..DotsAt(t)], t[DotsAt(t) + 2..])
    else Exact(t)
  }

  // ---------------------------------------------------------------- page ranges

  /** The ORDER of the first page with this ID, if the page exists and has one. */
  function OrderOf(pages: seq<Page>, id: string): Option<int>
  {
    if pages == [] then None
    else if pages[0].id == id then pages[0].order
    else OrderOf(pages[1..], id)
  }

  predicate Within(order: Option<int>, lo: int, hi: int)
  {
    order.Some? && lo <= order.value <= hi
  }

  /** IDs of the pages whose order lies in [lo, hi], in structMap order. */
  function IdsWithin(pages: seq<Page>, lo: int, hi: int): (ids: seq<string>)
    ensures forall v :: v in ids <==> exists p :: p in pages && p.id == v && Within(p.order, lo, hi)
  {
    if pages == [] then []
    else
      var rest := IdsWithin(pages[1..], lo, hi);
      assert forall p :: p in pages <==> p == pages[0] || p in pages[1..];
      if Within(pages[0].order, lo, hi) then [pages[0].id] + rest else rest
  }

  /** The concrete page IDs a range token "A..B" stands for: every page whose
      order lies between A's and B's, inclusive. Unknown or unordered endpoints
      give no page. */
  function ExpandRange(pages: seq<Page>, a: string, b: string): (ids: seq<string>)
    ensures forall v :: v in ids <==>
              OrderOf(pages, a).Some? && OrderOf(pages, b).Some? &&
              exists p :: p in pages && p.id == v && Within(p.order, OrderOf(pages, a).value, OrderOf(pages, b).value)
  {
    match (OrderOf(pages, a), OrderOf(pages, b))
    case (Some(lo), Some(hi)) => IdsWithin(pages, lo, hi)
    case _ => []
  }

  // ---------------------------------------------------------------- matching

  predicate TokenMatches(tok: Token, v: string, pages: seq<Page>, re: Matcher)
  {
    match tok
    case Exact(x) => v == x
    case Regex(p) => re(p, v)
    case Range(a, b) => v in ExpandRange(pages, a, b)
  }

  predicate AnyToken(tokens: seq<string>, v: string, ranges: bool, pages: seq<Page>, re: Matcher)
  {
    exists i :: 0 <= i < |tokens| && TokenMatches(ParseToken(tokens[i], ranges), v, pages, re)
  }

  /** An absent filter matches everything; a present one needs a value that one
      of its tokens matches. */
  predicate FieldMatches(filter: Option<string>, value: Option<string>, ranges: bool,
                         pages: seq<Page>, re: Matcher)
  {
    filter.None? || (value.Some? && AnyToken(SplitComma(filter.value), value.value, ranges, pages, re))
  }

  /** The keyword arguments of find_all_files. */
  datatype Filters = Filters(
    fileGrp: Option<string>,
    id: Option<string>,
    pageId: Option<string>,
    mimetype: Option<string>,
    url: Option<string>,
    localFilename: Option<string>,
    localOnly: bool)

  const NoFilters := Filters(None, None, None, None, None, None, false)

  function IdFilter(id: string): Filters
  {
    NoFilters.(id := Some(id))
  }

  /** Every supplied criterion holds of `f`. */
  predicate Matches(q: Filters, f: FileRec, pages: seq<Page>, re: Matcher)
    ensures q == NoFilters ==> Matches(q, f, pages, re)
    ensures Matches(q, f, pages, re) && q.localOnly ==> f.local.Some?
    ensures Matches(q, f, pages, re) && q.pageId.Some? ==> f.pageId.Some?
  {
    && FieldMatches(q.fileGrp, Some(f.fileGrp), false, pages, re)
    && FieldMatches(q.id, Some(f.id), false, pages, re)
    && FieldMatches(q.pageId, f.pageId, true, pages, re)
    && FieldMatches(q.mimetype, f.mimetype, false, pages, re)
    && FieldMatches(q.url, f.url, false, pages, re)
    && FieldMatches(q.localFilename, f.local, false, pages, re)
    && (q.localOnly ==> f.local.Some?)
  }

  /** The matching records, in the order given. */
  function FindAllFiles(files: seq<FileRec>, q: Filters, pages: seq<Page>, re: Matcher): (r: seq<FileRec>)
    ensures |r| <= |files|
    ensures forall x :: x in r <==> x in files && Matches(q, x, pages, re)
    ensures multiset(r) <= multiset(files)
  {
    if files == [] then []
    else
      var rest := FindAllFiles(files[1..], q, pages, re);
      assert files == [files[0]] + files[1..];
      if Matches(q, files[0], pages, re) then [files[0]] + rest else rest
  }

  // ---------------------------------------------------------------- properties

  /** Without filters every record is returned, once, in order. */
  lemma {:induction false} NoFiltersReturnsAll(files: seq<FileRec>, pages: seq<Page>, re: Matcher)
    ensures FindAllFiles(files, NoFilters, pages, re) == files
  {
    if files != [] {
      NoFiltersReturnsAll(files[1..], pages, re);
      assert Matches(NoFilters, files[0], pages, re);
    }
  }

  /** A query every record passes returns every record, in order. */
  lemma {:induction false} AllMatchReturnsAll(files: seq<FileRec>, q: Filters, pages: seq<Page>, re: Matcher)
    requires forall x :: x in files ==> Matches(q, x, pages, re)
    ensures FindAllFiles(files, q, pages, re) == files
  {
    if files != [] {
      assert files[0] in files;
      AllMatchReturnsAll(files[1..], q, pages, re);
    }
  }

  /** Results keep document order: querying a concatenation concatenates the results. */
  lemma {:induction false} FindAllAppend(a: seq<FileRec>, b: seq<FileRec>, q: Filters, pages: seq<Page>, re: Matcher)
    ensures FindAllFiles(a + b, q, pages, re) == FindAllFiles(a, q, pages, re) + FindAllFiles(b, q, pages, re)
  {
    if a == [] {
      assert a + b == b;
    } else {
      var ab := a + b;
      assert ab[0] == a[0] && ab[1..] == a[1..] + b;
      FindAllAppend(a[1..], b, q, pages, re);
    }
  }

  /** A filter holding a single token means that token. */
  lemma SingleToken(t: string, v: string, ranges: bool, pages: seq<Page>, re: Matcher)
    requires ',' !in t
    ensures FieldMatches(Some(t), Some(v), ranges, pages, re) <==> TokenMatches(ParseToken(t, ranges), v, pages, re)
  {
    SplitNoComma(t);
    assert [t][0] == t;
  }

  /** A list with one more token in front matches when that token or the rest does. */
  lemma AnyTokenCons(t: string, rest: seq<string>, v: string, ranges: bool, pages: seq<Page>, re: Matcher)
    ensures AnyToken([t] + rest, v, ranges, pages, re) <==>
              TokenMatches(ParseToken(t, ranges), v, pages, re) || AnyToken(rest, v, ranges, pages, re)
  {
    var all := [t] + rest;
    assert all[0] == t;
    if AnyToken(rest, v, ranges, pages, re) {
      var i :| 0 <= i < |rest| && TokenMatches(ParseToken(rest[i], ranges), v, pages, re);
      assert all[i + 1] == rest[i];
    }
    if AnyToken(all, v, ranges, pages, re) {
      var i :| 0 <= i < |all| && TokenMatches(ParseToken(all[i], ranges), v, pages, re);
      if i > 0 {
        assert all[i] == rest[i - 1];
      }
    }
  }

  /** OR within a field: "a,b" matches exactly when "a" or "b" does. */
  lemma OrList(a: string, b: string, value: Option<string>, ranges: bool, pages: seq<Page>, re: Matcher)
    requires ',' !in a
    ensures FieldMatches(Some(a + "," + b), value, ranges, pages, re)
        <==> FieldMatches(Some(a), value, ranges, pages, re) || FieldMatches(Some(b), value, ranges, pages, re)
  {
    SplitOr(a, b);
    SplitNoComma(a);
    if value.Some? {
      AnyTokenCons(a, SplitComma(b), value.value, ranges, pages, re);
      AnyTokenCons(a, [], value.value, ranges, pages, re);
      assert [a] + [] == [a];
      assert !AnyToken([], value.value, ranges, pages, re);
    }
  }

  /** A "//" token is a regular expression on the value. */
  lemma RegexToken(p: string, v: string, ranges: bool, pages: seq<Page>, re: Matcher)
    requires ',' !in p
    ensures FieldMatches(Some("//" + p), Some(v), ranges, pages, re) <==> re(p, v)
  {
    var t := "//" + p;
    assert t[2..] == p;
    SingleToken(t, v, ranges, pages, re);
  }

  /** "A..B" on the page field matches exactly the page IDs the range expands to,
      and those are the pages whose order lies between A's and B's. */
  lemma RangeToken(a: string, b: string, v: string, pages: seq<Page>, re: Matcher)
    requires ',' !in a && ',' !in b
    requires DotsAt(a + ".." + b) == |a|
    requires |a| < 2 || a[..2] != "//"
    ensures FieldMatches(Some(a + ".." + b), Some(v), true, pages, re) <==> v in ExpandRange(pages, a, b)
    ensures v in ExpandRange(pages, a, b) <==>
              OrderOf(pages, a).Some? && OrderOf(pages, b).Some? &&
              exists p :: p in pages && p.id == v && Within(p.order, OrderOf(pages, a).value, OrderOf(pages, b).value)
  {
    var t := a + ".." + b;
    assert ',' !in t;
    var k := DotsAt(t);
    assert t[..k] == a && t[k + 2..] == b;
    if |a| >= 2 {
      assert t[..2] == a[..2];
    }
    assert ParseToken(t, true) == Range(a, b);
    SingleToken(t, v, true, pages, re);
  }

  /** A valid ID or group name used as a filter matches by equality alone. */
  lemma ExactToken(t: string, v: string, ranges: bool, pages: seq<Page>, re: Matcher)
    requires Syntax.IsToken(t)
    requires ranges ==> DotsAt(t) == |t|
    ensures FieldMatches(Some(t), Some(v), ranges, pages, re) <==> v == t
  {
    Syntax.TokenHasNoFilterSyntax(t);
    assert ParseToken(t, ranges) == Exact(t);
    SingleToken(t, v, ranges, pages, re);
  }

  /** The records a query does NOT return, in order: what remove_file keeps. */
  function RejectAll(files: seq<FileRec>, q: Filters, pages: seq<Page>, re: Matcher): (r: seq<FileRec>)
    ensures forall x :: x in r <==> x in files && !Matches(q, x, pages, re)
  {
    if files == [] then []
    else
      var rest := RejectAll(files[1..], q, pages, re);
      assert forall x :: x in files <==> x == files[0] || x in files[1..];
      if Matches(q, files[0], pages, re) then rest else [files[0]] + rest
  }

  /** A query that finds nothing rejects everything: remove_file then keeps
      every record. */
  lemma {:induction false} NothingFoundKeepsAll(files: seq<FileRec>, q: Filters, pages: seq<Page>, re: Matcher)
    requires FindAllFiles(files, q, pages, re) == []
    ensures RejectAll(files, q, pages, re) == files
  {
    if files != [] {
      assert files[0] in files && !Matches(q, files[0], pages, re);
      NothingFoundKeepsAll(files[1..], q, pages, re);
    }
  }

  /** Every record is either found or rejected by a query, never both. */
  lemma {:induction false} FindRejectPartition(files: seq<FileRec>, q: Filters, pages: seq<Page>, re: Matcher)
    ensures multiset(FindAllFiles(files, q, pages, re)) + multiset(RejectAll(files, q, pages, re)) == multiset(files)
  {
    if files != [] {
      FindRejectPartition(files[1..], q, pages, re);
      var found, rejected := FindAllFiles(files[1..], q, pages, re), RejectAll(files[1..], q, pages, re);
      assert multiset(files) == multiset{files[0]} + multiset(files[1..]) by {
        assert files == [files[0]] + files[1..];
      }
      if Matches(q, files[0], pages, re) {
        assert FindAllFiles(files, q, pages, re) == [files[0]] + found;
        assert RejectAll(files, q, pages, re) == rejected;
      } else {
        assert FindAllFiles(files, q, pages, re) == found;
        assert RejectAll(files, q, pages, re) == [files[0]] + rejected;
      }
    }
  }

  /** find_files(ID=x) for a valid ID x returns exactly the records with that ID. */
  lemma {:induction false} FindById(files: seq<FileRec>, id: string, pages: seq<Page>, re: Matcher)
    requires Syntax.IsToken(id)
    ensures FindAllFiles(files, IdFilter(id), pages, re) == WithId(files, id)
  {
    if files != [] {
      ExactToken(id, files[0].id, false, pages, re);
      FindById(files[1..], id, pages, re);
    }
  }
}
