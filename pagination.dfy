/** The listing query shared by `GET /restaurants` and `GET /auth/users`: an optional
    case-insensitive name keyword, then `skip`/`limit` paging. */
module Pagination {
  import opened Wrappers
  import opened External
  import opened Store
  import opened Schemas
  import opened JsArray

  /** The query string. A numeric parameter is `None` when it is absent or `Number(...)`
      of it is not a number. */
  datatype Query = Query(keyword: Option<string>, page: Option<int>, resPerPage: Option<int>)

  /** `Number(query.resPerPage) || 10`: 0 and NaN are falsy. */
  function ResPerPage(q: Query): (n: int)
    ensures n != 0
    ensures q.resPerPage.None? || q.resPerPage == Some(0) ==> n == 10
    ensures q.resPerPage.Some? && q.resPerPage.value != 0 ==> n == q.resPerPage.value
  {
    if q.resPerPage.None? || q.resPerPage.value == 0 then 10 else q.resPerPage.value
  }

  /** `Number(query.page) || 1`. */
  function CurrentPage(q: Query): (p: int)
    ensures p != 0
    ensures q.page.None? || q.page == Some(0) ==> p == 1
    ensures q.page.Some? && q.page.value != 0 ==> p == q.page.value
  {
    if q.page.None? || q.page.value == 0 then 1 else q.page.value
  }

  /** `resPerPage * (currentPage - 1)`: the first page skips nothing, and a positive
      page and size never skip a negative number. */
  function Skip(q: Query): (k: int)
    ensures CurrentPage(q) == 1 ==> k == 0
    ensures ResPerPage(q) > 0 && CurrentPage(q) > 0 ==> k >= 0
  {
    ResPerPage(q) * (CurrentPage(q) - 1)
  }

  function Abs(n: int): nat { if n < 0 then -n else n }

  /** Mongo's `.limit(limit).skip(skip)` over a listing: the server rejects a negative
      skip, a limit of 0 means no limit, and a negative limit returns at most its
      absolute value. */
  function Window<T>(s: seq<T>, skip: int, limit: int): (r: Result<seq<T>>)
    ensures r.Err? <==> skip < 0
    ensures r.Err? ==> r.error == Internal
    ensures r.Ok? ==> forall i :: 0 <= i < |r.value| ==> skip + i < |s| && r.value[i] == s[skip + i]
    ensures r.Ok? ==> |r.value| == if skip >= |s| then 0
                                   else if limit == 0 then |s| - skip
                                   else Min(|s| - skip, Abs(limit))
  {
    if skip < 0 then Err(Internal)
    else
      var rest := if skip <= |s| then s[skip..] else [];
      Ok(if limit == 0 || Abs(limit) >= |rest| then rest else rest[..Abs(limit)])
  }

  /** `query.keyword ? { name: { $regex: keyword, $options: 'i' } } : {}`: an absent or
      empty keyword selects every document. */
  function KeywordPasses(o: Oracles, keyword: Option<string>, name: string): (b: bool)
    ensures keyword.None? || keyword == Some("") ==> b
    ensures keyword.Some? && keyword.value != "" ==> (b <==> o.nameMatches(keyword.value, name))
  {
    keyword.None? || keyword.value == "" || o.nameMatches(keyword.value, name)
  }

  /** The documents of `docs` the keyword selects, in their order. */
  function Matching<T>(o: Oracles, docs: seq<(Id, T)>, nameOf: T -> string, keyword: Option<string>): (m: seq<(Id, T)>)
    ensures forall e :: e in m ==> e in docs && KeywordPasses(o, keyword, nameOf(e.1))
    ensures forall e :: e in docs && KeywordPasses(o, keyword, nameOf(e.1)) ==> e in m
    ensures Ascending(docs) ==> Ascending(m)
  {
    Where(docs, (d: T) => KeywordPasses(o, keyword, nameOf(d)))
  }

  /** `find({ ...keyword }).limit(resPerPage).skip(skip)` over `docs` (a collection in
      natural order), with `nameOf` the `name` field of a document. */
  function Find<T>(o: Oracles, docs: seq<(Id, T)>, nameOf: T -> string, q: Query): (r: Result<seq<(Id, T)>>)
    ensures r.Err? <==> Skip(q) < 0
    ensures r.Ok? ==> |r.value| <= Abs(ResPerPage(q))
    ensures r.Ok? ==> forall e :: e in r.value ==> e in docs && KeywordPasses(o, q.keyword, nameOf(e.1))
    ensures r.Ok? && Ascending(docs) ==> Ascending(r.value)
    ensures r.Ok? ==> var m := Matching(o, docs, nameOf, q.keyword);
      && (forall i :: 0 <= i < |r.value| ==> Skip(q) + i < |m| && r.value[i] == m[Skip(q) + i])
      && |r.value| == (if Skip(q) >= |m| then 0 else Min(|m| - Skip(q), Abs(ResPerPage(q))))
  {
    var matching := Matching(o, docs, nameOf, q.keyword);
    var r := Window(matching, Skip(q), ResPerPage(q));
    assert r.Ok? ==> forall e :: e in r.value ==> e in matching by {
      if r.Ok? {
        forall e | e in r.value ensures e in matching {
          var i :| 0 <= i < |r.value| && r.value[i] == e;
        }
      }
    }
    r
  }

  /** Without a keyword the filter keeps every document. */
  lemma {:induction false} NoKeywordKeepsAll<T>(o: Oracles, docs: seq<(Id, T)>, nameOf: T -> string, keyword: Option<string>)
    requires keyword.None? || keyword == Some("")
    ensures Matching(o, docs, nameOf, keyword) == docs
  {
    if docs != [] {
      NoKeywordKeepsAll(o, docs[1..], nameOf, keyword);
    }
  }

  /** An empty query string lists the first ten documents. */
  lemma DefaultFirstPage<T>(o: Oracles, docs: seq<(Id, T)>, nameOf: T -> string)
    ensures Find(o, docs, nameOf, Query(None, None, None)) == Ok(docs[..Min(|docs|, 10)])
  {
    var q := Query(None, None, None);
    NoKeywordKeepsAll(o, docs, nameOf, None);
    assert Skip(q) == 0 && ResPerPage(q) == 10;
    assert Find(o, docs, nameOf, q) == Window(docs, 0, 10);
    WindowSlice(docs, 0, 10);
  }

  /** A window with a non-negative skip and a positive limit is a slice. */
  lemma WindowSlice<T>(s: seq<T>, skip: int, n: int)
    requires skip >= 0 && n > 0
    ensures Window(s, skip, n) == Ok(s[Min(skip, |s|)..Min(skip + n, |s|)])
  {
    var w := Window(s, skip, n);
    var expected := s[Min(skip, |s|)..Min(skip + n, |s|)];
    assert w.Ok?;
    assert |w.value| == |expected|;
    assert forall i :: 0 <= i < |expected| ==> w.value[i] == expected[i];
    assert w.value == expected;
  }

  /** Page `p` of size `n` (both positive) is the slice `[n * (p - 1), n * p)` of the
      matching documents, cut at their end. */
  lemma PageSlice<T>(o: Oracles, docs: seq<(Id, T)>, nameOf: T -> string, q: Query, n: int, p: int)
    requires q.resPerPage == Some(n) && q.page == Some(p) && n > 0 && p > 0
    ensures var m := Matching(o, docs, nameOf, q.keyword); var k := n * (p - 1);
      && k >= 0
      && Find(o, docs, nameOf, q) == Ok(m[Min(k, |m|)..Min(k + n, |m|)])
  {
    var m := Matching(o, docs, nameOf, q.keyword);
    PageParams(q, n, p);
    FindIsWindow(o, docs, nameOf, q);
    WindowSlice(m, n * (p - 1), n);
  }

  /** Explicit positive page and size: the skip is `n * (p - 1)`, never negative. */
  lemma PageParams(q: Query, n: int, p: int)
    requires q.resPerPage == Some(n) && q.page == Some(p) && n > 0 && p > 0
    ensures ResPerPage(q) == n && Skip(q) == n * (p - 1) && Skip(q) >= 0
  {
    Distribute(n, p);
  }

  lemma FindIsWindow<T>(o: Oracles, docs: seq<(Id, T)>, nameOf: T -> string, q: Query)
    ensures Find(o, docs, nameOf, q) == Window(Matching(o, docs, nameOf, q.keyword), Skip(q), ResPerPage(q))
  {
  }

  lemma Distribute(n: int, p: int)
    requires n > 0 && p > 0
    ensures n * (p - 1) >= 0 && n * p == n * (p - 1) + n
  {
  }
}
