/** The products API route (app/api/products/route.ts): a paged,
    newest-first listing of the active products, optionally restricted to
    one main category, and the create and delete pass-throughs to the
    product table. */
module ProductsRoute {
  import opened JsText

  /** `ITEMS_PER_PAGE` */
  const ItemsPerPage: nat := 12

  /** A row of the product table, with the columns the route reads. */
  datatype Product = Product(
    id: string,
    name: string,
    mainCategory: string,
    subCategory: string,
    isActive: bool,
    createdAt: int)

  // ---------------------------------------------------------------------------
  // GET: the query parameters

  /** `searchParams.get('page') || '1'`: an absent or empty parameter reads as `1`. */
  function PageText(pageParam: Option<string>): (t: string)
    ensures pageParam.None? || pageParam.value == [] ==> t == "1"
    ensures pageParam.Some? && pageParam.value != [] ==> t == pageParam.value
  {
    if pageParam.None? || pageParam.value == [] then "1" else pageParam.value
  }

  /** `(parseInt(...) - 1) * ITEMS_PER_PAGE`; `None` where `parseInt` gives NaN. */
  function Skip(pageParam: Option<string>): (skip: Option<int>)
    ensures skip.Some? <==> ParseInt(PageText(pageParam)).Some?
    ensures skip.Some? ==> skip.value == (ParseInt(PageText(pageParam)).value - 1) * ItemsPerPage
  {
    match ParseInt(PageText(pageParam))
    case None => None
    case Some(page) => Some((page - 1) * ItemsPerPage)
  }

  /** An absent page parameter starts at the first row. */
  lemma SkipDefault()
    ensures Skip(None) == Some(0)
    ensures Skip(Some("")) == Some(0)
  {
    ParseIntToString(1);
    assert IntToString(1) == "1";
  }

  /** Page `k`, written in decimal, skips the `k - 1` pages before it. */
  lemma SkipOfPage(k: int)
    ensures Skip(Some(IntToString(k))) == Some((k - 1) * ItemsPerPage)
  {
    ParseIntToString(k);
  }

  /** The category filter is off when the parameter is absent, empty, or
      exactly `TOUS`. */
  predicate FilterOff(category: Option<string>) {
    category.None? || category.value == [] || category.value == "TOUS"
  }

  /** `mode: 'insensitive'` equality: equal once both sides are lower-cased;
      accents are compared as they are. */
  predicate EqualsIgnoringCase(a: string, b: string) {
    Lower(a) == Lower(b)
  }

  /** The `where` clause: active, and in the requested main category unless
      the filter is off. */
  predicate Selected(p: Product, category: Option<string>) {
    p.isActive && (FilterOff(category) || EqualsIgnoringCase(p.mainCategory, category.value))
  }

  /** The rows the `where` clause selects, in table order. */
  function Matching(db: seq<Product>, category: Option<string>): (r: seq<Product>)
    ensures |r| <= |db|
  {
    if db == [] then []
    else if Selected(db[0], category) then [db[0]] + Matching(db[1..], category)
    else Matching(db[1..], category)
  }

  /** A row is kept exactly when it is in the table and the `where` clause
      selects it. */
  lemma {:induction false} MatchingMembers(db: seq<Product>, category: Option<string>)
    ensures forall p :: p in Matching(db, category) <==> p in db && Selected(p, category)
  {
    if db != [] {
      MatchingMembers(db[1..], category);
      assert db == [db[0]] + db[1..];
    }
  }

  // ---------------------------------------------------------------------------
  // GET: ordering by `createdAt` descending

  /** What `orderBy: { createdAt: 'desc' }` promises: no row is older than
      one listed after it. Rows of equal age may come in any order. */
  predicate NewestFirst(s: seq<Product>) {
    forall i, j :: 0 <= i < j < |s| ==> s[i].createdAt >= s[j].createdAt
  }

  /** Code-point order on ids. */
  predicate IdLess(a: string, b: string)
  {
    if a == [] then b != []
    else b != [] && (a[0] < b[0] || (a[0] == b[0] && IdLess(a[1..], b[1..])))
  }

  lemma {:induction false} IdLessIrreflexive(a: string)
    ensures !IdLess(a, a)
  {
    if a != [] {
      IdLessIrreflexive(a[1..]);
    }
  }

  lemma {:induction false} IdLessTransitive(a: string, b: string, c: string)
    requires IdLess(a, b) && IdLess(b, c)
    ensures IdLess(a, c)
  {
    if a != [] && a[0] == b[0] && b[0] == c[0] {
      IdLessTransitive(a[1..], b[1..], c[1..]);
    }
  }

  lemma {:induction false} IdLessTotal(a: string, b: string)
    requires a != b
    ensures IdLess(a, b) || IdLess(b, a)
  {
    if a != [] && b != [] && a[0] == b[0] {
      assert a == [a[0]] + a[1..] && b == [b[0]] + b[1..];
      IdLessTotal(a[1..], b[1..]);
    }
  }

  /** Newest first, and of two rows of the same age the smaller id first:
      `orderBy` with `id` as a tie-breaker. */
  predicate Precedes(p: Product, q: Product) {
    p.createdAt > q.createdAt || (p.createdAt == q.createdAt && IdLess(p.id, q.id))
  }

  lemma PrecedesIrreflexive(p: Product)
    ensures !Precedes(p, p)
  {
    IdLessIrreflexive(p.id);
  }

  lemma PrecedesTransitive(p: Product, q: Product, r: Product)
    requires Precedes(p, q) && Precedes(q, r)
    ensures Precedes(p, r)
  {
    if p.createdAt == q.createdAt == r.createdAt {
      IdLessTransitive(p.id, q.id, r.id);
    }
  }

  lemma PrecedesTotal(p: Product, q: Product)
    requires p.id != q.id
    ensures Precedes(p, q) || Precedes(q, p)
  {
    IdLessTotal(p.id, q.id);
  }

  /** Every row precedes every row listed after it. */
  predicate StrictlyOrdered(s: seq<Product>) {
    forall i, j :: 0 <= i < j < |s| ==> Precedes(s[i], s[j])
  }

  /** Inserts `p` into an ordered sequence ahead of the first row it precedes. */
  function Insert(p: Product, s: seq<Product>): (r: seq<Product>)
    ensures |r| == |s| + 1
    ensures multiset(r) == multiset(s) + multiset{p}
  {
    if s == [] || Precedes(p, s[0]) then [p] + s
    else
      assert s == [s[0]] + s[1..];
      [s[0]] + Insert(p, s[1..])
  }

  /** Every element of `Insert(p, s)` is `p` or an element of `s`. */
  lemma InsertElements(p: Product, s: seq<Product>, i: nat)
    requires i < |Insert(p, s)|
    ensures Insert(p, s)[i] == p || Insert(p, s)[i] in s
  {
    assert Insert(p, s)[i] in multiset(Insert(p, s));
  }

  lemma {:induction false} InsertNewestFirst(p: Product, s: seq<Product>)
    requires NewestFirst(s)
    ensures NewestFirst(Insert(p, s))
  {
    if s != [] && !Precedes(p, s[0]) {
      var tail := s[1..];
      assert NewestFirst(tail);
      InsertNewestFirst(p, tail);
      var r := Insert(p, s);
      forall i, j | 0 <= i < j < |r| ensures r[i].createdAt >= r[j].createdAt {
        if i == 0 {
          InsertElements(p, tail, j - 1);
          assert r[j] == Insert(p, tail)[j - 1];
        }
      }
    }
  }

  /** `orderBy: { createdAt: 'desc' }` with ties broken by id. */
  function SortNewestFirst(s: seq<Product>): (r: seq<Product>)
    ensures |r| == |s|
  {
    if s == [] then [] else Insert(s[0], SortNewestFirst(s[1..]))
  }

  /** The ordering is a newest-first permutation of its input. */
  lemma SortNewestFirstCorrect(s: seq<Product>)
    ensures NewestFirst(SortNewestFirst(s))
    ensures multiset(SortNewestFirst(s)) == multiset(s)
  {
    SortNewestFirstOrdered(s);
    SortNewestFirstPermutes(s);
  }

  lemma {:induction false} SortNewestFirstOrdered(s: seq<Product>)
    ensures NewestFirst(SortNewestFirst(s))
  {
    if s != [] {
      SortNewestFirstOrdered(s[1..]);
      InsertNewestFirst(s[0], SortNewestFirst(s[1..]));
    }
  }

  lemma {:induction false} SortNewestFirstPermutes(s: seq<Product>)
    ensures multiset(SortNewestFirst(s)) == multiset(s)
  {
    if s != [] {
      SortNewestFirstPermutes(s[1..]);
      assert s == [s[0]] + s[1..];
    }
  }

  /** With distinct ids, inserting keeps a sequence strictly ordered. */
  lemma {:induction false} InsertStrict(p: Product, s: seq<Product>)
    requires StrictlyOrdered(s)
    requires forall q :: q in s ==> q.id != p.id
    ensures StrictlyOrdered(Insert(p, s))
  {
    var r := Insert(p, s);
    if s == [] || Precedes(p, s[0]) {
      forall j | 1 <= j < |r| ensures Precedes(r[0], r[j]) {
        if j > 1 {
          PrecedesTransitive(p, s[0], s[j - 1]);
        }
      }
    } else {
      var tail := s[1..];
      assert StrictlyOrdered(tail);
      InsertStrict(p, tail);
      PrecedesTotal(p, s[0]);
      forall j | 1 <= j < |r| ensures Precedes(r[0], r[j]) {
        InsertElements(p, tail, j - 1);
        assert r[j] == Insert(p, tail)[j - 1];
      }
    }
  }

  /** Removing the first row keeps the ids distinct, and the first id occurs
      nowhere else. */
  lemma DistinctTail(rows: seq<Product>)
    requires DistinctIds(rows) && rows != []
    ensures DistinctIds(rows[1..])
    ensures forall q :: q in rows[1..] ==> q.id != rows[0].id
  {
    forall i, j | 0 <= i < j < |rows[1..]| ensures rows[1..][i].id != rows[1..][j].id {
      assert rows[1..][i] == rows[i + 1] && rows[1..][j] == rows[j + 1];
    }
  }

  /** A row whose id no other row has keeps the ids distinct. */
  lemma DistinctCons(p: Product, s: seq<Product>)
    requires DistinctIds(s)
    requires forall q :: q in s ==> q.id != p.id
    ensures DistinctIds([p] + s)
  {
    var r := [p] + s;
    forall i, j | 0 <= i < j < |r| ensures r[i].id != r[j].id {
      assert r[j] == s[j - 1];
      if i > 0 {
        assert r[i] == s[i - 1];
      }
    }
  }

  /** With distinct ids the ordering is strict. */
  lemma {:induction false} SortStrict(s: seq<Product>)
    requires DistinctIds(s)
    ensures StrictlyOrdered(SortNewestFirst(s))
  {
    if s != [] {
      DistinctTail(s);
      SortStrict(s[1..]);
      SortNewestFirstPermutes(s[1..]);
      forall q | q in SortNewestFirst(s[1..]) ensures q.id != s[0].id {
        assert q in multiset(SortNewestFirst(s[1..]));
      }
      InsertStrict(s[0], SortNewestFirst(s[1..]));
    }
  }

  /** Two strictly ordered sequences of the same rows are the same sequence:
      a tie-breaker leaves the database one answer. */
  lemma {:induction false} StrictUnique(a: seq<Product>, b: seq<Product>)
    requires StrictlyOrdered(a) && StrictlyOrdered(b)
    requires multiset(a) == multiset(b)
    ensures a == b
  {
    if a == [] {
      assert |b| == |multiset(b)| == 0;
    } else {
      assert a[0] in multiset(b);
      HeadsAgree(a, b);
      SameTails(a, b);
      StrictTail(a);
      StrictTail(b);
      StrictUnique(a[1..], b[1..]);
      assert a == [a[0]] + a[1..] && b == [b[0]] + b[1..];
    }
  }

  /** Removing the same first row from the same rows leaves the same rows. */
  lemma SameTails(a: seq<Product>, b: seq<Product>)
    requires multiset(a) == multiset(b) && a != [] && b != [] && a[0] == b[0]
    ensures multiset(a[1..]) == multiset(b[1..])
  {
    assert a == [a[0]] + a[1..] && b == [b[0]] + b[1..];
    assert multiset(a) == multiset{a[0]} + multiset(a[1..]);
    assert multiset(b) == multiset{b[0]} + multiset(b[1..]);
    assert multiset(a[1..]) == multiset(a) - multiset{a[0]};
    assert multiset(b[1..]) == multiset(b) - multiset{b[0]};
  }

  lemma StrictTail(a: seq<Product>)
    requires StrictlyOrdered(a) && a != []
    ensures StrictlyOrdered(a[1..])
  {
    forall i, j | 0 <= i < j < |a[1..]| ensures Precedes(a[1..][i], a[1..][j]) {
      assert a[1..][i] == a[i + 1] && a[1..][j] == a[j + 1];
    }
  }

  /** The first row of a strictly ordered sequence precedes every other. */
  lemma FirstPrecedes(a: seq<Product>, x: Product)
    requires StrictlyOrdered(a) && x in a && x != a[0]
    ensures Precedes(a[0], x)
  {
    var i :| 0 <= i < |a| && a[i] == x;
  }

  /** Two non-empty strictly ordered sequences of the same rows start alike. */
  lemma HeadsAgree(a: seq<Product>, b: seq<Product>)
    requires StrictlyOrdered(a) && StrictlyOrdered(b)
    requires multiset(a) == multiset(b) && a != [] && b != []
    ensures a[0] == b[0]
  {
    if a[0] != b[0] {
      assert b[0] in multiset(a) && a[0] in multiset(b);
      FirstPrecedes(a, b[0]);
      FirstPrecedes(b, a[0]);
      PrecedesTransitive(a[0], b[0], a[0]);
      PrecedesIrreflexive(a[0]);
    }
  }

  /** The `where` clause keeps distinct ids distinct. */
  lemma {:induction false} MatchingDistinct(db: seq<Product>, category: Option<string>)
    requires DistinctIds(db)
    ensures DistinctIds(Matching(db, category))
  {
    if db != [] {
      DistinctTail(db);
      MatchingDistinct(db[1..], category);
      if Selected(db[0], category) {
        MatchingMembers(db[1..], category);
        DistinctCons(db[0], Matching(db[1..], category));
      }
    }
  }

  // ---------------------------------------------------------------------------
  // GET: the response

  /** `skip`/`take`: the rows from `skip` on, at most `ItemsPerPage` of them. */
  function PageSlice(s: seq<Product>, skip: nat): (r: seq<Product>)
    ensures |r| <= ItemsPerPage
    ensures skip >= |s| ==> r == []
    ensures skip < |s| ==> r == s[skip..if skip + ItemsPerPage <= |s| then skip + ItemsPerPage else |s|]
  {
    if skip >= |s| then []
    else if skip + ItemsPerPage <= |s| then s[skip..skip + ItemsPerPage]
    else s[skip..]
  }

  /** The JSON body or the 500 error of the handler. */
  datatype GetResponse = Listing(products: seq<Product>, hasMore: bool, total: nat) | ServerError

  /** The two queries once the skip is known: `count` and `findMany` with
      the same `where`, newest first, `skip`/`take`. `db` is the product
      table, `None` when it cannot be reached; a NaN (`None`) or negative
      skip makes the query fail. */
  function Query(db: Option<seq<Product>>, skip: Option<int>, category: Option<string>): (r: GetResponse)
    ensures r.Listing? <==> db.Some? && skip.Some? && skip.value >= 0
    ensures r.Listing? ==> r.total == |Matching(db.value, category)|
    ensures r.Listing? ==> r.products == PageSlice(SortNewestFirst(Matching(db.value, category)), skip.value)
    ensures r.Listing? ==> r.hasMore == (skip.value + |r.products| < r.total)
  {
    if db.None? || skip.None? || skip.value < 0 then ServerError
    else
      var matching := Matching(db.value, category);
      var products := PageSlice(SortNewestFirst(matching), skip.value);
      Listing(products, skip.value + |products| < |matching|, |matching|)
  }

  /** `GET`: the page parameter read, then the query. */
  function Get(db: Option<seq<Product>>, pageParam: Option<string>, category: Option<string>): (r: GetResponse)
    ensures r.Listing? <==> db.Some? && Skip(pageParam).Some? && Skip(pageParam).value >= 0
    ensures r.Listing? ==> r.total == |Matching(db.value, category)|
    ensures r.Listing? ==> |r.products| <= ItemsPerPage
    ensures r.Listing? ==> forall p :: p in r.products ==> p in db.value && Selected(p, category)
  {
    var skip := Skip(pageParam);
    if db.Some? && skip.Some? && skip.value >= 0 then
      QuerySelected(db.value, skip.value, category);
      Query(db, skip, category)
    else
      Query(db, skip, category)
  }

  /** Every listed row is an active row of the table that the filter
      selects, and there are at most twelve of them. */
  lemma QuerySelected(db: seq<Product>, skip: int, category: Option<string>)
    requires skip >= 0
    ensures var r := Query(Some(db), Some(skip), category);
      |r.products| <= ItemsPerPage && forall p :: p in r.products ==> p in db && Selected(p, category)
  {
    var matching := Matching(db, category);
    var sorted := SortNewestFirst(matching);
    var products := Query(Some(db), Some(skip), category).products;
    MatchingMembers(db, category);
    SortNewestFirstPermutes(matching);
    forall p | p in products ensures p in db && Selected(p, category) {
      assert p in sorted;
      assert p in multiset(sorted);
    }
  }

  /** A listing is newest first. */
  lemma QueryNewestFirst(db: seq<Product>, skip: int, category: Option<string>)
    requires skip >= 0
    ensures NewestFirst(Query(Some(db), Some(skip), category).products)
  {
    var sorted := SortNewestFirst(Matching(db, category));
    SortNewestFirstOrdered(Matching(db, category));
    if skip < |sorted| {
      var hi := if skip + ItemsPerPage <= |sorted| then skip + ItemsPerPage else |sorted|;
      SliceNewestFirst(sorted, skip, hi);
    }
  }

  /** A stretch of a newest-first sequence is newest first. */
  lemma SliceNewestFirst(s: seq<Product>, lo: nat, hi: nat)
    requires NewestFirst(s) && lo <= hi <= |s|
    ensures NewestFirst(s[lo..hi])
  {
    var r := s[lo..hi];
    forall i, j | 0 <= i < j < |r| ensures r[i].createdAt >= r[j].createdAt {
      assert r[i] == s[lo + i] && r[j] == s[lo + j];
    }
  }

  /** `hasMore` holds exactly when matching rows remain after this page. */
  lemma HasMoreMeansRowsRemain(db: seq<Product>, skip: int, category: Option<string>)
    requires skip >= 0
    ensures Query(Some(db), Some(skip), category).hasMore <==>
      skip + ItemsPerPage < |Matching(db, category)|
  {
  }

  /** Asking for page `k >= 1`, written in decimal, runs the query with
      skip `(k - 1) * 12`; page `0` and below ask for a negative skip. */
  lemma PageRequest(db: Option<seq<Product>>, category: Option<string>, k: int)
    ensures Get(db, Some(IntToString(k)), category) == Query(db, Some((k - 1) * ItemsPerPage), category)
    ensures k < 1 ==> Get(db, Some(IntToString(k)), category) == ServerError
  {
    SkipOfPage(k);
  }

  /** Without a category filter every active row is counted. */
  lemma UnfilteredCountsActive(db: seq<Product>, category: Option<string>)
    requires FilterOff(category)
    ensures forall p :: p in Matching(db, category) <==> p in db && p.isActive
  {
    MatchingMembers(db, category);
  }

  /** Only the exact `TOUS` turns the filter off: `tous` filters on the main category. */
  lemma LowerCaseTousFilters()
    ensures !FilterOff(Some("tous"))
  {
  }

  /** The sub-category is never consulted: two rows that differ only there
      are selected alike. */
  lemma SubCategoryIgnored(p: Product, sub: string, category: Option<string>)
    ensures Selected(p.(subCategory := sub), category) == Selected(p, category)
  {
  }

  /** Matching ignores case but not accents: `séjour` finds `SÉJOUR` rows
      and misses `SEJOUR` rows. */
  lemma MatchKeepsAccents()
    ensures EqualsIgnoringCase("SÉJOUR", "séjour")
    ensures !EqualsIgnoringCase("SEJOUR", "séjour")
  {
    assert Lower("SÉJOUR") == "séjour";
    assert Lower("SEJOUR")[1] == 'e';
  }

  // ---------------------------------------------------------------------------
  // Paging through the whole listing

  /** Pages one after the other. */
  function Concat(pages: seq<seq<Product>>): seq<Product>
  {
    if pages == [] then [] else Concat(pages[..|pages| - 1]) + pages[|pages| - 1]
  }

  /** The pages `1..n` of a sequence. */
  function Pages(s: seq<Product>, n: nat): (pages: seq<seq<Product>>)
    ensures |pages| == n
  {
    seq(n, k requires 0 <= k < n => PageSlice(s, k * ItemsPerPage))
  }

  /** The pages `1..n` of a sequence, one after the other. */
  function FirstPages(s: seq<Product>, n: nat): seq<Product>
  {
    Concat(Pages(s, n))
  }

  /** The first `n` pages are the first `n - 1` and then page `n`. */
  lemma FirstPagesStep(s: seq<Product>, n: nat)
    requires n > 0
    ensures FirstPages(s, n) == FirstPages(s, n - 1) + PageSlice(s, (n - 1) * ItemsPerPage)
  {
    assert Pages(s, n)[..n - 1] == Pages(s, n - 1);
  }

  /** The first `n` pages are the first `12 n` rows. */
  lemma {:induction false} FirstPagesPrefix(s: seq<Product>, n: nat)
    ensures FirstPages(s, n) == s[..if n * ItemsPerPage <= |s| then n * ItemsPerPage else |s|]
  {
    if n > 0 {
      FirstPagesPrefix(s, n - 1);
      FirstPagesExtend(s, n);
    }
  }

  /** Adding page `n` to the first `12 (n - 1)` rows gives the first `12 n`. */
  lemma FirstPagesExtend(s: seq<Product>, n: nat)
    requires n > 0
    requires FirstPages(s, n - 1) == s[..if (n - 1) * ItemsPerPage <= |s| then (n - 1) * ItemsPerPage else |s|]
    ensures FirstPages(s, n) == s[..if n * ItemsPerPage <= |s| then n * ItemsPerPage else |s|]
  {
    var skip := (n - 1) * ItemsPerPage;
    assert skip + ItemsPerPage == n * ItemsPerPage;
    FirstPagesStep(s, n);
    if skip < |s| {
      var hi := if skip + ItemsPerPage <= |s| then skip + ItemsPerPage else |s|;
      assert s[..skip] + s[skip..hi] == s[..hi];
    }
  }

  /** The number of pages needed for `total` rows. */
  function PageCount(total: nat): nat {
    (total + ItemsPerPage - 1) / ItemsPerPage
  }

  /** The rows of a listing; none for an error. */
  function Rows(r: GetResponse): seq<Product> {
    if r.Listing? then r.products else []
  }

  /** The listings of pages `1..n` (each the query `PageRequest` says page
      `k` runs), one after the other. */
  function ListedPages(db: seq<Product>, category: Option<string>, n: nat): seq<Product>
  {
    Concat(seq(n, k requires 0 <= k < n => Rows(Query(Some(db), Some(k * ItemsPerPage), category))))
  }

  /** The listings of pages `1..n` are the first `n` pages of the sorted
      matching rows. */
  lemma ListedIsFirstPages(db: seq<Product>, category: Option<string>, n: nat)
    ensures ListedPages(db, category, n) == FirstPages(SortNewestFirst(Matching(db, category)), n)
  {
    var sorted := SortNewestFirst(Matching(db, category));
    var listed := seq(n, k requires 0 <= k < n => Rows(Query(Some(db), Some(k * ItemsPerPage), category)));
    forall k | 0 <= k < n ensures listed[k] == Pages(sorted, n)[k] {
      QueryRows(db, k * ItemsPerPage, category);
    }
    assert listed == Pages(sorted, n);
  }

  /** The rows a listing holds are the page of the sorted matching rows. */
  lemma QueryRows(db: seq<Product>, skip: int, category: Option<string>)
    requires skip >= 0
    ensures Rows(Query(Some(db), Some(skip), category)) == PageSlice(SortNewestFirst(Matching(db, category)), skip)
  {
  }

  /** What one `findMany` may answer as written: the selected rows, in an
      order only `createdAt` constrains. */
  predicate Admissible(rows: seq<Product>, answer: seq<Product>) {
    multiset(answer) == multiset(rows) && NewestFirst(answer)
  }

  /** What it may answer once `id` breaks ties. */
  predicate TieBrokenAdmissible(rows: seq<Product>, answer: seq<Product>) {
    multiset(answer) == multiset(rows) && StrictlyOrdered(answer)
  }

  /** The ordering used by `Query` is an answer both with and without the
      tie-breaker, and with distinct ids the only one with it. */
  lemma SortAdmissible(rows: seq<Product>, answer: seq<Product>)
    requires DistinctIds(rows)
    ensures Admissible(rows, SortNewestFirst(rows))
    ensures TieBrokenAdmissible(rows, answer) <==> answer == SortNewestFirst(rows)
  {
    SortNewestFirstCorrect(rows);
    SortStrict(rows);
    if TieBrokenAdmissible(rows, answer) {
      StrictUnique(answer, SortNewestFirst(rows));
    }
  }

  /** Pages `1..|answers|` when page `k + 1` is cut from the answer of its
      own query, `answers[k]`. */
  function PagedRows(answers: seq<seq<Product>>): seq<Product>
  {
    Concat(seq(|answers|, k requires 0 <= k < |answers| => PageSlice(answers[k], k * ItemsPerPage)))
  }

  /** Thirteen rows of one age, answered by the first query in table order
      and by the second with the first and last swapped. */
  function TieSwap(m: seq<Product>): (r: seq<Product>)
    requires |m| == 13
    ensures multiset(r) == multiset(m)
  {
    assert m == [m[0]] + m[1..12] + [m[12]];
    [m[12]] + m[1..12] + [m[0]]
  }

  /** As written, ordering by `createdAt` alone: when the thirteen matching
      rows share one `createdAt`, both queries answer admissibly, yet page 2
      repeats the first row of page 1 and the thirteenth row is never listed. */
  lemma TiedRowsRepeat(db: seq<Product>, category: Option<string>)
    requires DistinctIds(db)
    requires |Matching(db, category)| == 13
    requires forall i :: 0 <= i < 13 ==> Matching(db, category)[i].createdAt == Matching(db, category)[0].createdAt
    ensures var m := Matching(db, category);
      Admissible(m, m) && Admissible(m, TieSwap(m))
    ensures var m := Matching(db, category);
      PagedRows([m, TieSwap(m)]) == m[..12] + [m[0]]
    ensures var m := Matching(db, category);
      m[0] in PagedRows([m, TieSwap(m)])[..12] && m[0] in PagedRows([m, TieSwap(m)])[12..]
    ensures var m := Matching(db, category);
      m[12] in m && m[12] !in PagedRows([m, TieSwap(m)])
  {
    var m := Matching(db, category);
    MatchingDistinct(db, category);
    TiedAdmissible(m);
    TiedPages(m);
    var listed := m[..12] + [m[0]];
    assert listed[12..] == [m[0]] && listed[..12] == m[..12];
    forall i | 0 <= i < |listed| ensures listed[i] != m[12] {
      if i < 12 {
        assert listed[i] == m[i];
      }
    }
  }

  /** Rows of one age are admissible in any order. */
  lemma TiedAdmissible(m: seq<Product>)
    requires |m| == 13
    requires forall i :: 0 <= i < 13 ==> m[i].createdAt == m[0].createdAt
    ensures Admissible(m, m) && Admissible(m, TieSwap(m))
  {
    var t := TieSwap(m);
    forall i | 0 <= i < 13 ensures t[i].createdAt == m[0].createdAt {
      if 0 < i < 12 {
        assert t[i] == m[i];
      }
    }
  }

  /** Page 1 of the first answer and page 2 of the swapped one. */
  lemma TiedPages(m: seq<Product>)
    requires |m| == 13
    ensures PagedRows([m, TieSwap(m)]) == m[..12] + [m[0]]
  {
    var pages := seq(2, k requires 0 <= k < 2 => PageSlice([m, TieSwap(m)][k], k * ItemsPerPage));
    assert pages == [m[..12], [m[0]]];
    assert pages[..1] == [m[..12]];
    assert pages[..1][..0] == [];
    assert Concat(pages[..1]) == m[..12];
  }

  /** Corrected, with `id` as a tie-breaker and ids distinct: asking for
      pages `1, 2, ...` up to the last one, each its own query, lists every
      matching row exactly once, newest first, whatever the database does
      between the queries' plans. */
  lemma PagingComplete(db: seq<Product>, category: Option<string>, answers: seq<seq<Product>>)
    requires DistinctIds(db)
    requires |answers| == PageCount(|Matching(db, category)|)
    requires forall k :: 0 <= k < |answers| ==> TieBrokenAdmissible(Matching(db, category), answers[k])
    ensures PagedRows(answers) == SortNewestFirst(Matching(db, category))
    ensures multiset(PagedRows(answers)) == multiset(Matching(db, category))
    ensures NewestFirst(PagedRows(answers))
  {
    var matching := Matching(db, category);
    var sorted := SortNewestFirst(matching);
    var n := |answers|;
    MatchingDistinct(db, category);
    var pages := seq(n, k requires 0 <= k < n => PageSlice(answers[k], k * ItemsPerPage));
    forall k | 0 <= k < n ensures pages[k] == Pages(sorted, n)[k] {
      SortAdmissible(matching, answers[k]);
    }
    assert pages == Pages(sorted, n);
    FirstPagesPrefix(sorted, n);
    assert n * ItemsPerPage >= |sorted|;
    assert sorted[..|sorted|] == sorted;
    SortNewestFirstCorrect(matching);
  }

  /** Page 0 asks for a negative skip: the request fails. */
  lemma PageZeroFails(db: Option<seq<Product>>, category: Option<string>)
    ensures Get(db, Some("0"), category) == ServerError
  {
    PageRequest(db, category, 0);
    assert IntToString(0) == "0";
  }

  /** A page parameter whose first non-blank character is neither a digit
      nor a sign is NaN (`abc`, say): the request fails. */
  lemma NonNumericPageFails(db: Option<seq<Product>>, category: Option<string>, page: string)
    requires TrimStart(page) != [] && !IsDigit(TrimStart(page)[0])
    requires TrimStart(page)[0] != '-' && TrimStart(page)[0] != '+'
    ensures Get(db, Some(page), category) == ServerError
  {
    ParseIntNoDigits(page);
  }

  /** The skip of the third page. */
  lemma ThirdPageSkip()
    ensures Skip(Some("3")) == Some(24)
  {
    SkipOfPage(3);
    assert IntToString(3) == "3";
  }

  /** With thirty matching rows the first page holds twelve and announces
      more; the third holds the last six and does not. */
  lemma ThirtyRows(db: seq<Product>, category: Option<string>)
    requires |Matching(db, category)| == 30
    ensures var first := Query(Some(db), Some(0), category);
      |first.products| == 12 && first.hasMore
    ensures var third := Query(Some(db), Some(24), category);
      |third.products| == 6 && !third.hasMore
  {
  }

  // ---------------------------------------------------------------------------
  // POST and DELETE

  /** A request body for `POST`: the product's fields, any of which the
      client may leave out where the table has a default. */
  datatype ProductInput = ProductInput(
    id: Option<string>,
    name: string,
    mainCategory: string,
    subCategory: string,
    isActive: Option<bool>,
    createdAt: Option<int>)

  /** `{ ...data, isActive: true }`, with the table's defaults for the id
      and the creation time filled in. */
  function NewRow(input: ProductInput, generatedId: string, now: int): (p: Product)
    ensures p.isActive
    ensures p.id == (if input.id.Some? then input.id.value else generatedId)
    ensures p.name == input.name && p.mainCategory == input.mainCategory && p.subCategory == input.subCategory
  {
    Product(
      if input.id.Some? then input.id.value else generatedId,
      input.name, input.mainCategory, input.subCategory,
      true,
      if input.createdAt.Some? then input.createdAt.value else now)
  }

  predicate HasId(rows: seq<Product>, id: string) {
    exists i :: 0 <= i < |rows| && rows[i].id == id
  }

  /** The table without the row that has the given id. */
  function RemoveId(rows: seq<Product>, id: string): (r: seq<Product>)
    ensures forall p :: p in r <==> p in rows && p.id != id
    ensures |r| <= |rows|
  {
    if rows == [] then []
    else if rows[0].id == id then RemoveId(rows[1..], id)
    else [rows[0]] + RemoveId(rows[1..], id)
  }

  /** Without a row of that id, removal changes nothing. */
  lemma {:induction false} RemoveAbsentId(rows: seq<Product>, id: string)
    requires !HasId(rows, id)
    ensures RemoveId(rows, id) == rows
  {
    if rows != [] {
      assert !HasId(rows[1..], id) by {
        forall i | 0 <= i < |rows[1..]| ensures rows[1..][i].id != id {
          assert rows[1..][i] == rows[i + 1];
        }
      }
      RemoveAbsentId(rows[1..], id);
    }
  }

  /** With distinct ids, removing one id removes exactly one row and keeps
      the others in order. */
  lemma {:induction false} RemoveOneRow(rows: seq<Product>, k: nat)
    requires DistinctIds(rows) && k < |rows|
    ensures RemoveId(rows, rows[k].id) == rows[..k] + rows[k + 1..]
  {
    var id := rows[k].id;
    if k == 0 {
      assert !HasId(rows[1..], id) by {
        forall i | 0 <= i < |rows[1..]| ensures rows[1..][i].id != id {
          assert rows[1..][i] == rows[i + 1];
        }
      }
      RemoveAbsentId(rows[1..], id);
    } else {
      DistinctTail(rows);
      assert rows[1..][k - 1] == rows[k];
      RemoveOneRow(rows[1..], k - 1);
      assert rows[0].id != id;
      assert rows[1..][..k - 1] == rows[1..k];
      assert rows[1..][k..] == rows[k + 1..];
      assert [rows[0]] + rows[1..k] == rows[..k];
    }
  }

  predicate DistinctIds(rows: seq<Product>) {
    forall i, j :: 0 <= i < j < |rows| ==> rows[i].id != rows[j].id
  }

  /** Taking one row out keeps the ids distinct. */
  lemma RemoveKeepsDistinct(rows: seq<Product>, k: nat)
    requires DistinctIds(rows) && k < |rows|
    ensures DistinctIds(rows[..k] + rows[k + 1..])
  {
    var remaining := rows[..k] + rows[k + 1..];
    forall i, j | 0 <= i < j < |remaining| ensures remaining[i].id != remaining[j].id {
      var ii := if i < k then i else i + 1;
      var jj := if j < k then j else j + 1;
      assert remaining[i] == rows[ii] && remaining[j] == rows[jj];
    }
  }

  /** The product table, as the create and delete handlers change it. */
  class ProductStore {
    var rows: seq<Product>

    /** The id column is the primary key. */
    predicate Valid()
      reads this
    {
      DistinctIds(rows)
    }

    constructor(initial: seq<Product>)
      requires DistinctIds(initial)
      ensures Valid() && rows == initial
    {
      rows := initial;
    }

    /** A snapshot of the table, as `GET` reads it. */
    function List(pageParam: Option<string>, category: Option<string>): (r: GetResponse)
      reads this
      ensures r.Listing? <==> Skip(pageParam).Some? && Skip(pageParam).value >= 0
      ensures r.Listing? ==> r.total == |Matching(rows, category)|
      ensures r.Listing? ==> forall p :: p in r.products ==> p in rows && p.isActive
      ensures r == Query(Some(rows), Skip(pageParam), category)
    {
      var skip := Skip(pageParam);
      if skip.Some? && skip.value >= 0 then
        QuerySelected(rows, skip.value, category);
        Query(Some(rows), skip, category)
      else
        Query(Some(rows), skip, category)
    }

    /** `POST`: a body that does not parse (`None`) or a row whose id is
      already taken fails with status 500 and changes nothing; otherwise
      the row is added, active whatever the body said. `generatedId` and
      `now` are the table's defaults for an id and a creation time. */
    method Post(body: Option<ProductInput>, generatedId: string, now: int) returns (created: Option<Product>)
      requires Valid()
      modifies this
      ensures Valid()
      ensures created.None? ==> rows == old(rows)
      ensures body.None? ==> created.None?
      ensures body.Some? && !HasId(old(rows), NewRow(body.value, generatedId, now).id) ==>
        created == Some(NewRow(body.value, generatedId, now))
      ensures created.Some? ==> created.value.isActive && rows == old(rows) + [created.value]
      ensures created.Some? <==> body.Some? && !HasId(old(rows), NewRow(body.value, generatedId, now).id)
    {
      if body.None? {
        return None;
      }
      var row := NewRow(body.value, generatedId, now);
      if HasId(rows, row.id) {
        return None;
      }
      rows := rows + [row];
      created := Some(row);
    }

    /** `DELETE`: a body without an id, or an id that names no row, fails
      with status 500 and changes nothing; otherwise exactly that row goes. */
    method Delete(id: Option<string>) returns (ok: bool)
      requires Valid()
      modifies this
      ensures Valid()
      ensures ok <==> id.Some? && HasId(old(rows), id.value)
      ensures !ok ==> rows == old(rows)
      ensures ok ==> rows == RemoveId(old(rows), id.value)
      ensures ok ==>
        exists k :: 0 <= k < |old(rows)| && old(rows)[k].id == id.value && rows == old(rows)[..k] + old(rows)[k + 1..]
    {
      if id.None? || !HasId(rows, id.value) {
        return false;
      }
      var k :| 0 <= k < |rows| && rows[k].id == id.value;
      RemoveOneRow(rows, k);
      var remaining := RemoveId(rows, id.value);
      RemoveKeepsDistinct(rows, k);
      rows := remaining;
      ok := true;
    }
  }
}
