/** The meaning of the SQL the repository (`backend/src/repository/pdfs.rs`) sends, over an
    in-memory `pdfs` table and `tags_to_pdfs` relation: the search predicate evaluated on
    the rows of a LEFT JOIN, DISTINCT, ORDER BY (time_added, id), LIMIT/OFFSET and the
    matching count. */
module Queries {
  import opened Base
  import opened Text
  import opened Model

  datatype Database = Database(pdfs: seq<Pdf>, tagsToPdfs: seq<TagRelation>)

  function Min(a: int, b: int): int { if a <= b then a else b }

  // ---------------------------------------------------------------------------
  // pdfs LEFT JOIN tags_to_pdfs ON pdfs.id = tags_to_pdfs.id
  // ---------------------------------------------------------------------------

  /** The relation rows of one document, in row order. */
  function RowsWithId(rels: seq<TagRelation>, id: Uuid): (rows: seq<TagRelation>)
    ensures |rows| <= |rels|
    ensures forall r :: r in rows <==> r in rels && r.id == id
    ensures forall r :: multiset(rows)[r] == if r.id == id then multiset(rels)[r] else 0
  {
    if rels == [] then []
    else
      assert rels == [rels[0]] + rels[1..];
      (if rels[0].id == id then [rels[0]] else []) + RowsWithId(rels[1..], id)
  }

  predicate HasRelations(rels: seq<TagRelation>, id: Uuid) {
    exists r | r in rels :: r.id == id
  }

  datatype JoinRow = JoinRow(pdf: Pdf, name: Option<string>)

  /** The joined rows one document contributes: one per relation row, or a single row
      whose tag columns are NULL when it has none. */
  function JoinOf(p: Pdf, rels: seq<TagRelation>): (rows: seq<JoinRow>)
    ensures rows != []
    ensures forall row :: row in rows <==>
      row.pdf == p &&
      if HasRelations(rels, p.id) then TagRelation(p.id, row.name) in rels else row.name.None?
  {
    var own := RowsWithId(rels, p.id);
    if own == [] then
      assert !HasRelations(rels, p.id) by {
        forall r | r in rels ensures r.id != p.id { assert r.id == p.id ==> r in own; }
      }
      [JoinRow(p, None)]
    else
      assert own[0] in rels;
      var rows := seq(|own|, k requires 0 <= k < |own| => JoinRow(p, own[k].name));
      OwnRowsJoined(p, rels, own, rows);
      rows
  }

  lemma OwnRowsJoined(p: Pdf, rels: seq<TagRelation>, own: seq<TagRelation>, rows: seq<JoinRow>)
    requires forall r :: r in own <==> r in rels && r.id == p.id
    requires |rows| == |own| && forall k | 0 <= k < |own| :: rows[k] == JoinRow(p, own[k].name)
    ensures forall row :: row in rows <==> row.pdf == p && TagRelation(p.id, row.name) in rels
  {
    assert forall row | row in rows :: TagRelation(p.id, row.name) in own;
    forall n | TagRelation(p.id, n) in rels ensures JoinRow(p, n) in rows {
      var k :| 0 <= k < |own| && own[k] == TagRelation(p.id, n);
      assert rows[k] == JoinRow(p, n);
    }
  }

  function LeftJoin(pdfs: seq<Pdf>, rels: seq<TagRelation>): (rows: seq<JoinRow>)
    ensures forall row :: row in rows <==> row.pdf in pdfs && row in JoinOf(row.pdf, rels)
  {
    if pdfs == [] then [] else JoinOf(pdfs[0], rels) + LeftJoin(pdfs[1..], rels)
  }

  // ---------------------------------------------------------------------------
  // WHERE ($n IS NULL OR column ILIKE CONCAT('%', $n, '%')) AND ...
  // ---------------------------------------------------------------------------

  /** An absent filter is TRUE; a present one needs a non-NULL column that contains it,
      ignoring case. A NULL column makes the test NULL, which WHERE treats as false. */
  predicate FilterMatches(pattern: Option<string>, value: Option<string>)
    ensures pattern.None? ==> FilterMatches(pattern, value)
    ensures pattern.Some? && value.None? ==> !FilterMatches(pattern, value)
    ensures pattern == Some([]) ==> (FilterMatches(pattern, value) <==> value.Some?)
    ensures FilterMatches(pattern, value) && pattern.Some? ==> |pattern.value| <= |value.value|
  {
    if pattern == Some([]) && value.Some? then ILikeBasics(value.value); true else
    pattern.None? || (value.Some? && ILikeInfix(value.value, pattern.value))
  }

  /** The three optional filters of a search request. */
  datatype SearchFilter = SearchFilter(title: Option<string>, author: Option<string>, tag: Option<string>)

  function FilterOf(dto: PdfSearchDto): SearchFilter {
    SearchFilter(dto.title, dto.author, dto.tag)
  }

  predicate Where(row: JoinRow, s: SearchFilter) {
    && FilterMatches(s.title, row.pdf.title)
    && FilterMatches(s.author, row.pdf.author)
    && FilterMatches(s.tag, row.name)
  }

  /** The documents of the joined rows that satisfy the predicate, one per row. */
  function SelectWhere(rows: seq<JoinRow>, s: SearchFilter): (r: seq<Pdf>)
    ensures forall p :: p in r <==> exists row | row in rows :: Where(row, s) && row.pdf == p
  {
    if rows == [] then []
    else
      var rest := SelectWhere(rows[1..], s);
      assert forall row | row in rows[1..] :: row in rows;
      if Where(rows[0], s) then [rows[0].pdf] + rest else rest
  }

  /** DISTINCT: every document once (the last occurrence is kept; ORDER BY fixes the order
      afterwards). */
  function Distinct(s: seq<Pdf>): (r: seq<Pdf>)
    ensures forall p :: p in r <==> p in s
    ensures NoDuplicates(r)
  {
    if s == [] then []
    else if s[0] in s[1..] then Distinct(s[1..])
    else
      var rest := Distinct(s[1..]);
      var r := [s[0]] + rest;
      assert forall k | 1 <= k < |r| :: r[k] == rest[k - 1];
      r
  }

  // ---------------------------------------------------------------------------
  // ORDER BY time_added, id
  // ---------------------------------------------------------------------------

  /** `a` sorts strictly before `b`. */
  predicate KeyBefore(a: Pdf, b: Pdf) {
    a.timeAdded < b.timeAdded || (a.timeAdded == b.timeAdded && a.id < b.id)
  }

  predicate SortedByKey(s: seq<Pdf>) {
    forall i, j | 0 <= i < j < |s| :: !KeyBefore(s[j], s[i])
  }

  /** No two rows share an id; `pdfs.id` is the primary key, so the table has this. */
  predicate DistinctIds(s: seq<Pdf>) {
    forall i, j | 0 <= i < j < |s| :: s[i].id != s[j].id
  }

  function Insert(x: Pdf, s: seq<Pdf>): (r: seq<Pdf>)
    requires SortedByKey(s)
    ensures |r| == |s| + 1
    ensures multiset(r) == multiset(s) + multiset{x}
    ensures forall y :: y in r <==> y == x || y in s
    ensures SortedByKey(r)
  {
    if s == [] || KeyBefore(x, s[0]) then
      var r := [x] + s;
      assert SortedByKey(r) by {
        assert forall k | 1 <= k < |r| :: r[k] == s[k - 1];
      }
      r
    else
      var rest := Insert(x, s[1..]);
      var r := [s[0]] + rest;
      assert multiset(r) == multiset(s) + multiset{x} by {
        assert s == [s[0]] + s[1..];
        assert multiset(r) == multiset{s[0]} + multiset(rest);
      }
      assert SortedByKey(r) by {
        InsertAfterHead(x, s, rest, r);
      }
      r
  }

  lemma InsertAfterHead(x: Pdf, s: seq<Pdf>, rest: seq<Pdf>, r: seq<Pdf>)
    requires s != [] && !KeyBefore(x, s[0]) && SortedByKey(s)
    requires SortedByKey(rest) && forall y :: y in rest <==> y == x || y in s[1..]
    requires r == [s[0]] + rest
    ensures SortedByKey(r)
  {
    assert forall y | y in s[1..] :: !KeyBefore(y, s[0]) by {
      forall y | y in s[1..] ensures !KeyBefore(y, s[0]) {
        var k :| 0 <= k < |s[1..]| && s[1..][k] == y;
        assert y == s[k + 1];
      }
    }
    assert forall k | 1 <= k < |r| :: r[k] == rest[k - 1];
    assert forall k | 1 <= k < |r| :: r[k] in rest;
  }

  /** Insertion sort on `(time_added, id)`. */
  function SortByKey(s: seq<Pdf>): (r: seq<Pdf>)
    ensures |r| == |s|
    ensures multiset(r) == multiset(s)
    ensures forall y :: y in r <==> y in s
    ensures SortedByKey(r)
  {
    if s == [] then []
    else
      assert s == [s[0]] + s[1..];
      Insert(s[0], SortByKey(s[1..]))
  }

  lemma {:induction false} InsertKeepsDistinctIds(x: Pdf, s: seq<Pdf>)
    requires SortedByKey(s) && DistinctIds(s)
    requires forall y | y in s :: y.id != x.id
    ensures DistinctIds(Insert(x, s))
  {
    if s == [] || KeyBefore(x, s[0]) {
      var r := Insert(x, s);
      assert r == [x] + s;
      assert forall k | 1 <= k < |r| :: r[k] == s[k - 1];
    } else {
      assert DistinctIds(s[1..]);
      InsertKeepsDistinctIds(x, s[1..]);
      var rest := Insert(x, s[1..]);
      var r := Insert(x, s);
      assert r == [s[0]] + rest;
      assert forall k | 1 <= k < |r| :: r[k] == rest[k - 1];
      forall y | y in rest ensures y.id != s[0].id {
        if y != x { var k :| 0 <= k < |s[1..]| && s[1..][k] == y; assert y == s[k + 1]; }
      }
    }
  }

  /** Sorting keeps ids distinct, and on distinct ids the order is strict: no two
      documents tie on `(time_added, id)`. */
  lemma {:induction false} SortKeepsDistinctIds(s: seq<Pdf>)
    requires DistinctIds(s)
    ensures DistinctIds(SortByKey(s))
    ensures forall i, j | 0 <= i < j < |s| :: KeyBefore(SortByKey(s)[i], SortByKey(s)[j])
  {
    if s != [] {
      assert DistinctIds(s[1..]);
      SortKeepsDistinctIds(s[1..]);
      forall y | y in SortByKey(s[1..]) ensures y.id != s[0].id {
        var k :| 0 <= k < |s[1..]| && s[1..][k] == y; assert y == s[k + 1];
      }
      InsertKeepsDistinctIds(s[0], SortByKey(s[1..]));
    }
  }

  // ---------------------------------------------------------------------------
  // LIMIT size OFFSET size * (page - 1)
  // ---------------------------------------------------------------------------

  /** The offset `size * (page - 1)` the repository computes; `page - 1` is evaluated in
      `i32` and wraps around for `page == i32::MIN`, the product is an `i64`. */
  function PageOffset(size: i32, page: i32): (offset: int)
    ensures page != I32_MIN ==> offset == size * (page - 1)
    ensures page == I32_MIN ==> offset == size * I32_MAX
    ensures I64_MIN <= offset <= I64_MAX
  {
    var w := WrapI32(page - 1);
    MulBound(size, w);
    size * w
  }

  lemma MulBound(a: i32, b: i32)
    ensures -0x4000_0000_0000_0000 <= a * b <= 0x4000_0000_0000_0000
  {
    var x: nat := if a < 0 then -(a as int) else a;
    var y: nat := if b < 0 then -(b as int) else b;
    NatMulLe(x, y, 0x8000_0000);
    assert a * b == x * y || a * b == -(x * y);
  }

  lemma NatMulLe(x: nat, y: nat, bound: nat)
    requires x <= bound && y <= bound
    ensures x * y <= bound * bound
  {
    assert x * y <= bound * y;
    assert bound * y <= bound * bound;
  }

  /** The rows `[offset, offset + limit)` of `s`, fewer at the end; `limit` and `offset`
      are already known not to be negative. */
  function Window<T>(s: seq<T>, limit: nat, offset: nat): (r: seq<T>)
    ensures |r| == if offset >= |s| then 0 else Min(limit, |s| - offset)
    ensures forall k | 0 <= k < |r| :: r[k] == s[offset + k]
  {
    if offset >= |s| then [] else s[offset..offset + Min(limit, |s| - offset)]
  }

  /** Page `p` (1-based) of size `size`. */
  function Page<T>(s: seq<T>, size: nat, p: nat): seq<T>
    requires p >= 1
  {
    Window(s, size, size * (p - 1))
  }

  /** Pages 1 to `k` of size `size`, one after the other. */
  function Pages<T>(s: seq<T>, size: nat, k: nat): seq<T> {
    if k == 0 then [] else Pages(s, size, k - 1) + Page(s, size, k)
  }

  /** The number of non-empty pages: ceil(n / size). */
  function PageCount(n: nat, size: nat): (k: nat)
    requires size > 0
    ensures k * size >= n
    ensures k > 0 ==> (k - 1) * size < n
  {
    CeilDiv(n, size);
    (n + size - 1) / size
  }

  lemma CeilDiv(n: nat, size: nat)
    requires size > 0
    ensures ((n + size - 1) / size) * size >= n
    ensures (n + size - 1) / size > 0 ==> ((n + size - 1) / size - 1) * size < n
  {
    var k := (n + size - 1) / size;
    var m := (n + size - 1) % size;
    assert n + size - 1 == k * size + m;
    assert (k - 1) * size == k * size - size;
  }

  /** Reading pages 1..k in turn yields exactly the first `k * size` rows. */
  lemma {:induction false} PagesArePrefix<T>(s: seq<T>, size: nat, k: nat)
    ensures Pages(s, size, k) == s[..Min(|s|, k * size)]
  {
    if k > 0 {
      var off := size * (k - 1);
      MulStep(size, k);
      var lo := Min(|s|, off);
      var hi := Min(|s|, off + size);
      PagesArePrefix(s, size, k - 1);
      WindowIsSlice(s, size, off);
      SliceConcat(s, lo, hi);
    }
  }

  lemma SliceConcat<T>(s: seq<T>, lo: nat, hi: nat)
    requires lo <= hi <= |s|
    ensures s[..lo] + s[lo..hi] == s[..hi]
  {
  }

  lemma MulStep(size: nat, k: nat)
    requires k > 0
    ensures (k - 1) * size == size * (k - 1)
    ensures k * size == size * (k - 1) + size
  {
  }

  lemma WindowIsSlice<T>(s: seq<T>, limit: nat, offset: nat)
    ensures Window(s, limit, offset) == s[Min(|s|, offset)..Min(|s|, offset + limit)]
  {
    var w := Window(s, limit, offset);
    var lo := Min(|s|, offset);
    var hi := Min(|s|, offset + limit);
    assert |w| == hi - lo;
    forall i | 0 <= i < |w| ensures w[i] == s[lo..hi][i] { }
  }

  /** The pages partition the rows: reading pages 1..ceil(n/size) yields every row once,
      in order, and every later page is empty. */
  lemma PagesPartition<T>(s: seq<T>, size: nat)
    requires size > 0
    ensures Pages(s, size, PageCount(|s|, size)) == s
    ensures forall p: nat | p > PageCount(|s|, size) :: Page(s, size, p) == []
  {
    var k := PageCount(|s|, size);
    PagesArePrefix(s, size, k);
    assert s[..|s|] == s;
    forall p: nat | p > k ensures Page(s, size, p) == [] {
      LaterOffset(size, p, k);
    }
  }

  lemma LaterOffset(size: nat, p: nat, k: nat)
    requires p > k
    ensures size * (p - 1) >= k * size
  {
    var d: nat := p - 1 - k;
    var extra: nat := size * d;
    assert size * (p - 1) == size * (k + d) == size * k + extra;
  }

  // ---------------------------------------------------------------------------
  // The search and listing queries
  // ---------------------------------------------------------------------------

  function ToOverview(p: Pdf): PdfOverview {
    PdfOverview(p.id, p.title, p.picture)
  }

  function Overviews(s: seq<Pdf>): (r: seq<PdfOverview>)
    ensures |r| == |s|
    ensures forall k | 0 <= k < |s| :: r[k] == ToOverview(s[k])
  {
    seq(|s|, k requires 0 <= k < |s| => ToOverview(s[k]))
  }

  /** The matches of a search, distinct and in `(time_added, id)` order: the list the
      page query cuts its window from. */
  function OrderedMatches(db: Database, s: SearchFilter): (r: seq<Pdf>)
    ensures SortedByKey(r)
    ensures forall p | p in r :: p in db.pdfs
  {
    SortByKey(Distinct(SelectWhere(LeftJoin(db.pdfs, db.tagsToPdfs), s)))
  }

  /** `count(DISTINCT pdfs.id)` over the same join and predicate. */
  function CountDistinctIds(db: Database, s: SearchFilter): (n: nat)
    ensures n == 0 <==> OrderedMatches(db, s) == []
  {
    var ids := set row | row in LeftJoin(db.pdfs, db.tagsToPdfs) && Where(row, s) :: row.pdf.id;
    MatchedIdsEmpty(db, s, ids);
    |ids|
  }

  lemma MatchedIdsEmpty(db: Database, s: SearchFilter, ids: set<Uuid>)
    requires ids == set row | row in LeftJoin(db.pdfs, db.tagsToPdfs) && Where(row, s) :: row.pdf.id
    ensures ids == {} <==> OrderedMatches(db, s) == []
  {
    var o := OrderedMatches(db, s);
    if o != [] {
      InOrderedMatches(db, s, o[0]);
      var row :| row in LeftJoin(db.pdfs, db.tagsToPdfs) && Where(row, s) && row.pdf == o[0];
      assert row.pdf.id in ids;
    }
    if ids != {} {
      var id :| id in ids;
      var row :| row in LeftJoin(db.pdfs, db.tagsToPdfs) && Where(row, s) && row.pdf.id == id;
      InOrderedMatches(db, s, row.pdf);
      assert row.pdf in o;
    }
  }

  /** The reference meaning of the predicate on one document, without the join: title and
      author filters on its own columns, and a tag filter met by one of its tag names. */
  predicate Matches(p: Pdf, rels: seq<TagRelation>, s: SearchFilter) {
    && FilterMatches(s.title, p.title)
    && FilterMatches(s.author, p.author)
    && (s.tag.None? || exists r | r in rels :: r.id == p.id && FilterMatches(s.tag, r.name))
  }

  /** A document is among the ordered matches exactly when it is in the table and meets
      the reference predicate. */
  lemma MatchesIffSelected(db: Database, s: SearchFilter, p: Pdf)
    ensures p in OrderedMatches(db, s) <==> p in db.pdfs && Matches(p, db.tagsToPdfs, s)
  {
    var rels := db.tagsToPdfs;
    var rows := LeftJoin(db.pdfs, rels);
    if p in OrderedMatches(db, s) {
      var row :| row in rows && Where(row, s) && row.pdf == p;
      if s.tag.Some? {
        assert TagRelation(p.id, row.name) in rels;
      }
    }
    if p in db.pdfs && Matches(p, rels, s) {
      var row;
      if s.tag.Some? {
        var r :| r in rels && r.id == p.id && FilterMatches(s.tag, r.name);
        row := JoinRow(p, r.name);
        assert r == TagRelation(p.id, r.name);
      } else if HasRelations(rels, p.id) {
        var r :| r in rels && r.id == p.id;
        row := JoinRow(p, r.name);
        assert r == TagRelation(p.id, r.name);
      } else {
        row := JoinRow(p, None);
      }
      assert row in rows && Where(row, s);
    }
  }

  /** A document without tag rows never matches a present tag filter: its joined row has
      a NULL tag name. */
  lemma UntaggedNeverMatchesTagFilter(db: Database, s: SearchFilter, p: Pdf)
    requires s.tag.Some? && !HasRelations(db.tagsToPdfs, p.id)
    ensures p !in OrderedMatches(db, s)
  {
    MatchesIffSelected(db, s, p);
  }

  lemma SameIdSameRow(pdfs: seq<Pdf>, a: Pdf, b: Pdf)
    requires DistinctIds(pdfs) && a in pdfs && b in pdfs && a.id == b.id
    ensures a == b
  {
    var i :| 0 <= i < |pdfs| && pdfs[i] == a;
    var j :| 0 <= j < |pdfs| && pdfs[j] == b;
    assert i == j;
  }

  /** On a table with a primary key the ordered matches carry distinct ids and are
      strictly increasing in `(time_added, id)`. */
  lemma OrderedMatchesStrict(db: Database, s: SearchFilter)
    requires DistinctIds(db.pdfs)
    ensures DistinctIds(OrderedMatches(db, s))
    ensures forall i, j | 0 <= i < j < |OrderedMatches(db, s)| ::
      KeyBefore(OrderedMatches(db, s)[i], OrderedMatches(db, s)[j])
  {
    var d := Distinct(SelectWhere(LeftJoin(db.pdfs, db.tagsToPdfs), s));
    forall i, j | 0 <= i < j < |d| ensures d[i].id != d[j].id {
      MatchesIffSelected(db, s, d[i]);
      MatchesIffSelected(db, s, d[j]);
      if d[i].id == d[j].id { SameIdSameRow(db.pdfs, d[i], d[j]); }
    }
    SortKeepsDistinctIds(d);
  }

  /** The ids of the rows of `s`. */
  function IdsOf(s: seq<Pdf>): set<Uuid> {
    set p | p in s :: p.id
  }

  lemma IdsOfCons(s: seq<Pdf>)
    requires s != []
    ensures IdsOf(s) == {s[0].id} + IdsOf(s[1..])
  {
    assert s == [s[0]] + s[1..];
  }

  lemma {:induction false} IdSetSize(s: seq<Pdf>)
    requires DistinctIds(s)
    ensures |IdsOf(s)| == |s|
  {
    if s != [] {
      var rest := IdsOf(s[1..]);
      assert |rest| == |s| - 1 by {
        assert DistinctIds(s[1..]);
        IdSetSize(s[1..]);
      }
      assert s[0].id !in rest by {
        forall p | p in s[1..] ensures p.id != s[0].id {
          var k :| 0 <= k < |s[1..]| && s[1..][k] == p; assert p == s[k + 1];
        }
      }
      IdsOfCons(s);
    }
  }

  /** The count query counts exactly the documents the page query orders and windows, so
      the total reported matches the rows that can be paged through. */
  lemma CountEqualsOrderedMatches(db: Database, s: SearchFilter)
    requires DistinctIds(db.pdfs)
    ensures CountDistinctIds(db, s) == |OrderedMatches(db, s)|
  {
    var o := OrderedMatches(db, s);
    MatchingIdsAreOrderedIds(db, s);
    OrderedMatchesStrict(db, s);
    IdSetSize(o);
  }

  lemma InOrderedMatches(db: Database, s: SearchFilter, p: Pdf)
    ensures p in OrderedMatches(db, s) <==>
      exists row | row in LeftJoin(db.pdfs, db.tagsToPdfs) :: Where(row, s) && row.pdf == p
  {
    var sel := SelectWhere(LeftJoin(db.pdfs, db.tagsToPdfs), s);
    assert p in OrderedMatches(db, s) <==> p in Distinct(sel);
    assert p in Distinct(sel) <==> p in sel;
  }

  lemma MatchingIdsAreOrderedIds(db: Database, s: SearchFilter)
    ensures (set row | row in LeftJoin(db.pdfs, db.tagsToPdfs) && Where(row, s) :: row.pdf.id)
         == IdsOf(OrderedMatches(db, s))
  {
    var rows := LeftJoin(db.pdfs, db.tagsToPdfs);
    var o := OrderedMatches(db, s);
    var ids := set row | row in rows && Where(row, s) :: row.pdf.id;
    var oids := IdsOf(o);
    forall id | id in ids ensures id in oids {
      var row :| row in rows && Where(row, s) && row.pdf.id == id;
      InOrderedMatches(db, s, row.pdf);
    }
    forall id | id in oids ensures id in ids {
      var p :| p in o && p.id == id;
      InOrderedMatches(db, s, p);
      var row :| row in rows && Where(row, s) && row.pdf == p;
    }
  }

  datatype SearchStatement = PageQuery | CountQuery

  /** Connection-level failures of the two statements, which the model cannot derive from
      the tables. */
  datatype QueryFaults = QueryFaults(pageQueryFails: bool, countQueryFails: bool)

  const SEARCH_ERROR: string := "An error occured searching the pdfs"
  const PAGED_ERROR: string := "Error retrieving paginated data"
  const COUNT_ERROR: string := "Error getting number of pdfs"

  /** PostgreSQL refuses a negative LIMIT or OFFSET. */
  predicate PageStatementFails(size: i32, page: i32, connectionFails: bool)
    ensures PageStatementFails(size, page, connectionFails) <==>
      connectionFails || size < 0 || (size > 0 && page < 1 && page != I32_MIN)
  {
    connectionFails || size < 0 || PageOffset(size, page) < 0
  }

  /** `search`: the page statement runs first; when it fails the count statement does not
      run. On success the previews are the requested window of the ordered matches and the
      count is the number of those matches. */
  function Search(db: Database, dto: PdfSearchDto, faults: QueryFaults)
    : (t: Traced<Result<PdfOverviewDto, string>, SearchStatement>)
    requires dto.size.Some? && dto.page.Some?
    ensures PageStatementFails(dto.size.value, dto.page.value, faults.pageQueryFails) ==>
      t == Traced(Failure(SEARCH_ERROR), [PageQuery])
    ensures !PageStatementFails(dto.size.value, dto.page.value, faults.pageQueryFails) ==>
      t.calls == [PageQuery, CountQuery]
    ensures t.result.Failure? ==> t.result.error == SEARCH_ERROR
    ensures t.result.Success? <==>
      !PageStatementFails(dto.size.value, dto.page.value, faults.pageQueryFails) && !faults.countQueryFails
    ensures t.result.Success? ==>
      t.result.value.pdfsPreviews ==
        Overviews(Window(OrderedMatches(db, FilterOf(dto)), dto.size.value, PageOffset(dto.size.value, dto.page.value)))
    ensures t.result.Success? && DistinctIds(db.pdfs) ==>
      t.result.value.count == Some(|OrderedMatches(db, FilterOf(dto))|)
    ensures t.result.Success? && DistinctIds(db.pdfs) ==>
      DistinctIds(Window(OrderedMatches(db, FilterOf(dto)), dto.size.value, PageOffset(dto.size.value, dto.page.value)))
  {
    var size := dto.size.value;
    var offset := PageOffset(size, dto.page.value);
    if PageStatementFails(size, dto.page.value, faults.pageQueryFails) then
      Traced(Failure(SEARCH_ERROR), [PageQuery])
    else
      var page := Window(OrderedMatches(db, FilterOf(dto)), size, offset);
      if faults.countQueryFails then
        Traced(Failure(SEARCH_ERROR), [PageQuery, CountQuery])
      else
        SearchPageFacts(db, FilterOf(dto), size, offset);
        Traced(Success(PdfOverviewDto(Overviews(page), Some(CountDistinctIds(db, FilterOf(dto))))), [PageQuery, CountQuery])
  }

  /** What a successful search returns, on a table with a primary key. */
  lemma SearchPageFacts(db: Database, f: SearchFilter, size: nat, offset: nat)
    ensures DistinctIds(db.pdfs) ==> CountDistinctIds(db, f) == |OrderedMatches(db, f)|
    ensures DistinctIds(db.pdfs) ==> DistinctIds(Window(OrderedMatches(db, f), size, offset))
  {
    if DistinctIds(db.pdfs) {
      CountEqualsOrderedMatches(db, f);
      OrderedMatchesStrict(db, f);
      var o := OrderedMatches(db, f);
      var w := Window(o, size, offset);
      forall i, j | 0 <= i < j < |w| ensures w[i].id != w[j].id {
        assert w[i] == o[offset + i] && w[j] == o[offset + j];
      }
    }
  }

  /** `total_number_of_pdfs`: `SELECT count(*) FROM pdfs`. */
  function TotalNumberOfPdfs(db: Database, connectionFails: bool): (r: Result<Option<int>, string>)
    ensures r.Success? <==> !connectionFails
    ensures r.Success? ==> r.value == Some(|db.pdfs|)
    ensures r.Failure? ==> r.error == COUNT_ERROR
  {
    if connectionFails then Failure(COUNT_ERROR) else Success(Some(|db.pdfs|))
  }

  /** `get_pdfs_paged`: the whole table in `(time_added, id)` order, windowed. */
  function GetPdfsPaged(db: Database, paging: PagingDto, connectionFails: bool)
    : (r: Result<seq<PdfOverview>, string>)
    requires paging.size.Some? && paging.page.Some?
    ensures r.Success? <==> !PageStatementFails(paging.size.value, paging.page.value, connectionFails)
    ensures r.Failure? ==> r.error == PAGED_ERROR
    ensures r.Success? ==>
      r.value == Overviews(Window(SortByKey(db.pdfs), paging.size.value,
                                  PageOffset(paging.size.value, paging.page.value)))
  {
    var size := paging.size.value;
    var offset := PageOffset(size, paging.page.value);
    if PageStatementFails(size, paging.page.value, connectionFails) then Failure(PAGED_ERROR)
    else Success(Overviews(Window(SortByKey(db.pdfs), size, offset)))
  }

  // ---------------------------------------------------------------------------
  // Paging through every result
  // ---------------------------------------------------------------------------

  lemma {:induction false} OverviewsAppend(a: seq<Pdf>, b: seq<Pdf>)
    ensures Overviews(a + b) == Overviews(a) + Overviews(b)
  {
    var l := Overviews(a + b);
    var r := Overviews(a) + Overviews(b);
    forall k | 0 <= k < |l| ensures l[k] == r[k] {
      if k < |a| { assert (a + b)[k] == a[k]; } else { assert (a + b)[k] == b[k - |a|]; }
    }
  }

  /** For a size and a page that are not negative and positive, the offset is the
      unwrapped `size * (page - 1)` and is not negative. */
  lemma PageOffsetOfPage(size: i32, p: i32)
    requires size >= 0 && p >= 1
    ensures PageOffset(size, p) == size * (p - 1) >= 0
    ensures !PageStatementFails(size, p, false)
  {
    var a: nat := size;
    var b: nat := p - 1;
    assert a * b >= 0;
  }

  lemma AppendPage(o: seq<Pdf>, size: nat, k: nat, prev: seq<PdfOverview>, last: seq<PdfOverview>)
    requires k >= 1
    requires prev == Overviews(Pages(o, size, k - 1)) && last == Overviews(Page(o, size, k))
    ensures prev + last == Overviews(Pages(o, size, k))
  {
    OverviewsAppend(Pages(o, size, k - 1), Page(o, size, k));
  }

  /** The search request for page `p` of size `size` with the filters of `f`. */
  function SearchPageRequest(f: SearchFilter, size: i32, p: i32): PdfSearchDto {
    PdfSearchDto(f.title, f.author, f.tag, Some(size), Some(p))
  }

  /** Search page `p` requested without faults: it succeeds, holds page `p` of the
      ordered matches and reports their number. */
  function SearchPage(db: Database, f: SearchFilter, size: i32, p: i32): (r: PdfOverviewDto)
    requires size >= 0 && p >= 1
    ensures r.pdfsPreviews == Overviews(Page(OrderedMatches(db, f), size, p))
  {
    PageOffsetOfPage(size, p);
    Search(db, SearchPageRequest(f, size, p), QueryFaults(false, false)).result.value
  }

  /** `SearchPage` is what `search` answers for that page. */
  lemma SearchPageIsSearch(db: Database, f: SearchFilter, size: i32, p: i32)
    requires size >= 0 && p >= 1
    ensures Search(db, SearchPageRequest(f, size, p), QueryFaults(false, false)).result
         == Success(SearchPage(db, f, size, p))
  {
    PageOffsetOfPage(size, p);
  }

  /** Every page reports the number of ordered matches as `count`. */
  lemma SearchPageCount(db: Database, f: SearchFilter, size: i32, p: i32)
    requires DistinctIds(db.pdfs) && size >= 0 && p >= 1
    ensures SearchPage(db, f, size, p).count == Some(|OrderedMatches(db, f)|)
  {
    PageOffsetOfPage(size, p);
  }

  /** Paging through a search: page `p` holds page `p` of the ordered matches, and pages
      1 to ceil(n/size) of those, one after the other, are every match exactly once in
      `(time_added, id)` order; every later page is empty. */
  lemma SearchPagesPartitionMatches(db: Database, f: SearchFilter, size: i32)
    requires size > 0
    ensures Pages(OrderedMatches(db, f), size, PageCount(|OrderedMatches(db, f)|, size)) == OrderedMatches(db, f)
    ensures forall p: i32 | p > PageCount(|OrderedMatches(db, f)|, size) ::
      SearchPage(db, f, size, p).pdfsPreviews == []
  {
    var o := OrderedMatches(db, f);
    PagesPartition(o, size);
  }

  /** Listing page `p` requested without faults. */
  function ListedPage(db: Database, size: i32, p: i32): (r: seq<PdfOverview>)
    requires size >= 0 && p >= 1
    ensures GetPdfsPaged(db, PagingDto(Some(size), Some(p)), false) == Success(r)
    ensures r == Overviews(Page(SortByKey(db.pdfs), size, p))
  {
    PageOffsetOfPage(size, p);
    GetPdfsPaged(db, PagingDto(Some(size), Some(p)), false).value
  }

  /** The listing pages 1..k, requested one after the other. */
  function ListedPages(db: Database, size: i32, k: nat): seq<PdfOverview>
    requires size >= 0 && k <= I32_MAX
  {
    if k == 0 then [] else ListedPages(db, size, k - 1) + ListedPage(db, size, k)
  }

  lemma {:induction false} ListedPagesArePages(db: Database, size: i32, k: nat)
    requires size >= 0 && k <= I32_MAX
    ensures ListedPages(db, size, k) == Overviews(Pages(SortByKey(db.pdfs), size, k))
  {
    if k > 0 {
      ListedPagesArePages(db, size, k - 1);
      AppendPage(SortByKey(db.pdfs), size, k, ListedPages(db, size, k - 1), ListedPage(db, size, k));
    }
  }

  /** Listing pages 1..ceil(total/size), where total is what `total_number_of_pdfs`
      reports, shows every document of the table once, in `(time_added, id)` order. */
  lemma ListingPagesPartitionTable(db: Database, size: i32)
    requires size > 0 && PageCount(|db.pdfs|, size) <= I32_MAX
    ensures TotalNumberOfPdfs(db, false) == Success(Some(|db.pdfs|))
    ensures ListedPages(db, size, PageCount(|db.pdfs|, size)) == Overviews(SortByKey(db.pdfs))
    ensures |ListedPages(db, size, PageCount(|db.pdfs|, size))| == |db.pdfs|
    ensures forall p | p in db.pdfs :: ToOverview(p) in ListedPages(db, size, PageCount(|db.pdfs|, size))
  {
    var o := SortByKey(db.pdfs);
    ListedPagesArePages(db, size, PageCount(|db.pdfs|, size));
    PagesPartition(o, size);
    forall p | p in db.pdfs ensures ToOverview(p) in Overviews(o) {
      var k :| 0 <= k < |o| && o[k] == p;
      assert Overviews(o)[k] == ToOverview(p);
    }
  }

  // ---------------------------------------------------------------------------
  // Lookups by id
  // ---------------------------------------------------------------------------

  const NOT_FOUND_ERROR: string := "No pdf with given ID exists"
  const METADATA_ERROR: string := "Error retrieving requested pdf"
  const TAGS_ERROR: string := "Error retrieving the tags associated with pdf"
  const FILE_NAME_ERROR: string := "Error retrieving pdf information"

  /** The row with primary key `id`, if there is one. */
  function FindById(pdfs: seq<Pdf>, id: Uuid): (r: Option<Pdf>)
    ensures r.Some? ==> r.value in pdfs && r.value.id == id
    ensures r.None? <==> forall p | p in pdfs :: p.id != id
  {
    if pdfs == [] then None
    else if pdfs[0].id == id then Some(pdfs[0])
    else
      assert forall p | p in pdfs[1..] :: p in pdfs;
      FindById(pdfs[1..], id)
  }

  /** A failed metadata lookup: any database error is a database error, every other failure
      (no row, I/O, pool, decoding) is reported as "not found". */
  function ClassifyMetadataError(e: SqlError): (r: PdfMetadataByIdError)
    ensures r.NotFound? <==> !IsDatabaseError(e)
    ensures r.NotFound? ==> r.msg == NOT_FOUND_ERROR
    ensures r.DatabaseError? ==> r.msg == METADATA_ERROR
  {
    if IsDatabaseError(e) then DatabaseError(METADATA_ERROR) else NotFound(NOT_FOUND_ERROR)
  }

  /** `get_pdf_metadata_by_id`: `SELECT * FROM pdfs WHERE id = $1` with `fetch_one`;
      `failure` is a statement failure the tables cannot explain. */
  function GetPdfMetadataById(db: Database, id: Uuid, failure: Option<SqlError>)
    : (r: Result<Pdf, PdfMetadataByIdError>)
    ensures r.Success? <==> failure.None? && exists p | p in db.pdfs :: p.id == id
    ensures r.Success? ==> r.value in db.pdfs && r.value.id == id
    ensures r == Failure(NotFound(NOT_FOUND_ERROR)) <==>
      (failure.None? && forall p | p in db.pdfs :: p.id != id)
      || (failure.Some? && !IsDatabaseError(failure.value))
    ensures r == Failure(DatabaseError(METADATA_ERROR)) <==>
      failure.Some? && IsDatabaseError(failure.value)
  {
    var fetched: Result<Pdf, SqlError> :=
      if failure.Some? then Failure(failure.value)
      else match FindById(db.pdfs, id)
        case Some(p) => Success(p)
        case None => Failure(RowNotFound);
    match fetched
    case Success(p) => Success(p)
    case Failure(e) => Failure(ClassifyMetadataError(e))
  }

  /** The names of relation rows whose name is not NULL, in row order. */
  function TagNames(rows: seq<TagRelation>): (names: seq<string>)
    requires forall r | r in rows :: r.name.Some?
    ensures |names| == |rows|
    ensures forall k | 0 <= k < |rows| :: rows[k].name == Some(names[k])
  {
    if rows == [] then [] else [rows[0].name.value] + TagNames(rows[1..])
  }

  /** The tag names of a document: one per relation row, in row order. */
  function AssociatedTags(db: Database, id: Uuid): seq<string>
    requires forall rel | rel in db.tagsToPdfs && rel.id == id :: rel.name.Some?
  {
    TagNames(RowsWithId(db.tagsToPdfs, id))
  }

  /** A name is among a document's tags exactly when the relation holds that pair. */
  lemma AssociatedTagsMembership(db: Database, id: Uuid, n: string)
    requires forall rel | rel in db.tagsToPdfs && rel.id == id :: rel.name.Some?
    ensures n in AssociatedTags(db, id) <==> TagRelation(id, Some(n)) in db.tagsToPdfs
  {
    var rows := RowsWithId(db.tagsToPdfs, id);
    var names := AssociatedTags(db, id);
    if n in names {
      var k :| 0 <= k < |names| && names[k] == n;
      assert rows[k] in rows;
    }
    if TagRelation(id, Some(n)) in db.tagsToPdfs {
      var k :| 0 <= k < |rows| && rows[k] == TagRelation(id, Some(n));
      assert names[k] == n;
    }
  }

  /** `get_associated_tags_of_pdf`: the tag names of the document's relation rows, in row
      order. A NULL name would make the source panic, so callers provide none. */
  method GetAssociatedTagsOfPdf(db: Database, id: Uuid, queryFails: bool)
    returns (r: Result<seq<string>, PdfMetadataByIdError>)
    requires forall rel | rel in db.tagsToPdfs && rel.id == id :: rel.name.Some?
    ensures r.Success? <==> !queryFails
    ensures r.Failure? ==> r.error == DatabaseError(TAGS_ERROR)
    ensures r.Success? ==> r.value == AssociatedTags(db, id)
  {
    if queryFails {
      return Failure(DatabaseError(TAGS_ERROR));
    }
    var rows := RowsWithId(db.tagsToPdfs, id);
    var tags: seq<string> := [];
    var i := 0;
    while i < |rows|
      invariant 0 <= i <= |rows| && |tags| == i
      invariant forall k | 0 <= k < i :: rows[k].name == Some(tags[k])
    {
      assert rows[i] in rows;
      tags := tags + [rows[i].name.value];
      i := i + 1;
    }
    return Success(tags);
  }

  /** `get_by_id`: the stored file name of the document, which the service then reads. */
  function GetFileNameById(db: Database, id: Uuid, connectionFails: bool): (r: Result<string, string>)
    ensures r.Success? <==> !connectionFails && exists p | p in db.pdfs :: p.id == id
    ensures r.Success? ==> exists p | p in db.pdfs :: p.id == id && p.fileName == r.value
    ensures r.Failure? ==> r.error == FILE_NAME_ERROR
  {
    if connectionFails then Failure(FILE_NAME_ERROR)
    else match FindById(db.pdfs, id)
      case Some(p) => Success(p.fileName)
      case None => Failure(FILE_NAME_ERROR)
  }
}
