/** Child listings: the visibility gate in Rust and in SQL, and the paging windows over what it lets through. */
module Listing {
  import opened Wrappers
  import opened Roles
  import opened Sorting
  import opened StoredDate

  /** A content page row; `date` is the stored creation date, which is also the instant of publication. */
  datatype Row = Row(id: int, parent: Option<int>, name: string, title: Option<string>, markdown: string,
                     date: Stamp, pageOrder: int, special: bool, minRole: Option<string>)

  function Published(row: Row): int { Instant(row.date) }

  // ---- The gates ----

  predicate IsScheduled(row: Row, now: int) { Published(row) > now }

  predicate IsVisibleTo(row: Row, viewer: Role, now: int) {
    (row.special || viewer == Admin || !IsScheduled(row, now)) && Passes(FromStored(row.minRole), viewer)
  }

  predicate IsNavVisibleTo(row: Row, viewer: Role, now: int) {
    (row.special || !IsScheduled(row, now)) && Passes(FromStored(row.minRole), viewer)
  }

  /** The two gate clauses of the queries; `datetime()` drops the fraction of a second on both sides. */
  predicate SqlVisible(row: Row, viewerIsAdmin: bool, viewerRank: nat, now: int) {
    (viewerIsAdmin || row.special || Published(row) / SECOND <= now / SECOND) && SqlCase(row.minRole) <= viewerRank
  }

  /** Who sees a page: whoever its stored role admits, once it is due, or at once if it is special or the viewer an
      admin; and in the navigation an admin too must wait. */
  lemma VisibleIff(row: Row, viewer: Role, now: int)
    ensures IsVisibleTo(row, viewer, now) <==>
            (row.special || viewer == Admin || Published(row) <= now) && Admits(row.minRole, viewer)
    ensures IsNavVisibleTo(row, viewer, now) <==> (row.special || Published(row) <= now) && Admits(row.minRole, viewer)
    ensures SqlVisible(row, viewer == Admin, Rank(viewer), now) <==>
            (row.special || viewer == Admin || Published(row) / 1_000_000_000 <= now / 1_000_000_000) &&
            Admits(row.minRole, viewer)
  {
    AdmitsIff(row.minRole, viewer);
  }

  /** The SQL gate and the Rust gate disagree exactly on a page due later within the current second, for a
      viewer who passes its role gate without being an admin; then SQL shows it early. */
  lemma GatesDisagreeIff(row: Row, viewer: Role, now: int)
    ensures SqlVisible(row, viewer == Admin, Rank(viewer), now) != IsVisibleTo(row, viewer, now) <==>
            now < Published(row) && Published(row) / SECOND == now / SECOND && !row.special && viewer != Admin &&
            Admits(row.minRole, viewer)
    ensures IsVisibleTo(row, viewer, now) ==> SqlVisible(row, viewer == Admin, Rank(viewer), now)
  {
    AdmitsIff(row.minRole, viewer);
    FloorMonotone(Published(row), now);
    FloorMonotone(now, Published(row));
  }

  /** Such a page: due half a second after the second the clock is in. */
  lemma ListedHalfASecondEarly()
    ensures var row := Row(1, None, "p", None, "", OnSetDate(SECOND + SECOND / 2), 0, false, None);
            SqlVisible(row, false, Rank(Anonymous), SECOND) && !IsVisibleTo(row, Anonymous, SECOND)
  {
    GatesDisagreeIff(Row(1, None, "p", None, "", OnSetDate(SECOND + SECOND / 2), 0, false, None), Anonymous, SECOND);
  }

  lemma FloorMonotone(a: int, b: int)
    ensures a <= b ==> a / SECOND <= b / SECOND
  {
  }

  lemma GatesAgreeAtWholeSeconds(row: Row, viewer: Role, now: int)
    requires Published(row) % SECOND == 0 && now % SECOND == 0
    ensures SqlVisible(row, viewer == Admin, Rank(viewer), now) <==> IsVisibleTo(row, viewer, now)
  {
    GatesDisagreeIff(row, viewer, now);
  }

  /** The ladder: anonymous, registered, family, admin. */
  predicate NoHigher(low: Role, high: Role) {
    low == high || low == Anonymous || high == Admin || (low == Registered && high == Family)
  }

  /** One role sees everything another sees, on either gate, exactly when it stands at least as high on the ladder. */
  lemma SupersetIff(low: Role, high: Role)
    ensures NoHigher(low, high) <==> forall row, now :: IsVisibleTo(row, low, now) ==> IsVisibleTo(row, high, now)
    ensures NoHigher(low, high) <==> forall row, now :: IsNavVisibleTo(row, low, now) ==> IsNavVisibleTo(row, high, now)
  {
    var gate := MinRole(if low.Anonymous? then None else Some(low));
    var row := Row(0, None, "", None, "", Default(0), 0, true, ToStored(gate));
    assert IsVisibleTo(row, low, 0) && IsNavVisibleTo(row, low, 0);
    assert IsVisibleTo(row, high, 0) ==> NoHigher(low, high);
    assert IsNavVisibleTo(row, high, 0) ==> NoHigher(low, high);
  }

  // ---- The queries ----

  predicate IsHexDigit(ch: char) { '0' <= ch <= '9' || 'a' <= ch <= 'f' || 'A' <= ch <= 'F' }

  /** A search made of hex digits alone skips the body, where embed ids would match it. */
  predicate SearchesBody(search: string) {
    exists i :: 0 <= i < |search| && !IsHexDigit(search[i])
  }

  /** What one listing asks for. `like(s, t)` is the database's LIKE '%s%' on t. */
  datatype Query = Query(parent: Option<int>, search: string, like: (string, string) -> bool, viewer: Role, now: int)

  predicate Matches(q: Query, row: Row) {
    || q.search == ""
    || (row.title.Some? && q.like(q.search, row.title.value))
    || (SearchesBody(q.search) && q.like(q.search, row.markdown))
    || q.like(q.search, row.name)
  }

  predicate Wanted(q: Query, row: Row) {
    row.parent == q.parent && Matches(q, row) && SqlVisible(row, q.viewer == Admin, Rank(q.viewer), q.now)
  }

  /** The rows a listing is about: the parent's children whose title or name, or, for a search that is not all hex
      digits, whose text the search matches, and which the viewer may see by now. */
  lemma WantedIff(q: Query, row: Row)
    ensures Wanted(q, row) <==>
            row.parent == q.parent &&
            (q.search == "" || q.like(q.search, row.name) || (row.title.Some? && q.like(q.search, row.title.value)) ||
             (q.like(q.search, row.markdown) && !AllHex(q.search))) &&
            (row.special || q.viewer == Admin || Published(row) / 1_000_000_000 <= q.now / 1_000_000_000) &&
            Admits(row.minRole, q.viewer)
  {
    hide Admits;
    VisibleIff(row, q.viewer, q.now);
    forall i | 0 <= i < |q.search|
      ensures IsHexDigit(q.search[i]) <==> q.search[i] in HEX_DIGITS
    {
      HexDigits(q.search[i]);
    }
  }

  const HEX_DIGITS: string := "0123456789abcdefABCDEF"

  predicate AllHex(s: string) { forall i :: 0 <= i < |s| ==> s[i] in HEX_DIGITS }

  lemma HexDigits(c: char)
    ensures IsHexDigit(c) <==> c in HEX_DIGITS
  {
    if '0' <= c <= '9' {
      assert HEX_DIGITS[c as int - '0' as int] == c;
    } else if 'a' <= c <= 'f' {
      assert HEX_DIGITS[10 + c as int - 'a' as int] == c;
    } else if 'A' <= c <= 'F' {
      assert HEX_DIGITS[16 + c as int - 'A' as int] == c;
    }
  }

  function Where(q: Query, table: seq<Row>): (r: seq<Row>)
    ensures forall row :: row in r <==> row in table && Wanted(q, row)
  {
    if table == [] then []
    else
      assert table == [table[0]] + table[1..];
      var rest := Where(q, table[1..]);
      if Wanted(q, table[0]) then [table[0]] + rest else rest
  }

  ghost predicate DistinctIds(rows: seq<Row>) {
    forall i, j :: 0 <= i < j < |rows| ==> rows[i].id != rows[j].id
  }

  lemma {:induction false} WhereDistinct(q: Query, table: seq<Row>)
    requires DistinctIds(table)
    ensures DistinctIds(Where(q, table))
  {
    hide Wanted;
    if table != [] {
      var rest := Where(q, table[1..]);
      WhereDistinct(q, table[1..]);
      forall i | 0 <= i < |rest|
        ensures rest[i].id != table[0].id
      {
        assert rest[i] in table[1..];
      }
    }
  }

  datatype Order = Newest | Ordered

  /** The ORDER BY clause: the date's text descending or `page_order` ascending, the id breaking ties the same way. */
  function By(order: Order): (Row, Row) -> bool {
    match order
    case Newest => (a: Row, b: Row) => TextBefore(b, a) || (Text(a.date) == Text(b.date) && a.id >= b.id)
    case Ordered => (a: Row, b: Row) => a.pageOrder < b.pageOrder || (a.pageOrder == b.pageOrder && a.id <= b.id)
  }

  predicate TextBefore(a: Row, b: Row) { StoredDate.Before(Text(a.date), Text(b.date)) }

  lemma ByIsPreorder(order: Order)
    ensures IsPreorder(By(order))
  {
    hide Text, StoredDate.Before;
    if order == Newest {
      forall a: Row, b: Row
        ensures By(order)(a, b) || By(order)(b, a)
      {
        BeforeTotal(Text(a.date), Text(b.date));
      }
      forall a: Row, b: Row, c: Row | By(order)(a, b) && By(order)(b, c)
        ensures By(order)(a, c)
      {
        if TextBefore(c, b) && TextBefore(b, a) {
          BeforeTransitive(Text(c.date), Text(b.date), Text(a.date));
        }
      }
    }
  }

  lemma ByHasNoTies(order: Order, rows: seq<Row>)
    requires DistinctIds(rows)
    ensures NoTies(By(order), rows)
  {
    hide Text, StoredDate.Before;
    forall a, b | a in rows && b in rows && By(order)(a, b) && By(order)(b, a)
      ensures a == b
    {
      BeforeTotal(Text(a.date), Text(b.date));
      assert a.id == b.id;
    }
  }

  function OrderBy(order: Order, rows: seq<Row>): (r: seq<Row>)
    ensures |r| == |rows|
  {
    Sort(By(order), rows)
  }

  lemma OrderByOrders(order: Order, rows: seq<Row>)
    requires DistinctIds(rows)
    ensures multiset(OrderBy(order, rows)) == multiset(rows)
    ensures forall row :: row in OrderBy(order, rows) <==> row in rows
    ensures InOrder(By(order), OrderBy(order, rows)) && NoTies(By(order), OrderBy(order, rows))
  {
    hide By, DistinctIds;
    ByIsPreorder(order);
    ByHasNoTies(order, rows);
    SortOrders(By(order), rows);
  }

  /** What the two orders are: lowest `page_order` first and then lowest id; latest date text first and then
      highest id. */
  lemma OrderMeans(rows: seq<Row>, i: nat, j: nat)
    requires DistinctIds(rows) && i < j < |rows|
    ensures var s := OrderBy(Ordered, rows);
            s[i].pageOrder < s[j].pageOrder || (s[i].pageOrder == s[j].pageOrder && s[i].id < s[j].id)
    ensures var s := OrderBy(Newest, rows);
            StoredDate.Before(Text(s[j].date), Text(s[i].date)) ||
            (Text(s[i].date) == Text(s[j].date) && s[i].id > s[j].id)
  {
    hide Text, StoredDate.Before, OrderBy;
    OrderByOrders(Ordered, rows);
    OrderByOrders(Newest, rows);
    StaysDistinct(rows, OrderBy(Ordered, rows));
    StaysDistinct(rows, OrderBy(Newest, rows));
  }

  lemma StaysDistinct(a: seq<Row>, b: seq<Row>)
    requires DistinctIds(a) && multiset(a) == multiset(b)
    ensures DistinctIds(b)
  {
    forall i, j | 0 <= i < j < |b|
      ensures b[i].id != b[j].id
    {
      if b[i].id == b[j].id {
        TwoOfAKind(b, i, j);
        assert b[i] in multiset(a) && b[j] in multiset(a);
        assert b[i] == b[j];
        AtMostOnce(a, b[i]);
      }
    }
  }

  lemma TwoOfAKind(s: seq<Row>, i: nat, j: nat)
    requires i < j < |s|
    ensures s[i] == s[j] ==> multiset(s)[s[i]] >= 2
  {
    assert s == s[..j] + s[j..];
    assert s[i] in s[..j] && s[j] in s[j..];
  }

  lemma {:induction false} AtMostOnce(s: seq<Row>, row: Row)
    requires DistinctIds(s)
    ensures multiset(s)[row] <= 1
  {
    if s != [] {
      AtMostOnce(s[1..], row);
      assert s == [s[0]] + s[1..];
      forall k | 0 <= k < |s| - 1
        ensures s[1..][k].id != s[0].id
      {
        assert s[1..][k] == s[k + 1];
      }
    }
  }

  function CountChildren(q: Query, table: seq<Row>): nat { |Where(q, table)| }

  /** `LIMIT` and `OFFSET` over the ordered rows. */
  function Slice(rows: seq<Row>, limit: nat, offset: nat): seq<Row> {
    var from := if offset < |rows| then offset else |rows|;
    rows[from..if from + limit < |rows| then from + limit else |rows|]
  }

  function FindChildrenPaged(q: Query, order: Order, table: seq<Row>, limit: nat, offset: nat): seq<Row> {
    Slice(OrderBy(order, Where(q, table)), limit, offset)
  }

  /** A page of rows does not depend on the order in which the table was scanned. */
  lemma ScanOrderIrrelevant(q: Query, order: Order, t1: seq<Row>, t2: seq<Row>, limit: nat, offset: nat)
    requires multiset(t1) == multiset(t2) && DistinctIds(t1) && DistinctIds(t2)
    ensures FindChildrenPaged(q, order, t1, limit, offset) == FindChildrenPaged(q, order, t2, limit, offset)
  {
    hide OrderBy, By, InOrder, NoTies, Wanted, Slice, Where;
    WhereMultiset(q, t1);
    WhereMultiset(q, t2);
    WhereDistinct(q, t1);
    WhereDistinct(q, t2);
    var a, b := Where(q, t1), Where(q, t2);
    forall row: Row
      ensures multiset(a)[row] == multiset(b)[row]
    {
    }
    assert multiset(a) == multiset(b);
    OrderByOrders(order, a);
    OrderByOrders(order, b);
    OrderIsUnique(By(order), OrderBy(order, a), OrderBy(order, b));
  }

  lemma {:induction false} WhereMultiset(q: Query, table: seq<Row>)
    ensures forall row :: multiset(Where(q, table))[row] == if Wanted(q, row) then multiset(table)[row] else 0
  {
    hide Wanted;
    if table != [] {
      assert table == [table[0]] + table[1..];
      WhereMultiset(q, table[1..]);
    }
  }

  // ---- Newest first ----

  ghost predicate NewestFirst(rows: seq<Row>) {
    forall i, j :: 0 <= i < j < |rows| ==> Published(rows[i]) >= Published(rows[j])
  }

  /** The two pages were published on one day, the first has been saved since, the second never was, and the
      second is the later one. */
  predicate Misplaced(saved: Row, untouched: Row) {
    saved.date.Bound? && untouched.date.Default? && DayOf(saved.date) == DayOf(untouched.date) &&
    Published(saved) < Published(untouched)
  }

  /** A row listed ahead of another is published no earlier, but for that one case. */
  lemma ListedAhead(a: Row, b: Row)
    requires FourDigitYear(a.date) && FourDigitYear(b.date) && By(Newest)(a, b)
    ensures Published(a) < Published(b) <==> Misplaced(a, b)
  {
    hide Text, StoredDate.Before;
    TextOrder(a.date, b.date);
    TextOrder(b.date, a.date);
    BeforeTotal(Text(a.date), Text(b.date));
    DayOrder(Published(a), Published(b));
  }

  lemma DayOrder(x: int, y: int)
    ensures x / DAY < y / DAY ==> x < y
    ensures x / DAY > y / DAY ==> x > y
  {
  }

  /** The newest-first listing is newest first by the instants exactly when no page shown that was ever saved again
      shares its day with a later page shown that never was. */
  lemma NewestFirstIff(q: Query, table: seq<Row>)
    requires DistinctIds(table) && forall row :: row in table ==> FourDigitYear(row.date)
    ensures NewestFirst(OrderBy(Newest, Where(q, table))) <==>
            forall a, b :: a in Where(q, table) && b in Where(q, table) ==> !Misplaced(a, b)
  {
    hide Where, Wanted, DistinctIds, NoTies, By, Text, StoredDate.Before, FourDigitYear, Misplaced;
    var shown := Where(q, table);
    var rows := OrderBy(Newest, shown);
    WhereDistinct(q, table);
    OrderByOrders(Newest, shown);
    WhereMember(q, table);
    forall i, j | 0 <= i < j < |rows|
      ensures Published(rows[i]) < Published(rows[j]) <==> Misplaced(rows[i], rows[j])
    {
      assert rows[i] in rows && rows[j] in rows;
      ListedAhead(rows[i], rows[j]);
    }
    forall a, b | a in shown && b in shown && Misplaced(a, b)
      ensures !NewestFirst(rows)
    {
      MisplacedIsAhead(a, b);
      StandsAhead(By(Newest), rows, a, b);
    }
  }

  lemma WhereMember(q: Query, table: seq<Row>)
    ensures forall row :: row in Where(q, table) ==> row in table
  {
  }

  lemma MisplacedIsAhead(a: Row, b: Row)
    requires FourDigitYear(a.date) && FourDigitYear(b.date) && Misplaced(a, b)
    ensures By(Newest)(a, b) && !By(Newest)(b, a) && Published(a) < Published(b)
  {
    hide Text, StoredDate.Before;
    TextOrder(b.date, a.date);
    TextOrder(a.date, b.date);
    BeforeTotal(Text(a.date), Text(b.date));
  }

  const HOUR: int := 3600 * SECOND

  /** A page made at 11:00 and left alone, and one made at 10:00 the same day and saved once since: the earlier
      page is listed first. */
  lemma SavedPageListedFirst(like: (string, string) -> bool)
    ensures var a := Row(1, None, "a", None, "", OnCreate(11 * HOUR), 0, false, None);
            var b := Row(2, None, "b", None, "", OnUpdate(OnCreate(10 * HOUR)), 0, false, None);
            var q := Query(None, "", like, Anonymous, 12 * HOUR);
            OrderBy(Newest, Where(q, [a, b])) == [b, a] && Published(b) < Published(a)
  {
    hide Text, StoredDate.Before;
    var a := Row(1, None, "a", None, "", OnCreate(11 * HOUR), 0, false, None);
    var b := Row(2, None, "b", None, "", OnUpdate(OnCreate(10 * HOUR)), 0, false, None);
    var q := Query(None, "", like, Anonymous, 12 * HOUR);
    assert DateOf(0) == Date(1970, 1, 1);
    MisplacedIsAhead(b, a);
    assert [a, b][1..] == [b] && [b][1..] == [];
    assert Where(q, [b]) == [b] && Where(q, [a, b]) == [a, b];
    assert Sort(By(Newest), [b]) == [b];
    assert Insert(By(Newest), a, [b]) == [b, a] by {
      assert Insert(By(Newest), a, []) == [a];
    }
  }

  // ---- paginate ----

  const PAGE_SIZE: int := 10

  datatype Pagination = Pagination(currentPage: int, totalPages: int, totalResults: nat)

  function TotalPages(total: nat): int {
    var pages := (total + PAGE_SIZE - 1) / PAGE_SIZE;
    if pages > 1 then pages else 1
  }

  function Clamp(page: int, low: int, high: int): int {
    if page < low then low else if page > high then high else page
  }

  method Paginate(q: Query, order: Order, page: Option<int>, table: seq<Row>)
    returns (items: seq<Row>, p: Pagination)
    ensures p.totalResults == CountChildren(q, table)
    ensures p.totalPages == TotalPages(p.totalResults) >= 1
    ensures 1 <= p.currentPage <= p.totalPages
    ensures page.Some? && 1 <= page.value <= p.totalPages ==> p.currentPage == page.value
    ensures page.None? || page.value < 1 ==> p.currentPage == 1
    ensures page.Some? && page.value > p.totalPages ==> p.currentPage == p.totalPages
    ensures items == Window(OrderBy(order, Where(q, table)), p.currentPage)
    ensures items == [] <==> p.totalResults == 0
  {
    hide OrderBy, Where;
    var total := CountChildren(q, table);
    var totalPages := if (total + PAGE_SIZE - 1) / PAGE_SIZE > 1 then (total + PAGE_SIZE - 1) / PAGE_SIZE else 1;
    var currentPage := Clamp(if page.Some? then page.value else 1, 1, totalPages);
    var offset := (currentPage - 1) * PAGE_SIZE;
    items := FindChildrenPaged(q, order, table, PAGE_SIZE, offset);
    p := Pagination(currentPage, totalPages, total);
  }

  /** The `k`-th page of ten. */
  function Window(rows: seq<Row>, k: int): seq<Row>
    requires k >= 1
  {
    Slice(rows, PAGE_SIZE, (k - 1) * PAGE_SIZE)
  }

  /** The first `k` pages, end to end. */
  function Windows(rows: seq<Row>, k: nat): seq<Row> {
    if k == 0 then [] else Windows(rows, k - 1) + Window(rows, k)
  }

  lemma {:induction false} WindowsArePrefix(rows: seq<Row>, k: nat)
    ensures Windows(rows, k) == rows[..if 10 * k < |rows| then 10 * k else |rows|]
  {
    if k > 0 {
      WindowsArePrefix(rows, k - 1);
    }
  }

  /** Following the pages from first to last gives every visible matching child, as often as the table holds
      it, in order. */
  lemma PagesPartition(q: Query, order: Order, table: seq<Row>)
    requires DistinctIds(table)
    ensures var all := Windows(OrderBy(order, Where(q, table)), TotalPages(CountChildren(q, table)));
            InOrder(By(order), all) &&
            forall row :: multiset(all)[row] == if Wanted(q, row) then multiset(table)[row] else 0
  {
    hide OrderBy, By, InOrder, NoTies, Wanted, Slice, Where;
    var rows := OrderBy(order, Where(q, table));
    WindowsArePrefix(rows, TotalPages(|rows|));
    assert rows[..|rows|] == rows;
    WhereDistinct(q, table);
    WhereMultiset(q, table);
    OrderByOrders(order, Where(q, table));
  }
}
