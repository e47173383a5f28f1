/**
 Reading the order book a page at a time.

 A page is asked for by the id the reader last saw. Between two requests the book may change in any way. What the
 reader is promised over a whole scroll is proved from what one page is.
 */
module Query {
  import opened Wrappers
  import opened Records
  import opened Sorting

  const MAX_PAGE: nat := 100
  const DEFAULT_PAGE: nat := 25

  datatype Filter = Filter(
    assetMint: Option<string>,
    fiatCurrency: Option<string>,
    direction: Option<Direction>,
    paymentMethod: Option<PaymentMethodRef>,
    amount: Option<Amount>,
    merchant: Option<PeerId>,
    statuses: Option<seq<AdvertisementStatus>>)
  {
    predicate Matches(ad: Advertisement) {
      && (if statuses.Some? then ad.status in statuses.value else ad.status == Active)
      && (merchant.Some? ==> ad.merchant == merchant.value)
      && (assetMint.Some? ==> ad.assetMint == assetMint.value)
      && (fiatCurrency.Some? ==> ad.fiatCurrency == fiatCurrency.value)
      && (direction.Some? ==> ad.direction == direction.value)
      && (paymentMethod.Some? ==> paymentMethod.value in ad.paymentMethods)
      && (amount.Some? ==> Takes(ad, amount.value))
    }
  }

  /** The trade size is between the advertisement's bounds and within its liquidity, in the bounds' own precision. */
  predicate Takes(ad: Advertisement, amount: Amount) {
    && amount.decimals == ad.minTrade.decimals
    && ad.minTrade.baseUnits <= amount.baseUnits <= ad.maxTrade.baseUnits
    && amount.baseUnits <= ad.availableLiquidity.baseUnits
  }

  datatype Page = Page(after: Option<string>, limit: Option<nat>)

  /** Whatever is asked for, a page holds between one row and `MAX_PAGE`. */
  function Limit(page: Page): (n: nat)
    ensures 1 <= n <= MAX_PAGE
    ensures page.limit.Some? && 1 <= page.limit.value <= MAX_PAGE ==> n == page.limit.value
    ensures page.limit.Some? && page.limit.value > MAX_PAGE ==> n == MAX_PAGE
    ensures page.limit.None? ==> n == DEFAULT_PAGE
  {
    var asked := if page.limit.Some? then page.limit.value else DEFAULT_PAGE;
    if asked < 1 then 1 else if asked > MAX_PAGE then MAX_PAGE else asked
  }

  datatype AdvertisementPage = AdvertisementPage(advertisements: seq<Advertisement>, nextCursor: Option<string>)

  predicate IsAfter(id: string, cursor: Option<string>) {
    cursor.Some? ==> StringLt(cursor.value, id)
  }

  predicate Wanted(filter: Filter, after: Option<string>, ad: Advertisement) {
    filter.Matches(ad) && IsAfter(ad.id, after)
  }

  function Select<T>(s: seq<T>, p: T -> bool): seq<T> {
    if s == [] then [] else Kept(s[0], p) + Select(s[1..], p)
  }

  function Kept<T>(x: T, p: T -> bool): seq<T> {
    if p(x) then [x] else []
  }

  /** The rows a filter keeps, and those of them past a cursor, as tests to select by. */
  function MatchesOf(filter: Filter): Advertisement -> bool {
    ad => filter.Matches(ad)
  }

  function WantedOf(filter: Filter, after: Option<string>): Advertisement -> bool {
    ad => Wanted(filter, after, ad)
  }

  predicate IdLe(a: Advertisement, b: Advertisement) {
    StringLe(a.id, b.id)
  }

  /**
   What a page is: put the wanted rows in id order, and take as many as the limit allows. The cursor names the last
   row exactly when the page is full.
   */
  ghost predicate IsPage(book: seq<Advertisement>, filter: Filter, after: Option<string>, limit: nat,
                         page: AdvertisementPage)
  {
    && (exists rest: seq<Advertisement> :: Splits(book, filter, after, limit, page.advertisements, rest))
    && (page.nextCursor.Some? <==> |page.advertisements| == limit && limit > 0)
    && (page.nextCursor.Some? ==> page.nextCursor.value == page.advertisements[|page.advertisements| - 1].id)
  }

  ghost predicate Splits(book: seq<Advertisement>, filter: Filter, after: Option<string>, limit: nat,
                         taken: seq<Advertisement>, rest: seq<Advertisement>)
  {
    && SortedBy(taken + rest, IdLe)
    && multiset(taken + rest) == multiset(Select(book, WantedOf(filter, after)))
    && |taken| <= limit
    && (|taken| == limit || rest == [])
  }

  // ---- Selecting commutes with rearranging ----

  lemma SelectFirst<T>(s: seq<T>, p: T -> bool)
    requires s != []
    ensures Select(s, p) == Kept(s[0], p) + Select(s[1..], p)
  {
  }

  lemma {:induction false} SelectAppend<T>(a: seq<T>, b: seq<T>, p: T -> bool)
    ensures Select(a + b, p) == Select(a, p) + Select(b, p)
  {
    if a == [] {
      assert a + b == b;
    } else {
      SelectAppend(a[1..], b, p);
      SelectFirst(a, p);
      SelectFirst(a + b, p);
      hide Select;
      assert (a + b)[1..] == a[1..] + b && (a + b)[0] == a[0];
      Reassociate(Kept(a[0], p), Select(a[1..], p), Select(b, p));
    }
  }

  lemma {:induction false} SelectCounts<T>(s: seq<T>, p: T -> bool, x: T)
    ensures multiset(Select(s, p))[x] == if p(x) then multiset(s)[x] else 0
  {
    if s != [] {
      SelectCounts(s[1..], p, x);
      assert s == [s[0]] + s[1..];
    }
  }

  lemma SelectMembers<T>(s: seq<T>, p: T -> bool, x: T)
    ensures x in Select(s, p) <==> x in s && p(x)
  {
    SelectCounts(s, p, x);
    assert x in Select(s, p) <==> x in multiset(Select(s, p));
    assert x in s <==> x in multiset(s);
  }

  // ---- Computing a page ----

  /** The first index whose id is past the cursor, by binary search. */
  method PartitionPoint(rows: seq<Advertisement>, cursor: string) returns (start: nat)
    requires SortedBy(rows, IdLe)
    ensures start <= |rows|
    ensures forall i :: 0 <= i < start ==> StringLe(rows[i].id, cursor)
    ensures forall i :: start <= i < |rows| ==> StringLt(cursor, rows[i].id)
  {
    var low, high := 0, |rows|;
    while low < high
      invariant 0 <= low <= high <= |rows|
      invariant low > 0 ==> StringLe(rows[low - 1].id, cursor)
      invariant high < |rows| ==> StringLt(cursor, rows[high].id)
    {
      var mid := (low + high) / 2;
      StringLeOrLt(rows[mid].id, cursor);
      if StringLe(rows[mid].id, cursor) {
        low := mid + 1;
      } else {
        high := mid;
      }
    }
    start := low;
    Partitioned(rows, start, cursor);
  }

  lemma Partitioned(rows: seq<Advertisement>, start: nat, cursor: string)
    requires SortedBy(rows, IdLe) && start <= |rows|
    requires start > 0 ==> StringLe(rows[start - 1].id, cursor)
    requires start < |rows| ==> StringLt(cursor, rows[start].id)
    ensures forall i :: 0 <= i < start ==> StringLe(rows[i].id, cursor)
    ensures forall i :: start <= i < |rows| ==> StringLt(cursor, rows[i].id)
  {
    forall i | 0 <= i < start
      ensures StringLe(rows[i].id, cursor)
    {
      if i < start - 1 {
        assert IdLe(rows[i], rows[start - 1]);
        StringLeTransitive(rows[i].id, rows[start - 1].id, cursor);
      }
    }
    forall i | start <= i < |rows|
      ensures StringLt(cursor, rows[i].id)
    {
      if start < i {
        assert IdLe(rows[start], rows[i]);
        StringLtTransitive(cursor, rows[start].id, rows[i].id);
      }
    }
  }

  /** The checks one after another, each leaving at the first that fails. */
  method IsMatch(filter: Filter, ad: Advertisement) returns (r: bool)
    ensures r <==> filter.Matches(ad)
  {
    if filter.statuses.Some? {
      if ad.status !in filter.statuses.value {
        return false;
      }
    } else if ad.status != Active {
      return false;
    }
    if filter.merchant.Some? && ad.merchant != filter.merchant.value {
      return false;
    }
    if filter.assetMint.Some? && ad.assetMint != filter.assetMint.value {
      return false;
    }
    if filter.fiatCurrency.Some? && ad.fiatCurrency != filter.fiatCurrency.value {
      return false;
    }
    if filter.direction.Some? && ad.direction != filter.direction.value {
      return false;
    }
    if filter.paymentMethod.Some? && filter.paymentMethod.value !in ad.paymentMethods {
      return false;
    }
    if filter.amount.Some? {
      var amount := filter.amount.value;
      if amount.decimals != ad.minTrade.decimals {
        return false;
      }
      var units := amount.baseUnits;
      if units < ad.minTrade.baseUnits || units > ad.maxTrade.baseUnits || units > ad.availableLiquidity.baseUnits {
        return false;
      }
    }
    return true;
  }

  // ---- What a filter means ----

  const EVERY_STATUS := [Active, Disabled, Vacation, Deleted]

  /** No constraint at all, and none but the default one on status. */
  const ANYTHING := Filter(None, None, None, None, None, None, Some(EVERY_STATUS))
  const DEFAULTS := Filter(None, None, None, None, None, None, None)

  /** With no constraint everything is on the page; with the defaults, what is active; with no status, nothing. */
  lemma UnconstrainedMatches(ad: Advertisement)
    ensures ANYTHING.Matches(ad)
    ensures DEFAULTS.Matches(ad) <==> ad.status == Active
    ensures !ANYTHING.(statuses := Some([])).Matches(ad)
  {
    match ad.status
    case Active =>
      assert EVERY_STATUS[0] == ad.status;
    case Disabled =>
      assert EVERY_STATUS[1] == ad.status;
    case Vacation =>
      assert EVERY_STATUS[2] == ad.status;
    case Deleted =>
      assert EVERY_STATUS[3] == ad.status;
  }

  /** Everything that can be asked for of `ad`, as it is. */
  function PortraitOf(ad: Advertisement, rail: PaymentMethodRef, amount: Amount): Filter {
    Filter(Some(ad.assetMint), Some(ad.fiatCurrency), Some(ad.direction), Some(rail), Some(amount),
           Some(ad.merchant), Some([ad.status]))
  }

  /** An advertisement is found by its own portrait, at any size it takes. */
  lemma PortraitMatches(ad: Advertisement, rail: PaymentMethodRef, amount: Amount)
    requires rail in ad.paymentMethods
    requires amount.decimals == ad.minTrade.decimals
    requires ad.minTrade.baseUnits <= amount.baseUnits <= ad.maxTrade.baseUnits
    requires amount.baseUnits <= ad.availableLiquidity.baseUnits
    ensures PortraitOf(ad, rail, amount).Matches(ad)
  {
  }

  /** And is no longer found by it once any one thing it was asked for is different. */
  lemma PortraitIsExact(ad: Advertisement, rail: PaymentMethodRef, amount: Amount, other: Advertisement)
    ensures other.assetMint != ad.assetMint ==> !PortraitOf(ad, rail, amount).Matches(other)
    ensures other.fiatCurrency != ad.fiatCurrency ==> !PortraitOf(ad, rail, amount).Matches(other)
    ensures other.direction != ad.direction ==> !PortraitOf(ad, rail, amount).Matches(other)
    ensures other.merchant != ad.merchant ==> !PortraitOf(ad, rail, amount).Matches(other)
    ensures other.status != ad.status ==> !PortraitOf(ad, rail, amount).Matches(other)
    ensures rail !in other.paymentMethods ==> !PortraitOf(ad, rail, amount).Matches(other)
    ensures amount.decimals != other.minTrade.decimals ==> !PortraitOf(ad, rail, amount).Matches(other)
    ensures amount.baseUnits < other.minTrade.baseUnits ==> !PortraitOf(ad, rail, amount).Matches(other)
    ensures amount.baseUnits > other.maxTrade.baseUnits ==> !PortraitOf(ad, rail, amount).Matches(other)
    ensures amount.baseUnits > other.availableLiquidity.baseUnits ==> !PortraitOf(ad, rail, amount).Matches(other)
  {
  }

  predicate AgreeOn<T(==)>(f: Option<T>, g: Option<T>) {
    f.Some? && g.Some? ==> f == g
  }

  /** Neither filter asks for something the other rules out, field by field. */
  predicate AreCompatible(f: Filter, g: Filter) {
    && AgreeOn(f.assetMint, g.assetMint)
    && AgreeOn(f.fiatCurrency, g.fiatCurrency)
    && AgreeOn(f.direction, g.direction)
    && AgreeOn(f.paymentMethod, g.paymentMethod)
    && AgreeOn(f.amount, g.amount)
    && AgreeOn(f.merchant, g.merchant)
  }

  function Either<T>(f: Option<T>, g: Option<T>): Option<T> {
    if f.Some? then f else g
  }

  /** Everything either filter asks for. */
  function Merge(f: Filter, g: Filter): Filter {
    Filter(Either(f.assetMint, g.assetMint), Either(f.fiatCurrency, g.fiatCurrency), Either(f.direction, g.direction),
           Either(f.paymentMethod, g.paymentMethod), Either(f.amount, g.amount), Either(f.merchant, g.merchant),
           Some(Select(Statuses(f), s => s in Statuses(g))))
  }

  /** Asking for two things at once finds what asking for each would. */
  lemma MergeMatchesBoth(f: Filter, g: Filter, ad: Advertisement)
    requires AreCompatible(f, g)
    ensures Merge(f, g).Matches(ad) <==> f.Matches(ad) && g.Matches(ad)
  {
    SelectMembers(Statuses(f), s => s in Statuses(g), ad.status);
    hide Select, Takes;
  }

  /** `narrow` asks for everything `wide` does. */
  predicate Narrows<T(==)>(narrow: Option<T>, wide: Option<T>) {
    wide.Some? ==> narrow == wide
  }

  function Statuses(filter: Filter): seq<AdvertisementStatus> {
    if filter.statuses.Some? then filter.statuses.value else [Active]
  }

  /** Adding a constraint only ever removes rows. */
  lemma NarrowingOnlyRemoves(narrow: Filter, wide: Filter, ad: Advertisement)
    requires Narrows(narrow.assetMint, wide.assetMint) && Narrows(narrow.fiatCurrency, wide.fiatCurrency)
    requires Narrows(narrow.direction, wide.direction) && Narrows(narrow.paymentMethod, wide.paymentMethod)
    requires Narrows(narrow.amount, wide.amount) && Narrows(narrow.merchant, wide.merchant)
    requires forall s :: s in Statuses(narrow) ==> s in Statuses(wide)
    ensures narrow.Matches(ad) ==> wide.Matches(ad)
  {
    assert narrow.Matches(ad) ==> ad.status in Statuses(narrow);
  }

  method Filtered(book: seq<Advertisement>, filter: Filter) returns (rows: seq<Advertisement>)
    ensures rows == Select(book, MatchesOf(filter))
  {
    rows := [];
    ghost var p := MatchesOf(filter);
    for i := 0 to |book|
      invariant rows == Select(book[..i], p)
    {
      SelectAppend(book[..i], [book[i]], p);
      assert book[..i + 1] == book[..i] + [book[i]];
      assert [book[i]][1..] == [];
      var matches := IsMatch(filter, book[i]);
      if matches {
        rows := rows + [book[i]];
      }
    }
    assert book[..|book|] == book;
  }

  /** Filters, sorts by id, resumes strictly after the cursor and takes one page. */
  method GetPage(book: seq<Advertisement>, filter: Filter, page: Page) returns (r: AdvertisementPage)
    ensures IsPage(book, filter, page.after, Limit(page), r)
  {
    hide TotalPreorder, Select, StringLe, IsAfter;
    var matching := Filtered(book, filter);
    IdOrder();
    var rows := Sort(matching, IdLe);
    var start := 0;
    if page.after.Some? {
      start := PartitionPoint(rows, page.after.value);
    }
    Resumed(rows, page.after, start);
    ResumedRows(book, filter, page.after, matching, rows, start);
    r := Take(book, filter, page.after, rows[start..], Limit(page));
  }

  /** The first `limit` of the rows past the cursor, and where to resume. */
  method Take(ghost book: seq<Advertisement>, ghost filter: Filter, ghost after: Option<string>,
              rows: seq<Advertisement>, limit: nat)
    returns (r: AdvertisementPage)
    requires limit > 0
    requires SortedBy(rows, IdLe)
    requires multiset(rows) == multiset(Select(book, WantedOf(filter, after)))
    ensures IsPage(book, filter, after, limit, r)
  {
    hide IdLe, Select, Wanted;
    var end := if |rows| <= limit then |rows| else limit;
    var next := None;
    if end == limit {
      next := Some(rows[end - 1].id);
    }
    r := AdvertisementPage(rows[..end], next);
    assert rows[..end] + rows[end..] == rows;
    assert Splits(book, filter, after, limit, rows[..end], rows[end..]);
  }

  lemma IdOrder()
    ensures TotalPreorder(IdLe)
  {
    forall x: Advertisement, y: Advertisement
      ensures IdLe(x, y) || IdLe(y, x)
    {
      StringLeTotal(x.id, y.id);
    }
    forall x, y, z | IdLe(x, y) && IdLe(y, z)
      ensures IdLe(x, z)
    {
      StringLeTransitive(x.id, y.id, z.id);
    }
  }

  lemma Resumed(rows: seq<Advertisement>, after: Option<string>, start: nat)
    requires start <= |rows|
    requires after.Some? ==> forall i :: 0 <= i < start ==> StringLe(rows[i].id, after.value)
    requires after.Some? ==> forall i :: start <= i < |rows| ==> StringLt(after.value, rows[i].id)
    requires after.None? ==> start == 0
    ensures forall i :: 0 <= i < start ==> !IsAfter(rows[i].id, after)
    ensures forall i :: start <= i < |rows| ==> IsAfter(rows[i].id, after)
  {
    forall i | 0 <= i < start
      ensures !IsAfter(rows[i].id, after)
    {
      StringLeOrLt(rows[i].id, after.value);
    }
  }

  lemma ResumedRows(book: seq<Advertisement>, filter: Filter, after: Option<string>, matching: seq<Advertisement>,
                    rows: seq<Advertisement>, start: nat)
    requires matching == Select(book, MatchesOf(filter))
    requires multiset(rows) == multiset(matching)
    requires start <= |rows|
    requires forall i :: 0 <= i < start ==> !IsAfter(rows[i].id, after)
    requires forall i :: start <= i < |rows| ==> IsAfter(rows[i].id, after)
    ensures multiset(rows[start..]) == multiset(Select(book, WantedOf(filter, after)))
  {
    hide Select;
    forall x
      ensures multiset(rows[start..])[x] == multiset(Select(book, WantedOf(filter, after)))[x]
    {
      ResumedCount(book, filter, after, matching, rows, start, x);
    }
  }

  lemma ResumedCount(book: seq<Advertisement>, filter: Filter, after: Option<string>, matching: seq<Advertisement>,
                     rows: seq<Advertisement>, start: nat, x: Advertisement)
    requires matching == Select(book, MatchesOf(filter))
    requires multiset(rows) == multiset(matching)
    requires start <= |rows|
    requires forall i :: 0 <= i < start ==> !IsAfter(rows[i].id, after)
    requires forall i :: start <= i < |rows| ==> IsAfter(rows[i].id, after)
    ensures multiset(rows[start..])[x] == multiset(Select(book, WantedOf(filter, after)))[x]
  {
    hide Select, IsAfter;
    SelectCounts(book, MatchesOf(filter), x);
    SelectCounts(book, WantedOf(filter, after), x);
    assert rows == rows[..start] + rows[start..];
    CountAcross(rows[..start], rows[start..], x, (ad: Advertisement) => IsAfter(ad.id, after));
  }

  lemma CountAcross<T>(a: seq<T>, b: seq<T>, x: T, p: T -> bool)
    requires forall i :: 0 <= i < |a| ==> !p(a[i])
    requires forall i :: 0 <= i < |b| ==> p(b[i])
    ensures multiset(b)[x] == if p(x) then multiset(a + b)[x] else 0
  {
    if p(x) {
      assert x !in a;
    } else {
      assert x !in b;
    }
  }

  // ---- What one page shows ----

  /** Ids are the keys the book is stored under, so no two of its rows share one. */
  ghost predicate UniqueIds(book: seq<Advertisement>) {
    forall i, j :: 0 <= i < j < |book| ==> book[i].id != book[j].id
  }

  ghost predicate Shows(page: AdvertisementPage, id: string) {
    exists i :: 0 <= i < |page.advertisements| && page.advertisements[i].id == id
  }

  ghost predicate Offers(book: seq<Advertisement>, filter: Filter, id: string) {
    exists i :: 0 <= i < |book| && book[i].id == id && filter.Matches(book[i])
  }

  /** Every row on a page is a row of the book that was asked for and lies past the cursor. */
  lemma PageIsSound(book: seq<Advertisement>, filter: Filter, after: Option<string>, limit: nat,
                    page: AdvertisementPage, i: nat)
    requires IsPage(book, filter, after, limit, page)
    requires i < |page.advertisements|
    ensures page.advertisements[i] in book
    ensures Wanted(filter, after, page.advertisements[i])
  {
    hide Select, SortedBy;
    var rest :| Splits(book, filter, after, limit, page.advertisements, rest);
    var x := page.advertisements[i];
    assert x in multiset(page.advertisements + rest);
    SelectMembers(book, WantedOf(filter, after), x);
  }

  /** No row of a page is past the cursor the page hands back. */
  lemma RowsUpToCursor(book: seq<Advertisement>, filter: Filter, after: Option<string>, limit: nat,
                       page: AdvertisementPage, i: nat)
    requires IsPage(book, filter, after, limit, page)
    requires i < |page.advertisements| && page.nextCursor.Some?
    ensures StringLe(page.advertisements[i].id, page.nextCursor.value)
  {
    hide Select;
    var rest :| Splits(book, filter, after, limit, page.advertisements, rest);
    var all := page.advertisements + rest;
    var last := |page.advertisements| - 1;
    if i < last {
      assert IdLe(all[i], all[last]);
    } else {
      StringLeTotal(all[i].id, all[i].id);
    }
  }

  /** A wanted row is on the page, or its id is past the cursor the page hands back. */
  lemma WantedIsShownOrLater(book: seq<Advertisement>, filter: Filter, after: Option<string>, limit: nat,
                             page: AdvertisementPage, ad: Advertisement)
    requires IsPage(book, filter, after, limit, page)
    requires ad in book && Wanted(filter, after, ad) && limit > 0
    ensures Shows(page, ad.id) || (page.nextCursor.Some? && StringLt(page.nextCursor.value, ad.id))
  {
    hide Select, Wanted, StringLe;
    var taken := page.advertisements;
    var rest :| Splits(book, filter, after, limit, taken, rest);
    assert ad in Select(book, WantedOf(filter, after)) by {
      SelectMembers(book, WantedOf(filter, after), ad);
    }
    assert ad in multiset(taken + rest);
    var k :| 0 <= k < |taken + rest| && (taken + rest)[k] == ad;
    if k < |taken| {
      assert taken[k].id == ad.id;
    } else if !Shows(page, ad.id) {
      var last := |taken| - 1;
      assert IdLe((taken + rest)[last], (taken + rest)[k]);
      assert taken[last].id != ad.id;
    }
  }

  /** An id is on a page exactly when the book offers it between the page's two cursors. */
  lemma PageIsAWindow(book: seq<Advertisement>, filter: Filter, after: Option<string>, limit: nat,
                      page: AdvertisementPage, id: string)
    requires IsPage(book, filter, after, limit, page) && limit > 0
    ensures Shows(page, id) <==>
      && Offers(book, filter, id)
      && IsAfter(id, after)
      && (page.nextCursor.Some? ==> StringLe(id, page.nextCursor.value))
  {
    hide IsPage, Filter.Matches, StringLe;
    if Shows(page, id) {
      var i :| 0 <= i < |page.advertisements| && page.advertisements[i].id == id;
      PageIsSound(book, filter, after, limit, page, i);
      var k :| 0 <= k < |book| && book[k] == page.advertisements[i];
      assert Offers(book, filter, id);
      if page.nextCursor.Some? {
        RowsUpToCursor(book, filter, after, limit, page, i);
      }
    } else if Offers(book, filter, id) && IsAfter(id, after) {
      var k :| 0 <= k < |book| && book[k].id == id && filter.Matches(book[k]);
      WantedIsShownOrLater(book, filter, after, limit, page, book[k]);
      StringLeOrLt(id, page.nextCursor.value);
    }
  }

  // ---- Ids on one page ----

  lemma {:induction false} SelectUnique(s: seq<Advertisement>, p: Advertisement -> bool)
    requires UniqueIds(s)
    ensures UniqueIds(Select(s, p))
  {
    if s != [] {
      SelectUnique(s[1..], p);
      var rest := Select(s[1..], p);
      forall i | 0 <= i < |rest|
        ensures rest[i].id != s[0].id
      {
        SelectMembers(s[1..], p, rest[i]);
      }
    }
  }

  lemma UniqueCountsOnce(s: seq<Advertisement>, x: Advertisement)
    requires UniqueIds(s)
    ensures multiset(s)[x] <= 1
  {
    if x in s {
      var k :| 0 <= k < |s| && s[k] == x;
      assert s == s[..k] + [x] + s[k + 1..];
    }
  }

  /** A rearrangement of rows with distinct ids has distinct ids. */
  lemma UniqueRearranged(a: seq<Advertisement>, b: seq<Advertisement>)
    requires multiset(a) == multiset(b) && UniqueIds(b)
    ensures UniqueIds(a)
  {
    forall i, j | 0 <= i < j < |a|
      ensures a[i].id != a[j].id
    {
      if a[i].id == a[j].id {
        assert a[i] in multiset(b) && a[j] in multiset(b);
        CountsTwice(a, i, j);
        UniqueCountsOnce(b, a[i]);
      }
    }
  }

  lemma PageIsStrictlySorted(book: seq<Advertisement>, filter: Filter, after: Option<string>, limit: nat,
                             page: AdvertisementPage, i: nat, j: nat)
    requires IsPage(book, filter, after, limit, page) && UniqueIds(book)
    requires i < j < |page.advertisements|
    ensures StringLt(page.advertisements[i].id, page.advertisements[j].id)
  {
    hide Select, StringLe;
    var rest :| Splits(book, filter, after, limit, page.advertisements, rest);
    var all := page.advertisements + rest;
    SelectUnique(book, WantedOf(filter, after));
    UniqueRearranged(all, Select(book, WantedOf(filter, after)));
    assert IdLe(all[i], all[j]);
  }

  // ---- A whole scroll, over a book that may change between requests ----

  datatype Request = Request(book: seq<Advertisement>, page: Page)

  /** Each request but the first resumes from the cursor the page before it returned. */
  ghost predicate IsScroll(requests: seq<Request>, filter: Filter, pages: seq<AdvertisementPage>) {
    && |requests| == |pages|
    && (forall k :: 0 <= k < |pages| ==> Answers(requests[k], filter, pages[k]))
    && (forall k :: 0 < k < |pages| ==>
          pages[k - 1].nextCursor.Some? && requests[k].page.after == pages[k - 1].nextCursor)
  }

  ghost predicate Answers(request: Request, filter: Filter, page: AdvertisementPage) {
    IsPage(request.book, filter, request.page.after, Limit(request.page), page)
  }

  /** A page with no cursor was the last. */
  ghost predicate Finished(pages: seq<AdvertisementPage>) {
    pages != [] && pages[|pages| - 1].nextCursor.None?
  }

  ghost predicate UniqueThroughout(requests: seq<Request>) {
    forall k :: 0 <= k < |requests| ==> UniqueIds(requests[k].book)
  }

  /** Everything on a later page lies past the cursor of every earlier one. */
  lemma {:induction false} RowsPassEveryCursor(requests: seq<Request>, filter: Filter, pages: seq<AdvertisementPage>,
                                               k: nat, l: nat, j: nat)
    requires IsScroll(requests, filter, pages)
    requires k < l < |pages| && j < |pages[l].advertisements|
    ensures pages[k].nextCursor.Some? && StringLt(pages[k].nextCursor.value, pages[l].advertisements[j].id)
    decreases l
  {
    hide Filter.Matches, StringLe, Splits;
    assert Answers(requests[l], filter, pages[l]);
    PageIsSound(requests[l].book, filter, requests[l].page.after, Limit(requests[l].page), pages[l], j);
    if k < l - 1 {
      assert Answers(requests[l - 1], filter, pages[l - 1]);
      var last := |pages[l - 1].advertisements| - 1;
      RowsPassEveryCursor(requests, filter, pages, k, l - 1, last);
      StringLtTransitive(pages[k].nextCursor.value, pages[l - 1].nextCursor.value, pages[l].advertisements[j].id);
    }
  }

  /** Ids only ever increase through a scroll, whatever the book does between pages: no row is shown twice. */
  lemma NoRowIsShownTwice(requests: seq<Request>, filter: Filter, pages: seq<AdvertisementPage>,
                          k: nat, i: nat, l: nat, j: nat)
    requires IsScroll(requests, filter, pages) && UniqueThroughout(requests)
    requires k <= l < |pages| && i < |pages[k].advertisements| && j < |pages[l].advertisements|
    requires k == l ==> i < j
    ensures StringLt(pages[k].advertisements[i].id, pages[l].advertisements[j].id)
  {
    hide IsPage, UniqueIds, StringLe;
    var limit, after := Limit(requests[k].page), requests[k].page.after;
    assert Answers(requests[k], filter, pages[k]);
    if k == l {
      PageIsStrictlySorted(requests[k].book, filter, after, limit, pages[k], i, j);
    } else {
      RowsPassEveryCursor(requests, filter, pages, k, l, j);
      RowsUpToCursor(requests[k].book, filter, after, limit, pages[k], i);
      StringLtTransitive(pages[k].advertisements[i].id, pages[k].nextCursor.value, pages[l].advertisements[j].id);
    }
  }

  ghost predicate ShownBy(pages: seq<AdvertisementPage>, id: string) {
    exists k :: 0 <= k < |pages| && Shows(pages[k], id)
  }

  /** An id offered at every request and not shown by the first `n` pages is still ahead of the cursor. */
  lemma {:induction false} StillAhead(requests: seq<Request>, filter: Filter, pages: seq<AdvertisementPage>,
                                      id: string, n: nat)
    requires IsScroll(requests, filter, pages) && n < |pages|
    requires forall k :: 0 <= k < |pages| ==> Offers(requests[k].book, filter, id)
    requires IsAfter(id, requests[0].page.after)
    requires forall k :: 0 <= k < n ==> !Shows(pages[k], id)
    ensures IsAfter(id, requests[n].page.after)
  {
    hide IsPage, Offers, StringLe;
    if n > 0 {
      StillAhead(requests, filter, pages, id, n - 1);
      var r := requests[n - 1];
      assert Answers(r, filter, pages[n - 1]);
      PageIsAWindow(r.book, filter, r.page.after, Limit(r.page), pages[n - 1], id);
      StringLeOrLt(id, pages[n - 1].nextCursor.value);
    }
  }

  /** A finished scroll has shown every id that was on offer at every request. */
  lemma NoRowIsSkipped(requests: seq<Request>, filter: Filter, pages: seq<AdvertisementPage>, id: string)
    requires IsScroll(requests, filter, pages) && Finished(pages)
    requires forall k :: 0 <= k < |pages| ==> Offers(requests[k].book, filter, id)
    requires IsAfter(id, requests[0].page.after)
    ensures ShownBy(pages, id)
  {
    hide IsPage, Offers, StringLe;
    if !ShownBy(pages, id) {
      var n := |pages| - 1;
      StillAhead(requests, filter, pages, id, n);
      assert Answers(requests[n], filter, pages[n]);
      PageIsAWindow(requests[n].book, filter, requests[n].page.after, Limit(requests[n].page), pages[n], id);
    }
  }

  // ---- A scroll over a book that holds still ----

  function Rows(pages: seq<AdvertisementPage>): seq<Advertisement> {
    if pages == [] then [] else Rows(pages[..|pages| - 1]) + pages[|pages| - 1].advertisements
  }

  ghost predicate StrictlySorted(rows: seq<Advertisement>) {
    forall i, j :: 0 <= i < j < |rows| ==> StringLt(rows[i].id, rows[j].id)
  }

  lemma {:induction false} RowsMembers(pages: seq<AdvertisementPage>, x: Advertisement)
    ensures x in Rows(pages) <==> exists k :: 0 <= k < |pages| && x in pages[k].advertisements
  {
    if pages != [] {
      RowsMembers(pages[..|pages| - 1], x);
    }
  }

  lemma {:induction false} RowsSorted(requests: seq<Request>, filter: Filter, pages: seq<AdvertisementPage>, n: nat)
    requires IsScroll(requests, filter, pages) && UniqueThroughout(requests)
    requires n <= |pages|
    ensures StrictlySorted(Rows(pages[..n]))
  {
    hide IsScroll, UniqueThroughout, StringLt;
    if n > 0 {
      RowsSorted(requests, filter, pages, n - 1);
      var before, last := Rows(pages[..n - 1]), pages[n - 1].advertisements;
      assert pages[..n][..n - 1] == pages[..n - 1];
      assert Rows(pages[..n]) == before + last;
      forall i, j | 0 <= i < j < |last|
        ensures StringLt(last[i].id, last[j].id)
      {
        NoRowIsShownTwice(requests, filter, pages, n - 1, i, n - 1, j);
      }
      forall i, j | 0 <= i < |before| && 0 <= j < |last|
        ensures StringLt(before[i].id, last[j].id)
      {
        RowsMembers(pages[..n - 1], before[i]);
        var k :| 0 <= k < n - 1 && before[i] in pages[k].advertisements;
        var m :| 0 <= m < |pages[k].advertisements| && pages[k].advertisements[m] == before[i];
        NoRowIsShownTwice(requests, filter, pages, k, m, n - 1, j);
      }
    }
  }

  /** Over a book that does not change, the pages laid end to end are the matching rows, each once, in id order. */
  lemma FixedBookIsReadWhole(requests: seq<Request>, filter: Filter, pages: seq<AdvertisementPage>,
                             book: seq<Advertisement>)
    requires IsScroll(requests, filter, pages) && Finished(pages)
    requires UniqueIds(book) && (forall k :: 0 <= k < |requests| ==> requests[k].book == book)
    requires requests[0].page.after == None
    ensures StrictlySorted(Rows(pages))
    ensures forall ad :: ad in Rows(pages) <==> ad in book && filter.Matches(ad)
  {
    hide Filter.Matches, StringLt, IsPage;
    RowsSorted(requests, filter, pages, |pages|);
    assert pages[..|pages|] == pages;
    forall ad
      ensures ad in Rows(pages) <==> ad in book && filter.Matches(ad)
    {
      RowsMembers(pages, ad);
      if k :| 0 <= k < |pages| && ad in pages[k].advertisements {
        RowIsInBook(requests, filter, pages, k, ad);
      }
      if ad in book && filter.Matches(ad) {
        FixedRowIsShown(requests, filter, pages, book, ad);
      }
    }
  }

  /** A scroll over an unchanging book ends: every page but the last is full, and no row is spent twice. */
  lemma FixedBookScrollEnds(requests: seq<Request>, filter: Filter, pages: seq<AdvertisementPage>,
                            book: seq<Advertisement>, limit: nat)
    requires IsScroll(requests, filter, pages) && pages != []
    requires UniqueIds(book) && (forall k :: 0 <= k < |requests| ==> requests[k].book == book)
    requires forall k :: 0 <= k < |requests| ==> Limit(requests[k].page) >= limit
    ensures (|pages| - 1) * limit <= |Select(book, MatchesOf(filter))|
  {
    hide Filter.Matches, StringLe, IsPage, Limit;
    var rows := Rows(pages);
    RowsSorted(requests, filter, pages, |pages|);
    assert pages[..|pages|] == pages;
    assert Distinct(rows);
    forall ad | ad in rows
      ensures ad in Select(book, MatchesOf(filter))
    {
      RowsMembers(pages, ad);
      var k :| 0 <= k < |pages| && ad in pages[k].advertisements;
      RowIsInBook(requests, filter, pages, k, ad);
      SelectMembers(book, MatchesOf(filter), ad);
    }
    DistinctFits(rows, Select(book, MatchesOf(filter)));
    FullPages(requests, filter, pages, limit, |pages| - 1);
    assert pages[..|pages| - 1] == pages[..|pages|][..|pages| - 1];
  }

  lemma OneMore(n: nat, limit: nat)
    requires n > 0
    ensures n * limit == (n - 1) * limit + limit
  {
  }

  lemma {:induction false} FullPages(requests: seq<Request>, filter: Filter, pages: seq<AdvertisementPage>,
                                     limit: nat, n: nat)
    requires IsScroll(requests, filter, pages) && n < |pages|
    requires forall k :: 0 <= k < |requests| ==> Limit(requests[k].page) >= limit
    ensures n * limit <= |Rows(pages[..n])|
  {
    if n > 0 {
      FullPages(requests, filter, pages, limit, n - 1);
      assert pages[..n][..n - 1] == pages[..n - 1];
      assert Answers(requests[n - 1], filter, pages[n - 1]);
      assert requests[n].page.after == pages[n - 1].nextCursor;
      hide Answers;
      OneMore(n, limit);
    }
  }

  lemma RowIsInBook(requests: seq<Request>, filter: Filter, pages: seq<AdvertisementPage>, k: nat, ad: Advertisement)
    requires IsScroll(requests, filter, pages) && k < |pages| && ad in pages[k].advertisements
    ensures ad in requests[k].book && filter.Matches(ad)
  {
    hide Filter.Matches, IsPage;
    var i :| 0 <= i < |pages[k].advertisements| && pages[k].advertisements[i] == ad;
    assert Answers(requests[k], filter, pages[k]);
    PageIsSound(requests[k].book, filter, requests[k].page.after, Limit(requests[k].page), pages[k], i);
  }

  lemma FixedRowIsShown(requests: seq<Request>, filter: Filter, pages: seq<AdvertisementPage>,
                        book: seq<Advertisement>, ad: Advertisement)
    requires IsScroll(requests, filter, pages) && Finished(pages)
    requires UniqueIds(book) && (forall k :: 0 <= k < |requests| ==> requests[k].book == book)
    requires requests[0].page.after == None
    requires ad in book && filter.Matches(ad)
    ensures exists k :: 0 <= k < |pages| && ad in pages[k].advertisements
  {
    hide Filter.Matches, IsPage, StringLt, Shows;
    assert Offers(book, filter, ad.id);
    NoRowIsSkipped(requests, filter, pages, ad.id);
    var k :| 0 <= k < |pages| && Shows(pages[k], ad.id);
    hide Offers, IsAfter, Finished;
    var row := ShownRow(pages[k], ad.id);
    RowIsInBook(requests, filter, pages, k, row);
    hide IsScroll;
    OneRowAnId(book, row, ad);
  }

  lemma OneRowAnId(book: seq<Advertisement>, a: Advertisement, b: Advertisement)
    requires UniqueIds(book) && a in book && b in book && a.id == b.id
    ensures a == b
  {
    var i :| 0 <= i < |book| && book[i] == a;
    var j :| 0 <= j < |book| && book[j] == b;
  }

  lemma ShownRow(page: AdvertisementPage, id: string) returns (row: Advertisement)
    requires Shows(page, id)
    ensures row in page.advertisements && row.id == id
  {
    var i :| 0 <= i < |page.advertisements| && page.advertisements[i].id == id;
    row := page.advertisements[i];
  }
}
