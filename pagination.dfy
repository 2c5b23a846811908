/** Keyset pagination of the users collection, stated on positions in the
    full listing (every document that passes the role filter, newest
    first): a page is the window of `limit` entries that starts right after
    the cursor document. The repository's `findAll` computes it the way
    the store allows — fetch `limit + 1` after the cursor, then truncate —
    and is proved to return exactly this page. */
module Pagination {
  import opened Outcomes
  import opened UserEntities
  import opened DocumentStore
  import opened Mapper
  import opened JsStrings

  /** `query.limit ?? 10`. */
  function EffectiveLimit(q: PaginateUsersDto): (lim: int)
    requires ValidPaginateUsersDto(q)
    ensures 1 <= lim <= MaxLimit
    ensures q.limit.None? ==> lim == DefaultLimit
    ensures q.limit.Some? ==> lim == q.limit.value
  {
    q.limit.GetOr(DefaultLimit)
  }

  /** `if (query.cursor)`: a string is truthy in JavaScript when its length
      is not zero, so an empty cursor string counts as no cursor. */
  predicate HasCursor(q: PaginateUsersDto)
    ensures HasCursor(q) <==> q.cursor.Some? && JsLength(q.cursor.value) > 0
  {
    q.cursor.Some? && q.cursor.value != ""
  }

  function InvalidCursorMessage(cursor: string): string {
    "Invalid cursor \U{2014} document \"" + cursor + "\" does not exist"
  }

  /** Every document that passes the role filter, newest first. */
  function Listing(docs: seq<Doc>, role: Option<Role>): (l: seq<Doc>)
    ensures |l| <= |docs|
    ensures role.None? ==> l == docs
  {
    SelectAll(docs);
    Select(docs, role, None)
  }

  /** How many leading entries of a newest-first listing are not older
      than `t`: resuming after a document created at `t` starts there. */
  function SkipNotOlder(l: seq<Doc>, t: int): (p: nat)
    ensures p <= |l|
    ensures forall k :: 0 <= k < p ==> l[k].createdAt >= t
    ensures p < |l| ==> l[p].createdAt < t
  {
    if l == [] then 0
    else if l[0].createdAt >= t then 1 + SkipNotOlder(l[1..], t)
    else 0
  }

  /** The position in the listing where the requested page starts. */
  function StartOf(docs: seq<Doc>, q: PaginateUsersDto): (p: nat)
    ensures p <= |Listing(docs, q.role)|
  {
    if HasCursor(q) then
      match Get(docs, q.cursor.value)
      case Some(c) => SkipNotOlder(Listing(docs, q.role), c.createdAt)
      case None => 0
    else 0
  }

  /** The response `findAll(q)` owes: a cursor that names no document is a
      bad request; otherwise the window of the listing that starts after
      the cursor, at most `limit` long, with the next cursor when more
      entries follow. */
  function ExpectedPage(docs: seq<Doc>, q: PaginateUsersDto): (r: Result<PaginatedResponse>)
    requires ValidPaginateUsersDto(q)
    ensures r.Err? <==> HasCursor(q) && Get(docs, q.cursor.value).None?
    ensures r.Err? ==> r.error == BadRequest(InvalidCursorMessage(q.cursor.value))
    ensures r.Ok? ==> |r.value.data| <= EffectiveLimit(q) && r.value.meta.limit == EffectiveLimit(q)
    ensures r.Ok? ==> (r.value.meta.nextCursor.Some? <==> r.value.meta.hasNextPage)
    ensures r.Ok? && r.value.meta.hasNextPage ==>
              |r.value.data| == EffectiveLimit(q) &&
              r.value.meta.nextCursor == Some(r.value.data[|r.value.data| - 1].id)
  {
    if HasCursor(q) && Get(docs, q.cursor.value).None? then
      Err(BadRequest(InvalidCursorMessage(q.cursor.value)))
    else
      var l := Listing(docs, q.role);
      var p := StartOf(docs, q);
      var lim := EffectiveLimit(q);
      var more := p + lim < |l|;
      var end := if more then p + lim else |l|;
      var data := ToEntities(l[p..end]);
      assert more ==> data[lim - 1] == ToEntity(l[end - 1]) by {
        if more {
          WindowLast(l, p, end);
        }
      }
      Ok(PaginatedResponse(data, PageMeta(lim, more, if more then Some(l[end - 1].id) else None)))
  }

  /** The last entity of a non-empty window is that of the listing entry
      just before the window's end. */
  lemma WindowLast(l: seq<Doc>, p: nat, end: nat)
    requires p < end <= |l|
    ensures ToEntities(l[p..end])[end - p - 1] == ToEntity(l[end - 1])
  {
    assert l[p..end][end - p - 1] == l[end - 1];
  }

  /** No cursor, no filter and more than `limit` documents: a full page, a
      next page, and the cursor is the id of the page's last entry. */
  lemma FirstPageOfLargeCollection(docs: seq<Doc>, q: PaginateUsersDto)
    requires ValidPaginateUsersDto(q) && q.cursor.None? && q.role.None?
    requires |docs| > EffectiveLimit(q)
    ensures ExpectedPage(docs, q).Ok?
    ensures |ExpectedPage(docs, q).value.data| == EffectiveLimit(q)
    ensures ExpectedPage(docs, q).value.meta.hasNextPage
    ensures ExpectedPage(docs, q).value.meta.nextCursor == Some(docs[EffectiveLimit(q) - 1].id)
  {
    SelectAll(docs);
  }

  /** Without a role filter the listing is the whole collection. */
  lemma {:induction false} SelectAll(docs: seq<Doc>)
    ensures Select(docs, None, None) == docs
  {
    if docs != [] {
      SelectAll(docs[1..]);
      assert [docs[0]] + docs[1..] == docs;
    }
  }

  /** The page as a window `[p, end)` of the listing. */
  lemma PageWindow(docs: seq<Doc>, q: PaginateUsersDto, l: seq<Doc>, p: nat, lim: nat, end: nat)
    requires ValidPaginateUsersDto(q) && ExpectedPage(docs, q).Ok?
    requires l == Listing(docs, q.role) && p == StartOf(docs, q) && lim == EffectiveLimit(q)
    requires end == if p + lim < |l| then p + lim else |l|
    ensures p <= end <= |l|
    ensures ExpectedPage(docs, q).value.data == ToEntities(l[p..end])
    ensures ExpectedPage(docs, q).value.meta.hasNextPage <==> p + lim < |l|
    ensures p + lim < |l| ==> ExpectedPage(docs, q).value.meta.nextCursor == Some(l[p + lim - 1].id)
  {
  }

  /** Page entries are strictly newest first, pass the role filter and are
      all older than the cursor document. */
  lemma PageOrderedFilteredAfterCursor(docs: seq<Doc>, q: PaginateUsersDto)
    requires NewestFirst(docs) && ValidPaginateUsersDto(q)
    requires ExpectedPage(docs, q).Ok?
    ensures var data := ExpectedPage(docs, q).value.data;
            && (forall i, j :: 0 <= i < j < |data| ==> data[i].createdAt > data[j].createdAt)
            && (forall i :: 0 <= i < |data| && q.role.Some? ==> data[i].role == q.role.value)
            && (forall i :: 0 <= i < |data| && HasCursor(q) ==>
                  data[i].createdAt < Get(docs, q.cursor.value).value.createdAt)
  {
    var l := Listing(docs, q.role);
    var p := StartOf(docs, q);
    var lim := EffectiveLimit(q);
    var end := if p + lim < |l| then p + lim else |l|;
    PageWindow(docs, q, l, p, lim, end);
    var t := if HasCursor(q) then Some(Get(docs, q.cursor.value).value.createdAt) else None;
    assert t.Some? ==> p == SkipNotOlder(l, t.value);
    ListingOrderedAndFiltered(docs, q.role, l);
    WindowProperties(l, p, end, q.role, t, ExpectedPage(docs, q).value.data);
  }

  /** The listing is newest first and holds only documents that pass the
      role filter. */
  lemma ListingOrderedAndFiltered(docs: seq<Doc>, role: Option<Role>, l: seq<Doc>)
    requires NewestFirst(docs) && l == Listing(docs, role)
    ensures NewestFirst(l)
    ensures forall d :: d in l ==> d in docs && Selected(d, role, None)
  {
  }

  /** The same three facts for any window of a newest-first listing that
      passes the filter and starts after everything not older than `t`. */
  lemma WindowProperties(l: seq<Doc>, p: nat, end: nat, role: Option<Role>, t: Option<int>, data: seq<UserEntity>)
    requires NewestFirst(l) && p <= end <= |l|
    requires forall d :: d in l ==> Selected(d, role, None)
    requires t.Some? ==> p == SkipNotOlder(l, t.value)
    requires data == ToEntities(l[p..end])
    ensures && (forall i, j :: 0 <= i < j < |data| ==> data[i].createdAt > data[j].createdAt)
            && (forall i :: 0 <= i < |data| && role.Some? ==> data[i].role == role.value)
            && (forall i :: 0 <= i < |data| && t.Some? ==> data[i].createdAt < t.value)
  {
    WindowEntries(l, p, end, data);
    forall i | 0 <= i < |data| && role.Some? ensures data[i].role == role.value {
      assert l[p + i] in l;
    }
    forall i | 0 <= i < |data| && t.Some? ensures data[i].createdAt < t.value {
      if i > 0 {
        assert l[p].createdAt > l[p + i].createdAt;
      }
    }
  }

  /** Entry `i` of a window's entities is listing entry `p + i`. */
  lemma WindowEntries(l: seq<Doc>, p: nat, end: nat, data: seq<UserEntity>)
    requires p <= end <= |l| && data == ToEntities(l[p..end])
    ensures |data| == end - p
    ensures forall i :: 0 <= i < |data| ==>
              data[i].createdAt == l[p + i].createdAt && data[i].role == l[p + i].role
  {
    forall i | 0 <= i < |data|
      ensures data[i].createdAt == l[p + i].createdAt && data[i].role == l[p + i].role
    {
      assert l[p..end][i] == l[p + i];
    }
  }

  /** Every entry not older than `t` in a newest-first collection is
      dropped by `startAfter(t)`; nothing older is. */
  lemma {:induction false} SelectAllOlder(docs: seq<Doc>, role: Option<Role>, t: int)
    requires forall d :: d in docs ==> d.createdAt < t
    ensures Select(docs, role, Some(t)) == Select(docs, role, None)
  {
    if docs != [] {
      SelectAllOlder(docs[1..], role, t);
    }
  }

  /** The store's query resumed after a document created at `t` is the
      suffix of the listing that starts at `SkipNotOlder(listing, t)`. */
  lemma {:induction false} SelectStartAfter(docs: seq<Doc>, role: Option<Role>, t: int)
    requires NewestFirst(docs)
    ensures Select(docs, role, Some(t)) == Listing(docs, role)[SkipNotOlder(Listing(docs, role), t)..]
  {
    if docs != [] {
      var rest := docs[1..];
      assert NewestFirst(rest);
      SelectStartAfter(rest, role, t);
      var x, lr, sr := docs[0], Listing(rest, role), Select(rest, role, Some(t));
      var l, s := Listing(docs, role), Select(docs, role, Some(t));
      if role.Some? && x.role != role.value {
        assert s == sr && l == lr;
      } else if x.createdAt >= t {
        assert s == sr && l == [x] + lr;
        SkipPastHead(x, lr, t);
      } else {
        OlderThanHead(docs);
        SelectAllOlder(rest, role, t);
        assert s == [x] + sr && l == [x] + lr && SkipNotOlder(l, t) == 0;
      }
    }
  }

  /** Resuming after `t` in a listing whose head is not older than `t` is
      resuming in its tail. */
  lemma SkipPastHead(x: Doc, lr: seq<Doc>, t: int)
    requires x.createdAt >= t
    ensures ([x] + lr)[SkipNotOlder([x] + lr, t)..] == lr[SkipNotOlder(lr, t)..]
  {
    var l := [x] + lr;
    assert l[1..] == lr;
    var k := SkipNotOlder(lr, t);
    assert SkipNotOlder(l, t) == k + 1;
    assert l[k + 1..] == lr[k..];
  }

  /** In a strictly newest-first listing, resuming after entry `j` starts
      at `j + 1`. */
  lemma {:induction false} SkipNotOlderAt(l: seq<Doc>, j: nat)
    requires NewestFirst(l) && j < |l|
    ensures SkipNotOlder(l, l[j].createdAt) == j + 1
  {
    if j > 0 {
      assert NewestFirst(l[1..]);
      assert l[1..][j - 1] == l[j];
      assert l[0].createdAt > l[j].createdAt;
      SkipNotOlderAt(l[1..], j - 1);
    } else if |l| > 1 {
      assert l[1..][0] == l[1];
    }
  }

  /** Following `nextCursor` is accepted and resumes exactly where the
      current page ends. */
  lemma NextCursorResumes(docs: seq<Doc>, q: PaginateUsersDto, next: PaginateUsersDto)
    requires UniqueIds(docs) && NewestFirst(docs) && NonEmptyIds(docs)
    requires ValidPaginateUsersDto(q) && ExpectedPage(docs, q).Ok?
    requires ExpectedPage(docs, q).value.meta.hasNextPage
    requires next == q.(cursor := ExpectedPage(docs, q).value.meta.nextCursor)
    ensures ValidPaginateUsersDto(next) && ExpectedPage(docs, next).Ok?
    ensures StartOf(docs, next) == StartOf(docs, q) + EffectiveLimit(q)
  {
    var l := Listing(docs, q.role);
    var p := StartOf(docs, q);
    var lim := EffectiveLimit(q);
    var e := p + lim;
    PageWindow(docs, q, l, p, lim, if e < |l| then e else |l|);
    var c := l[e - 1];
    assert c in l;
    CursorResumesAfter(docs, q.role, c, next);
    var s := SkipNotOlder(l, c.createdAt);
    assert StartOf(docs, next) == s;
    SkipNotOlderAt(l, e - 1);
    assert s == e;
  }

  /** A page and the page that resumes where it ends are together one
      contiguous window of the listing: no entry skipped, none repeated. */
  lemma ConsecutivePagesJoin(docs: seq<Doc>, q: PaginateUsersDto, next: PaginateUsersDto)
    requires ValidPaginateUsersDto(q) && ExpectedPage(docs, q).Ok?
    requires ExpectedPage(docs, q).value.meta.hasNextPage
    requires next == q.(cursor := next.cursor) && ExpectedPage(docs, next).Ok?
    requires StartOf(docs, next) == StartOf(docs, q) + EffectiveLimit(q)
    ensures ExpectedPage(docs, q).value.data + ExpectedPage(docs, next).value.data ==
              ToEntities(Listing(docs, q.role)[StartOf(docs, q)..TwoPagesEnd(docs, q)])
  {
    var l := Listing(docs, q.role);
    var p := StartOf(docs, q);
    var lim := EffectiveLimit(q);
    var e := p + lim;
    var end2 := TwoPagesEnd(docs, q);
    PageWindow(docs, q, l, p, lim, e);
    PageWindow(docs, next, l, e, lim, end2);
    AdjacentWindows(l, p, e, end2);
  }

  /** Where the page of `q` and the one after it end together. */
  function TwoPagesEnd(docs: seq<Doc>, q: PaginateUsersDto): (end: nat)
    requires ValidPaginateUsersDto(q)
    ensures StartOf(docs, q) <= end <= |Listing(docs, q.role)|
  {
    var n := |Listing(docs, q.role)|;
    var end := StartOf(docs, q) + 2 * EffectiveLimit(q);
    if end < n then end else n
  }

  /** A listed document used as the cursor is found, so the page resumes
      after its `createdAt`. */
  lemma CursorResumesAfter(docs: seq<Doc>, role: Option<Role>, c: Doc, q: PaginateUsersDto)
    requires UniqueIds(docs) && NonEmptyIds(docs)
    requires c in Listing(docs, role) && q.cursor == Some(c.id) && q.role == role
    requires ValidPaginateUsersDto(q)
    ensures HasCursor(q) && Get(docs, c.id) == Some(c)
    ensures ExpectedPage(docs, q).Ok?
    ensures StartOf(docs, q) == SkipNotOlder(Listing(docs, role), c.createdAt)
  {
    GetMember(docs, c);
  }

  /** A window and the rest after it map to the entities of the rest from
      the window's start. */
  lemma WindowThenRest(l: seq<Doc>, a: nat, b: nat)
    requires a <= b <= |l|
    ensures ToEntities(l[a..b]) + ToEntities(l[b..]) == ToEntities(l[a..])
  {
    var u, v, w := l[a..b], l[b..], l[a..];
    forall k | 0 <= k < |w| ensures w[k] == if k < |u| then u[k] else v[k - |u|] {
      assert w[k] == l[a + k];
    }
    MapJoin(u, v, w);
  }

  /** Two adjacent windows of a listing map to the entities of their union. */
  lemma AdjacentWindows(l: seq<Doc>, a: nat, b: nat, c: nat)
    requires a <= b <= c <= |l|
    ensures ToEntities(l[a..b]) + ToEntities(l[b..c]) == ToEntities(l[a..c])
  {
    var u, v, w := l[a..b], l[b..c], l[a..c];
    forall k | 0 <= k < |w| ensures w[k] == if k < |u| then u[k] else v[k - |u|] {
      assert w[k] == l[a + k];
    }
    MapJoin(u, v, w);
  }

  /** Documents that line up as `u` then `v` map to the entities of `u`
      then those of `v`. */
  lemma MapJoin(u: seq<Doc>, v: seq<Doc>, w: seq<Doc>)
    requires |w| == |u| + |v|
    requires forall k :: 0 <= k < |w| ==> w[k] == if k < |u| then u[k] else v[k - |u|]
    ensures ToEntities(u) + ToEntities(v) == ToEntities(w)
  {
    var x, y, z := ToEntities(u), ToEntities(v), ToEntities(w);
    forall k | 0 <= k < |z| ensures z[k] == if k < |x| then x[k] else y[k - |x|] {
      var d := w[k];
      assert z[k] == ToEntity(d);
      if k < |u| {
        assert x[k] == ToEntity(u[k]);
      } else {
        var j := k - |u|;
        assert y[j] == ToEntity(v[j]);
      }
    }
    Join(x, y, z);
  }

  /** A sequence that starts with `x` and continues with `y` is `x + y`. */
  lemma Join(x: seq<UserEntity>, y: seq<UserEntity>, z: seq<UserEntity>)
    requires |z| == |x| + |y|
    requires forall k :: 0 <= k < |z| ==> z[k] == if k < |x| then x[k] else y[k - |x|]
    ensures x + y == z
  {
  }

  /** All the entries obtained by starting at `q` and following
      `nextCursor` at most `fuel` more times. */
  function Crawl(docs: seq<Doc>, q: PaginateUsersDto, fuel: nat): seq<UserEntity>
    requires ValidPaginateUsersDto(q)
    decreases fuel
  {
    match ExpectedPage(docs, q)
    case Err(_) => []
    case Ok(pg) =>
      if pg.meta.hasNextPage && fuel > 0 then
        pg.data + Crawl(docs, q.(cursor := pg.meta.nextCursor), fuel - 1)
      else pg.data
  }

  /** Following cursors from any valid page to the end lists the rest of
      the listing exactly once, in order; from the first page, that is
      every matching document. */
  lemma CrawlListsTheRest(docs: seq<Doc>, q: PaginateUsersDto, fuel: nat)
    requires UniqueIds(docs) && NewestFirst(docs) && NonEmptyIds(docs)
    requires ValidPaginateUsersDto(q) && ExpectedPage(docs, q).Ok?
    requires fuel >= |Listing(docs, q.role)| - StartOf(docs, q)
    ensures Crawl(docs, q, fuel) == ToEntities(Listing(docs, q.role)[StartOf(docs, q)..])
  {
    CrawlFrom(docs, q, fuel, Listing(docs, q.role), StartOf(docs, q));
  }

  /** The induction behind `CrawlListsTheRest`, on the listing `l` and the
      start `p` of the current page. */
  lemma {:induction false} CrawlFrom(docs: seq<Doc>, q: PaginateUsersDto, fuel: nat, l: seq<Doc>, p: nat)
    requires UniqueIds(docs) && NewestFirst(docs) && NonEmptyIds(docs)
    requires ValidPaginateUsersDto(q) && ExpectedPage(docs, q).Ok?
    requires l == Listing(docs, q.role) && p == StartOf(docs, q)
    requires fuel >= |l| - p
    ensures p <= |l|
    ensures Crawl(docs, q, fuel) == ToEntities(l[p..])
    decreases fuel
  {
    var lim := EffectiveLimit(q);
    if p + lim < |l| {
      var next := CrawlNext(docs, q, l, p);
      var f1, p1 := fuel - 1, p + lim;
      CrawlFrom(docs, next, f1, l, p1);
      CrawlJoin(docs, q, fuel, l, p, next, f1, p1);
    } else {
      LastPage(docs, q, fuel, l, p);
    }
  }

  /** The query that follows a page with a successor: valid, answered, and
      starting where the page ends. */
  lemma CrawlNext(docs: seq<Doc>, q: PaginateUsersDto, l: seq<Doc>, p: nat) returns (next: PaginateUsersDto)
    requires UniqueIds(docs) && NewestFirst(docs) && NonEmptyIds(docs)
    requires ValidPaginateUsersDto(q) && ExpectedPage(docs, q).Ok?
    requires l == Listing(docs, q.role) && p == StartOf(docs, q) && p + EffectiveLimit(q) < |l|
    ensures next == q.(cursor := ExpectedPage(docs, q).value.meta.nextCursor)
    ensures next.role == q.role && ValidPaginateUsersDto(next) && ExpectedPage(docs, next).Ok?
    ensures StartOf(docs, next) == p + EffectiveLimit(q)
  {
    next := q.(cursor := ExpectedPage(docs, q).value.meta.nextCursor);
    PageWindow(docs, q, l, p, EffectiveLimit(q), p + EffectiveLimit(q));
    NextCursorResumes(docs, q, next);
  }

  /** A page with a successor, then the crawl from the next cursor that
      lists the rest after it, is the rest from the page's start. */
  lemma CrawlJoin(docs: seq<Doc>, q: PaginateUsersDto, fuel: nat, l: seq<Doc>, p: nat,
                  next: PaginateUsersDto, f1: nat, p1: nat)
    requires ValidPaginateUsersDto(q) && ExpectedPage(docs, q).Ok?
    requires l == Listing(docs, q.role) && p == StartOf(docs, q)
    requires p1 == p + EffectiveLimit(q) && p1 < |l|
    requires next == q.(cursor := ExpectedPage(docs, q).value.meta.nextCursor) && f1 == fuel - 1
    requires ValidPaginateUsersDto(next) && Crawl(docs, next, f1) == ToEntities(l[p1..])
    ensures Crawl(docs, q, fuel) == ToEntities(l[p..])
  {
    PageThenRest(docs, q, l, p, p1);
    CrawlStep(docs, q, fuel, next, f1);
    Concatenation(Crawl(docs, q, fuel), ExpectedPage(docs, q).value.data,
      Crawl(docs, next, f1), ToEntities(l[p1..]), ToEntities(l[p..]));
  }

  /** A page without a successor ends the crawl with the rest of the
      listing. */
  lemma LastPage(docs: seq<Doc>, q: PaginateUsersDto, fuel: nat, l: seq<Doc>, p: nat)
    requires ValidPaginateUsersDto(q) && ExpectedPage(docs, q).Ok?
    requires l == Listing(docs, q.role) && p == StartOf(docs, q)
    requires p + EffectiveLimit(q) >= |l|
    ensures Crawl(docs, q, fuel) == ToEntities(l[p..])
  {
    PageWindow(docs, q, l, p, EffectiveLimit(q), |l|);
    assert l[p..|l|] == l[p..];
  }

  /** Rewriting the tail of a concatenation. */
  lemma Concatenation(whole: seq<UserEntity>, head: seq<UserEntity>, tail: seq<UserEntity>,
                      tail': seq<UserEntity>, whole': seq<UserEntity>)
    requires whole == head + tail
    requires tail == tail'
    requires head + tail' == whole'
    ensures whole == whole'
  {
  }

  /** A page that has a successor, followed by everything after it, is the
      rest of the listing from the page's start. */
  lemma PageThenRest(docs: seq<Doc>, q: PaginateUsersDto, l: seq<Doc>, p: nat, e: nat)
    requires ValidPaginateUsersDto(q) && ExpectedPage(docs, q).Ok?
    requires l == Listing(docs, q.role) && p == StartOf(docs, q)
    requires e == p + EffectiveLimit(q) && e < |l|
    ensures ExpectedPage(docs, q).value.meta.hasNextPage
    ensures ExpectedPage(docs, q).value.data + ToEntities(l[e..]) == ToEntities(l[p..])
  {
    PageWindow(docs, q, l, p, EffectiveLimit(q), e);
    WindowThenRest(l, p, e);
  }

  /** One step of the crawl: the current page, then the crawl from the
      next cursor. */
  lemma CrawlStep(docs: seq<Doc>, q: PaginateUsersDto, fuel: nat, next: PaginateUsersDto, f1: nat)
    requires ValidPaginateUsersDto(q) && ExpectedPage(docs, q).Ok? && f1 == fuel - 1
    requires ExpectedPage(docs, q).value.meta.hasNextPage
    requires next == q.(cursor := ExpectedPage(docs, q).value.meta.nextCursor)
    ensures ValidPaginateUsersDto(next)
    ensures Crawl(docs, q, fuel) == ExpectedPage(docs, q).value.data + Crawl(docs, next, f1)
  {
  }

  /** The `startAfter` bound that `findAll` passes to the store: the cursor
      document's `createdAt` when a cursor is given and found. */
  function CursorBound(docs: seq<Doc>, q: PaginateUsersDto): (t: Option<int>)
    ensures t.Some? <==> HasCursor(q) && Get(docs, q.cursor.value).Some?
  {
    if HasCursor(q) then
      match Get(docs, q.cursor.value)
      case Some(c) => Some(c.createdAt)
      case None => None
    else None
  }

  /** What the store returns for `limit + 1` after the cursor is the
      listing from the page start on, cut to `limit + 1`. */
  lemma FetchIsSuffix(docs: seq<Doc>, q: PaginateUsersDto)
    requires NewestFirst(docs) && ValidPaginateUsersDto(q)
    ensures Select(docs, q.role, CursorBound(docs, q)) == Listing(docs, q.role)[StartOf(docs, q)..]
  {
    var t := CursorBound(docs, q);
    if t.Some? {
      SelectStartAfter(docs, q.role, t.value);
    }
  }

  /** Fetching one entry more than the limit and truncating, as `findAll`
      does, yields exactly the page: `hasNextPage` is "the fetch returned
      more than `limit`", the data is the first `limit` fetched entries,
      and the cursor is the last of them. */
  lemma TruncatedFetchIsPage(docs: seq<Doc>, q: PaginateUsersDto, fetched: seq<Doc>, lim: nat, more: bool, page: seq<Doc>)
    requires NewestFirst(docs) && ValidPaginateUsersDto(q)
    requires !(HasCursor(q) && Get(docs, q.cursor.value).None?)
    requires lim == EffectiveLimit(q)
    requires fetched == Query(docs, q.role, CursorBound(docs, q), lim + 1)
    requires more == (|fetched| > lim)
    requires page == if more then fetched[..lim] else fetched
    ensures ExpectedPage(docs, q) ==
              Ok(PaginatedResponse(ToEntities(page), PageMeta(lim, more, if more then Some(page[|page| - 1].id) else None)))
  {
    var l := Listing(docs, q.role);
    var p := StartOf(docs, q);
    FetchIsSuffix(docs, q);
    TakeOfSuffix(l, p, lim);
    if p + lim < |l| {
      PageWindow(docs, q, l, p, lim, p + lim);
    } else {
      PageWindow(docs, q, l, p, lim, |l|);
    }
  }

  /** Cutting the suffix from `p` to `n + 1` entries and then to `n`. */
  lemma TakeOfSuffix(l: seq<Doc>, p: nat, n: nat)
    requires p <= |l|
    ensures p + n < |l| ==> |Take(l[p..], n + 1)| == n + 1 && Take(l[p..], n + 1)[..n] == l[p..p + n]
    ensures p + n >= |l| ==> Take(l[p..], n + 1) == l[p..|l|]
  {
  }
}
