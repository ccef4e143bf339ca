/**
 * The items API (src/routes/api/items/index.ts). GET lists the caller's
 * items newest first, one page at a time, with pagination metadata; POST
 * stores a validated body as a new item owned by the caller. The `items`
 * collection is a sequence of documents in store order; the listing query
 * (owner filter, order by `createdAt` descending, offset, limit) and the
 * count query are written out as functions on it.
 */
module Items {
  import opened Wrappers
  import opened Text
  import opened Values
  import opened Http
  import opened TokenAuth
  import opened Validators

  /** A stored item: the store-assigned id and the document's fields. */
  datatype ItemDoc = ItemDoc(id: string, data: Doc)

  /** The listing's pagination metadata. */
  datatype Pagination = Pagination(page: int, limit: int, total: nat, count: nat, hasMore: bool)

  /** The GET payload: `{items, pagination}`. */
  datatype Listing = Listing(items: seq<Doc>, pagination: Pagination)

  /** The POST payload: `{id}` of the stored item. */
  datatype Created = Created(id: string)

  function Max(a: int, b: int): int { if a >= b then a else b }
  function Min(a: int, b: int): int { if a <= b then a else b }

  // ---------------------------------------------------------------------
  // Query parameters

  /**
   * `parseInt(url.searchParams.get(name) || fallback, 10)`: an absent or
   * empty parameter falls back; `None` is `NaN`.
   */
  function QueryInt(query: map<string, string>, name: string, fallback: string): Option<int> {
    ParseInt(if name in query && query[name] != "" then query[name] else fallback)
  }

  /** `Math.max(parseInt(page || "1"), 1)`: at least 1, and 1 when absent; `NaN` stays `NaN`. */
  function PageParam(query: map<string, string>): (p: Option<int>)
    ensures p.Some? ==> p.value >= 1
    ensures "page" !in query || query["page"] == "" ==> p == Some(1)
  {
    assert ParseInt("1") == Some(1) by { ParseIntToString(1); }
    match QueryInt(query, "page", "1")
    case None => None
    case Some(n) => Some(Max(n, 1))
  }

  /** `Math.min(Math.max(parseInt(limit || "10"), 1), 100)`: within 1..100, and 10 when absent. */
  function LimitParam(query: map<string, string>): (l: Option<int>)
    ensures l.Some? ==> 1 <= l.value <= 100
    ensures "limit" !in query || query["limit"] == "" ==> l == Some(10)
  {
    assert ParseInt("10") == Some(10) by { ParseIntToString(10); }
    match QueryInt(query, "limit", "10")
    case None => None
    case Some(n) => Some(Min(Max(n, 1), 100))
  }

  /** A page number the client sends in decimal is clamped up to 1 and otherwise kept. */
  lemma PageParamOf(query: map<string, string>, n: int)
    requires "page" in query && query["page"] == IntToString(n)
    ensures PageParam(query) == Some(Max(n, 1))
  {
    ParseIntToString(n);
  }

  /** A limit the client sends in decimal is clamped into 1..100. */
  lemma LimitParamOf(query: map<string, string>, n: int)
    requires "limit" in query && query["limit"] == IntToString(n)
    ensures LimitParam(query) == Some(Min(Max(n, 1), 100))
  {
    ParseIntToString(n);
  }

  /** `(page - 1) * limit`: the number of items earlier pages hold. */
  function Offset(page: int, limit: int): (o: nat)
    requires page >= 1 && limit >= 1
    ensures o < page * limit && page * limit == o + limit
  {
    (page - 1) * limit
  }

  // ---------------------------------------------------------------------
  // The listing query

  /** `where("ownerId", "==", owner)`. */
  predicate OwnedBy(d: ItemDoc, owner: string) {
    "ownerId" in d.data && d.data["ownerId"] == Str(owner)
  }

  /** `orderBy("createdAt")` only returns documents holding a timestamp there. */
  predicate Stamped(d: ItemDoc) {
    "createdAt" in d.data && d.data["createdAt"].Time?
  }

  /** The instant of a stamped document's `createdAt`. */
  function CreatedAt(d: ItemDoc): int {
    if Stamped(d) then d.data["createdAt"].t else 0
  }

  /** The owner's documents, in store order; their number is the count query's answer. */
  function Owned(docs: seq<ItemDoc>, owner: string): (r: seq<ItemDoc>)
    ensures |r| <= |docs|
    ensures forall d :: d in r <==> d in docs && OwnedBy(d, owner)
  {
    if docs == [] then []
    else
      var rest := Owned(docs[1..], owner);
      assert docs == [docs[0]] + docs[1..];
      if OwnedBy(docs[0], owner) then [docs[0]] + rest else rest
  }

  /** Adding a document extends exactly its owner's documents. */
  lemma {:induction false} OwnedAppend(docs: seq<ItemDoc>, d: ItemDoc, owner: string)
    ensures Owned(docs + [d], owner) == if OwnedBy(d, owner) then Owned(docs, owner) + [d] else Owned(docs, owner)
  {
    if docs == [] {
      assert Owned([d][1..], owner) == [];
      assert docs + [d] == [d];
    } else {
      assert (docs + [d])[1..] == docs[1..] + [d];
      OwnedAppend(docs[1..], d, owner);
    }
  }

  /** Newest first: `createdAt` never increases along the sequence. */
  predicate NewestFirstOrder(s: seq<ItemDoc>) {
    forall i, j :: 0 <= i < j < |s| ==> CreatedAt(s[i]) >= CreatedAt(s[j])
  }

  function Insert(d: ItemDoc, s: seq<ItemDoc>): (r: seq<ItemDoc>)
    ensures multiset(r) == multiset(s) + multiset{d}
    ensures forall x :: x in r ==> x == d || x in s
  {
    if s == [] || CreatedAt(d) >= CreatedAt(s[0]) then [d] + s
    else
      assert s == [s[0]] + s[1..];
      [s[0]] + Insert(d, s[1..])
  }

  /** The head of a newest-first sequence is at least as new as every element, and its tail is newest first. */
  lemma HeadNewest(s: seq<ItemDoc>)
    requires s != [] && NewestFirstOrder(s)
    ensures forall x :: x in s ==> CreatedAt(x) <= CreatedAt(s[0])
    ensures NewestFirstOrder(s[1..])
  {
    forall x | x in s ensures CreatedAt(x) <= CreatedAt(s[0]) {
      var k :| 0 <= k < |s| && s[k] == x;
    }
    forall i, j | 0 <= i < j < |s| - 1 ensures CreatedAt(s[1..][i]) >= CreatedAt(s[1..][j]) {
      assert s[1..][i] == s[i + 1] && s[1..][j] == s[j + 1];
    }
  }

  /** A document at least as new as every element, put in front of a newest-first sequence, keeps it newest first. */
  lemma ConsNewest(x: ItemDoc, t: seq<ItemDoc>)
    requires NewestFirstOrder(t) && forall y :: y in t ==> CreatedAt(y) <= CreatedAt(x)
    ensures NewestFirstOrder([x] + t)
  {
    var r := [x] + t;
    forall i, j | 0 <= i < j < |r| ensures CreatedAt(r[i]) >= CreatedAt(r[j]) {
      assert r[j] == t[j - 1] && r[j] in t;
      if i > 0 { assert r[i] == t[i - 1]; }
    }
  }

  /** Inserting into a newest-first sequence keeps it newest first. */
  lemma {:induction false} InsertOrdered(d: ItemDoc, s: seq<ItemDoc>)
    requires NewestFirstOrder(s)
    ensures NewestFirstOrder(Insert(d, s))
  {
    if s == [] {
      ConsNewest(d, s);
    } else {
      HeadNewest(s);
      if CreatedAt(d) >= CreatedAt(s[0]) {
        ConsNewest(d, s);
      } else {
        InsertOrdered(d, s[1..]);
        var rest := Insert(d, s[1..]);
        assert forall y :: y in rest ==> y == d || y in s[1..];
        assert forall y :: y in s[1..] ==> y in s;
        ConsNewest(s[0], rest);
      }
    }
  }

  /** `orderBy("createdAt", "desc")`: the same documents, newest first. */
  function NewestFirst(s: seq<ItemDoc>): (r: seq<ItemDoc>)
    ensures NewestFirstOrder(r) && multiset(r) == multiset(s)
  {
    if s == [] then []
    else
      assert s == [s[0]] + s[1..];
      var rest := NewestFirst(s[1..]);
      InsertOrdered(s[0], rest);
      Insert(s[0], rest)
  }

  /** Every document the listing query can return for `owner`, in the order it returns them. */
  function Listed(docs: seq<ItemDoc>, owner: string): seq<ItemDoc> {
    NewestFirst(Filter(Owned(docs, owner), Stamped))
  }

  /**
   * The listing query's meaning: it holds exactly the owner's documents that
   * carry a `createdAt` timestamp, newest first, and there are never more of
   * them than the count query reports.
   */
  lemma ListedSpec(docs: seq<ItemDoc>, owner: string)
    ensures NewestFirstOrder(Listed(docs, owner))
    ensures forall d :: d in Listed(docs, owner) <==> d in docs && OwnedBy(d, owner) && Stamped(d)
    ensures |Listed(docs, owner)| <= |Owned(docs, owner)|
  {
    var f := Filter(Owned(docs, owner), Stamped);
    forall d ensures d in Listed(docs, owner) <==> d in f {
      assert d in multiset(Listed(docs, owner)) <==> d in multiset(f);
    }
    assert |multiset(Listed(docs, owner))| == |multiset(f)|;
  }

  /** `.offset(offset).limit(limit)`: at most `limit` items starting at position `offset`. */
  function Window<T>(s: seq<T>, offset: nat, limit: nat): (w: seq<T>)
    ensures |w| == if offset >= |s| then 0 else Min(limit, |s| - offset)
    ensures forall k :: 0 <= k < |w| ==> w[k] == s[offset + k]
  {
    if offset >= |s| then [] else s[offset..Min(offset + limit, |s|)]
  }

  /**
   * `{ id: doc.id, ...doc.data() }`: the document's fields and its id; a
   * stored `id` field, spread after it, replaces the document id.
   */
  function ItemView(d: ItemDoc): (v: Doc)
    ensures v.Keys == d.data.Keys + {"id"}
    ensures forall k :: k in d.data ==> v[k] == d.data[k]
    ensures "id" !in d.data ==> v["id"] == Str(d.id)
  {
    map["id" := Str(d.id)] + d.data
  }

  function Views(s: seq<ItemDoc>): (vs: seq<Doc>)
    ensures |vs| == |s| && forall k :: 0 <= k < |s| ==> vs[k] == ItemView(s[k])
  {
    seq(|s|, k requires 0 <= k < |s| => ItemView(s[k]))
  }

  /** The items of one page of a listing: the views of the window `.offset(..).limit(..)` selects. */
  function PageItems(listed: seq<ItemDoc>, page: int, limit: int): seq<Doc>
    requires page >= 1 && limit >= 1
  {
    Views(Window(listed, Offset(page, limit), limit))
  }

  /**
   * A page holds at most `limit` items, exactly `limit` when the listing
   * reaches to the end of the page, and they are the views of the listing's
   * items from position `(page-1)*limit` on, in order.
   */
  lemma PageItemsSpec(listed: seq<ItemDoc>, page: int, limit: int)
    requires page >= 1 && limit >= 1
    ensures |PageItems(listed, page, limit)| <= limit
    ensures |PageItems(listed, page, limit)| == limit <==> page * limit <= |listed|
    ensures forall k :: 0 <= k < |PageItems(listed, page, limit)| ==>
      Offset(page, limit) + k < |listed| && PageItems(listed, page, limit)[k] == ItemView(listed[Offset(page, limit) + k])
  {
  }

  /** One page of the owner's listing, with its pagination metadata. */
  function PageOf(docs: seq<ItemDoc>, owner: string, page: int, limit: int): Listing
    requires page >= 1 && limit >= 1
  {
    var items := PageItems(Listed(docs, owner), page, limit);
    Listing(items, Pagination(page, limit, |Owned(docs, owner)|, |items|, |items| == limit))
  }

  /**
   * What a page answers. It holds the views of the listing's items at
   * positions `(page-1)*limit` onwards, at most `limit` of them, all owned
   * by `owner`; `total` is the owner's number of items, `count` the page's,
   * and `hasMore` holds exactly when the listing reaches at least to the end
   * of this page, so it is also set when this page is the last and happens
   * to be full.
   */
  lemma PageOfSpec(docs: seq<ItemDoc>, owner: string, page: int, limit: int)
    requires page >= 1 && limit >= 1
    ensures var l := PageOf(docs, owner, page, limit);
      && l.pagination.page == page && l.pagination.limit == limit
      && l.pagination.total == |Owned(docs, owner)|
      && l.pagination.count == |l.items| <= limit
      && (l.pagination.hasMore <==> page * limit <= |Listed(docs, owner)|)
      && l.items == PageItems(Listed(docs, owner), page, limit)
      && (forall k :: 0 <= k < |l.items| ==> "ownerId" in l.items[k] && l.items[k]["ownerId"] == Str(owner))
  {
    var listed := Listed(docs, owner);
    var items := PageItems(listed, page, limit);
    PageItemsSpec(listed, page, limit);
    assert forall k :: 0 <= k < |items| ==> "ownerId" in items[k] && items[k]["ownerId"] == Str(owner) by {
      ListedSpec(docs, owner);
      forall k | 0 <= k < |items| ensures "ownerId" in items[k] && items[k]["ownerId"] == Str(owner) {
        var d := listed[Offset(page, limit) + k];
        assert d in listed && items[k] == ItemView(d);
      }
    }
  }

  /**
   * GET: 401 "Unauthorized" without a user id, before any query; a page or
   * limit that is not a number makes the store's query throw; otherwise the
   * page of the caller's listing the normalised parameters select.
   */
  function ListItems(docs: seq<ItemDoc>, auth: Option<string>, query: map<string, string>): (r: Response<Listing>)
    ensures !Authenticated(auth) ==> r == ErrorResponse("Unauthorized", 401)
    ensures Authenticated(auth) ==> (r == Uncaught <==> PageParam(query).None? || LimitParam(query).None?)
    ensures Authenticated(auth) && PageParam(query).Some? && LimitParam(query).Some? ==>
      r == SuccessResponse("success", Some(PageOf(docs, auth.value, PageParam(query).value, LimitParam(query).value)))
  {
    if !Authenticated(auth) then ErrorResponse("Unauthorized", 401)
    else
      match (PageParam(query), LimitParam(query))
      case (Some(page), Some(limit)) => SuccessResponse("success", Some(PageOf(docs, auth.value, page, limit)))
      case _ => Uncaught
  }

  /** The items of pages 1 to `n` of a listing, as a client that reads them in turn collects them. */
  function PagesUpTo(listed: seq<ItemDoc>, limit: int, n: nat): seq<Doc>
    requires limit >= 1
  {
    if n == 0 then [] else PagesUpTo(listed, limit, n - 1) + PageItems(listed, n, limit)
  }

  /**
   * Pages fit together: reading pages 1 to `n` of an unchanged listing
   * gives its first `n * limit` items (all of them once the listing is
   * shorter), each exactly once and in order.
   */
  lemma {:induction false} PagesConcatenate(listed: seq<ItemDoc>, limit: int, n: nat)
    requires limit >= 1
    ensures PagesUpTo(listed, limit, n) == Views(listed[..Min(n * limit, |listed|)])
  {
    if n > 0 {
      var a, b := Min((n - 1) * limit, |listed|), Min(n * limit, |listed|);
      PagesConcatenate(listed, limit, n - 1);
      assert Offset(n, limit) == (n - 1) * limit;
      PageSlice(listed, n, limit);
      ViewsConcat(listed, a, b);
    }
  }

  /** A page's items are the views of one slice of the listing. */
  lemma PageSlice(listed: seq<ItemDoc>, page: int, limit: int)
    requires page >= 1 && limit >= 1
    ensures Min(Offset(page, limit), |listed|) <= Min(page * limit, |listed|)
    ensures PageItems(listed, page, limit) ==
      Views(listed[Min(Offset(page, limit), |listed|)..Min(page * limit, |listed|)])
  {
  }

  lemma ViewsConcat(s: seq<ItemDoc>, a: nat, b: nat)
    requires a <= b <= |s|
    ensures Views(s[..a]) + Views(s[a..b]) == Views(s[..b])
  {
    var x, y, z := Views(s[..a]), Views(s[a..b]), Views(s[..b]);
    forall k | 0 <= k < b ensures (x + y)[k] == z[k] {
      if k < a {
        assert (x + y)[k] == x[k] == ItemView(s[..a][k]);
      } else {
        assert (x + y)[k] == y[k - a] == ItemView(s[a..b][k - a]);
      }
      assert z[k] == ItemView(s[..b][k]);
    }
    assert x + y == z;
  }

  /**
   * `hasMore` is a guess from a full page: when the listing ends exactly at
   * the end of page `page`, that page reports more and the next page is
   * empty.
   */
  lemma HasMoreAtExactEnd(docs: seq<ItemDoc>, owner: string, page: int, limit: int)
    requires page >= 1 && limit >= 1
    requires |Listed(docs, owner)| == page * limit
    ensures PageOf(docs, owner, page, limit).pagination.hasMore
    ensures PageOf(docs, owner, page + 1, limit).items == []
  {
    var listed := Listed(docs, owner);
    assert PageOf(docs, owner, page, limit).pagination.hasMore by {
      PageOfSpec(docs, owner, page, limit);
    }
    assert PageOf(docs, owner, page + 1, limit).items == [] by {
      assert Offset(page + 1, limit) == |listed|;
      assert Window(listed, Offset(page + 1, limit), limit) == [];
    }
  }

  /**
   * `total` counts the owner's items with or without a timestamp, so it can
   * exceed what the pages hold; when every item of the owner carries one,
   * the pages hold exactly `total` items.
   */
  lemma {:induction false} TotalWhenAllStamped(docs: seq<ItemDoc>, owner: string)
    requires forall d :: d in docs && OwnedBy(d, owner) ==> Stamped(d)
    ensures |Listed(docs, owner)| == |Owned(docs, owner)|
  {
    FilterAll(Owned(docs, owner), Stamped);
    assert |multiset(Listed(docs, owner))| == |multiset(Owned(docs, owner))|;
  }

  lemma {:induction false} FilterAll<T>(xs: seq<T>, p: T -> bool)
    requires forall x :: x in xs ==> p(x)
    ensures Filter(xs, p) == xs
  {
    if xs != [] {
      assert forall x :: x in xs[1..] ==> x in xs;
      FilterAll(xs[1..], p);
    }
  }

  // ---------------------------------------------------------------------
  // Creating an item

  /**
   * The stored item: the body's own entries, then `ownerId`, `createdAt`
   * and `updatedAt`, which override whatever the body sent under those
   * names. The two timestamps come from two readings of the clock.
   */
  function NewItem(id: string, body: Value, owner: string, created: int, updated: int): (d: ItemDoc)
    ensures d.id == id && OwnedBy(d, owner) && Stamped(d) && CreatedAt(d) == created
    ensures d.data.Keys == Spread(body).Keys + {"ownerId", "createdAt", "updatedAt"}
    ensures d.data["updatedAt"] == Time(updated)
    ensures forall k :: k in Spread(body) && k != "ownerId" && k != "createdAt" && k != "updatedAt" ==>
      d.data[k] == Spread(body)[k]
  {
    ItemDoc(id, Spread(body)["ownerId" := Str(owner)]["createdAt" := Time(created)]["updatedAt" := Time(updated)])
  }

  /**
   * A created item is visible to its owner: it is in the owner's listing,
   * the owner's total grows by one, and every other owner's documents are
   * as before.
   */
  lemma CreatedItemListed(docs: seq<ItemDoc>, id: string, body: Value, owner: string, created: int, updated: int,
                           other: string)
    requires other != owner
    ensures NewItem(id, body, owner, created, updated) in Listed(docs + [NewItem(id, body, owner, created, updated)], owner)
    ensures |Owned(docs + [NewItem(id, body, owner, created, updated)], owner)| == |Owned(docs, owner)| + 1
    ensures Owned(docs + [NewItem(id, body, owner, created, updated)], other) == Owned(docs, other)
  {
    var d := NewItem(id, body, owner, created, updated);
    ListedSpec(docs + [d], owner);
    OwnedAppend(docs, d, owner);
    OwnedAppend(docs, d, other);
  }

  /** The `items` collection as the POST handler changes it. */
  class ItemStore {
    var docs: seq<ItemDoc>

    constructor(docs: seq<ItemDoc>)
      ensures this.docs == docs
    {
      this.docs := docs;
    }

    /**
     * POST: 401 "Unauthorized" without a user id; then the validator's
     * error with 400; otherwise the new item is appended under the id the
     * store assigns (`newId`), stamped with the clock's two readings
     * `created` and `updated`, and its id is returned.
     */
    method Create(auth: Option<string>, h: Headers, body: Body, newId: string, created: int, updated: int)
      returns (r: Response<Created>)
      modifies this
      ensures !Authenticated(auth) ==> r == ErrorResponse("Unauthorized", 401) && docs == old(docs)
      ensures Authenticated(auth) && ValidateRequest(h, body).Invalid? ==>
        r == ErrorResponse(ValidateRequest(h, body).error, 400) && docs == old(docs)
      ensures Authenticated(auth) && ValidateRequest(h, body).Valid? ==>
        && r == SuccessResponse("success", Some(Created(newId)))
        && docs == old(docs) + [NewItem(newId, ValidateRequest(h, body).data, auth.value, created, updated)]
    {
      if !Authenticated(auth) {
        return ErrorResponse("Unauthorized", 401);
      }
      var validation := ValidateRequest(h, body);
      if validation.Invalid? {
        return ErrorResponse(validation.error, 400);
      }
      docs := docs + [NewItem(newId, validation.data, auth.value, created, updated)];
      r := SuccessResponse("success", Some(Created(newId)));
    }
  }
}
