/**
 Keyset pagination over (created_at, id) in descending order: the API list and search, and the
 interactive search with its preview cap. Stored times have microseconds, cursors milliseconds.
 `rows` stands for the rows that match the filters; the table does not change between requests.
 */
module KeysetPaging {
  import opened Options

  /** The sort key of a row: created_at in microseconds since the epoch, and the unique id. */
  datatype Item = Item(micros: nat, id: int)

  /** What a cursor carries: milliseconds and the id. */
  datatype Cursor = Cursor(millis: nat, id: int)

  predicate Less(a: Item, b: Item) {
    a.micros < b.micros || (a.micros == b.micros && a.id < b.id)
  }

  /** new Date(created_at).toISOString(): the microseconds are cut off. */
  function CursorOf(x: Item): Cursor {
    Cursor(x.micros / 1000, x.id)
  }

  /** (created_at, id) < (cursor time, cursor id). */
  predicate Before(x: Item, c: Cursor) {
    Less(x, Item(c.millis * 1000, c.id))
  }

  function After(rows: set<Item>, c: Option<Cursor>): set<Item> {
    if c.None? then rows else set x | x in rows && Before(x, c.value)
  }

  ghost predicate IsTop(m: Item, rows: set<Item>) {
    m in rows && forall x :: x in rows && x != m ==> Less(x, m)
  }

  lemma TopExists(rows: set<Item>)
    requires rows != {}
    ensures exists m :: IsTop(m, rows)
  {
    var x :| x in rows;
    if rows != {x} {
      TopExists(rows - {x});
      var m :| IsTop(m, rows - {x});
      var top := if Less(m, x) then x else m;
      forall y | y in rows && y != top
        ensures Less(y, top)
      {
        assert y in rows - {x} || y == x;
      }
      assert IsTop(top, rows);
    } else {
      assert IsTop(x, rows);
    }
  }

  ghost predicate Descending(s: seq<Item>) {
    forall i, j :: 0 <= i < j < |s| ==> Less(s[j], s[i])
  }

  ghost predicate Enumerates(l: seq<Item>, rows: set<Item>) {
    Descending(l) && forall x :: x in l <==> x in rows
  }

  lemma {:induction false} EnumerationExists(rows: set<Item>)
    ensures exists l :: Enumerates(l, rows)
    decreases |rows|
  {
    if rows == {} {
      assert Enumerates([], rows);
    } else {
      TopExists(rows);
      var m :| IsTop(m, rows);
      EnumerationExists(rows - {m});
      var l :| Enumerates(l, rows - {m});
      assert forall j :: 0 <= j < |l| ==> l[j] in l;
      assert Enumerates([m] + l, rows);
    }
  }

  /** ORDER BY created_at DESC, id DESC. */
  ghost function Sorted(rows: set<Item>): seq<Item> {
    EnumerationExists(rows);
    var l :| Enumerates(l, rows);
    l
  }

  function Take(s: seq<Item>, n: nat): seq<Item> {
    if |s| <= n then s else s[..n]
  }

  /** LIMIT n + 1, then the first n rows and whether there was one more. */
  ghost function Fetch(rows: set<Item>, c: Option<Cursor>, n: nat): (r: (seq<Item>, bool)) {
    var fetched := Take(Sorted(After(rows, c)), n + 1);
    (Take(fetched, n), |fetched| > n)
  }

  function Clamp(raw: Option<int>, fallback: nat): (r: nat)
    requires 1 <= fallback
    ensures raw.None? ==> r == fallback
    ensures raw.Some? ==> 1 <= r <= 100 && (r == raw.value || (raw.value < 1 && r == 1) || (raw.value > 100 && r == 100))
  {
    if raw.None? then fallback else if raw.value < 1 then 1 else if raw.value > 100 then 100 else raw.value
  }

  /** The codec of cursor tokens, base64url over JSON; None is an undecodable token. */
  datatype Codec<!C> = Codec(encode: C -> string, decode: string -> Option<C>)

  ghost predicate InversePair<C(!new)>(codec: Codec<C>) {
    forall c :: codec.encode(c) != "" && codec.decode(codec.encode(c)) == Some(c)
  }

  // ----- the API list and search ---------------------------------------------------------------

  const API_PAGE_DEFAULT: nat := 50

  datatype ApiReply = InvalidCursor | ApiPage(items: seq<Item>, hasMore: bool, next: Option<string>)

  ghost function ListApiIocs(codec: Codec<Cursor>, rows: set<Item>, raw: string, limit: Option<int>): ApiReply {
    var decoded := codec.decode(raw);
    if raw != "" && decoded.None? then InvalidCursor
    else
      var (items, more) := Fetch(rows, if raw == "" then None else decoded, Clamp(limit, API_PAGE_DEFAULT));
      ApiPage(items, more,
              if more && items != [] then Some(codec.encode(CursorOf(items[|items| - 1]))) else None)
  }

  // ----- the interactive search ----------------------------------------------------------------

  const SEARCH_PAGE_DEFAULT: nat := 25

  datatype SearchCursor = SearchCursor(at: Cursor, seen: nat)

  datatype SearchReply = SearchPage(items: seq<Item>, hasMore: bool, next: Option<string>, exactCount: Option<nat>)

  ghost function SearchIocs(
    codec: Codec<SearchCursor>, rows: set<Item>, raw: string, pageSize: Option<int>, previewLimit: nat): SearchReply
  {
    var cursor := if raw == "" then None else codec.decode(raw);
    var seen := if cursor.Some? then cursor.value.seen else 0;
    if previewLimit <= seen then SearchPage([], false, None, None)
    else
      var remaining := previewLimit - seen;
      var size := Clamp(pageSize, SEARCH_PAGE_DEFAULT);
      var effective := if size <= remaining then size else remaining;
      var (items, more) := Fetch(rows, if cursor.Some? then Some(cursor.value.at) else None, effective);
      var newSeen := seen + |items|;
      var hasMore := more && newSeen < previewLimit;
      SearchPage(items, hasMore,
                 if hasMore && items != [] then
                   Some(codec.encode(SearchCursor(CursorOf(items[|items| - 1]), newSeen)))
                 else None,
                 if cursor.None? && |Take(Sorted(rows), previewLimit + 1)| <= previewLimit then
                   Some(|Take(Sorted(rows), previewLimit + 1)|)
                 else None)
  }

  // ----- following the cursors -----------------------------------------------------------------

  /** The token of API request i: none at first, then the one the previous page gave. */
  function ApiTokenFor(replies: seq<ApiReply>, i: nat): string
    requires i <= |replies|
  {
    if i > 0 && replies[i - 1].ApiPage? && replies[i - 1].next.Some? then replies[i - 1].next.value else ""
  }

  ghost predicate ApiAnswer(codec: Codec<Cursor>, rows: set<Item>, limits: nat -> Option<int>, replies: seq<ApiReply>, i: nat)
    requires i < |replies|
  {
    && replies[i] == ListApiIocs(codec, rows, ApiTokenFor(replies, i), limits(i))
    && (i + 1 < |replies| ==> replies[i].ApiPage? && replies[i].next.Some?)
  }

  /** A client that follows next_cursor; request i asks for limits(i) rows. */
  ghost predicate ApiSession(codec: Codec<Cursor>, rows: set<Item>, limits: nat -> Option<int>, replies: seq<ApiReply>) {
    InversePair(codec) && forall i :: 0 <= i < |replies| ==> ApiAnswer(codec, rows, limits, replies, i)
  }

  /** The client has reached the end. */
  ghost predicate ApiFinished(replies: seq<ApiReply>) {
    replies != [] && (replies[|replies| - 1].ApiPage? ==> replies[|replies| - 1].next.None?)
  }

  /** Everything the client received from request i on. */
  function ApiServed(replies: seq<ApiReply>, i: nat): seq<Item>
    requires i <= |replies|
    decreases |replies| - i
  {
    if i == |replies| then []
    else (if replies[i].ApiPage? then replies[i].items else []) + ApiServed(replies, i + 1)
  }

  function SearchTokenFor(replies: seq<SearchReply>, i: nat): string
    requires i <= |replies|
  {
    if i > 0 && replies[i - 1].next.Some? then replies[i - 1].next.value else ""
  }

  ghost predicate SearchAnswer(codec: Codec<SearchCursor>, rows: set<Item>, sizes: nat -> Option<int>, previewLimit: nat,
                               replies: seq<SearchReply>, i: nat)
    requires i < |replies|
  {
    && replies[i] == SearchIocs(codec, rows, SearchTokenFor(replies, i), sizes(i), previewLimit)
    && (i + 1 < |replies| ==> replies[i].next.Some?)
  }

  ghost predicate SearchSession(
    codec: Codec<SearchCursor>, rows: set<Item>, sizes: nat -> Option<int>, previewLimit: nat, replies: seq<SearchReply>)
  {
    InversePair(codec) && forall i :: 0 <= i < |replies| ==> SearchAnswer(codec, rows, sizes, previewLimit, replies, i)
  }

  ghost predicate SearchFinished(replies: seq<SearchReply>) {
    replies != [] && replies[|replies| - 1].next.None?
  }

  function SearchServed(replies: seq<SearchReply>, i: nat): seq<Item>
    requires i <= |replies|
    decreases |replies| - i
  {
    if i == |replies| then [] else replies[i].items + SearchServed(replies, i + 1)
  }

  /** Below the cursor of a row there are fewer rows than before. */
  lemma CursorMovesOn(rows: set<Item>, c: Option<Cursor>, x: Item)
    requires x in After(rows, c)
    ensures After(rows, Some(CursorOf(x))) < After(rows, c)
    ensures |After(rows, Some(CursorOf(x)))| < |After(rows, c)|
  {
    var small, big := After(rows, Some(CursorOf(x))), After(rows, c);
    assert x !in small;
    assert forall y :: y in small ==> Less(y, x);
    assert small <= big;
    assert big == small + (big - small) && x in big - small;
  }
}
