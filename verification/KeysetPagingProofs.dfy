/** What a client gets by following cursors to the end, for any page sizes. */
module KeysetPagingProofs {
  import opened Options
  import opened KeysetPaging

  // ----- walking a sorted list -----------------------------------------------------------------

  /** The part of a descending list below a cursor. */
  function Rest(l: seq<Item>, c: Cursor): seq<Item> {
    if l == [] || Before(l[0], c) then l else Rest(l[1..], c)
  }

  lemma {:induction false} RestFacts(l: seq<Item>, c: Cursor)
    ensures
      var r := Rest(l, c);
      && |r| <= |l| && r == l[|l| - |r|..]
      && (r != [] ==> Before(r[0], c))
      && forall i :: 0 <= i < |l| - |r| ==> !Before(l[i], c)
  {
    if l != [] && !Before(l[0], c) {
      RestFacts(l[1..], c);
    }
  }

  /** A cursor lies at or below the row it was made from, so the next page starts after that row. */
  lemma RestDropsThePage(l: seq<Item>, n: nat)
    requires Descending(l) && 1 <= n <= |l|
    ensures |Rest(l, CursorOf(l[n - 1]))| <= |l| - n
  {
    RestFacts(l, CursorOf(l[n - 1]));
    var r := Rest(l, CursorOf(l[n - 1]));
    assert forall d :: 0 <= d < n ==> d == n - 1 || Less(l[n - 1], l[d]);
  }

  /** What the request after a page of n rows starts from. */
  function NextRows(l: seq<Item>, n: nat): seq<Item>
    requires 1 <= n <= |l|
  {
    Rest(l, CursorOf(l[n - 1]))
  }

  lemma NextRowsFacts(l: seq<Item>, n: nat)
    requires Descending(l) && 1 <= n <= |l|
    ensures
      var r := NextRows(l, n);
      && Descending(r) && |r| <= |l| - n && r == l[|l| - |r|..]
      && (r != [] ==> Before(r[0], CursorOf(l[n - 1])))
  {
    RestFacts(l, CursorOf(l[n - 1]));
    RestDropsThePage(l, n);
  }

  /** The preview does not end the page early and there is more: the client gets a cursor. */
  predicate GoesOn(l: seq<Item>, n: nat, cap: Option<nat>) {
    0 < n < |l| && (cap.Some? ==> n < cap.value)
  }

  /** The page size of request k: what the client asked for, within what is left of the preview. */
  function Width(limits: nat -> Option<int>, fallback: nat, k: nat, cap: Option<nat>): (n: nat)
    requires 1 <= fallback
    ensures cap.Some? ==> n <= cap.value
    ensures n == 0 ==> cap == Some(0)
  {
    var size := Clamp(limits(k), fallback);
    if cap.Some? && cap.value < size then cap.value else size
  }

  function Left(cap: Option<nat>, n: nat): Option<nat>
    requires cap.Some? ==> n <= cap.value
  {
    if cap.Some? then Some(cap.value - n) else None
  }

  /**
   The pages of one client over a sorted list: request k takes its width, then goes on below the
   cursor of the last row. `cap` is what is left of the preview, if the endpoint has one.
   */
  function Walk(l: seq<Item>, limits: nat -> Option<int>, fallback: nat, k: nat, cap: Option<nat>): seq<Item>
    requires 1 <= fallback
    decreases |l|
  {
    var n := Width(limits, fallback, k, cap);
    if GoesOn(l, n, cap) && |NextRows(l, n)| < |l| then
      l[..n] + Walk(NextRows(l, n), limits, fallback, k + 1, Left(cap, n))
    else Take(l, n)
  }

  /** Where a page ends, the next row lies strictly below the cursor made from the page's last row. */
  predicate BoundariesHold(l: seq<Item>, limits: nat -> Option<int>, fallback: nat, k: nat, cap: Option<nat>)
    requires 1 <= fallback
    decreases |l|
  {
    var n := Width(limits, fallback, k, cap);
    GoesOn(l, n, cap) ==>
      Before(l[n], CursorOf(l[n - 1])) && BoundariesHold(l[n..], limits, fallback, k + 1, Left(cap, n))
  }

  /** The rows an unlimited client should see: all of them, or the first `cap`. */
  function Wanted(l: seq<Item>, cap: Option<nat>): seq<Item> {
    if cap.Some? then Take(l, cap.value) else l
  }

  lemma JoinDescending(a: seq<Item>, b: seq<Item>)
    requires a != [] && Descending(a) && Descending(b) && (b != [] ==> Before(b[0], CursorOf(a[|a| - 1])))
    ensures Descending(a + b)
  {
    forall i, j | 0 <= i < j < |a + b|
      ensures Less((a + b)[j], (a + b)[i])
    {
      if i < |a| <= j {
        assert Less(b[0], a[|a| - 1]);
        assert i == |a| - 1 || Less(a[|a| - 1], a[i]);
        assert j == |a| || Less(b[j - |a|], b[0]);
      }
    }
  }

  ghost predicate SoundFor(w: seq<Item>, l: seq<Item>, cap: Option<nat>) {
    && Descending(w) && |w| <= |l| && (cap.Some? ==> |w| <= cap.value)
    && (forall x :: x in w ==> x in l)
    && (w != [] ==> w[0] == l[0])
  }

  lemma SoundStep(l: seq<Item>, n: nat, rest: seq<Item>, cap: Option<nat>)
    requires Descending(l) && GoesOn(l, n, cap) && SoundFor(rest, NextRows(l, n), Left(cap, n))
    ensures SoundFor(l[..n] + rest, l, cap)
  {
    NextRowsFacts(l, n);
    assert forall x :: x in NextRows(l, n) ==> x in l;
    JoinDescending(l[..n], rest);
  }

  /**
   Whatever the timestamps, the rows served are strictly descending rows of the list, so none comes
   twice, and they never exceed the preview.
   */
  lemma {:induction false} WalkIsSound(l: seq<Item>, limits: nat -> Option<int>, fallback: nat, k: nat, cap: Option<nat>)
    requires Descending(l) && 1 <= fallback
    ensures SoundFor(Walk(l, limits, fallback, k, cap), l, cap)
    decreases |l|
  {
    var n := Width(limits, fallback, k, cap);
    if GoesOn(l, n, cap) {
      NextRowsFacts(l, n);
      WalkIsSound(NextRows(l, n), limits, fallback, k + 1, Left(cap, n));
      SoundStep(l, n, Walk(NextRows(l, n), limits, fallback, k + 1, Left(cap, n)), cap);
    }
  }

  lemma SamePrefix(a: seq<Item>, b: seq<Item>, c: seq<Item>)
    ensures a + b == a + c <==> b == c
  {
    if a + b == a + c {
      assert (a + b)[|a|..] == b && (a + c)[|a|..] == c;
    }
  }

  lemma NextRowsIff(l: seq<Item>, n: nat)
    requires Descending(l) && 1 <= n < |l|
    ensures Before(l[n], CursorOf(l[n - 1])) ==> NextRows(l, n) == l[n..]
    ensures !Before(l[n], CursorOf(l[n - 1])) ==> |NextRows(l, n)| < |l| - n
  {
    NextRowsFacts(l, n);
    RestFacts(l, CursorOf(l[n - 1]));
    var r := NextRows(l, n);
    assert |r| == |l| - n ==> r[0] == l[n];
  }

  /** Rows skipped at a boundary are lost for good. */
  lemma LostRow(l: seq<Item>, n: nat, rest: seq<Item>, cap: Option<nat>)
    requires Descending(l) && GoesOn(l, n, cap) && !Before(l[n], CursorOf(l[n - 1]))
    requires SoundFor(rest, NextRows(l, n), Left(cap, n))
    ensures rest != Wanted(l[n..], Left(cap, n))
  {
    NextRowsFacts(l, n);
    NextRowsIff(l, n);
    if rest != [] {
      assert Less(rest[0], l[n]);
    }
  }

  lemma WantedSplits(l: seq<Item>, n: nat, cap: Option<nat>)
    requires GoesOn(l, n, cap)
    ensures Wanted(l, cap) == l[..n] + Wanted(l[n..], Left(cap, n))
  {
  }

  /** The walk serves exactly the wanted rows, in order, if and only if every page boundary holds. */
  lemma {:induction false} WalkIsCompleteIff(l: seq<Item>, limits: nat -> Option<int>, fallback: nat, k: nat, cap: Option<nat>)
    requires Descending(l) && 1 <= fallback
    ensures Walk(l, limits, fallback, k, cap) == Wanted(l, cap) <==> BoundariesHold(l, limits, fallback, k, cap)
    decreases |l|
  {
    var n := Width(limits, fallback, k, cap);
    if GoesOn(l, n, cap) {
      var rest := Walk(NextRows(l, n), limits, fallback, k + 1, Left(cap, n));
      NextRowsFacts(l, n);
      WantedSplits(l, n, cap);
      SamePrefix(l[..n], rest, Wanted(l[n..], Left(cap, n)));
      if Before(l[n], CursorOf(l[n - 1])) {
        NextRowsIff(l, n);
        WalkIsCompleteIff(NextRows(l, n), limits, fallback, k + 1, Left(cap, n));
      } else {
        WalkIsSound(NextRows(l, n), limits, fallback, k + 1, Left(cap, n));
        LostRow(l, n, rest, cap);
      }
    }
  }

  /** With millisecond timestamps every boundary holds. */
  lemma {:induction false} MillisecondTimesHaveNoGaps(
    l: seq<Item>, limits: nat -> Option<int>, fallback: nat, k: nat, cap: Option<nat>)
    requires Descending(l) && 1 <= fallback && forall i :: 0 <= i < |l| ==> l[i].micros % 1000 == 0
    ensures BoundariesHold(l, limits, fallback, k, cap)
    decreases |l|
  {
    var n := Width(limits, fallback, k, cap);
    if GoesOn(l, n, cap) {
      assert Less(l[n], l[n - 1]);
      MillisecondTimesHaveNoGaps(l[n..], limits, fallback, k + 1, Left(cap, n));
    }
  }

  // ----- from cursors over a table to the walk -------------------------------------------------

  /** A set of rows has one descending enumeration, of its size. */
  lemma {:induction false} EnumerationIsUnique(a: seq<Item>, b: seq<Item>, rows: set<Item>)
    requires Enumerates(a, rows) && Enumerates(b, rows)
    ensures a == b && |a| == |rows|
    decreases |a|
  {
    if a == [] {
      assert rows == {} by {
        assert forall x :: x in rows ==> x in a;
      }
    } else {
      assert a[0] in b && b[0] in a;
      assert a[0] == b[0];
      TailEnumerates(a, rows);
      TailEnumerates(b, rows);
      EnumerationIsUnique(a[1..], b[1..], rows - {a[0]});
      assert a == [a[0]] + a[1..] && b == [b[0]] + b[1..];
    }
  }

  lemma TailEnumerates(a: seq<Item>, rows: set<Item>)
    requires Enumerates(a, rows) && a != []
    ensures Enumerates(a[1..], rows - {a[0]})
  {
    assert forall x :: x in a <==> x == a[0] || x in a[1..];
  }

  lemma SortedFacts(rows: set<Item>)
    ensures Enumerates(Sorted(rows), rows) && |Sorted(rows)| == |rows|
  {
    EnumerationExists(rows);
    EnumerationIsUnique(Sorted(rows), Sorted(rows), rows);
  }

  /** The rows below a cursor, sorted, are the rest of all rows sorted. */
  lemma RestOfSorted(rows: set<Item>, c: Cursor)
    ensures Sorted(After(rows, Some(c))) == Rest(Sorted(rows), c)
  {
    SortedFacts(rows);
    SortedFacts(After(rows, Some(c)));
    RestIsFilter(Sorted(rows), c);
    EnumerationIsUnique(Sorted(After(rows, Some(c))), Rest(Sorted(rows), c), After(rows, Some(c)));
  }

  lemma {:induction false} RestIsFilter(l: seq<Item>, c: Cursor)
    requires Descending(l)
    ensures Descending(Rest(l, c)) && forall x :: x in Rest(l, c) <==> x in l && Before(x, c)
  {
    if l == [] {
    } else if Before(l[0], c) {
      assert forall i :: 0 <= i < |l| ==> i == 0 || Less(l[i], l[0]);
    } else {
      RestIsFilter(l[1..], c);
      assert forall x :: x in l <==> x == l[0] || x in l[1..];
    }
  }

  /** Moving on from the last row of a page of n rows. */
  lemma NextAfter(rows: set<Item>, c: Option<Cursor>, n: nat)
    requires 1 <= n <= |Sorted(After(rows, c))|
    ensures
      var l := Sorted(After(rows, c));
      && Sorted(After(rows, Some(CursorOf(l[n - 1])))) == NextRows(l, n)
      && |NextRows(l, n)| < |l|
      && |After(rows, Some(CursorOf(l[n - 1])))| < |After(rows, c)|
  {
    SortedFacts(After(rows, c));
    NextRowsFacts(Sorted(After(rows, c)), n);
    var x := Sorted(After(rows, c))[n - 1];
    assert x in Sorted(After(rows, c));
    CursorMovesOn(rows, c, x);
    RestOfSorted(After(rows, c), CursorOf(x));
    assert After(After(rows, c), Some(CursorOf(x))) == After(rows, Some(CursorOf(x)));
  }

  lemma FetchIsFront(rows: set<Item>, c: Option<Cursor>, n: nat)
    ensures Fetch(rows, c, n) == (Take(Sorted(After(rows, c)), n), |Sorted(After(rows, c))| > n)
  {
    var l := Sorted(After(rows, c));
    assert Take(Take(l, n + 1), n) == Take(l, n);
  }

  function ApiToken(codec: Codec<Cursor>, c: Option<Cursor>): string {
    if c.None? then "" else codec.encode(c.value)
  }

  /** One API request from a position: its rows and the token of the next position. */
  lemma ApiStep(codec: Codec<Cursor>, rows: set<Item>, c: Option<Cursor>, limit: Option<int>)
    requires InversePair(codec)
    ensures
      var l, n := Sorted(After(rows, c)), Clamp(limit, API_PAGE_DEFAULT);
      ListApiIocs(codec, rows, ApiToken(codec, c), limit)
      == ApiPage(Take(l, n), |l| > n, if |l| > n then Some(ApiToken(codec, Some(CursorOf(l[n - 1])))) else None)
  {
    FetchIsFront(rows, c, Clamp(limit, API_PAGE_DEFAULT));
  }

  /** Request i of a session, sent from position c. */
  lemma ApiReplyAt(codec: Codec<Cursor>, rows: set<Item>, limits: nat -> Option<int>, replies: seq<ApiReply>, i: nat, c: Option<Cursor>)
    requires ApiSession(codec, rows, limits, replies) && i < |replies| && ApiTokenFor(replies, i) == ApiToken(codec, c)
    ensures
      var l, n := Sorted(After(rows, c)), Clamp(limits(i), API_PAGE_DEFAULT);
      && replies[i].ApiPage? && replies[i].items == Take(l, n)
      && (|l| > n ==> replies[i].next == Some(ApiToken(codec, Some(CursorOf(l[n - 1])))))
      && (|l| <= n ==> replies[i].next.None? && i + 1 == |replies|)
  {
    assert ApiAnswer(codec, rows, limits, replies, i);
    ApiStep(codec, rows, c, limits(i));
  }

  lemma {:induction false} ApiServesWalk(
    codec: Codec<Cursor>, rows: set<Item>, limits: nat -> Option<int>, replies: seq<ApiReply>, i: nat, c: Option<Cursor>)
    requires ApiSession(codec, rows, limits, replies) && ApiFinished(replies)
    requires i < |replies| && ApiTokenFor(replies, i) == ApiToken(codec, c)
    ensures ApiServed(replies, i) == Walk(Sorted(After(rows, c)), limits, API_PAGE_DEFAULT, i, None)
    decreases |replies| - i
  {
    var l, n := Sorted(After(rows, c)), Clamp(limits(i), API_PAGE_DEFAULT);
    ApiReplyAt(codec, rows, limits, replies, i, c);
    if |l| > n {
      NextAfter(rows, c, n);
      ApiServesWalk(codec, rows, limits, replies, i + 1, Some(CursorOf(l[n - 1])));
    } else {
      assert ApiServed(replies, i + 1) == [];
    }
  }

  /** The position request i is sent from; the rows below it shrink with every request. */
  lemma {:induction false} ApiPosition(
    codec: Codec<Cursor>, rows: set<Item>, limits: nat -> Option<int>, replies: seq<ApiReply>, i: nat) returns (c: Option<Cursor>)
    requires ApiSession(codec, rows, limits, replies) && i < |replies|
    ensures ApiTokenFor(replies, i) == ApiToken(codec, c) && |After(rows, c)| + i <= |rows|
  {
    if i == 0 {
      return None;
    }
    var p := ApiPosition(codec, rows, limits, replies, i - 1);
    var l, n := Sorted(After(rows, p)), Clamp(limits(i - 1), API_PAGE_DEFAULT);
    ApiReplyAt(codec, rows, limits, replies, i - 1, p);
    NextAfter(rows, p, n);
    c := Some(CursorOf(l[n - 1]));
  }

  function SearchToken(codec: Codec<SearchCursor>, cursor: Option<SearchCursor>): string {
    if cursor.None? then "" else codec.encode(cursor.value)
  }

  function Position(cursor: Option<SearchCursor>): Option<Cursor> {
    if cursor.Some? then Some(cursor.value.at) else None
  }

  function Seen(cursor: Option<SearchCursor>): nat {
    if cursor.Some? then cursor.value.seen else 0
  }

  /** One search request from a position: its rows and the token of the next position. */
  lemma SearchStep(codec: Codec<SearchCursor>, rows: set<Item>, cursor: Option<SearchCursor>,
                   sizes: nat -> Option<int>, k: nat, previewLimit: nat)
    requires InversePair(codec) && Seen(cursor) <= previewLimit
    ensures
      var l, cap := Sorted(After(rows, Position(cursor))), Some(previewLimit - Seen(cursor));
      var n := Width(sizes, SEARCH_PAGE_DEFAULT, k, cap);
      var reply := SearchIocs(codec, rows, SearchToken(codec, cursor), sizes(k), previewLimit);
      && reply.items == Take(l, n)
      && reply.next == if GoesOn(l, n, cap) then
                         Some(SearchToken(codec, Some(SearchCursor(CursorOf(l[n - 1]), Seen(cursor) + n))))
                       else None
  {
    FetchIsFront(rows, Position(cursor), Width(sizes, SEARCH_PAGE_DEFAULT, k, Some(previewLimit - Seen(cursor))));
  }

  lemma SearchReplyAt(codec: Codec<SearchCursor>, rows: set<Item>, sizes: nat -> Option<int>, previewLimit: nat,
                      replies: seq<SearchReply>, i: nat, cursor: Option<SearchCursor>)
    requires SearchSession(codec, rows, sizes, previewLimit, replies) && i < |replies| && Seen(cursor) <= previewLimit
    requires SearchTokenFor(replies, i) == SearchToken(codec, cursor)
    ensures
      var l, cap := Sorted(After(rows, Position(cursor))), Some(previewLimit - Seen(cursor));
      var n := Width(sizes, SEARCH_PAGE_DEFAULT, i, cap);
      && replies[i].items == Take(l, n)
      && (GoesOn(l, n, cap) ==>
            replies[i].next == Some(SearchToken(codec, Some(SearchCursor(CursorOf(l[n - 1]), Seen(cursor) + n)))))
      && (!GoesOn(l, n, cap) ==> replies[i].next.None? && i + 1 == |replies|)
  {
    assert SearchAnswer(codec, rows, sizes, previewLimit, replies, i);
    SearchStep(codec, rows, cursor, sizes, i, previewLimit);
  }

  lemma {:induction false} SearchServesWalk(
    codec: Codec<SearchCursor>, rows: set<Item>, sizes: nat -> Option<int>, previewLimit: nat,
    replies: seq<SearchReply>, i: nat, cursor: Option<SearchCursor>)
    requires SearchSession(codec, rows, sizes, previewLimit, replies) && SearchFinished(replies)
    requires i < |replies| && Seen(cursor) <= previewLimit && SearchTokenFor(replies, i) == SearchToken(codec, cursor)
    ensures SearchServed(replies, i)
         == Walk(Sorted(After(rows, Position(cursor))), sizes, SEARCH_PAGE_DEFAULT, i, Some(previewLimit - Seen(cursor)))
    decreases |replies| - i
  {
    var l, cap := Sorted(After(rows, Position(cursor))), Some(previewLimit - Seen(cursor));
    var n := Width(sizes, SEARCH_PAGE_DEFAULT, i, cap);
    SearchReplyAt(codec, rows, sizes, previewLimit, replies, i, cursor);
    if GoesOn(l, n, cap) {
      var next := NextCursor(rows, cursor, n, previewLimit);
      WalkStep(l, sizes, SEARCH_PAGE_DEFAULT, i, cap);
      SearchServesWalk(codec, rows, sizes, previewLimit, replies, i + 1, Some(next));
    } else {
      assert SearchServed(replies, i + 1) == [];
    }
  }

  /** A page of the walk that is not the last. */
  lemma WalkStep(l: seq<Item>, limits: nat -> Option<int>, fallback: nat, k: nat, cap: Option<nat>)
    requires 1 <= fallback
    requires
      var n := Width(limits, fallback, k, cap);
      GoesOn(l, n, cap) && |NextRows(l, n)| < |l|
    ensures
      var n := Width(limits, fallback, k, cap);
      Walk(l, limits, fallback, k, cap) == Take(l, n) + Walk(NextRows(l, n), limits, fallback, k + 1, Left(cap, n))
  {
  }

  /** The cursor of the next page: where it stands and what it leaves of the preview. */
  lemma NextCursor(rows: set<Item>, cursor: Option<SearchCursor>, n: nat, previewLimit: nat) returns (next: SearchCursor)
    requires Seen(cursor) <= previewLimit
    requires GoesOn(Sorted(After(rows, Position(cursor))), n, Some(previewLimit - Seen(cursor)))
    ensures
      var l, cap := Sorted(After(rows, Position(cursor))), Some(previewLimit - Seen(cursor));
      && next == SearchCursor(CursorOf(l[n - 1]), Seen(cursor) + n)
      && next.seen <= previewLimit && Left(cap, n) == Some(previewLimit - next.seen)
      && Sorted(After(rows, Some(next.at))) == NextRows(l, n) && |NextRows(l, n)| < |l|
  {
    next := SearchCursor(CursorOf(Sorted(After(rows, Position(cursor)))[n - 1]), Seen(cursor) + n);
    NextAfter(rows, Position(cursor), n);
  }

  lemma {:induction false} SearchPositionAt(
    codec: Codec<SearchCursor>, rows: set<Item>, sizes: nat -> Option<int>, previewLimit: nat,
    replies: seq<SearchReply>, i: nat) returns (cursor: Option<SearchCursor>)
    requires SearchSession(codec, rows, sizes, previewLimit, replies) && i < |replies|
    ensures SearchTokenFor(replies, i) == SearchToken(codec, cursor) && Seen(cursor) <= previewLimit
    ensures |After(rows, Position(cursor))| + i <= |rows|
  {
    if i == 0 {
      return None;
    }
    var p := SearchPositionAt(codec, rows, sizes, previewLimit, replies, i - 1);
    var l, cap := Sorted(After(rows, Position(p))), Some(previewLimit - Seen(p));
    var n := Width(sizes, SEARCH_PAGE_DEFAULT, i - 1, cap);
    SearchReplyAt(codec, rows, sizes, previewLimit, replies, i - 1, p);
    NextAfter(rows, Position(p), n);
    cursor := Some(SearchCursor(CursorOf(l[n - 1]), Seen(p) + n));
  }

  /** The order of all pages: newest first, and among equal times the greater id first; every row once. */
  lemma NewestFirst(rows: set<Item>)
    ensures
      var l := Sorted(rows);
      && |l| == |rows| && (forall x :: x in rows <==> x in l)
      && forall i, j :: 0 <= i < j < |l| ==> l[i].micros > l[j].micros || (l[i].micros == l[j].micros && l[i].id > l[j].id)
  {
    SortedFacts(rows);
  }

  // ----- one page ------------------------------------------------------------------------------

  /** A token is invalid exactly when it is there and does not decode. */
  lemma InvalidCursorIff(codec: Codec<Cursor>, rows: set<Item>, raw: string, limit: Option<int>)
    ensures ListApiIocs(codec, rows, raw, limit) == InvalidCursor <==> raw != "" && codec.decode(raw).None?
  {
  }

  /**
   A page from a position: the first rows below it, as many as asked for; more are announced exactly when
   rows are left, and then the token stands for the last row served.
   */
  lemma ApiPageIs(codec: Codec<Cursor>, rows: set<Item>, c: Option<Cursor>, limit: Option<int>)
    requires InversePair(codec)
    ensures
      var l, n, reply := Sorted(After(rows, c)), Clamp(limit, 50), ListApiIocs(codec, rows, ApiToken(codec, c), limit);
      && reply.ApiPage? && reply.items == Take(l, n)
      && (reply.hasMore <==> |After(rows, c)| > n)
      && (reply.next.Some? <==> reply.hasMore)
      && (reply.hasMore ==> |l| > n && codec.decode(reply.next.value) == Some(CursorOf(l[n - 1])))
  {
    SortedFacts(After(rows, c));
  }

  /**
   A page of the interactive search after `seen` rows: no more than the preview leaves; more are announced
   exactly when rows are left and the preview is not used up; only the first page counts.
   */
  lemma SearchPageIs(codec: Codec<SearchCursor>, rows: set<Item>, cursor: Option<SearchCursor>, pageSize: Option<int>, previewLimit: nat)
    requires InversePair(codec) && Seen(cursor) < previewLimit
    ensures
      var l, left := Sorted(After(rows, Position(cursor))), previewLimit - Seen(cursor);
      var n := if Clamp(pageSize, 25) <= left then Clamp(pageSize, 25) else left;
      var reply := SearchIocs(codec, rows, SearchToken(codec, cursor), pageSize, previewLimit);
      && reply.items == Take(l, n)
      && (reply.hasMore <==> |After(rows, Position(cursor))| > n && Seen(cursor) + n < previewLimit)
      && (reply.next.Some? <==> reply.hasMore)
      && (reply.hasMore ==>
            |l| > n && codec.decode(reply.next.value) == Some(SearchCursor(CursorOf(l[n - 1]), Seen(cursor) + n)))
      && (cursor.Some? ==> reply.exactCount.None?)
  {
    SortedFacts(After(rows, Position(cursor)));
  }

  /** A used-up preview gives an empty last page; a token that does not decode starts again from the top. */
  lemma SearchEdges(codec: Codec<SearchCursor>, rows: set<Item>, raw: string, pageSize: Option<int>, previewLimit: nat)
    ensures raw != "" && codec.decode(raw).Some? && previewLimit <= codec.decode(raw).value.seen ==>
              SearchIocs(codec, rows, raw, pageSize, previewLimit) == SearchPage([], false, None, None)
    ensures previewLimit == 0 ==> SearchIocs(codec, rows, raw, pageSize, previewLimit) == SearchPage([], false, None, None)
    ensures raw != "" && codec.decode(raw).None? ==>
              SearchIocs(codec, rows, raw, pageSize, previewLimit) == SearchIocs(codec, rows, "", pageSize, previewLimit)
  {
  }

  // ----- the endpoints -------------------------------------------------------------------------

  /** Following next_cursor always ends: a client sends at most one request per row and one more. */
  lemma ApiPagingTerminates(codec: Codec<Cursor>, rows: set<Item>, limits: nat -> Option<int>, replies: seq<ApiReply>)
    requires ApiSession(codec, rows, limits, replies)
    ensures |replies| <= |rows| + 1
  {
    if replies != [] {
      var _ := ApiPosition(codec, rows, limits, replies, |replies| - 1);
    }
  }

  /**
   A client that follows next_cursor to the end receives rows in strictly descending order, none
   twice; it receives every matching row exactly once if and only if every page boundary holds.
   */
  lemma ApiPagingIsExactIff(codec: Codec<Cursor>, rows: set<Item>, limits: nat -> Option<int>, replies: seq<ApiReply>)
    requires ApiSession(codec, rows, limits, replies) && ApiFinished(replies)
    ensures Descending(ApiServed(replies, 0))
    ensures ApiServed(replies, 0) == Sorted(rows) <==> BoundariesHold(Sorted(rows), limits, API_PAGE_DEFAULT, 0, None)
  {
    SortedFacts(rows);
    ApiServesWalk(codec, rows, limits, replies, 0, None);
    WalkIsSound(Sorted(rows), limits, API_PAGE_DEFAULT, 0, None);
    WalkIsCompleteIff(Sorted(rows), limits, API_PAGE_DEFAULT, 0, None);
  }

  /** With millisecond-precision timestamps the client receives the sorted table. */
  lemma ApiPagingReturnsEveryRowOnce(codec: Codec<Cursor>, rows: set<Item>, limits: nat -> Option<int>, replies: seq<ApiReply>)
    requires ApiSession(codec, rows, limits, replies) && ApiFinished(replies)
    requires forall x :: x in rows ==> x.micros % 1000 == 0
    ensures ApiServed(replies, 0) == Sorted(rows)
  {
    SortedFacts(rows);
    assert forall i :: 0 <= i < |Sorted(rows)| ==> Sorted(rows)[i] in Sorted(rows);
    MillisecondTimesHaveNoGaps(Sorted(rows), limits, API_PAGE_DEFAULT, 0, None);
    ApiPagingIsExactIff(codec, rows, limits, replies);
  }

  /** Two rows within one millisecond and a page of one: the second row is never returned. */
  lemma MicrosecondsLoseRows(codec: Codec<Cursor>, limits: nat -> Option<int>, replies: seq<ApiReply>)
    requires limits(0) == Some(1)
    requires ApiSession(codec, {Item(1_500, 2), Item(1_200, 1)}, limits, replies) && ApiFinished(replies)
    ensures ApiServed(replies, 0) != Sorted({Item(1_500, 2), Item(1_200, 1)})
  {
    var a, b := Item(1_500, 2), Item(1_200, 1);
    var l := Sorted({a, b});
    SortedFacts({a, b});
    EnumerationIsUnique(l, [a, b], {a, b});
    assert !Before(b, CursorOf(a));
    ApiPagingIsExactIff(codec, {a, b}, limits, replies);
  }

  lemma SearchPagingTerminates(codec: Codec<SearchCursor>, rows: set<Item>, sizes: nat -> Option<int>, previewLimit: nat,
                               replies: seq<SearchReply>)
    requires SearchSession(codec, rows, sizes, previewLimit, replies)
    ensures |replies| <= |rows| + 1
  {
    if replies != [] {
      var _ := SearchPositionAt(codec, rows, sizes, previewLimit, replies, |replies| - 1);
    }
  }

  /**
   A full chain of the interactive search never serves more than the preview limit and never a row
   twice; it serves exactly the first min(limit, n) rows if and only if the page boundaries up to the
   limit hold.
   */
  lemma SearchPagingIsExactIff(codec: Codec<SearchCursor>, rows: set<Item>, sizes: nat -> Option<int>, previewLimit: nat,
                               replies: seq<SearchReply>)
    requires SearchSession(codec, rows, sizes, previewLimit, replies) && SearchFinished(replies)
    ensures Descending(SearchServed(replies, 0)) && |SearchServed(replies, 0)| <= previewLimit
    ensures SearchServed(replies, 0) == Take(Sorted(rows), previewLimit)
            <==> BoundariesHold(Sorted(rows), sizes, SEARCH_PAGE_DEFAULT, 0, Some(previewLimit))
  {
    SortedFacts(rows);
    SearchServesWalk(codec, rows, sizes, previewLimit, replies, 0, None);
    WalkIsSound(Sorted(rows), sizes, SEARCH_PAGE_DEFAULT, 0, Some(previewLimit));
    WalkIsCompleteIff(Sorted(rows), sizes, SEARCH_PAGE_DEFAULT, 0, Some(previewLimit));
  }

  /** With millisecond-precision timestamps the client receives exactly the preview. */
  lemma SearchServesThePreview(codec: Codec<SearchCursor>, rows: set<Item>, sizes: nat -> Option<int>, previewLimit: nat,
                               replies: seq<SearchReply>)
    requires SearchSession(codec, rows, sizes, previewLimit, replies) && SearchFinished(replies)
    requires forall x :: x in rows ==> x.micros % 1000 == 0
    ensures SearchServed(replies, 0) == Take(Sorted(rows), previewLimit)
  {
    SortedFacts(rows);
    assert forall i :: 0 <= i < |Sorted(rows)| ==> Sorted(rows)[i] in Sorted(rows);
    MillisecondTimesHaveNoGaps(Sorted(rows), sizes, SEARCH_PAGE_DEFAULT, 0, Some(previewLimit));
    SearchPagingIsExactIff(codec, rows, sizes, previewLimit, replies);
  }

  /** The first page reports the exact count exactly when it is within the preview limit. */
  lemma ExactCountIff(codec: Codec<SearchCursor>, rows: set<Item>, pageSize: Option<int>, previewLimit: nat)
    requires previewLimit > 0
    ensures SearchIocs(codec, rows, "", pageSize, previewLimit).exactCount
         == if |rows| <= previewLimit then Some(|rows|) else None
  {
    SortedFacts(rows);
  }
}
