/** The query-result shaping the controllers ask of the store: filtering by a condition on
    the record id, sort(), limit(), and skip()/limit() pagination with Math.ceil page counts. */
module Listing {

  /** The ids below `n` that satisfy `p`, in increasing order (the store's natural order). */
  function IdsWhere(n: nat, p: nat -> bool): (r: seq<nat>)
    ensures forall i: nat :: i in r <==> i < n && p(i)
    ensures forall j, k :: 0 <= j < k < |r| ==> r[j] < r[k]
    ensures |r| <= n
    decreases n
  {
    if n == 0 then []
    else
      var init := IdsWhere(n - 1, p);
      assert forall j :: 0 <= j < |init| ==> init[j] in init;
      init + (if p(n - 1) then [n - 1] else [])
  }

  /** countDocuments: how many elements satisfy `p`. */
  function Count<T>(s: seq<T>, p: T -> bool): (r: nat)
    ensures r <= |s|
    ensures r == 0 <==> forall i :: 0 <= i < |s| ==> !p(s[i])
    decreases |s|
  {
    if s == [] then 0
    else
      var init := s[..|s| - 1];
      assert forall i :: 0 <= i < |init| ==> init[i] == s[i];
      Count(init, p) + (if p(s[|s| - 1]) then 1 else 0)
  }

  lemma CountAppend<T>(s: seq<T>, x: T, p: T -> bool)
    ensures Count(s + [x], p) == Count(s, p) + (if p(x) then 1 else 0)
  {
    assert (s + [x])[..|s|] == s;
  }

  /** The id filter that holds of `i` when record `i` of `s` satisfies `p`. */
  function RecordFilter<T>(s: seq<T>, p: T -> bool): nat -> bool {
    (i: nat) => i < |s| && p(s[i])
  }

  /** How many of the first `n` records satisfy `p`, counted by position. */
  function CountBelow<T>(s: seq<T>, p: T -> bool, n: nat): nat
    requires n <= |s|
  {
    if n == 0 then 0 else CountBelow(s, p, n - 1) + (if p(s[n - 1]) then 1 else 0)
  }

  /** Listing the ids below `n` whose record satisfies `p` finds as many as counting the
      first `n` records: countDocuments and find agree on the same filter. */
  lemma IdsWhereCount<T>(s: seq<T>, p: T -> bool, n: nat)
    requires n <= |s|
    ensures |IdsWhere(n, RecordFilter(s, p))| == Count(s[..n], p)
  {
    IdsWhereCountBelow(s, p, n);
    CountBelowIsCount(s, p, n);
  }

  /** The listed ids below `n` are as many as the positions counted below `n`. */
  lemma {:induction false} IdsWhereCountBelow<T>(s: seq<T>, p: T -> bool, n: nat)
    requires n <= |s|
    ensures |IdsWhere(n, RecordFilter(s, p))| == CountBelow(s, p, n)
    decreases n
  {
    if n > 0 {
      IdsWhereCountBelow(s, p, n - 1);
      IdsWhereStep(n, RecordFilter(s, p));
      RecordFilterAt(s, p, n - 1);
    }
  }

  /** Counting by position agrees with counting the first `n` records. */
  lemma {:induction false} CountBelowIsCount<T>(s: seq<T>, p: T -> bool, n: nat)
    requires n <= |s|
    ensures CountBelow(s, p, n) == Count(s[..n], p)
    decreases n
  {
    if n > 0 {
      CountBelowIsCount(s, p, n - 1);
      CountPrefixStep(s, p, n);
    }
  }

  lemma RecordFilterAt<T>(s: seq<T>, p: T -> bool, i: nat)
    requires i < |s|
    ensures RecordFilter(s, p)(i) == p(s[i])
  {
  }

  lemma CountPrefixStep<T>(s: seq<T>, p: T -> bool, n: nat)
    requires 0 < n <= |s|
    ensures Count(s[..n], p) == Count(s[..n - 1], p) + (if p(s[n - 1]) then 1 else 0)
  {
    assert s[..n][..n - 1] == s[..n - 1];
  }

  lemma IdsWhereStep(n: nat, ids: nat -> bool)
    requires 0 < n
    ensures |IdsWhere(n, ids)| == |IdsWhere(n - 1, ids)| + (if ids(n - 1) then 1 else 0)
  {
  }

  /** Replacing one element changes the count by the change in that element alone. */
  lemma {:induction false} CountSet<T>(s: seq<T>, i: nat, x: T, p: T -> bool)
    requires i < |s|
    ensures Count(s[i := x], p) == Count(s, p) - (if p(s[i]) then 1 else 0) + (if p(x) then 1 else 0)
    decreases |s|
  {
    var s' := s[i := x];
    if i < |s| - 1 {
      assert s'[..|s'| - 1] == s[..|s| - 1][i := x];
      CountSet(s[..|s| - 1], i, x, p);
    } else {
      assert s'[..|s'| - 1] == s[..|s| - 1];
    }
  }

  ghost predicate SortedBy<T>(s: seq<T>, key: T -> int) {
    forall i, j :: 0 <= i < j < |s| ==> key(s[i]) <= key(s[j])
  }

  function Insert<T>(x: T, s: seq<T>, key: T -> int): (r: seq<T>)
    requires SortedBy(s, key)
    ensures SortedBy(r, key)
    ensures multiset(r) == multiset(s) + multiset{x}
    decreases |s|
  {
    if s == [] then [x]
    else if key(x) <= key(s[0]) then [x] + s
    else
      var rest := Insert(x, s[1..], key);
      assert s == [s[0]] + s[1..];
      InsertBound(s[0], x, s[1..], rest, key);
      ConsSorted(s[0], rest, key);
      [s[0]] + rest
  }

  /** Every element of `t` with `x` added keys at least as high as `h` when `x` and every
      element of `t` do. */
  lemma InsertBound<T>(h: T, x: T, t: seq<T>, rest: seq<T>, key: T -> int)
    requires multiset(rest) == multiset(t) + multiset{x}
    requires key(h) <= key(x)
    requires forall k :: 0 <= k < |t| ==> key(h) <= key(t[k])
    ensures forall k :: 0 <= k < |rest| ==> key(h) <= key(rest[k])
  {
    forall k | 0 <= k < |rest| ensures key(h) <= key(rest[k]) {
      assert rest[k] in multiset(rest);
      if rest[k] != x {
        assert rest[k] in multiset(t);
      }
    }
  }

  /** A head keyed no higher than any element of a sorted tail gives a sorted sequence. */
  lemma ConsSorted<T>(h: T, rest: seq<T>, key: T -> int)
    requires SortedBy(rest, key)
    requires forall k :: 0 <= k < |rest| ==> key(h) <= key(rest[k])
    ensures SortedBy([h] + rest, key)
  {
    var r := [h] + rest;
    forall i, j | 0 <= i < j < |r| ensures key(r[i]) <= key(r[j]) {
      assert r[j] == rest[j - 1];
      if i > 0 {
        assert r[i] == rest[i - 1];
      }
    }
  }

  /** sort() on the given key, ascending: a permutation of the input, ordered by the key. */
  function SortBy<T>(s: seq<T>, key: T -> int): (r: seq<T>)
    ensures SortedBy(r, key)
    ensures multiset(r) == multiset(s)
    decreases |s|
  {
    if s == [] then []
    else
      assert s == [s[0]] + s[1..];
      Insert(s[0], SortBy(s[1..], key), key)
  }

  /** limit(n): at most n records, and limit(0) means no limit. */
  function Take<T>(s: seq<T>, n: nat): (r: seq<T>)
    ensures n == 0 ==> r == s
    ensures n > 0 ==> |r| == if |s| < n then |s| else n
    ensures r == s[..|r|]
  {
    if n == 0 || |s| <= n then s else s[..n]
  }

  /** find(filter).sort({ createdAt: -1 }) over a collection of n records: the ids of the
      records passing `p`, newest first. */
  function NewestFirst(n: nat, p: nat -> bool, createdAt: nat -> int): (r: seq<nat>)
    ensures forall i: nat :: i in r <==> i < n && p(i)
    ensures |r| == |IdsWhere(n, p)|
    ensures forall j, k :: 0 <= j < k < |r| ==> createdAt(r[j]) >= createdAt(r[k])
  {
    var ids := IdsWhere(n, p);
    var r := SortBy(ids, (i: nat) => -createdAt(i));
    assert |r| == |multiset(r)| == |multiset(ids)| == |ids|;
    forall i: nat ensures i in r <==> i in ids {
      assert i in r <==> i in multiset(r);
    }
    r
  }

  /** The first m records of a newest-first listing are its m newest: anything left out is
      no newer than anything kept. */
  lemma TakeNewest<T>(s: seq<T>, createdAt: T -> int, m: nat, x: T)
    requires forall j, k :: 0 <= j < k < |s| ==> createdAt(s[j]) >= createdAt(s[k])
    requires x in s && x !in Take(s, m)
    ensures forall y :: y in Take(s, m) ==> createdAt(x) <= createdAt(y)
  {
    var j :| 0 <= j < |s| && s[j] == x;
    assert j >= |Take(s, m)|;
    forall y | y in Take(s, m)
      ensures createdAt(x) <= createdAt(y)
    {
      var k :| 0 <= k < |Take(s, m)| && Take(s, m)[k] == y;
      assert s[k] == y;
    }
  }

  /** sort({ createdAt: -1 }).limit(limit) over records: the newest `limit` of them, newest
      first (limit 0 keeps all). */
  function NewestLimited<T>(s: seq<T>, createdAt: T -> int, limit: nat): (r: seq<T>)
    ensures multiset(r) <= multiset(s)
    ensures |r| == if limit == 0 || |s| < limit then |s| else limit
    ensures forall j, k :: 0 <= j < k < |r| ==> createdAt(r[j]) >= createdAt(r[k])
    ensures forall x, y :: x in s && x !in r && y in r ==> createdAt(x) <= createdAt(y)
  {
    var newest := SortBy(s, (x: T) => -createdAt(x));
    SortedNewestFirst(newest, createdAt);
    TakeOfPermutation(newest, s, limit);
    TakeNewestAll(newest, s, createdAt, limit);
    Take(newest, limit)
  }

  lemma SortedNewestFirst<T>(s: seq<T>, createdAt: T -> int)
    requires SortedBy(s, (x: T) => -createdAt(x))
    ensures forall j, k :: 0 <= j < k < |s| ==> createdAt(s[j]) >= createdAt(s[k])
  {
    forall j, k | 0 <= j < k < |s| ensures createdAt(s[j]) >= createdAt(s[k]) {
      assert -createdAt(s[j]) <= -createdAt(s[k]);
    }
  }

  lemma TakeOfPermutation<T>(s: seq<T>, t: seq<T>, n: nat)
    requires multiset(s) == multiset(t)
    ensures multiset(Take(s, n)) <= multiset(t)
    ensures |Take(s, n)| == if n == 0 || |t| < n then |t| else n
  {
    assert |s| == |multiset(s)| == |multiset(t)| == |t|;
    var r := Take(s, n);
    assert s == r + s[|r|..];
    assert multiset(s) == multiset(r) + multiset(s[|r|..]);
  }

  lemma TakeNewestAll<T>(s: seq<T>, t: seq<T>, createdAt: T -> int, n: nat)
    requires multiset(s) == multiset(t)
    requires forall j, k :: 0 <= j < k < |s| ==> createdAt(s[j]) >= createdAt(s[k])
    ensures forall x, y :: x in t && x !in Take(s, n) && y in Take(s, n) ==> createdAt(x) <= createdAt(y)
  {
    forall x, y | x in t && x !in Take(s, n) && y in Take(s, n)
      ensures createdAt(x) <= createdAt(y)
    {
      assert x in multiset(t);
      TakeNewest(s, createdAt, n, x);
    }
  }

  /** Math.ceil(count / limit). */
  function TotalPages(count: nat, limit: nat): (r: nat)
    requires limit >= 1
    ensures r * limit >= count
    ensures r == 0 || (r - 1) * limit < count
  {
    var r := (count + limit - 1) / limit;
    var m := (count + limit - 1) % limit;
    assert count + limit - 1 == r * limit + m && 0 <= m < limit;
    assert (r - 1) * limit == r * limit - limit;
    r
  }

  /** The number of records skipped before page `page`. */
  function Skip(page: nat, limit: nat): nat
    requires page >= 1
  {
    (page - 1) * limit
  }

  /** skip((page - 1) * limit).limit(limit). */
  function Page<T>(s: seq<T>, page: nat, limit: nat): (r: seq<T>)
    requires page >= 1 && limit >= 1
    ensures |r| <= limit
    ensures |r| > 0 <==> Skip(page, limit) < |s|
    ensures forall k :: 0 <= k < |r| ==> Skip(page, limit) + k < |s| && r[k] == s[Skip(page, limit) + k]
    ensures Skip(page, limit) + limit <= |s| ==> |r| == limit
  {
    var skip := Skip(page, limit);
    if skip >= |s| then []
    else if skip + limit <= |s| then s[skip..skip + limit]
    else s[skip..]
  }

  lemma MulMonotone(a: int, b: int, c: nat)
    requires a <= b
    ensures a * c <= b * c
  {
  }

  /** A page has records exactly when its number is at most the reported page count. */
  lemma PageNonEmptyIff<T>(s: seq<T>, page: nat, limit: nat)
    requires page >= 1 && limit >= 1
    ensures |Page(s, page, limit)| > 0 <==> page <= TotalPages(|s|, limit)
  {
    var n := TotalPages(|s|, limit);
    if page <= n {
      MulMonotone(page - 1, n - 1, limit);
    } else {
      MulMonotone(n, page - 1, limit);
    }
  }

  /** Every record shows up: record i is on page i / limit + 1, at position i % limit, and
      that page is within the reported page count. */
  lemma PageCovers<T>(s: seq<T>, limit: nat, i: nat)
    requires limit >= 1 && i < |s|
    ensures 1 <= i / limit + 1 <= TotalPages(|s|, limit)
    ensures i % limit < |Page(s, i / limit + 1, limit)|
    ensures Page(s, i / limit + 1, limit)[i % limit] == s[i]
  {
    var p := i / limit + 1;
    assert i == Skip(p, limit) + i % limit;
    PageNonEmptyIff(s, p, limit);
  }

  /** The response of the admin listings: one page, the page count and the total. */
  datatype PageOf<T> = PageOf(items: seq<T>, totalPages: nat, currentPage: nat, total: nat)

  /** One page of `s` with the page count and total the listings report: the page is
      non-empty exactly up to the reported page count, holds the records that follow the
      skipped ones in order, and is full while enough records remain. */
  function Paginate<T>(s: seq<T>, page: nat, limit: nat): (r: PageOf<T>)
    requires page >= 1 && limit >= 1
    ensures r.total == |s| && r.currentPage == page
    ensures r.items == Page(s, page, limit) && r.totalPages == TotalPages(|s|, limit)
    ensures |r.items| > 0 <==> page <= r.totalPages
    ensures |r.items| <= limit
    ensures forall k :: 0 <= k < |r.items| ==> (page - 1) * limit + k < |s| && r.items[k] == s[(page - 1) * limit + k]
    ensures (page - 1) * limit + limit <= |s| ==> |r.items| == limit
  {
    PageNonEmptyIff(s, page, limit);
    PageOf(Page(s, page, limit), TotalPages(|s|, limit), page, |s|)
  }
}
