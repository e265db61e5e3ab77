/** The admin-login listing of shared.py:105-117: every stored login is
    tagged with its parsed timestamp under the temporary key `_ts`
    (`datetime.min` when `timestamp_iso` is missing or does not parse), the
    list is sorted newest first by that key with Python's stable `sorted`,
    the tag is removed again, and the first `limit` entries are returned. */
module AdminLogins {
  import opened Records

  // ---------------------------------------------------------------------
  // Sequences: mapping and a stable descending sort
  // ---------------------------------------------------------------------

  /** `[f(x) for x in s]`. */
  function Map<A, B>(f: A -> B, s: seq<A>): (r: seq<B>)
    ensures |r| == |s|
    ensures forall i :: 0 <= i < |s| ==> r[i] == f(s[i])
  {
    seq(|s|, i requires 0 <= i < |s| => f(s[i]))
  }

  /** Newest first: keys never increase along the sequence. */
  predicate SortedDesc<T>(s: seq<T>, key: T -> int)
  {
    forall i, j :: 0 <= i < j < |s| ==> key(s[i]) >= key(s[j])
  }

  /** The elements of `s` whose key is `k`, in order. */
  function WithKey<T>(s: seq<T>, key: T -> int, k: int): seq<T>
  {
    if s == [] then []
    else (if key(s[0]) == k then [s[0]] else []) + WithKey(s[1..], key, k)
  }

  /** `x` placed after every element whose key is at least its own. */
  function Insert<T>(t: seq<T>, x: T, key: T -> int): (r: seq<T>)
    ensures |r| == |t| + 1
  {
    if t == [] then [x]
    else if key(t[0]) < key(x) then [x] + t
    else [t[0]] + Insert(t[1..], x, key)
  }

  /** `sorted(s, key=key, reverse=True)`: an insertion sort that takes the
      elements in input order, which keeps equal keys in input order. */
  function SortDesc<T>(s: seq<T>, key: T -> int): (r: seq<T>)
    ensures |r| == |s|
  {
    if s == [] then [] else Insert(SortDesc(s[..|s| - 1], key), s[|s| - 1], key)
  }

  lemma {:induction false} InsertMultiset<T>(t: seq<T>, x: T, key: T -> int)
    ensures multiset(Insert(t, x, key)) == multiset(t) + multiset{x}
  {
    if t != [] && key(t[0]) >= key(x) {
      InsertMultiset(t[1..], x, key);
      assert t == [t[0]] + t[1..];
    }
  }

  /** Inserting under a bound keeps every key under it. */
  lemma {:induction false} InsertBelow<T>(t: seq<T>, x: T, key: T -> int, b: int)
    requires forall i :: 0 <= i < |t| ==> key(t[i]) <= b
    requires key(x) <= b
    ensures forall i :: 0 <= i < |Insert(t, x, key)| ==> key(Insert(t, x, key)[i]) <= b
  {
    if t != [] && key(t[0]) >= key(x) {
      InsertBelow(t[1..], x, key, b);
      assert Insert(t, x, key)[1..] == Insert(t[1..], x, key);
    }
  }

  /** An element at least as new as every element of a newest-first
      sequence can go in front of it. */
  lemma PrependSorted<T>(x: T, t: seq<T>, key: T -> int)
    requires SortedDesc(t, key)
    requires forall i :: 0 <= i < |t| ==> key(t[i]) <= key(x)
    ensures SortedDesc([x] + t, key)
  {
    var r := [x] + t;
    forall i, j | 0 <= i < j < |r| ensures key(r[i]) >= key(r[j]) {
      assert r[j] == t[j - 1];
      if i > 0 {
        assert r[i] == t[i - 1];
      }
    }
  }

  lemma {:induction false} InsertSorted<T>(t: seq<T>, x: T, key: T -> int)
    requires SortedDesc(t, key)
    ensures SortedDesc(Insert(t, x, key), key)
  {
    if t == [] {
    } else if key(t[0]) < key(x) {
      PrependSorted(x, t, key);
    } else {
      assert SortedDesc(t[1..], key) by {
        forall i, j | 0 <= i < j < |t[1..]| ensures key(t[1..][i]) >= key(t[1..][j]) {
          assert t[1..][i] == t[i + 1] && t[1..][j] == t[j + 1];
        }
      }
      InsertSorted(t[1..], x, key);
      InsertBelow(t[1..], x, key, key(t[0]));
      PrependSorted(t[0], Insert(t[1..], x, key), key);
    }
  }

  /** The sort returns the same elements. */
  lemma {:induction false} SortDescPermutes<T>(s: seq<T>, key: T -> int)
    ensures multiset(SortDesc(s, key)) == multiset(s)
  {
    if s != [] {
      SortDescPermutes(s[..|s| - 1], key);
      InsertMultiset(SortDesc(s[..|s| - 1], key), s[|s| - 1], key);
      assert s == s[..|s| - 1] + [s[|s| - 1]];
    }
  }

  /** The sort returns the same elements, newest first. */
  lemma {:induction false} SortDescFacts<T>(s: seq<T>, key: T -> int)
    ensures SortedDesc(SortDesc(s, key), key)
    ensures multiset(SortDesc(s, key)) == multiset(s)
  {
    SortDescPermutes(s, key);
    if s != [] {
      SortDescFacts(s[..|s| - 1], key);
      InsertSorted(SortDesc(s[..|s| - 1], key), s[|s| - 1], key);
    }
  }

  lemma {:induction false} WithKeyConcat<T>(a: seq<T>, b: seq<T>, key: T -> int, k: int)
    ensures WithKey(a + b, key, k) == WithKey(a, key, k) + WithKey(b, key, k)
  {
    if a == [] {
      assert a + b == b;
    } else {
      var ab := a + b;
      assert ab[0] == a[0];
      assert ab[1..] == a[1..] + b;
      var head := if key(a[0]) == k then [a[0]] else [];
      assert WithKey(ab, key, k) == head + WithKey(a[1..] + b, key, k);
      WithKeyConcat(a[1..], b, key, k);
      assert WithKey(a, key, k) == head + WithKey(a[1..], key, k);
      assert head + (WithKey(a[1..], key, k) + WithKey(b, key, k))
          == (head + WithKey(a[1..], key, k)) + WithKey(b, key, k);
    }
  }

  /** No element of a sequence whose keys are all below `k` has key `k`. */
  lemma {:induction false} WithKeyBelow<T>(t: seq<T>, key: T -> int, k: int)
    requires forall y :: y in t ==> key(y) < k
    ensures WithKey(t, key, k) == []
  {
    if t != [] {
      assert t[0] in t;
      assert forall y :: y in t[1..] ==> y in t;
      WithKeyBelow(t[1..], key, k);
    }
  }

  lemma {:induction false} InsertStable<T>(t: seq<T>, x: T, key: T -> int, k: int)
    requires SortedDesc(t, key)
    ensures WithKey(Insert(t, x, key), key, k)
         == WithKey(t, key, k) + (if key(x) == k then [x] else [])
  {
    if t == [] {
    } else if key(t[0]) < key(x) {
      assert Insert(t, x, key)[1..] == t;
      if key(x) == k {
        forall y | y in t ensures key(y) < k {
          var j :| 0 <= j < |t| && t[j] == y;
          assert j == 0 || key(t[0]) >= key(t[j]);
        }
        WithKeyBelow(t, key, k);
      }
    } else {
      assert Insert(t, x, key)[1..] == Insert(t[1..], x, key);
      InsertStable(t[1..], x, key, k);
    }
  }

  lemma StableStep<T>(init: seq<T>, last: T, key: T -> int, k: int)
    requires WithKey(SortDesc(init, key), key, k) == WithKey(init, key, k)
    ensures WithKey(Insert(SortDesc(init, key), last, key), key, k) == WithKey(init + [last], key, k)
  {
    SortDescFacts(init, key);
    InsertStable(SortDesc(init, key), last, key, k);
    WithKeyConcat(init, [last], key, k);
    assert WithKey([last], key, k) == if key(last) == k then [last] else [];
  }

  /** Stability: among elements with equal keys, the sort keeps input
      order. */
  lemma {:induction false} SortDescStable<T>(s: seq<T>, key: T -> int, k: int)
    ensures WithKey(SortDesc(s, key), key, k) == WithKey(s, key, k)
  {
    if s != [] {
      var init, last := s[..|s| - 1], s[|s| - 1];
      SortDescStable(init, key, k);
      StableStep(init, last, key, k);
      assert s == init + [last];
    }
  }

  lemma MapCons<A, B>(g: A -> B, a: A, s: seq<A>)
    ensures Map(g, [a] + s) == [g(a)] + Map(g, s)
  {
  }

  lemma MapTail<A, B>(g: A -> B, t: seq<A>)
    requires t != []
    ensures Map(g, t) == [g(t[0])] + Map(g, t[1..])
  {
  }

  /** Sorting commutes with a map that carries each element's key over. */
  lemma {:induction false} InsertMap<A, B>(g: A -> B, t: seq<A>, x: A, ka: A -> int, kb: B -> int)
    requires forall y :: y in t ==> kb(g(y)) == ka(y)
    requires kb(g(x)) == ka(x)
    ensures Map(g, Insert(t, x, ka)) == Insert(Map(g, t), g(x), kb)
  {
    if t != [] {
      assert t[0] in t;
      MapTail(g, t);
      if ka(t[0]) < ka(x) {
        MapCons(g, x, t);
      } else {
        assert forall y :: y in t[1..] ==> y in t;
        InsertMap(g, t[1..], x, ka, kb);
        MapCons(g, t[0], Insert(t[1..], x, ka));
      }
    }
  }

  lemma SortedKeysCarried<A, B>(g: A -> B, s: seq<A>, ka: A -> int, kb: B -> int)
    requires forall y :: y in s ==> kb(g(y)) == ka(y)
    ensures forall y :: y in SortDesc(s, ka) ==> kb(g(y)) == ka(y)
  {
    SortDescPermutes(s, ka);
    forall y | y in SortDesc(s, ka) ensures kb(g(y)) == ka(y) {
      assert y in multiset(SortDesc(s, ka));
    }
  }

  lemma MapInit<A, B>(g: A -> B, s: seq<A>)
    requires s != []
    ensures Map(g, s)[..|s| - 1] == Map(g, s[..|s| - 1])
    ensures Map(g, s)[|s| - 1] == g(s[|s| - 1])
  {
  }

  /** One step of the sort, seen through `g`: sorting the last element into
      the mapped sort of the rest is the mapped sort of the whole. */
  lemma SortDescMapStep<A, B>(g: A -> B, s: seq<A>, ka: A -> int, kb: B -> int)
    requires s != []
    requires Map(g, SortDesc(s[..|s| - 1], ka)) == SortDesc(Map(g, s[..|s| - 1]), kb)
    requires Map(g, Insert(SortDesc(s[..|s| - 1], ka), s[|s| - 1], ka))
          == Insert(Map(g, SortDesc(s[..|s| - 1], ka)), g(s[|s| - 1]), kb)
    ensures Map(g, SortDesc(s, ka)) == SortDesc(Map(g, s), kb)
  {
    var init, last := s[..|s| - 1], s[|s| - 1];
    MapInit(g, s);
    assert SortDesc(Map(g, s), kb) == Insert(SortDesc(Map(g, init), kb), g(last), kb);
  }

  lemma {:induction false} SortDescMap<A, B>(g: A -> B, s: seq<A>, ka: A -> int, kb: B -> int)
    requires forall y :: y in s ==> kb(g(y)) == ka(y)
    ensures Map(g, SortDesc(s, ka)) == SortDesc(Map(g, s), kb)
  {
    if s != [] {
      var init, last := s[..|s| - 1], s[|s| - 1];
      assert forall y :: y in init ==> y in s;
      SortDescMap(g, init, ka, kb);
      SortedKeysCarried(g, init, ka, kb);
      assert last in s;
      InsertMap(g, SortDesc(init, ka), last, ka, kb);
      SortDescMapStep(g, s, ka, kb);
    }
  }

  /** `s[:limit]` with Python's slice semantics: a negative limit counts
      from the end. */
  function Take<T>(s: seq<T>, limit: int): (r: seq<T>)
    ensures limit >= 0 ==> |r| == if limit < |s| then limit else |s|
    ensures limit < 0 ==> |r| == if |s| + limit > 0 then |s| + limit else 0
    ensures r <= s
  {
    if limit >= 0 then (if limit < |s| then s[..limit] else s)
    else if |s| + limit > 0 then s[..|s| + limit]
    else []
  }

  // ---------------------------------------------------------------------
  // Admin logins
  // ---------------------------------------------------------------------

  /** The default `limit`, which the admin page also passes. */
  const DefaultLimit: int := 300

  /** `datetime.fromisoformat(l.get("timestamp_iso"))`, or `datetime.min`
      (instant 0) when that fails. */
  function LoginTime(l: Record): int
  {
    if "timestamp_iso" in l && l["timestamp_iso"].Stamp? then l["timestamp_iso"].t else 0
  }

  /** `l["_ts"] = ...`. */
  function Tag(l: Record): Record
  {
    l["_ts" := Stamp(LoginTime(l))]
  }

  /** The sort key `x.get("_ts")`. */
  function TagKey(l: Record): int
  {
    if "_ts" in l && l["_ts"].Stamp? then l["_ts"].t else 0
  }

  /** `l.pop("_ts", None)`. */
  function Untag(l: Record): Record
  {
    l - {"_ts"}
  }

  /** What the listing returns: the stored logins without any `_ts` key,
      newest first by their own timestamps (stable among equal ones), cut
      to `limit`; for a limit of at least zero that is `min(limit, n)`
      entries. */
  function AdminLoginView(logins: seq<Record>, limit: int): (view: seq<Record>)
    ensures limit >= 0 ==> |view| == if limit < |logins| then limit else |logins|
  {
    Take(SortDesc(Map(Untag, logins), LoginTime), limit)
  }

  /** Removing the tag leaves the timestamp, so the tag's key is the
      login's own time. */
  lemma TagUntag(l: Record)
    ensures Untag(Tag(l)) == Untag(l)
    ensures TagKey(Tag(l)) == LoginTime(Untag(Tag(l)))
  {
    assert Untag(Tag(l)) == Untag(l);
    if "timestamp_iso" in l {
      assert Untag(Tag(l))["timestamp_iso"] == l["timestamp_iso"];
    }
  }

  /** Sorting the tagged logins by the tag and then removing it is sorting
      the untagged logins by their own timestamps. */
  lemma TagSortUntag(logins: seq<Record>)
    ensures Map(Untag, SortDesc(Map(Tag, logins), TagKey)) == SortDesc(Map(Untag, logins), LoginTime)
  {
    var tagged := Map(Tag, logins);
    forall l | l in tagged ensures LoginTime(Untag(l)) == TagKey(l) {
      var j :| 0 <= j < |logins| && tagged[j] == l;
      TagUntag(logins[j]);
    }
    SortDescMap(Untag, tagged, TagKey, LoginTime);
    forall j | 0 <= j < |logins| ensures Map(Untag, tagged)[j] == Map(Untag, logins)[j] {
      TagUntag(logins[j]);
    }
    assert Map(Untag, tagged) == Map(Untag, logins);
  }

  /** `load_admin_logins_from_db(limit)` on the stored list `logins`: tag
      every login, sort by the tag newest first, pop the tag from every
      entry, slice. */
  method LoadAdminLogins(logins: seq<Record>, limit: int) returns (result: seq<Record>)
    ensures result == AdminLoginView(logins, limit)
  {
    var tagged: seq<Record> := [];
    var i := 0;
    while i < |logins|
      invariant 0 <= i <= |logins|
      invariant |tagged| == i
      invariant forall j :: 0 <= j < i ==> tagged[j] == Tag(logins[j])
    {
      tagged := tagged + [Tag(logins[i])];
      i := i + 1;
    }
    assert tagged == Map(Tag, logins);

    var sorted := SortDesc(tagged, TagKey);

    var untagged: seq<Record> := [];
    i := 0;
    while i < |sorted|
      invariant 0 <= i <= |sorted|
      invariant |untagged| == i
      invariant forall j :: 0 <= j < i ==> untagged[j] == Untag(sorted[j])
    {
      untagged := untagged + [Untag(sorted[i])];
      i := i + 1;
    }
    assert untagged == Map(Untag, sorted);

    TagSortUntag(logins);
    result := Take(untagged, limit);
  }

  /** Every entry is a stored login with `_ts` removed, so none carries
      `_ts`. */
  lemma AdminLoginViewEntries(logins: seq<Record>, limit: int)
    ensures forall r :: r in AdminLoginView(logins, limit) ==>
      "_ts" !in r && exists l :: l in logins && r == Untag(l)
  {
    var stripped := Map(Untag, logins);
    var sorted := SortDesc(stripped, LoginTime);
    SortDescPermutes(stripped, LoginTime);
    forall r | r in AdminLoginView(logins, limit) ensures "_ts" !in r && exists l :: l in logins && r == Untag(l) {
      assert r in multiset(sorted);
      var j :| 0 <= j < |stripped| && stripped[j] == r;
      assert logins[j] in logins;
    }
  }

  /** The entries are newest first, and those whose timestamp is missing
      or does not parse come after all others. */
  lemma AdminLoginViewOrder(logins: seq<Record>, limit: int)
    ensures SortedDesc(AdminLoginView(logins, limit), LoginTime)
    ensures forall i, j ::
      (0 <= i < j < |AdminLoginView(logins, limit)| && LoginTime(AdminLoginView(logins, limit)[i]) == 0)
        ==> LoginTime(AdminLoginView(logins, limit)[j]) == 0
  {
    var sorted := SortDesc(Map(Untag, logins), LoginTime);
    SortDescFacts(Map(Untag, logins), LoginTime);
    var view := AdminLoginView(logins, limit);
    forall i, j | 0 <= i < j < |view| ensures LoginTime(view[i]) >= LoginTime(view[j]) >= 0 {
      assert view[i] == sorted[i] && view[j] == sorted[j];
    }
  }

  /** With no cut, logins with equal timestamps (all the unparseable ones
      among them) keep their stored order. */
  lemma AdminLoginViewStable(logins: seq<Record>, limit: int, k: int)
    requires limit >= |logins|
    ensures WithKey(AdminLoginView(logins, limit), LoginTime, k) == WithKey(Map(Untag, logins), LoginTime, k)
  {
    var sorted := SortDesc(Map(Untag, logins), LoginTime);
    assert AdminLoginView(logins, limit) == sorted;
    SortDescStable(Map(Untag, logins), LoginTime, k);
  }

  /** A prefix of a newest-first sequence keeps its newest elements: an
      element left out is no newer than any element kept. */
  lemma PrefixKeepsNewest<T>(s: seq<T>, p: seq<T>, key: T -> int, x: T, v: T)
    requires SortedDesc(s, key) && p <= s
    requires x in s && x !in p && v in p
    ensures key(v) >= key(x)
  {
    var j :| 0 <= j < |s| && s[j] == x;
    var i :| 0 <= i < |p| && p[i] == v;
    assert forall m :: 0 <= m < |p| ==> s[m] == p[m] != x;
    assert i < j;
  }

  /** The cut keeps the newest logins: every stored login left out of the
      listing is no newer than any entry shown. */
  lemma AdminLoginViewNewest(logins: seq<Record>, limit: int)
    ensures forall l, v :: l in logins && Untag(l) !in AdminLoginView(logins, limit)
                           && v in AdminLoginView(logins, limit)
                           ==> LoginTime(v) >= LoginTime(l)
  {
    var stripped := Map(Untag, logins);
    var sorted := SortDesc(stripped, LoginTime);
    var view := AdminLoginView(logins, limit);
    SortDescFacts(stripped, LoginTime);
    forall l, v | l in logins && Untag(l) !in view && v in view
      ensures LoginTime(v) >= LoginTime(l)
    {
      var k :| 0 <= k < |logins| && logins[k] == l;
      assert stripped[k] == Untag(l);
      assert Untag(l) in multiset(sorted);
      PrefixKeepsNewest(sorted, view, LoginTime, Untag(l), v);
      assert LoginTime(Untag(l)) == LoginTime(l);
    }
  }

  /** The admin page lists the `DefaultLimit` (300) newest logins, or all
      of them when there are fewer, newest first. */
  lemma DefaultListing(logins: seq<Record>)
    ensures var view := AdminLoginView(logins, DefaultLimit);
      && |view| == (if |logins| < DefaultLimit then |logins| else DefaultLimit)
      && SortedDesc(view, LoginTime)
      && forall l, v :: l in logins && Untag(l) !in view && v in view ==> LoginTime(v) >= LoginTime(l)
  {
    AdminLoginViewOrder(logins, DefaultLimit);
    AdminLoginViewNewest(logins, DefaultLimit);
  }
}
