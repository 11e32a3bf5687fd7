/**
 * What `SELECT ... WHERE deleted_at IS NULL ORDER BY created_at DESC
 * LIMIT l OFFSET o` yields over the categories table
 * (internal/repository/category_repository.go:30-41), and the page
 * arithmetic around it.
 */
module Listing {
  import opened Domain

  /**
   * `a` is listed before `b` under ORDER BY created_at DESC. The database
   * leaves the order of equal timestamps open; the model breaks ties by the
   * higher key, so the listing is one fixed sequence.
   */
  predicate Newer(a: Category, b: Category) {
    a.createdAt > b.createdAt || (a.createdAt == b.createdAt && a.id > b.id)
  }

  predicate NewestFirst(s: seq<Category>) {
    forall i, j | 0 <= i < j < |s| :: Newer(s[i], s[j])
  }

  predicate DistinctIds(s: seq<Category>) {
    forall i, j | 0 <= i < j < |s| :: s[i].id != s[j].id
  }

  /** The keys of the live rows below `n`. */
  function LiveIdsBelow(t: Table, n: nat): set<nat> {
    set id | id in t && id < n && t[id].Live()
  }

  /** The live rows whose key is below `n`, in increasing key order. */
  function LiveBelow(t: Table, n: nat): seq<Category>
    decreases n
  {
    if n == 0 then []
    else LiveBelow(t, n - 1) + (if n - 1 in t && t[n - 1].Live() then [t[n - 1]] else [])
  }

  /** Places `c` in a newest-first sequence. */
  function Insert(c: Category, s: seq<Category>): seq<Category> {
    if s == [] || Newer(c, s[0]) then [c] + s else [s[0]] + Insert(c, s[1..])
  }

  function SortNewestFirst(s: seq<Category>): seq<Category> {
    if s == [] then [] else Insert(s[0], SortNewestFirst(s[1..]))
  }

  /** Every live row with a key below `n`, newest first. */
  function Ordered(t: Table, n: nat): seq<Category> {
    SortNewestFirst(LiveBelow(t, n))
  }

  /** LIMIT `limit` OFFSET `offset` over `s`. */
  function Window(s: seq<Category>, offset: nat, limit: nat): (r: seq<Category>)
    ensures |r| == if offset >= |s| then 0 else if offset + limit <= |s| then limit else |s| - offset
    ensures forall i | 0 <= i < |r| :: offset + i < |s| && r[i] == s[offset + i]
  {
    if offset >= |s| then []
    else if offset + limit <= |s| then s[offset..offset + limit]
    else s[offset..]
  }

  /** The page size the store uses: a limit below 1 becomes 10. */
  function ClampLimit(limit: int): (l: int)
    ensures l >= 1
    ensures limit >= 1 ==> l == limit
    ensures limit < 1 ==> l == 10
  {
    if limit < 1 then 10 else limit
  }

  /** The page the store serves: a page below 1 becomes 1. */
  function ClampPage(page: int): (p: int)
    ensures p >= 1
    ensures page >= 1 ==> p == page
    ensures page < 1 ==> p == 1
  {
    if page < 1 then 1 else page
  }

  /** The number of rows skipped before page `page`, after clamping both arguments. */
  function Offset(page: int, limit: int): (o: int)
    ensures o >= 0
    ensures o == (ClampPage(page) - 1) * ClampLimit(limit)
  {
    var p, l := ClampPage(page), ClampLimit(limit);
    MulNonNegative(p - 1, l);
    (p - 1) * l
  }

  lemma MulNonNegative(a: int, b: int)
    requires a >= 0 && b >= 0
    ensures a * b >= 0
  {
  }

  /** The rows of page `page` when `limit` rows make a page, after clamping both. */
  function PageOf(t: Table, n: nat, page: int, limit: int): seq<Category> {
    Window(Ordered(t, n), Offset(page, limit), ClampLimit(limit))
  }

  // ---------------------------------------------------------------------------
  // The ordering is a strict total order on rows with distinct keys.

  lemma NewerTotal(a: Category, b: Category)
    requires a.id != b.id
    ensures Newer(a, b) || Newer(b, a)
    ensures !(Newer(a, b) && Newer(b, a))
  {
  }

  lemma {:induction false} InsertMultiset(c: Category, s: seq<Category>)
    ensures multiset(Insert(c, s)) == multiset(s) + multiset{c}
  {
    if s != [] && !Newer(c, s[0]) {
      InsertMultiset(c, s[1..]);
      assert s == [s[0]] + s[1..];
    }
  }

  lemma {:induction false} InsertSorted(c: Category, s: seq<Category>)
    requires NewestFirst(s)
    requires forall x | x in s :: x.id != c.id
    ensures NewestFirst(Insert(c, s))
  {
    var r := Insert(c, s);
    if s == [] || Newer(c, s[0]) {
      forall i, j | 0 <= i < j < |r| ensures Newer(r[i], r[j]) {
        if i == 0 && j > 1 {
          assert Newer(s[0], s[j - 1]);
        }
      }
    } else {
      NewerTotal(c, s[0]);
      var rest := Insert(c, s[1..]);
      InsertSorted(c, s[1..]);
      InsertMultiset(c, s[1..]);
      forall x | x in rest ensures Newer(s[0], x) {
        assert x in multiset(rest);
        if x != c {
          assert x in multiset(s[1..]);
          var k :| 0 <= k < |s[1..]| && s[1..][k] == x;
          assert s[k + 1] == x;
        }
      }
      forall i, j | 0 <= i < j < |r| ensures Newer(r[i], r[j]) {
        if i == 0 {
          assert r[j] == rest[j - 1];
          assert r[j] in rest;
        } else {
          assert r[i] == rest[i - 1] && r[j] == rest[j - 1];
        }
      }
    }
  }

  lemma SameMembers(a: seq<Category>, b: seq<Category>)
    requires multiset(a) == multiset(b)
    ensures forall x | x in a :: x in b
  {
    forall x | x in a ensures x in b {
      assert x in multiset(a);
    }
  }

  lemma DistinctTail(s: seq<Category>)
    requires s != [] && DistinctIds(s)
    ensures DistinctIds(s[1..])
    ensures forall x | x in s[1..] :: x.id != s[0].id
  {
    forall i, j | 0 <= i < j < |s[1..]| ensures s[1..][i].id != s[1..][j].id {
      assert s[1..][i] == s[i + 1] && s[1..][j] == s[j + 1];
    }
    forall x | x in s[1..] ensures x.id != s[0].id {
      var k :| 0 <= k < |s[1..]| && s[1..][k] == x;
      assert s[k + 1] == x;
    }
  }

  lemma {:induction false} SortSorted(s: seq<Category>)
    requires DistinctIds(s)
    ensures NewestFirst(SortNewestFirst(s))
    ensures multiset(SortNewestFirst(s)) == multiset(s)
  {
    if s != [] {
      DistinctTail(s);
      SortSorted(s[1..]);
      var sorted := SortNewestFirst(s[1..]);
      SameMembers(sorted, s[1..]);
      InsertSorted(s[0], sorted);
      InsertMultiset(s[0], sorted);
      assert s == [s[0]] + s[1..];
    }
  }

  /** LiveBelow lists keys below `n` in strictly increasing order. */
  lemma {:induction false} LiveBelowIncreasing(t: Table, n: nat)
    requires WellKeyed(t)
    ensures forall c | c in LiveBelow(t, n) :: c.id < n
    ensures forall i, j | 0 <= i < j < |LiveBelow(t, n)| :: LiveBelow(t, n)[i].id < LiveBelow(t, n)[j].id
  {
    if n > 0 {
      LiveBelowIncreasing(t, n - 1);
      var prev := LiveBelow(t, n - 1);
      var s := LiveBelow(t, n);
      forall i, j | 0 <= i < j < |s| ensures s[i].id < s[j].id {
        if j < |prev| {
          assert s[i] == prev[i] && s[j] == prev[j];
        } else {
          assert s[i] == prev[i] && s[i] in prev;
        }
      }
    }
  }

  /** LiveBelow holds exactly the live rows below `n`. */
  lemma {:induction false} LiveBelowMembers(t: Table, n: nat)
    requires WellKeyed(t)
    ensures forall c :: c in LiveBelow(t, n) <==> c.id < n && c.id in t && t[c.id] == c && c.Live()
  {
    if n > 0 {
      LiveBelowMembers(t, n - 1);
    }
  }

  /** LiveBelow has one row per live key below `n`. */
  lemma {:induction false} LiveBelowCount(t: Table, n: nat)
    ensures |LiveBelow(t, n)| == |LiveIdsBelow(t, n)|
  {
    if n > 0 {
      LiveBelowCount(t, n - 1);
      if n - 1 in t && t[n - 1].Live() {
        assert LiveIdsBelow(t, n) == LiveIdsBelow(t, n - 1) + {n - 1};
      } else {
        assert LiveIdsBelow(t, n) == LiveIdsBelow(t, n - 1);
      }
    } else {
      assert LiveIdsBelow(t, n) == {};
    }
  }

  /**
   * The listing holds every live row below `n` exactly once, newest first, and
   * as many rows as there are live keys below `n`.
   */
  lemma OrderedSpec(t: Table, n: nat)
    requires WellKeyed(t)
    ensures NewestFirst(Ordered(t, n))
    ensures DistinctIds(Ordered(t, n))
    ensures forall c :: c in Ordered(t, n) <==> c.id < n && c.id in t && t[c.id] == c && c.Live()
    ensures |Ordered(t, n)| == |LiveIdsBelow(t, n)|
  {
    var s := LiveBelow(t, n);
    LiveBelowIncreasing(t, n);
    LiveBelowMembers(t, n);
    LiveBelowCount(t, n);
    SortSorted(s);
    var o := Ordered(t, n);
    forall c ensures c in o <==> c in s {
      assert c in o <==> c in multiset(o);
    }
    assert |o| == |multiset(o)| == |multiset(s)| == |s|;
    forall i, j | 0 <= i < j < |o| ensures o[i].id != o[j].id {
      assert Newer(o[i], o[j]);
      assert o[i] in s && o[j] in s;
    }
  }

  /** With every key below `n`, the listing has exactly as many rows as the store counts. */
  lemma CountMatchesListing(t: Table, n: nat)
    requires WellKeyed(t)
    requires forall id | id in t :: id < n
    ensures |Ordered(t, n)| == |LiveIds(t)|
  {
    OrderedSpec(t, n);
    assert LiveIds(t) == LiveIdsBelow(t, n);
  }

  /** A window keeps the order of what it is cut from and takes nothing else. */
  lemma WindowOfSorted(s: seq<Category>, offset: nat, limit: nat)
    requires NewestFirst(s)
    ensures NewestFirst(Window(s, offset, limit))
    ensures forall c | c in Window(s, offset, limit) :: c in s
  {
    var w := Window(s, offset, limit);
    forall c | c in w ensures c in s {
      var i :| 0 <= i < |w| && w[i] == c;
      assert s[offset + i] == c;
    }
    forall i, j | 0 <= i < j < |w| ensures Newer(w[i], w[j]) {
      assert w[i] == s[offset + i] && w[j] == s[offset + j];
    }
  }

  /**
   * A page never holds more rows than the clamped limit, and holds only live
   * rows, newest first, each once.
   */
  lemma PageSpec(t: Table, n: nat, page: int, limit: int)
    requires WellKeyed(t)
    ensures |PageOf(t, n, page, limit)| <= ClampLimit(limit)
    ensures forall c | c in PageOf(t, n, page, limit) :: c.id in t && t[c.id] == c && c.Live()
    ensures NewestFirst(PageOf(t, n, page, limit))
  {
    OrderedSpec(t, n);
    WindowOfSorted(Ordered(t, n), Offset(page, limit), ClampLimit(limit));
  }
}
