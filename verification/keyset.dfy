/** Keyset pages: the first `limit` members of a set past a cursor, in the order of `less`. */
module Keyset {
  import opened Wrappers

  ghost predicate StrictOrder<K(!new)>(less: (K, K) -> bool) {
    && (forall a :: !less(a, a))
    && (forall a, b, c :: less(a, b) && less(b, c) ==> less(a, c))
    && (forall a, b :: a == b || less(a, b) || less(b, a))
  }

  predicate Past<K>(less: (K, K) -> bool, cursor: Option<K>, k: K) {
    cursor.None? || less(cursor.value, k)
  }

  ghost predicate InOrder<K>(less: (K, K) -> bool, s: seq<K>) {
    forall i, j :: 0 <= i < j < |s| ==> less(s[i], s[j])
  }

  /** `WHERE key > cursor ORDER BY key LIMIT limit` over `rows`. */
  ghost predicate IsPage<K(!new)>(less: (K, K) -> bool, rows: set<K>, cursor: Option<K>, limit: nat, page: seq<K>) {
    && |page| <= limit && InOrder(less, page)
    && (forall i :: 0 <= i < |page| ==> page[i] in rows && Past(less, cursor, page[i]))
    && (forall k :: k in rows && Past(less, cursor, k) && k !in page ==>
          |page| == limit && (page == [] || less(page[|page| - 1], k)))
  }

  method Least<K(==, !new)>(less: (K, K) -> bool, rows: set<K>) returns (m: K)
    requires StrictOrder(less) && rows != {}
    ensures m in rows && forall k :: k in rows && k != m ==> less(m, k)
  {
    m :| m in rows;
    var left := rows - {m};
    while left != {}
      invariant left <= rows && m in rows && m !in left
      invariant forall k :: k in rows && k !in left && k != m ==> less(m, k)
      decreases |left|
    {
      var k :| k in left;
      if less(k, m) {
        m := k;
      }
      left := left - {k};
    }
  }

  /** The query, answered row by row: whatever the rows, there is a page. */
  method SelectPage<K(==, !new)>(less: (K, K) -> bool, rows: set<K>, cursor: Option<K>,
                                 limit: nat) returns (page: seq<K>)
    requires StrictOrder(less)
    ensures IsPage(less, rows, cursor, limit, page)
    decreases limit
  {
    var due := Remaining(less, rows, cursor);
    if limit == 0 || due == {} {
      page := [];
      assert forall k :: k in rows && Past(less, cursor, k) ==> k in due;
    } else {
      var m := Least(less, due);
      var rest := SelectPage(less, rows, Some(m), limit - 1);
      page := [m] + rest;
      PageFrom(less, rows, cursor, limit, m, rest);
    }
  }

  /** The least row past the cursor, then the page past it. */
  lemma PageFrom<K(!new)>(less: (K, K) -> bool, rows: set<K>, cursor: Option<K>, limit: nat, m: K, rest: seq<K>)
    requires StrictOrder(less) && limit > 0 && m in rows && Past(less, cursor, m)
    requires forall k :: k in rows && Past(less, cursor, k) && k != m ==> less(m, k)
    requires IsPage(less, rows, Some(m), limit - 1, rest)
    ensures IsPage(less, rows, cursor, limit, [m] + rest)
  {
    var page := [m] + rest;
    forall i, j | 0 <= i < j < |page|
      ensures less(page[i], page[j])
    {
      assert page[j] == rest[j - 1];
    }
    forall k | k in rows && Past(less, cursor, k) && k !in page
      ensures |page| == limit && less(page[|page| - 1], k)
    {
      assert k != m && k !in rest;
    }
  }

  /** And there is only one. */
  lemma {:induction false} PageUnique<K(!new)>(less: (K, K) -> bool, rows: set<K>, cursor: Option<K>, limit: nat,
                                               a: seq<K>, b: seq<K>)
    requires StrictOrder(less) && IsPage(less, rows, cursor, limit, a) && IsPage(less, rows, cursor, limit, b)
    ensures a == b
    decreases limit
  {
    EmptyTogether(less, rows, cursor, limit, a, b);
    if a != [] {
      SameFirst(less, rows, cursor, limit, a, b);
      PageTail(less, rows, cursor, limit, a);
      PageTail(less, rows, cursor, limit, b);
      PageUnique(less, rows, Some(a[0]), limit - 1, a[1..], b[1..]);
      assert a == [a[0]] + a[1..] && b == [b[0]] + b[1..];
    }
  }

  lemma EmptyTogether<K(!new)>(less: (K, K) -> bool, rows: set<K>, cursor: Option<K>, limit: nat, a: seq<K>, b: seq<K>)
    requires IsPage(less, rows, cursor, limit, a) && IsPage(less, rows, cursor, limit, b)
    ensures a == [] <==> b == []
  {
    if a != [] {
      DueIsShown(less, rows, cursor, limit, b, a[0]);
    }
    if b != [] {
      DueIsShown(less, rows, cursor, limit, a, b[0]);
    }
  }

  lemma DueIsShown<K(!new)>(less: (K, K) -> bool, rows: set<K>, cursor: Option<K>, limit: nat, a: seq<K>, k: K)
    requires IsPage(less, rows, cursor, limit, a) && k in rows && Past(less, cursor, k) && limit > 0
    ensures a != []
  {
    assert k in a || |a| == limit;
  }

  lemma SameFirst<K(!new)>(less: (K, K) -> bool, rows: set<K>, cursor: Option<K>, limit: nat, a: seq<K>, b: seq<K>)
    requires StrictOrder(less) && IsPage(less, rows, cursor, limit, a) && IsPage(less, rows, cursor, limit, b)
    requires a != [] && b != []
    ensures a[0] == b[0]
  {
    FirstIsLeast(less, rows, cursor, limit, a, b[0]);
    FirstIsLeast(less, rows, cursor, limit, b, a[0]);
  }

  lemma FirstIsLeast<K(!new)>(less: (K, K) -> bool, rows: set<K>, cursor: Option<K>, limit: nat, a: seq<K>, k: K)
    requires StrictOrder(less) && IsPage(less, rows, cursor, limit, a) && a != []
    requires k in rows && Past(less, cursor, k)
    ensures k == a[0] || less(a[0], k)
  {
    if k in a {
      var i :| 0 <= i < |a| && a[i] == k;
    } else {
      assert |a| > 1 ==> less(a[0], a[|a| - 1]);
    }
  }

  lemma PageTail<K(!new)>(less: (K, K) -> bool, rows: set<K>, cursor: Option<K>, limit: nat, a: seq<K>)
    requires StrictOrder(less) && IsPage(less, rows, cursor, limit, a) && a != []
    ensures IsPage(less, rows, Some(a[0]), limit - 1, a[1..])
  {
    var t := a[1..];
    forall k | k in rows && Past(less, Some(a[0]), k) && k !in t
      ensures |t| == limit - 1 && (t == [] || less(t[|t| - 1], k))
    {
      assert Past(less, cursor, k);
      assert k !in a;
    }
  }

  // ----- a walk: page after page, the cursor being the last key of the page before

  /** Everything seen so far, in order, and nothing missed that could still be seen below the cursor. */
  ghost predicate Walked<K(!new)>(less: (K, K) -> bool, seen: seq<K>, always: set<K>) {
    && InOrder(less, seen)
    && (forall k :: k in always && !Past(less, Cursor(seen), k) ==> k in seen)
  }

  function Cursor<K>(seen: seq<K>): Option<K> {
    if seen == [] then None else Some(seen[|seen| - 1])
  }

  /** The next page continues the walk; what stays in the set throughout is not missed. */
  lemma WalkOn<K(!new)>(less: (K, K) -> bool, rows: set<K>, limit: nat, seen: seq<K>, page: seq<K>, always: set<K>)
    requires StrictOrder(less) && Walked(less, seen, always) && always <= rows && page != []
    requires IsPage(less, rows, Cursor(seen), limit, page)
    ensures Walked(less, seen + page, always)
  {
    var next := seen + page;
    forall i, j | 0 <= i < j < |next|
      ensures less(next[i], next[j])
    {
      if i < |seen| <= j {
        assert next[j] == page[j - |seen|];
        assert i == |seen| - 1 || less(seen[i], seen[|seen| - 1]);
      }
    }
    forall k | k in always && !Past(less, Cursor(next), k)
      ensures k in next
    {
      assert k in seen || k in page;
    }
  }

  /** An empty page means the walk is past everything that stayed in the set. */
  lemma WalkEnds<K(!new)>(less: (K, K) -> bool, rows: set<K>, limit: nat, seen: seq<K>, always: set<K>)
    requires Walked(less, seen, always) && always <= rows && limit > 0
    requires IsPage(less, rows, Cursor(seen), limit, [])
    ensures forall k :: k in always ==> k in seen
  {
  }

  /** What is left of a set past a cursor shrinks with every page read from that set. */
  lemma LessLeft<K(!new)>(less: (K, K) -> bool, rows: set<K>, limit: nat, seen: seq<K>, page: seq<K>)
    requires StrictOrder(less) && page != [] && IsPage(less, rows, Cursor(seen), limit, page)
    ensures |Remaining(less, rows, Cursor(seen + page))| < |Remaining(less, rows, Cursor(seen))|
  {
    var before, after := Remaining(less, rows, Cursor(seen)), Remaining(less, rows, Cursor(seen + page));
    var last := page[|page| - 1];
    assert last in before && last !in after;
    assert after <= before - {last};
    SmallerSet(after, before - {last});
  }

  function Remaining<K>(less: (K, K) -> bool, rows: set<K>, cursor: Option<K>): set<K> {
    set k | k in rows && Past(less, cursor, k)
  }

  lemma {:induction false} SmallerSet<K>(a: set<K>, b: set<K>)
    requires a <= b
    ensures |a| <= |b|
  {
    if a != {} {
      var k :| k in a;
      SmallerSet(a - {k}, b - {k});
    }
  }
}
