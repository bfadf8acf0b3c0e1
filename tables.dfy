/** The relational building blocks the ledger's queries are made of. A table is a sequence of
    rows in primary-key order; `Select` is a WHERE clause (it keeps table order), `Limit` is a
    LIMIT clause, and `Reverse` turns a key-ascending selection into ORDER BY key DESC. */
module Tables {

  function Min(a: int, b: int): int { if a <= b then a else b }

  /** The rows that satisfy `p`, in table order. */
  function Select<T(!new)>(rows: seq<T>, p: T -> bool): (r: seq<T>)
    ensures |r| <= |rows|
    ensures forall x :: x in r <==> x in rows && p(x)
  {
    if rows == [] then []
    else (if p(rows[0]) then [rows[0]] else []) + Select(rows[1..], p)
  }

  /** The first `n` rows of `s` (all of them when there are fewer). */
  function Limit<T(!new)>(s: seq<T>, n: nat): (r: seq<T>)
    ensures |r| == Min(n, |s|)
    ensures r == s[..|r|]
    ensures forall x :: x in r ==> x in s
    ensures multiset(r) <= multiset(s)
  {
    if n < |s| then
      assert s == s[..n] + s[n..];
      s[..n]
    else s
  }

  /** `s` back to front. */
  function Reverse<T(!new)>(s: seq<T>): (r: seq<T>)
    ensures |r| == |s|
    ensures forall i :: 0 <= i < |s| ==> r[i] == s[|s| - 1 - i]
  {
    if s == [] then [] else Reverse(s[1..]) + [s[0]]
  }

  /** SUM(f(row)) over the rows; 0 for no rows, unlike SQL's NULL. */
  function SumOf<T(!new)>(rows: seq<T>, f: T -> int): int
  {
    if rows == [] then 0 else f(rows[0]) + SumOf(rows[1..], f)
  }

  lemma PrefixThenSuffix<T>(s: seq<T>, k: nat)
    requires k <= |s|
    ensures s[..k] + s[k..] == s
  {
  }

  lemma TakeOneMore<T>(s: seq<T>, k: nat)
    requires 0 < k <= |s|
    ensures s[..k] == s[..k - 1] + [s[k - 1]]
    ensures multiset(s[..k]) == multiset(s[..k - 1]) + multiset{s[k - 1]}
  {
    assert s[..k] == s[..k - 1] + [s[k - 1]];
  }

  /** A selection holds every row at most as often as the table does. */
  lemma {:induction false} SelectSubMultiset<T(!new)>(rows: seq<T>, p: T -> bool)
    ensures multiset(Select(rows, p)) <= multiset(rows)
  {
    if rows != [] {
      SelectSubMultiset(rows[1..], p);
      assert rows == [rows[0]] + rows[1..];
    }
  }

  lemma {:induction false} SelectAll<T(!new)>(rows: seq<T>, p: T -> bool)
    requires forall x :: x in rows ==> p(x)
    ensures Select(rows, p) == rows
  {
    if rows != [] {
      SelectAll(rows[1..], p);
    }
  }

  lemma {:induction false} SelectNone<T(!new)>(rows: seq<T>, p: T -> bool)
    requires forall x :: x in rows ==> !p(x)
    ensures Select(rows, p) == []
  {
    if rows != [] {
      SelectNone(rows[1..], p);
    }
  }

  /** Two filters that agree on every row select the same rows. */
  lemma {:induction false} SelectExt<T(!new)>(rows: seq<T>, p: T -> bool, q: T -> bool)
    requires forall x :: x in rows ==> p(x) == q(x)
    ensures Select(rows, p) == Select(rows, q)
  {
    if rows != [] {
      SelectExt(rows[1..], p, q);
    }
  }

  lemma {:induction false} SelectAppend<T(!new)>(a: seq<T>, b: seq<T>, p: T -> bool)
    ensures Select(a + b, p) == Select(a, p) + Select(b, p)
  {
    if a == [] {
      assert a + b == b;
    } else {
      assert (a + b)[0] == a[0];
      assert (a + b)[1..] == a[1..] + b;
      SelectAppend(a[1..], b, p);
    }
  }

  /** Filtering by `p` and then by `q` is filtering by their conjunction. */
  lemma {:induction false} SelectSelect<T(!new)>(rows: seq<T>, p: T -> bool, q: T -> bool, pq: T -> bool)
    requires forall x :: x in rows ==> pq(x) == (p(x) && q(x))
    ensures Select(Select(rows, p), q) == Select(rows, pq)
  {
    if rows != [] {
      var head := if p(rows[0]) then [rows[0]] else [];
      SelectAppend(head, Select(rows[1..], p), q);
      SelectSelect(rows[1..], p, q, pq);
    }
  }

  /** When exactly the rows from index `j` on satisfy `q`, the selection is that suffix. */
  lemma {:induction false} SelectSuffix<T(!new)>(s: seq<T>, q: T -> bool, j: nat)
    requires j <= |s|
    requires forall i :: 0 <= i < j ==> !q(s[i])
    requires forall i :: j <= i < |s| ==> q(s[i])
    ensures Select(s, q) == s[j..]
  {
    if j == 0 {
      SelectAll(s, q);
    } else {
      SelectSuffix(s[1..], q, j - 1);
      assert s[1..][j - 1..] == s[j..];
    }
  }

  /** Splitting a filter into two disjoint filters splits its row count and its sums. */
  lemma {:induction false} SelectSplit<T(!new)>(rows: seq<T>, p: T -> bool, p1: T -> bool, p2: T -> bool, f: T -> int)
    requires forall x :: x in rows ==> (p(x) <==> p1(x) || p2(x))
    requires forall x :: x in rows ==> !(p1(x) && p2(x))
    ensures |Select(rows, p)| == |Select(rows, p1)| + |Select(rows, p2)|
    ensures SumOf(Select(rows, p), f) == SumOf(Select(rows, p1), f) + SumOf(Select(rows, p2), f)
  {
    if rows != [] {
      SelectSplit(rows[1..], p, p1, p2, f);
      var x := rows[0];
      var t, t1, t2 := Select(rows[1..], p), Select(rows[1..], p1), Select(rows[1..], p2);
      if p1(x) {
        assert Select(rows, p) == [x] + t;
        assert Select(rows, p1) == [x] + t1;
        assert Select(rows, p2) == t2;
        assert ([x] + t)[1..] == t;
        assert ([x] + t1)[1..] == t1;
      } else if p2(x) {
        assert Select(rows, p) == [x] + t;
        assert Select(rows, p2) == [x] + t2;
        assert Select(rows, p1) == t1;
        assert ([x] + t)[1..] == t;
        assert ([x] + t2)[1..] == t2;
      } else {
        assert Select(rows, p) == t;
        assert Select(rows, p1) == t1;
        assert Select(rows, p2) == t2;
      }
    }
  }
}
