/** Counting the rows of a table that satisfy a boolean mask, and selecting them.

    `Count(t, p)` is what `(mask).sum()` computes over a pandas column of
    booleans, and `Where(t, p)` is the row selection `df[mask]`, which keeps
    the rows in their original order. */
module Counting {

  /** Number of elements of `t` on which `p` holds. */
  function Count<T>(t: seq<T>, p: T -> bool): (n: nat)
    ensures n <= |t|
  {
    if |t| == 0 then 0
    else (if p(t[0]) then 1 else 0) + Count(t[1..], p)
  }

  /** All rows are counted exactly when the mask holds on every row, and
      none exactly when it holds on no row. */
  lemma {:induction false} CountExtremes<T>(t: seq<T>, p: T -> bool)
    ensures Count(t, p) == |t| <==> forall i :: 0 <= i < |t| ==> p(t[i])
    ensures Count(t, p) == 0 <==> forall i :: 0 <= i < |t| ==> !p(t[i])
  {
    if |t| > 0 {
      assert forall i :: 1 <= i < |t| ==> t[i] == t[1..][i - 1];
      CountExtremes(t[1..], p);
    }
  }

  /** The elements of `t` on which `p` holds, in their original order. */
  function Where<T>(t: seq<T>, p: T -> bool): (r: seq<T>)
    ensures |r| == Count(t, p)
    ensures forall i :: 0 <= i < |r| ==> p(r[i])
  {
    if |t| == 0 then []
    else if p(t[0]) then [t[0]] + Where(t[1..], p)
    else Where(t[1..], p)
  }

  /** `Where` keeps exactly the elements of `t` on which `p` holds. */
  lemma {:induction false} WhereMembers<T>(t: seq<T>, p: T -> bool)
    ensures forall x :: x in Where(t, p) <==> x in t && p(x)
  {
    if |t| > 0 {
      WhereMembers(t[1..], p);
      assert t == [t[0]] + t[1..];
    }
  }

  /** Counting over a concatenation adds the counts of the two parts. */
  lemma {:induction false} CountAppend<T>(a: seq<T>, b: seq<T>, p: T -> bool)
    ensures Count(a + b, p) == Count(a, p) + Count(b, p)
  {
    if |a| > 0 {
      assert (a + b)[1..] == a[1..] + b;
      CountAppend(a[1..], b, p);
    } else {
      assert a + b == b;
    }
  }

  /** A mask that holds wherever another holds counts at least as many rows. */
  lemma {:induction false} CountMonotone<T>(t: seq<T>, p: T -> bool, q: T -> bool)
    requires forall i :: 0 <= i < |t| ==> p(t[i]) ==> q(t[i])
    ensures Count(t, p) <= Count(t, q)
  {
    if |t| > 0 {
      assert forall i :: 1 <= i < |t| ==> t[i] == t[1..][i - 1];
      CountMonotone(t[1..], p, q);
    }
  }

  /** Two masks that agree on every row count the same number of rows. */
  lemma {:induction false} CountAgree<T>(t: seq<T>, p: T -> bool, q: T -> bool)
    requires forall i :: 0 <= i < |t| ==> (p(t[i]) <==> q(t[i]))
    ensures Count(t, p) == Count(t, q)
  {
    CountMonotone(t, p, q);
    CountMonotone(t, q, p);
  }

  /** When, on every row, `r` holds exactly when one of the disjoint masks
      `p` and `q` holds, the counts of `p` and `q` add up to that of `r`. */
  lemma {:induction false} CountSplit<T>(t: seq<T>, p: T -> bool, q: T -> bool, r: T -> bool)
    requires forall i :: 0 <= i < |t| ==> !(p(t[i]) && q(t[i]))
    requires forall i :: 0 <= i < |t| ==> (r(t[i]) <==> p(t[i]) || q(t[i]))
    ensures Count(t, p) + Count(t, q) == Count(t, r)
  {
    if |t| > 0 {
      assert forall i :: 1 <= i < |t| ==> t[i] == t[1..][i - 1];
      CountSplit(t[1..], p, q, r);
    }
  }

  /** A mask and its negation together count every row. */
  lemma {:induction false} CountComplement<T>(t: seq<T>, p: T -> bool, q: T -> bool)
    requires forall i :: 0 <= i < |t| ==> (q(t[i]) <==> !p(t[i]))
    ensures Count(t, p) + Count(t, q) == |t|
  {
    if |t| > 0 {
      assert forall i :: 1 <= i < |t| ==> t[i] == t[1..][i - 1];
      CountComplement(t[1..], p, q);
    }
  }

  /** Two masks that never hold on the same row count at most all the rows
      together, and exactly all of them when every row satisfies one. */
  lemma {:induction false} CountDisjoint<T>(t: seq<T>, p: T -> bool, q: T -> bool)
    requires forall i :: 0 <= i < |t| ==> !(p(t[i]) && q(t[i]))
    ensures Count(t, p) + Count(t, q) <= |t|
    ensures Count(t, p) + Count(t, q) == |t| <==> forall i :: 0 <= i < |t| ==> p(t[i]) || q(t[i])
  {
    if |t| > 0 {
      assert forall i :: 1 <= i < |t| ==> t[i] == t[1..][i - 1];
      CountDisjoint(t[1..], p, q);
      if p(t[0]) || q(t[0]) {
        assert (forall i :: 0 <= i < |t| ==> p(t[i]) || q(t[i]))
          <==> (forall i :: 0 <= i < |t[1..]| ==> p(t[1..][i]) || q(t[1..][i]));
      }
    }
  }

  /** Counting `q` among the rows selected by `p` is counting, over the whole
      table, the rows on which both hold (`pq` stands for `p && q`). */
  lemma {:induction false} CountWhere<T>(t: seq<T>, p: T -> bool, q: T -> bool, pq: T -> bool)
    requires forall i :: 0 <= i < |t| ==> (pq(t[i]) <==> p(t[i]) && q(t[i]))
    ensures Count(Where(t, p), q) == Count(t, pq)
  {
    if |t| > 0 {
      assert forall i :: 1 <= i < |t| ==> t[i] == t[1..][i - 1];
      CountWhere(t[1..], p, q, pq);
      if p(t[0]) {
        var w := Where(t[1..], p);
        assert Where(t, p) == [t[0]] + w;
        assert ([t[0]] + w)[1..] == w;
      }
    }
  }
}
