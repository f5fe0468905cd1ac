/**
 * The per-message truncation of the failed-message clean-up: a message's
 * processing attempts are put in descending `AttemptedAt` order, keeping the
 * original relative order of attempts with equal timestamps (a stable sort),
 * and only the first `n` of them are kept.
 */
module ProcessingAttempts {

  /** One recorded attempt to process a message: its timestamp and the
    * remaining attempt metadata, which the clean-up never looks at. */
  datatype ProcessingAttempt = ProcessingAttempt(attemptedAt: int, details: string)

  function Min(a: nat, b: nat): (m: nat)
    ensures m <= a && m <= b && (m == a || m == b)
  {
    if a <= b then a else b
  }

  /** Non-increasing `AttemptedAt` order. */
  ghost predicate SortedDescending(s: seq<ProcessingAttempt>)
  {
    forall i, j :: 0 <= i < j < |s| ==> s[i].attemptedAt >= s[j].attemptedAt
  }

  /** The attempts of `s` stamped `t`, in their order in `s`. */
  function WithTimestamp(s: seq<ProcessingAttempt>, t: int): (r: seq<ProcessingAttempt>)
    ensures |r| <= |s|
    ensures forall x :: x in r ==> x in s && x.attemptedAt == t
  {
    if s == [] then []
    else (if s[0].attemptedAt == t then [s[0]] else []) + WithTimestamp(s[1..], t)
  }

  /** `r` is a stable descending ordering of `s`: sorted by timestamp, and for
    * every timestamp the attempts carrying it appear exactly as in `s`. */
  ghost predicate IsStableDescendingOrder(r: seq<ProcessingAttempt>, s: seq<ProcessingAttempt>)
  {
    SortedDescending(r) && forall t :: WithTimestamp(r, t) == WithTimestamp(s, t)
  }

  /** Places `a` before the first attempt of `s` that is not strictly later. */
  function InsertDescending(a: ProcessingAttempt, s: seq<ProcessingAttempt>): (r: seq<ProcessingAttempt>)
  {
    if s == [] || s[0].attemptedAt <= a.attemptedAt then [a] + s
    else [s[0]] + InsertDescending(a, s[1..])
  }

  /** `OrderByDescending(pa => pa.AttemptedAt)`: a stable descending sort. */
  function OrderByAttemptedAtDescending(s: seq<ProcessingAttempt>): (r: seq<ProcessingAttempt>)
  {
    if s == [] then []
    else InsertDescending(s[0], OrderByAttemptedAtDescending(s[1..]))
  }

  /** `OrderByDescending(pa => pa.AttemptedAt).Take(n).ToList()`. */
  function TruncateAttempts(s: seq<ProcessingAttempt>, n: nat): (r: seq<ProcessingAttempt>)
  {
    var ordered := OrderByAttemptedAtDescending(s);
    ordered[..Min(n, |ordered|)]
  }

  // ---------------------------------------------------------------------------
  // Insertion

  lemma {:induction false} InsertIsPermutation(a: ProcessingAttempt, s: seq<ProcessingAttempt>)
    ensures multiset(InsertDescending(a, s)) == multiset([a] + s)
  {
    if s == [] || s[0].attemptedAt <= a.attemptedAt {
    } else {
      InsertIsPermutation(a, s[1..]);
      assert s == [s[0]] + s[1..];
    }
  }

  lemma {:induction false} InsertKeepsSorted(a: ProcessingAttempt, s: seq<ProcessingAttempt>)
    requires SortedDescending(s)
    ensures SortedDescending(InsertDescending(a, s))
  {
    if s == [] || s[0].attemptedAt <= a.attemptedAt {
    } else {
      var rest := InsertDescending(a, s[1..]);
      InsertKeepsSorted(a, s[1..]);
      InsertIsPermutation(a, s[1..]);
      forall j | 0 <= j < |rest|
        ensures rest[j].attemptedAt <= s[0].attemptedAt
      {
        assert rest[j] in multiset(rest);
        assert rest[j] in [a] + s[1..];
      }
      assert InsertDescending(a, s) == [s[0]] + rest;
    }
  }

  lemma {:induction false} InsertKeepsTimestampOrder(a: ProcessingAttempt, s: seq<ProcessingAttempt>, t: int)
    ensures WithTimestamp(InsertDescending(a, s), t) == WithTimestamp([a] + s, t)
  {
    if s == [] || s[0].attemptedAt <= a.attemptedAt {
    } else {
      var r := InsertDescending(a, s);
      assert r == [s[0]] + InsertDescending(a, s[1..]);
      assert r[0] == s[0] && r[1..] == InsertDescending(a, s[1..]);
      InsertKeepsTimestampOrder(a, s[1..], t);
      assert ([a] + s)[1..] == s;
      assert ([a] + s[1..])[1..] == s[1..];
    }
  }

  // ---------------------------------------------------------------------------
  // The stable descending sort

  /** The sort neither invents, drops nor duplicates an attempt. */
  lemma {:induction false} OrderIsPermutation(s: seq<ProcessingAttempt>)
    ensures multiset(OrderByAttemptedAtDescending(s)) == multiset(s)
  {
    if s != [] {
      OrderIsPermutation(s[1..]);
      InsertIsPermutation(s[0], OrderByAttemptedAtDescending(s[1..]));
      assert s == [s[0]] + s[1..];
    }
  }

  /** The sort is non-increasing in `AttemptedAt` and stable. */
  lemma {:induction false} OrderIsStableDescending(s: seq<ProcessingAttempt>)
    ensures IsStableDescendingOrder(OrderByAttemptedAtDescending(s), s)
  {
    if s != [] {
      var rest := OrderByAttemptedAtDescending(s[1..]);
      OrderIsStableDescending(s[1..]);
      InsertKeepsSorted(s[0], rest);
      forall t
        ensures WithTimestamp(OrderByAttemptedAtDescending(s), t) == WithTimestamp(s, t)
      {
        InsertKeepsTimestampOrder(s[0], rest, t);
        assert ([s[0]] + rest)[1..] == rest;
      }
    }
  }

  /** The first attempt stamped `t` of a non-empty list is its head when the
    * head carries `t`, and the head of a sorted list is never earlier. */
  lemma FirstWithTimestamp(s: seq<ProcessingAttempt>, t: int)
    requires SortedDescending(s) && WithTimestamp(s, t) != []
    ensures s != [] && t <= s[0].attemptedAt
    ensures s[0].attemptedAt == t ==> WithTimestamp(s, t)[0] == s[0]
  {
    var x := WithTimestamp(s, t)[0];
    assert x in s;
  }

  lemma HeadTimestampPresent(s: seq<ProcessingAttempt>)
    requires s != []
    ensures WithTimestamp(s, s[0].attemptedAt) != []
  {
  }

  lemma TailsAgree(a: seq<ProcessingAttempt>, b: seq<ProcessingAttempt>, t: int)
    requires a != [] && b != [] && a[0] == b[0]
    requires WithTimestamp(a, t) == WithTimestamp(b, t)
    ensures WithTimestamp(a[1..], t) == WithTimestamp(b[1..], t)
  {
    var head := if a[0].attemptedAt == t then [a[0]] else [];
    assert WithTimestamp(a, t) == head + WithTimestamp(a[1..], t);
    assert WithTimestamp(b, t) == head + WithTimestamp(b[1..], t);
    assert (head + WithTimestamp(a[1..], t))[|head|..] == WithTimestamp(a[1..], t);
    assert (head + WithTimestamp(b[1..], t))[|head|..] == WithTimestamp(b[1..], t);
  }

  /** Two sorted sequences that agree on the order of every timestamp's
    * attempts are equal. */
  lemma {:induction false} StableDescendingOrdersAgree(a: seq<ProcessingAttempt>, b: seq<ProcessingAttempt>)
    requires SortedDescending(a) && SortedDescending(b)
    requires forall t :: WithTimestamp(a, t) == WithTimestamp(b, t)
    ensures a == b
  {
    if a == [] && b == [] {
    } else if a == [] {
      HeadTimestampPresent(b);
      assert false;
    } else if b == [] {
      HeadTimestampPresent(a);
      assert false;
    } else {
      var ka, kb := a[0].attemptedAt, b[0].attemptedAt;
      assert WithTimestamp(a, ka) != [] && WithTimestamp(b, kb) != [];
      FirstWithTimestamp(a, ka);
      FirstWithTimestamp(b, kb);
      assert WithTimestamp(b, ka) == WithTimestamp(a, ka);
      assert WithTimestamp(a, kb) == WithTimestamp(b, kb);
      FirstWithTimestamp(b, ka);
      FirstWithTimestamp(a, kb);
      assert a[0] == b[0];
      forall t
        ensures WithTimestamp(a[1..], t) == WithTimestamp(b[1..], t)
      {
        TailsAgree(a, b, t);
      }
      StableDescendingOrdersAgree(a[1..], b[1..]);
      assert a == [a[0]] + a[1..];
      assert b == [b[0]] + b[1..];
    }
  }

  /** The sort is the only stable descending ordering: `IsStableDescendingOrder`
    * is an independent definition of what `OrderByAttemptedAtDescending`
    * computes. */
  lemma StableDescendingOrderIsUnique(r: seq<ProcessingAttempt>, s: seq<ProcessingAttempt>)
    ensures IsStableDescendingOrder(r, s) <==> r == OrderByAttemptedAtDescending(s)
  {
    OrderIsStableDescending(s);
    if IsStableDescendingOrder(r, s) {
      StableDescendingOrdersAgree(r, OrderByAttemptedAtDescending(s));
    }
  }

  // ---------------------------------------------------------------------------
  // Truncation

  lemma {:induction false} PrefixKeepsTimestampOrder(x: seq<ProcessingAttempt>, m: nat, t: int)
    requires m <= |x|
    ensures WithTimestamp(x[..m], t) <= WithTimestamp(x, t)
  {
    if m > 0 {
      assert x[..m][0] == x[0];
      assert x[..m][1..] == x[1..][..m - 1];
      PrefixKeepsTimestampOrder(x[1..], m - 1, t);
    }
  }

  /** The truncated list holds `n` attempts, or all of them when there are
    * no more than `n`. */
  lemma TruncateLength(s: seq<ProcessingAttempt>, n: nat)
    ensures |TruncateAttempts(s, n)| == Min(n, |s|)
  {
    OrderIsPermutation(s);
    assert |multiset(OrderByAttemptedAtDescending(s))| == |multiset(s)|;
  }

  /** The kept attempts are in non-increasing `AttemptedAt` order. */
  lemma TruncateSortedDescending(s: seq<ProcessingAttempt>, n: nat)
    ensures SortedDescending(TruncateAttempts(s, n))
  {
    OrderIsStableDescending(s);
  }

  /** The kept attempts are taken from the original ones: nothing is invented
    * or duplicated. */
  lemma TruncateSubMultiset(s: seq<ProcessingAttempt>, n: nat)
    ensures multiset(TruncateAttempts(s, n)) <= multiset(s)
  {
    var ordered := OrderByAttemptedAtDescending(s);
    var k := Min(n, |ordered|);
    OrderIsPermutation(s);
    assert ordered == ordered[..k] + ordered[k..];
    assert multiset(ordered) == multiset(ordered[..k]) + multiset(ordered[k..]);
  }

  /** No discarded attempt is strictly later than a kept one: the kept
    * attempts are the most recent ones. */
  lemma TruncateKeepsLatest(s: seq<ProcessingAttempt>, n: nat)
    ensures var r := TruncateAttempts(s, n);
      forall d, i :: d in multiset(s) - multiset(r) && 0 <= i < |r| ==> d.attemptedAt <= r[i].attemptedAt
  {
    var ordered := OrderByAttemptedAtDescending(s);
    var k := Min(n, |ordered|);
    var r, dropped := ordered[..k], ordered[k..];
    OrderIsPermutation(s);
    OrderIsStableDescending(s);
    assert ordered == r + dropped;
    assert multiset(ordered) == multiset(r) + multiset(dropped);
    assert multiset(s) - multiset(r) == multiset(dropped);
    forall d: ProcessingAttempt, i: int | d in multiset(dropped) && 0 <= i < |r|
      ensures d.attemptedAt <= r[i].attemptedAt
    {
      assert d in dropped;
      var j :| 0 <= j < |dropped| && dropped[j] == d;
      assert ordered[k + j] == d && ordered[i] == r[i];
    }
  }

  /** Attempts with equal timestamps keep their original relative order: for
    * every timestamp, the kept attempts carrying it are the first ones of the
    * original list carrying it. */
  lemma TruncateKeepsTieOrder(s: seq<ProcessingAttempt>, n: nat)
    ensures forall t :: WithTimestamp(TruncateAttempts(s, n), t) <= WithTimestamp(s, t)
  {
    var ordered := OrderByAttemptedAtDescending(s);
    OrderIsStableDescending(s);
    forall t
      ensures WithTimestamp(TruncateAttempts(s, n), t) <= WithTimestamp(s, t)
    {
      PrefixKeepsTimestampOrder(ordered, Min(n, |ordered|), t);
    }
  }

  /** Attempts stamped 1, 2 and 3 cut to two: the attempts stamped 3 and 2,
    * latest first. */
  lemma TruncateThreeToTwo(x: string, y: string, z: string)
    ensures TruncateAttempts([ProcessingAttempt(1, x), ProcessingAttempt(2, y), ProcessingAttempt(3, z)], 2)
         == [ProcessingAttempt(3, z), ProcessingAttempt(2, y)]
  {
    var a1, a2, a3 := ProcessingAttempt(1, x), ProcessingAttempt(2, y), ProcessingAttempt(3, z);
    assert OrderByAttemptedAtDescending([a3]) == [a3];
    assert [a1, a2, a3][1..] == [a2, a3] && [a2, a3][1..] == [a3];
    assert InsertDescending(a2, [a3]) == [a3] + InsertDescending(a2, []);
    assert OrderByAttemptedAtDescending([a2, a3]) == [a3, a2];
    assert [a3, a2][1..] == [a2] && [a2][1..] == [];
    assert InsertDescending(a1, [a2]) == [a2] + InsertDescending(a1, []);
    assert InsertDescending(a1, [a3, a2]) == [a3] + InsertDescending(a1, [a2]);
    assert OrderByAttemptedAtDescending([a1, a2, a3]) == [a3, a2, a1];
  }
}
