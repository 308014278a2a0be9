/**
 * Python's `sorted` by score with `reverse=True`: a stable sort by
 * descending score, as both scripts use it, and the prefix taken from it.
 */
module Ranking {
  import opened Graphs

  /** One `(node, score)` pair of a dictionary's `items()`. */
  datatype Item = Item(key: Node, score: real)

  ghost predicate SortedDesc(s: seq<Item>) {
    forall i, j :: 0 <= i < j < |s| ==> s[j].score <= s[i].score
  }

  /** The entries of s with score v, in their order in s. */
  function WithScore(s: seq<Item>, v: real): seq<Item> {
    if s == [] then []
    else (if s[0].score == v then [s[0]] else []) + WithScore(s[1..], v)
  }

  /** Puts x, which came before every entry of s, after the leading entries scoring strictly more. */
  function Insert(x: Item, s: seq<Item>): seq<Item> {
    if s == [] || s[0].score <= x.score then [x] + s
    else [s[0]] + Insert(x, s[1..])
  }

  /** Insertion adds x and loses nothing. */
  lemma {:induction false} InsertPermutes(x: Item, s: seq<Item>)
    ensures multiset(Insert(x, s)) == multiset(s) + multiset{x}
  {
    if s != [] && x.score < s[0].score {
      InsertPermutes(x, s[1..]);
      assert s == [s[0]] + s[1..];
    }
  }

  /** Inserting into a sequence sorted by descending score keeps it sorted. */
  lemma {:induction false} InsertSorted(x: Item, s: seq<Item>)
    requires SortedDesc(s)
    ensures SortedDesc(Insert(x, s))
  {
    if s != [] && x.score < s[0].score {
      var t := Insert(x, s[1..]);
      InsertSorted(x, s[1..]);
      InsertBelow(x, s[1..], s[0].score);
      SortedCons(s[0], t);
    }
  }

  /** Inserting an entry scoring at most b among entries scoring at most b. */
  lemma {:induction false} InsertBelow(x: Item, s: seq<Item>, b: real)
    requires x.score <= b
    requires forall j :: 0 <= j < |s| ==> s[j].score <= b
    ensures forall j :: 0 <= j < |Insert(x, s)| ==> Insert(x, s)[j].score <= b
  {
    if s != [] && x.score < s[0].score {
      InsertBelow(x, s[1..], b);
    }
  }

  lemma SortedCons(a: Item, t: seq<Item>)
    requires SortedDesc(t)
    requires forall j :: 0 <= j < |t| ==> t[j].score <= a.score
    ensures SortedDesc([a] + t)
  {
  }

  /** WithScore of a sequence given by its head and tail. */
  lemma WithScoreCons(x: Item, s: seq<Item>, v: real)
    ensures WithScore([x] + s, v) == (if x.score == v then [x] else []) + WithScore(s, v)
  {
    assert ([x] + s)[1..] == s;
  }

  /** Insertion sort, from the back, so that equal scores keep their order. */
  function SortDesc(s: seq<Item>): (r: seq<Item>)
    ensures SortedDesc(r)
    ensures multiset(r) == multiset(s)
    ensures |r| == |s|
  {
    if s == [] then []
    else
      var r := Insert(s[0], SortDesc(s[1..]));
      InsertPermutes(s[0], SortDesc(s[1..]));
      InsertSorted(s[0], SortDesc(s[1..]));
      assert s == [s[0]] + s[1..];
      assert |r| == |multiset(r)|;
      r
  }

  lemma {:induction false} InsertKeepsTies(x: Item, s: seq<Item>, v: real)
    requires SortedDesc(s)
    ensures WithScore(Insert(x, s), v) == (if x.score == v then [x] else []) + WithScore(s, v)
  {
    if s != [] && x.score < s[0].score {
      var t := Insert(x, s[1..]);
      assert Insert(x, s) == [s[0]] + t;
      WithScoreCons(s[0], t, v);
      InsertKeepsTies(x, s[1..], v);
      WithScoreCons(s[0], s[1..], v);
      assert s == [s[0]] + s[1..];
    } else {
      WithScoreCons(x, s, v);
    }
  }

  /** Stability: for every score, the entries with that score keep their relative order. */
  lemma {:induction false} SortDescKeepsTies(s: seq<Item>, v: real)
    ensures WithScore(SortDesc(s), v) == WithScore(s, v)
  {
    if s != [] {
      SortDescKeepsTies(s[1..], v);
      InsertKeepsTies(s[0], SortDesc(s[1..]), v);
    }
  }

  lemma {:induction false} WithScoreAppend(a: seq<Item>, b: seq<Item>, v: real)
    ensures WithScore(a + b, v) == WithScore(a, v) + WithScore(b, v)
  {
    if a == [] {
      assert a + b == b;
    } else {
      assert (a + b)[1..] == a[1..] + b;
      WithScoreAppend(a[1..], b, v);
    }
  }

  /** The first entry scoring v, at index k, heads the entries of that score. */
  lemma {:induction false} WithScoreFirst(s: seq<Item>, v: real, k: nat)
    requires k < |s| && s[k].score == v
    requires forall i :: 0 <= i < k ==> s[i].score != v
    ensures WithScore(s, v) != [] && WithScore(s, v)[0] == s[k]
  {
    if k > 0 {
      WithScoreFirst(s[1..], v, k - 1);
    }
  }

  lemma ItemIndex(s: seq<Item>, x: Item) returns (k: nat)
    requires x in multiset(s)
    ensures k < |s| && s[k] == x
  {
    assert x in s;
    k :| 0 <= k < |s| && s[k] == x;
  }

  lemma {:induction false} FirstScored(s: seq<Item>, v: real, k: nat) returns (f: nat)
    requires k < |s| && s[k].score == v
    ensures f <= k && s[f].score == v
    ensures forall i :: 0 <= i < f ==> s[i].score != v
    decreases k
  {
    if i :| 0 <= i < k && s[i].score == v {
      f := FirstScored(s, v, i);
    } else {
      f := k;
    }
  }

  /** A sorted sequence starts with a maximal score, so nothing in a permutation of it scores more. */
  lemma HeadIsMaximal(s: seq<Item>, r: seq<Item>)
    requires SortedDesc(r) && multiset(r) == multiset(s) && r != []
    ensures forall i :: 0 <= i < |s| ==> s[i].score <= r[0].score
  {
    forall i | 0 <= i < |s|
      ensures s[i].score <= r[0].score
    {
      assert s[i] in multiset(s);
      var j := ItemIndex(r, s[i]);
    }
  }

  /**
   * `sorted(...)[0]` is the first entry, in the input order, whose score is
   * maximal.
   */
  lemma SortDescHead(s: seq<Item>) returns (k: nat)
    requires s != []
    ensures k < |s| && s[k] == SortDesc(s)[0]
    ensures forall i :: 0 <= i < |s| ==> s[i].score <= s[k].score
    ensures forall i :: 0 <= i < k ==> s[i].score < s[k].score
  {
    var r := SortDesc(s);
    var m := r[0].score;
    HeadIsMaximal(s, r);
    assert r[0] in multiset(r);
    var k0 := ItemIndex(s, r[0]);
    k := FirstScored(s, m, k0);
    WithScoreFirst(s, m, k);
    WithScoreFirst(r, m, 0);
    SortDescKeepsTies(s, m);
  }

  /** `sorted(...)[:k]`. */
  function TopK(s: seq<Item>, k: nat): (t: seq<Item>)
    ensures |t| == if k < |s| then k else |s|
    ensures SortedDesc(t)
  {
    var r := SortDesc(s);
    r[..if k < |r| then k else |r|]
  }

  lemma TopKSplit(s: seq<Item>, k: nat)
    ensures var r := SortDesc(s); var n := if k < |r| then k else |r|;
      TopK(s, k) == r[..n] && r == r[..n] + r[n..]
  {
    var r := SortDesc(s);
    var n := if k < |r| then k else |r|;
    assert r == r[..n] + r[n..];
  }

  /** An entry left out of the top k scores no more than any entry taken. */
  lemma TopKLeavesLower(s: seq<Item>, k: nat, i: nat, j: nat)
    requires i < |s| && j < |TopK(s, k)| && s[i] !in TopK(s, k)
    ensures s[i].score <= TopK(s, k)[j].score
  {
    var r := SortDesc(s);
    var n := if k < |r| then k else |r|;
    TopKSplit(s, k);
    assert s[i] in multiset(s);
    var l := ItemIndex(r, s[i]);
  }

  /** Ties in the top k keep the order they have in s. */
  lemma TopKKeepsTies(s: seq<Item>, k: nat, v: real)
    ensures WithScore(TopK(s, k), v) <= WithScore(s, v)
  {
    var r := SortDesc(s);
    var n := if k < |r| then k else |r|;
    TopKSplit(s, k);
    WithScoreAppend(r[..n], r[n..], v);
    SortDescKeepsTies(s, v);
  }

  /**
   * The top-k prefix: min(k, |s|) entries, in non-increasing score order,
   * drawn from s; no entry left out scores more than a selected one; and
   * entries of equal score appear in their original order.
   */
  lemma TopKSpec(s: seq<Item>, k: nat)
    ensures |TopK(s, k)| == if k < |s| then k else |s|
    ensures SortedDesc(TopK(s, k))
    ensures multiset(TopK(s, k)) <= multiset(s)
    ensures forall i, j :: 0 <= i < |s| && 0 <= j < |TopK(s, k)| && s[i] !in TopK(s, k) ==>
      s[i].score <= TopK(s, k)[j].score
    ensures forall v :: WithScore(TopK(s, k), v) <= WithScore(s, v)
  {
    var r := SortDesc(s);
    var n := if k < |r| then k else |r|;
    TopKSplit(s, k);
    assert multiset(r) == multiset(r[..n]) + multiset(r[n..]);
    forall i, j | 0 <= i < |s| && 0 <= j < |TopK(s, k)| && s[i] !in TopK(s, k)
      ensures s[i].score <= TopK(s, k)[j].score
    {
      TopKLeavesLower(s, k, i, j);
    }
    forall v
      ensures WithScore(TopK(s, k), v) <= WithScore(s, v)
    {
      TopKKeepsTies(s, k, v);
    }
  }
}
