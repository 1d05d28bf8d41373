/** Key-length voting of `kasiski_method` (KeyLengths.py): every recorded
    distance votes for each of its divisors from 2 up to itself, the votes
    are tallied per candidate length in a dictionary, and the items are
    sorted by vote count, highest first. */
module KeyLengths {
  import opened Base
  import KasiskiScan

  /** Distance `d` votes for length `len`: `len` is a divisor of `d` in 2 .. d. */
  predicate VotesFor(d: int, len: int) {
    2 <= len <= d && d % len == 0
  }

  /** The divisors of `d` in `from` .. d, in increasing order: the inner loop
      `for i in range(2, dist + 1): if dist % i == 0` started at `from`. */
  function DivisorsFrom(d: int, from: int): (r: seq<int>)
    requires from >= 2
    ensures forall a :: 0 <= a < |r| ==> from <= r[a] <= d
    ensures forall a, b :: 0 <= a < b < |r| ==> r[a] < r[b]
    decreases d - from
  {
    if from > d then []
    else
      var rest := DivisorsFrom(d, from + 1);
      if d % from == 0 then
        var r := [from] + rest;
        assert forall a :: 1 <= a < |r| ==> r[a] == rest[a - 1];
        r
      else rest
  }

  /** Each length in `from` .. d that divides `d` is listed exactly once, and
      nothing else is listed. */
  lemma {:induction false} DivisorsFromCount(d: int, from: int, len: int)
    requires from >= 2
    ensures multiset(DivisorsFrom(d, from))[len] == if from <= len && VotesFor(d, len) then 1 else 0
    decreases d - from
  {
    if from <= d {
      var rest := DivisorsFrom(d, from + 1);
      DivisorsFromCount(d, from + 1, len);
      if d % from == 0 {
        assert multiset(DivisorsFrom(d, from)) == multiset{from} + multiset(rest);
      } else {
        assert DivisorsFrom(d, from) == rest;
      }
    }
  }

  function Divisors(d: int): seq<int> {
    DivisorsFrom(d, 2)
  }

  /** How many of the distances vote for `len`. */
  function Voters(ds: seq<int>, len: int): nat {
    if |ds| == 0 then 0 else (if VotesFor(ds[0], len) then 1 else 0) + Voters(ds[1..], len)
  }

  /** The list named `gcds`: the divisors of every distance in turn (they
      are divisors, not greatest common divisors). Each length appears once
      per distance that votes for it. */
  function Votes(ds: seq<int>): seq<int> {
    if |ds| == 0 then [] else Divisors(ds[0]) + Votes(ds[1..])
  }

  lemma {:induction false} VotesCount(ds: seq<int>, len: int)
    ensures multiset(Votes(ds))[len] == Voters(ds, len)
  {
    if |ds| > 0 {
      DivisorsFromCount(ds[0], 2, len);
      VotesCount(ds[1..], len);
      assert multiset(Votes(ds)) == multiset(Divisors(ds[0])) + multiset(Votes(ds[1..]));
    }
  }

  /** One item of the dictionary `freq`: a candidate key length and its votes. */
  datatype Tally = Tally(length: int, count: nat)

  function Lengths(h: seq<Tally>): (r: seq<int>)
    ensures |r| == |h|
  {
    seq(|h|, i requires 0 <= i < |h| => h[i].length)
  }

  /** `freq[len]`, with the default 0 of the defaultdict. */
  function Lookup(h: seq<Tally>, len: int): nat {
    if |h| == 0 then 0 else if h[0].length == len then h[0].count else Lookup(h[1..], len)
  }

  /** Only a length that has an item can have a positive count. */
  lemma {:induction false} LookupPositive(h: seq<Tally>, len: int)
    ensures Lookup(h, len) > 0 ==> len in Lengths(h)
  {
    if |h| > 0 {
      LookupPositive(h[1..], len);
      assert Lengths(h) == [h[0].length] + Lengths(h[1..]);
    }
  }

  predicate DistinctLengths(h: seq<Tally>) {
    forall a, b :: 0 <= a < b < |h| ==> h[a].length != h[b].length
  }

  predicate PositiveCounts(h: seq<Tally>) {
    forall a :: 0 <= a < |h| ==> h[a].count >= 1
  }

  /** `freq[len] += 1`: an existing item keeps its place, a new one is
      inserted last, as in a Python dict. */
  function Bump(h: seq<Tally>, len: int): (r: seq<Tally>)
    ensures forall x :: Lookup(r, x) == Lookup(h, x) + (if x == len then 1 else 0)
    ensures Lengths(r) == if len in Lengths(h) then Lengths(h) else Lengths(h) + [len]
    ensures PositiveCounts(h) ==> PositiveCounts(r)
  {
    if |h| == 0 then [Tally(len, 1)]
    else if h[0].length == len then
      var r := [Tally(len, h[0].count + 1)] + h[1..];
      assert Lengths(h)[0] == len;
      assert Lengths(r) == Lengths(h);
      r
    else
      var r := [h[0]] + Bump(h[1..], len);
      assert Lengths(h) == [h[0].length] + Lengths(h[1..]);
      assert Lengths(r) == [h[0].length] + Lengths(Bump(h[1..], len));
      r
  }

  /** Position of the first occurrence of `x` in `s`, or |s| when absent. */
  function FirstIndex(s: seq<int>, x: int): (r: nat)
    ensures r <= |s|
    ensures r < |s| <==> x in s
    ensures r < |s| ==> s[r] == x
  {
    if |s| == 0 then 0 else if s[0] == x then 0 else 1 + FirstIndex(s[1..], x)
  }

  /** Items appear in the order their lengths first received a vote. */
  predicate InFirstVoteOrder(h: seq<Tally>, votes: seq<int>) {
    forall a, b :: 0 <= a < b < |h| ==> FirstIndex(votes, h[a].length) < FirstIndex(votes, h[b].length)
  }

  /** Sum of the counts of all items. */
  function TotalVotes(h: seq<Tally>): nat {
    if |h| == 0 then 0 else h[0].count + TotalVotes(h[1..])
  }

  lemma {:induction false} FirstIndexAppend(s: seq<int>, y: int, x: int)
    ensures x in s ==> FirstIndex(s + [y], x) == FirstIndex(s, x)
    ensures x !in s && x == y ==> FirstIndex(s + [y], x) == |s|
  {
    if |s| > 0 {
      assert (s + [y])[1..] == s[1..] + [y];
      FirstIndexAppend(s[1..], y, x);
    }
  }

  lemma {:induction false} BumpTotal(h: seq<Tally>, len: int)
    ensures TotalVotes(Bump(h, len)) == TotalVotes(h) + 1
  {
    if |h| > 0 && h[0].length != len {
      BumpTotal(h[1..], len);
      assert Bump(h, len)[1..] == Bump(h[1..], len);
    }
  }

  /** The dictionary `freq` after counting every vote, as its items in
      insertion order. */
  function Histogram(votes: seq<int>): (r: seq<Tally>)
    ensures forall x :: Lookup(r, x) == multiset(votes)[x]
    ensures forall x :: x in Lengths(r) <==> x in votes
    ensures PositiveCounts(r)
  {
    if |votes| == 0 then []
    else
      var front := votes[..|votes| - 1];
      assert votes == front + [votes[|votes| - 1]];
      Bump(Histogram(front), votes[|votes| - 1])
  }

  lemma BumpKeepsOrder(h: seq<Tally>, votes: seq<int>, v: int)
    requires DistinctLengths(h) && InFirstVoteOrder(h, votes)
    requires forall x :: x in Lengths(h) <==> x in votes
    ensures DistinctLengths(Bump(h, v)) && InFirstVoteOrder(Bump(h, v), votes + [v])
  {
    var r := Bump(h, v);
    assert forall a :: 0 <= a < |h| ==> Lengths(h)[a] == h[a].length;
    assert forall a :: 0 <= a < |r| ==> Lengths(r)[a] == r[a].length;
    forall x | x in Lengths(r)
      ensures x in votes ==> FirstIndex(votes + [v], x) == FirstIndex(votes, x)
      ensures x !in votes ==> x == v && FirstIndex(votes + [v], x) == |votes|
    {
      FirstIndexAppend(votes, v, x);
    }
    forall a, b | 0 <= a < b < |r|
      ensures r[a].length != r[b].length
      ensures FirstIndex(votes + [v], r[a].length) < FirstIndex(votes + [v], r[b].length)
    {
      assert Lengths(r)[a] == r[a].length && Lengths(r)[b] == r[b].length;
      if b < |h| {
        assert Lengths(h)[a] == r[a].length && Lengths(h)[b] == r[b].length;
        assert h[a].length == r[a].length && h[b].length == r[b].length;
      } else {
        assert r[b].length == v && v !in votes;
        assert r[a].length == h[a].length && h[a].length in Lengths(h);
      }
    }
  }

  /** The items of `freq` have distinct lengths, appear in the order their
      lengths first received a vote, and their counts add up to the number
      of votes. */
  lemma {:induction false} HistogramShape(votes: seq<int>)
    ensures DistinctLengths(Histogram(votes))
    ensures InFirstVoteOrder(Histogram(votes), votes)
    ensures TotalVotes(Histogram(votes)) == |votes|
  {
    if |votes| > 0 {
      var front := votes[..|votes| - 1];
      var v := votes[|votes| - 1];
      assert votes == front + [v];
      HistogramShape(front);
      BumpKeepsOrder(Histogram(front), front, v);
      BumpTotal(Histogram(front), v);
    }
  }

  /** The items with `n` votes, in their order in `s`. */
  function WithCount(s: seq<Tally>, n: int): seq<Tally> {
    if |s| == 0 then [] else (if s[0].count == n then [s[0]] else []) + WithCount(s[1..], n)
  }

  predicate ByCountDescending(s: seq<Tally>) {
    forall a, b :: 0 <= a < b < |s| ==> s[a].count >= s[b].count
  }

  lemma {:induction false} WithCountMembers(s: seq<Tally>, n: int, x: Tally)
    ensures x in WithCount(s, n) <==> x in s && x.count == n
  {
    if |s| > 0 {
      WithCountMembers(s[1..], n, x);
      assert s == [s[0]] + s[1..];
    }
  }

  /** Places `x` ahead of the first item with no more votes than it has. */
  function Insert(x: Tally, s: seq<Tally>): (r: seq<Tally>)
    ensures |r| == |s| + 1
    ensures ByCountDescending(s) ==> ByCountDescending(r)
    ensures r[0] == x || (|s| > 0 && r[0] == s[0])
  {
    if |s| == 0 || s[0].count <= x.count then [x] + s
    else
      var rest := Insert(x, s[1..]);
      var r := [s[0]] + rest;
      assert ByCountDescending(s) ==> forall a :: 0 <= a < |rest| ==> rest[0].count >= rest[a].count;
      r
  }

  lemma {:induction false} InsertPermutes(x: Tally, s: seq<Tally>)
    ensures multiset(Insert(x, s)) == multiset(s) + multiset{x}
  {
    if |s| > 0 && s[0].count > x.count {
      InsertPermutes(x, s[1..]);
      assert s == [s[0]] + s[1..];
      assert Insert(x, s) == [s[0]] + Insert(x, s[1..]);
    }
  }

  lemma {:induction false} InsertWithCount(x: Tally, s: seq<Tally>, n: int)
    ensures WithCount(Insert(x, s), n) == (if x.count == n then [x] else []) + WithCount(s, n)
  {
    if |s| > 0 && s[0].count > x.count {
      var rest := Insert(x, s[1..]);
      InsertWithCount(x, s[1..], n);
      assert Insert(x, s) == [s[0]] + rest;
      assert WithCount([s[0]] + rest, n) == (if s[0].count == n then [s[0]] else []) + WithCount(rest, n);
    } else {
      assert WithCount([x] + s, n) == (if x.count == n then [x] else []) + WithCount(s, n);
    }
  }

  /** `sorted(freq.items(), key=lambda x: x[1], reverse=True)`: a stable
      insertion sort, highest count first. */
  function SortByCount(h: seq<Tally>): (r: seq<Tally>)
    ensures ByCountDescending(r)
    ensures |r| == |h|
  {
    if |h| == 0 then [] else Insert(h[0], SortByCount(h[1..]))
  }

  lemma {:induction false} SortPermutes(h: seq<Tally>)
    ensures multiset(SortByCount(h)) == multiset(h)
  {
    if |h| > 0 {
      SortPermutes(h[1..]);
      InsertPermutes(h[0], SortByCount(h[1..]));
      assert h == [h[0]] + h[1..];
    }
  }

  /** The sort is stable: the items with any given count keep their
      relative order. */
  lemma {:induction false} SortIsStable(h: seq<Tally>, n: int)
    ensures WithCount(SortByCount(h), n) == WithCount(h, n)
  {
    if |h| > 0 {
      SortIsStable(h[1..], n);
      InsertWithCount(h[0], SortByCount(h[1..]), n);
    }
  }

  /** Descending order plus stability pin the result down: any two orderings
      with both properties are the same sequence. */
  lemma {:induction false} StableDescendingIsUnique(a: seq<Tally>, b: seq<Tally>)
    requires ByCountDescending(a) && ByCountDescending(b)
    requires forall n :: WithCount(a, n) == WithCount(b, n)
    ensures a == b
  {
    if |a| == 0 && |b| > 0 {
      assert false;
    } else if |a| > 0 && |b| == 0 {
      WithCountMembers(a, a[0].count, a[0]);
      assert false;
    } else if |a| > 0 {
      var m := a[0].count;
      WithCountMembers(a, m, a[0]);
      WithCountMembers(b, m, a[0]);
      WithCountMembers(b, b[0].count, b[0]);
      WithCountMembers(a, b[0].count, b[0]);
      assert b[0].count == m;
      assert WithCount(a, m) == [a[0]] + WithCount(a[1..], m);
      assert WithCount(b, m) == [b[0]] + WithCount(b[1..], m);
      forall n
        ensures WithCount(a[1..], n) == WithCount(b[1..], n)
      {
        if n == m {
          assert WithCount(a, m)[1..] == WithCount(a[1..], m);
          assert WithCount(b, m)[1..] == WithCount(b[1..], m);
        } else {
          assert WithCount(a, n) == WithCount(a[1..], n);
          assert WithCount(b, n) == WithCount(b[1..], n);
        }
      }
      StableDescendingIsUnique(a[1..], b[1..]);
      assert a == [a[0]] + a[1..] && b == [b[0]] + b[1..];
    }
  }

  lemma {:induction false} InsertTotal(x: Tally, s: seq<Tally>)
    ensures TotalVotes(Insert(x, s)) == TotalVotes(s) + x.count
  {
    if |s| > 0 && s[0].count > x.count {
      InsertTotal(x, s[1..]);
      assert Insert(x, s)[1..] == Insert(x, s[1..]);
    } else {
      assert Insert(x, s)[1..] == s;
    }
  }

  lemma {:induction false} SortTotal(h: seq<Tally>)
    ensures TotalVotes(SortByCount(h)) == TotalVotes(h)
  {
    if |h| > 0 {
      SortTotal(h[1..]);
      InsertTotal(h[0], SortByCount(h[1..]));
    }
  }

  lemma InsertDistinct(x: Tally, s: seq<Tally>)
    requires DistinctLengths(s)
    requires forall t :: t in s ==> t.length != x.length
    ensures DistinctLengths(Insert(x, s))
    decreases |s|
  {
    if |s| > 0 && s[0].count > x.count {
      InsertDistinct(x, s[1..]);
      InsertPermutes(x, s[1..]);
      var rest := Insert(x, s[1..]);
      assert Insert(x, s) == [s[0]] + rest;
      forall b | 0 <= b < |rest|
        ensures rest[b].length != s[0].length
      {
        assert rest[b] in multiset(rest);
      }
    }
  }

  lemma {:induction false} SortDistinct(h: seq<Tally>)
    requires DistinctLengths(h)
    ensures DistinctLengths(SortByCount(h))
  {
    if |h| > 0 {
      SortDistinct(h[1..]);
      SortPermutes(h[1..]);
      forall t | t in SortByCount(h[1..])
        ensures t.length != h[0].length
      {
        assert t in multiset(h[1..]);
      }
      InsertDistinct(h[0], SortByCount(h[1..]));
    }
  }

  lemma {:induction false} LookupMember(h: seq<Tally>, t: Tally)
    requires DistinctLengths(h) && t in h
    ensures Lookup(h, t.length) == t.count
  {
    if h[0] != t {
      assert t in h[1..];
      LookupMember(h[1..], t);
    }
  }

  /** Two items with the same count appear in the order their lengths
      first received a vote. */
  predicate TiesInFirstVoteOrder(s: seq<Tally>, votes: seq<int>) {
    forall a, b :: 0 <= a < b < |s| && s[a].count == s[b].count ==>
      FirstIndex(votes, s[a].length) < FirstIndex(votes, s[b].length)
  }

  lemma {:induction false} TiesGiveOrderedGroups(s: seq<Tally>, votes: seq<int>, n: int)
    requires TiesInFirstVoteOrder(s, votes)
    ensures InFirstVoteOrder(WithCount(s, n), votes)
  {
    if |s| > 0 {
      var w := WithCount(s[1..], n);
      TiesGiveOrderedGroups(s[1..], votes, n);
      if s[0].count == n {
        forall b | 0 <= b < |w|
          ensures FirstIndex(votes, s[0].length) < FirstIndex(votes, w[b].length)
        {
          WithCountMembers(s[1..], n, w[b]);
          var j :| 0 <= j < |s[1..]| && s[1..][j] == w[b];
          assert s[j + 1] == w[b];
        }
        assert WithCount(s, n) == [s[0]] + w;
      }
    }
  }

  lemma {:induction false} OrderedGroupsGiveTies(s: seq<Tally>, votes: seq<int>)
    requires forall n :: InFirstVoteOrder(WithCount(s, n), votes)
    ensures TiesInFirstVoteOrder(s, votes)
  {
    if |s| > 0 {
      forall n
        ensures InFirstVoteOrder(WithCount(s[1..], n), votes)
      {
        var whole := WithCount(s, n);
        assert InFirstVoteOrder(whole, votes);
        if s[0].count == n {
          assert whole == [s[0]] + WithCount(s[1..], n);
          assert forall a :: 0 <= a < |whole| - 1 ==> WithCount(s[1..], n)[a] == whole[a + 1];
        } else {
          assert whole == WithCount(s[1..], n);
        }
      }
      OrderedGroupsGiveTies(s[1..], votes);
      var m := s[0].count;
      var w := WithCount(s[1..], m);
      assert WithCount(s, m) == [s[0]] + w;
      forall b | 1 <= b < |s| && s[b].count == m
        ensures FirstIndex(votes, s[0].length) < FirstIndex(votes, s[b].length)
      {
        assert s[1..][b - 1] == s[b];
        WithCountMembers(s[1..], m, s[b]);
        var k :| 0 <= k < |w| && w[k] == s[b];
        assert InFirstVoteOrder(WithCount(s, m), votes);
        assert WithCount(s, m)[0] == s[0] && WithCount(s, m)[k + 1] == s[b];
      }
    }
  }

  /** The tally of a list of distances, sorted: everything `kasiski_method`
      does after the scan. */
  function Rank(ds: seq<int>): (r: seq<Tally>)
    ensures ByCountDescending(r)
  {
    SortByCount(Histogram(Votes(ds)))
  }

  /** `kasiski_method`: the candidate key lengths with their vote counts,
      most votes first. */
  function KasiskiMethod(c: seq<Byte>): (r: seq<Tally>)
    ensures ByCountDescending(r)
  {
    Rank(KasiskiScan.Distances(c))
  }

  lemma {:induction false} VotersPositive(ds: seq<int>, len: int)
    ensures Voters(ds, len) > 0 <==> exists k :: 0 <= k < |ds| && VotesFor(ds[k], len)
  {
    if |ds| > 0 {
      VotersPositive(ds[1..], len);
      if exists k :: 0 <= k < |ds[1..]| && VotesFor(ds[1..][k], len) {
        var k :| 0 <= k < |ds[1..]| && VotesFor(ds[1..][k], len);
        assert ds[k + 1] == ds[1..][k];
      }
      if exists k :: 0 <= k < |ds| && VotesFor(ds[k], len) {
        var k :| 0 <= k < |ds| && VotesFor(ds[k], len);
        if k > 0 {
          assert ds[1..][k - 1] == ds[k];
        }
      }
    }
  }

  lemma RankCounts(ds: seq<int>)
    ensures DistinctLengths(Rank(ds))
    ensures forall t :: t in Rank(ds) ==> t.count == Voters(ds, t.length) && t.count >= 1
    ensures TotalVotes(Rank(ds)) == |Votes(ds)|
  {
    var h := Histogram(Votes(ds));
    HistogramShape(Votes(ds));
    SortDistinct(h);
    SortPermutes(h);
    SortTotal(h);
    forall t | t in Rank(ds)
      ensures t.count == Voters(ds, t.length) && t.count >= 1
    {
      assert t in multiset(h);
      LookupMember(h, t);
      VotesCount(ds, t.length);
    }
  }

  lemma SortLengths(h: seq<Tally>, len: int)
    ensures len in Lengths(SortByCount(h)) <==> len in Lengths(h)
  {
    var r := SortByCount(h);
    SortPermutes(h);
    if len in Lengths(h) {
      var a :| 0 <= a < |h| && Lengths(h)[a] == len;
      assert h[a] in multiset(r);
      var i :| 0 <= i < |r| && r[i] == h[a];
      assert Lengths(r)[i] == len;
    }
    if len in Lengths(r) {
      var i :| 0 <= i < |r| && Lengths(r)[i] == len;
      assert r[i] in multiset(h);
      var a :| 0 <= a < |h| && h[a] == r[i];
      assert Lengths(h)[a] == len;
    }
  }

  lemma RankLengths(ds: seq<int>, len: int)
    ensures len in Lengths(Rank(ds)) <==> Voters(ds, len) > 0
  {
    SortLengths(Histogram(Votes(ds)), len);
    VotesCount(ds, len);
  }

  lemma RankTies(ds: seq<int>)
    ensures TiesInFirstVoteOrder(Rank(ds), Votes(ds))
  {
    var votes := Votes(ds);
    var h := Histogram(votes);
    HistogramShape(votes);
    forall n
      ensures InFirstVoteOrder(WithCount(Rank(ds), n), votes)
    {
      TiesGiveOrderedGroups(h, votes, n);
      SortIsStable(h, n);
    }
    OrderedGroupsGiveTies(Rank(ds), votes);
  }

  /** What `kasiski_method` returns: one item per length that some recorded
      distance is a multiple of, carrying the number of such distances, most
      votes first, equal counts in the order the lengths first got a vote. */
  lemma KasiskiRanking(c: seq<Byte>)
    ensures DistinctLengths(KasiskiMethod(c))
    ensures forall t :: t in KasiskiMethod(c) ==>
      t.count == Voters(KasiskiScan.Distances(c), t.length) && t.count >= 1
    ensures forall len :: len in Lengths(KasiskiMethod(c)) <==> Voters(KasiskiScan.Distances(c), len) > 0
    ensures forall t :: t in KasiskiMethod(c) ==> 2 <= t.length && t.length + KasiskiScan.Window < |c|
    ensures TiesInFirstVoteOrder(KasiskiMethod(c), Votes(KasiskiScan.Distances(c)))
    ensures TotalVotes(KasiskiMethod(c)) == |Votes(KasiskiScan.Distances(c))|
  {
    var ds := KasiskiScan.Distances(c);
    RankCounts(ds);
    RankTies(ds);
    forall len
      ensures len in Lengths(Rank(ds)) <==> Voters(ds, len) > 0
    {
      RankLengths(ds, len);
    }
    KasiskiScan.DistanceBounds(c);
    forall t | t in Rank(ds)
      ensures 2 <= t.length && t.length + KasiskiScan.Window < |c|
    {
      VotersPositive(ds, t.length);
    }
  }

  /** A text of fewer than seven bytes yields an empty ranking. */
  lemma ShortTextHasNoCandidates(c: seq<Byte>)
    requires |c| < 2 * KasiskiScan.Window + 1
    ensures KasiskiMethod(c) == []
  {
    KasiskiScan.ShortTextHasNoDistances(c);
  }

  lemma ThreeIsTheCommonDivisor(len: int)
    requires VotesFor(6, len) && VotesFor(9, len) && VotesFor(12, len)
    ensures len == 3
  {
  }

  lemma VotersOfSixNineTwelve(ds: seq<int>, len: int)
    requires ds == [6, 9, 12]
    ensures Voters(ds, len) ==
      (if VotesFor(6, len) then 1 else 0) + (if VotesFor(9, len) then 1 else 0) + (if VotesFor(12, len) then 1 else 0)
  {
    assert ds[1..] == [9, 12] && ds[1..][1..] == [12] && ds[1..][1..][1..] == [];
    assert Voters(ds[1..][1..], len) == (if VotesFor(12, len) then 1 else 0);
  }

  /** Distances 6, 9 and 12 vote 3 times for length 3 and fewer times for
      any other length, so length 3 heads the ranking. */
  lemma SixNineTwelveRanksThreeFirst(ds: seq<int>)
    requires ds == [6, 9, 12]
    ensures |Rank(ds)| > 0 && Rank(ds)[0] == Tally(3, 3)
  {
    var r := Rank(ds);
    RankCounts(ds);
    RankLengths(ds, 3);
    VotersOfSixNineTwelve(ds, 3);
    var i :| 0 <= i < |r| && Lengths(r)[i] == 3;
    assert r[i] in r && r[0] in r;
    var len := r[0].length;
    VotersOfSixNineTwelve(ds, len);
    if len != 3 {
      assert r[0].count >= r[i].count;
      ThreeIsTheCommonDivisor(len);
    }
  }
}
