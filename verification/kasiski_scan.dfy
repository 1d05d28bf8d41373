/** The repetition scan of `kasiski_method` (KeyLengths.py): every window of
    three bytes except the last is compared with every later, non-overlapping
    window that is not the last either, and the distance of each matching
    pair is recorded. */
module KasiskiScan {
  import opened Base

  /** Length of the compared windows. */
  const Window: nat := 3

  /** A matching pair found by the scan: windows at `anchor` and `partner`. */
  datatype Repeat = Repeat(anchor: nat, partner: nat)

  /** The pair (i, j) lies in the ranges the two loops visit and its windows
      are equal. Anchors run over 0 .. n-4 and partners over i+3 .. n-4, so
      the window starting at n-3 never takes part. */
  predicate Repeats(c: seq<Byte>, i: int, j: int) {
    0 <= i && i + Window <= j && j + Window < |c| && c[i..i + Window] == c[j..j + Window]
  }

  /** Lexicographic order on pairs: the order in which the loops visit them. */
  predicate Before(p: Repeat, q: Repeat) {
    p.anchor < q.anchor || (p.anchor == q.anchor && p.partner < q.partner)
  }

  /** The inner loop for anchor `i`, from partner `j` on. */
  function PartnersFrom(c: seq<Byte>, i: nat, j: nat): (r: seq<Repeat>)
    requires i + Window <= j
    ensures forall p :: p in r <==> p.anchor == i && j <= p.partner && Repeats(c, p.anchor, p.partner)
    ensures forall a, b :: 0 <= a < b < |r| ==> r[a].anchor == r[b].anchor && r[a].partner < r[b].partner
    decreases |c| - j
  {
    if j + Window >= |c| then []
    else
      var rest := PartnersFrom(c, i, j + 1);
      if c[j..j + Window] == c[i..i + Window] then [Repeat(i, j)] + rest else rest
  }

  /** The outer loop from anchor `i` on. */
  function AnchorsFrom(c: seq<Byte>, i: nat): (r: seq<Repeat>)
    ensures forall p :: p in r <==> i <= p.anchor && Repeats(c, p.anchor, p.partner)
    ensures forall a, b :: 0 <= a < b < |r| ==> Before(r[a], r[b])
    decreases |c| - i
  {
    if i + Window >= |c| then []
    else
      var here := PartnersFrom(c, i, i + Window);
      var later := AnchorsFrom(c, i + 1);
      assert forall a, b :: 0 <= a < |here| && 0 <= b < |later| ==> here[a].anchor < later[b].anchor by {
        forall a, b | 0 <= a < |here| && 0 <= b < |later| ensures here[a].anchor < later[b].anchor {
          assert here[a] in here;
          assert later[b] in later;
        }
      }
      here + later
  }

  /** Every matching pair the loops visit, in the order they visit them. */
  function Pairs(c: seq<Byte>): (r: seq<Repeat>)
    ensures forall p :: p in r <==> Repeats(c, p.anchor, p.partner)
    ensures forall a, b :: 0 <= a < b < |r| ==> Before(r[a], r[b])
  {
    AnchorsFrom(c, 0)
  }

  /** The list `distances`: distance `k` belongs to the `k`-th matching pair
      the loops visit, so a distance is recorded once per pair and repeated
      distances are kept. */
  function Distances(c: seq<Byte>): (ds: seq<int>)
    ensures |ds| == |Pairs(c)|
    ensures forall k :: 0 <= k < |ds| ==> ds[k] == Pairs(c)[k].partner - Pairs(c)[k].anchor
    ensures forall k :: 0 <= k < |ds| ==> Repeats(c, Pairs(c)[k].anchor, Pairs(c)[k].anchor + ds[k])
  {
    var ps := Pairs(c);
    assert forall k :: 0 <= k < |ps| ==> ps[k] in ps;
    seq(|ps|, k requires 0 <= k < |ps| => Gap(ps[k]))
  }

  /** The distance between the windows of a pair. */
  function Gap(p: Repeat): int {
    p.partner - p.anchor
  }

  /** The list records no deduplicated set: a distance `d` occurs in it as
      many times as there are matching pairs `(i, j)` with `j - i == d`. */
  lemma DistanceMultiplicity(c: seq<Byte>, d: int)
    ensures multiset(Distances(c))[d] == |set p | p in Pairs(c) && Gap(p) == d|
    ensures forall p :: p in Pairs(c) <==> Repeats(c, p.anchor, p.partner)
  {
    var ps := Pairs(c);
    assert Distances(c) == seq(|ps|, k requires 0 <= k < |ps| => Gap(ps[k]));
    GapCount(ps, d);
  }

  lemma {:induction false} GapCount(ps: seq<Repeat>, d: int)
    requires forall a, b :: 0 <= a < b < |ps| ==> Before(ps[a], ps[b])
    ensures multiset(seq(|ps|, k requires 0 <= k < |ps| => Gap(ps[k])))[d] == |set p | p in ps && Gap(p) == d|
  {
    var gaps := seq(|ps|, k requires 0 <= k < |ps| => Gap(ps[k]));
    if |ps| > 0 {
      var rest := ps[1..];
      GapCount(rest, d);
      var restGaps := seq(|rest|, k requires 0 <= k < |rest| => Gap(rest[k]));
      assert gaps == [Gap(ps[0])] + restGaps;
      var here := set p | p in ps && Gap(p) == d;
      var there := set p | p in rest && Gap(p) == d;
      assert ps[0] !in rest by {
        forall k | 0 <= k < |rest|
          ensures rest[k] != ps[0]
        {
          assert Before(ps[0], ps[k + 1]);
        }
      }
      if Gap(ps[0]) == d {
        assert here == there + {ps[0]};
      } else {
        assert here == there;
      }
    }
  }

  /** Each recorded distance is at least the window length (windows never
      overlap) and at most n-4 (partners stop before the last window); each
      matching pair contributes its distance. */
  lemma DistanceBounds(c: seq<Byte>)
    ensures forall k :: 0 <= k < |Distances(c)| ==> Window <= Distances(c)[k] && Distances(c)[k] + Window < |c|
    ensures forall i, j :: Repeats(c, i, j) ==> j - i in Distances(c)
  {
    var ps := Pairs(c);
    forall k | 0 <= k < |ps|
      ensures Window <= Distances(c)[k] && Distances(c)[k] + Window < |c|
    {
      assert ps[k] in ps;
    }
    forall i, j | Repeats(c, i, j)
      ensures j - i in Distances(c)
    {
      var p := Repeat(i, j);
      assert p in ps;
      var k :| 0 <= k < |ps| && ps[k] == p;
      assert Distances(c)[k] == j - i;
    }
  }

  /** A text of fewer than seven bytes records no distance: a pair needs an
      anchor, a gap of three and a partner that is not the last window. Even
      "ABCABC", whose two windows are equal, gives nothing. */
  lemma ShortTextHasNoDistances(c: seq<Byte>)
    requires |c| < 2 * Window + 1
    ensures Distances(c) == []
  {
    NoPairsFrom(c, 0);
  }

  lemma {:induction false} NoPairsFrom(c: seq<Byte>, i: nat)
    requires |c| < 2 * Window + 1
    ensures AnchorsFrom(c, i) == []
    decreases |c| - i
  {
    if i + Window < |c| {
      NoPairsFrom(c, i + 1);
    }
  }
}
