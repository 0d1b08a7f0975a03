/**
 Where every row goes when rows of a tab are deleted and others are appended.

 Deleted slots are filled first by pending appends, from the top; the remaining ones by the
 bottom-most surviving rows, whose old places become blank.  This file is about positions
 only (0-based; position 0 is the header row).
 */
module SheetLayout {

  /** `del[i]` says that row `i` is deleted; `pending` is the number of pending appends. */
  datatype Layout = Layout(del: seq<bool>, pending: nat)

  /** What ends up at a position: an untouched row, a tail row moved into slot `into`, or an append. */
  datatype Source = Kept(row: nat) | Moved(row: nat, into: nat) | Fresh(index: nat)

  /** The positions in `lo..hi` whose mark is `want`, in ascending order. */
  function Pick(del: seq<bool>, lo: nat, hi: nat, want: bool): (s: seq<nat>)
    requires hi <= |del|
    decreases hi
  {
    if hi <= lo then []
    else Pick(del, lo, hi - 1, want) + (if del[hi - 1] == want then [hi - 1] else [])
  }

  lemma {:induction false} PickMembers(del: seq<bool>, lo: nat, hi: nat, want: bool)
    requires hi <= |del|
    ensures forall x :: x in Pick(del, lo, hi, want) <==> lo <= x < hi && del[x] == want
    decreases hi
  {
    if lo < hi {
      PickMembers(del, lo, hi - 1, want);
    }
  }

  /** Position `x` stands in the list at its rank: the number of equally marked positions before it. */
  lemma {:induction false} PickAtRank(del: seq<bool>, lo: nat, hi: nat, want: bool, x: nat)
    requires lo <= x < hi <= |del| && del[x] == want
    ensures |Pick(del, lo, x, want)| < |Pick(del, lo, hi, want)|
    ensures Pick(del, lo, hi, want)[|Pick(del, lo, x, want)|] == x
    decreases hi
  {
    if x < hi - 1 {
      PickAtRank(del, lo, hi - 1, want, x);
    }
  }

  /** Conversely, the element at index `j` has rank `j`. */
  lemma {:induction false} RankOfPicked(del: seq<bool>, lo: nat, hi: nat, want: bool, j: nat)
    requires hi <= |del| && j < |Pick(del, lo, hi, want)|
    ensures var x := Pick(del, lo, hi, want)[j];
            lo <= x < hi && del[x] == want && |Pick(del, lo, x, want)| == j
    decreases hi
  {
    if j < |Pick(del, lo, hi - 1, want)| {
      RankOfPicked(del, lo, hi - 1, want, j);
    }
  }

  lemma {:induction false} PickSplit(del: seq<bool>, lo: nat, mid: nat, hi: nat, want: bool)
    requires lo <= mid <= hi <= |del|
    ensures Pick(del, lo, hi, want) == Pick(del, lo, mid, want) + Pick(del, mid, hi, want)
    decreases hi
  {
    if mid < hi {
      PickSplit(del, lo, mid, hi - 1, want);
    }
  }

  lemma {:induction false} PickCounts(del: seq<bool>, lo: nat, hi: nat)
    requires lo <= hi <= |del|
    ensures |Pick(del, lo, hi, true)| + |Pick(del, lo, hi, false)| == hi - lo
    decreases hi
  {
    if lo < hi {
      PickCounts(del, lo, hi - 1);
    }
  }

  // ---- Sizes ----

  function Deleted(l: Layout): nat {
    |Pick(l.del, 0, |l.del|, true)|
  }

  /** Appends that go into deleted slots. */
  function Donated(l: Layout): nat {
    if Deleted(l) <= l.pending then Deleted(l) else l.pending
  }

  /** Rows at the bottom that end up blank. */
  function Blanked(l: Layout): nat {
    Deleted(l) - Donated(l)
  }

  predicate Proper(l: Layout) {
    l.del != [] && !l.del[0]
  }

  lemma BlankedFits(l: Layout)
    requires Proper(l)
    ensures Blanked(l) < |l.del|
  {
    PickCounts(l.del, 0, |l.del|);
    PickSplit(l.del, 0, 1, |l.del|, true);
    PickCounts(l.del, 1, |l.del|);
    assert Pick(l.del, 0, 1, true) == [] by {
      assert Pick(l.del, 0, 0, true) == [];
    }
  }

  /** The first blank position. */
  function BodyEnd(l: Layout): (e: nat)
    requires Proper(l)
    ensures 1 <= e <= |l.del|
  {
    BlankedFits(l);
    |l.del| - Blanked(l)
  }

  /** Deleted slots above the blank tail. */
  function Slots(l: Layout): seq<nat>
    requires Proper(l)
  {
    Pick(l.del, 0, BodyEnd(l), true)
  }

  /** Survivors inside the blank tail: they have to move. */
  function Donors(l: Layout): seq<nat>
    requires Proper(l)
  {
    Pick(l.del, BodyEnd(l), |l.del|, false)
  }

  /** Donated slots never fall in the tail, and tail survivors equal the remaining slots in number. */
  lemma SlotsMatchDonors(l: Layout)
    requires Proper(l)
    ensures |Slots(l)| == Donated(l) + |Donors(l)|
  {
    PickSplit(l.del, 0, BodyEnd(l), |l.del|, true);
    PickCounts(l.del, BodyEnd(l), |l.del|);
  }

  /** Rows of the final tab. */
  function Size(l: Layout): nat
    requires Proper(l)
  {
    BodyEnd(l) + (l.pending - Donated(l))
  }

  function Rank(l: Layout, p: nat): nat
    requires p <= |l.del|
  {
    |Pick(l.del, 0, p, true)|
  }

  function Place(l: Layout, p: nat): (s: Source)
    requires Proper(l) && p < Size(l)
  {
    if p >= BodyEnd(l) then Fresh(Donated(l) + (p - BodyEnd(l)))
    else if !l.del[p] then Kept(p)
    else if Rank(l, p) < Donated(l) then Fresh(Rank(l, p))
    else
      SlotsMatchDonors(l);
      PickAtRank(l.del, 0, BodyEnd(l), true, p);
      Moved(Donors(l)[Rank(l, p) - Donated(l)], p)
  }

  /** Only surviving rows and pending appends are placed, and a moved row comes from the tail. */
  lemma PlacedFrom(l: Layout, p: nat)
    requires Proper(l) && p < Size(l)
    ensures match Place(l, p)
            case Kept(i) => i == p < BodyEnd(l) && !l.del[i]
            case Moved(i, into) => into == p < BodyEnd(l) && l.del[p] && BodyEnd(l) <= i < |l.del| && !l.del[i]
            case Fresh(j) => j < l.pending
  {
    if p < BodyEnd(l) && l.del[p] && Rank(l, p) >= Donated(l) {
      SlotsMatchDonors(l);
      PickAtRank(l.del, 0, BodyEnd(l), true, p);
      RankOfPicked(l.del, BodyEnd(l), |l.del|, false, Rank(l, p) - Donated(l));
    }
  }

  // ---- Where a survivor and an append end up ----

  function Home(l: Layout, i: nat): (p: nat)
    requires Proper(l) && i < |l.del| && !l.del[i]
  {
    if i < BodyEnd(l) then i
    else
      SlotsMatchDonors(l);
      PickAtRank(l.del, BodyEnd(l), |l.del|, false, i);
      Slots(l)[Donated(l) + |Pick(l.del, BodyEnd(l), i, false)|]
  }

  /** Every surviving row is placed, where `Home` says. */
  lemma SurvivorPlaced(l: Layout, i: nat)
    requires Proper(l) && i < |l.del| && !l.del[i]
    ensures Home(l, i) < BodyEnd(l) <= Size(l)
    ensures Place(l, Home(l, i)) == if i < BodyEnd(l) then Kept(i) else Moved(i, Home(l, i))
  {
    if i >= BodyEnd(l) {
      SlotsMatchDonors(l);
      PickAtRank(l.del, BodyEnd(l), |l.del|, false, i);
      RankOfPicked(l.del, 0, BodyEnd(l), true, Donated(l) + |Pick(l.del, BodyEnd(l), i, false)|);
    }
  }

  function FreshHome(l: Layout, j: nat): (p: nat)
    requires Proper(l) && j < l.pending
  {
    SlotsMatchDonors(l);
    if j < Donated(l) then Slots(l)[j] else BodyEnd(l) + (j - Donated(l))
  }

  /** Every pending append is placed, where `FreshHome` says. */
  lemma FreshPlaced(l: Layout, j: nat)
    requires Proper(l) && j < l.pending
    ensures FreshHome(l, j) < Size(l)
    ensures Place(l, FreshHome(l, j)) == Fresh(j)
  {
    if j < Donated(l) {
      SlotsMatchDonors(l);
      RankOfPicked(l.del, 0, BodyEnd(l), true, j);
    }
  }

  /** No survivor and no append is placed twice. */
  lemma PlacedOnce(l: Layout, p: nat)
    requires Proper(l) && p < Size(l)
    ensures match Place(l, p)
            case Kept(i) => p == Home(l, i)
            case Moved(i, _) => BodyEnd(l) <= i < |l.del| && !l.del[i] && p == Home(l, i)
            case Fresh(j) => j < l.pending && p == FreshHome(l, j)
  {
    SlotsMatchDonors(l);
    PlacedFrom(l, p);
    if p < BodyEnd(l) && l.del[p] {
      PickAtRank(l.del, 0, BodyEnd(l), true, p);
      if Rank(l, p) >= Donated(l) {
        RankOfPicked(l.del, BodyEnd(l), |l.del|, false, Rank(l, p) - Donated(l));
      }
    }
  }

  /** An old row by its position, an append by its number after the old rows. */
  function Origin(l: Layout, source: Source): nat {
    match source
    case Kept(i) => i
    case Moved(i, _) => i
    case Fresh(j) => |l.del| + j
  }

  /** What the final positions hold, from the top. */
  function Origins(l: Layout): (s: seq<nat>)
    requires Proper(l)
    ensures |s| == Size(l) && forall p :: 0 <= p < |s| ==> s[p] == Origin(l, Place(l, p))
  {
    seq(Size(l), p requires 0 <= p < Size(l) => Origin(l, Place(l, p)))
  }

  function Appended(l: Layout): (s: seq<nat>)
    ensures |s| == l.pending && forall j :: 0 <= j < |s| ==> s[j] == |l.del| + j
  {
    seq(l.pending, j requires 0 <= j => |l.del| + j)
  }

  predicate NoRepeats(s: seq<nat>) {
    forall i, j :: 0 <= i < j < |s| ==> s[i] != s[j]
  }

  lemma {:induction false} CountedOnce(s: seq<nat>, x: nat)
    requires NoRepeats(s)
    ensures multiset(s)[x] == if x in s then 1 else 0
  {
    if s != [] {
      var front := s[..|s| - 1];
      CountedOnce(front, x);
      assert s == front + [s[|s| - 1]];
    }
  }

  lemma SameAsMultiset(a: seq<nat>, b: seq<nat>)
    requires NoRepeats(a) && NoRepeats(b) && forall x :: x in a <==> x in b
    ensures multiset(a) == multiset(b)
  {
    forall x: nat ensures multiset(a)[x] == multiset(b)[x] {
      CountedOnce(a, x);
      CountedOnce(b, x);
    }
  }

  lemma OriginsDiffer(l: Layout, p: nat, q: nat)
    requires Proper(l) && p < Size(l) && q < Size(l) && Origin(l, Place(l, p)) == Origin(l, Place(l, q))
    ensures p == q
  {
    hide Place, Home, FreshHome, Size;
    PlacedOnce(l, p);
    PlacedOnce(l, q);
    PlacedFrom(l, p);
    PlacedFrom(l, q);
  }

  lemma {:induction false} PickAscends(del: seq<bool>, lo: nat, hi: nat, want: bool, i: nat, j: nat)
    requires hi <= |del| && i < j < |Pick(del, lo, hi, want)|
    ensures Pick(del, lo, hi, want)[i] < Pick(del, lo, hi, want)[j]
  {
    RankOfPicked(del, lo, hi, want, i);
    RankOfPicked(del, lo, hi, want, j);
    var x, y := Pick(del, lo, hi, want)[i], Pick(del, lo, hi, want)[j];
    if y < x {
      PickAtRank(del, lo, x, want, y);
    }
  }

  /** The final positions hold exactly the surviving rows and the appends, as a multiset. */
  lemma PlacedAll(l: Layout)
    requires Proper(l)
    ensures multiset(Origins(l)) == multiset(Pick(l.del, 0, |l.del|, false) + Appended(l))
  {
    hide Pick, Place, Home, FreshHome, Size, Origin;
    var kept, all := Pick(l.del, 0, |l.del|, false), Pick(l.del, 0, |l.del|, false) + Appended(l);
    PickMembers(l.del, 0, |l.del|, false);
    forall i, j | 0 <= i < j < |all| ensures all[i] != all[j] {
      if j < |kept| {
        PickAscends(l.del, 0, |l.del|, false, i, j);
      } else if i < |kept| {
        assert kept[i] in kept;
      }
    }
    forall p, q | 0 <= p < q < |Origins(l)| ensures Origins(l)[p] != Origins(l)[q] {
      if Origins(l)[p] == Origins(l)[q] {
        OriginsDiffer(l, p, q);
      }
    }
    forall x ensures x in Origins(l) <==> x in all {
      PlacedIff(l, x);
    }
    SameAsMultiset(Origins(l), all);
  }

  lemma PlacedIff(l: Layout, x: nat)
    requires Proper(l)
    ensures x in Origins(l) <==> x in Pick(l.del, 0, |l.del|, false) + Appended(l)
  {
    hide Pick, Place, Home, FreshHome, Size;
    PickMembers(l.del, 0, |l.del|, false);
    if x in Origins(l) {
      var p: nat :| p < |Origins(l)| && Origins(l)[p] == x;
      PlacedFrom(l, p);
      if x >= |l.del| {
        assert Appended(l)[x - |l.del|] == x;
      }
    }
    if x in Pick(l.del, 0, |l.del|, false) {
      SurvivorPlaced(l, x);
      assert Origins(l)[Home(l, x)] == x;
    }
    if x in Appended(l) {
      FreshPlaced(l, x - |l.del|);
      assert Origins(l)[FreshHome(l, x - |l.del|)] == x;
    }
  }

  lemma RankUnique(del: seq<bool>, lo: nat, hi: nat, want: bool, p: nat, q: nat)
    requires lo <= p < hi <= |del| && lo <= q < hi && del[p] == want && del[q] == want
    requires |Pick(del, lo, p, want)| == |Pick(del, lo, q, want)|
    ensures p == q
  {
    PickAtRank(del, lo, hi, want, p);
    PickAtRank(del, lo, hi, want, q);
  }

  /** The deleted slots in ascending order: appends take the first ones, all above the tail. */
  lemma DonationTarget(l: Layout, a: nat)
    requires Proper(l) && a < Donated(l)
    ensures a < |Slots(l)| && Slots(l)[a] == Pick(l.del, 0, |l.del|, true)[a] == FreshHome(l, a)
    ensures var x := Slots(l)[a]; 1 <= x < BodyEnd(l) && l.del[x] && Rank(l, x) == a
  {
    SlotsMatchDonors(l);
    PickSplit(l.del, 0, BodyEnd(l), |l.del|, true);
    RankOfPicked(l.del, 0, BodyEnd(l), true, a);
  }

  /** The slot and the donor of tail swap `b`. */
  lemma SwapTarget(l: Layout, b: nat)
    requires Proper(l) && b < |Donors(l)|
    ensures Donated(l) + b < |Slots(l)|
    ensures var x := Slots(l)[Donated(l) + b]; 1 <= x < BodyEnd(l) && l.del[x] && Rank(l, x) == Donated(l) + b
    ensures var y := Donors(l)[b];
            BodyEnd(l) <= y < |l.del| && !l.del[y] && |Pick(l.del, BodyEnd(l), y, false)| == b
  {
    SlotsMatchDonors(l);
    RankOfPicked(l.del, 0, BodyEnd(l), true, Donated(l) + b);
    RankOfPicked(l.del, BodyEnd(l), |l.del|, false, b);
  }

  /** When appends remain, nothing is blanked and they follow the last row. */
  lemma BottomPlaced(l: Layout, j: nat)
    requires Proper(l) && Donated(l) + j < l.pending
    ensures BodyEnd(l) == |l.del| && |l.del| + j < Size(l)
    ensures Place(l, |l.del| + j) == Fresh(Donated(l) + j)
  {
  }

  lemma SizeWithRest(l: Layout)
    requires Proper(l)
    ensures Donated(l) <= l.pending
    ensures Size(l) == BodyEnd(l) + (l.pending - Donated(l))
    ensures Donated(l) < l.pending ==> BodyEnd(l) == |l.del|
  {
  }
}
