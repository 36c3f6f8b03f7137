/** Reassembly of a fragmented datagram from offset ranges that arrive in any order (as in section
    3.2 of RFC 791). */
module Reassembly {
  type Offset = x: int | 0 <= x < 0x1_0000

  datatype Region = Region(beg: Offset, end: Offset, islast: bool)

  datatype Buffer = Buffer(main: Region, fragments: seq<Region>)

  const EMPTY := Buffer(Region(0, 0, false), [])

  datatype Absorbed = Keep | Drop(main: Region)

  /** What a stored fragment does to the main range: nothing, or it is used up. */
  function Absorb(main: Region, frag: Region): Absorbed {
    if main.end == frag.beg then Drop(main.(end := frag.end, islast := main.islast || frag.islast))
    else if main.beg == frag.end then Drop(main.(beg := frag.beg))
    else if main.beg <= frag.beg && main.end >= frag.end then Drop(main)
    else Keep
  }

  /** One pass over the stored fragments. */
  function Pass(b: Buffer): (r: Buffer)
    ensures |r.fragments| <= |b.fragments|
    decreases |b.fragments|
  {
    if b.fragments == [] then b
    else match Absorb(b.main, b.fragments[0])
      case Drop(main) => Pass(Buffer(main, b.fragments[1..]))
      case Keep =>
        var r := Pass(Buffer(b.main, b.fragments[1..]));
        r.(fragments := [b.fragments[0]] + r.fragments)
  }

  /** Passes until nothing is used up any more. */
  function MergeAll(b: Buffer): Buffer
    decreases |b.fragments|
  {
    var r := Pass(b);
    if |r.fragments| < |b.fragments| then MergeAll(r) else r
  }

  function Added(b: Buffer, frag: Region): Buffer {
    if b.main.end == frag.beg then
      MergeAll(b.(main := b.main.(end := frag.end, islast := b.main.islast || frag.islast)))
    else if b.main.beg == frag.end then MergeAll(b.(main := b.main.(beg := frag.beg)))
    else if b.main.end < frag.beg || b.main.beg > frag.end then b.(fragments := b.fragments + [frag])
    else b
  }

  predicate Complete(b: Buffer) {
    b.main.beg == 0 && b.main.islast
  }

  predicate Has(r: Region, x: int) {
    r.beg <= x < r.end
  }

  ghost predicate Within(r: Region, received: iset<int>) {
    r.beg <= r.end && forall x | Has(r, x) :: x in received
  }

  /** Everything in the buffer has been received. */
  ghost predicate AllWithin(b: Buffer, received: iset<int>) {
    Within(b.main, received) && forall f | f in b.fragments :: Within(f, received)
  }

  lemma {:induction false} PassCoversReceived(b: Buffer, received: iset<int>)
    requires AllWithin(b, received)
    ensures AllWithin(Pass(b), received)
    decreases |b.fragments|
  {
    if b.fragments != [] {
      var rest := b.fragments[1..];
      assert b.fragments[0] in b.fragments && forall f | f in rest :: f in b.fragments;
      match Absorb(b.main, b.fragments[0])
      case Drop(main) => PassCoversReceived(Buffer(main, rest), received);
      case Keep => PassCoversReceived(Buffer(b.main, rest), received);
    }
  }

  lemma {:induction false} MergeCoversReceived(b: Buffer, received: iset<int>)
    requires AllWithin(b, received)
    ensures AllWithin(MergeAll(b), received)
    decreases |b.fragments|
  {
    PassCoversReceived(b, received);
    if |Pass(b).fragments| < |b.fragments| {
      MergeCoversReceived(Pass(b), received);
    }
  }

  ghost function Range(r: Region): iset<int> {
    iset x | Has(r, x)
  }

  /** The main range only ever covers received offsets, whatever ranges arrive. */
  lemma AddedCoversReceived(b: Buffer, frag: Region, received: iset<int>)
    requires AllWithin(b, received) && frag.beg <= frag.end
    ensures AllWithin(Added(b, frag), received + Range(frag))
  {
    var now := received + Range(frag);
    assert AllWithin(b, now);
    if b.main.end == frag.beg {
      MergeCoversReceived(b.(main := b.main.(end := frag.end, islast := b.main.islast || frag.islast)), now);
    } else if b.main.beg == frag.end {
      MergeCoversReceived(b.(main := b.main.(beg := frag.beg)), now);
    }
  }

  function AddAll(b: Buffer, frags: seq<Region>): Buffer
    decreases |frags|
  {
    if frags == [] then b else Added(AddAll(b, frags[..|frags| - 1]), frags[|frags| - 1])
  }

  ghost function Received(frags: seq<Region>): iset<int> {
    iset f, x | f in frags && Has(f, x) :: x
  }

  /** After any arrivals, every offset of the main range has been received. */
  lemma {:induction false} MainIsReceived(frags: seq<Region>)
    requires forall f | f in frags :: f.beg <= f.end
    ensures AllWithin(AddAll(EMPTY, frags), Received(frags))
    decreases |frags|
  {
    if frags != [] {
      var before, last := frags[..|frags| - 1], frags[|frags| - 1];
      assert last in frags && forall f | f in before :: f in frags;
      MainIsReceived(before);
      AddedCoversReceived(AddAll(EMPTY, before), last, Received(before));
      assert frags == before + [last];
      assert Received(before) + Range(last) <= Received(frags);
      WithinMore(AddAll(EMPTY, frags), Received(before) + Range(last), Received(frags));
    }
  }

  lemma WithinMore(b: Buffer, some: iset<int>, more: iset<int>)
    requires AllWithin(b, some) && some <= more
    ensures AllWithin(b, more)
  {
  }

  /** A division of a datagram: the offsets where its pieces meet. */
  ghost predicate Division(cuts: seq<Offset>) {
    |cuts| >= 2 && cuts[0] == 0 && forall i, j | 0 <= i < j < |cuts| :: cuts[i] < cuts[j]
  }

  function Piece(cuts: seq<Offset>, i: nat): Region
    requires i + 1 < |cuts|
  {
    Region(cuts[i], cuts[i + 1], i + 2 == |cuts|)
  }

  /** The main range when exactly the first `k` pieces are in it. */
  function First(cuts: seq<Offset>, k: nat): Region
    requires k < |cuts|
  {
    Region(cuts[0], cuts[k], k + 1 == |cuts|)
  }

  ghost predicate ArePieces(cuts: seq<Offset>, arrived: set<nat>, frags: seq<Region>) {
    forall f | f in frags :: exists j: nat :: IsPiece(cuts, arrived, f, j)
  }

  ghost predicate IsPiece(cuts: seq<Offset>, arrived: set<nat>, f: Region, j: nat) {
    j in arrived && j + 1 < |cuts| && f == Piece(cuts, j)
  }

  /** The first `k` pieces are merged, the other arrived ones are stored. */
  ghost predicate Merging(cuts: seq<Offset>, arrived: set<nat>, b: Buffer, k: nat) {
    && k < |cuts| && b.main == First(cuts, k)
    && (forall j: nat | j < k :: j in arrived)
    && ArePieces(cuts, arrived, b.fragments)
    && (forall j: nat | j in arrived && k <= j :: j + 1 < |cuts| && Piece(cuts, j) in b.fragments)
  }

  lemma AbsorbPiece(cuts: seq<Offset>, k: nat, j: nat)
    requires Division(cuts) && k < |cuts| && j + 1 < |cuts|
    ensures Absorb(First(cuts, k), Piece(cuts, j)) ==
            if j == k then Drop(First(cuts, k + 1)) else if j < k then Drop(First(cuts, k)) else Keep
  {
    assert j + 1 <= k ==> cuts[j + 1] <= cuts[k];
  }

  /** One pass: some more pieces are merged, and only merged ones are gone. */
  lemma {:induction false} PassMerges(cuts: seq<Offset>, arrived: set<nat>, b: Buffer, k: nat) returns (next: nat)
    requires Division(cuts) && k < |cuts| && b.main == First(cuts, k) && ArePieces(cuts, arrived, b.fragments)
    ensures k <= next < |cuts| && Pass(b).main == First(cuts, next)
    ensures forall j: nat | k <= j < next :: Piece(cuts, j) in b.fragments && j in arrived
    ensures forall f | f in Pass(b).fragments :: f in b.fragments
    ensures forall j: nat | next <= j && j + 1 < |cuts| && Piece(cuts, j) in b.fragments ::
              Piece(cuts, j) in Pass(b).fragments
    ensures |Pass(b).fragments| == |b.fragments| ==>
      Pass(b) == b && next == k && forall j: nat | j <= k && j + 1 < |cuts| :: Piece(cuts, j) !in b.fragments
    decreases |b.fragments|
  {
    next := k;
    if b.fragments != [] {
      var f, rest := b.fragments[0], b.fragments[1..];
      assert f in b.fragments && b.fragments == [f] + rest;
      var i: nat :| IsPiece(cuts, arrived, f, i);
      assert forall g | g in rest :: g in b.fragments;
      PiecesDiffer(cuts, i);
      AbsorbPiece(cuts, k, i);
      match Absorb(b.main, f)
      case Drop(main) =>
        next := PassMerges(cuts, arrived, Buffer(main, rest), if i == k then k + 1 else k);
      case Keep =>
        next := PassMerges(cuts, arrived, Buffer(b.main, rest), k);
    }
  }

  lemma PiecesDiffer(cuts: seq<Offset>, i: nat)
    requires Division(cuts) && i + 1 < |cuts|
    ensures forall j: nat | j + 1 < |cuts| && Piece(cuts, j) == Piece(cuts, i) :: j == i
  {
  }

  lemma {:induction false} MergeMerges(cuts: seq<Offset>, arrived: set<nat>, b: Buffer, k: nat) returns (next: nat)
    requires Division(cuts) && Merging(cuts, arrived, b, k)
    ensures Merging(cuts, arrived, MergeAll(b), next) && next !in arrived
    decreases |b.fragments|
  {
    next := PassMerges(cuts, arrived, b, k);
    if |Pass(b).fragments| < |b.fragments| {
      next := MergeMerges(cuts, arrived, Pass(b), next);
    }
  }

  /** The pieces that have arrived, in any order and any number of times. */
  ghost function Arrived(order: seq<nat>): set<nat> {
    set i | i in order
  }

  predicate AreIndices(cuts: seq<Offset>, order: seq<nat>) {
    forall k | 0 <= k < |order| :: order[k] + 1 < |cuts|
  }

  function Pieces(cuts: seq<Offset>, order: seq<nat>): seq<Region>
    requires AreIndices(cuts, order)
  {
    if order == [] then [] else Pieces(cuts, order[..|order| - 1]) + [Piece(cuts, order[|order| - 1])]
  }

  /** One more piece, new or not. */
  lemma AddedPiece(cuts: seq<Offset>, arrived: set<nat>, b: Buffer, k: nat, i: nat) returns (next: nat)
    requires Division(cuts) && Merging(cuts, arrived, b, k) && k !in arrived && i + 1 < |cuts|
    ensures Merging(cuts, arrived + {i}, Added(b, Piece(cuts, i)), next) && next !in arrived + {i}
  {
    var piece, now := Piece(cuts, i), arrived + {i};
    assert cuts[i] < cuts[i + 1] && (i < k ==> cuts[i + 1] <= cuts[k]);
    forall f | f in b.fragments
      ensures exists j: nat :: IsPiece(cuts, now, f, j)
    {
      var j: nat :| IsPiece(cuts, arrived, f, j);
      assert IsPiece(cuts, now, f, j);
    }
    if i == k {
      var b1 := Buffer(First(cuts, k + 1), b.fragments);
      assert Merging(cuts, now, b1, k + 1);
      next := MergeMerges(cuts, now, b1, k + 1);
    } else {
      next := k;
      if i > k {
        assert IsPiece(cuts, now, piece, i);
        assert Merging(cuts, now, Added(b, piece), k);
      }
    }
  }

  lemma {:induction false} ArrivalsMerge(cuts: seq<Offset>, order: seq<nat>) returns (k: nat)
    requires Division(cuts) && AreIndices(cuts, order)
    ensures Merging(cuts, Arrived(order), AddAll(EMPTY, Pieces(cuts, order)), k) && k !in Arrived(order)
    decreases |order|
  {
    if order == [] {
      k := 0;
    } else {
      var before, i := order[..|order| - 1], order[|order| - 1];
      assert order == before + [i];
      k := ArrivalsMerge(cuts, before);
      k := AddedPiece(cuts, Arrived(before), AddAll(EMPTY, Pieces(cuts, before)), k, i);
      assert Arrived(order) == Arrived(before) + {i};
      var all := Pieces(cuts, order);
      assert all[..|all| - 1] == Pieces(cuts, before);
    }
  }

  /** However a division of a datagram arrives, in any order and with any duplicates, reassembly is
      complete exactly when every piece has arrived, and then the length is that of the datagram. */
  lemma CompleteExactly(cuts: seq<Offset>, order: seq<nat>)
    requires Division(cuts) && AreIndices(cuts, order)
    ensures var b := AddAll(EMPTY, Pieces(cuts, order));
      && (Complete(b) <==> forall i: nat | i + 1 < |cuts| :: i in order)
      && (Complete(b) ==> b.main.end == cuts[|cuts| - 1])
  {
    var k := ArrivalsMerge(cuts, order);
    var b := AddAll(EMPTY, Pieces(cuts, order));
    assert Complete(b) <==> k + 1 == |cuts|;
    if k + 1 < |cuts| {
      assert k !in order;
    } else {
      forall i: nat | i + 1 < |cuts|
        ensures i in order
      {
        assert i in Arrived(order);
      }
    }
  }

  /** Part of the main range. */
  predicate Inside(f: Region, main: Region) {
    main.beg <= f.beg && f.end <= main.end
  }

  /** No stored fragment could be merged or is already there. */
  ghost predicate Settled(b: Buffer) {
    forall f | f in b.fragments :: f.beg != b.main.end && f.end != b.main.beg && !Inside(f, b.main)
  }

  /** The main range has only grown. */
  predicate Grown(before: Region, after: Region) {
    after.beg <= before.beg && before.end <= after.end && (before.islast ==> after.islast)
  }

  /** Every fragment is still stored, or part of the main range, which keeps what the last one says about the end. */
  ghost predicate Kept(frags: seq<Region>, b: Buffer) {
    forall f | f in frags :: f in b.fragments || Inside(f, b.main)
  }

  lemma {:induction false} PassLosesNothing(b: Buffer)
    requires b.main.beg <= b.main.end && forall f | f in b.fragments :: f.beg <= f.end
    ensures var r := Pass(b);
      && Grown(b.main, r.main) && r.main.beg <= r.main.end && Kept(b.fragments, r)
      && (forall f | f in r.fragments :: f in b.fragments)
      && (|r.fragments| == |b.fragments| ==> r == b && Settled(b))
    decreases |b.fragments|
  {
    if b.fragments != [] {
      var f, rest := b.fragments[0], b.fragments[1..];
      assert b.fragments == [f] + rest && f in b.fragments && forall g | g in rest :: g in b.fragments;
      match Absorb(b.main, f)
      case Drop(main) => PassLosesNothing(Buffer(main, rest));
      case Keep => PassLosesNothing(Buffer(b.main, rest));
    }
  }

  lemma {:induction false} MergeSettles(b: Buffer)
    requires b.main.beg <= b.main.end && forall f | f in b.fragments :: f.beg <= f.end
    ensures var r := MergeAll(b);
      && Grown(b.main, r.main) && r.main.beg <= r.main.end && Kept(b.fragments, r) && Settled(r)
      && (forall f | f in r.fragments :: f in b.fragments)
    decreases |b.fragments|
  {
    hide Absorb;
    PassLosesNothing(b);
    var r := Pass(b);
    if |r.fragments| < |b.fragments| {
      MergeSettles(r);
    }
  }

  /** The range that arrives laps over an end of the main range, which the code takes for impossible. */
  predicate LapsOver(main: Region, frag: Region) {
    frag.beg < main.end && main.beg < frag.end && !Inside(frag, main)
  }

  /** For arbitrary ranges, also overlapping ones: what has arrived is merged as far as it goes.  The main range only
      grows, nothing that could be merged stays behind, and no range is lost, exactly unless it laps over the main
      range when it arrives. */
  lemma NothingIsLost(b: Buffer, frag: Region)
    requires b.main.beg <= b.main.end && frag.beg <= frag.end && Settled(b)
    requires forall f | f in b.fragments :: f.beg <= f.end
    ensures var r := Added(b, frag);
      && Grown(b.main, r.main) && r.main.beg <= r.main.end && Settled(r) && Kept(b.fragments, r)
      && (forall f | f in r.fragments :: f in b.fragments || f == frag)
      && (Kept([frag], r) <==> !LapsOver(b.main, frag) || frag in b.fragments)
  {
    if b.main.end == frag.beg {
      var c := b.(main := b.main.(end := frag.end, islast := b.main.islast || frag.islast));
      MergeSettles(c);
    } else if b.main.beg == frag.end {
      MergeSettles(b.(main := b.main.(beg := frag.beg)));
    }
  }

  /** After any arrivals nothing that could be merged is left. */
  lemma {:induction false} AlwaysSettled(frags: seq<Region>)
    requires forall f | f in frags :: f.beg <= f.end
    ensures var b := AddAll(EMPTY, frags);
      && Settled(b) && b.main.beg <= b.main.end
      && (forall f | f in b.fragments :: f in frags)
      && (b.main.islast ==> exists f :: f in frags && f.islast && f.end <= b.main.end)
    decreases |frags|
  {
    if frags != [] {
      var before, last := frags[..|frags| - 1], frags[|frags| - 1];
      assert frags == before + [last] && last in frags && forall f | f in before :: f in frags;
      AlwaysSettled(before);
      var b := AddAll(EMPTY, before);
      NothingIsLost(b, last);
      LastIsReceived(b, last, frags);
    }
  }

  ghost predicate LastIsIn(b: Buffer, frags: seq<Region>) {
    b.main.islast ==> exists f :: f in frags && f.islast && f.end <= b.main.end
  }

  lemma {:induction false} PassKeepsLast(b: Buffer, frags: seq<Region>)
    requires LastIsIn(b, frags) && b.main.beg <= b.main.end
    requires forall f | f in b.fragments :: f in frags && f.beg <= f.end
    ensures LastIsIn(Pass(b), frags)
    decreases |b.fragments|
  {
    if b.fragments != [] {
      var f, rest := b.fragments[0], b.fragments[1..];
      assert f in b.fragments && forall g | g in rest :: g in b.fragments;
      match Absorb(b.main, f)
      case Drop(main) => PassKeepsLast(Buffer(main, rest), frags);
      case Keep => PassKeepsLast(Buffer(b.main, rest), frags);
    }
  }

  lemma {:induction false} MergeKeepsLast(b: Buffer, frags: seq<Region>)
    requires LastIsIn(b, frags) && b.main.beg <= b.main.end
    requires forall f | f in b.fragments :: f in frags && f.beg <= f.end
    ensures LastIsIn(MergeAll(b), frags)
    decreases |b.fragments|
  {
    hide Absorb, LastIsIn;
    PassKeepsLast(b, frags);
    PassLosesNothing(b);
    if |Pass(b).fragments| < |b.fragments| {
      MergeKeepsLast(Pass(b), frags);
    }
  }

  lemma LastIsReceived(b: Buffer, frag: Region, frags: seq<Region>)
    requires b.main.beg <= b.main.end && frag.beg <= frag.end && LastIsIn(b, frags) && frag in frags
    requires forall f | f in b.fragments :: f in frags && f.beg <= f.end
    ensures LastIsIn(Added(b, frag), frags)
  {
    if b.main.end == frag.beg {
      MergeKeepsLast(b.(main := b.main.(end := frag.end, islast := b.main.islast || frag.islast)), frags);
    } else if b.main.beg == frag.end {
      MergeKeepsLast(b.(main := b.main.(beg := frag.beg)), frags);
    }
  }

  class ReassemblyBuffer {
    var main: Region
    var fragments: seq<Region>

    constructor ()
      ensures View() == EMPTY
    {
      main := Region(0, 0, false);
      fragments := [];
    }

    ghost function View(): Buffer
      reads this
    {
      Buffer(main, fragments)
    }

    /** True when everything from offset 0 to the last fragment is there. */
    method AddFragment(beg: Offset, end: Offset, islast: bool) returns (complete: bool)
      modifies this
      ensures View() == Added(old(View()), Region(beg, end, islast))
      ensures complete <==> Complete(View())
    {
      Merge(beg, end, islast);
      complete := main.beg == 0 && main.islast;
    }

    method Merge(beg: Offset, end: Offset, islast: bool)
      modifies this
      ensures View() == Added(old(View()), Region(beg, end, islast))
    {
      if main.end == beg {
        main := main.(end := end);
        if islast {
          main := main.(islast := true);
        }
        MergeFragments();
      } else if main.beg == end {
        main := main.(beg := beg);
        MergeFragments();
      } else if main.end < beg || main.beg > end {
        fragments := fragments + [Region(beg, end, islast)];
      }
    }

    /** Passes over the stored fragments until one uses up none. */
    method MergeFragments()
      modifies this
      ensures View() == MergeAll(old(View()))
    {
      hide Pass;
      var oncemore := true;
      while oncemore
        invariant oncemore ==> MergeAll(View()) == MergeAll(old(View()))
        invariant !oncemore ==> View() == MergeAll(old(View()))
        decreases |fragments|, oncemore
      {
        oncemore := MergeOnce();
      }
    }

    method MergeOnce() returns (oncemore: bool)
      modifies this
      ensures View() == Pass(old(View()))
      ensures oncemore <==> |fragments| < |old(fragments)|
    {
      hide Pass;
      oncemore := false;
      var i := 0;
      PassFrom(old(View()), View(), 0);
      while i < |fragments|
        invariant 0 <= i <= |fragments| <= |old(fragments)|
        invariant oncemore <==> |fragments| < |old(fragments)|
        invariant PassedTo(old(View()), View(), i)
        decreases |fragments| - i
      {
        ghost var was := View();
        var deleteit := false;
        var frag := fragments[i];
        if main.end == frag.beg {
          main := main.(end := frag.end);
          if frag.islast {
            main := main.(islast := true);
          }
          deleteit := true;
        } else if main.beg == frag.end {
          main := main.(beg := frag.beg);
          deleteit := true;
        } else if main.beg <= frag.beg && main.end >= frag.end {
          deleteit := true;
        }
        if deleteit {
          fragments := fragments[..i] + fragments[i + 1..];
          oncemore := true;
          PassDrops(old(View()), was, i, main);
        } else {
          PassKeeps(old(View()), was, i);
          i := i + 1;
        }
      }
      PassEnds(old(View()), View());
    }
  }

  /** Inside a pass: the fragments before `i` are kept, the pass goes on from there. */
  ghost predicate PassedTo(before: Buffer, now: Buffer, i: nat) {
    && i <= |now.fragments|
    && Pass(before) ==
       var r := Pass(now.(fragments := now.fragments[i..])); r.(fragments := now.fragments[..i] + r.fragments)
  }

  lemma PassFrom(before: Buffer, now: Buffer, i: nat)
    requires now == before && i == 0
    ensures PassedTo(before, now, i)
  {
    assert now.fragments[0..] == now.fragments && now.(fragments := now.fragments) == now;
  }

  lemma PassDrops(before: Buffer, now: Buffer, i: nat, main: Region)
    requires PassedTo(before, now, i) && i < |now.fragments| && Absorb(now.main, now.fragments[i]) == Drop(main)
    ensures PassedTo(before, Buffer(main, now.fragments[..i] + now.fragments[i + 1..]), i)
  {
    var left := now.fragments[..i] + now.fragments[i + 1..];
    assert left[i..] == now.fragments[i + 1..] == now.fragments[i..][1..] && left[..i] == now.fragments[..i];
  }

  lemma PassKeeps(before: Buffer, now: Buffer, i: nat)
    requires PassedTo(before, now, i) && i < |now.fragments| && Absorb(now.main, now.fragments[i]) == Keep
    ensures PassedTo(before, now, i + 1)
  {
    var r := Pass(now.(fragments := now.fragments[i + 1..]));
    assert now.fragments[i..][1..] == now.fragments[i + 1..];
    assert now.fragments[..i] + ([now.fragments[i]] + r.fragments) == now.fragments[..i + 1] + r.fragments;
  }

  lemma PassEnds(before: Buffer, now: Buffer)
    requires PassedTo(before, now, |now.fragments|)
    ensures Pass(before) == now
  {
    assert now.fragments[|now.fragments|..] == [] && now.fragments[..|now.fragments|] + [] == now.fragments;
  }
}
