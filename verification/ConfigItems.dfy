/** Config items as values: what merging, printing and parsing mean. */
module ConfigItems {
  import opened Bytes

  /** `cfg_list_item`: a 16-bit offset and at most 255 octets of data. */
  datatype Item = Item(offset: nat, data: seq<byte>) {
    predicate Ok() {
      offset < 0x1_0000 && |data| < 0x100
    }
  }

  predicate AllOk(items: seq<Item>) {
    forall i :: 0 <= i < |items| ==> items[i].Ok()
  }

  // ---- merging ----

  /** An extra item with the same offset overwrites a prefix if it is shorter and replaces otherwise. */
  function Override(base: Item, extra: Item): Item {
    if extra.offset != base.offset then base
    else if |extra.data| < |base.data| then Item(base.offset, extra.data + base.data[|extra.data|..])
    else extra
  }

  function OverrideAll(base: Item, extras: seq<Item>): Item {
    if |extras| == 0 then base else Override(OverrideAll(base, extras[..|extras| - 1]), extras[|extras| - 1])
  }

  predicate HasOffset(items: seq<Item>, offset: nat) {
    exists i :: 0 <= i < |items| && items[i].offset == offset
  }

  predicate UniqueOffsets(items: seq<Item>) {
    forall i, j :: 0 <= i < j < |items| ==> items[i].offset != items[j].offset
  }

  /** Each base item keeps its place and takes in all extras of its offset, in order. */
  function Overridden(base: seq<Item>, extras: seq<Item>): (r: seq<Item>)
    ensures |r| == |base|
  {
    seq(|base|, i requires 0 <= i < |base| => OverrideAll(base[i], extras))
  }

  /** One extra item against all base items: it takes the place of each item of its offset that is not
      longer, and where it finds another such item its former place is lost; it is written over the start of
      a longer one, and freed there. */
  function Applied(base: seq<Item>, x: Item): seq<Item> {
    if |base| == 0 then []
    else if base[0].offset != x.offset then [base[0]] + Applied(base[1..], x)
    else if |x.data| < |base[0].data| then [Override(base[0], x)] + base[1..]
    else if HasOffset(base[1..], x.offset) then Applied(base[1..], x)
    else [x] + base[1..]
  }

  /** All extras, in order. */
  function Folded(base: seq<Item>, extras: seq<Item>): seq<Item> {
    if |extras| == 0 then base else Applied(Folded(base, extras[..|extras| - 1]), extras[|extras| - 1])
  }

  /** Applying `x` frees it while the loop over `base` still has an item to compare it with. */
  predicate Stale(base: seq<Item>, x: Item) {
    exists p :: 0 <= p < |base| - 1 && base[p].offset == x.offset && |x.data| < |base[p].data|
  }

  /** One of the extras is shorter than the item it meets, and that item is not the last. */
  predicate ReadsFreed(base: seq<Item>, extras: seq<Item>) {
    exists k :: 0 <= k < |extras| && Stale(Folded(base, extras[..k]), extras[k])
  }

  lemma ReadsFreedSnoc(base: seq<Item>, extras: seq<Item>, x: Item)
    ensures ReadsFreed(base, extras + [x]) <==> ReadsFreed(base, extras) || Stale(Folded(base, extras), x)
  {
    hide Stale, Folded;
    var es := extras + [x];
    assert es[..|extras|] == extras && es[|extras|] == x;
    assert forall k :: 0 <= k < |extras| ==> es[..k] == extras[..k] && es[k] == extras[k];
  }

  lemma StaleAt(base: seq<Item>, x: Item, p: nat)
    requires p < |base| && base[p].offset == x.offset && |x.data| < |base[p].data|
    requires forall q :: 0 <= q < p ==> base[q].offset == x.offset ==> |x.data| >= |base[q].data|
    ensures Stale(base, x) <==> p < |base| - 1
  {}

  lemma NotStale(base: seq<Item>, x: Item)
    requires forall q :: 0 <= q < |base| ==> base[q].offset == x.offset ==> |x.data| >= |base[q].data|
    ensures !Stale(base, x)
  {}

  lemma {:induction false} NothingFreed(base: seq<Item>, extras: seq<Item>)
    requires |base| == 0 || |extras| == 0
    ensures !ReadsFreed(base, extras)
  {
    if |extras| == 0 {
    } else {
      forall k | 0 <= k < |extras|
        ensures Folded(base, extras[..k]) == []
      {
        NothingToFold(extras[..k]);
      }
    }
  }

  lemma {:induction false} NothingToFold(extras: seq<Item>)
    ensures Folded([], extras) == []
  {
    if |extras| == 0 {
    } else {
      NothingToFold(extras[..|extras| - 1]);
    }
  }

  lemma OverrideNone(base: seq<Item>, x: Item)
    requires forall q :: 0 <= q < |base| ==> base[q].offset != x.offset
    ensures Overridden(base, [x]) == base && !HasOffset(base, x.offset)
  {
    assert forall i :: 0 <= i < |base| ==> OverrideAll(base[i], [x]) == Override(OverrideAll(base[i], []), x);
  }

  lemma OverrideOne(base: seq<Item>, x: Item, m: nat)
    requires m < |base| && base[m].offset == x.offset
    requires forall q :: 0 <= q < |base| && q != m ==> base[q].offset != x.offset
    ensures Overridden(base, [x]) == base[m := Override(base[m], x)] && HasOffset(base, x.offset)
  {
    assert forall i :: 0 <= i < |base| ==> OverrideAll(base[i], [x]) == Override(OverrideAll(base[i], []), x);
  }

  /** The extras that no base item answers to, in order. */
  function Unmatched(base: seq<Item>, extras: seq<Item>): seq<Item> {
    if |extras| == 0 then []
    else
      var last := extras[|extras| - 1];
      Unmatched(base, extras[..|extras| - 1]) + if HasOffset(base, last.offset) then [] else [last]
  }

  function Merged(base: seq<Item>, extras: seq<Item>): seq<Item> {
    Folded(base, extras) + Unmatched(base, extras)
  }

  // ---- one extra ----

  /** The items of other offsets, in order. */
  function Others(base: seq<Item>, offset: nat): seq<Item> {
    if |base| == 0 then []
    else
      var last := base[|base| - 1];
      Others(base[..|base| - 1], offset) + if last.offset == offset then [] else [last]
  }

  /** Where the walk with `x` ends: at the first longer item of its offset, or else at the last one. */
  predicate EndsAt(base: seq<Item>, x: Item, p: nat) {
    && p < |base| && base[p].offset == x.offset
    && (forall q :: 0 <= q < p && base[q].offset == x.offset ==> |x.data| >= |base[q].data|)
    && (|x.data| < |base[p].data| || forall q :: p < q < |base| ==> base[q].offset != x.offset)
  }

  lemma {:induction false} OthersCons(item: Item, base: seq<Item>, offset: nat)
    ensures Others([item] + base, offset) == (if item.offset == offset then [] else [item]) + Others(base, offset)
  {
    if |base| == 0 {
      assert ([item] + base)[..0] == [];
    } else {
      assert ([item] + base)[..|base|] == [item] + base[..|base| - 1];
      OthersCons(item, base[..|base| - 1], offset);
    }
  }

  /** Of the items of its offset up to the end of the walk the extra leaves one place, the last; what comes
      after it stays as it is. */
  lemma {:induction false} AppliedAt(base: seq<Item>, x: Item, p: nat)
    requires EndsAt(base, x, p)
    ensures Applied(base, x) == Others(base[..p], x.offset) + [Override(base[p], x)] + base[p + 1..]
  {
    hide Override, Others;
    assert Others([], x.offset) == [] by {
      NoOthers(x.offset);
    }
    var rest := base[1..];
    if p == 0 {
      assert base[..0] == [];
      if |x.data| >= |base[0].data| {
        NotThere(rest, x.offset);
        LongOverride(base[0], x);
      }
    } else {
      TailSlices(base, p);
      AppliedAt(rest, x, p - 1);
      OthersCons(base[0], rest[..p - 1], x.offset);
    }
  }

  lemma TailSlices(base: seq<Item>, p: nat)
    requires 0 < p < |base|
    ensures
      var rest := base[1..];
      && rest[p - 1] == base[p] && rest[p..] == base[p + 1..] && base[..p] == [base[0]] + rest[..p - 1]
      && forall q :: 0 <= q < |rest| ==> rest[q] == base[q + 1]
  {}

  lemma NoOthers(offset: nat)
    ensures Others([], offset) == []
  {}

  lemma NotThere(items: seq<Item>, offset: nat)
    requires forall i :: 0 <= i < |items| ==> items[i].offset != offset
    ensures !HasOffset(items, offset)
  {}

  lemma LongOverride(item: Item, x: Item)
    requires item.offset == x.offset && |x.data| >= |item.data|
    ensures Override(item, x) == x
  {}

  lemma {:induction false} AppliedNone(base: seq<Item>, x: Item)
    requires !HasOffset(base, x.offset)
    ensures Applied(base, x) == base
  {
    if |base| == 0 {
    } else {
      assert forall i :: 0 <= i < |base[1..]| ==> base[1..][i] == base[i + 1];
      AppliedNone(base[1..], x);
    }
  }

  /** Where the walk ends is always defined. */
  lemma {:induction false} WalkEnds(base: seq<Item>, x: Item) returns (p: nat)
    requires HasOffset(base, x.offset)
    ensures EndsAt(base, x, p)
  {
    var rest := base[1..];
    assert forall i :: 0 <= i < |rest| ==> rest[i] == base[i + 1];
    if base[0].offset == x.offset && (|x.data| < |base[0].data| || !HasOffset(rest, x.offset)) {
      p := 0;
    } else {
      var q := WalkEnds(rest, x);
      p := q + 1;
    }
  }

  lemma {:induction false} OthersOf(base: seq<Item>, offset: nat)
    ensures |Others(base, offset)| <= |base| && !HasOffset(Others(base, offset), offset)
    ensures |Others(base, offset)| == |base| <==> !HasOffset(base, offset)
    ensures forall o :: o != offset ==> HasOffset(Others(base, offset), o) == HasOffset(base, o)
  {
    if |base| == 0 {
    } else {
      var init, last := base[..|base| - 1], base[|base| - 1];
      OthersOf(init, offset);
      assert base == init + [last];
      hide HasOffset;
      OffsetOfConcat(init, [last]);
      OffsetOfConcat(Others(init, offset), [last]);
      SameOffset(last, last);
      assert Others(init, offset) + [] == Others(init, offset);
    }
  }

  lemma {:induction false} OthersOk(base: seq<Item>, offset: nat)
    requires AllOk(base)
    ensures AllOk(Others(base, offset))
  {
    if |base| == 0 {
    } else {
      OthersOk(base[..|base| - 1], offset);
    }
  }

  lemma OffsetOfConcat(a: seq<Item>, b: seq<Item>)
    ensures forall o :: HasOffset(a + b, o) == (HasOffset(a, o) || HasOffset(b, o))
  {
    forall o
      ensures HasOffset(a + b, o) == (HasOffset(a, o) || HasOffset(b, o))
    {
      if HasOffset(a, o) {
        var i :| 0 <= i < |a| && a[i].offset == o;
        assert (a + b)[i].offset == o;
      }
      if HasOffset(b, o) {
        var i :| 0 <= i < |b| && b[i].offset == o;
        assert (a + b)[|a| + i].offset == o;
      }
    }
  }

  /** The base before, at and after the end of the walk. */
  lemma SplitAt(base: seq<Item>, p: nat)
    requires p < |base|
    ensures base == base[..p] + [base[p]] + base[p + 1..]
  {}

  /** The last item of this offset before position `p` is at `m`. */
  predicate LastPlace(base: seq<Item>, offset: nat, m: nat, p: nat) {
    m < p <= |base| && base[m].offset == offset && forall r :: m < r < p ==> base[r].offset != offset
  }

  lemma OthersStep(base: seq<Item>, offset: nat, p: nat)
    requires p < |base|
    ensures Others(base[..p + 1], offset)
         == Others(base[..p], offset) + if base[p].offset == offset then [] else [base[p]]
  {
    assert base[..p + 1][..p] == base[..p];
  }

  lemma {:induction false} OthersSkip(base: seq<Item>, offset: nat, m: nat, p: nat)
    requires LastPlace(base, offset, m, p)
    ensures Others(base[..p], offset) == Others(base[..m], offset) + base[m + 1..p]
    decreases p
  {
    hide Others;
    OthersStep(base, offset, p - 1);
    if p == m + 1 {
    } else {
      OthersSkip(base, offset, m, p - 1);
      assert base[m + 1..p] == base[m + 1..p - 1] + [base[p - 1]];
    }
  }

  /** The walk with `x` has come to position `p`: no longer item of its offset was met, and `x` has been put
      in the place at `m` last, if it was `placed`, with `c` other items before it. */
  predicate Walking(base: seq<Item>, x: Item, placed: bool, m: nat, c: nat, p: nat) {
    && p <= |base| && c <= |Others(base[..p], x.offset)|
    && (if placed then LastPlace(base, x.offset, m, p) && c == |Others(base[..m], x.offset)|
        else forall r :: 0 <= r < p ==> base[r].offset != x.offset)
    && (forall r :: 0 <= r < p && base[r].offset == x.offset ==> |x.data| >= |base[r].data|)
  }

  /** What is left of the base items when the walk has come to position `p`, the extra not counted. */
  function Left(base: seq<Item>, offset: nat, p: nat): seq<Item>
    requires p <= |base|
  {
    Others(base[..p], offset) + base[p..]
  }

  lemma LeftStep(base: seq<Item>, offset: nat, p: nat)
    requires p < |base|
    ensures
      var q := |Others(base[..p], offset)|;
      && q < |Left(base, offset, p)| && Left(base, offset, p)[q] == base[p]
      && if base[p].offset == offset then
           && |Others(base[..p + 1], offset)| == q
           && Left(base, offset, p + 1) == Left(base, offset, p)[..q] + Left(base, offset, p)[q + 1..]
         else
           |Others(base[..p + 1], offset)| == q + 1 && Left(base, offset, p + 1) == Left(base, offset, p)
  {
    hide Others;
    OthersStep(base, offset, p);
    assert base[p..] == [base[p]] + base[p + 1..];
  }

  lemma LeftAtEnds(base: seq<Item>, offset: nat)
    ensures Left(base, offset, 0) == base && Left(base, offset, |base|) == Others(base, offset)
    ensures |Others(base[..0], offset)| == 0
  {
    assert base[..0] == [] && base[..|base|] == base && base[|base|..] == [];
    assert [] + base[0..] == base && Others(base, offset) + [] == Others(base, offset);
  }

  lemma WalkBegins(base: seq<Item>, x: Item)
    ensures Walking(base, x, false, 0, 0, 0)
  {}

  lemma WalkBound(base: seq<Item>, x: Item, placed: bool, m: nat, c: nat, p: nat)
    requires Walking(base, x, placed, m, c, p)
    ensures c <= |Others(base[..p], x.offset)|
  {}

  lemma WalkPasses(base: seq<Item>, x: Item, placed: bool, m: nat, c: nat, p: nat)
    requires Walking(base, x, placed, m, c, p) && p < |base| && base[p].offset != x.offset
    ensures Walking(base, x, placed, m, c, p + 1)
  {
    hide Others;
    OthersStep(base, x.offset, p);
  }

  lemma WalkPuts(base: seq<Item>, x: Item, placed: bool, m: nat, c: nat, p: nat)
    requires Walking(base, x, placed, m, c, p) && p < |base|
    requires base[p].offset == x.offset && |x.data| >= |base[p].data|
    ensures Walking(base, x, true, p, |Others(base[..p], x.offset)|, p + 1)
  {
    hide Others;
    OthersStep(base, x.offset, p);
  }

  /** The walk ends at a longer item. */
  lemma WalkUpdates(base: seq<Item>, x: Item, placed: bool, m: nat, c: nat, p: nat)
    requires Walking(base, x, placed, m, c, p) && p < |base|
    requires base[p].offset == x.offset && |x.data| < |base[p].data|
    ensures
      var left := Others(base[..p], x.offset);
      HasOffset(base, x.offset) && Applied(base, x) == Left(base, x.offset, p)[|left| := Override(base[p], x)]
    ensures Stale(base, x) <==> p < |base| - 1
  {
    hide Others, Applied, Override;
    AppliedAt(base, x, p);
    StaleAt(base, x, p);
    assert base[p..] == [base[p]] + base[p + 1..];
  }

  /** The walk comes to the end of the list, with the extra in its last place if it found one. */
  lemma WalkEndsAll(base: seq<Item>, x: Item, placed: bool, m: nat, c: nat)
    requires Walking(base, x, placed, m, c, |base|)
    ensures !Stale(base, x) && HasOffset(base, x.offset) == placed && c <= |Others(base, x.offset)|
    ensures
      var left := Others(base, x.offset);
      Applied(base, x) == if placed then left[..c] + [x] + left[c..] else left
  {
    hide Others, Applied;
    assert base[..|base|] == base;
    NotStale(base, x);
    if placed {
      assert EndsAt(base, x, m);
      AppliedAt(base, x, m);
      LongOverride(base[m], x);
      OthersSkip(base, x.offset, m, |base|);
    } else {
      NotThere(base, x.offset);
      AppliedNone(base, x);
      OthersAll(base, x.offset);
    }
  }

  /** An extra keeps the set of offsets, and the items their bounds. */
  lemma AppliedKeeps(base: seq<Item>, x: Item)
    ensures forall o :: HasOffset(Applied(base, x), o) == HasOffset(base, o)
    ensures AllOk(base) && x.Ok() ==> AllOk(Applied(base, x))
  {
    hide Applied, HasOffset, Others;
    if HasOffset(base, x.offset) {
      var p := WalkEnds(base, x);
      AppliedAt(base, x, p);
      OthersOf(base[..p], x.offset);
      if AllOk(base) {
        OthersOk(base[..p], x.offset);
      }
      SplitAt(base, p);
      var item := Override(base[p], x);
      OffsetOfConcat(base[..p] + [base[p]], base[p + 1..]);
      OffsetOfConcat(base[..p], [base[p]]);
      OffsetOfConcat(Others(base[..p], x.offset) + [item], base[p + 1..]);
      OffsetOfConcat(Others(base[..p], x.offset), [item]);
      SameOffset(base[p], item);
    } else {
      AppliedNone(base, x);
    }
  }

  lemma SameOffset(a: Item, b: Item)
    requires a.offset == b.offset
    ensures forall o :: HasOffset([a], o) == HasOffset([b], o)
    ensures HasOffset([a], a.offset) && forall o :: HasOffset([a], o) ==> o == a.offset
  {
    assert [a][0].offset == a.offset && [b][0].offset == b.offset;
  }

  /** Two places of the offset come before the walk ends. */
  predicate Loses(base: seq<Item>, x: Item) {
    exists i, j :: 0 <= i < j < |base| && base[i].offset == x.offset && base[j].offset == x.offset
                && forall q :: 0 <= q <= i && base[q].offset == x.offset ==> |x.data| >= |base[q].data|
  }

  /** Every item keeps its place exactly unless the extra meets a second item of its offset after one that is
      not longer than it. */
  lemma PlacesAreKept(base: seq<Item>, x: Item)
    ensures |Applied(base, x)| == |base| <==> !Loses(base, x)
  {
    hide Applied, Others;
    if HasOffset(base, x.offset) {
      var p := WalkEnds(base, x);
      AppliedAt(base, x, p);
      OthersOf(base[..p], x.offset);
      if HasOffset(base[..p], x.offset) {
        var i :| 0 <= i < p && base[..p][i].offset == x.offset;
        assert base[i] == base[..p][i];
      } else {
        assert forall i :: 0 <= i < p ==> base[i] == base[..p][i];
      }
    } else {
      AppliedNone(base, x);
    }
  }

  // ---- all extras: when places are lost ----

  /** The first of several items of its offset. */
  predicate FirstOfMany(base: seq<Item>, i: nat) {
    && i < |base| && (forall q :: 0 <= q < i ==> base[q].offset != base[i].offset)
    && exists j :: i < j < |base| && base[j].offset == base[i].offset
  }

  /** What decides about the loss of places is the same in both lists. */
  ghost predicate SameShape(base: seq<Item>, r: seq<Item>) {
    && |r| == |base| && (forall i :: 0 <= i < |base| ==> r[i].offset == base[i].offset)
    && (forall i: nat :: FirstOfMany(base, i) ==> |r[i].data| == |base[i].data|)
  }

  /** Whether places are lost is seen at the first item of the offset. */
  lemma LosesAtFirst(base: seq<Item>, x: Item)
    ensures Loses(base, x) <==>
              exists i: nat :: FirstOfMany(base, i) && base[i].offset == x.offset && |x.data| >= |base[i].data|
  {
    if Loses(base, x) {
      var i, j :| 0 <= i < j < |base| && base[i].offset == x.offset && base[j].offset == x.offset
                && forall q :: 0 <= q <= i && base[q].offset == x.offset ==> |x.data| >= |base[q].data|;
      var f := FirstPlace(base, x.offset, i);
      assert FirstOfMany(base, f);
    }
    if i: nat :| FirstOfMany(base, i) && base[i].offset == x.offset && |x.data| >= |base[i].data| {
      var j :| i < j < |base| && base[j].offset == base[i].offset;
      assert Loses(base, x);
    }
  }

  lemma {:induction false} FirstPlace(base: seq<Item>, offset: nat, i: nat) returns (f: nat)
    requires i < |base| && base[i].offset == offset
    ensures f <= i && base[f].offset == offset && forall q :: 0 <= q < f ==> base[q].offset != offset
  {
    if q :| 0 <= q < i && base[q].offset == offset {
      f := FirstPlace(base, offset, q);
    } else {
      f := i;
    }
  }

  lemma ShapeDecides(base: seq<Item>, r: seq<Item>, x: Item)
    requires SameShape(base, r)
    ensures Loses(r, x) <==> Loses(base, x)
  {
    LosesAtFirst(base, x);
    LosesAtFirst(r, x);
    forall i: nat
      ensures FirstOfMany(r, i) <==> FirstOfMany(base, i)
    {
      SameFirst(base, r, i);
    }
  }

  lemma SameFirst(base: seq<Item>, r: seq<Item>, i: nat)
    requires |r| == |base| && forall k :: 0 <= k < |base| ==> r[k].offset == base[k].offset
    ensures FirstOfMany(r, i) <==> FirstOfMany(base, i)
  {
    if j :| i < j < |base| && base[j].offset == base[i].offset {
      assert r[j].offset == r[i].offset;
    }
    if j :| i < j < |r| && r[j].offset == r[i].offset {
      assert base[j].offset == base[i].offset;
    }
  }

  lemma LosesBefore(base: seq<Item>, x: Item, p: nat, q: nat)
    requires EndsAt(base, x, p) && q < p && base[q].offset == x.offset
    ensures Loses(base, x)
  {}

  /** An extra that loses no place keeps the shape. */
  lemma KeepsShape(base: seq<Item>, x: Item)
    requires !Loses(base, x)
    ensures SameShape(base, Applied(base, x))
  {
    hide Applied, Others, Loses;
    LosesAtFirst(base, x);
    if HasOffset(base, x.offset) {
      var p := WalkEnds(base, x);
      AppliedAt(base, x, p);
      forall q | 0 <= q < p
        ensures base[q].offset != x.offset
      {
        if base[q].offset == x.offset {
          LosesBefore(base, x, p, q);
        }
      }
      OthersAll(base[..p], x.offset);
      assert Applied(base, x) == base[p := Override(base[p], x)];
    } else {
      AppliedNone(base, x);
    }
  }

  lemma ShapeTransitive(a: seq<Item>, b: seq<Item>, c: seq<Item>)
    requires SameShape(a, b) && SameShape(b, c)
    ensures SameShape(a, c)
  {
    hide FirstOfMany;
    forall i: nat | FirstOfMany(a, i)
      ensures i < |a| && |c[i].data| == |a[i].data|
    {
      InRange(a, i);
      SameFirst(a, b, i);
    }
  }

  lemma InRange(base: seq<Item>, i: nat)
    requires FirstOfMany(base, i)
    ensures i < |base|
  {}

  lemma AppliedIsNotLonger(base: seq<Item>, x: Item)
    ensures |Applied(base, x)| <= |base|
  {
    hide Applied, Others;
    if HasOffset(base, x.offset) {
      var p := WalkEnds(base, x);
      AppliedAt(base, x, p);
      OthersOf(base[..p], x.offset);
    } else {
      AppliedNone(base, x);
    }
  }

  lemma {:induction false} ShapeWhileKept(base: seq<Item>, extras: seq<Item>)
    ensures |Folded(base, extras)| <= |base|
    ensures |Folded(base, extras)| == |base| ==> SameShape(base, Folded(base, extras))
    ensures |Folded(base, extras)| == |base| <==> forall k :: 0 <= k < |extras| ==> !Loses(base, extras[k])
  {
    hide Applied, Loses, SameShape;
    if |extras| == 0 {
      SameAsItself(base);
    } else {
      var init, x := extras[..|extras| - 1], extras[|extras| - 1];
      var r := Folded(base, init);
      ShapeWhileKept(base, init);
      AppliedIsNotLonger(r, x);
      PlacesAreKept(r, x);
      assert forall k :: 0 <= k < |init| ==> init[k] == extras[k];
      if |r| == |base| {
        ShapeDecides(base, r, x);
        if !Loses(r, x) {
          KeepsShape(r, x);
          ShapeTransitive(base, r, Applied(r, x));
        }
      }
    }
  }

  lemma SameAsItself(base: seq<Item>)
    ensures SameShape(base, base)
  {}

  /** The merge loses no base item exactly if none of the extras, by itself, would lose one. */
  lemma AllPlacesAreKept(base: seq<Item>, extras: seq<Item>)
    ensures |Folded(base, extras)| == |base| <==> forall k :: 0 <= k < |extras| ==> !Loses(base, extras[k])
  {
    hide Folded, Loses;
    ShapeWhileKept(base, extras);
  }

  // ---- base items of different offsets ----

  predicate AtMostOnce(base: seq<Item>, offset: nat) {
    forall i, j :: 0 <= i < j < |base| && base[i].offset == offset ==> base[j].offset != offset
  }

  lemma AppliedOnce(base: seq<Item>, x: Item)
    requires AtMostOnce(base, x.offset)
    ensures Applied(base, x) == Overridden(base, [x])
  {
    hide Applied, Others, Overridden;
    if HasOffset(base, x.offset) {
      var p := WalkEnds(base, x);
      AppliedAt(base, x, p);
      NotThere(base[..p], x.offset);
      OthersAll(base[..p], x.offset);
      OverrideOne(base, x, p);
      var item := Override(base[p], x);
      assert base[p := item] == base[..p] + [item] + base[p + 1..];
    } else {
      AppliedNone(base, x);
      OverrideNone(base, x);
    }
  }

  lemma {:induction false} OthersAll(base: seq<Item>, offset: nat)
    requires forall i :: 0 <= i < |base| ==> base[i].offset != offset
    ensures Others(base, offset) == base
  {
    if |base| == 0 {
    } else {
      OthersAll(base[..|base| - 1], offset);
    }
  }

  /** Where no extra has an offset that occurs twice in the base, each base item keeps its place and takes in
      all extras of its offset, in order. */
  lemma {:induction false} FoldedIsOverridden(base: seq<Item>, extras: seq<Item>)
    requires forall k :: 0 <= k < |extras| ==> AtMostOnce(base, extras[k].offset)
    ensures Folded(base, extras) == Overridden(base, extras)
  {
    hide Applied, Overridden;
    if |extras| == 0 {
      NothingOverridden(base);
      assert extras == [];
    } else {
      var init, x := extras[..|extras| - 1], extras[|extras| - 1];
      FoldedIsOverridden(base, init);
      OverriddenKeepsOffsets(base, init);
      OverriddenSnoc(base, init, x);
      AppliedOnce(Overridden(base, init), x);
      assert init + [x] == extras;
    }
  }

  lemma {:induction false} FoldedKeeps(base: seq<Item>, extras: seq<Item>)
    ensures forall o :: HasOffset(Folded(base, extras), o) == HasOffset(base, o)
    ensures AllOk(base) && AllOk(extras) ==> AllOk(Folded(base, extras))
  {
    hide Applied, HasOffset;
    if |extras| == 0 {
    } else {
      FoldedKeeps(base, extras[..|extras| - 1]);
      AppliedKeeps(Folded(base, extras[..|extras| - 1]), extras[|extras| - 1]);
    }
  }

  lemma FoldedSnoc(base: seq<Item>, extras: seq<Item>, x: Item)
    ensures Folded(base, extras + [x]) == Applied(Folded(base, extras), x)
    ensures HasOffset(Folded(base, extras), x.offset) == HasOffset(base, x.offset)
  {
    FoldedKeeps(base, extras);
    assert (extras + [x])[..|extras|] == extras;
  }

  lemma {:induction false} OverrideAllKeepsOffset(base: Item, extras: seq<Item>)
    ensures OverrideAll(base, extras).offset == base.offset
  {
    if |extras| == 0 {
    } else {
      OverrideAllKeepsOffset(base, extras[..|extras| - 1]);
    }
  }

  /** Merging keeps the offsets of the base and their order. */
  lemma OverriddenKeepsOffsets(base: seq<Item>, extras: seq<Item>)
    ensures forall i :: 0 <= i < |base| ==> Overridden(base, extras)[i].offset == base[i].offset
    ensures UniqueOffsets(base) ==> UniqueOffsets(Overridden(base, extras))
  {
    forall i | 0 <= i < |base|
      ensures Overridden(base, extras)[i].offset == base[i].offset
    {
      OverrideAllKeepsOffset(base[i], extras);
    }
  }

  /** The last matching extra that is not shorter than the item it meets decides the whole item. */
  lemma LongerExtraWins(base: Item, extras: seq<Item>)
    requires |extras| > 0
    ensures
      var e := extras[|extras| - 1];
      e.offset == base.offset && |e.data| >= |OverrideAll(base, extras[..|extras| - 1]).data| ==>
        OverrideAll(base, extras) == e
  {
    OverrideAllKeepsOffset(base, extras[..|extras| - 1]);
  }

  lemma {:induction false} OverrideAllLength(base: Item, extras: seq<Item>)
    ensures |OverrideAll(base, extras).data| >= |base.data|
  {
    if |extras| == 0 {
    } else {
      OverrideAllLength(base, extras[..|extras| - 1]);
    }
  }

  /** No octet is lost and none invented: every octet of a merged item comes, at its own position, from the
      last extra of that offset that reaches there, or else from the base item. */
  function Source(base: Item, extras: seq<Item>, k: nat): Option<byte> {
    if |extras| == 0 then if k < |base.data| then Some(base.data[k]) else None
    else
      var e := extras[|extras| - 1];
      if e.offset == base.offset && k < |e.data| then Some(e.data[k])
      else Source(base, extras[..|extras| - 1], k)
  }

  lemma {:induction false} MergedOctets(base: Item, extras: seq<Item>, k: nat)
    ensures
      var d := OverrideAll(base, extras).data;
      Source(base, extras, k) == if k < |d| then Some(d[k]) else None
  {
    if |extras| == 0 {
    } else {
      OverrideAllKeepsOffset(base, extras[..|extras| - 1]);
      MergedOctets(base, extras[..|extras| - 1], k);
    }
  }

  lemma OverriddenSnoc(base: seq<Item>, extras: seq<Item>, x: Item)
    ensures Overridden(Overridden(base, extras), [x]) == Overridden(base, extras + [x])
    ensures HasOffset(Overridden(base, extras), x.offset) == HasOffset(base, x.offset)
  {
    var r := Overridden(base, extras);
    OverriddenKeepsOffsets(base, extras);
    assert (extras + [x])[..|extras|] == extras;
    forall i | 0 <= i < |base|
      ensures OverrideAll(r[i], [x]) == OverrideAll(base[i], extras + [x])
    {
      assert [x][..0] == [];
    }
  }

  /** `tail` consists of the extras at the positions `ks`, in order: exactly those that no base item answers to. */
  ghost predicate Picks(tail: seq<Item>, base: seq<Item>, extras: seq<Item>, ks: seq<nat>) {
    && |ks| == |tail|
    && (forall i :: 0 <= i < |ks| ==> ks[i] < |extras| && tail[i] == extras[ks[i]])
    && (forall i, j :: 0 <= i < j < |ks| ==> ks[i] < ks[j])
    && (forall k :: 0 <= k < |extras| ==> (k in ks <==> !HasOffset(base, extras[k].offset)))
  }

  /** One item and an extra of its offset. */
  lemma OneOverride(a: Item, x: Item)
    requires a.offset == x.offset
    ensures Merged([a], [x]) == [Override(a, x)]
  {
    hide Applied, Folded, Unmatched;
    AppliedAt([a], x, 0);
    NoOthers(x.offset);
    assert [a][..0] == [] && [a][1..] == [] && [] + [Override(a, x)] + [] == [Override(a, x)];
    NothingOverridden([a]);
    FoldedSnoc([a], [], x);
    UnmatchedSnoc([a], [], x);
    assert [] + [x] == [x] && [a][0].offset == x.offset && HasOffset([a], x.offset);
  }

  lemma PicksMore(tail: seq<Item>, base: seq<Item>, extras: seq<Item>, last: Item, ks: seq<nat>)
    requires Picks(tail, base, extras, ks)
    ensures HasOffset(base, last.offset) ==> Picks(tail, base, extras + [last], ks)
    ensures !HasOffset(base, last.offset) ==> Picks(tail + [last], base, extras + [last], ks + [|extras|])
  {
    hide HasOffset;
    var es, more: seq<nat> := extras + [last], ks + [|extras|];
    assert forall k :: 0 <= k < |extras| ==> es[k] == extras[k];
    assert forall k :: k in more <==> k in ks || k == |extras|;
    assert |extras| !in ks;
  }

  lemma NothingPicked(base: seq<Item>)
    ensures Picks([], base, [], [])
  {}

  lemma {:induction false} UnmatchedPicks(base: seq<Item>, extras: seq<Item>)
    ensures exists ks :: Picks(Unmatched(base, extras), base, extras, ks)
  {
    hide HasOffset, Picks;
    if |extras| == 0 {
      NothingPicked(base);
      assert extras == [] && Picks(Unmatched(base, extras), base, extras, []);
    } else {
      var init, last := extras[..|extras| - 1], extras[|extras| - 1];
      UnmatchedPicks(base, init);
      var ks :| Picks(Unmatched(base, init), base, init, ks);
      assert init + [last] == extras;
      UnmatchedSnoc(base, init, last);
      PicksMore(Unmatched(base, init), base, init, last, ks);
      assert Unmatched(base, init) + [] == Unmatched(base, init);
    }
  }

  /** What a merge is: each base item keeps its place and takes every octet from the last extra of its offset
      that reaches there, or else from itself; then come the extras of other offsets, in order. */
  ghost predicate IsMergeOf(m: seq<Item>, base: seq<Item>, extras: seq<Item>) {
    && |m| >= |base|
    && (forall i :: 0 <= i < |base| ==> m[i].offset == base[i].offset && Octets(m[i], base[i], extras))
    && exists ks :: Picks(m[|base|..], base, extras, ks)
  }

  ghost predicate Octets(item: Item, base: Item, extras: seq<Item>) {
    forall k: nat :: Source(base, extras, k) == if k < |item.data| then Some(item.data[k]) else None
  }

  lemma MergedIsMerge(base: seq<Item>, extras: seq<Item>)
    requires forall k :: 0 <= k < |extras| ==> AtMostOnce(base, extras[k].offset)
    ensures IsMergeOf(Merged(base, extras), base, extras)
  {
    hide Folded, Unmatched, Picks, Source, OverrideAll;
    FoldedIsOverridden(base, extras);
    UnmatchedPicks(base, extras);
    var m := Merged(base, extras);
    assert m[|base|..] == Unmatched(base, extras);
    forall i | 0 <= i < |base|
      ensures m[i].offset == base[i].offset && Octets(m[i], base[i], extras)
    {
      assert m[i] == OverrideAll(base[i], extras);
      OverrideAllKeepsOffset(base[i], extras);
      forall k: nat
        ensures Source(base[i], extras, k) == if k < |m[i].data| then Some(m[i].data[k]) else None
      {
        MergedOctets(base[i], extras, k);
      }
    }
  }

  lemma UnmatchedSnoc(base: seq<Item>, extras: seq<Item>, x: Item)
    ensures Unmatched(base, extras + [x]) == Unmatched(base, extras) + if HasOffset(base, x.offset) then [] else [x]
  {
    assert (extras + [x])[..|extras|] == extras;
  }

  lemma NothingOverridden(base: seq<Item>)
    ensures Overridden(base, []) == base && Unmatched(base, []) == []
    ensures Folded(base, []) == base && Merged(base, []) == base
  {}

  lemma {:induction false} AllUnmatched(extras: seq<Item>)
    ensures Unmatched([], extras) == extras && Merged([], extras) == extras
  {
    hide Applied;
    NothingToFold(extras);
    if |extras| == 0 {
    } else {
      var init, last := extras[..|extras| - 1], extras[|extras| - 1];
      AllUnmatched(init);
      assert init + [last] == extras && [] + extras == extras;
    }
  }

  lemma {:induction false} UnmatchedOk(base: seq<Item>, extras: seq<Item>)
    requires AllOk(extras)
    ensures AllOk(Unmatched(base, extras))
  {
    if |extras| == 0 {
    } else {
      UnmatchedOk(base, extras[..|extras| - 1]);
    }
  }

  /** Merged items still fit their fields. */
  lemma MergedOk(base: seq<Item>, extras: seq<Item>)
    requires AllOk(base) && AllOk(extras)
    ensures AllOk(Merged(base, extras))
  {
    FoldedKeeps(base, extras);
    UnmatchedOk(base, extras);
  }
}
