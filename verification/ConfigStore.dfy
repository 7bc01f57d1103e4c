/** The two config lists of `rtb_fwc.c` and their merge in place. */
module ConfigStore {
  import opened Bytes
  import opened ConfigItems
  import opened ConfigRings

  // ---- one extra on its way through the base list ----

  /** The walk has come to position `p` of the base nodes `N` with values `B`: `others` are the nodes that are
      left of them, the extra not counted. */
  ghost predicate WalkedTo(others: seq<Node>, N: seq<Node>, B: seq<Item>, offset: nat, p: nat) {
    && p <= |B| == |N|
    && |Others(B[..p], offset)| <= |others| && others[|Others(B[..p], offset)|..] == N[p..]
  }

  lemma WalkStarts(N: seq<Node>, B: seq<Item>, offset: nat)
    requires |N| == |B|
    ensures WalkedTo(N, N, B, offset, 0)
  {
    LeftAtEnds(B, offset);
  }

  /** Past an item of another offset, or past one that is lost. */
  lemma WalkStep(others: seq<Node>, N: seq<Node>, B: seq<Item>, offset: nat, p: nat)
    requires WalkedTo(others, N, B, offset, p) && p < |B|
    ensures
      var q := |Others(B[..p], offset)|;
      && q < |others| && others[q] == N[p] && others[q + 1..] == N[p + 1..] && |others| - q == |N| - p
      && WalkedTo(if B[p].offset == offset then Removed(others, q) else others, N, B, offset, p + 1)
  {
    hide Others;
    var q := |Others(B[..p], offset)|;
    LeftStep(B, offset, p);
    assert others[q..][0] == N[p..][0];
    assert others[q..][1..] == others[q + 1..] && N[p..][1..] == N[p + 1..];
  }

  /** The base nodes are the `others` and, if it has been `placed`, the extra before number `c` of them. */
  ghost predicate BaseIs(base: seq<Node>, others: seq<Node>, placed: bool, c: nat, e: Node) {
    if placed then c <= |others| && base == others[..c] + [e] + others[c..] else base == others
  }

  lemma BaseWithout(base: seq<Node>, others: seq<Node>, placed: bool, c: nat, e: Node)
    requires BaseIs(base, others, placed, c, e)
    ensures placed ==> c < |base| && base[c] == e
    ensures others == if placed then Removed(base, c) else base
  {
    if placed {
      assert base[..c] == others[..c] && base[c + 1..] == others[c..];
    }
  }

  lemma BasePut(others: seq<Node>, q: nat, e: Node)
    requires q < |others|
    ensures BaseIs(others[q := e], Removed(others, q), true, q, e)
  {}

  lemma BaseValues(base: seq<Node>, others: seq<Node>, placed: bool, c: nat, e: Node)
    requires BaseIs(base, others, placed, c, e)
    ensures Values(base) ==
              if placed then Values(others)[..c] + [e.Value()] + Values(others)[c..] else Values(others)
  {
    hide Values;
    if placed {
      ValuesAround(others, c, e);
    }
  }

  lemma BaseUntouched(base: seq<Node>, c: nat, e: Node)
    ensures BaseIs(base, base, false, c, e)
  {}

  /** Where the walk stands in the ring, and what comes next there. */
  lemma BaseOnWalk(head: Node, base: seq<Node>, others: seq<Node>, N: seq<Node>, placed: bool, c: nat, e: Node,
                   q: nat, p: nat)
    requires BaseIs(base, others, placed, c, e) && (placed ==> c <= q)
    requires q < |others| && p < |N| && |others| - q == |N| - p && others[q] == N[p] && others[q + 1..] == N[p + 1..]
    ensures
      var i := if placed then q + 1 else q;
      i < |base| && base[i] == N[p] && NodeAt(head, base, i + 1) == NodeAt(head, N, p + 1)
  {
    if p + 1 < |N| {
      assert others[q + 1] == others[q + 1..][0] == N[p + 1..][0] == N[p + 1];
    }
  }

  class ConfigLists {
    /** The heads of `list_configs` and `list_extracfgs`. */
    const configs: Node
    const extracfgs: Node
    ghost var base: seq<Node>
    ghost var extra: seq<Node>
    /** The items that have been freed. */
    ghost var freed: set<Node>

    ghost predicate Apart()
      reads this
    {
      && configs != extracfgs
      && configs !in base && configs !in extra && configs !in freed
      && extracfgs !in base && extracfgs !in extra && extracfgs !in freed
      && NodeSet(base) !! NodeSet(extra)
      && NodeSet(base) !! freed && NodeSet(extra) !! freed
    }

    ghost predicate Valid()
      reads this, configs, extracfgs, base, extra
    {
      Apart() && Ring(configs, base) && Ring(extracfgs, extra)
    }

    ghost function Repr(): set<object>
      reads this
    {
      {this, configs, extracfgs} + NodeSet(base) + NodeSet(extra)
    }

    /** Every item node that was ever linked: in one of the lists, or freed. */
    ghost function AllNodes(): set<Node>
      reads this
    {
      NodeSet(base) + NodeSet(extra) + freed
    }

    /** `config_lists_init`. */
    constructor ()
      ensures Valid() && base == [] && extra == [] && freed == {} && fresh(Repr())
    {
      configs := new Node(0, []);
      extracfgs := new Node(0, []);
      base, extra, freed := [], [], {};
      new;
      InitListHead(configs);
      InitListHead(extracfgs);
    }

    lemma ExtraRing(k: nat)
      requires Valid() && k <= |extra|
      ensures extracfgs !in extra && extracfgs.next == NodeAt(extracfgs, extra, 0)
      ensures NodeAt(extracfgs, extra, k).next != null
      ensures k < |extra| ==> extra[k].next == NodeAt(extracfgs, extra, k + 1)
    {
      hide Distinct;
      RingStep(extracfgs, extra, k);
    }

    lemma BaseRing(k: nat)
      requires Valid() && k <= |base|
      ensures configs !in base && configs.next == NodeAt(configs, base, 0)
      ensures NodeAt(configs, base, k).next != null
      ensures k < |base| ==> base[k].next == NodeAt(configs, base, k + 1)
    {
      hide Distinct;
      RingStep(configs, base, k);
    }

    lemma NodesKnown()
      requires Valid()
      ensures forall n :: n in extra ==> n in AllNodes() && n !in base
      ensures forall n :: n in base ==> n in AllNodes()
      ensures {this, configs, extracfgs} <= Repr() && NodeSet(base) <= Repr() && NodeSet(extra) <= Repr()
      ensures forall n :: n in base || n in extra ==> n in Repr()
    {
      BothRings();
    }

    lemma EndsKnown()
      requires Valid()
      ensures configs.prev in base || configs.prev == configs
    {
      hide Distinct;
      RingEnds(configs, base);
    }

    lemma BothRings()
      requires Apart()
      ensures forall n :: n in extra ==> n !in base
    {
      assert forall n :: n in extra ==> n in NodeSet(extra);
    }

    /** `list_del`: the node at position `k` leaves its list, the base list if `placed` and the extras
        otherwise. */
    method Detach(e: Node, ghost placed: bool, ghost k: nat)
      requires Valid() && (if placed then k < |base| && base[k] == e else k < |extra| && extra[k] == e)
      modifies this`base, this`extra, configs`next, configs`prev, extracfgs`next, extracfgs`prev
      modifies NodeSet(base)`next, NodeSet(base)`prev, NodeSet(extra)`next, NodeSet(extra)`prev
      ensures Valid() && e !in AllNodes() && AllNodes() == old(AllNodes()) - {e}
      ensures e != configs && e != extracfgs && Repr() <= old(Repr())
      ensures base == if placed then Removed(old(base), k) else old(base)
      ensures extra == if placed then old(extra) else Removed(old(extra), k)
    {
      hide Ring, Distinct;
      ghost var head, items := if placed then configs else extracfgs, if placed then base else extra;
      RingIsDistinct(head, items);
      RemovedNodes(items, k);
      RingNeighbours(head, items, k);
      BothRings();
      ListDel(e, head, items, k);
      if placed {
        base := items[..k] + items[k + 1..];
      } else {
        extra := items[..k] + items[k + 1..];
      }
    }

    /** A shorter extra item, out of its list, overwrites the start of the base item and is freed. */
    method Update(e: Node, pos: Node, ghost p: nat)
      requires Valid() && e !in AllNodes() && e != configs && e != extracfgs
      requires p < |base| && base[p] == pos && |e.data| <= |pos.data|
      modifies this`freed, pos`data
      ensures Valid() && AllNodes() == old(AllNodes()) + {e} && Repr() == old(Repr())
      ensures Values(base) ==
                old(Values(base))[p := Item(old(pos.offset), old(e.data) + old(pos.data)[|old(e.data)|..])]
    {
      hide Ring, Values;
      RingIsDistinct(configs, base);
      pos.data := e.data + pos.data[|e.data|..];
      freed := freed + {e};
    }

    /** An extra item at least as long, out of its list, takes the place of the base item, which is freed. */
    method Replace(e: Node, pos: Node, ghost p: nat)
      requires Valid() && e !in AllNodes() && e != configs && e != extracfgs && p < |base| && base[p] == pos
      modifies this`freed, this`base, configs`next, configs`prev, NodeSet(base)`next, NodeSet(base)`prev
      modifies e`next, e`prev
      ensures Valid() && AllNodes() == old(AllNodes()) + {e} && Repr() <= old(Repr()) + {e}
      ensures base == old(base)[p := e] && Values(base) == old(Values(base))[p := e.Value()]
    {
      hide Ring, Distinct, Values;
      RingIsDistinct(configs, base);
      BothRings();
      ReplacedNodes(base, p, e);
      RingNeighbours(configs, base, p);
      ListReplaceInit(pos, e, configs, base, p);
      freed := freed + {pos};
      base := base[p := e];
    }

    /** An extra item meets a base item of its offset: the two branches of the inner loop. The extra comes
        from the extras or, if it has been `placed` before, from the base list; `others` are the base nodes
        once it has left, and `p` is the position of the base item among them. */
    method Meet(e: Node, pos: Node, ghost placed: bool, ghost k: nat, ghost others: seq<Node>, ghost p: nat)
      returns (updated: bool)
      requires Valid() && (if placed then k < |base| && base[k] == e else k < |extra| && extra[k] == e)
      requires others == if placed then Removed(base, k) else base
      requires p < |others| && others[p] == pos && e.offset == pos.offset
      modifies this`base, this`extra, this`freed, configs`next, configs`prev, extracfgs`next, extracfgs`prev
      modifies NodeSet(base)`next, NodeSet(base)`prev, NodeSet(extra)`next, NodeSet(extra)`prev, pos`data
      ensures Valid() && AllNodes() == old(AllNodes()) && Repr() <= old(Repr())
      ensures extra == if placed then old(extra) else Removed(old(extra), k)
      ensures updated == (old(|e.data|) < old(|pos.data|)) && base == if updated then others else others[p := e]
      ensures Values(base) == old(Values(others))[p := Override(old(pos.Value()), old(e.Value()))]
      ensures !updated ==> pos.data == old(pos.data)
    {
      hide Valid, Repr, AllNodes, Values;
      NodesKnown();
      updated := |e.data| < |pos.data|;
      Detach(e, placed, k);
      if updated {
        Update(e, pos, p);
      } else {
        Replace(e, pos, p);
      }
    }

    /** The same at position `p` of the walk: it ends there, or goes on with the extra in this place. */
    method MeetOnWalk(e: Node, pos: Node, ghost k: nat, ghost others: seq<Node>, ghost N: seq<Node>,
                      ghost B: seq<Item>, ghost placed: bool, ghost m: nat, ghost c: nat, ghost p: nat)
      returns (updated: bool, ghost left: seq<Node>)
      requires Valid() && p < |B| == |N| && WalkedTo(others, N, B, e.offset, p)
      requires Walking(B, e.Value(), placed, m, c, p)
      requires BaseIs(base, others, placed, c, e) && (!placed ==> k < |extra| && extra[k] == e)
      requires Values(others) == Left(B, e.offset, p) && pos == N[p] && e.offset == pos.offset
      modifies this`base, this`extra, this`freed, configs`next, configs`prev, extracfgs`next, extracfgs`prev
      modifies NodeSet(base)`next, NodeSet(base)`prev, NodeSet(extra)`next, NodeSet(extra)`prev, pos`data
      ensures Valid() && AllNodes() == old(AllNodes()) && Repr() <= old(Repr())
      ensures extra == if placed then old(extra) else Removed(old(extra), k)
      ensures updated ==>
                && HasOffset(B, old(e.offset)) && Values(base) == Applied(B, old(e.Value()))
                && (Stale(B, old(e.Value())) <==> p < |B| - 1)
      ensures !updated ==>
                && pos.data == old(pos.data)
                && WalkedTo(left, N, B, e.offset, p + 1) && Values(left) == Left(B, e.offset, p + 1)
                && Walking(B, old(e.Value()), true, p, |Others(B[..p], e.offset)|, p + 1)
                && BaseIs(base, left, true, |Others(B[..p], e.offset)|, e)
    {
      hide Valid, Repr, Applied, Values, AllNodes, HasOffset, Stale, Others, Left, Walking, WalkedTo, BaseIs, Removed;
      ghost var x, q := e.Value(), |Others(B[..p], e.offset)|;
      ReadyToMeet(e, others, N, B, placed, c, p);
      left := Removed(others, q);
      ghost var V := Values(left);
      updated := Meet(e, pos, placed, if placed then c else k, others, q);
      if updated {
        WalkUpdates(B, x, placed, m, c, p);
      } else {
        WalkPuts(B, x, placed, m, c, p);
        assert Values(left) == V;
      }
    }

    /** What holds before the two meet at position `p`, of the nodes and of what will be left of them. */
    lemma ReadyToMeet(e: Node, others: seq<Node>, N: seq<Node>, B: seq<Item>, placed: bool, c: nat, p: nat)
      requires p < |B| == |N| && WalkedTo(others, N, B, e.offset, p) && BaseIs(base, others, placed, c, e)
      requires Values(others) == Left(B, e.offset, p) && e.offset == N[p].offset
      ensures
        var q := |Others(B[..p], e.offset)|;
        && q < |others| && others[q] == N[p] && N[p].Value() == B[p]
        && (placed ==> c < |base| && base[c] == e) && others == (if placed then Removed(base, c) else base)
        && BaseIs(others[q := e], Removed(others, q), true, q, e)
        && WalkedTo(Removed(others, q), N, B, e.offset, p + 1)
        && Values(Removed(others, q)) == Left(B, e.offset, p + 1)
    {
      hide Others, Left, Values, WalkedTo, BaseIs, Removed;
      var q := |Others(B[..p], e.offset)|;
      WalkStep(others, N, B, e.offset, p);
      LeftStep(B, e.offset, p);
      ValuesRemoved(others, q);
      assert N[p].Value() == Values(others)[q] == B[p];
      BaseWithout(base, others, placed, c, e);
      BasePut(others, q, e);
    }

    /** One extra item against every base item: the inner loop of `merge_configs`. After a shorter extra was
        freed there is another base item to compare it with exactly if `stale`. */
    method ApplyExtra(e: Node, ghost k: nat) returns (stale: bool)
      requires Valid() && k < |extra| && extra[k] == e
      modifies Repr()
      ensures Valid() && AllNodes() == old(AllNodes()) && Repr() <= old(Repr())
      ensures Values(base) == Applied(old(Values(base)), old(e.Value()))
      ensures extra == (if HasOffset(old(Values(base)), old(e.offset)) then Removed(old(extra), k)
                        else old(extra))
      ensures stale <==> Stale(old(Values(base)), old(e.Value()))
      ensures forall n :: n in old(extra) ==> n.Value() == old(n.Value())
    {
      hide Valid, Repr, Applied, Values, AllNodes, HasOffset, Stale, Others, Left, WalkedTo, Walking, BaseIs,
        NodeSet;
      stale := false;
      ghost var B, x, N, E := Values(base), e.Value(), base, extra;
      ghost var others: seq<Node>, placed, c: nat, m: nat, p: nat := base, false, 0, 0, 0;
      BaseRing(0);
      var pos := configs.next;
      var next := pos.next;
      NodesKnown();
      WalkStarts(N, B, x.offset);
      LeftAtEnds(B, x.offset);
      WalkBegins(B, x);
      BaseUntouched(base, c, e);
      while pos != configs
        invariant Valid() && AllNodes() == old(AllNodes()) && Repr() <= old(Repr()) && e.Value() == x
        invariant p <= |B| == |N| && WalkedTo(others, N, B, x.offset, p)
        invariant Walking(B, x, placed, m, c, p) && Values(others) == Left(B, x.offset, p)
        invariant BaseIs(base, others, placed, c, e)
        invariant extra == if placed then Removed(E, k) else E
        invariant pos == NodeAt(configs, N, p) && next == pos.next
        invariant forall n :: n in E ==> n.Value() == old(n.Value())
        decreases |B| - p
      {
        ghost var q := |Others(B[..p], x.offset)|;
        WalkStep(others, N, B, x.offset, p);
        LeftStep(B, x.offset, p);
        assert pos == N[p] && pos.Value() == Values(others)[q] == B[p];
        WalkBound(B, x, placed, m, c, p);
        BaseOnWalk(configs, base, others, N, placed, c, e, q, p);
        BaseRing(if placed then q + 1 else q);
        if e.offset == pos.offset {
          NodesKnown();
          var updated;
          ghost var left;
          updated, left := MeetOnWalk(e, pos, k, others, N, B, placed, m, c, p);
          if updated {
            return next != configs;
          }
          m, c, placed, others := p, q, true, left;
        } else {
          WalkPasses(B, x, placed, m, c, p);
        }
        pos := next;
        p := p + 1;
        next := pos.next;
      }
      WalkEndsAll(B, x, placed, m, c);
      BaseValues(base, others, placed, c, e);
    }

    /** A node that is in neither list goes to the end of the base list. */
    method AddTail(e: Node)
      requires Valid() && e !in AllNodes() && e != configs && e != extracfgs
      modifies this`base, configs`prev, configs.prev`next, e`next, e`prev
      ensures Valid() && base == old(base) + [e] && NodeSet(base) == old(NodeSet(base)) + {e}
      ensures AllNodes() == old(AllNodes()) + {e} && Repr() == old(Repr()) + {e}
    {
      hide Ring, Distinct;
      BothRings();
      RingEnds(configs, base);
      NodesConcat(base, [e]);
      ListAddTail(e, configs, base);
      base := base + [e];
    }

    /** A new item at the end of the base list. */
    method AddConfig(offset: nat, data: seq<byte>)
      requires Valid()
      modifies Repr()
      ensures Valid() && extra == old(extra) && freed == old(freed) && fresh(Repr() - old(Repr()))
      ensures Values(base) == old(Values(base)) + [Item(offset, data)] && Values(extra) == old(Values(extra))
    {
      hide Ring, Distinct, Values;
      BothRings();
      RingEnds(configs, base);
      var item := new Node(offset, data);
      ValuesConcat(base, [item]);
      assert Values([item]) == [item.Value()];
      ghost var V := Values(base + [item]);
      AddTail(item);
      assert Values(base) == V;
    }

    /** The first extra item goes to the end of the base list. */
    method MoveFirst(e: Node)
      requires Valid() && |extra| > 0 && extra[0] == e
      modifies Repr()
      ensures Valid() && AllNodes() == old(AllNodes()) && Repr() <= old(Repr())
      ensures base == old(base) + [e] && extra == old(extra)[1..]
      ensures Values(base) == old(Values(base)) + [old(e.Value())] && Values(extra) == old(Values(extra))[1..]
    {
      hide Valid, Repr, AllNodes, Values, NodeSet, Removed;
      ghost var tail, longer := extra[1..], base + [e];
      NodesKnown();
      ValuesTail(extra);
      ValuesSnoc(base, e);
      ghost var V, W := Values(tail), Values(longer);
      Detach(e, false, 0);
      assert extra == tail && base + [e] == longer;
      EndsKnown();
      AddTail(e);
      assert Values(extra) == V && Values(base) == W;
    }

    /** All extras join the base list at once: `list_splice_tail`, and the emptied head starts again. */
    method SpliceExtras()
      requires Valid()
      modifies Repr()
      ensures Valid() && AllNodes() == old(AllNodes()) && Repr() <= old(Repr())
      ensures base == old(base) + old(extra) && extra == [] && Values(base) == old(Values(base) + Values(extra))
    {
      hide Ring, Distinct, Values;
      BothRings();
      RingEnds(configs, base);
      RingEnds(extracfgs, extra);
      SpliceAndInit(extracfgs, configs, extra, base);
      NodesConcat(base, extra);
      ValuesConcat(base, extra);
      base := base + extra;
      extra := [];
    }

    /** One turn of the outer loop: of the extras, the first `n` are known to match no base item. */
    method OverrideNext(e: Node, ghost B: seq<Item>, ghost done: seq<Item>, ghost n: nat)
      returns (ghost m: nat, stale: bool)
      requires Valid() && n < |extra| && extra[n] == e
      requires Values(base) == Folded(B, done) && Values(extra[..n]) == Unmatched(B, done)
      modifies Repr()
      ensures Valid() && AllNodes() == old(AllNodes()) && Repr() <= old(Repr())
      ensures Values(base) == Folded(B, done + [old(e.Value())])
      ensures m <= |extra| && extra[m..] == old(extra)[n + 1..]
      ensures Values(extra[..m]) == Unmatched(B, done + [old(e.Value())])
      ensures stale <==> Stale(Folded(B, done), old(e.Value()))
      ensures Values(extra[m..]) == old(Values(extra[n + 1..]))
    {
      hide Valid, Repr, Values, Folded, Unmatched, AllNodes, HasOffset, Stale, Removed;
      ghost var x, kept, rest, R := e.Value(), extra[..n], extra[n + 1..], Values(extra[n + 1..]);
      assert forall y :: y in kept || y in rest ==> y in extra;
      FoldedSnoc(B, done, x);
      UnmatchedSnoc(B, done, x);
      RemovedSlices(extra, n);
      ValuesSnoc(kept, e);
      ghost var V := Values(kept + [e]);
      stale := ApplyExtra(e, n);
      m := if HasOffset(B, x.offset) then n else n + 1;
      assert Values(kept) == Unmatched(B, done) && Values(rest) == R && e.Value() == x;
      assert Values(kept + [e]) == V;
    }

    /** The outer loop of `merge_configs`: every extra item in turn. */
    method OverrideExtras() returns (stale: bool)
      requires Valid()
      modifies Repr()
      ensures Valid() && AllNodes() == old(AllNodes()) && Repr() <= old(Repr())
      ensures Values(base) == Folded(old(Values(base)), old(Values(extra)))
      ensures Values(extra) == Unmatched(old(Values(base)), old(Values(extra)))
      ensures stale <==> ReadsFreed(old(Values(base)), old(Values(extra)))
    {
      hide Valid, Repr, Values, Folded, Unmatched, AllNodes, ReadsFreed, Stale, Ring,
        Distinct, NodeSet;
      ghost var B, V := Values(base), Values(extra);
      ghost var done: seq<Item>, rest, n: nat := [], extra, 0;
      stale := false;
      NothingOverridden(B);
      NothingFreed(B, []);
      ExtraRing(0);
      assert extra[0..] == extra && Values(extra[..0]) == [] && [] + V == V;
      var epos := extracfgs.next;
      var enext := epos.next;
      while epos != extracfgs
        invariant Valid() && AllNodes() == old(AllNodes()) && Repr() <= old(Repr())
        invariant n <= |extra| && extra[n..] == rest && done + Values(rest) == V
        invariant epos == NodeAt(extracfgs, rest, 0) && enext == epos.next
        invariant Values(base) == Folded(B, done) && Values(extra[..n]) == Unmatched(B, done)
        invariant stale <==> ReadsFreed(B, done)
        decreases |rest|
      {
        FirstFrom(extracfgs, extra, n);
        ExtraRing(n);
        ExtraRing(n + 1);
        ghost var x, more := epos.Value(), Values(rest[1..]);
        ReadsFreedSnoc(B, done, x);
        Regroup(done, x, more);
        var freedRead;
        n, freedRead := OverrideNext(epos, B, done, n);
        stale := stale || freedRead;
        done, rest := done + [x], rest[1..];
        epos := enext;
        ExtraRing(n);
        enext := epos.next;
      }
      ExtraRing(0);
      NoneLeft(done, rest);
    }

    lemma Regroup(done: seq<Item>, x: Item, more: seq<Item>)
      ensures done + ([x] + more) == done + [x] + more
    {}

    lemma NoneLeft(done: seq<Item>, rest: seq<Node>)
      ensures |rest| == 0 ==> done + Values(rest) == done
    {}

    /** The last loop of `merge_configs`: what is left of the extras is appended. */
    method AppendExtras()
      requires Valid()
      modifies Repr()
      ensures Valid() && AllNodes() == old(AllNodes()) && Repr() <= old(Repr())
      ensures Values(base) == old(Values(base)) + old(Values(extra)) && extra == []
    {
      hide Valid, Repr, Values, AllNodes;
      ExtraRing(0);
      var epos := extracfgs.next;
      var enext := epos.next;
      while epos != extracfgs
        invariant Valid() && AllNodes() == old(AllNodes()) && Repr() <= old(Repr())
        invariant epos == NodeAt(extracfgs, extra, 0) && enext == epos.next
        invariant Values(base) + Values(extra) == old(Values(base)) + old(Values(extra))
        decreases |extra|
      {
        ExtraRing(0);
        ExtraRing(1);
        ghost var before, rest := Values(base), Values(extra)[1..];
        assert Values(extra) == [epos.Value()] + rest;
        assert before + ([epos.Value()] + rest) == before + [epos.Value()] + rest;
        MoveFirst(epos);
        epos := enext;
        ExtraRing(0);
        enext := epos.next;
      }
      ExtraRing(0);
    }

    /** `merge_configs`: the base items take in the extras of their offsets in order, the other extras follow
        in order, and every item ends in the base list or freed. `stale` tells
        whether the C loop, which does not stop there, goes on to read an extra it has just freed. */
    method MergeConfigs() returns (stale: bool)
      requires Valid()
      modifies Repr()
      ensures Valid() && AllNodes() == old(AllNodes()) && Repr() <= old(Repr())
      ensures Values(base) == Merged(old(Values(base)), old(Values(extra))) && extra == []
      ensures stale <==> ReadsFreed(old(Values(base)), old(Values(extra)))
    {
      hide Ring, Folded, Unmatched, AllNodes, HasOffset, Values, ReadsFreed;
      stale := false;
      NothingOverridden(Values(base));
      var noExtras := ListEmpty(extracfgs, extra);
      if noExtras {
        NothingFreed(Values(base), Values(extra));
        return;
      }
      var noBase := ListEmpty(configs, base);
      if noBase {
        AllUnmatched(Values(extra));
        NothingFreed(Values(base), Values(extra));
        SpliceExtras();
        return;
      }
      stale := OverrideExtras();
      var empty := ListEmpty(extracfgs, extra);
      if empty {
        return;
      }
      AppendExtras();
    }

    /** The first base item is unlinked and freed. */
    method FreeFirst(e: Node)
      requires Valid() && |base| > 0 && base[0] == e
      modifies Repr()
      ensures Valid() && AllNodes() == old(AllNodes()) && Repr() <= old(Repr())
      ensures base == old(base)[1..] && extra == old(extra)
    {
      hide Ring;
      assert e in base;
      ValuesTail(base);
      Detach(e, true, 0);
      freed := freed + {e};
    }

    /** `config_lists_free`: in the end both lists are empty and every item has been freed. */
    method ConfigListsFree()
      requires Valid()
      modifies Repr()
      ensures Valid() && base == [] && extra == [] && freed == old(AllNodes())
    {
      hide Valid, Repr, Ring, AllNodes;
      SpliceExtras();
      BaseRing(0);
      var iter := configs.next;
      while iter != configs
        invariant Valid() && AllNodes() == old(AllNodes()) && Repr() <= old(Repr())
        invariant extra == [] && iter == NodeAt(configs, base, 0)
        decreases |base|
      {
        BaseRing(0);
        BaseRing(1);
        var tmp := iter.next;
        FreeFirst(iter);
        iter := tmp;
      }
      BaseRing(0);
      AllFreed();
    }

    lemma AllFreed()
      requires base == [] && extra == []
      ensures AllNodes() == freed
    {}
  }
}
