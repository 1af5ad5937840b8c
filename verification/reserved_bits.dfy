/** The reserved-bit masks of negotiated extensions (RSV1 to RSV3 of a
    WebSocket frame header) and the facts the negotiation's conflict check
    relies on. */
module ReservedBits {
  import opened Types

  /** Two masks share no bit: the handler's `(a & b) == 0` test. */
  predicate Disjoint(a: bv32, b: bv32)
  {
    a & b == 0
  }

  /** Every bit of `a` is set in `m`. */
  predicate Within(a: bv32, m: bv32)
  {
    a & m == a
  }

  /** The OR of the masks of `exts`: the bits they claim together. */
  function Union(exts: seq<Ext>): bv32
  {
    if exts == [] then 0 else Union(exts[..|exts| - 1]) | exts[|exts| - 1].rsv
  }

  /** No two extensions of `exts` claim a common reserved bit. */
  ghost predicate PairwiseDisjoint(exts: seq<Ext>)
  {
    forall i, j :: 0 <= i < j < |exts| ==> Disjoint(exts[i].rsv, exts[j].rsv)
  }

  /** Bit-level facts about one OR. */
  lemma DisjointOr(m: bv32, a: bv32, b: bv32)
    ensures Disjoint(m, a | b) <==> Disjoint(m, a) && Disjoint(m, b)
    ensures Disjoint(m, a) <==> Disjoint(a, m)
  {
    assert m & (a | b) == (m & a) | (m & b);
    assert m & a == a & m;
  }

  /** Every mask is contained in the union. */
  lemma {:induction false} UnionCovers(exts: seq<Ext>, i: nat)
    requires i < |exts|
    ensures Within(exts[i].rsv, Union(exts))
  {
    var n := |exts| - 1;
    if i < n {
      UnionCovers(exts[..n], i);
      assert exts[..n][i] == exts[i];
    }
  }

  /** `UnionCovers` for all members at once. */
  lemma EveryMaskWithinUnion(exts: seq<Ext>)
    ensures forall i :: 0 <= i < |exts| ==> Within(exts[i].rsv, Union(exts))
  {
    forall i | 0 <= i < |exts|
      ensures Within(exts[i].rsv, Union(exts))
    {
      UnionCovers(exts, i);
    }
  }

  /** A mask that misses the union misses every member's mask. */
  lemma {:induction false} DisjointFromUnionMember(exts: seq<Ext>, m: bv32, i: nat)
    requires i < |exts|
    requires Disjoint(m, Union(exts))
    ensures Disjoint(m, exts[i].rsv)
  {
    var n := |exts| - 1;
    DisjointOr(m, Union(exts[..n]), exts[n].rsv);
    if i < n {
      DisjointFromUnionMember(exts[..n], m, i);
      assert exts[..n][i] == exts[i];
    }
  }

  /** A mask that misses every member's mask misses the union. */
  lemma {:induction false} DisjointFromMembers(exts: seq<Ext>, m: bv32)
    requires forall i :: 0 <= i < |exts| ==> Disjoint(m, exts[i].rsv)
    ensures Disjoint(m, Union(exts))
  {
    if exts != [] {
      var n := |exts| - 1;
      var init := exts[..n];
      assert forall i :: 0 <= i < n ==> init[i] == exts[i];
      DisjointFromMembers(init, m);
      DisjointOr(m, Union(init), exts[n].rsv);
    }
  }

  /** A mask misses the union exactly when it misses every member's mask. */
  lemma DisjointFromUnion(exts: seq<Ext>, m: bv32)
    ensures Disjoint(m, Union(exts)) <==> forall i :: 0 <= i < |exts| ==> Disjoint(m, exts[i].rsv)
  {
    if Disjoint(m, Union(exts)) {
      forall i | 0 <= i < |exts|
        ensures Disjoint(m, exts[i].rsv)
      {
        DisjointFromUnionMember(exts, m, i);
      }
    } else if forall i :: 0 <= i < |exts| ==> Disjoint(m, exts[i].rsv) {
      DisjointFromMembers(exts, m);
    }
  }

  /** Appending an extension ORs exactly its mask into the union. */
  lemma UnionStep(exts: seq<Ext>, e: Ext)
    ensures Union(exts + [e]) == Union(exts) | e.rsv
  {
    assert (exts + [e])[..|exts|] == exts;
  }

  /** Appending an extension that misses the union keeps the list
      conflict-free and adds exactly its bits to the union. */
  lemma AppendDisjoint(exts: seq<Ext>, e: Ext)
    requires PairwiseDisjoint(exts)
    requires Disjoint(e.rsv, Union(exts))
    ensures PairwiseDisjoint(exts + [e])
    ensures Union(exts + [e]) == Union(exts) | e.rsv
  {
    DisjointFromUnion(exts, e.rsv);
    UnionStep(exts, e);
    var all := exts + [e];
    assert all[..|exts|] == exts;
    forall i, j | 0 <= i < j < |all|
      ensures Disjoint(all[i].rsv, all[j].rsv)
    {
      if j == |exts| {
        DisjointOr(e.rsv, exts[i].rsv, 0);
      } else {
        assert all[i] == exts[i] && all[j] == exts[j];
      }
    }
  }

  /** Once a mask overlaps the union, it overlaps every longer union. */
  lemma OverlapPersists(exts: seq<Ext>, e: Ext, m: bv32)
    requires !Disjoint(m, Union(exts))
    ensures !Disjoint(m, Union(exts + [e]))
  {
    assert (exts + [e])[..|exts|] == exts;
    DisjointOr(m, Union(exts), e.rsv);
  }
}
