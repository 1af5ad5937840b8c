/** The negotiation loop of the handler's inbound path: every extension the
    client asks for is offered to the handshakers in priority order, and the
    first extension a handshaker produces is kept when its reserved bits do
    not collide with those already kept for the same request. */
module Negotiation {
  import opened Types
  import opened ReservedBits

  /** A server-side handshaker: accepts a requested extension by producing
      a negotiated extension, or declines with None. */
  type Handshaker = ExtData -> Option<Ext>

  /** The answer of the first handshaker, in priority order, that accepts
      `d`; None when every handshaker declines. */
  function FirstAccept(hs: seq<Handshaker>, d: ExtData): (r: Option<Ext>)
    ensures r.None? <==> forall i :: 0 <= i < |hs| ==> hs[i](d).None?
    ensures r.Some? ==>
      exists i :: 0 <= i < |hs| && hs[i](d) == r && forall j :: 0 <= j < i ==> hs[j](d).None?
  {
    if hs == [] then None
    else if hs[0](d).Some? then hs[0](d)
    else
      var r := FirstAccept(hs[1..], d);
      assert forall i :: 0 < i < |hs| ==> hs[1..][i - 1] == hs[i];
      r
  }

  /** The extensions the handshakers produce for `reqs`, in request order,
      before any reserved-bit conflict is resolved. */
  function Candidates(hs: seq<Handshaker>, reqs: seq<ExtData>): seq<Ext>
  {
    if reqs == [] then []
    else
      var init := Candidates(hs, reqs[..|reqs| - 1]);
      match FirstAccept(hs, reqs[|reqs| - 1])
      case None => init
      case Some(e) => init + [e]
  }

  /** `a` is `b` with some elements left out, the rest kept in order. */
  ghost predicate IsSubsequence<T>(a: seq<T>, b: seq<T>)
    decreases |b|
  {
    if b == [] then a == []
    else
      || (a != [] && a[|a| - 1] == b[|b| - 1] && IsSubsequence(a[..|a| - 1], b[..|b| - 1]))
      || IsSubsequence(a, b[..|b| - 1])
  }

  /** The extensions negotiated for one request whose extensions header
      lists `reqs`: a candidate is kept exactly when its mask misses the
      masks of the candidates kept before it. */
  function Negotiate(hs: seq<Handshaker>, reqs: seq<ExtData>): seq<Ext>
  {
    if reqs == [] then []
    else
      var prev := Negotiate(hs, reqs[..|reqs| - 1]);
      match FirstAccept(hs, reqs[|reqs| - 1])
      case None => prev
      case Some(e) => if Disjoint(e.rsv, Union(prev)) then prev + [e] else prev
  }

  /** What negotiation guarantees: the kept extensions never share a
      reserved bit, they are the handshakers' answers in client order with
      some left out, and every answer left out collides with a kept one. */
  lemma {:induction false} NegotiateSound(hs: seq<Handshaker>, reqs: seq<ExtData>)
    ensures var acc := Negotiate(hs, reqs);
      && PairwiseDisjoint(acc)
      && IsSubsequence(acc, Candidates(hs, reqs))
      && forall e :: e in Candidates(hs, reqs) ==> e in acc || !Disjoint(e.rsv, Union(acc))
  {
    if reqs != [] {
      var init := reqs[..|reqs| - 1];
      var prev := Negotiate(hs, init);
      NegotiateSound(hs, init);
      match FirstAccept(hs, reqs[|reqs| - 1])
      case None =>
      case Some(e) =>
        if Disjoint(e.rsv, Union(prev)) {
          AppendDisjoint(prev, e);
          KeptCandidatesStay(prev, e, Candidates(hs, init));
          assert (prev + [e])[..|prev|] == prev;
        }
    }
  }

  /** Appending to the kept list keeps earlier candidates accounted for. */
  lemma KeptCandidatesStay(prev: seq<Ext>, e: Ext, cands: seq<Ext>)
    requires forall c :: c in cands ==> c in prev || !Disjoint(c.rsv, Union(prev))
    ensures forall c :: c in cands ==> c in prev + [e] || !Disjoint(c.rsv, Union(prev + [e]))
  {
    forall c | c in cands && c !in prev
      ensures !Disjoint(c.rsv, Union(prev + [e]))
    {
      OverlapPersists(prev, e, c.rsv);
    }
  }

  /** Handshakers after the first one that accepts are never consulted:
      appending more handshakers does not change an accepted answer. */
  lemma {:induction false} LaterHandshakersIgnored(hs: seq<Handshaker>, more: seq<Handshaker>, d: ExtData)
    requires FirstAccept(hs, d).Some?
    ensures FirstAccept(hs + more, d) == FirstAccept(hs, d)
  {
    if hs[0](d).None? {
      assert (hs + more)[1..] == hs[1..] + more;
      LaterHandshakersIgnored(hs[1..], more, d);
    }
  }

  /** The decision taken for an earlier extension is never revoked by a
      later one: the kept list of a prefix of the request is a prefix of
      the kept list of the whole request. */
  lemma {:induction false} NegotiatePrefix(hs: seq<Handshaker>, reqs: seq<ExtData>, k: nat)
    requires k <= |reqs|
    ensures Negotiate(hs, reqs[..k]) <= Negotiate(hs, reqs)
    decreases |reqs|
  {
    if k < |reqs| {
      var init := reqs[..|reqs| - 1];
      assert init[..k] == reqs[..k];
      NegotiatePrefix(hs, init, k);
    } else {
      assert reqs[..k] == reqs;
    }
  }

  /** One more requested extension extends the negotiation of the ones
      before it by at most the first handshaker's answer for it. */
  lemma NegotiateStep(hs: seq<Handshaker>, reqs: seq<ExtData>, i: nat)
    requires i < |reqs|
    ensures var prev := Negotiate(hs, reqs[..i]);
      Negotiate(hs, reqs[..i + 1]) ==
        match FirstAccept(hs, reqs[i])
        case None => prev
        case Some(e) => if Disjoint(e.rsv, Union(prev)) then prev + [e] else prev
  {
    assert reqs[..i + 1][..i] == reqs[..i];
  }

  /** A request listing exactly two extensions whose answers share a
      reserved bit (say `permessage-deflate` and `x-webkit-deflate-frame`,
      both on RSV1): only the first of the two is kept. With more
      extensions this need not hold, since an earlier kept extension may
      already have excluded the first of the pair. */
  lemma FirstOfConflictingPairWins(hs: seq<Handshaker>, d1: ExtData, d2: ExtData, e1: Ext, e2: Ext)
    requires FirstAccept(hs, d1) == Some(e1) && FirstAccept(hs, d2) == Some(e2)
    requires !Disjoint(e1.rsv, e2.rsv)
    ensures Negotiate(hs, [d1, d2]) == [e1]
  {
    NegotiateOne(hs, d1, e1);
    assert [d1, d2][..1] == [d1];
    assert Union([e1]) == e1.rsv by {
      UnionStep([], e1);
    }
    DisjointOr(e2.rsv, e1.rsv, 0);
  }

  /** A single requested extension is kept whenever a handshaker accepts it. */
  lemma NegotiateOne(hs: seq<Handshaker>, d: ExtData, e: Ext)
    requires FirstAccept(hs, d) == Some(e)
    ensures Negotiate(hs, [d]) == [e]
  {
    assert [d][..0] == [];
    assert Disjoint(e.rsv, 0);
  }

  /** The handshaker loop of one requested extension, as the handler runs
      it: handshakers are tried in order until one answers. */
  method Handshake(hs: seq<Handshaker>, d: ExtData) returns (valid: Option<Ext>)
    ensures valid == FirstAccept(hs, d)
  {
    valid := None;
    var k := 0;
    while valid.None? && k < |hs|
      invariant k <= |hs|
      invariant valid.None? ==> forall j :: 0 <= j < k ==> hs[j](d).None?
      invariant valid.Some? ==> valid == FirstAccept(hs, d)
    {
      valid := hs[k](d);
      k := k + 1;
    }
  }

  /** The negotiation loop as the handler runs it, with the running mask
      `rsv` of the extensions kept so far. */
  method NegotiateLoop(hs: seq<Handshaker>, reqs: seq<ExtData>) returns (accepted: seq<Ext>, rsv: bv32)
    ensures accepted == Negotiate(hs, reqs)
    ensures rsv == Union(accepted)
    ensures forall i :: 0 <= i < |accepted| ==> Within(accepted[i].rsv, rsv)
  {
    accepted := [];
    rsv := 0;
    var i := 0;
    while i < |reqs|
      invariant i <= |reqs|
      invariant accepted == Negotiate(hs, reqs[..i])
      invariant rsv == Union(accepted)
    {
      var valid := Handshake(hs, reqs[i]);
      NegotiateStep(hs, reqs, i);
      if valid.Some? && Disjoint(valid.value.rsv, rsv) {
        UnionStep(accepted, valid.value);
        rsv := rsv | valid.value.rsv;
        accepted := accepted + [valid.value];
      }
      i := i + 1;
    }
    assert reqs[..i] == reqs;
    EveryMaskWithinUnion(accepted);
  }
}
