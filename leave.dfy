/** Paid-time-off requests: the pending list offered for review
    (Cloksy_app.py:104-115) and the status machine Pending -> Approved | Rejected. */
module Leave {
  import opened Tables

  /** `SELECT * FROM pto_requests WHERE status='Pending'`, in table order. */
  function PendingRequests(ptos: seq<PtoRequest>): (r: seq<PtoRequest>)
    ensures |r| <= |ptos|
    ensures forall p :: p in r <==> p in ptos && p.status == Pending
  {
    if |ptos| == 0 then []
    else
      var init := ptos[..|ptos| - 1];
      var p := ptos[|ptos| - 1];
      assert ptos == init + [p];
      var rest := PendingRequests(init);
      if p.status == Pending then rest + [p] else rest
  }

  /** The listing grows by the new request when a pending one is filed. */
  lemma PendingAppend(ptos: seq<PtoRequest>, p: PtoRequest)
    requires p.status == Pending
    ensures PendingRequests(ptos + [p]) == PendingRequests(ptos) + [p]
  {
    assert (ptos + [p])[..|ptos|] == ptos;
  }

  /** AUTOINCREMENT ids with no deletion: the row at index i has id i + 1. */
  ghost predicate IdsInOrder(ptos: seq<PtoRequest>)
  {
    forall i :: 0 <= i < |ptos| ==> ptos[i].id == i + 1
  }

  /** Ids strictly ascend along the list. */
  predicate IdsAscending(ptos: seq<PtoRequest>)
  {
    forall i, j :: 0 <= i < j < |ptos| ==> ptos[i].id < ptos[j].id
  }

  /** The review list keeps table order: with ids following the table, its
      ids strictly ascend, so no request is listed twice. */
  lemma {:induction false} PendingOrdered(ptos: seq<PtoRequest>)
    requires IdsInOrder(ptos)
    ensures IdsAscending(PendingRequests(ptos))
  {
    if |ptos| > 0 {
      var init := ptos[..|ptos| - 1];
      var rest := PendingRequests(init);
      PendingOrdered(init);
      forall i | 0 <= i < |rest| ensures rest[i].id < |ptos| {
        assert rest[i] in init;
        var t :| 0 <= t < |init| && init[t] == rest[i];
        assert init[t] == ptos[t];
      }
      var p := ptos[|ptos| - 1];
      assert p.id == |ptos|;
      var r := PendingRequests(ptos);
      assert r == if p.status == Pending then rest + [p] else rest;
      forall i, j | 0 <= i < j < |r| ensures r[i].id < r[j].id {
        assert r[i] == rest[i];
        if j < |rest| {
          assert r[j] == rest[j];
          assert rest[i].id < rest[j].id;
        } else {
          assert r[j] == p;
          assert rest[i].id < |ptos|;
        }
      }
    }
  }

  /** The review list shows a request with this id, so its buttons exist. */
  predicate Offered(ptos: seq<PtoRequest>, id: int)
  {
    exists i :: 0 <= i < |ptos| && ptos[i].id == id && ptos[i].status == Pending
  }

  /** `UPDATE pto_requests SET status=? WHERE id=?` */
  function SetStatus(ptos: seq<PtoRequest>, id: int, s: PtoStatus): (r: seq<PtoRequest>)
    ensures |r| == |ptos|
    ensures forall i :: 0 <= i < |ptos| ==> r[i] == if ptos[i].id == id then ptos[i].(status := s) else ptos[i]
  {
    if |ptos| == 0 then []
    else
      var n := |ptos| - 1;
      SetStatus(ptos[..n], id, s) + [if ptos[n].id == id then ptos[n].(status := s) else ptos[n]]
  }

  /** A press of Approve or Reject on request `id`: the buttons exist only for
      the pending requests of the current page run, so a request that is no
      longer pending cannot be decided again. */
  function Decide(ptos: seq<PtoRequest>, id: int, s: PtoStatus): seq<PtoRequest>
  {
    if Offered(ptos, id) then SetStatus(ptos, id, s) else ptos
  }

  /** A decision changes the status of the one pending request with that id
      and nothing else, and keeps the ids. */
  lemma DecideEffect(ptos: seq<PtoRequest>, id: int, s: PtoStatus)
    requires IdsInOrder(ptos)
    ensures var r := Decide(ptos, id, s);
      && |r| == |ptos|
      && IdsInOrder(r)
      && forall i :: 0 <= i < |ptos| ==>
           r[i] == if i + 1 == id && ptos[i].status == Pending then ptos[i].(status := s) else ptos[i]
  {
  }

  /** Statuses only leave Pending, and only for the decision given. */
  lemma DecideMovesOnlyPending(ptos: seq<PtoRequest>, id: int, s: PtoStatus, i: int)
    requires IdsInOrder(ptos) && 0 <= i < |ptos|
    ensures var r := Decide(ptos, id, s);
      r[i].status == ptos[i].status || (ptos[i].status == Pending && r[i].status == s)
  {
    DecideEffect(ptos, id, s);
  }

  /** Once decided, a request stays decided: a later Reject of an approved
      request (or Approve of a rejected one) changes nothing. */
  lemma {:induction false} DecisionIsFinal(ptos: seq<PtoRequest>, id: int, first: PtoStatus, second: PtoStatus)
    requires IdsInOrder(ptos) && first != Pending
    ensures Decide(Decide(ptos, id, first), id, second) == Decide(ptos, id, first)
  {
    DecideEffect(ptos, id, first);
  }

  /** After a decision the request leaves the review list; nothing joins it. */
  lemma {:induction false} DecidedLeavesList(ptos: seq<PtoRequest>, id: int, s: PtoStatus)
    requires IdsInOrder(ptos) && s != Pending
    ensures forall p :: p in PendingRequests(Decide(ptos, id, s)) <==> p in PendingRequests(ptos) && p.id != id
  {
    var r := Decide(ptos, id, s);
    DecideEffect(ptos, id, s);
    forall p ensures p in PendingRequests(r) <==> p in PendingRequests(ptos) && p.id != id {
      if p in r && p.status == Pending {
        var i :| 0 <= i < |r| && r[i] == p;
        assert ptos[i] == p;
      }
      if p in ptos && p.status == Pending && p.id != id {
        var i :| 0 <= i < |ptos| && ptos[i] == p;
        assert r[i] == p;
      }
    }
  }
}
