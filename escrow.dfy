/** The escrow canister: a map from escrow id to escrow record and an id
    counter. A borrower opens an escrow naming a lender; the lender locks it,
    and then either the borrower releases it or the lender refunds it.

    Each update call is first given as a function from the ledger before the
    call to its result and the ledger after it (`CreateStep`, `LockStep`,
    `ReleaseStep`, `RefundStep`). The `EscrowCanister` class holds the same
    state in fields and its methods are proved to do what those functions
    say. */
module EscrowLedger {
  import opened Common
  import opened Text

  datatype EscrowStatus = Pending | Locked | Released | Refunded

  datatype Escrow = Escrow(
    id: u64,
    borrower: Principal,
    lender: Principal,
    btcCollateralAddress: string,
    collateralAmount: real,
    loanAmount: real,
    createdAt: u64,
    status: EscrowStatus,
    releaseTime: Option<u64>)

  const CollateralMsg: string := "Collateral amount must be positive"
  const LoanMsg: string := "Loan amount must be positive"
  const AddressMsg: string := "Invalid Bitcoin address"
  const NotFoundMsg: string := "Escrow not found"
  const LockCallerMsg: string := "Only the lender can lock this escrow"
  const NotPendingMsg: string := "Escrow is not in pending state"
  const ReleaseCallerMsg: string := "Only the borrower can release this escrow"
  const NotLockedMsg: string := "Escrow is not in locked state"
  const RefundCallerMsg: string := "Only the lender can refund this escrow"

  /** The canister's whole state: the ESCROWS map and ESCROW_ID_COUNTER. */
  datatype Ledger = Ledger(escrows: map<u64, Escrow>, counter: u64)

  /** What an update call returns, and the ledger it leaves behind. */
  datatype Step<T> = Step(result: Result<T>, after: Ledger)

  const Empty: Ledger := Ledger(map[], 0)

  // ---------------------------------------------------------------------
  // Invariants
  // ---------------------------------------------------------------------

  /** Every stored record carries its own key, and every key is an id the
      counter has already handed out (ids start at 1). */
  ghost predicate IdsIssued(l: Ledger)
  {
    forall id :: id in l.escrows ==> l.escrows[id].id == id && 1 <= id <= l.counter
  }

  /** A record has a release time exactly when it has left `Pending`. */
  ghost predicate StampedWhenLocked(l: Ledger)
  {
    forall id :: id in l.escrows ==>
      (l.escrows[id].status == Pending <==> l.escrows[id].releaseTime == None)
  }

  ghost predicate Valid(l: Ledger)
  {
    IdsIssued(l) && StampedWhenLocked(l)
  }

  /** The fields no transition may change. */
  ghost predicate SameTerms(e: Escrow, f: Escrow)
  {
    && e.id == f.id
    && e.borrower == f.borrower
    && e.lender == f.lender
    && e.btcCollateralAddress == f.btcCollateralAddress
    && e.collateralAmount == f.collateralAmount
    && e.loanAmount == f.loanAmount
    && e.createdAt == f.createdAt
  }

  /** Storing a record under its own id, with a counter that covers it and
      a release time that matches its status, keeps the invariants. */
  lemma PutKeepsValid(l: Ledger, id: u64, e: Escrow, counter: u64)
    requires Valid(l) && l.counter <= counter
    requires e.id == id && 1 <= id <= counter
    requires e.status == Pending <==> e.releaseTime == None
    ensures Valid(Ledger(l.escrows[id := e], counter))
  {
  }

  /** Released and Refunded are final. */
  predicate IsTerminal(s: EscrowStatus)
  {
    s == Released || s == Refunded
  }

  // ---------------------------------------------------------------------
  // Update calls as functions of the ledger
  // ---------------------------------------------------------------------

  /** `create_escrow`: rejects a non-positive collateral, then a
      non-positive loan, then an address shorter than 26 bytes, without
      touching the state; otherwise bumps the counter (wrapping at
      `u64::MAX`) and stores a `Pending` record for the caller as borrower
      under the new id. */
  function CreateStep(l: Ledger, caller: Principal, lender: Principal, address: string,
                      collateral: real, loan: real, now: u64): (s: Step<u64>)
    ensures collateral <= 0.0 ==> s == Step(Err(CollateralMsg), l)
    ensures collateral > 0.0 && loan <= 0.0 ==> s == Step(Err(LoanMsg), l)
    ensures collateral > 0.0 && loan > 0.0 && Utf8Len(address) < 26 ==> s == Step(Err(AddressMsg), l)
    ensures s.result.Ok? <==> collateral > 0.0 && loan > 0.0 && Utf8Len(address) >= 26
    ensures s.result.Ok? ==>
              var id := s.result.value;
              && id as int == (l.counter as int + 1) % (U64_MAX + 1)
              && s.after == Ledger(
                   l.escrows[id := Escrow(id, caller, lender, address, collateral, loan, now, Pending, None)],
                   id)
  {
    if collateral <= 0.0 then Step(Err(CollateralMsg), l)
    else if loan <= 0.0 then Step(Err(LoanMsg), l)
    else if Utf8Len(address) < 26 then Step(Err(AddressMsg), l)
    else
      var id := WrappingIncrement(l.counter);
      var e := Escrow(id, caller, lender, address, collateral, loan, now, Pending, None);
      Step(Ok(id), Ledger(l.escrows[id := e], id))
  }

  /** `lock_escrow`: only the lender, only from `Pending`; stamps the
      release time with the current time. The caller is checked before the
      status. */
  function LockStep(l: Ledger, id: u64, caller: Principal, now: u64): (s: Step<bool>)
    ensures s.result.Err? ==> s.after == l
    ensures id !in l.escrows ==> s.result == Err(NotFoundMsg)
    ensures id in l.escrows && caller != l.escrows[id].lender ==> s.result == Err(LockCallerMsg)
    ensures id in l.escrows && caller == l.escrows[id].lender && l.escrows[id].status != Pending ==>
              s.result == Err(NotPendingMsg)
    ensures s.result.Ok? <==>
              id in l.escrows && caller == l.escrows[id].lender && l.escrows[id].status == Pending
    ensures s.result.Ok? ==>
              && s.result.value
              && s.after == l.(escrows := l.escrows[id := l.escrows[id].(status := Locked, releaseTime := Some(now))])
  {
    if id !in l.escrows then Step(Err(NotFoundMsg), l)
    else
      var e := l.escrows[id];
      if caller != e.lender then Step(Err(LockCallerMsg), l)
      else if e.status != Pending then Step(Err(NotPendingMsg), l)
      else
        var updated := e.(status := Locked, releaseTime := Some(now));
        Step(Ok(true), l.(escrows := l.escrows[id := updated]))
  }

  /** `release_escrow`: only the borrower, only from `Locked`; the release
      time keeps the value the lock stamped. */
  function ReleaseStep(l: Ledger, id: u64, caller: Principal): (s: Step<bool>)
    ensures s.result.Err? ==> s.after == l
    ensures id !in l.escrows ==> s.result == Err(NotFoundMsg)
    ensures id in l.escrows && caller != l.escrows[id].borrower ==> s.result == Err(ReleaseCallerMsg)
    ensures id in l.escrows && caller == l.escrows[id].borrower && l.escrows[id].status != Locked ==>
              s.result == Err(NotLockedMsg)
    ensures s.result.Ok? <==>
              id in l.escrows && caller == l.escrows[id].borrower && l.escrows[id].status == Locked
    ensures s.result.Ok? ==>
              && s.result.value
              && s.after == l.(escrows := l.escrows[id := l.escrows[id].(status := Released)])
  {
    if id !in l.escrows then Step(Err(NotFoundMsg), l)
    else
      var e := l.escrows[id];
      if caller != e.borrower then Step(Err(ReleaseCallerMsg), l)
      else if e.status != Locked then Step(Err(NotLockedMsg), l)
      else Step(Ok(true), l.(escrows := l.escrows[id := e.(status := Released)]))
  }

  /** `refund_escrow`: only the lender, only from `Locked`. */
  function RefundStep(l: Ledger, id: u64, caller: Principal): (s: Step<bool>)
    ensures s.result.Err? ==> s.after == l
    ensures id !in l.escrows ==> s.result == Err(NotFoundMsg)
    ensures id in l.escrows && caller != l.escrows[id].lender ==> s.result == Err(RefundCallerMsg)
    ensures id in l.escrows && caller == l.escrows[id].lender && l.escrows[id].status != Locked ==>
              s.result == Err(NotLockedMsg)
    ensures s.result.Ok? <==>
              id in l.escrows && caller == l.escrows[id].lender && l.escrows[id].status == Locked
    ensures s.result.Ok? ==>
              && s.result.value
              && s.after == l.(escrows := l.escrows[id := l.escrows[id].(status := Refunded)])
  {
    if id !in l.escrows then Step(Err(NotFoundMsg), l)
    else
      var e := l.escrows[id];
      if caller != e.lender then Step(Err(RefundCallerMsg), l)
      else if e.status != Locked then Step(Err(NotLockedMsg), l)
      else Step(Ok(true), l.(escrows := l.escrows[id := e.(status := Refunded)]))
  }

  // ---------------------------------------------------------------------
  // Queries as functions of the escrow map
  // ---------------------------------------------------------------------

  /** `get_escrow`. */
  function Lookup(escrows: map<u64, Escrow>, id: u64): (r: Result<Escrow>)
    ensures r.Err? <==> id !in escrows
    ensures r.Err? ==> r.error == NotFoundMsg
    ensures r.Ok? ==> r.value == escrows[id]
  {
    if id in escrows then Ok(escrows[id]) else Err(NotFoundMsg)
  }

  // ---------------------------------------------------------------------
  // The canister
  // ---------------------------------------------------------------------

  /** The filter `get_borrower_escrows` applies. */
  function BorrowedBy(caller: Principal): Escrow -> bool
  {
    (e: Escrow) => e.borrower == caller
  }

  /** The filter `get_lender_escrows` applies. */
  function LentBy(caller: Principal): Escrow -> bool
  {
    (e: Escrow) => e.lender == caller
  }

  /** Every record sits under its own id. `create_escrow` stores each
      record under the id it carries, so this holds in every reachable
      state, after a counter wrap too. */
  ghost predicate KeyedById(escrows: map<u64, Escrow>)
  {
    forall id :: id in escrows ==> escrows[id].id == id
  }

  /** When every record sits under its own id, the records a query
      selects come out by strictly ascending id. */
  lemma SelectByIdAscends(escrows: map<u64, Escrow>, keep: Escrow -> bool)
    ensures var r := Select(escrows, keep);
            KeyedById(escrows) ==> forall i, j :: 0 <= i < j < |r| ==> r[i].id < r[j].id
  {
    if KeyedById(escrows) {
      var r := Select(escrows, keep);
      var ks := SelectedKeys(escrows, keep);
      assert forall i :: 0 <= i < |r| ==> r[i].id == ks[i];
    }
  }

  class EscrowCanister {
    var escrows: map<u64, Escrow>
    var counter: u64

    function Snapshot(): (l: Ledger)
      reads this
      ensures l.escrows == escrows && l.counter == counter
    {
      Ledger(escrows, counter)
    }

    /** Canister initialisation: an empty map and the counter at 0. */
    constructor()
      ensures Snapshot() == Empty
      ensures Valid(Snapshot())
    {
      escrows := map[];
      counter := 0;
    }

    method CreateEscrow(caller: Principal, lender: Principal, address: string,
                        collateral: real, loan: real, now: u64) returns (r: Result<u64>)
      modifies this
      ensures Step(r, Snapshot()) == CreateStep(old(Snapshot()), caller, lender, address, collateral, loan, now)
      ensures old(Valid(Snapshot())) && old(counter) as int < U64_MAX ==> Valid(Snapshot())
    {
      if collateral <= 0.0 {
        return Err(CollateralMsg);
      }
      if loan <= 0.0 {
        return Err(LoanMsg);
      }
      if Utf8Len(address) < 26 {
        return Err(AddressMsg);
      }
      counter := WrappingIncrement(counter);
      var id := counter;
      var e := Escrow(id, caller, lender, address, collateral, loan, now, Pending, None);
      if old(Valid(Snapshot())) && old(counter) as int < U64_MAX {
        PutKeepsValid(old(Snapshot()), id, e, id);
      }
      escrows := escrows[id := e];
      return Ok(id);
    }

    method LockEscrow(caller: Principal, id: u64, now: u64) returns (r: Result<bool>)
      modifies this
      ensures Step(r, Snapshot()) == LockStep(old(Snapshot()), id, caller, now)
      ensures old(Valid(Snapshot())) ==> Valid(Snapshot())
    {
      if id !in escrows {
        return Err(NotFoundMsg);
      }
      var e := escrows[id];
      if caller != e.lender {
        return Err(LockCallerMsg);
      }
      if e.status != Pending {
        return Err(NotPendingMsg);
      }
      var updated := e.(status := Locked, releaseTime := Some(now));
      if old(Valid(Snapshot())) {
        PutKeepsValid(Snapshot(), id, updated, counter);
      }
      escrows := escrows[id := updated];
      return Ok(true);
    }

    method ReleaseEscrow(caller: Principal, id: u64) returns (r: Result<bool>)
      modifies this
      ensures Step(r, Snapshot()) == ReleaseStep(old(Snapshot()), id, caller)
      ensures old(Valid(Snapshot())) ==> Valid(Snapshot())
    {
      if id !in escrows {
        return Err(NotFoundMsg);
      }
      var e := escrows[id];
      if caller != e.borrower {
        return Err(ReleaseCallerMsg);
      }
      if e.status != Locked {
        return Err(NotLockedMsg);
      }
      var updated := e.(status := Released);
      if old(Valid(Snapshot())) {
        PutKeepsValid(Snapshot(), id, updated, counter);
      }
      escrows := escrows[id := updated];
      return Ok(true);
    }

    method RefundEscrow(caller: Principal, id: u64) returns (r: Result<bool>)
      modifies this
      ensures Step(r, Snapshot()) == RefundStep(old(Snapshot()), id, caller)
      ensures old(Valid(Snapshot())) ==> Valid(Snapshot())
    {
      if id !in escrows {
        return Err(NotFoundMsg);
      }
      var e := escrows[id];
      if caller != e.lender {
        return Err(RefundCallerMsg);
      }
      if e.status != Locked {
        return Err(NotLockedMsg);
      }
      var updated := e.(status := Refunded);
      if old(Valid(Snapshot())) {
        PutKeepsValid(Snapshot(), id, updated, counter);
      }
      escrows := escrows[id := updated];
      return Ok(true);
    }

    function GetEscrow(id: u64): (r: Result<Escrow>)
      reads this
      ensures r == Lookup(escrows, id)
    {
      if id in escrows then Ok(escrows[id]) else Err(NotFoundMsg)
    }

    /** `get_borrower_escrows`: exactly the escrows whose borrower is the
        caller, by ascending id. */
    function GetBorrowerEscrows(caller: Principal): (r: seq<Escrow>)
      reads this
      ensures |r| == |SelectedKeys(escrows, BorrowedBy(caller))|
      ensures forall i :: 0 <= i < |r| ==> r[i] == escrows[SelectedKeys(escrows, BorrowedBy(caller))[i]]
      ensures forall e :: e in r <==> e in escrows.Values && e.borrower == caller
      ensures KeyedById(escrows) ==> forall i, j :: 0 <= i < j < |r| ==> r[i].id < r[j].id
    {
      SelectByIdAscends(escrows, BorrowedBy(caller));
      Select(escrows, BorrowedBy(caller))
    }

    /** `get_lender_escrows`: exactly the escrows whose lender is the
        caller, by ascending id. */
    function GetLenderEscrows(caller: Principal): (r: seq<Escrow>)
      reads this
      ensures |r| == |SelectedKeys(escrows, LentBy(caller))|
      ensures forall i :: 0 <= i < |r| ==> r[i] == escrows[SelectedKeys(escrows, LentBy(caller))[i]]
      ensures forall e :: e in r <==> e in escrows.Values && e.lender == caller
      ensures KeyedById(escrows) ==> forall i, j :: 0 <= i < j < |r| ==> r[i].id < r[j].id
    {
      SelectByIdAscends(escrows, LentBy(caller));
      Select(escrows, LentBy(caller))
    }
  }
}
