/** Properties of the escrow ledger across single calls and across whole
    sequences of calls: the state machine only moves forward, the agreed
    terms of an escrow never change, the released and refunded states are
    final, and the ids handed out are fresh and increasing. */
module EscrowProperties {
  import opened Common
  import opened EscrowLedger

  /** One update call to the canister, with its caller and time. */
  datatype Call =
    | Create(caller: Principal, lender: Principal, address: string,
             collateral: real, loan: real, now: u64)
    | Lock(caller: Principal, id: u64, now: u64)
    | Release(caller: Principal, id: u64)
    | Refund(caller: Principal, id: u64)

  /** The ledger after one call. */
  function Apply(l: Ledger, c: Call): Ledger
  {
    match c
    case Create(caller, lender, address, collateral, loan, now) =>
      CreateStep(l, caller, lender, address, collateral, loan, now).after
    case Lock(caller, id, now) => LockStep(l, id, caller, now).after
    case Release(caller, id) => ReleaseStep(l, id, caller).after
    case Refund(caller, id) => RefundStep(l, id, caller).after
  }

  /** The ledger after a sequence of calls, first call first. */
  function Run(l: Ledger, calls: seq<Call>): Ledger
    decreases |calls|
  {
    if calls == [] then l else Run(Apply(l, calls[0]), calls[1..])
  }

  /** The id a call returns, when it is a successful `create_escrow`. */
  function CreatedId(l: Ledger, c: Call): Option<u64>
  {
    if c.Create? then
      var s := CreateStep(l, c.caller, c.lender, c.address, c.collateral, c.loan, c.now);
      if s.result.Ok? then Some(s.result.value) else None
    else None
  }

  /** The ids returned by the successful `create_escrow` calls of a
      sequence, in order. */
  function Issued(l: Ledger, calls: seq<Call>): seq<u64>
    decreases |calls|
  {
    if calls == [] then []
    else
      var first := if CreatedId(l, calls[0]).Some? then [CreatedId(l, calls[0]).value] else [];
      first + Issued(Apply(l, calls[0]), calls[1..])
  }

  /** One call moves a status at most one edge along
      Pending -> Locked -> Released | Refunded. */
  predicate Advances(a: EscrowStatus, b: EscrowStatus)
  {
    a == b || (a == Pending && b == Locked) || (a == Locked && IsTerminal(b))
  }

  /** Any number of calls: a status never moves backwards, and in
      particular never returns to Pending. */
  predicate Reachable(a: EscrowStatus, b: EscrowStatus)
  {
    a == b || (a == Pending && b != Pending) || (a == Locked && IsTerminal(b))
  }

  // ---------------------------------------------------------------------
  // One call
  // ---------------------------------------------------------------------

  /** A successful `create_escrow` on a ledger whose counter has not
      reached `u64::MAX` returns the old counter plus one, an id above every
      key in use, and so cannot overwrite an existing escrow. */
  lemma CreateIssuesFreshId(l: Ledger, caller: Principal, lender: Principal, address: string,
                            collateral: real, loan: real, now: u64)
    requires IdsIssued(l) && l.counter as int < U64_MAX
    requires CreateStep(l, caller, lender, address, collateral, loan, now).result.Ok?
    ensures var id := CreateStep(l, caller, lender, address, collateral, loan, now).result.value;
            && id as int == l.counter as int + 1
            && id !in l.escrows
            && (forall k :: k in l.escrows ==> k < id)
  {
  }

  /** Every call keeps the ledger invariants, as long as the counter has
      not reached `u64::MAX`, and the counter never goes down. */
  lemma ApplyKeepsValid(l: Ledger, c: Call)
    requires Valid(l) && l.counter as int < U64_MAX
    ensures Valid(Apply(l, c))
    ensures l.counter <= Apply(l, c).counter && Apply(l, c).counter as int <= l.counter as int + 1
  {
    match c
    case Create(caller, lender, address, collateral, loan, now) =>
      var s := CreateStep(l, caller, lender, address, collateral, loan, now);
      if s.result.Ok? {
        CreateIssuesFreshId(l, caller, lender, address, collateral, loan, now);
        var id := s.result.value;
        PutKeepsValid(l, id, s.after.escrows[id], id);
      }
    case Lock(caller, id, now) =>
      if LockStep(l, id, caller, now).result.Ok? {
        PutKeepsValid(l, id, LockStep(l, id, caller, now).after.escrows[id], l.counter);
      }
    case Release(caller, id) =>
      if ReleaseStep(l, id, caller).result.Ok? {
        PutKeepsValid(l, id, ReleaseStep(l, id, caller).after.escrows[id], l.counter);
      }
    case Refund(caller, id) =>
      if RefundStep(l, id, caller).result.Ok? {
        PutKeepsValid(l, id, RefundStep(l, id, caller).after.escrows[id], l.counter);
      }
  }

  /** Every call keeps each record under its own id, with no bound on the
      counter: a wrapped create stores its record under the id it carries. */
  lemma ApplyKeepsKeyed(l: Ledger, c: Call)
    requires KeyedById(l.escrows)
    ensures KeyedById(Apply(l, c).escrows)
  {
    match c
    case Create(caller, lender, address, collateral, loan, now) =>
    case Lock(caller, id, now) =>
    case Release(caller, id) =>
    case Refund(caller, id) =>
  }

  /** Every call keeps every existing escrow, keeps its terms and moves its
      status at most one edge forward. */
  lemma ApplyKeepsEscrow(l: Ledger, c: Call, id: u64)
    requires IdsIssued(l) && l.counter as int < U64_MAX
    requires id in l.escrows
    ensures id in Apply(l, c).escrows
    ensures SameTerms(l.escrows[id], Apply(l, c).escrows[id])
    ensures Advances(l.escrows[id].status, Apply(l, c).escrows[id].status)
  {
    if CreatedId(l, c).Some? {
      CreateIssuesFreshId(l, c.caller, c.lender, c.address, c.collateral, c.loan, c.now);
    }
  }

  /** Released and Refunded are final: every transition on such an escrow
      fails, whoever calls, and changes nothing. */
  lemma TerminalRejectsAll(l: Ledger, id: u64, caller: Principal, now: u64)
    requires id in l.escrows && IsTerminal(l.escrows[id].status)
    ensures LockStep(l, id, caller, now).result.Err? && LockStep(l, id, caller, now).after == l
    ensures ReleaseStep(l, id, caller).result.Err? && ReleaseStep(l, id, caller).after == l
    ensures RefundStep(l, id, caller).result.Err? && RefundStep(l, id, caller).after == l
  {
  }

  /** A second release of the same escrow fails with the status error, and
      so does a refund after a release. */
  lemma SecondReleaseFails(l: Ledger, id: u64, borrower: Principal, lender: Principal)
    requires ReleaseStep(l, id, borrower).result.Ok?
    requires lender == l.escrows[id].lender
    ensures ReleaseStep(ReleaseStep(l, id, borrower).after, id, borrower).result == Err(NotLockedMsg)
    ensures RefundStep(ReleaseStep(l, id, borrower).after, id, lender).result == Err(NotLockedMsg)
  {
  }

  /** Locking stamps the release time; releasing keeps the stamp. */
  lemma ReleaseKeepsLockTime(l: Ledger, id: u64, lender: Principal, borrower: Principal, now: u64)
    requires LockStep(l, id, lender, now).result.Ok?
    requires borrower == l.escrows[id].borrower
    ensures var locked := LockStep(l, id, lender, now).after;
            && locked.escrows[id].releaseTime == Some(now)
            && ReleaseStep(locked, id, borrower).result == Ok(true)
            && ReleaseStep(locked, id, borrower).after.escrows[id].releaseTime == Some(now)
  {
  }

  // ---------------------------------------------------------------------
  // Sequences of calls
  // ---------------------------------------------------------------------

  lemma ReachableAfterStep(a: EscrowStatus, b: EscrowStatus, c: EscrowStatus)
    requires Advances(a, b) && Reachable(b, c)
    ensures Reachable(a, c)
  {
  }

  /** Across any sequence of calls that does not exhaust the counter, an
      escrow stays in the map with its terms unchanged, and its status only
      moves forward: never back to Pending, and never out of Released or
      Refunded. */
  lemma {:induction false} RunKeepsEscrow(l: Ledger, calls: seq<Call>, id: u64)
    requires Valid(l) && l.counter as int + |calls| <= U64_MAX
    requires id in l.escrows
    ensures Valid(Run(l, calls))
    ensures id in Run(l, calls).escrows
    ensures SameTerms(l.escrows[id], Run(l, calls).escrows[id])
    ensures Reachable(l.escrows[id].status, Run(l, calls).escrows[id].status)
    decreases |calls|
  {
    if calls != [] {
      var next := Apply(l, calls[0]);
      ApplyKeepsValid(l, calls[0]);
      ApplyKeepsEscrow(l, calls[0], id);
      RunKeepsEscrow(next, calls[1..], id);
      ReachableAfterStep(l.escrows[id].status, next.escrows[id].status, Run(l, calls).escrows[id].status);
    }
  }

  /** From any ledger whose records sit under their own ids, and so from
      a fresh canister, every sequence of calls keeps them there, across
      counter wraps too; the escrow queries then return ascending ids. */
  lemma {:induction false} RunKeepsKeyed(l: Ledger, calls: seq<Call>)
    requires KeyedById(l.escrows)
    ensures KeyedById(Run(l, calls).escrows)
    decreases |calls|
  {
    if calls != [] {
      ApplyKeepsKeyed(l, calls[0]);
      RunKeepsKeyed(Apply(l, calls[0]), calls[1..]);
    }
  }

  /** What a single call does to the counter: a successful create moves it
      to the new id, which was not in use; anything else leaves it alone. */
  lemma CallCounter(l: Ledger, c: Call)
    requires IdsIssued(l) && l.counter as int < U64_MAX
    ensures CreatedId(l, c).Some? ==>
              && CreatedId(l, c).value == Apply(l, c).counter
              && l.counter < CreatedId(l, c).value
              && CreatedId(l, c).value !in l.escrows
    ensures CreatedId(l, c).None? ==> Apply(l, c).counter == l.counter
  {
    if CreatedId(l, c).Some? {
      CreateIssuesFreshId(l, c.caller, c.lender, c.address, c.collateral, c.loan, c.now);
    }
  }

  /** The ids the first call of a sequence hands out. */
  function FirstIssued(l: Ledger, c: Call): seq<u64>
  {
    if CreatedId(l, c).Some? then [CreatedId(l, c).value] else []
  }

  /** Unfolding a non-empty sequence of calls by its first call. */
  lemma RunCons(l: Ledger, calls: seq<Call>)
    requires calls != []
    ensures Issued(l, calls) == FirstIssued(l, calls[0]) + Issued(Apply(l, calls[0]), calls[1..])
    ensures Run(l, calls) == Run(Apply(l, calls[0]), calls[1..])
  {
  }

  /** At most one id in `(lo, mid]` followed by ascending ids in
      `(mid, hi]` makes an ascending sequence in `(lo, hi]`. */
  lemma ConcatAscending(first: seq<u64>, rest: seq<u64>, lo: u64, mid: u64, hi: u64)
    requires |first| <= 1 && lo <= mid <= hi
    requires forall i :: 0 <= i < |first| ==> lo < first[i] <= mid
    requires StrictlyIncreasing(rest)
    requires forall i :: 0 <= i < |rest| ==> mid < rest[i] <= hi
    ensures StrictlyIncreasing(first + rest)
    ensures forall i :: 0 <= i < |first + rest| ==> lo < (first + rest)[i] <= hi
  {
    var all := first + rest;
    forall i, j | 0 <= i < j < |all|
      ensures all[i] < all[j]
    {
      assert all[j] == rest[j - |first|];
      if i >= |first| {
        assert all[i] == rest[i - |first|];
      } else {
        assert all[i] == first[i];
      }
    }
    forall i | 0 <= i < |all|
      ensures lo < all[i] <= hi
    {
      if i >= |first| {
        assert all[i] == rest[i - |first|];
      } else {
        assert all[i] == first[i];
      }
    }
  }

  /** Across any sequence of calls that does not exhaust the counter, the
      ids handed out are strictly increasing and lie above the starting
      counter and at or below the final one; so none was in use before. */
  lemma {:induction false} RunIssuesFreshIds(l: Ledger, calls: seq<Call>)
    requires Valid(l) && l.counter as int + |calls| <= U64_MAX
    ensures StrictlyIncreasing(Issued(l, calls))
    ensures forall i :: 0 <= i < |Issued(l, calls)| ==>
              l.counter < Issued(l, calls)[i] <= Run(l, calls).counter
    ensures l.counter <= Run(l, calls).counter
    decreases |calls|
  {
    if calls != [] {
      var c := calls[0];
      var next := Apply(l, c);
      ApplyKeepsValid(l, c);
      CallCounter(l, c);
      RunIssuesFreshIds(next, calls[1..]);
      RunCons(l, calls);
      ConcatAscending(FirstIssued(l, c), Issued(next, calls[1..]),
                      l.counter, next.counter, Run(l, calls).counter);
    }
  }

  /** The ids a sequence of calls hands out were not in use when it
      started. */
  lemma IssuedIdsAreFresh(l: Ledger, calls: seq<Call>)
    requires Valid(l) && l.counter as int + |calls| <= U64_MAX
    ensures forall i :: 0 <= i < |Issued(l, calls)| ==> Issued(l, calls)[i] !in l.escrows
  {
    RunIssuesFreshIds(l, calls);
  }

  // ---------------------------------------------------------------------
  // A concrete run
  // ---------------------------------------------------------------------

  /** The testnet address the scenario below uses. */
  const SampleAddress: string := "tb1qw508d6qejxtdg4y5r3zarvary0c5xw7k"

  /** The ledger after the first escrow is opened, with the release time
      `time` and the status `status`. */
  function FirstEscrow(borrower: Principal, lender: Principal, status: EscrowStatus,
                       time: Option<u64>): Ledger
  {
    Ledger(map[1 := Escrow(1, borrower, lender, SampleAddress, 1.5, 1.0, 100, status, time)], 1)
  }

  /** From a fresh canister the first `create_escrow` returns id 1 and
      stores a pending escrow without a release time. */
  lemma FirstCreate(borrower: Principal, lender: Principal)
    ensures CreateStep(Empty, borrower, lender, SampleAddress, 1.5, 1.0, 100)
            == Step(Ok(1), FirstEscrow(borrower, lender, Pending, None))
  {
    assert |SampleAddress| == 36;
  }

  /** On the pending escrow a borrower trying to lock, or a lender trying
      to release, gets the caller error rather than the status error. */
  lemma PendingCallerErrors(borrower: Principal, lender: Principal)
    requires borrower != lender
    ensures var l := FirstEscrow(borrower, lender, Pending, None);
            && LockStep(l, 1, borrower, 200).result == Err(LockCallerMsg)
            && ReleaseStep(l, 1, lender).result == Err(ReleaseCallerMsg)
            && ReleaseStep(l, 1, borrower).result == Err(NotLockedMsg)
  {
  }

  /** The lender's lock stamps the time, the borrower's release keeps it,
      and a refund afterwards fails. */
  lemma LockReleaseRefund(borrower: Principal, lender: Principal)
    ensures LockStep(FirstEscrow(borrower, lender, Pending, None), 1, lender, 200)
            == Step(Ok(true), FirstEscrow(borrower, lender, Locked, Some(200)))
    ensures ReleaseStep(FirstEscrow(borrower, lender, Locked, Some(200)), 1, borrower)
            == Step(Ok(true), FirstEscrow(borrower, lender, Released, Some(200)))
    ensures RefundStep(FirstEscrow(borrower, lender, Released, Some(200)), 1, lender).result
            == Err(NotLockedMsg)
  {
    var l := FirstEscrow(borrower, lender, Pending, None);
    assert l.escrows[1 := l.escrows[1].(status := Locked, releaseTime := Some(200))]
           == FirstEscrow(borrower, lender, Locked, Some(200)).escrows;
    var m := FirstEscrow(borrower, lender, Locked, Some(200));
    assert m.escrows[1 := m.escrows[1].(status := Released)]
           == FirstEscrow(borrower, lender, Released, Some(200)).escrows;
  }
}
