/** The loan backend's stores: the LOANS map from loan id to loan, the
    USERS map from principal to profile, the USER_LOANS index from principal
    to the list of that principal's loan ids, and LOAN_ID_COUNTER; with the
    update calls `create_loan` and `link_btc_address` and the queries
    `get_loans` and `get_btc_address`. */
module LoanBackend {
  import opened Common
  import opened Text
  import opened BtcAddress

  datatype Loan = Loan(
    id: u64,
    owner: Principal,
    collateralAmount: real,
    loanAmount: real,
    createdAt: u64)

  datatype UserProfile = UserProfile(btcAddress: Option<string>)

  const AmountsMsg: string := "Collateral and loan amounts must be positive"

  // ---------------------------------------------------------------------
  // What the stores mean
  // ---------------------------------------------------------------------

  /** The ids in `index[owner]`, or none when the owner has no entry (the
      `unwrap_or_default` in `create_loan`). */
  function IdsOf(index: map<Principal, seq<u64>>, owner: Principal): seq<u64>
  {
    if owner in index then index[owner] else []
  }

  /** The ids of `owner`'s loans in LOANS, ascending: the order in which
      `get_loans` visits them. */
  function LoansOf(loans: map<u64, Loan>, owner: Principal): (ids: seq<u64>)
    ensures StrictlyIncreasing(ids)
    ensures forall k :: k in ids <==> k in loans && loans[k].owner == owner
  {
    SelectedKeys(loans, OwnedBy(owner))
  }

  /** The filter `get_loans` applies. */
  function OwnedBy(owner: Principal): Loan -> bool
  {
    (l: Loan) => l.owner == owner
  }

  /** The stores agree while the counter has not wrapped: every loan sits
      under its own id, which the counter has handed out; and each owner's
      index entry lists exactly that owner's loans, oldest first. */
  ghost predicate IndexExact(loans: map<u64, Loan>, index: map<Principal, seq<u64>>, counter: u64)
  {
    && (forall k :: k in loans ==> loans[k].id == k && 1 <= k <= counter)
    && (forall p :: p in index ==> StrictlyIncreasing(index[p]))
    && (forall p, k :: k in IdsOf(index, p) <==> k in loans && loans[k].owner == p)
  }

  /** Every linked address is one `validate_btc_address` accepts, stated
      through the validator's independent description `Accepted`. */
  ghost predicate AddressesValid(users: map<Principal, UserProfile>)
  {
    forall p :: p in users && users[p].btcAddress.Some? ==> Accepted(users[p].btcAddress.value)
  }

  /** The USER_LOANS index and the filter `get_loans` performs agree: when
      the stores are consistent, an owner's index entry is exactly the
      ascending list of that owner's loan ids. */
  lemma IndexMatchesLoansOf(loans: map<u64, Loan>, index: map<Principal, seq<u64>>,
                            counter: u64, owner: Principal)
    requires IndexExact(loans, index, counter)
    ensures IdsOf(index, owner) == LoansOf(loans, owner)
  {
    var a := IdsOf(index, owner);
    var b := LoansOf(loans, owner);
    assert StrictlyIncreasing(a);
    StrictlyIncreasingUnique(a, b);
  }

  /** On consistent stores, the loans `get_loans` returns are the ones the
      USER_LOANS index lists for the owner, in the index's order, and their
      ids strictly increase. */
  lemma SelectFollowsIndex(loans: map<u64, Loan>, index: map<Principal, seq<u64>>,
                           counter: u64, owner: Principal)
    requires IndexExact(loans, index, counter)
    ensures var r := Select(loans, OwnedBy(owner));
            && |r| == |IdsOf(index, owner)|
            && (forall i :: 0 <= i < |r| ==> r[i] == loans[IdsOf(index, owner)[i]])
            && (forall i, j :: 0 <= i < j < |r| ==> r[i].id < r[j].id)
  {
    IndexMatchesLoansOf(loans, index, counter, owner);
    var r := Select(loans, OwnedBy(owner));
    var ids := IdsOf(index, owner);
    assert forall i :: 0 <= i < |r| ==> r[i].id == ids[i];
  }

  /** `create_loan` keeps the stores consistent when the counter has not
      reached `u64::MAX`: the new id exceeds every id in use, so appending
      it keeps the owner's list ascending and exact. */
  lemma CreateKeepsIndex(loans: map<u64, Loan>, index: map<Principal, seq<u64>>,
                         counter: u64, loan: Loan)
    requires IndexExact(loans, index, counter) && counter as int < U64_MAX
    requires loan.id as int == counter as int + 1
    ensures IndexExact(loans[loan.id := loan],
                       index[loan.owner := IdsOf(index, loan.owner) + [loan.id]],
                       loan.id)
  {
    var id := loan.id;
    var loans' := loans[id := loan];
    var index' := index[loan.owner := IdsOf(index, loan.owner) + [id]];
    assert id !in loans;
    var old_ids := IdsOf(index, loan.owner);
    var new_ids := old_ids + [id];
    assert StrictlyIncreasing(new_ids) by {
      forall i, j | 0 <= i < j < |new_ids|
        ensures new_ids[i] < new_ids[j]
      {
        assert new_ids[i] == old_ids[i] && old_ids[i] in old_ids;
        if j == |old_ids| {
          assert old_ids[i] in loans;
        }
      }
    }
    forall p, k
      ensures k in IdsOf(index', p) <==> k in loans' && loans'[k].owner == p
    {
      if p == loan.owner {
        assert IdsOf(index', p) == new_ids;
        assert k in new_ids <==> k in old_ids || k == id;
      } else {
        assert IdsOf(index', p) == IdsOf(index, p);
        if k in IdsOf(index, p) {
          assert k in loans;
        }
      }
    }
  }

  // ---------------------------------------------------------------------
  // The canister
  // ---------------------------------------------------------------------

  class LoanCanister {
    var loans: map<u64, Loan>
    var users: map<Principal, UserProfile>
    var userLoans: map<Principal, seq<u64>>
    var counter: u64

    ghost predicate Valid()
      reads this
    {
      IndexExact(loans, userLoans, counter) && AddressesValid(users)
    }

    /** Canister initialisation: empty stores and the counter at 0. */
    constructor()
      ensures loans == map[] && users == map[] && userLoans == map[] && counter == 0
      ensures Valid()
    {
      loans := map[];
      users := map[];
      userLoans := map[];
      counter := 0;
    }

    /** `create_loan`: rejects a non-positive amount without touching
        anything; otherwise bumps the counter (wrapping at `u64::MAX`),
        stores the loan under the new id with the caller as owner, and
        appends the id to the caller's index entry. */
    method CreateLoan(caller: Principal, collateral: real, loan: real, now: u64)
      returns (r: Result<Loan>)
      modifies this
      ensures collateral <= 0.0 || loan <= 0.0 ==>
                r == Err(AmountsMsg) && unchanged(this)
      ensures collateral > 0.0 && loan > 0.0 ==>
                && r.Ok?
                && r.value.id as int == (old(counter) as int + 1) % (U64_MAX + 1)
                && r.value == Loan(r.value.id, caller, collateral, loan, now)
                && counter == r.value.id
                && loans == old(loans)[r.value.id := r.value]
                && userLoans == old(userLoans)[caller := IdsOf(old(userLoans), caller) + [r.value.id]]
                && users == old(users)
      ensures old(Valid()) && old(counter) as int < U64_MAX ==> Valid()
    {
      if collateral <= 0.0 || loan <= 0.0 {
        return Err(AmountsMsg);
      }
      counter := WrappingIncrement(counter);
      var id := counter;
      var newLoan := Loan(id, caller, collateral, loan, now);
      if old(Valid()) && old(counter) as int < U64_MAX {
        CreateKeepsIndex(loans, userLoans, old(counter), newLoan);
      }
      loans := loans[id := newLoan];
      var ids := if caller in userLoans then userLoans[caller] else [];
      ids := ids + [id];
      userLoans := userLoans[caller := ids];
      return Ok(newLoan);
    }

    /** `link_btc_address`: its own blank check gives the same answer as
        the one inside `validate_btc_address`, so the result is exactly the
        validator's; on success the caller's profile is replaced by one
        holding the address as given, untrimmed. */
    method LinkBtcAddress(caller: Principal, address: string) returns (r: Result<()>)
      modifies this
      ensures r == ValidateBtcAddress(address)
      ensures r.Ok? ==> users == old(users)[caller := UserProfile(Some(address))]
      ensures r.Err? ==> users == old(users)
      ensures loans == old(loans) && userLoans == old(userLoans) && counter == old(counter)
      ensures old(Valid()) ==> Valid()
    {
      if Trim(address) == [] {
        BlankRejected(address);
        return Err(EmptyMsg);
      }
      var validation := ValidateBtcAddress(address);
      if validation.Err? {
        return Err(validation.error);
      }
      assert validation.value == ();
      ValidatedIsAccepted(address);
      StoreAddress(caller, address);
      return Ok(());
    }

    /** The profile upsert of `link_btc_address`, for an address the
        validator has accepted. */
    method StoreAddress(caller: Principal, address: string)
      requires Accepted(address)
      modifies this
      ensures users == old(users)[caller := UserProfile(Some(address))]
      ensures loans == old(loans) && userLoans == old(userLoans) && counter == old(counter)
      ensures old(Valid()) ==> Valid()
    {
      users := users[caller := UserProfile(Some(address))];
    }

    /** `get_loans`: exactly the caller's loans, by ascending id. */
    function GetLoans(caller: Principal): (r: seq<Loan>)
      reads this
      ensures |r| == |LoansOf(loans, caller)|
      ensures forall i :: 0 <= i < |r| ==> r[i] == loans[LoansOf(loans, caller)[i]]
      ensures forall l :: l in r <==> l in loans.Values && l.owner == caller
    {
      Select(loans, OwnedBy(caller))
    }

    /** `get_btc_address`: the address in the caller's profile, if any. */
    function GetBtcAddress(caller: Principal): (r: Option<string>)
      reads this
      ensures r.Some? <==> caller in users && users[caller].btcAddress.Some?
      ensures r.Some? ==> r.value == users[caller].btcAddress.value
      ensures Valid() && r.Some? ==> ValidateBtcAddress(r.value).Ok? && Trim(r.value) == r.value
    {
      if caller in users then
        var a := users[caller].btcAddress;
        assert Valid() && a.Some? ==> ValidateBtcAddress(a.value).Ok? && Trim(a.value) == a.value by {
          if Valid() && a.Some? {
            ValidateAcceptsExactly(a.value);
            AcceptedIsCompact(a.value);
          }
        }
        a
      else None
    }
  }
}
