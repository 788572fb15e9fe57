/** Membership payments behind `membershipPayments.*`. setMembershipPayment and the payment
    queries are called from server/routers.ts and server/membership.test.ts, but their bodies
    are not part of this model. The callers rely on three things: `paid` is stored as 1 or 0,
    the last call for a key wins, and one row is kept per key. The store here is an assumed
    implementation with those properties. It follows the lookup-then-update-or-insert
    pattern of markAttendance, keyed by (playerId, year, month). Two of its details are
    assumptions, not taken from the source: an existing row keeps its amount when the call
    gives none, and a new row goes at the end. */
module Payments {
  import opened Wrappers
  import opened Seqs
  import opened Tables

  /** A payment row; `paid` is an integer column holding 1 or 0. */
  datatype MembershipPayment = MembershipPayment(playerId: int, year: int, month: int, paid: int, amount: Option<int>)

  /** The natural key of a payment. */
  function PaymentKey(p: MembershipPayment): (int, int, int) {
    (p.playerId, p.year, p.month)
  }

  predicate InYearMonth(p: Row<MembershipPayment>, year: int, month: int) {
    p.fields.year == year && p.fields.month == month
  }

  /** `paid: boolean` as the integer the column stores. */
  function PaidFlag(paid: bool): (n: int)
    ensures n == 0 || n == 1
    ensures n == 1 <==> paid
  {
    if paid then 1 else 0
  }

  /** An existing row takes the new flag, and the amount when one is given. */
  function SetPaid(paid: bool, amount: Option<int>): MembershipPayment -> MembershipPayment {
    (p: MembershipPayment) => p.(paid := PaidFlag(paid), amount := if amount.Some? then amount else p.amount)
  }

  /** setMembershipPayment on the table's contents. */
  function SetPayment(t: Table<MembershipPayment>, playerId: int, year: int, month: int, paid: bool, amount: Option<int>): Table<MembershipPayment> {
    UpsertBy(t, PaymentKey, (playerId, year, month), SetPaid(paid, amount),
             MembershipPayment(playerId, year, month, PaidFlag(paid), amount))
  }

  /** The `paid` column of the key's row, if it has one. */
  function PaidOf(rows: seq<Row<MembershipPayment>>, playerId: int, year: int, month: int): (r: Option<int>)
    ensures r.None? <==> forall i :: 0 <= i < |rows| ==> PaymentKey(rows[i].fields) != (playerId, year, month)
  {
    match Lookup(rows, PaymentKey, (playerId, year, month))
    case None => None
    case Some(p) => Some(p.paid)
  }

  /** A call keeps one row per key and stores the flag as 1/0 under its key. */
  lemma SetPaymentKeepsOneRowPerKey(t: Table<MembershipPayment>, playerId: int, year: int, month: int, paid: bool, amount: Option<int>)
    requires t.Valid() && UniqueKeys(t.rows, PaymentKey)
    ensures var r := SetPayment(t, playerId, year, month, paid, amount);
      && r.Valid() && UniqueKeys(r.rows, PaymentKey)
      && PaidOf(r.rows, playerId, year, month) == Some(PaidFlag(paid))
      && Count(r.rows, HasKey(PaymentKey, (playerId, year, month))) == 1
  {
    var change := SetPaid(paid, amount);
    var added := MembershipPayment(playerId, year, month, PaidFlag(paid), amount);
    assert forall i :: 0 <= i < |t.rows| ==> PaymentKey(change(t.rows[i].fields)) == PaymentKey(t.rows[i].fields);
    UpsertByKeepsKeysUnique(t, PaymentKey, (playerId, year, month), change, added);
    var r := SetPayment(t, playerId, year, month, paid, amount);
    var before := Lookup(t.rows, PaymentKey, (playerId, year, month));
    assert Lookup(r.rows, PaymentKey, (playerId, year, month)) == Some(if before.Some? then change(before.value) else added);
    assert before.Some? ==> change(before.value).paid == PaidFlag(paid);
  }

  /** A call leaves every other key's row as it was. */
  lemma SetPaymentKeepsOtherKeys(t: Table<MembershipPayment>, playerId: int, year: int, month: int, paid: bool, amount: Option<int>)
    requires t.Valid() && UniqueKeys(t.rows, PaymentKey)
    ensures var r := SetPayment(t, playerId, year, month, paid, amount);
      forall k :: k != (playerId, year, month) ==> Lookup(r.rows, PaymentKey, k) == Lookup(t.rows, PaymentKey, k)
  {
    var change := SetPaid(paid, amount);
    var added := MembershipPayment(playerId, year, month, PaidFlag(paid), amount);
    assert forall i :: 0 <= i < |t.rows| ==> PaymentKey(change(t.rows[i].fields)) == PaymentKey(t.rows[i].fields);
    UpsertByKeepsOtherKeys(t, PaymentKey, (playerId, year, month), change, added);
  }

  /** membership.test.ts, "updates existing payment status": paid, then unpaid, for the same
      key leaves one row with `paid` 0. */
  lemma PaidThenUnpaid(t: Table<MembershipPayment>, playerId: int, year: int, month: int, amount: Option<int>)
    requires t.Valid() && UniqueKeys(t.rows, PaymentKey)
    ensures var r := SetPayment(SetPayment(t, playerId, year, month, true, amount), playerId, year, month, false, None);
      && PaidOf(r.rows, playerId, year, month) == Some(0)
      && Count(r.rows, HasKey(PaymentKey, (playerId, year, month))) == 1
  {
    SetPaymentKeepsOneRowPerKey(t, playerId, year, month, true, amount);
    SetPaymentKeepsOneRowPerKey(SetPayment(t, playerId, year, month, true, amount), playerId, year, month, false, None);
  }

  class PaymentStore {
    var payments: Table<MembershipPayment>

    ghost predicate Valid()
      reads this
    {
      payments.Valid() && UniqueKeys(payments.rows, PaymentKey)
    }

    constructor ()
      ensures Valid() && payments.rows == []
    {
      payments := Empty();
    }

    /** setMembershipPayment */
    method SetMembershipPayment(playerId: int, year: int, month: int, paid: bool, amount: Option<int>)
      requires Valid()
      modifies this`payments
      ensures Valid()
      ensures payments == SetPayment(old(payments), playerId, year, month, paid, amount)
      ensures PaidOf(payments.rows, playerId, year, month) == Some(PaidFlag(paid))
      ensures Count(payments.rows, HasKey(PaymentKey, (playerId, year, month))) == 1
      ensures forall k :: k != (playerId, year, month) ==>
        Lookup(payments.rows, PaymentKey, k) == Lookup(old(payments.rows), PaymentKey, k)
    {
      SetPaymentKeepsOneRowPerKey(payments, playerId, year, month, paid, amount);
      SetPaymentKeepsOtherKeys(payments, playerId, year, month, paid, amount);
      payments := SetPayment(payments, playerId, year, month, paid, amount);
    }

    /** getMembershipPaymentsByPlayer */
    function ByPlayer(playerId: int): (r: seq<Row<MembershipPayment>>)
      reads this
      ensures forall i :: 0 <= i < |r| ==> r[i] in payments.rows && r[i].fields.playerId == playerId
      ensures forall i :: 0 <= i < |payments.rows| && payments.rows[i].fields.playerId == playerId ==> payments.rows[i] in r
    {
      Filter(payments.rows, (p: Row<MembershipPayment>) => p.fields.playerId == playerId)
    }

    /** getMembershipPaymentsByYearMonth */
    function ByYearMonth(year: int, month: int): (r: seq<Row<MembershipPayment>>)
      reads this
      ensures forall i :: 0 <= i < |r| ==> r[i] in payments.rows && InYearMonth(r[i], year, month)
      ensures forall i :: 0 <= i < |payments.rows| && InYearMonth(payments.rows[i], year, month) ==> payments.rows[i] in r
    {
      Filter(payments.rows, (p: Row<MembershipPayment>) => InYearMonth(p, year, month))
    }

    /** getAllMembershipPayments */
    function All(): seq<Row<MembershipPayment>>
      reads this
    {
      payments.rows
    }
  }
}
