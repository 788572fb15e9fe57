/** What the trainer's membership-fee page (client/src/pages/TrainerMembershipFees.tsx)
    computes from the `membershipPayments.getAll` rows and the `players.list` rows: whether
    a player has paid for the selected month, the paid/unpaid counts and the payment rate, and
    the arguments a click on the paid switch sends to `membershipPayments.setPayment`. */
module MembershipFees {
  import opened Wrappers
  import opened Seqs
  import opened Tables
  import opened Schema
  import opened Percent
  import opened Payments
  import opened Routers

  /** The row `payments.find` stops at for the player and the selected month. */
  predicate IsPaymentFor(p: Row<MembershipPayment>, playerId: int, year: int, month: int) {
    p.fields.playerId == playerId && p.fields.year == year && p.fields.month == month
  }

  /** getPaymentStatus: the first payment row for the player and month decides, and it counts
      as paid only when its `paid` column is 1; no row means unpaid. */
  function PaymentStatus(payments: seq<Row<MembershipPayment>>, playerId: int, year: int, month: int): (r: bool)
    ensures r <==> exists i :: 0 <= i < |payments| && IsPaymentFor(payments[i], playerId, year, month) && payments[i].fields.paid == 1
                              && forall j :: 0 <= j < i ==> !IsPaymentFor(payments[j], playerId, year, month)
    ensures (forall i :: 0 <= i < |payments| ==> !IsPaymentFor(payments[i], playerId, year, month)) ==> !r
  {
    match FirstIndex(payments, (p: Row<MembershipPayment>) => IsPaymentFor(p, playerId, year, month))
    case None => false
    case Some(i) =>
      assert forall i' :: 0 <= i' < i ==> !IsPaymentFor(payments[i'], playerId, year, month);
      payments[i].fields.paid == 1
  }

  /** The page and the store agree: a player shows as paid exactly when the store's row for
      the key holds 1, the value `setPayment` stores for `paid: true`. */
  lemma PaymentStatusIsStoredFlag(payments: seq<Row<MembershipPayment>>, playerId: int, year: int, month: int)
    ensures PaymentStatus(payments, playerId, year, month) <==> PaidOf(payments, playerId, year, month) == Some(1)
  {
    var k := (playerId, year, month);
    forall j | 0 <= j < |payments|
      ensures IsPaymentFor(payments[j], playerId, year, month) == HasKey(PaymentKey, k)(payments[j])
    {
      assert HasKey(PaymentKey, k)(payments[j]) == (PaymentKey(payments[j].fields) == k);
    }
    FirstIndexCorresponds(payments, payments,
                          (p: Row<MembershipPayment>) => IsPaymentFor(p, playerId, year, month),
                          HasKey(PaymentKey, k));
  }

  /** After the toggle's arguments have been stored, the page shows the switch in the
      position it was put in. */
  lemma StatusAfterToggle(t: Table<MembershipPayment>, playerId: int, paid: bool, selectedYear: int, selectedMonth: int)
    requires t.Valid() && UniqueKeys(t.rows, PaymentKey)
    ensures var a := ToggleArgs(playerId, paid, selectedYear, selectedMonth);
      PaymentStatus(SetPayment(t, a.playerId, a.year, a.month, a.paid, a.amount).rows, playerId, selectedYear, selectedMonth) == paid
  {
    SetPaymentKeepsOneRowPerKey(t, playerId, selectedYear, selectedMonth, paid, None);
    PaymentStatusIsStoredFlag(SetPayment(t, playerId, selectedYear, selectedMonth, paid, None).rows, playerId, selectedYear, selectedMonth);
  }

  /** A toggle changes what the page shows for the clicked player in the selected month only. */
  lemma ToggleLeavesOtherStatuses(t: Table<MembershipPayment>, playerId: int, paid: bool, selectedYear: int, selectedMonth: int,
                                  otherPlayer: int, year: int, month: int)
    requires t.Valid() && UniqueKeys(t.rows, PaymentKey)
    requires (otherPlayer, year, month) != (playerId, selectedYear, selectedMonth)
    ensures var a := ToggleArgs(playerId, paid, selectedYear, selectedMonth);
      PaymentStatus(SetPayment(t, a.playerId, a.year, a.month, a.paid, a.amount).rows, otherPlayer, year, month)
        == PaymentStatus(t.rows, otherPlayer, year, month)
  {
    var r := SetPayment(t, playerId, selectedYear, selectedMonth, paid, None);
    SetPaymentKeepsOtherKeys(t, playerId, selectedYear, selectedMonth, paid, None);
    assert Lookup(r.rows, PaymentKey, (otherPlayer, year, month)) == Lookup(t.rows, PaymentKey, (otherPlayer, year, month));
    PaymentStatusIsStoredFlag(r.rows, otherPlayer, year, month);
    PaymentStatusIsStoredFlag(t.rows, otherPlayer, year, month);
  }

  /** The three numbers and the rate shown in the page's summary cards. */
  datatype FeeStats = FeeStats(total: nat, paid: nat, unpaid: nat, rate: nat)

  predicate HasPaid(payments: seq<Row<MembershipPayment>>, year: int, month: int, p: Row<Player>) {
    PaymentStatus(payments, p.id, year, month)
  }

  /** `players.filter(p => getPaymentStatus(p.id))` as a predicate on rows. */
  function PaidIn(payments: seq<Row<MembershipPayment>>, year: int, month: int): Row<Player> -> bool {
    (p: Row<Player>) => HasPaid(payments, year, month, p)
  }

  /** totalPlayers, paidPlayers, unpaidPlayers and paymentRate for the listed players. */
  function Statistics(players: seq<Row<Player>>, payments: seq<Row<MembershipPayment>>, year: int, month: int): (s: FeeStats)
    ensures s.total == |players|
    // paidPlayers is the number of listed players whose status is paid
    ensures s.paid == |Filter(players, PaidIn(payments, year, month))|
    ensures s.paid + s.unpaid == s.total
    ensures s.paid == 0 <==> forall i :: 0 <= i < |players| ==> !PaymentStatus(payments, players[i].id, year, month)
    ensures s.unpaid == 0 <==> forall i :: 0 <= i < |players| ==> PaymentStatus(payments, players[i].id, year, month)
    ensures s.rate <= 100
    ensures s.total == 0 ==> s.rate == 0
    ensures s.total > 0 ==> -(s.total as int) <= 200 * s.paid - 2 * s.total * s.rate < s.total
  {
    var paidOf := PaidIn(payments, year, month);
    var paid := Count(players, paidOf);
    CountAll(players, paidOf);
    CountIsFilterLength(players, paidOf);
    FeeStats(|players|, paid, |players| - paid, RoundedPercent(paid, |players|))
  }

  /** Everyone in the list paid: the rate is 100. */
  lemma AllPaidIsHundredPercent(players: seq<Row<Player>>, payments: seq<Row<MembershipPayment>>, year: int, month: int)
    requires |players| > 0
    requires forall i :: 0 <= i < |players| ==> PaymentStatus(payments, players[i].id, year, month)
    ensures Statistics(players, payments, year, month).rate == 100
  {
    var s := Statistics(players, payments, year, month);
    assert s.paid == s.total;
    RoundedPercentExtremes(s.total);
  }

  /** The arguments of `membershipPayments.setPayment`. */
  datatype SetPaymentArgs = SetPaymentArgs(playerId: int, year: int, month: int, paid: bool, amount: Option<int>)

  /** handlePaymentToggle: the clicked player and switch position, for the selected year and
      month, and no amount. */
  function ToggleArgs(playerId: int, paid: bool, selectedYear: int, selectedMonth: int): SetPaymentArgs {
    SetPaymentArgs(playerId, selectedYear, selectedMonth, paid, None)
  }

  /** A toggle made with a month from the page's month list is never refused by the server's
      month bound. */
  lemma ToggleIsAccepted(playerId: int, paid: bool, selectedYear: int, selectedMonth: int)
    requires selectedMonth in MonthOptions
    ensures ValidMonth(ToggleArgs(playerId, paid, selectedYear, selectedMonth).month)
  {
    MonthOptionsAreServerMonths();
  }

  /** The month dropdown: values 1 to 12. */
  const MonthOptions: seq<int> := [1, 2, 3, 4, 5, 6, 7, 8, 9, 10, 11, 12]

  /** The dropdown offers exactly the months the server's schema admits. */
  lemma MonthOptionsAreServerMonths()
    ensures forall m :: m in MonthOptions <==> ValidMonth(m)
  {
    assert forall m :: ValidMonth(m) ==> MonthOptions[m - 1] == m;
  }

  /** The default month, `new Date().getMonth() + 1`, from the 0-based month of a date. */
  function DefaultMonth(jsMonth: int): (m: int)
    requires 0 <= jsMonth < 12
    ensures m in MonthOptions && ValidMonth(m)
  {
    MonthOptionsAreServerMonths();
    jsMonth + 1
  }

  /** The year dropdown: last year, this year and next year. */
  function YearOptions(currentYear: int): (r: seq<int>)
    ensures |r| == 3 && currentYear in r
    ensures forall i :: 0 <= i < |r| ==> r[i] == currentYear - 1 + i
    ensures forall i, j :: 0 <= i < j < |r| ==> r[i] < r[j]
  {
    [currentYear - 1, currentYear, currentYear + 1]
  }
}
