/** model.Payment: a payment with an id, an amount, a date and a paid/unpaid
    status. The amount is held as a whole number of cents, rounded HALF_UP
    when it is set. */
module Payments {
  import opened Calendar
  import opened Ids
  import opened JavaText
  import opened Money

  /** The value of a payment at one moment. */
  datatype PaymentRecord = PaymentRecord(no: Int32, amount: int, date: Date, paid: bool)

  class Payment {
    var paymentNo: Int32
    var paymentAmount: int  // cents
    var paymentDate: Date
    var paymentStatus: bool

    function Record(): PaymentRecord
      reads this
    {
      PaymentRecord(paymentNo, paymentAmount, paymentDate, paymentStatus)
    }

    /** The constructor with every field given; the counter is not used. */
    constructor WithId(id: Int32, amount: real, status: bool, date: Date)
      ensures Record() == PaymentRecord(id, RoundHalfUp(amount), date, status)
    {
      paymentNo := id;
      paymentAmount := RoundHalfUp(amount);
      paymentStatus := status;
      paymentDate := date;
    }

    /** Payment(amount, status): the id comes from the counter, which moves on
        by one, and the date is the moment of creation, `now`. */
    constructor WithStatus(ids: IdCounter, amount: real, status: bool, now: Date)
      modifies ids
      ensures Record() == PaymentRecord(old(ids.next), RoundHalfUp(amount), now, status)
      ensures ids.next == Inc32(old(ids.next))
    {
      paymentNo := ids.next;
      paymentAmount := RoundHalfUp(amount);
      paymentDate := now;
      paymentStatus := status;
      new;
      ids.next := Inc32(ids.next);
    }

    /** Payment(amount): the same as Payment(amount, false), so a new payment
        is unpaid unless said otherwise. */
    constructor (ids: IdCounter, amount: real, now: Date)
      modifies ids
      ensures Record() == PaymentRecord(old(ids.next), RoundHalfUp(amount), now, false)
      ensures ids.next == Inc32(old(ids.next))
    {
      paymentNo := ids.next;
      paymentAmount := RoundHalfUp(amount);
      paymentDate := now;
      paymentStatus := false;
      new;
      ids.next := Inc32(ids.next);
    }

    method SetPaymentNo(id: Int32)
      modifies this
      ensures Record() == old(Record()).(no := id)
    {
      paymentNo := id;
    }

    /** setPaymentAmount: stores the amount rounded to whole cents, HALF_UP. */
    method SetPaymentAmount(amount: real)
      modifies this
      ensures Record() == old(Record()).(amount := RoundHalfUp(amount))
    {
      paymentAmount := RoundHalfUp(amount);
    }

    method SetPaymentDate(date: Date)
      modifies this
      ensures Record() == old(Record()).(date := date)
    {
      paymentDate := date;
    }

    method SetPaymentStatus(isPaid: bool)
      modifies this
      ensures Record() == old(Record()).(paid := isPaid)
    {
      paymentStatus := isPaid;
    }

    /** toString: id, amount, date and status separated by tabs, the date
        rendered by Date.toString (`dateText`); when that text has no tab the
        four fields can be read back. */
    function ToString(dateText: Date -> string): (s: string)
      reads this
      ensures '\t' !in dateText(paymentDate) ==>
        SplitOn(s, '\t') == [IntText(paymentNo), DoubleText(paymentAmount),
                                dateText(paymentDate), BoolText(paymentStatus)]
    {
      var fields := [IntText(paymentNo), DoubleText(paymentAmount),
                     dateText(paymentDate), BoolText(paymentStatus)];
      if '\t' in dateText(paymentDate) then JoinOn(fields, '\t')
      else
        DoubleTextOneField(paymentAmount);
        SplitJoin(fields, '\t');
        JoinOn(fields, '\t')
    }
  }

  /** Payment.SortByDate.compare: the order of the two payment dates, and
      nothing else. */
  function SortByDate(first: Payment, second: Payment): (r: int)
    reads first, second
    ensures r == 0 <==> first.paymentDate == second.paymentDate
    ensures r <= 0 <==> DateLe(first.paymentDate, second.paymentDate)
  {
    CompareDates(first.paymentDate, second.paymentDate)
  }
}
