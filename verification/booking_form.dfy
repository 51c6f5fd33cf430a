/** The booking-request form: quantity edits and removals on the basket the
    parent owns, the four submit guards, and the payload handed to the
    parent's submit callback. */
module BookingForm {
  import opened Wrappers
  import JsNumber
  import Seqs
  import DateTime

  /** An entry of the basket. `orderQty` is the quantity being requested. */
  datatype BasketItem = BasketItem(
    id: int,
    name: string,
    availableQty: real,
    unit: string,
    categoryType: string,
    orderQty: real)

  /** A room offered by the room select; its option value is the printed id. */
  datatype Room = Room(roomId: int, roomName: string, floor: Option<string>)

  /** The form's own fields, as the inputs hold them. */
  datatype Form = Form(
    roomId: string,
    startDate: string,
    startTime: string,
    endDate: string,
    endTime: string)

  datatype PayloadItem = PayloadItem(itemId: int, quantity: real)

  /** The object passed to `onSubmit`. `roomId` is `None` when `parseInt`
      gives NaN. */
  datatype Payload = Payload(
    roomId: Option<int>,
    borrowDate: string,
    expectedReturnDate: string,
    items: seq<PayloadItem>)

  datatype Icon = Warning | Error

  /** A dialog: title, text and icon. */
  datatype Alert = Alert(title: string, text: string, icon: Icon)

  /** What a press of the submit button does: show one dialog, or call
      `onSubmit` once with the payload. */
  datatype Submission = Rejected(alert: Alert) | Submitted(payload: Payload)

  const EmptyBasketAlert := Alert("Giỏ hàng trống", "Vui lòng chọn ít nhất một vật tư!", Warning)
  const NoRoomAlert := Alert("Chưa chọn phòng", "Vui lòng chọn phòng thí nghiệm!", Warning)
  const MissingDateAlert := Alert("Thiếu thời gian", "Vui lòng chọn đầy đủ ngày mượn và ngày trả!", Warning)
  const InvalidTimeAlert := Alert("Thời gian không hợp lệ", "Thời gian trả phải sau thời gian mượn!", Error)

  /** The form as first shown, given today's date from the clock
      (`getFullYear`, 0-based `getMonth`, `getDate`). */
  function InitialForm(year: int, month0: int, day: int): (f: Form)
    ensures f.roomId == "" && f.startTime == "07:00" && f.endTime == "11:00"
    ensures f.startDate == f.endDate
    ensures 1000 <= year <= 9999 && 0 <= month0 <= 11 && 1 <= day <= DateTime.DaysInMonth(year, month0 + 1) ==>
              DateTime.ParseDate(f.startDate) == Some(DateTime.Date(year, month0 + 1, day))
  {
    var today := DateTime.FormatDate(year, month0, day);
    if 1000 <= year <= 9999 && 0 <= month0 <= 11 && 1 <= day <= DateTime.DaysInMonth(year, month0 + 1) then
      DateTime.FormatDateParses(year, month0, day);
      Form("", today, "07:00", today, "11:00")
    else
      Form("", today, "07:00", today, "11:00")
  }

  // ---------------------------------------------------------------- basket

  /** `qty || 0`: NaN and zero become 0, any other parsed value is kept. */
  function OrderQty(parsed: Option<real>): (q: real)
    ensures parsed.None? ==> q == 0.0
    ensures parsed.Some? ==> q == parsed.value
  {
    match parsed
    case None => 0.0
    case Some(v) => if v == 0.0 then 0.0 else v
  }

  /** Set `orderQty` to `q` on every entry whose id is `id`. */
  function SetQty(basket: seq<BasketItem>, id: int, q: real): (r: seq<BasketItem>)
    ensures |r| == |basket|
    ensures forall i :: 0 <= i < |r| ==>
              r[i] == if basket[i].id == id then basket[i].(orderQty := q) else basket[i]
  {
    if basket == [] then []
    else [if basket[0].id == id then basket[0].(orderQty := q) else basket[0]]
         + SetQty(basket[1..], id, q)
  }

  /** `handleQtyChange(id, value)` with `parsed` the result of
      `parseFloat(value)` (`None` for NaN). */
  function ChangeQty(basket: seq<BasketItem>, id: int, parsed: Option<real>): (r: seq<BasketItem>)
    ensures parsed.Some? && parsed.value < 0.0 ==> r == basket
    ensures |r| == |basket|
    ensures forall i :: 0 <= i < |r| && basket[i].id != id ==> r[i] == basket[i]
    ensures forall i :: 0 <= i < |r| ==> r[i].(orderQty := basket[i].orderQty) == basket[i]
    ensures !(parsed.Some? && parsed.value < 0.0) ==>
              forall i :: 0 <= i < |r| && basket[i].id == id ==>
                r[i].orderQty == (if parsed.Some? then parsed.value else 0.0)
  {
    if parsed.Some? && parsed.value < 0.0 then basket
    else SetQty(basket, id, OrderQty(parsed))
  }

  /** Three edits of one entry: on `[{id: 1, orderQty: 2}]`, "-1" is
      refused, "abc" (NaN) sets 0 and "3.5" sets 3.5. */
  lemma ChangeQtyExamples(item: BasketItem)
    requires item.id == 1 && item.orderQty == 2.0
    ensures ChangeQty([item], 1, Some(-1.0)) == [item]
    ensures ChangeQty([item], 1, None) == [item.(orderQty := 0.0)]
    ensures ChangeQty([item], 1, Some(3.5)) == [item.(orderQty := 3.5)]
  {
  }

  /** Repeating an edit changes nothing more. */
  lemma ChangeQtyIdempotent(basket: seq<BasketItem>, id: int, parsed: Option<real>)
    ensures ChangeQty(ChangeQty(basket, id, parsed), id, parsed) == ChangeQty(basket, id, parsed)
  {
  }

  /** Edits of two different ids commute. */
  lemma ChangeQtyCommutes(basket: seq<BasketItem>, a: int, pa: Option<real>, b: int, pb: Option<real>)
    requires a != b
    ensures ChangeQty(ChangeQty(basket, a, pa), b, pb) == ChangeQty(ChangeQty(basket, b, pb), a, pa)
  {
  }

  /** The entries `handleRemoveItem(id)` keeps. */
  function OtherId(id: int): BasketItem -> bool
  {
    (it: BasketItem) => it.id != id
  }

  /** `handleRemoveItem(id)`. */
  function RemoveItem(basket: seq<BasketItem>, id: int): (r: seq<BasketItem>)
    ensures Seqs.KeepsExactly(r, basket, OtherId(id))
    ensures Seqs.IsSubsequence(r, basket)
    ensures forall i :: 0 <= i < |r| ==> r[i].id != id
    ensures forall i :: 0 <= i < |basket| && basket[i].id != id ==> basket[i] in r
    ensures (forall i :: 0 <= i < |basket| ==> basket[i].id != id) ==> r == basket
  {
    Seqs.FilterIsSubsequence(basket, OtherId(id));
    Seqs.FilterKeepsExactly(basket, OtherId(id));
    if forall i :: 0 <= i < |basket| ==> basket[i].id != id then
      Seqs.FilterKeepsAll(basket, OtherId(id));
      Seqs.Filter(basket, OtherId(id))
    else
      Seqs.Filter(basket, OtherId(id))
  }

  /** Removing an entry discards any quantity edit made to it. */
  lemma {:induction false} RemoveAfterSetQty(basket: seq<BasketItem>, id: int, q: real)
    ensures RemoveItem(SetQty(basket, id, q), id) == RemoveItem(basket, id)
  {
    if basket != [] {
      RemoveAfterSetQty(basket[1..], id, q);
      assert SetQty(basket, id, q)[1..] == SetQty(basket[1..], id, q);
    }
  }

  lemma RemoveAfterChangeQty(basket: seq<BasketItem>, id: int, parsed: Option<real>)
    ensures RemoveItem(ChangeQty(basket, id, parsed), id) == RemoveItem(basket, id)
  {
    if !(parsed.Some? && parsed.value < 0.0) {
      RemoveAfterSetQty(basket, id, OrderQty(parsed));
    }
  }

  // ---------------------------------------------------------------- submit

  /** `new Date(borrow) >= new Date(ret)`: a comparison involving an Invalid
      Date is false, so only two readable timestamps can block. */
  predicate TimeOrderBlocks(borrow: string, ret: string)
  {
    match (DateTime.ParseTimestamp(borrow), DateTime.ParseTimestamp(ret))
    case (Some(a), Some(b)) => !DateTime.Before(a, b)
    case _ => false
  }

  /** The basket as payload items, entry by entry. */
  function PayloadItems(basket: seq<BasketItem>): (items: seq<PayloadItem>)
    ensures |items| == |basket|
    ensures forall i :: 0 <= i < |items| ==>
              items[i].itemId == basket[i].id && items[i].quantity == basket[i].orderQty
  {
    if basket == [] then []
    else [PayloadItem(basket[0].id, basket[0].orderQty)] + PayloadItems(basket[1..])
  }

  function BuildPayload(basket: seq<BasketItem>, form: Form): (p: Payload)
    ensures |p.items| == |basket|
    ensures forall i :: 0 <= i < |basket| ==> p.items[i] == PayloadItem(basket[i].id, basket[i].orderQty)
    ensures DateTime.ParseTimestamp(p.borrowDate)
            == DateTime.Combine(DateTime.ParseDate(form.startDate), DateTime.ParseTimeOfDay(form.startTime))
    ensures DateTime.ParseTimestamp(p.expectedReturnDate)
            == DateTime.Combine(DateTime.ParseDate(form.endDate), DateTime.ParseTimeOfDay(form.endTime))
    ensures |form.roomId| > 0 && JsNumber.AllDigits(form.roomId) ==>
              p.roomId == Some(JsNumber.DecimalValue(form.roomId))
  {
    DateTime.ComposeParses(form.startDate, form.startTime);
    DateTime.ComposeParses(form.endDate, form.endTime);
    Payload(
      JsNumber.ParseInt(form.roomId),
      DateTime.Compose(form.startDate, form.startTime),
      DateTime.Compose(form.endDate, form.endTime),
      PayloadItems(basket))
  }

  /** `handleSubmit`: four guards in order, the first failure showing its
      dialog; otherwise the payload goes to `onSubmit`. */
  function Submit(basket: seq<BasketItem>, form: Form): (r: Submission)
    ensures r == Rejected(EmptyBasketAlert) <==> |basket| == 0
    ensures r == Rejected(NoRoomAlert) <==> |basket| > 0 && form.roomId == ""
    ensures r == Rejected(MissingDateAlert) <==>
              |basket| > 0 && form.roomId != "" && (form.startDate == "" || form.endDate == "")
    ensures r == Rejected(InvalidTimeAlert) <==>
              && |basket| > 0 && form.roomId != "" && form.startDate != "" && form.endDate != ""
              && TimeOrderBlocks(DateTime.Compose(form.startDate, form.startTime),
                                 DateTime.Compose(form.endDate, form.endTime))
    ensures r.Submitted? <==>
              && |basket| > 0 && form.roomId != "" && form.startDate != "" && form.endDate != ""
              && !TimeOrderBlocks(DateTime.Compose(form.startDate, form.startTime),
                                  DateTime.Compose(form.endDate, form.endTime))
    ensures r.Submitted? ==> r.payload == BuildPayload(basket, form)
  {
    if |basket| == 0 then Rejected(EmptyBasketAlert)
    else if form.roomId == "" then Rejected(NoRoomAlert)
    else if form.startDate == "" || form.endDate == "" then Rejected(MissingDateAlert)
    else
      var borrowDate := DateTime.Compose(form.startDate, form.startTime);
      var expectedReturnDate := DateTime.Compose(form.endDate, form.endTime);
      if TimeOrderBlocks(borrowDate, expectedReturnDate) then Rejected(InvalidTimeAlert)
      else Submitted(BuildPayload(basket, form))
  }

  /** A submitted payload mirrors the basket: same length, same order, each
      item carrying the entry's id and quantity; the room id is the one
      chosen in the select, and the dates are the composed strings. */
  lemma SubmittedPayload(basket: seq<BasketItem>, form: Form, room: Room)
    requires Submit(basket, form).Submitted?
    ensures var p := Submit(basket, form).payload;
      && |p.items| == |basket|
      && (forall i :: 0 <= i < |basket| ==>
            p.items[i] == PayloadItem(basket[i].id, basket[i].orderQty))
      && p.borrowDate == form.startDate + "T" + form.startTime + ":00"
      && p.expectedReturnDate == form.endDate + "T" + form.endTime + ":00"
      && (form.roomId == JsNumber.IntToString(room.roomId) ==> p.roomId == Some(room.roomId))
  {
    JsNumber.ParseIntOfIntToString(room.roomId);
  }

  /** The time guard as the composed inputs determine it: with a readable
      date and time on both sides it blocks exactly when the return is not
      later than the borrow in elapsed time; if either side is unreadable
      (an empty time, say) it never blocks. */
  lemma TimeGuard(form: Form)
    ensures var a := DateTime.Combine(DateTime.ParseDate(form.startDate), DateTime.ParseTimeOfDay(form.startTime));
            var b := DateTime.Combine(DateTime.ParseDate(form.endDate), DateTime.ParseTimeOfDay(form.endTime));
      && (a.Some? && b.Some? ==>
            (TimeOrderBlocks(DateTime.Compose(form.startDate, form.startTime),
                             DateTime.Compose(form.endDate, form.endTime))
             <==> DateTime.Seconds(b.value) <= DateTime.Seconds(a.value)))
      && (a.None? || b.None? ==>
            !TimeOrderBlocks(DateTime.Compose(form.startDate, form.startTime),
                             DateTime.Compose(form.endDate, form.endTime)))
  {
    DateTime.ComposeParses(form.startDate, form.startTime);
    DateTime.ComposeParses(form.endDate, form.endTime);
    var a := DateTime.Combine(DateTime.ParseDate(form.startDate), DateTime.ParseTimeOfDay(form.startTime));
    var b := DateTime.Combine(DateTime.ParseDate(form.endDate), DateTime.ParseTimeOfDay(form.endTime));
    if a.Some? && b.Some? {
      DateTime.BeforeIffEarlier(a.value, b.value);
    }
  }

  /** Equal borrow and return times are refused: the order must be strict. */
  lemma EqualTimesRejected(basket: seq<BasketItem>, form: Form)
    requires |basket| > 0 && form.roomId != ""
    requires form.startDate == form.endDate && form.startTime == form.endTime
    requires DateTime.ParseDate(form.startDate).Some? && DateTime.ParseTimeOfDay(form.startTime).Some?
    ensures Submit(basket, form) == Rejected(InvalidTimeAlert)
  {
    DateTime.ComposeParses(form.startDate, form.startTime);
  }

  /** A concrete case: 2024-01-10 07:00 to 2024-01-10 07:00
      is refused with the invalid-time dialog. */
  lemma EqualTimesExample(basket: seq<BasketItem>)
    requires |basket| > 0
    ensures Submit(basket, Form("1", "2024-01-10", "07:00", "2024-01-10", "07:00"))
            == Rejected(InvalidTimeAlert)
  {
    var date := "2024-01-10";
    assert date[..4] == "2024" && date[5..7] == "01" && date[8..] == "10";
    assert DateTime.Number("2024") == Some(2024) by {
      assert "2024"[..3] == "202" && "202"[..2] == "20" && "20"[..1] == "2" && "2"[..0] == "";
    }
    assert DateTime.Number("01") == Some(1) by {
      assert "01"[..1] == "0" && "0"[..0] == "";
    }
    assert DateTime.Number("10") == Some(10) by {
      assert "10"[..1] == "1" && "1"[..0] == "";
    }
    assert DateTime.ParseDate(date).Some?;
    var time := "07:00";
    assert time[..2] == "07" && time[3..] == "00";
    assert DateTime.Number("07") == Some(7) by {
      assert "07"[..1] == "0" && "0"[..0] == "";
    }
    assert DateTime.Number("00") == Some(0) by {
      assert "00"[..1] == "0" && "0"[..0] == "";
    }
    assert DateTime.ParseTimeOfDay(time).Some?;
    EqualTimesRejected(basket, Form("1", date, time, date, time));
  }

  lemma DefaultTimesParse()
    ensures DateTime.ParseTimeOfDay("07:00") == Some(DateTime.Clock(7, 0, 0))
    ensures DateTime.ParseTimeOfDay("11:00") == Some(DateTime.Clock(11, 0, 0))
  {
    assert "07:00"[..2] == "07" && "07:00"[3..] == "00";
    assert "11:00"[..2] == "11" && "11:00"[3..] == "00";
    assert "07"[..1] == "0" && "00"[..1] == "0" && "0"[..0] == "";
    assert "11"[..1] == "1" && "1"[..0] == "";
  }

  /** A readable day, 07:00 to 11:00 on that same day, passes the time guard. */
  lemma SameMorningSubmits(basket: seq<BasketItem>, form: Form)
    requires |basket| > 0 && form.roomId != ""
    requires form.startDate == form.endDate && DateTime.ParseDate(form.startDate).Some?
    requires form.startTime == "07:00" && form.endTime == "11:00"
    ensures Submit(basket, form).Submitted?
  {
    DefaultTimesParse();
    DateTime.ComposeParses(form.startDate, form.startTime);
    DateTime.ComposeParses(form.endDate, form.endTime);
  }

  /** The form as first shown passes every guard once a room is chosen and
      the basket is not empty: same day, 07:00 to 11:00. */
  lemma DefaultFormSubmits(basket: seq<BasketItem>, year: int, month0: int, day: int, room: Room)
    requires |basket| > 0
    requires 1000 <= year <= 9999 && 0 <= month0 <= 11
    requires 1 <= day <= DateTime.DaysInMonth(year, month0 + 1)
    ensures var form := InitialForm(year, month0, day).(roomId := JsNumber.IntToString(room.roomId));
      && Submit(basket, form).Submitted?
      && Submit(basket, form).payload.roomId == Some(room.roomId)
      && SubmitChecked(basket, form) == Submit(basket, form)
  {
    var form := InitialForm(year, month0, day).(roomId := JsNumber.IntToString(room.roomId));
    DateTime.FormatDateParses(year, month0, day);
    JsNumber.ParseIntOfIntToString(room.roomId);
    assert form.roomId != "";
    SameMorningSubmits(basket, form);
    DefaultTimesParse();
    CheckedAgreesWhenReadable(basket, form);
  }

  /** An edit followed by a submit sends the edited quantity for the edited
      id and the old quantity everywhere else. */
  lemma EditThenSubmit(basket: seq<BasketItem>, form: Form, id: int, v: real)
    requires v >= 0.0
    requires Submit(ChangeQty(basket, id, Some(v)), form).Submitted?
    ensures var items := Submit(ChangeQty(basket, id, Some(v)), form).payload.items;
      && |items| == |basket|
      && forall i :: 0 <= i < |basket| ==>
           items[i].itemId == basket[i].id
           && items[i].quantity == (if basket[i].id == id then v else basket[i].orderQty)
  {
  }

  // ---------------------------------------------------------------- finding

  /** The time guard with the evident intent: a request is only sent when
      both timestamps are readable and the return is strictly later. */
  function SubmitChecked(basket: seq<BasketItem>, form: Form): (r: Submission)
    ensures r.Submitted? ==>
              && |basket| > 0 && form.roomId != ""
              && var a := DateTime.ParseTimestamp(r.payload.borrowDate);
                 var b := DateTime.ParseTimestamp(r.payload.expectedReturnDate);
                 a.Some? && b.Some? && DateTime.Seconds(a.value) < DateTime.Seconds(b.value)
    ensures r.Submitted? ==> r.payload == BuildPayload(basket, form)
    ensures Submit(basket, form).Rejected? ==> r == Submit(basket, form)
  {
    match Submit(basket, form)
    case Rejected(alert) => Rejected(alert)
    case Submitted(p) =>
      match (DateTime.ParseTimestamp(p.borrowDate), DateTime.ParseTimestamp(p.expectedReturnDate))
      case (Some(a), Some(b)) =>
        DateTime.BeforeIffEarlier(a, b);
        if DateTime.Before(a, b) then Submitted(p) else Rejected(InvalidTimeAlert)
      case _ => Rejected(InvalidTimeAlert)
  }

  /** The correction changes nothing for a form whose dates and times are
      all readable: it only closes the unreadable case. */
  lemma CheckedAgreesWhenReadable(basket: seq<BasketItem>, form: Form)
    requires DateTime.ParseDate(form.startDate).Some? && DateTime.ParseTimeOfDay(form.startTime).Some?
    requires DateTime.ParseDate(form.endDate).Some? && DateTime.ParseTimeOfDay(form.endTime).Some?
    ensures SubmitChecked(basket, form) == Submit(basket, form)
  {
    DateTime.ComposeParses(form.startDate, form.startTime);
    DateTime.ComposeParses(form.endDate, form.endTime);
  }

  /** As written, an emptied start-time field switches the time guard off:
      a request whose return day precedes its borrow day is sent. */
  lemma EmptyTimeSlipsThrough(basket: seq<BasketItem>)
    requires |basket| > 0
    ensures var form := Form("1", "2024-01-11", "", "2024-01-10", "07:00");
      && Submit(basket, form).Submitted?
      && Submit(basket, form).payload.borrowDate == "2024-01-11T:00"
      && SubmitChecked(basket, form) == Rejected(InvalidTimeAlert)
  {
    var form := Form("1", "2024-01-11", "", "2024-01-10", "07:00");
    DateTime.ComposeParses(form.startDate, form.startTime);
    var borrow := DateTime.Compose(form.startDate, form.startTime);
    assert borrow == "2024-01-11T:00";
    assert DateTime.ParseTimeOfDay("") == None;
    assert DateTime.ParseTimestamp(borrow) == None;
    assert !TimeOrderBlocks(borrow, DateTime.Compose(form.endDate, form.endTime));
    var r := Submit(basket, form);
    assert r.Submitted? && r.payload == BuildPayload(basket, form);
  }
}
