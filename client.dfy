/** The browser client (ui/static/js/main.js) without its DOM and network.

    The module globals `apiKey`, `selectedCommodityId`, `commodities` and
    `orderBookIntervalId` are fields of the class `Session`, beside the
    `localStorage` slot of the key, the set of interval handles still armed,
    the requests issued so far, the error messages shown, and the rows of the
    bids and asks tables. Issuing a request appends it to `requests`; replies
    are parameters of the handlers that consume them. */
module Client {
  import opened Common
  import opened OrderModel
  import opened Levels

  /** A request the client sends. */
  datatype Request =
    | GetOrderBook(commodity: string)
    | PostOrder(commodityId: Option<nat>, orderType: string, price: real, quantity: real)
    | PostCustomer(name: string, email: string, password: string)

  /** The interval bookkeeping: the handle held in `orderBookIntervalId`,
      the handles still armed, and the next handle `setInterval` returns
      (browsers hand out positive handles). */
  datatype Timers = Timers(intervalId: Option<nat>, live: set<nat>, nextHandle: nat)

  /** The handle `orderBookIntervalId` holds, as a set. */
  function Held(t: Timers): set<nat>
  {
    if t.intervalId.Some? then {t.intervalId.value} else {}
  }

  /** At most one interval is armed, and it is the one the global holds. */
  predicate OneLive(t: Timers)
  {
    && t.nextHandle > 0
    && (t.intervalId.Some? ==> 0 < t.intervalId.value < t.nextHandle)
    && t.live <= Held(t)
  }

  /** `clearInterval(id)`; clearing `null` does nothing. The global keeps its value. */
  function ClearTimer(t: Timers, id: Option<nat>): (r: Timers)
    ensures r.intervalId == t.intervalId && r.nextHandle == t.nextHandle
    ensures id.Some? ==> r.live == t.live - {id.value}
    ensures id.None? ==> r.live == t.live
  {
    if id.Some? then t.(live := t.live - {id.value}) else t
  }

  /** `orderBookIntervalId = setInterval(...)`: a fresh handle, armed and held. */
  function Arm(t: Timers): (r: Timers)
    ensures r.intervalId == Some(t.nextHandle) && r.live == t.live + {t.nextHandle}
    ensures r.nextHandle > t.nextHandle
  {
    Timers(Some(t.nextHandle), t.live + {t.nextHandle}, t.nextHandle + 1)
  }

  /** `clearInterval(orderBookIntervalId); orderBookIntervalId = setInterval(...)`. */
  function Rearm(t: Timers): (r: Timers)
    ensures r.intervalId == Some(t.nextHandle) && r.nextHandle > t.nextHandle
    ensures r.live == (t.live - Held(t)) + {t.nextHandle}
  {
    Arm(ClearTimer(t, t.intervalId))
  }

  /** Clearing the held interval before arming a new one leaves exactly one
      armed: the new one. */
  lemma RearmLeavesOne(t: Timers)
    requires OneLive(t)
    ensures OneLive(Rearm(t))
    ensures Rearm(t).live == {Rearm(t).intervalId.value}
  {
  }

  /** Clearing the held interval leaves none armed. */
  lemma ClearLeavesNone(t: Timers)
    requires OneLive(t)
    ensures OneLive(ClearTimer(t, t.intervalId)) && ClearTimer(t, t.intervalId).live == {}
  {
  }

  /** The part of `setupOrderBookUpdates` before its `await`: clear the held
      interval if there is one. */
  function SetupBegin(t: Timers): (r: Timers)
    ensures r.intervalId == t.intervalId && r.nextHandle == t.nextHandle
    ensures r.live == t.live - Held(t)
  {
    if t.intervalId.Some? then ClearTimer(t, t.intervalId) else t
  }

  /** The part after the `await`, as written: arm a new interval without
      clearing again. */
  function SetupEndAsWritten(t: Timers): (r: Timers)
    ensures r.intervalId == Some(t.nextHandle) && r.nextHandle > t.nextHandle
    ensures r.live == t.live + {t.nextHandle}
    ensures t.live <= r.live
  {
    Arm(t)
  }

  /** Run without interruption, the two halves leave exactly one interval. */
  lemma SetupUninterrupted(t: Timers)
    requires OneLive(t)
    ensures OneLive(SetupEndAsWritten(SetupBegin(t)))
    ensures SetupEndAsWritten(SetupBegin(t)).live == Held(SetupEndAsWritten(SetupBegin(t)))
  {
  }

  /** A selection change while the initial fetch is awaited arms an interval
      that the second half then overwrites without clearing: two intervals
      stay armed, and one of them can never be cleared. */
  lemma SetupInterruptedLeaks()
    ensures var t0 := Timers(Some(1), {1}, 2);
      var t3 := SetupEndAsWritten(Rearm(SetupBegin(t0)));
      && OneLive(t0)
      && t3.live == {2, 3} && t3.intervalId == Some(3)
      && !OneLive(t3)
  {
    var t0 := Timers(Some(1), {1}, 2);
    var t1 := SetupBegin(t0);
    assert t1.live == {};
    var t2 := Rearm(t1);
    assert t2.live == {2};
    var t3 := SetupEndAsWritten(t2);
    assert t3.live == {2, 3};
    assert 2 in t3.live && 2 !in Held(t3);
  }

  /** The second half with the held interval cleared first. */
  function SetupEnd(t: Timers): (r: Timers)
    ensures r.intervalId == Some(t.nextHandle) && r.nextHandle > t.nextHandle
    ensures r.live == (t.live - Held(t)) + {t.nextHandle}
  {
    Rearm(t)
  }

  /** Corrected, the second half leaves exactly one interval armed whatever
      ran during the `await`. */
  lemma SetupEndLeavesOne(t: Timers)
    requires OneLive(t)
    ensures OneLive(SetupEnd(t)) && SetupEnd(t).live == Held(SetupEnd(t))
  {
    RearmLeavesOne(t);
  }

  /** After the leak, neither `handleLogout` (clear the held interval) nor a
      later `handleCommodityChange` (clear it, arm a new one) disarms the
      leaked interval: it keeps polling. */
  lemma LeakOutlivesHandlers()
    ensures var t3 := SetupEndAsWritten(Rearm(SetupBegin(Timers(Some(1), {1}, 2))));
      && ClearTimer(t3, t3.intervalId).live == {2}
      && Rearm(t3).live == {2, 4}
  {
    SetupInterruptedLeaks();
    var t3 := SetupEndAsWritten(Rearm(SetupBegin(Timers(Some(1), {1}, 2))));
    assert t3.live - {3} == {2};
  }

  /** The commodities map after `forEach(c => commodities[c.id] = c)` over
      `data`, starting empty: a later entry with the same id wins. */
  function Catalog(data: seq<Commodity>): (m: map<int, Commodity>)
    ensures forall id :: id in m <==> exists i :: 0 <= i < |data| && data[i].id == id
    decreases |data|
  {
    if data == [] then map[]
    else
      var prefix := data[..|data| - 1];
      assert forall i :: 0 <= i < |prefix| ==> prefix[i] == data[i];
      var last := data[|data| - 1];
      Catalog(prefix)[last.id := last]
  }

  /** Each commodity can be found under its id unless a later one has the same id. */
  lemma {:induction false} CatalogLookup(data: seq<Commodity>, i: nat)
    requires i < |data|
    requires forall j :: i < j < |data| ==> data[j].id != data[i].id
    ensures Catalog(data)[data[i].id] == data[i]
    decreases |data|
  {
    var n := |data| - 1;
    if i < n {
      var prefix := data[..n];
      assert prefix[i] == data[i];
      CatalogLookup(prefix, i);
    }
  }

  /** The symbol shown for an order: the commodity's, or 'Unknown' when the
      catalog does not have the id. */
  function SymbolFor(commodities: map<int, Commodity>, commodityId: int): (s: string)
    ensures commodityId in commodities ==> s == commodities[commodityId].symbol
    ensures commodityId !in commodities ==> s == "Unknown"
  {
    if commodityId in commodities then commodities[commodityId].symbol else "Unknown"
  }

  /** The symbol shown for an order after the catalog was loaded from
      `data`: that of the last listed commodity with the order's commodity
      id, or 'Unknown' when none is listed. */
  lemma SymbolShown(data: seq<Commodity>, id: int)
    ensures (forall i :: 0 <= i < |data| ==> data[i].id != id) ==> SymbolFor(Catalog(data), id) == "Unknown"
    ensures forall i :: 0 <= i < |data| && data[i].id == id && (forall j :: i < j < |data| ==> data[j].id != id) ==>
      SymbolFor(Catalog(data), id) == data[i].symbol
  {
    forall i | 0 <= i < |data| && data[i].id == id && (forall j :: i < j < |data| ==> data[j].id != id)
      ensures SymbolFor(Catalog(data), id) == data[i].symbol
    {
      CatalogLookup(data, i);
    }
  }

  /** The cancel-button test of the orders table, as written: the status is
      literally 'open' or 'partially_filled'. */
  function CancelOfferedAsWritten(status: string): (b: bool)
    ensures status == StatusValue(Open) ==> b
    ensures b ==> ParseStatus(status) != Some(Partial)
  {
    status == "open" || status == "partially_filled"
  }

  /** The server never sends 'partially_filled': a PARTIAL order, which the
      server would still cancel, gets no button. */
  lemma PartialNotOffered()
    ensures IsActive(Partial) && !CancelOfferedAsWritten(ToDict(Order(1, 1, 1, Buy, Partial, 1.0, 2.0, 1.0, 0)).status)
    ensures forall s :: CancelOfferedAsWritten(StatusValue(s)) <==> s == Open
  {
    assert StatusValue(Partial) == "partial";
  }

  /** The cancel-button test that matches what `cancel_order` accepts: the
      status decodes to OPEN or PARTIAL. */
  function CancelOffered(status: string): (b: bool)
    ensures b <==> status == StatusValue(Open) || status == StatusValue(Partial)
  {
    var s := ParseStatus(status);
    s.Some? && IsActive(s.value)
  }

  /** A button is offered for exactly the orders the server would cancel. */
  lemma CancelOfferedMatchesServer(o: Order)
    ensures CancelOffered(ToDict(o).status) <==> IsActive(o.status)
  {
  }

  /** The value of a string of decimal digits. */
  function DigitsValue(s: string): nat
    requires forall i :: 0 <= i < |s| ==> '0' <= s[i] <= '9'
    decreases |s|
  {
    if s == [] then 0
    else DigitsValue(s[..|s| - 1]) * 10 + (s[|s| - 1] as int - '0' as int)
  }

  /** The digit `Digit(d)` stands for `d`. */
  lemma DigitCode(d: nat)
    requires d < 10
    ensures Digit(d) as int - '0' as int == d
  {
    assert d == 0 || d == 1 || d == 2 || d == 3 || d == 4 || d == 5 || d == 6 || d == 7 || d == 8 || d == 9;
  }

  /** `parseInt` on a string of decimal digits; anything else is NaN. */
  function ParseNat(s: string): (r: Option<nat>)
    ensures r.Some? <==> |s| > 0 && forall i :: 0 <= i < |s| ==> '0' <= s[i] <= '9'
  {
    if |s| > 0 && forall i :: 0 <= i < |s| ==> '0' <= s[i] <= '9' then Some(DigitsValue(s)) else None
  }

  /** `parseInt` reads back the decimal text of a number. */
  lemma {:induction false} ParseNatRoundTrip(n: nat)
    ensures ParseNat(NatToString(n)) == Some(n)
    decreases n
  {
    var s := NatToString(n);
    if n >= 10 {
      ParseNatRoundTrip(n / 10);
      var prefix := NatToString(n / 10);
      assert s == prefix + [Digit(n % 10)];
      assert s[..|s| - 1] == prefix;
      DigitCode(n % 10);
    } else {
      assert s == [Digit(n)] && s[..0] == [];
      DigitCode(n);
      assert DigitsValue(s) == DigitsValue(s[..0]) * 10 + (s[0] as int - '0' as int);
    }
  }

  class Session {
    var apiKey: Option<string>
    var storedKey: Option<string>
    var signedIn: bool
    var selectedCommodityId: Option<string>
    var commodities: map<int, Commodity>
    var orderBookIntervalId: Option<nat>
    var live: set<nat>
    var nextHandle: nat
    var requests: seq<Request>
    var errors: seq<string>
    var bids: seq<Level>
    var asks: seq<Level>

    function TimersOf(): Timers
      reads this
    {
      Timers(orderBookIntervalId, live, nextHandle)
    }

    predicate Valid()
      reads this
    {
      OneLive(TimersOf())
    }

    /** `!selectedCommodityId` is false: a non-empty selection. */
    predicate Selected()
      reads this
    {
      selectedCommodityId.Some? && selectedCommodityId.value != ""
    }

    /** Page load: the key is read back from `localStorage`; nothing is
        selected, the catalog is empty and no interval is armed. */
    constructor (stored: Option<string>)
      ensures Valid()
      ensures apiKey == stored && storedKey == stored && !signedIn
      ensures selectedCommodityId.None? && commodities == map[] && orderBookIntervalId.None? && live == {}
      ensures requests == [] && errors == [] && bids == [] && asks == []
    {
      apiKey := stored;
      storedKey := stored;
      signedIn := false;
      selectedCommodityId := None;
      commodities := map[];
      orderBookIntervalId := None;
      live := {};
      nextHandle := 1;
      requests := [];
      errors := [];
      bids := [];
      asks := [];
    }

    method ClearInterval(id: Option<nat>)
      modifies this
      ensures TimersOf() == ClearTimer(old(TimersOf()), id)
      ensures apiKey == old(apiKey) && storedKey == old(storedKey) && signedIn == old(signedIn)
      ensures selectedCommodityId == old(selectedCommodityId) && commodities == old(commodities)
      ensures requests == old(requests) && errors == old(errors) && bids == old(bids) && asks == old(asks)
    {
      if id.Some? {
        live := live - {id.value};
      }
    }

    method SetInterval()
      modifies this
      ensures TimersOf() == Arm(old(TimersOf()))
      ensures apiKey == old(apiKey) && storedKey == old(storedKey) && signedIn == old(signedIn)
      ensures selectedCommodityId == old(selectedCommodityId) && commodities == old(commodities)
      ensures requests == old(requests) && errors == old(errors) && bids == old(bids) && asks == old(asks)
    {
      orderBookIntervalId := Some(nextHandle);
      live := live + {nextHandle};
      nextHandle := nextHandle + 1;
    }

    /** `fetchOrderBook`: with no selection it returns before any request;
        otherwise it requests the book of the current selection. */
    method FetchOrderBook()
      modifies this
      ensures Selected() ==> requests == old(requests) + [GetOrderBook(selectedCommodityId.value)]
      ensures !Selected() ==> requests == old(requests)
      ensures apiKey == old(apiKey) && storedKey == old(storedKey) && signedIn == old(signedIn)
      ensures selectedCommodityId == old(selectedCommodityId) && commodities == old(commodities)
      ensures TimersOf() == old(TimersOf())
      ensures errors == old(errors) && bids == old(bids) && asks == old(asks)
    {
      if !(selectedCommodityId.Some? && selectedCommodityId.value != "") {
        return;
      }
      requests := requests + [GetOrderBook(selectedCommodityId.value)];
    }

    /** `updateOrderBook(data)`: both tables are replaced by the reply's levels. */
    method ShowOrderBook(replyBids: seq<Level>, replyAsks: seq<Level>)
      modifies this
      ensures bids == replyBids && asks == replyAsks
      ensures apiKey == old(apiKey) && storedKey == old(storedKey) && signedIn == old(signedIn)
      ensures selectedCommodityId == old(selectedCommodityId) && commodities == old(commodities)
      ensures TimersOf() == old(TimersOf()) && requests == old(requests) && errors == old(errors)
    {
      bids := replyBids;
      asks := replyAsks;
    }

    /** An armed interval fires: the callback requests the book of the
        selection current at that moment, or does nothing without one. */
    method Tick(handle: nat)
      requires handle in live
      modifies this
      ensures Selected() ==> requests == old(requests) + [GetOrderBook(selectedCommodityId.value)]
      ensures !Selected() ==> requests == old(requests)
      ensures apiKey == old(apiKey) && storedKey == old(storedKey) && signedIn == old(signedIn)
      ensures selectedCommodityId == old(selectedCommodityId) && commodities == old(commodities)
      ensures TimersOf() == old(TimersOf())
      ensures errors == old(errors) && bids == old(bids) && asks == old(asks)
    {
      if selectedCommodityId.Some? && selectedCommodityId.value != "" {
        FetchOrderBook();
      }
    }

    /** `handleCommodityChange` with the select showing `value`. A non-empty
        value is fetched at once and polled by a new interval, the held one
        cleared first; the empty value clears the held interval and empties
        both tables. Only the held interval is cleared: from a state where
        it is the only one armed (`Valid`), exactly the new one is armed
        afterwards, or none for the empty value. */
    method HandleCommodityChange(value: string)
      modifies this
      ensures old(Valid()) ==> Valid()
      ensures selectedCommodityId == Some(value)
      ensures value != "" ==>
        && TimersOf() == Rearm(old(TimersOf()))
        && requests == old(requests) + [GetOrderBook(value)]
        && bids == old(bids) && asks == old(asks)
      ensures value != "" && old(Valid()) ==> live == {orderBookIntervalId.value}
      ensures value == "" ==>
        && TimersOf() == ClearTimer(old(TimersOf()), old(orderBookIntervalId))
        && requests == old(requests) && bids == [] && asks == []
      ensures value == "" && old(Valid()) ==> live == {}
      ensures apiKey == old(apiKey) && storedKey == old(storedKey) && signedIn == old(signedIn)
      ensures commodities == old(commodities) && errors == old(errors)
    {
      selectedCommodityId := Some(value);
      if value != "" {
        FetchOrderBook();
        ghost var t := TimersOf();
        ClearInterval(orderBookIntervalId);
        SetInterval();
        if OneLive(t) {
          RearmLeavesOne(t);
        }
      } else {
        if Valid() {
          ClearLeavesNone(TimersOf());
        }
        ClearInterval(orderBookIntervalId);
        bids := [];
        asks := [];
      }
    }

    /** `setupOrderBookUpdates` up to its `await`: the held interval is
        cleared, and the current selection, if any, is fetched. */
    method SetupOrderBookUpdatesBegin()
      modifies this
      ensures old(Valid()) ==> Valid() && live == {}
      ensures TimersOf() == SetupBegin(old(TimersOf()))
      ensures Selected() ==> requests == old(requests) + [GetOrderBook(selectedCommodityId.value)]
      ensures !Selected() ==> requests == old(requests)
      ensures apiKey == old(apiKey) && storedKey == old(storedKey) && signedIn == old(signedIn)
      ensures selectedCommodityId == old(selectedCommodityId) && commodities == old(commodities)
      ensures errors == old(errors) && bids == old(bids) && asks == old(asks)
    {
      if orderBookIntervalId.Some? {
        ClearInterval(orderBookIntervalId);
      }
      if selectedCommodityId.Some? && selectedCommodityId.value != "" {
        FetchOrderBook();
      }
    }

    /** `setupOrderBookUpdates` after its `await`, with the held interval
        cleared again before the new one is armed (`SetupEnd`): exactly one
        interval is armed afterwards, whatever ran in between. */
    method SetupOrderBookUpdatesEnd()
      requires Valid()
      modifies this
      ensures Valid() && orderBookIntervalId.Some? && live == {orderBookIntervalId.value}
      ensures TimersOf() == SetupEnd(old(TimersOf()))
      ensures apiKey == old(apiKey) && storedKey == old(storedKey) && signedIn == old(signedIn)
      ensures selectedCommodityId == old(selectedCommodityId) && commodities == old(commodities)
      ensures requests == old(requests) && errors == old(errors) && bids == old(bids) && asks == old(asks)
    {
      ghost var t := TimersOf();
      ClearInterval(orderBookIntervalId);
      SetInterval();
      SetupEndLeavesOne(t);
    }

    /** `setupOrderBookUpdates` after its `await`, as written: a new interval
        is armed and held without clearing the held one, so every interval
        armed before stays armed (`SetupEndAsWritten`). */
    method SetupOrderBookUpdatesEndAsWritten()
      modifies this
      ensures TimersOf() == SetupEndAsWritten(old(TimersOf()))
      ensures apiKey == old(apiKey) && storedKey == old(storedKey) && signedIn == old(signedIn)
      ensures selectedCommodityId == old(selectedCommodityId) && commodities == old(commodities)
      ensures requests == old(requests) && errors == old(errors) && bids == old(bids) && asks == old(asks)
    {
      SetInterval();
    }

    /** `handleLogout`: the key is forgotten in memory and in storage, the
        sign-in form is shown, and the held interval is cleared. Only that
        one: from a state where it is the only one armed (`Valid`), none
        stays armed. */
    method Logout()
      modifies this
      ensures old(Valid()) ==> Valid() && live == {}
      ensures apiKey.None? && storedKey.None? && !signedIn
      ensures TimersOf() == ClearTimer(old(TimersOf()), old(orderBookIntervalId))
      ensures selectedCommodityId == old(selectedCommodityId) && commodities == old(commodities)
      ensures requests == old(requests) && errors == old(errors) && bids == old(bids) && asks == old(asks)
    {
      apiKey := None;
      storedKey := None;
      signedIn := false;
      if Valid() {
        ClearLeavesNone(TimersOf());
      }
      ClearInterval(orderBookIntervalId);
    }

    /** `fetchCustomerInfo` when the server refuses the stored key: the key
        is forgotten in memory and in storage and the sign-in form is shown. */
    method RejectStoredKey()
      modifies this
      ensures apiKey.None? && storedKey.None? && !signedIn
      ensures selectedCommodityId == old(selectedCommodityId) && commodities == old(commodities)
      ensures TimersOf() == old(TimersOf())
      ensures requests == old(requests) && errors == old(errors) && bids == old(bids) && asks == old(asks)
    {
      apiKey := None;
      storedKey := None;
      signedIn := false;
    }

    /** `fetchCommodities` with a successful reply `data`: the catalog is
        rebuilt from scratch, and a non-empty list selects its first entry
        as if the user had picked it. */
    method RefreshCatalog(data: seq<Commodity>)
      modifies this
      ensures old(Valid()) ==> Valid()
      ensures commodities == Catalog(data)
      ensures |data| > 0 ==>
        && selectedCommodityId == Some(IntToString(data[0].id))
        && TimersOf() == Rearm(old(TimersOf()))
        && requests == old(requests) + [GetOrderBook(IntToString(data[0].id))]
      ensures |data| > 0 && old(Valid()) ==> live == {orderBookIntervalId.value}
      ensures |data| == 0 ==>
        && selectedCommodityId == old(selectedCommodityId)
        && TimersOf() == old(TimersOf()) && requests == old(requests)
      ensures apiKey == old(apiKey) && storedKey == old(storedKey) && signedIn == old(signedIn)
      ensures errors == old(errors) && bids == old(bids) && asks == old(asks)
    {
      var catalog: map<int, Commodity> := map[];
      var i := 0;
      while i < |data|
        invariant 0 <= i <= |data|
        invariant catalog == Catalog(data[..i])
      {
        assert data[..i + 1][..i] == data[..i];
        catalog := catalog[data[i].id := data[i]];
        i := i + 1;
      }
      assert data[..i] == data;
      commodities := catalog;
      if |data| > 0 {
        HandleCommodityChange(IntToString(data[0].id));
      }
    }

    /** `handleCreateOrder`: without a selection an error is shown and no
        request is issued; otherwise the order is posted for the selected
        commodity. */
    method CreateOrder(orderType: string, price: real, quantity: real)
      modifies this
      ensures !old(Selected()) ==> requests == old(requests) && errors == old(errors) + ["Please select a commodity first"]
      ensures old(Selected()) ==>
        && requests == old(requests) + [PostOrder(ParseNat(old(selectedCommodityId).value), orderType, price, quantity)]
        && errors == old(errors)
      ensures apiKey == old(apiKey) && storedKey == old(storedKey) && signedIn == old(signedIn)
      ensures selectedCommodityId == old(selectedCommodityId) && commodities == old(commodities)
      ensures TimersOf() == old(TimersOf()) && bids == old(bids) && asks == old(asks)
    {
      if !(selectedCommodityId.Some? && selectedCommodityId.value != "") {
        errors := errors + ["Please select a commodity first"];
        return;
      }
      requests := requests + [PostOrder(ParseNat(selectedCommodityId.value), orderType, price, quantity)];
    }

    /** `handleRegister`: mismatched passwords show an error and issue no
        request; otherwise the registration is posted. */
    method Register(name: string, email: string, password: string, confirmPassword: string)
      modifies this
      ensures password != confirmPassword ==> requests == old(requests) && errors == old(errors) + ["Passwords do not match"]
      ensures password == confirmPassword ==>
        requests == old(requests) + [PostCustomer(name, email, password)] && errors == old(errors)
      ensures apiKey == old(apiKey) && storedKey == old(storedKey) && signedIn == old(signedIn)
      ensures selectedCommodityId == old(selectedCommodityId) && commodities == old(commodities)
      ensures TimersOf() == old(TimersOf()) && bids == old(bids) && asks == old(asks)
    {
      if password != confirmPassword {
        errors := errors + ["Passwords do not match"];
        return;
      }
      requests := requests + [PostCustomer(name, email, password)];
    }
  }
}
