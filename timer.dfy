/**
 * The browser-side timer of the exam page: reconciling the end time kept in
 * the tab's session storage with the server's deadline, and the countdown
 * text shown on each tick. Times here are integer milliseconds.
 */
module Timer {
  import opened Wrappers

  /** `serverEnd = end_ts * 1000`: the server deadline (seconds) in milliseconds. */
  function ServerEndMillis(endSeconds: int): int {
    endSeconds * 1000
  }

  /**
   * The stored end time after a render: `stored` is the value under the
   * storage key (None when absent, read as 0); it is overwritten only by a
   * strictly later server end. The result is also the `endTime` the
   * countdown uses (None would read as NaN).
   */
  function Reconcile(stored: Option<int>, serverEnd: int): (r: Option<int>)
    ensures r.Some? <==> stored.Some? || serverEnd > 0
    ensures r.Some? ==> r.value == Max(stored.GetOr(0), serverEnd)
  {
    if serverEnd > stored.GetOr(0) then Some(serverEnd) else stored
  }

  /** A stored end time never moves earlier, and a later server end always wins. */
  lemma ReconcileNeverShortens(stored: Option<int>, serverEnd: int)
    ensures stored.Some? ==> Reconcile(stored, serverEnd).Some? && Reconcile(stored, serverEnd).value >= stored.value
    ensures serverEnd > 0 ==> Reconcile(stored, serverEnd) == Some(Max(stored.GetOr(0), serverEnd))
    ensures Reconcile(Reconcile(stored, serverEnd), serverEnd) == Reconcile(stored, serverEnd)
  {
  }

  /** The stored value after a series of renders with the given server ends. */
  function ReconcileAll(stored: Option<int>, serverEnds: seq<int>): Option<int>
    decreases serverEnds
  {
    if serverEnds == [] then stored
    else ReconcileAll(Reconcile(stored, serverEnds[0]), serverEnds[1..])
  }

  /**
   * Over any series of renders the stored end time (read as 0 when absent)
   * is the latest of the starting value and every server end: reloads can
   * never shorten an attempt, and the value kept is one of those seen.
   * The key is present afterwards exactly when it was before or some
   * server end was positive.
   */
  lemma {:induction false} ReconcileAllIsLatest(stored: Option<int>, serverEnds: seq<int>)
    ensures ReconcileAll(stored, serverEnds).Some? <==>
              stored.Some? || exists i :: 0 <= i < |serverEnds| && serverEnds[i] > 0
    ensures ReconcileAll(stored, serverEnds).GetOr(0) >= stored.GetOr(0)
    ensures forall i :: 0 <= i < |serverEnds| ==> ReconcileAll(stored, serverEnds).GetOr(0) >= serverEnds[i]
    ensures || ReconcileAll(stored, serverEnds).GetOr(0) == stored.GetOr(0)
            || exists i :: 0 <= i < |serverEnds| && ReconcileAll(stored, serverEnds).GetOr(0) == serverEnds[i]
    decreases serverEnds
  {
    if serverEnds != [] {
      ReconcileAllIsLatest(Reconcile(stored, serverEnds[0]), serverEnds[1..]);
      forall i | 0 < i < |serverEnds|
        ensures serverEnds[i] == serverEnds[1..][i - 1]
      {
      }
    }
  }

  /**
   * The storage after the setup page renders, which removes the key
   * whatever it held: the first render of the next attempt then adopts that
   * attempt's server end, whatever deadline an earlier attempt left behind.
   */
  function AfterSetup(): (r: Option<int>)
    ensures forall serverEnd :: serverEnd > 0 ==> Reconcile(r, serverEnd) == Some(serverEnd)
  {
    None
  }

  /** What one tick shows: the deadline has passed, or minutes and seconds remain. */
  datatype Tick = Expired | Remaining(minutes: nat, seconds: nat)

  /**
   * One tick at time `now`: `rem = endTime - now`; `rem <= 0` expires
   * (the page then shows 00:00, drops the stored value and presses
   * submit), otherwise `m = floor(rem / 60000)`, `s = floor((rem % 60000) / 1000)`.
   */
  function TickAt(endTime: int, now: int): (t: Tick)
    ensures t.Expired? <==> endTime - now <= 0
    ensures t.Remaining? ==>
              && t.seconds < 60
              && t.minutes * 60000 + t.seconds * 1000 <= endTime - now < t.minutes * 60000 + t.seconds * 1000 + 1000
  {
    var rem := endTime - now;
    if rem <= 0 then Expired
    else Remaining(rem / 60000, (rem % 60000) / 1000)
  }

  /**
   * The storage after one tick: an expired tick removes the key, any other
   * tick leaves it as it was, so a render after expiry adopts the server end.
   */
  function TickStore(stored: Option<int>, endTime: int, now: int): (r: Option<int>)
    ensures TickAt(endTime, now).Expired? ==> r == None
    ensures TickAt(endTime, now).Remaining? ==> r == stored
    ensures TickAt(endTime, now).Expired? ==>
              forall serverEnd :: serverEnd > 0 ==> Reconcile(r, serverEnd) == Some(serverEnd)
  {
    if endTime - now <= 0 then None else stored
  }

  /**
   * The browser and the server against one deadline of `endTime` seconds,
   * on a clock reading of `now` whole seconds: the countdown has expired
   * once the server's check `now > endTime` fires, and already in the
   * second `now == endTime`, when the server still accepts the page.
   */
  lemma ClientExpiresNoLaterThanServer(endTime: int, now: int)
    ensures TickAt(ServerEndMillis(endTime), now * 1000).Expired? <==> now >= endTime
    ensures now > endTime ==> TickAt(ServerEndMillis(endTime), now * 1000).Expired?
    ensures now == endTime ==> TickAt(ServerEndMillis(endTime), now * 1000).Expired?
  {
  }

  /** The remaining time shown never grows as the clock advances. */
  lemma TickMonotone(endTime: int, now: int, later: int)
    requires now <= later
    ensures TickAt(endTime, now).Expired? ==> TickAt(endTime, later).Expired?
    ensures TickAt(endTime, later).Remaining? ==>
              var a, b := TickAt(endTime, now), TickAt(endTime, later);
              b.minutes * 60 + b.seconds <= a.minutes * 60 + a.seconds
  {
    var a, b := TickAt(endTime, now), TickAt(endTime, later);
    if b.Remaining? {
      assert (b.minutes * 60 + b.seconds) * 1000 < (a.minutes * 60 + a.seconds) * 1000 + 1000;
    }
  }

  function DigitChar(d: nat): char
    requires d < 10
  {
    "0123456789"[d]
  }

  /** JavaScript's decimal rendering of a non-negative integer (`'' + m`). */
  function Decimal(n: nat): (s: string)
    ensures |s| >= 1
    ensures forall i :: 0 <= i < |s| ==> '0' <= s[i] <= '9'
    ensures n < 10 <==> |s| == 1
  {
    if n < 10 then [DigitChar(n)] else Decimal(n / 10) + [DigitChar(n % 10)]
  }

  /** `(x < 10 ? '0' : '') + x`. */
  function Pad2(x: nat): (s: string)
    ensures forall i :: 0 <= i < |s| ==> '0' <= s[i] <= '9'
    ensures x < 100 ==> |s| == 2
    ensures |s| >= 2
  {
    (if x < 10 then "0" else "") + Decimal(x)
  }

  /** The text of the timer box. */
  function Display(t: Tick): (r: string)
    ensures t.Expired? ==> r == "00:00"
    ensures t.Remaining? && t.seconds < 60 ==> |r| >= 5 && r[|r| - 3] == ':'
    ensures t.Remaining? && t.minutes < 100 && t.seconds < 60 ==> |r| == 5
  {
    match t
    case Expired => "00:00"
    case Remaining(m, s) => Pad2(m) + ":" + Pad2(s)
  }

  /** The value of a string of decimal digits. */
  function DigitsValue(s: string): nat
    requires forall i :: 0 <= i < |s| ==> '0' <= s[i] <= '9'
  {
    if s == [] then 0 else DigitsValue(s[..|s| - 1]) * 10 + (s[|s| - 1] as int - '0' as int)
  }

  /** Reading the digits back gives the number rendered. */
  lemma {:induction false} DecimalRoundTrip(n: nat)
    ensures DigitsValue(Decimal(n)) == n
  {
    if n >= 10 {
      DecimalRoundTrip(n / 10);
      var s := Decimal(n);
      assert s[..|s| - 1] == Decimal(n / 10);
    }
  }

  lemma {:induction false} DigitsValueLeadingZero(s: string)
    requires forall i :: 0 <= i < |s| ==> '0' <= s[i] <= '9'
    ensures DigitsValue("0" + s) == DigitsValue(s)
  {
    if s != [] {
      var t := "0" + s;
      assert t[..|t| - 1] == "0" + s[..|s| - 1];
      DigitsValueLeadingZero(s[..|s| - 1]);
    } else {
      assert DigitsValue("0") == DigitsValue("") * 10 + 0;
    }
  }

  /** A padded field reads back as the number it shows. */
  lemma Pad2RoundTrip(x: nat)
    ensures DigitsValue(Pad2(x)) == x
  {
    DecimalRoundTrip(x);
    if x < 10 {
      DigitsValueLeadingZero(Decimal(x));
    } else {
      assert Pad2(x) == Decimal(x);
    }
  }

  /**
   * Reading the timer box back: the text before the colon gives the
   * minutes and the two digits after it the seconds.
   */
  lemma DisplayRoundTrip(m: nat, s: nat)
    requires s < 60
    ensures var text := Display(Remaining(m, s));
            && |text| >= 5 && text[|text| - 3] == ':'
            && (forall i :: 0 <= i < |text| && i != |text| - 3 ==> '0' <= text[i] <= '9')
            && DigitsValue(text[..|text| - 3]) == m
            && DigitsValue(text[|text| - 2..]) == s
  {
    var text := Display(Remaining(m, s));
    var pm, ps := Pad2(m), Pad2(s);
    assert text == pm + ":" + ps;
    assert text[..|text| - 3] == pm;
    assert text[|text| - 2..] == ps;
    Pad2RoundTrip(m);
    Pad2RoundTrip(s);
  }
}
