/**
 The monthly request budget with daily pacing (internal/tokenregistry/budget.go).

 A clock reading is its UTC calendar date; whether the state could be written
 to disk is an input.
 */
module Budget {

  // ------------------------------------------------------------ the calendar

  datatype Date = Date(year: int, month: int, day: int)

  datatype MonthKey = NoMonth | Month(year: int, month: int)

  function MonthOf(now: Date): MonthKey {
    Month(now.year, now.month)
  }

  predicate Leap(year: int) {
    year % 4 == 0 && (year % 100 != 0 || year % 400 == 0)
  }

  function DaysInMonth(now: Date): int {
    if now.month == 2 then (if Leap(now.year) then 29 else 28)
    else if now.month in {4, 6, 9, 11} then 30
    else 31
  }

  const MONTH_LENGTHS := [31, 28, 31, 30, 31, 30, 31, 31, 30, 31, 30, 31]

  /** The months have their lengths, with a 29th of February in 2000 and 2024 but not in 1900. */
  lemma MonthsHaveTheirLengths(now: Date)
    requires 1 <= now.month <= 12
    ensures DaysInMonth(now) == MONTH_LENGTHS[now.month - 1] + (if now.month == 2 && Leap(now.year) then 1 else 0)
    ensures Leap(2000) && Leap(2024) && !Leap(1900) && !Leap(2023)
  {
  }

  predicate OnCalendar(now: Date) {
    1 <= now.month <= 12 && 1 <= now.day <= DaysInMonth(now)
  }

  // ------------------------------------------------------------ rounding up

  function Ceil(x: real): int {
    -((-x).Floor)
  }

  /** `n` is below the rounded-up quotient exactly when `n * b` is below `a`. */
  lemma BelowCeil(n: int, a: int, b: int)
    requires b > 0
    ensures n < Ceil(a as real / b as real) <==> n * b < a
  {
    var x := a as real / b as real;
    assert x * b as real == a as real;
    assert n < Ceil(x) <==> (n as real) < x;
    if (n as real) < x {
      assert n as real * b as real < x * b as real;
    } else {
      assert n as real * b as real >= x * b as real;
    }
    assert (n * b) as real == n as real * b as real;
  }

  // ------------------------------------------------------------ the state

  datatype State = State(month: MonthKey, used: int, byDay: map<Date, int>)

  datatype Config = Config(enabled: bool, monthlyLimit: int)
  {
    predicate Active() {
      enabled && monthlyLimit > 0
    }
  }

  datatype Snapshot = Snapshot(enabled: bool, month: MonthKey, used: int, monthlyLimit: int, remaining: int,
                               todayUsed: int, todayCap: int, remainingDays: int)

  datatype Answer = Allowed | MonthlyLimit | DailyPacing | SaveFailed

  function UsedOn(byDay: map<Date, int>, day: Date): int {
    if day in byDay then byDay[day] else 0
  }

  /** A new month starts from nothing. */
  function Reset(s: State, now: Date): State {
    if s.month == MonthOf(now) then s else State(MonthOf(now), 0, map[])
  }

  function RemainingDays(now: Date): int {
    var d := DaysInMonth(now) - now.day + 1;
    if d <= 0 then 1 else d
  }

  function TakeSnapshot(c: Config, s: State, now: Date): Snapshot {
    var remaining := if c.monthlyLimit - s.used < 0 then 0 else c.monthlyLimit - s.used;
    var cap := if c.monthlyLimit > 0 then Ceil(remaining as real / RemainingDays(now) as real) else 0;
    Snapshot(c.Active(), s.month, s.used, c.monthlyLimit, remaining, UsedOn(s.byDay, now), cap, RemainingDays(now))
  }

  /**
   What is used and what remains add up to the limit, the days from today on to the days of the month, and the cap is
   the least whole number that uses up the rest when it is spent on each of them.
   */
  lemma SnapshotAddsUp(c: Config, s: State, now: Date)
    requires OnCalendar(now) && 0 <= s.used <= c.monthlyLimit && c.monthlyLimit > 0
    ensures var snap := TakeSnapshot(c, s, now);
      && snap.used == s.used && snap.used + snap.remaining == snap.monthlyLimit == c.monthlyLimit
      && snap.month == s.month && snap.enabled == c.enabled
      && (now in s.byDay ==> snap.todayUsed == s.byDay[now]) && (now !in s.byDay ==> snap.todayUsed == 0)
      && now.day - 1 + snap.remainingDays == DaysInMonth(now)
      && (snap.todayCap - 1) * snap.remainingDays < snap.remaining <= snap.todayCap * snap.remainingDays
  {
    hide Ceil;
    var snap := TakeSnapshot(c, s, now);
    BelowCeil(snap.todayCap, snap.remaining, snap.remainingDays);
    BelowCeil(snap.todayCap - 1, snap.remaining, snap.remainingDays);
  }

  /** What one request does to the state, with the save succeeding or not. */
  function Request(c: Config, s: State, cost: int, now: Date, saveOk: bool): (State, Answer) {
    var units := if cost <= 0 then 1 else cost;
    var t := Reset(s, now);
    if !c.Active() then (t, Allowed)
    else
      var snap := TakeSnapshot(c, t, now);
      if t.used + units > c.monthlyLimit then (t, MonthlyLimit)
      else if snap.remainingDays > 1 && snap.todayCap > 0 && UsedOn(t.byDay, now) + units > snap.todayCap then (t, DailyPacing)
      else (State(t.month, t.used + units, t.byDay[now := UsedOn(t.byDay, now) + units]),
            if saveOk then Allowed else SaveFailed)
  }

  class CoinGeckoBudget {
    var enabled: bool
    var monthlyLimit: int
    var month: MonthKey
    var used: int
    var byDayUsed: map<Date, int>

    function Value(): State
      reads this
    {
      State(month, used, byDayUsed)
    }

    function Settings(): Config
      reads this
    {
      Config(enabled, monthlyLimit)
    }

    method ResetIfNeeded(now: Date)
      modifies this`month, this`used, this`byDayUsed
      ensures Value() == Reset(old(Value()), now)
    {
      if month == MonthOf(now) {
        return;
      }
      month, used, byDayUsed := MonthOf(now), 0, map[];
    }

    /** A refused request changes nothing but the month; a failed save keeps the spending it could not record. */
    method TryConsume(cost: int, now: Date, saveOk: bool) returns (allowed: bool, answer: Answer, snap: Snapshot)
      modifies this`month, this`used, this`byDayUsed
      ensures (Value(), answer) == Request(Settings(), old(Value()), cost, now, saveOk)
      ensures allowed <==> answer == Allowed
      ensures snap == TakeSnapshot(Settings(), if allowed then Value() else Reset(old(Value()), now), now)
    {
      var units := cost;
      if units <= 0 {
        units := 1;
      }
      ResetIfNeeded(now);
      if !(enabled && monthlyLimit > 0) {
        return true, Allowed, TakeSnapshot(Settings(), Value(), now);
      }
      snap := TakeSnapshot(Settings(), Value(), now);
      if used + units > monthlyLimit {
        return false, MonthlyLimit, snap;
      }
      if snap.remainingDays > 1 && snap.todayCap > 0 && UsedOn(byDayUsed, now) + units > snap.todayCap {
        return false, DailyPacing, snap;
      }
      used := used + units;
      byDayUsed := byDayUsed[now := UsedOn(byDayUsed, now) + units];
      if !saveOk {
        return false, SaveFailed, snap;
      }
      return true, Allowed, TakeSnapshot(Settings(), Value(), now);
    }
  }

  function Units(cost: int): int {
    if cost <= 0 then 1 else cost
  }

  /**
   Room for a request, in whole numbers: the month's use stays within the limit, and on every day but
   the last the day's use less one unit, times the days left, stays below what the month has left.
   */
  predicate Fits(c: Config, s: State, cost: int, now: Date) {
    var t, days := Reset(s, now), RemainingDays(now);
    && t.used + Units(cost) <= c.monthlyLimit
    && (days > 1 ==> (UsedOn(t.byDay, now) + Units(cost) - 1) * days < c.monthlyLimit - t.used)
  }

  /** What a caller can tell before the call: the units are spent exactly when the request fits, saved or not. */
  lemma RefusedCostsNothingIff(c: Config, s: State, cost: int, now: Date, saveOk: bool)
    requires c.Active()
    ensures var (t, answer) := Request(c, s, cost, now, saveOk);
            var before, fits := Reset(s, now), Fits(c, s, cost, now);
            && (answer == Allowed <==> fits && saveOk)
            && (answer != Allowed ==> (t == before <==> !fits))
            && (answer != Allowed && t != before <==> fits && !saveOk)
            && t.used == before.used + (if fits then Units(cost) else 0)
            && UsedOn(t.byDay, now) == UsedOn(before.byDay, now) + (if fits then Units(cost) else 0)
            && t.month == before.month && t.byDay - {now} == before.byDay - {now}
  {
    var t, days := Reset(s, now), RemainingDays(now);
    if t.used + Units(cost) <= c.monthlyLimit {
      BelowCeil(UsedOn(t.byDay, now) + Units(cost) - 1, c.monthlyLimit - t.used, days);
      BelowCeil(0, c.monthlyLimit - t.used, days);
    }
  }

  /** On the last day, a budget of one unit: the save fails, the unit stays spent, and nothing is left for a retry. */
  lemma FailedSaveKeepsUnits() returns (c: Config, s: State, now: Date)
    ensures c.Active() && OnCalendar(now) && Balanced(s) && s.month == MonthOf(now) && s.used == 0
    ensures var (t, answer) := Request(c, s, 1, now, false);
      answer == SaveFailed && t.used == 1 && Request(c, t, 1, now, true) == (t, MonthlyLimit)
  {
    c, now := Config(true, 1), Date(2025, 1, 31);
    s := State(MonthOf(now), 0, map[]);
  }

  // ------------------------------------------------------------ the books balance

  ghost function SumOver(byDay: map<Date, int>, days: set<Date>): int
    requires days <= byDay.Keys
  {
    if days == {} then 0
    else
      var d :| d in days;
      byDay[d] + SumOver(byDay, days - {d})
  }

  lemma {:induction false} SumOverAny(byDay: map<Date, int>, days: set<Date>, d: Date)
    requires days <= byDay.Keys && d in days
    ensures SumOver(byDay, days) == byDay[d] + SumOver(byDay, days - {d})
  {
    var e :| e in days && SumOver(byDay, days) == byDay[e] + SumOver(byDay, days - {e});
    if d != e {
      SumOverAny(byDay, days - {e}, d);
      SumOverAny(byDay, days - {d}, e);
      assert days - {e} - {d} == days - {d} - {e};
    }
  }

  lemma {:induction false} SumOverSame(a: map<Date, int>, b: map<Date, int>, days: set<Date>)
    requires days <= a.Keys && days <= b.Keys
    requires forall d :: d in days ==> a[d] == b[d]
    ensures SumOver(a, days) == SumOver(b, days)
  {
    if days != {} {
      var d :| d in days;
      SumOverAny(a, days, d);
      SumOverAny(b, days, d);
      SumOverSame(a, b, days - {d});
    }
  }

  ghost function Total(byDay: map<Date, int>): int {
    SumOver(byDay, byDay.Keys)
  }

  lemma TotalAfterSpending(byDay: map<Date, int>, day: Date, units: int)
    ensures Total(byDay[day := UsedOn(byDay, day) + units]) == Total(byDay) + units
  {
    var after := byDay[day := UsedOn(byDay, day) + units];
    SumOverAny(after, after.Keys, day);
    SumOverSame(byDay, after, byDay.Keys - {day});
    if day in byDay {
      SumOverAny(byDay, byDay.Keys, day);
      assert after.Keys == byDay.Keys;
    } else {
      assert after.Keys - {day} == byDay.Keys == byDay.Keys - {day};
    }
  }

  /** The day entries add up to the month's use, and no entry is negative. */
  ghost predicate Balanced(s: State) {
    && s.used == Total(s.byDay)
    && s.used >= 0
    && forall d :: d in s.byDay ==> s.byDay[d] >= 0
  }

  /** One request at a time, on any dates, with any costs and any saves failing. */
  datatype Call = Call(cost: int, now: Date, saveOk: bool)

  function Run(c: Config, s: State, calls: seq<Call>): State
    decreases |calls|
  {
    if calls == [] then s
    else Run(c, Request(c, s, calls[0].cost, calls[0].now, calls[0].saveOk).0, calls[1..])
  }

  lemma RequestKeepsBooks(c: Config, s: State, cost: int, now: Date, saveOk: bool)
    requires Balanced(s)
    ensures Balanced(Request(c, s, cost, now, saveOk).0)
    ensures c.Active() && s.used <= c.monthlyLimit ==> Request(c, s, cost, now, saveOk).0.used <= c.monthlyLimit
  {
    var units := if cost <= 0 then 1 else cost;
    TotalAfterSpending(Reset(s, now).byDay, now, units);
  }

  /** Over every run the day entries add up to the use, and the use never passes the limit. */
  lemma {:induction false} RunKeepsBooks(c: Config, s: State, calls: seq<Call>)
    requires Balanced(s)
    ensures Balanced(Run(c, s, calls))
    ensures c.Active() && s.used <= c.monthlyLimit ==> Run(c, s, calls).used <= c.monthlyLimit
    decreases |calls|
  {
    if calls != [] {
      RequestKeepsBooks(c, s, calls[0].cost, calls[0].now, calls[0].saveOk);
      RunKeepsBooks(c, Request(c, s, calls[0].cost, calls[0].now, calls[0].saveOk).0, calls[1..]);
    }
  }

  /** The units of the calls that were allowed. */
  function AllowedUnits(c: Config, s: State, calls: seq<Call>): int
    decreases |calls|
  {
    if calls == [] then 0
    else
      var (t, answer) := Request(c, s, calls[0].cost, calls[0].now, calls[0].saveOk);
      (if answer == Allowed then Units(calls[0].cost) else 0) + AllowedUnits(c, t, calls[1..])
  }

  /** Call `i` fitted into the budget as it then was, and its save failed. */
  predicate LostAt(c: Config, s: State, calls: seq<Call>, i: nat)
    requires i < |calls|
  {
    Fits(c, Run(c, s, calls[..i]), calls[i].cost, calls[i].now) && !calls[i].saveOk
  }

  /** No request that fitted was lost to a failed save. */
  ghost predicate NoneLost(c: Config, s: State, calls: seq<Call>) {
    forall i: nat :: i < |calls| ==> !LostAt(c, s, calls, i)
  }

  lemma NoneLostStep(c: Config, s: State, calls: seq<Call>)
    requires calls != []
    ensures var call := calls[0];
      NoneLost(c, s, calls)
      <==> (Fits(c, s, call.cost, call.now) ==> call.saveOk)
           && NoneLost(c, Request(c, s, call.cost, call.now, call.saveOk).0, calls[1..])
  {
    hide Request, Fits;
    var call, rest := calls[0], calls[1..];
    var t := Request(c, s, call.cost, call.now, call.saveOk).0;
    assert calls[..0] == [];
    assert LostAt(c, s, calls, 0) <==> Fits(c, s, call.cost, call.now) && !call.saveOk;
    forall i: nat | i < |rest| ensures LostAt(c, t, rest, i) <==> LostAt(c, s, calls, i + 1) {
      assert calls[..i + 1][1..] == rest[..i];
    }
    if NoneLost(c, t, rest) && (Fits(c, s, call.cost, call.now) ==> call.saveOk) {
      forall i: nat | i < |calls| ensures !LostAt(c, s, calls, i) {
        assert i > 0 ==> !LostAt(c, t, rest, i - 1);
      }
    }
  }

  /** Within a month the use grows by exactly the allowed units when no fitting request failed to save, else by more. */
  lemma {:induction false} UseIsAllowedIff(c: Config, s: State, calls: seq<Call>)
    requires c.Active() && forall i :: 0 <= i < |calls| ==> MonthOf(calls[i].now) == s.month
    ensures Run(c, s, calls).used - s.used >= AllowedUnits(c, s, calls)
    ensures Run(c, s, calls).used - s.used == AllowedUnits(c, s, calls) <==> NoneLost(c, s, calls)
    decreases |calls|
  {
    if calls != [] {
      var call := calls[0];
      var t := Request(c, s, call.cost, call.now, call.saveOk).0;
      RefusedCostsNothingIff(c, s, call.cost, call.now, call.saveOk);
      hide Request, Fits, NoneLost;
      UseIsAllowedIff(c, t, calls[1..]);
      NoneLostStep(c, s, calls);
    }
  }

  // ------------------------------------------------------------ what a day admits

  /** `n` unit requests on one day, all saved: the final state and how many were admitted. */
  function Demand(c: Config, s: State, now: Date, n: nat): (State, nat) {
    if n == 0 then (s, 0)
    else
      var (t, k) := Demand(c, s, now, n - 1);
      var (u, answer) := Request(c, t, 1, now, true);
      (u, if answer == Allowed then k + 1 else k)
  }

  /** The closed form: a fair share over one day more than are left, and everything on the last day. */
  function Quota(remaining: int, days: int): int
    requires days >= 1
  {
    if days == 1 then remaining else Ceil(remaining as real / (days + 1) as real)
  }

  lemma QuotaBounds(r: int, days: int)
    requires days >= 1 && r >= 0
    ensures 0 <= Quota(r, days) <= r
  {
    if days > 1 {
      BelowCeil(-1, r, days + 1);
      BelowCeil(r, r, days + 1);
      assert r * (days + 1) >= r;
    }
  }

  /** With `t` of the day's start `r` already spent today, one more is admitted exactly when `t` is below the quota. */
  lemma AdmitsBelowQuota(r: int, t: int, days: int)
    requires 0 <= t <= r && days > 1
    ensures t < r && t + 1 <= Ceil((r - t) as real / days as real) <==> t < Quota(r, days)
    ensures t < r ==> Ceil((r - t) as real / days as real) > 0
  {
    BelowCeil(t, r - t, days);
    BelowCeil(0, r - t, days);
    BelowCeil(t, r, days + 1);
    assert t * (days + 1) == t * days + t;
    if t == r {
      assert t * (days + 1) >= r;
    }
  }

  /** The state after `t` admitted unit requests on `now`, starting from `s`. */
  function Spent(s: State, now: Date, t: nat): State {
    if t == 0 then s else State(s.month, s.used + t, s.byDay[now := UsedOn(s.byDay, now) + t])
  }

  /** A day of the current month that nothing was spent on yet. */
  ghost predicate FreshDay(c: Config, s: State, now: Date) {
    && c.Active() && OnCalendar(now) && s.month == MonthOf(now)
    && s.used <= c.monthlyLimit && UsedOn(s.byDay, now) == 0
  }

  lemma OneMoreUnit(c: Config, s: State, now: Date, t: nat)
    requires FreshDay(c, s, now) && t <= c.monthlyLimit - s.used
    ensures var r := Request(c, Spent(s, now, t), 1, now, true);
      if t < Quota(c.monthlyLimit - s.used, RemainingDays(now))
      then r == (Spent(s, now, t + 1), Allowed)
      else r.0 == Spent(s, now, t) && r.1 != Allowed
  {
    var u, r, days := Spent(s, now, t), c.monthlyLimit - s.used, RemainingDays(now);
    assert UsedOn(u.byDay, now) == t;
    assert s.byDay[now := t][now := t + 1] == s.byDay[now := t + 1];
    if days > 1 {
      AdmitsBelowQuota(r, t, days);
    }
  }

  /** How many of `n` requests a quota of `q` admits. */
  function Least(n: nat, q: int): (k: nat)
    requires q >= 0
    ensures k <= n && k <= q && (k == n || k == q)
  {
    if n < q then n else q
  }

  /** One request more, when the `n` before it led to the closed form. */
  lemma OneMoreDemand(c: Config, s: State, now: Date, n: nat, q: int)
    requires FreshDay(c, s, now) && 0 <= q <= c.monthlyLimit - s.used
    requires q == Quota(c.monthlyLimit - s.used, RemainingDays(now))
    requires Demand(c, s, now, n) == (Spent(s, now, Least(n, q)), Least(n, q))
    ensures Demand(c, s, now, n + 1) == (Spent(s, now, Least(n + 1, q)), Least(n + 1, q))
  {
    hide Request, Quota, Spent, FreshDay;
    OneMoreUnit(c, s, now, Least(n, q));
  }

  /** Of `n` requests on a fresh day exactly the first `Quota` are admitted. */
  lemma {:induction false} DayAdmits(c: Config, s: State, now: Date, n: nat)
    requires FreshDay(c, s, now)
    ensures var q := Quota(c.monthlyLimit - s.used, RemainingDays(now));
      && 0 <= q <= c.monthlyLimit - s.used
      && Demand(c, s, now, n) == (Spent(s, now, Least(n, q)), Least(n, q))
  {
    var q := Quota(c.monthlyLimit - s.used, RemainingDays(now));
    QuotaBounds(c.monthlyLimit - s.used, RemainingDays(now));
    if n > 0 {
      DayAdmits(c, s, now, n - 1);
      OneMoreDemand(c, s, now, n - 1, q);
    }
  }

  /** Serving every day of the rest of the month, `demand[i]` requests on the i-th of those days. */
  function ServeMonth(c: Config, s: State, now: Date, demand: seq<nat>): State
    decreases |demand|
  {
    if demand == [] then s
    else ServeMonth(c, Demand(c, s, now, demand[0]).0, now.(day := now.day + 1), demand[1..])
  }

  /** From `now` to the end of its month, with nothing spent yet on any of those days. */
  ghost predicate FreshMonth(c: Config, s: State, now: Date) {
    && c.Active() && OnCalendar(now) && s.month == MonthOf(now) && 0 <= s.used <= c.monthlyLimit
    && forall d: Date :: MonthOf(d) == MonthOf(now) && d.day >= now.day ==> UsedOn(s.byDay, d) == 0
  }

  /** Whatever the other days ask for, a month spends its limit exactly when the last day asks for all that is left. */
  lemma {:induction false} MonthSpendsLimitIff(c: Config, s: State, now: Date, demand: seq<nat>)
    requires FreshMonth(c, s, now) && |demand| == DaysInMonth(now) - now.day + 1
    ensures var last := |demand| - 1;
            var left := c.monthlyLimit - ServeMonth(c, s, now, demand[..last]).used;
            && 0 <= left && ServeMonth(c, s, now, demand).used <= c.monthlyLimit
            && (ServeMonth(c, s, now, demand).used == c.monthlyLimit <==> demand[last] >= left)
    decreases |demand|
  {
    var last := |demand| - 1;
    DayAdmits(c, s, now, demand[0]);
    if last == 0 {
      assert demand[..0] == [] && demand[1..] == [];
    } else {
      var next, t := now.(day := now.day + 1), Demand(c, s, now, demand[0]).0;
      assert DaysInMonth(next) == DaysInMonth(now);
      NextDayIsFresh(c, s, now, demand[0]);
      assert demand[1..][..last - 1] == demand[..last][1..];
      hide Demand, Quota, FreshMonth, DaysInMonth, Spent, Least;
      MonthSpendsLimitIff(c, t, next, demand[1..]);
    }
  }

  lemma NextDayIsFresh(c: Config, s: State, now: Date, n: nat)
    requires FreshMonth(c, s, now) && now.day < DaysInMonth(now)
    ensures FreshMonth(c, Demand(c, s, now, n).0, now.(day := now.day + 1))
  {
    hide Quota, Demand;
    DayAdmits(c, s, now, n);
    assert DaysInMonth(now.(day := now.day + 1)) == DaysInMonth(now);
  }

  /** So saturating the last day is enough. */
  lemma SaturatedMonthSpendsLimit(c: Config, s: State, now: Date, demand: seq<nat>)
    requires FreshMonth(c, s, now) && |demand| == DaysInMonth(now) - now.day + 1
    requires demand[|demand| - 1] >= c.monthlyLimit
    ensures ServeMonth(c, s, now, demand).used == c.monthlyLimit
  {
    MonthSpendsLimitIff(c, s, now, demand);
    ServeMonthNonNegative(c, s, now, demand[..|demand| - 1]);
  }

  lemma {:induction false} ServeMonthNonNegative(c: Config, s: State, now: Date, demand: seq<nat>)
    requires FreshMonth(c, s, now) && |demand| <= DaysInMonth(now) - now.day
    ensures ServeMonth(c, s, now, demand).used >= s.used
    decreases |demand|
  {
    if demand != [] {
      var t := Demand(c, s, now, demand[0]).0;
      DayAdmits(c, s, now, demand[0]);
      NextDayIsFresh(c, s, now, demand[0]);
      assert DaysInMonth(now.(day := now.day + 1)) == DaysInMonth(now);
      ServeMonthNonNegative(c, t, now.(day := now.day + 1), demand[1..]);
    }
  }
}
