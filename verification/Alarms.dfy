/** The alarm table of timers.c. Times are counted from the last dispatch; base is the time of that dispatch. */
module Alarms {

  const TimevalMax := 0xFFFF

  /** TIMER_FREE, TIMER_ARMED, TIMER_TRIG and TIMER_TRIG_PERIOD; the last one is armed and to be triggered. */
  datatype TState = Free | Armed | Trig | TrigPeriod

  datatype Row = Row(state: TState, id: nat, val: nat, interval: nat)

  predicate IsArmed(r: Row) { r.state == Armed || r.state == TrigPeriod }

  predicate IsTrig(r: Row) { r.state == Trig || r.state == TrigPeriod }

  /** row->state &= ~TIMER_TRIG */
  function Untrig(r: Row): Row {
    r.(state := if r.state == Trig then Free else if r.state == TrigPeriod then Armed else r.state)
  }

  /** What the first loop of TimeDispatch makes of a row, when slept time units have passed, overrun of them after the
      wake-up. */
  function Marked(r: Row, slept: nat, overrun: nat): Row {
    if !IsArmed(r) then r
    else if r.val <= slept then
      if r.interval == 0 then r.(state := Trig) else r.(val := r.interval - overrun % r.interval, state := TrigPeriod)
    else r.(val := r.val - slept)
  }

  /** What a callback may do to the table; elapsed: the time since the last dispatch. */
  datatype Action = Set(id: nat, value: nat, period: nat, elapsed: nat) | Del(handle: nat)

  predicate Deletes(acts: seq<Action>, i: nat) {
    exists a :: 0 <= a < |acts| && acts[a] == Del(i)
  }

  /** Handles and times in range. */
  predicate Proper(acts: seq<Action>, n: nat) {
    forall a :: 0 <= a < |acts| ==> ProperAction(acts[a], n)
  }

  predicate ProperAction(a: Action, n: nat) {
    match a
    case Set(id, value, period, elapsed) => value + elapsed < 0x1_0000_0000
    case Del(handle) => handle < n
  }

  /** A periodic alarm, due at d, is next due at d': the first time after the dispatch which is a number of intervals
      after the wake-up. That is a number of intervals after d just when d is, and one interval with no overrun. */
  ghost predicate OnTime(interval: nat, d: nat, wake: nat, overrun: nat, d': nat) {
    && 0 < interval && wake + overrun < d' <= wake + overrun + interval && (d' - wake) % interval == 0
    && ((d' - d) % interval == 0 <==> (d - wake) % interval == 0)
    && (overrun == 0 ==> d' == wake + interval && (wake == d ==> d' == d + interval))
  }

  class AlarmTable {
    const rows: array<Row>
    var total: nat      // total_sleep_time
    var last: int       // last_timer_raw
    ghost var base: nat // the time of the last dispatch

    /** Every row in use lies at or below last, and the sleep ends no later than any armed row is due. */
    predicate Table()
      reads this`total, this`last, rows
    {
      && -1 <= last < rows.Length
      && (forall i :: last < i < rows.Length ==> rows[i].state == Free)
      && (forall i :: 0 <= i < rows.Length && IsArmed(rows[i]) ==> total <= rows[i].val)
    }

    /** Between dispatches nothing is to be triggered. */
    predicate Valid()
      reads this`total, this`last, rows
    {
      Table() && total <= TimevalMax && forall i :: 0 <= i < rows.Length ==> !IsTrig(rows[i])
    }

    constructor (n: nat)
      ensures Valid() && fresh(rows) && rows.Length == n && forall i :: 0 <= i < n ==> rows[i].state == Free
    {
      rows := new Row[n](_ => Row(Free, 0, 0, 0));
      total, last, base := TimevalMax, -1, 0;
    }

    /** When an armed row is due. */
    ghost function Deadline(i: nat): nat
      requires i < rows.Length
      reads this`base, rows
    {
      base + rows[i].val
    }

    /** SetAlarm, with a callback: the handle of a row that is due value units from now, or -1 if every row is in
        use. */
    method SetAlarm(id: nat, value: nat, period: nat, elapsed: nat) returns (handle: int)
      requires Table() && value + elapsed < 0x1_0000_0000
      modifies this`total, this`last, rows
      ensures Table() && total <= old(total)
      ensures handle == -1 <==> forall i :: 0 <= i < rows.Length ==> old(rows[i]).state != Free
      ensures handle == -1 ==> rows[..] == old(rows[..]) && total == old(total)
      ensures handle != -1 ==>
        && 0 <= handle < rows.Length && old(rows[handle]).state == Free
        && rows[handle] == Row(Armed, id, value + elapsed, period)
        && forall i :: 0 <= i < rows.Length && i != handle ==> rows[i] == old(rows[i])
      ensures handle != -1 ==> Deadline(handle) == base + elapsed + value
    {
      var row := 0;
      while row <= last + 1 && row < rows.Length
        invariant 0 <= row <= rows.Length && Table() && total == old(total) && last == old(last)
        invariant row <= last + 1 && forall i :: 0 <= i < rows.Length ==> rows[i] == old(rows[i])
        invariant forall i :: 0 <= i < row ==> rows[i].state != Free
      {
        if rows[row].state == Free {
          if row == last + 1 { last := last + 1; }
          var slept := if value < TimevalMax then value else TimevalMax;
          if total > elapsed && total - elapsed > slept { total := elapsed + slept; }
          rows[row] := Row(Armed, id, value + elapsed, period);
          return row;
        }
        row := row + 1;
      }
      handle := -1;
    }

    /** DelAlarm. */
    method DelAlarm(handle: nat)
      requires Table() && handle < rows.Length
      modifies this`last, rows
      ensures Table() && rows[handle].state == Free
      ensures forall i :: 0 <= i < rows.Length && i != handle ==> rows[i] == old(rows[i])
    {
      if handle == last { last := last - 1; }
      rows[handle] := rows[handle].(state := Free);
    }

    /** The first loop of TimeDispatch, and the new sleep. The time of the dispatch becomes the base. */
    method MarkDue(overrun: nat)
      requires Valid()
      modifies this`total, this`base, rows
      ensures Table() && base == old(base) + old(total) + overrun && total <= TimevalMax
      ensures forall i :: 0 <= i < rows.Length ==> rows[i] == Marked(old(rows[i]), old(total) + overrun, overrun)
    {
      var slept, next := total + overrun, TimevalMax;
      ghost var was := rows[..];
      for i := 0 to last + 1
        invariant 0 <= next <= TimevalMax && total == old(total) && base == old(base) && -1 <= last < rows.Length
        invariant forall k :: 0 <= k < i ==>
          rows[k] == Marked(was[k], slept, overrun) && (IsArmed(rows[k]) ==> next <= rows[k].val)
        invariant forall k :: i <= k < rows.Length ==> rows[k] == was[k]
      {
        var r := rows[i];
        if IsArmed(r) {
          rows[i] := Marked(r, slept, overrun);
          if IsArmed(rows[i]) && rows[i].val < next { next := rows[i].val; }
        }
      }
      base := base + total + overrun;
      total := next;
    }

    /** A callback acts on the table. */
    method Perform(acts: seq<Action>)
      requires Table() && Proper(acts, rows.Length)
      modifies this`total, this`last, rows
      ensures Table() && total <= old(total)
      ensures forall i :: 0 <= i < rows.Length && !(IsTrig(old(rows[i])) && !Deletes(acts, i)) ==> !IsTrig(rows[i])
      ensures forall i :: 0 <= i < rows.Length && old(rows[i]).state != Free && !Deletes(acts, i) ==>
        rows[i] == old(rows[i])
    {
      for a := 0 to |acts|
        invariant Table() && total <= old(total)
        invariant forall i :: 0 <= i < rows.Length && IsTrig(rows[i]) ==>
          IsTrig(old(rows[i])) && rows[i] == old(rows[i]) && !Deletes(acts[..a], i)
        invariant forall i :: 0 <= i < rows.Length && old(rows[i]).state != Free && !Deletes(acts[..a], i) ==>
          rows[i] == old(rows[i])
      {
        DeletesMore(acts, a);
        assert ProperAction(acts[a], rows.Length);
        match acts[a] {
          case Set(id, value, period, elapsed) => var h := SetAlarm(id, value, period, elapsed);
          case Del(handle) => DelAlarm(handle);
        }
      }
      assert acts[..|acts|] == acts;
    }

    /** TimeDispatch. scripts: what the callbacks do, in the order in which they are called. fired: the rows whose
        callbacks are called. */
    method TimeDispatch(overrun: nat, scripts: seq<seq<Action>>) returns (fired: seq<nat>)
      requires Valid() && |scripts| == rows.Length && forall k :: 0 <= k < |scripts| ==> Proper(scripts[k], rows.Length)
      modifies this, rows
      ensures Valid() && base == old(base) + old(total) + overrun
      // only alarms which are due are triggered, each once and in the order of the rows
      ensures |fired| <= rows.Length
      ensures forall k :: 0 <= k < |fired| ==>
        fired[k] < rows.Length && IsArmed(old(rows[fired[k]])) && old(Deadline(fired[k])) <= base
      ensures forall k, j :: 0 <= k < j < |fired| ==> fired[k] < fired[j]
      // a due alarm is triggered unless a callback deletes it before its turn; a deleted one is not
      ensures forall i :: 0 <= i < rows.Length && IsArmed(old(rows[i])) && old(Deadline(i)) <= base ==>
        i in fired || exists k :: 0 <= k < |fired| && fired[k] < i && Deletes(scripts[k], i)
      ensures forall k, i :: 0 <= k < |fired| && fired[k] < i && Deletes(scripts[k], i) ==> i !in fired
      // with no overrun, exactly at their deadlines
      ensures overrun == 0 ==> forall k :: 0 <= k < |fired| ==> old(Deadline(fired[k])) == base
      // an alarm which is not due and not deleted keeps its deadline; a periodic one is next due an interval later with
      // no overrun, and otherwise whole intervals after the wake-up
      ensures forall i :: 0 <= i < rows.Length && IsArmed(old(rows[i])) && NeverDeleted(scripts, i) ==>
        && (old(Deadline(i)) > base ==>
            IsArmed(rows[i]) && rows[i].id == old(rows[i]).id && Deadline(i) == old(Deadline(i)))
        && (old(Deadline(i)) <= base && old(rows[i]).interval > 0 ==>
              && IsArmed(rows[i]) && rows[i].id == old(rows[i]).id
              && OnTime(old(rows[i]).interval, old(Deadline(i)), old(base) + old(total), overrun, Deadline(i)))
    {
      ghost var was := rows[..];
      MarkDue(overrun);
      MarkedDue(was, rows[..], old(base), old(total), overrun);
      fired := TriggerMarked(scripts);
    }

    /** The second loop of TimeDispatch. */
    method TriggerMarked(scripts: seq<seq<Action>>) returns (fired: seq<nat>)
      requires Table() && total <= TimevalMax
      requires |scripts| == rows.Length && forall k :: 0 <= k < |scripts| ==> Proper(scripts[k], rows.Length)
      modifies this`total, this`last, rows
      ensures Valid()
      ensures Firing(old(rows[..]), rows[..], fired, scripts, rows.Length)
      ensures Keeping(old(rows[..]), rows[..], scripts, rows.Length)
    {
      hide Firing, Proper, Keeping;
      ghost var marked := rows[..];
      fired := [];
      var i := 0;
      FiringStarts(marked, scripts);
      while i <= last
        invariant 0 <= i <= rows.Length && Table() && total <= TimevalMax
        invariant Firing(marked, rows[..], fired, scripts, i) && Keeping(marked, rows[..], scripts, i)
        decreases rows.Length - i
      {
        FiringSizes(marked, rows[..], fired, scripts, i);
        if IsTrig(rows[i]) {
          ghost var now := rows[..];
          rows[i] := Untrig(rows[i]);
          assert rows[..] == now[i := Untrig(now[i])];
          Perform(scripts[|fired|]);
          FiringStep(marked, now, rows[..], fired, scripts, i);
          KeepingStep(marked, now, rows[..], scripts, |fired|, i);
          fired := fired + [i];
        } else {
          FiringSkip(marked, rows[..], fired, scripts, i);
          KeepingSkip(marked, rows[..], fired, scripts, i);
        }
        i := i + 1;
      }
      FiringEnds(marked, rows[..], fired, scripts, i);
      KeepingEnds(marked, rows[..], fired, scripts, i);
    }
  }

  /** No callback deletes row i. */
  predicate NeverDeleted(scripts: seq<seq<Action>>, i: nat) {
    forall k :: 0 <= k < |scripts| ==> !Deletes(scripts[k], i)
  }

  /** The second loop of TimeDispatch before row i: armed rows which no callback deletes are as they were marked, or,
      once triggered, as they are set for the next time. */
  ghost predicate Keeping(marked: seq<Row>, now: seq<Row>, scripts: seq<seq<Action>>, i: nat) {
    && |now| == |marked|
    && forall m :: 0 <= m < |now| && IsArmed(marked[m]) && NeverDeleted(scripts, m) ==>
       now[m] == if m < i then Untrig(marked[m]) else marked[m]
  }

  lemma KeepingStep(marked: seq<Row>, now: seq<Row>, after: seq<Row>, scripts: seq<seq<Action>>, k: nat, i: nat)
    requires Keeping(marked, now, scripts, i) && i < |now| == |after| && k < |scripts|
    requires var mid, acts := now[i := Untrig(now[i])], scripts[k];
             forall m :: 0 <= m < |now| && mid[m].state != Free && !Deletes(acts, m) ==> after[m] == mid[m]
    ensures Keeping(marked, after, scripts, i + 1)
  {
    hide Deletes;
  }

  lemma KeepingSkip(marked: seq<Row>, now: seq<Row>, fired: seq<nat>, scripts: seq<seq<Action>>, i: nat)
    requires Keeping(marked, now, scripts, i) && i < |now| && !IsTrig(now[i])
    ensures Keeping(marked, now, scripts, i + 1)
  {
  }

  lemma KeepingEnds(marked: seq<Row>, now: seq<Row>, fired: seq<nat>, scripts: seq<seq<Action>>, i: nat)
    requires Keeping(marked, now, scripts, i) && forall m :: i <= m < |now| ==> !IsTrig(now[m])
    ensures Keeping(marked, now, scripts, |now|)
  {
  }

  /** The second loop of TimeDispatch before row i: now are the rows, marked those it began with. */
  ghost predicate Firing(marked: seq<Row>, now: seq<Row>, fired: seq<nat>, scripts: seq<seq<Action>>, i: nat) {
    && |fired| <= i <= |now| == |marked| == |scripts|
    && (forall k :: 0 <= k < |fired| ==> fired[k] < i && IsTrig(marked[fired[k]]))
    && (forall k, j :: 0 <= k < j < |fired| ==> fired[k] < fired[j])
    && (forall m :: 0 <= m < |now| && IsTrig(now[m]) ==> i <= m && IsTrig(marked[m]) && !Cancelled(fired, scripts, m))
    && (forall m :: 0 <= m < |now| && IsTrig(marked[m]) && !IsTrig(now[m]) ==>
          m in fired || Cancelled(fired, scripts, m))
    && (forall m :: 0 <= m < |now| && m in fired ==> !Cancelled(fired, scripts, m))
  }

  lemma FiringStarts(marked: seq<Row>, scripts: seq<seq<Action>>)
    requires |marked| == |scripts|
    ensures Firing(marked, marked, [], scripts, 0) && Keeping(marked, marked, scripts, 0)
  {
  }

  lemma FiringSizes(marked: seq<Row>, now: seq<Row>, fired: seq<nat>, scripts: seq<seq<Action>>, i: nat)
    requires Firing(marked, now, fired, scripts, i)
    ensures |fired| <= i <= |now| == |scripts|
  {
  }

  lemma FiringSkip(marked: seq<Row>, now: seq<Row>, fired: seq<nat>, scripts: seq<seq<Action>>, i: nat)
    requires Firing(marked, now, fired, scripts, i) && i < |now| && !IsTrig(now[i])
    ensures Firing(marked, now, fired, scripts, i + 1)
  {
  }

  lemma FiringEnds(marked: seq<Row>, now: seq<Row>, fired: seq<nat>, scripts: seq<seq<Action>>, i: nat)
    requires Firing(marked, now, fired, scripts, i) && forall m :: i <= m < |now| ==> !IsTrig(now[m])
    ensures Firing(marked, now, fired, scripts, |now|) && forall m :: 0 <= m < |now| ==> !IsTrig(now[m])
  {
  }

  lemma FiringStep(marked: seq<Row>, now: seq<Row>, after: seq<Row>, fired: seq<nat>, scripts: seq<seq<Action>>, i: nat)
    requires Firing(marked, now, fired, scripts, i) && i < |now| == |after| && IsTrig(now[i])
    requires var mid, acts := now[i := Untrig(now[i])], scripts[|fired|];
             && (forall m :: 0 <= m < |now| && !(IsTrig(mid[m]) && !Deletes(acts, m)) ==> !IsTrig(after[m]))
             && (forall m :: 0 <= m < |now| && IsTrig(mid[m]) && !Deletes(acts, m) ==> after[m] == mid[m])
    ensures Firing(marked, after, fired + [i], scripts, i + 1)
  {
    hide Deletes;
    CancelledMore(fired, i, scripts);
    hide Cancelled;
    var next := fired + [i];
    forall m | 0 <= m < |now|
      ensures IsTrig(after[m]) ==> i < m && IsTrig(marked[m]) && !Cancelled(next, scripts, m)
    {
    }
    forall m | 0 <= m < |now| && IsTrig(marked[m]) && !IsTrig(after[m])
      ensures m in next || Cancelled(next, scripts, m)
    {
      assert m in fired ==> m in next;
      assert next[|fired|] == i;
    }
    forall m | 0 <= m < |now| && m in next ensures !Cancelled(next, scripts, m) {
      assert m == i || m in fired;
    }
  }

  /** A callback has deleted row m before its turn. */
  predicate Cancelled(fired: seq<nat>, scripts: seq<seq<Action>>, m: nat)
    requires |fired| <= |scripts|
  {
    exists k :: 0 <= k < |fired| && fired[k] < m && Deletes(scripts[k], m)
  }

  lemma CancelledMore(fired: seq<nat>, i: nat, scripts: seq<seq<Action>>)
    requires |fired| < |scripts|
    ensures forall m: nat :: Cancelled(fired + [i], scripts, m) <==>
      Cancelled(fired, scripts, m) || (i < m && Deletes(scripts[|fired|], m))
  {
    var now := fired + [i];
    forall m: nat
      ensures Cancelled(now, scripts, m) <==> Cancelled(fired, scripts, m) || (i < m && Deletes(scripts[|fired|], m))
    {
      if Cancelled(fired, scripts, m) {
        var k :| 0 <= k < |fired| && fired[k] < m && Deletes(scripts[k], m);
        assert now[k] == fired[k];
      }
      if i < m && Deletes(scripts[|fired|], m) { assert now[|fired|] == i; }
      if Cancelled(now, scripts, m) {
        var k :| 0 <= k < |now| && now[k] < m && Deletes(scripts[k], m);
        assert k < |fired| ==> now[k] == fired[k];
      }
    }
  }

  lemma DeletesMore(acts: seq<Action>, a: nat)
    requires a < |acts|
    ensures forall i: nat :: Deletes(acts[..a + 1], i) <==> Deletes(acts[..a], i) || acts[a] == Del(i)
  {
    var now, before := acts[..a + 1], acts[..a];
    forall i: nat ensures Deletes(now, i) <==> Deletes(before, i) || acts[a] == Del(i) {
      if Deletes(before, i) {
        var x :| 0 <= x < |before| && before[x] == Del(i);
        assert now[x] == before[x];
      }
      if acts[a] == Del(i) { assert now[a] == Del(i); }
      if Deletes(now, i) {
        var x :| 0 <= x < |now| && now[x] == Del(i);
        assert x < a ==> before[x] == now[x];
      }
    }
  }

  /** Exactly the armed rows which are due are marked; the others keep their deadlines, a periodic alarm is next due on
      time, and with no overrun every deadline has been met exactly. */
  lemma MarkedDue(was: seq<Row>, now: seq<Row>, base: nat, total: nat, overrun: nat)
    requires |now| == |was|
    requires (forall i :: 0 <= i < |was| ==> now[i] == Marked(was[i], total + overrun, overrun) && !IsTrig(was[i]))
    requires forall i :: 0 <= i < |was| && IsArmed(was[i]) ==> total <= was[i].val
    ensures forall i :: 0 <= i < |was| ==>
      (IsTrig(now[i]) <==> IsArmed(was[i]) && base + was[i].val <= base + total + overrun)
    ensures forall i :: 0 <= i < |was| && IsArmed(was[i]) && !IsTrig(now[i]) ==>
      base + total + overrun + now[i].val == base + was[i].val
    ensures overrun == 0 ==> forall i :: 0 <= i < |was| && IsTrig(now[i]) ==> was[i].val == total
    ensures forall i :: 0 <= i < |was| && now[i].state == TrigPeriod ==>
      OnTime(was[i].interval, base + was[i].val, base + total, overrun, base + total + overrun + now[i].val)
  {
    hide Marked, OnTime;
    forall i | 0 <= i < |was|
      ensures IsTrig(now[i]) <==> IsArmed(was[i]) && was[i].val <= total + overrun
      ensures IsArmed(was[i]) && !IsTrig(now[i]) ==> now[i].val == was[i].val - (total + overrun)
      ensures now[i].state == TrigPeriod ==>
        OnTime(was[i].interval, base + was[i].val, base + total, overrun, base + total + overrun + now[i].val)
    {
      MarkedRow(was[i], base, total, overrun);
    }
  }

  lemma MarkedRow(r: Row, base: nat, total: nat, overrun: nat)
    requires !IsTrig(r) && (IsArmed(r) ==> total <= r.val)
    ensures var m := Marked(r, total + overrun, overrun);
            && (IsTrig(m) <==> IsArmed(r) && r.val <= total + overrun)
            && (IsArmed(r) && !IsTrig(m) ==> m.val == r.val - (total + overrun))
            && (m.state == TrigPeriod ==>
                  OnTime(r.interval, base + r.val, base + total, overrun, base + total + overrun + m.val))
  {
    if IsArmed(r) && r.val <= total + overrun && r.interval > 0 {
      NextDue(r.interval, base + r.val, base + total, overrun);
    }
  }

  lemma NextDue(interval: nat, d: nat, wake: nat, overrun: nat)
    requires 0 < interval && wake <= d <= wake + overrun
    ensures OnTime(interval, d, wake, overrun, wake + overrun + (interval - overrun % interval))
  {
    DivRest(interval, overrun);
    DivRest(interval, d - wake);
    var r, s := overrun % interval, (d - wake) % interval;
    NextAt(interval, overrun, overrun / interval, r, d - wake, (d - wake) / interval, s);
    OnTimeIf(interval, d, wake, overrun, r, s);
  }

  lemma OnTimeIf(i: nat, d: nat, wake: nat, overrun: nat, r: nat, s: nat)
    requires 0 < i && r < i && s < i && wake <= d && r <= overrun
    requires (overrun + (i - r)) % i == 0 && (d - wake) % i == s
    requires (overrun + (i - r) - (d - wake)) % i == if s == 0 then 0 else i - s
    ensures OnTime(i, d, wake, overrun, wake + overrun + (i - r))
  {
    var d' := wake + overrun + (i - r);
    assert d' - wake == overrun + (i - r) && d' - d == overrun + (i - r) - (d - wake);
  }

  lemma DivRest(d: nat, x: nat)
    requires 0 < d
    ensures x == d * (x / d) + x % d && x % d <= x
  {
  }

  /** x is i * q + r, and v is i * p + s. */
  lemma NextAt(i: nat, x: nat, q: nat, r: nat, v: nat, p: nat, s: nat)
    requires 0 < i && x == i * q + r && r < i && v == i * p + s && s < i
    ensures (x + (i - r)) % i == 0 && v % i == s
    ensures (x + (i - r) - v) % i == if s == 0 then 0 else i - s
  {
    Distribute(i, q, p);
    RestIs(v, i, p, s);
    RestIs(x + (i - r), i, q + 1, 0);
    if s == 0 { RestIs(x + (i - r) - v, i, q - p + 1, 0); } else { RestIs(x + (i - r) - v, i, q - p, i - s); }
  }

  lemma Distribute(i: nat, q: int, p: int)
    ensures i * (q + 1) == i * q + i && i * (q - p) == i * q - i * p && i * (q - p + 1) == i * q - i * p + i
  {
  }

  lemma RestIs(x: int, d: nat, q: int, r: nat)
    requires 0 < d && x == d * q + r && r < d
    ensures x % d == r
  {
    var y := x / d;
    assert x == d * y + x % d;
    OneQuotient(d, y, x % d, q, r);
  }

  lemma OneQuotient(d: nat, y: int, s: nat, q: int, r: nat)
    requires d * y + s == d * q + r && s < d && r < d
    ensures s == r
  {
    assert y < q ==> d * (y + 1) <= d * q;
    assert q < y ==> d * (q + 1) <= d * y;
  }
}
