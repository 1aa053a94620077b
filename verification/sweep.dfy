/**
 The shape shared by the three reapers: list once, then handle each item on its
 own, catching every provider error of that item so that the loop always goes
 on to the next one. One item's handling is a `Step`; the whole loop is `RunAll`.
 */
module Sweep {
  import opened Provider

  /** Why an item was left alone without any error. */
  datatype SkipReason =
    | BucketNotEmpty
    | SnapshotNotCompleted
    | VolumeInUse
    | AddressInUse

  /** What became of one listed item: destroyed, skipped, or a caught `ClientError`. */
  datatype Disposition = Reaped | Skipped(reason: SkipReason) | Failed(code: string)

  /** The disposition of an item whose destructive call was sent and answered with `o`. */
  function Settle(o: Outcome): Disposition {
    match o
    case Ok => Reaped
    case ClientError(code) => Failed(code)
  }

  /** The calls sent while handling one item, and how the item ended. */
  datatype Step = Step(calls: seq<Call>, disposition: Disposition)

  /** The calls one reaper sent, and one disposition per listed item. */
  datatype Report = Report(calls: seq<Call>, dispositions: seq<Disposition>)

  /** At most one element: the destructive call a rule picks for an item, if any. */
  function AsSeq<U>(o: Option<U>): (s: seq<U>)
    ensures |s| <= 1
    ensures o.Some? <==> |s| == 1
    ensures o.Some? ==> s[0] == o.value
  {
    match o
    case None => []
    case Some(x) => [x]
  }

  function MapSeq<T, U>(items: seq<T>, f: T -> U): (r: seq<U>)
    ensures |r| == |items|
    ensures forall i :: 0 <= i < |items| ==> r[i] == f(items[i])
  {
    if |items| == 0 then [] else [f(items[0])] + MapSeq(items[1..], f)
  }

  /** The present values of `s`, in order. */
  function Somes<U>(s: seq<Option<U>>): (r: seq<U>)
    ensures |r| <= |s|
    ensures forall i :: 0 <= i < |s| && s[i].Some? ==> s[i].value in r
  {
    if |s| == 0 then []
    else
      var rest := Somes(s[1..]);
      assert forall i :: 1 <= i < |s| ==> s[i] == s[1..][i - 1];
      AsSeq(s[0]) + rest
  }

  /** Every value `Somes` keeps comes from some position of its input. */
  lemma {:induction false} SomesFrom<U>(s: seq<Option<U>>, x: U)
    requires x in Somes(s)
    ensures exists i :: 0 <= i < |s| && s[i] == Some(x)
  {
    if s[0] == Some(x) {
    } else {
      SomesFrom(s[1..], x);
      var i :| 0 <= i < |s[1..]| && s[1..][i] == Some(x);
      assert s[i + 1] == Some(x);
    }
  }

  /**
   If position `i` is the only one that could yield `x`, then `x` occurs in
   `Somes(s)` exactly once when it does yield `x`, and not at all otherwise.
   */
  lemma {:induction false} SoleSource<U>(s: seq<Option<U>>, i: nat, x: U)
    requires i < |s|
    requires forall j :: 0 <= j < |s| && j != i ==> s[j] != Some(x)
    ensures multiset(Somes(s))[x] == (if s[i] == Some(x) then 1 else 0)
  {
    if i == 0 {
      NoSource(s[1..], x);
    } else {
      SoleSource(s[1..], i - 1, x);
    }
    assert Somes(s) == AsSeq(s[0]) + Somes(s[1..]);
  }

  /** A value no position yields never occurs in `Somes(s)`. */
  lemma {:induction false} NoSource<U>(s: seq<Option<U>>, x: U)
    requires forall j :: 0 <= j < |s| ==> s[j] != Some(x)
    ensures multiset(Somes(s))[x] == 0
  {
    if |s| > 0 {
      NoSource(s[1..], x);
      assert Somes(s) == AsSeq(s[0]) + Somes(s[1..]);
    }
  }

  /**
   The per-item loop: handle `items` in order, each with `step`, keeping every
   call sent and every disposition. No item's outcome stops the loop.
   */
  function RunAll<T>(items: seq<T>, step: T -> Step): (r: Report)
    ensures |r.dispositions| == |items|
  {
    if |items| == 0 then Report([], [])
    else
      var s := step(items[0]);
      var rest := RunAll(items[1..], step);
      Report(s.calls + rest.calls, [s.disposition] + rest.dispositions)
  }

  /** Item `i`'s disposition is the one its own step gives it, whatever the other items are. */
  lemma {:induction false} RunAllDisposition<T>(items: seq<T>, step: T -> Step)
    ensures forall i :: 0 <= i < |items| ==> RunAll(items, step).dispositions[i] == step(items[i]).disposition
  {
    if |items| > 0 {
      RunAllDisposition(items[1..], step);
      forall i | 1 <= i < |items|
        ensures RunAll(items, step).dispositions[i] == step(items[i]).disposition
      {
        assert items[i] == items[1..][i - 1];
      }
    }
  }

  /** Every call the loop sends was sent while handling one of the items. */
  lemma {:induction false} RunAllCallFrom<T>(items: seq<T>, step: T -> Step, c: Call)
    requires c in RunAll(items, step).calls
    ensures exists i :: 0 <= i < |items| && c in step(items[i]).calls
  {
    if c !in step(items[0]).calls {
      RunAllCallFrom(items[1..], step, c);
      var i :| 0 <= i < |items[1..]| && c in step(items[1..][i]).calls;
      assert items[1..][i] == items[i + 1];
    }
  }

  lemma {:induction false} RunAllAppend<T>(a: seq<T>, b: seq<T>, step: T -> Step)
    ensures RunAll(a + b, step).calls == RunAll(a, step).calls + RunAll(b, step).calls
    ensures RunAll(a + b, step).dispositions == RunAll(a, step).dispositions + RunAll(b, step).dispositions
  {
    if |a| == 0 {
      assert a + b == b;
    } else {
      var ab := a + b;
      assert ab[0] == a[0];
      assert ab[1..] == a[1..] + b;
      RunAllAppend(a[1..], b, step);
      var s := step(a[0]);
      var head := RunAll(a[1..], step);
      var tail := RunAll(b, step);
      assert RunAll(ab, step).calls == s.calls + (head.calls + tail.calls);
      assert RunAll(ab, step).dispositions == [s.disposition] + (head.dispositions + tail.dispositions);
      assert RunAll(a, step).calls == s.calls + head.calls;
      assert RunAll(a, step).dispositions == [s.disposition] + head.dispositions;
    }
  }

  /**
   Error isolation: whatever item `i` turns out to be (an error when probing
   it, a refused delete), the calls sent for the items before and after it and
   their dispositions are exactly those they would have had anyway.
   */
  lemma IsolatedItem<T>(items: seq<T>, step: T -> Step, i: nat, x: T)
    requires i < |items|
    ensures RunAll(items[i := x], step).calls
         == RunAll(items[..i], step).calls + step(x).calls + RunAll(items[i + 1..], step).calls
    ensures RunAll(items[i := x], step).dispositions
         == RunAll(items, step).dispositions[i := step(x).disposition]
  {
    assert items[i := x] == items[..i] + ([x] + items[i + 1..]);
    RunAllAppend(items[..i], [x] + items[i + 1..], step);
    RunAllAppend([x], items[i + 1..], step);
    assert RunAll([x], step).calls == step(x).calls + RunAll([x][1..], step).calls;
    RunAllDisposition(items, step);
    RunAllDisposition(items[i := x], step);
  }

  /**
   If each item's step sends exactly the destructive call its rule `target`
   picks, then the whole loop sends exactly the picked calls, in item order.
   */
  lemma {:induction false} RunAllFollowsRule<T>(items: seq<T>, step: T -> Step, target: T -> Option<Call>)
    requires forall i :: 0 <= i < |items| ==> Destructive(step(items[i]).calls) == AsSeq(target(items[i]))
    ensures Destructive(RunAll(items, step).calls) == Somes(MapSeq(items, target))
  {
    if |items| > 0 {
      assert forall i :: 0 <= i < |items[1..]| ==> items[1..][i] == items[i + 1];
      RunAllFollowsRule(items[1..], step, target);
      DestructiveAppend(step(items[0]).calls, RunAll(items[1..], step).calls);
      assert MapSeq(items, target)[1..] == MapSeq(items[1..], target);
    }
  }

  /**
   One reaper: send the listing call; when it raised (`listed` is `None`) stop
   there without error, otherwise run the per-item loop over what it listed.
   */
  function Reap<T>(listCall: Call, listed: Option<seq<T>>, step: T -> Step): (r: Report)
    ensures |r.calls| >= 1 && r.calls[0] == listCall
    ensures listed.None? ==> r.calls == [listCall] && r.dispositions == []
    ensures listed.Some? ==> |r.dispositions| == |listed.value|
    ensures listed.Some? ==>
      forall i :: 0 <= i < |listed.value| ==> r.dispositions[i] == step(listed.value[i]).disposition
  {
    match listed
    case None => Report([listCall], [])
    case Some(items) =>
      var run := RunAll(items, step);
      RunAllDisposition(items, step);
      Report([listCall] + run.calls, run.dispositions)
  }

  /** The per-item rule `target` lifted to a whole reaper whose listing call destroys nothing. */
  lemma ReapFollowsRule<T>(listCall: Call, items: seq<T>, step: T -> Step, target: T -> Option<Call>)
    requires !IsDestructive(listCall)
    requires forall i :: 0 <= i < |items| ==> Destructive(step(items[i]).calls) == AsSeq(target(items[i]))
    ensures Destructive(Reap(listCall, Some(items), step).calls) == Somes(MapSeq(items, target))
  {
    RunAllFollowsRule(items, step, target);
    DestructiveAppend([listCall], RunAll(items, step).calls);
    DestructiveOne(listCall);
  }

  /** Safety: every destructive call the reaper sends is the rule's pick for some listed item. */
  lemma ReapOnlyTargets<T>(listCall: Call, items: seq<T>, step: T -> Step, target: T -> Option<Call>, c: Call)
    requires !IsDestructive(listCall)
    requires forall i :: 0 <= i < |items| ==> Destructive(step(items[i]).calls) == AsSeq(target(items[i]))
    requires c in Reap(listCall, Some(items), step).calls && IsDestructive(c)
    ensures exists i :: 0 <= i < |items| && target(items[i]) == Some(c)
  {
    ReapFollowsRule(listCall, items, step, target);
    DestructiveKeeps(Reap(listCall, Some(items), step).calls, c);
    SomesFrom(MapSeq(items, target), c);
  }

  /**
   When item `i` is the only item whose rule could pick the destructive call
   `c`, the reaper sends `c` exactly once if the rule picks it for item `i`,
   and never otherwise.
   */
  lemma ReapCount<T>(listCall: Call, items: seq<T>, step: T -> Step, target: T -> Option<Call>, i: nat, c: Call)
    requires !IsDestructive(listCall) && IsDestructive(c)
    requires forall j :: 0 <= j < |items| ==> Destructive(step(items[j]).calls) == AsSeq(target(items[j]))
    requires i < |items|
    requires forall j :: 0 <= j < |items| && j != i ==> target(items[j]) != Some(c)
    ensures multiset(Reap(listCall, Some(items), step).calls)[c] == (if target(items[i]) == Some(c) then 1 else 0)
  {
    ReapFollowsRule(listCall, items, step, target);
    SoleSource(MapSeq(items, target), i, c);
    DestructiveCount(Reap(listCall, Some(items), step).calls, c);
  }

  /**
   Error isolation for a whole reaper: replacing item `i` by any other item
   (one whose probe or destructive call fails, say) changes only the calls
   sent for that item and its own disposition.
   */
  lemma ReapIsolated<T>(listCall: Call, items: seq<T>, step: T -> Step, i: nat, x: T)
    requires i < |items|
    ensures Reap(listCall, Some(items[i := x]), step).calls
         == [listCall] + (RunAll(items[..i], step).calls + step(x).calls + RunAll(items[i + 1..], step).calls)
    ensures Reap(listCall, Some(items), step).calls
         == [listCall] + (RunAll(items[..i], step).calls + step(items[i]).calls + RunAll(items[i + 1..], step).calls)
    ensures Reap(listCall, Some(items[i := x]), step).dispositions
         == Reap(listCall, Some(items), step).dispositions[i := step(x).disposition]
  {
    IsolatedItem(items, step, i, x);
    IsolatedItem(items, step, i, items[i]);
    assert items[i := items[i]] == items;
  }

  /** If the listing call and every call of every item's step satisfy `ok`, so does every call the reaper sends. */
  lemma ReapCallsWithin<T>(listCall: Call, listed: Option<seq<T>>, step: T -> Step, ok: Call -> bool)
    requires ok(listCall)
    requires listed.Some? ==>
      forall i, c :: 0 <= i < |listed.value| && c in step(listed.value[i]).calls ==> ok(c)
    ensures forall c :: c in Reap(listCall, listed, step).calls ==> ok(c)
  {
    if listed.Some? {
      forall c | c in RunAll(listed.value, step).calls
        ensures ok(c)
      {
        RunAllCallFrom(listed.value, step, c);
      }
    }
  }
}
