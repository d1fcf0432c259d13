/** Properties of the executor's walks that relate several items or several
    calls: how far a walk gets, why it stops, which items the runner and the
    hooks are given, and how a revert walk mirrors a run walk. */
module MigrationProperties {
  import opened MigrationTypes
  import opened Migration

  /** How an item that the walk does not pass ends it: with the verdict's
      error, or with the runner's error after the item's own calls. */
  function Halt(e: Executor, dir: Direction, x: Item): Outcome
  {
    match e.Judge(dir, x)
    case Stop(err) => Outcome(err, [])
    case Act => Outcome(e.Reply(dir, x), e.Handling(dir, x))
    case Skip => Outcome(None, [])
  }

  /** The budget `step` lasts for `n` acted-on items: it is unbounded, or
      at least `n`. */
  predicate Lasts(step: int, n: nat)
  {
    step < 0 || n <= step
  }

  /** The items handed to the runner, in the order of the calls. */
  function Handed(trace: seq<Event>): seq<Item>
  {
    if trace == [] then []
    else
      match trace[0]
      case RunnerRun(op) => [op] + Handed(trace[1..])
      case RunnerRevert(op) => [op] + Handed(trace[1..])
      case _ => Handed(trace[1..])
  }

  /** The items handed to a hook, in the order of the calls. */
  function Hooked(trace: seq<Event>): seq<Item>
  {
    if trace == [] then []
    else
      match trace[0]
      case OnRun(x) => [x] + Hooked(trace[1..])
      case OnRevert(x) => [x] + Hooked(trace[1..])
      case _ => Hooked(trace[1..])
  }

  /** The provider's list as the ledger has it once a run with budget `step`
      has recorded, at `now`, the items it acts on: the first `step` of them,
      every one when `step` is negative. The other items are left as they were. */
  function Recorded(e: Executor, items: seq<Item>, now: Time, step: int): seq<Item>
    decreases |items|
  {
    if items == [] then []
    else if step != 0 && e.Judge(Up, items[0]) == Act then
      [items[0].(createdAt := now)] + Recorded(e, items[1..], now, step - 1)
    else [items[0]] + Recorded(e, items[1..], now, step)
  }

  /** The items of `s`, each recorded as applied at `now`. */
  function Stamped(s: seq<Item>, now: Time): (r: seq<Item>)
    ensures |r| == |s|
    ensures forall i | 0 <= i < |s| :: r[i] == s[i].(createdAt := now)
  {
    if s == [] then [] else [s[0].(createdAt := now)] + Stamped(s[1..], now)
  }

  /** The items a walk acts on among positions `from` up to `j` of `visit`. */
  function ActedIn(e: Executor, dir: Direction, visit: seq<Item>, from: nat, j: nat): seq<Item>
    requires j <= |visit|
    decreases j - from
  {
    if from >= j then []
    else if e.Judge(dir, visit[from]) == Act then [visit[from]] + ActedIn(e, dir, visit, from + 1, j)
    else ActedIn(e, dir, visit, from + 1, j)
  }

  /** `ActedIn` is `Acted` on the stretch of positions. */
  lemma {:induction false} ActedInStretch(e: Executor, dir: Direction, visit: seq<Item>, from: nat, j: nat)
    requires from <= j <= |visit|
    ensures ActedIn(e, dir, visit, from, j) == e.Acted(dir, visit[from..j])
    decreases j - from
  {
    if from < j {
      assert visit[from..j][0] == visit[from] && visit[from..j][1..] == visit[from + 1..j];
      ActedInStretch(e, dir, visit, from + 1, j);
    } else {
      assert visit[from..j] == [];
    }
  }

  /** A walk passes over a stretch of items none of which ends it, as long as
      the budget lasts for the items it acts on there: it makes just their
      calls and goes on after the stretch with the budget that is left. */
  lemma {:induction false} WalkThrough(e: Executor, dir: Direction, visit: seq<Item>, from: nat, j: nat, step: int)
    requires from <= j <= |visit|
    requires forall i {:trigger e.Passes(dir, visit[i])} | from <= i < j :: e.Passes(dir, visit[i])
    requires Lasts(step, |ActedIn(e, dir, visit, from, j)|)
    ensures e.Walk(dir, visit, from, step) ==
              Prefixed(e.Trace(dir, ActedIn(e, dir, visit, from, j)),
                       e.Walk(dir, visit, j, step - |ActedIn(e, dir, visit, from, j)|))
    decreases j - from
  {
    if from == j {
      var w := e.Walk(dir, visit, j, step);
      assert [] + w.trace == w.trace;
    } else if e.Judge(dir, visit[from]) == Skip {
      WalkThrough(e, dir, visit, from + 1, j, step);
      if step != 0 {
        e.WalkSkips(dir, visit, from, step);
      }
    } else {
      assert e.Passes(dir, visit[from]);
      WalkThrough(e, dir, visit, from + 1, j, step - 1);
      ThroughAct(e, dir, visit, from, j, step);
    }
  }

  /** The step of `WalkThrough` over a first item that is acted on without
      an error. */
  lemma ThroughAct(e: Executor, dir: Direction, visit: seq<Item>, from: nat, j: nat, step: int)
    requires from < j <= |visit| && e.Judge(dir, visit[from]) == Act && e.Reply(dir, visit[from]).None?
    requires Lasts(step, |ActedIn(e, dir, visit, from, j)|)
    requires e.Walk(dir, visit, from + 1, step - 1) ==
               Prefixed(e.Trace(dir, ActedIn(e, dir, visit, from + 1, j)),
                        e.Walk(dir, visit, j, step - 1 - |ActedIn(e, dir, visit, from + 1, j)|))
    ensures e.Walk(dir, visit, from, step) ==
              Prefixed(e.Trace(dir, ActedIn(e, dir, visit, from, j)),
                       e.Walk(dir, visit, j, step - |ActedIn(e, dir, visit, from, j)|))
  {
    var x, rest := visit[from], ActedIn(e, dir, visit, from + 1, j);
    var after := e.Walk(dir, visit, j, step - 1 - |rest|);
    e.WalkActs(dir, visit, from, step);
    e.TraceCons(dir, x, rest);
    PrefixedTwice(e.Handling(dir, x), e.Trace(dir, rest), after);
  }

  /** A walk with budget left that reaches an item it does not pass ends
      there: its result is that item's error, and its calls are those for
      the items acted on before it and, when the runner failed on it, that
      item's own. Nothing after it is looked at. */
  lemma WalkHalts(e: Executor, dir: Direction, visit: seq<Item>, j: nat, step: int)
    requires j < |visit| && !e.Passes(dir, visit[j])
    requires e.Clean(dir, visit[..j])
    requires step < 0 || |e.Acted(dir, visit[..j])| < step
    ensures e.Walk(dir, visit, 0, step) == Prefixed(e.Trace(dir, e.Acted(dir, visit[..j])), Halt(e, dir, visit[j]))
  {
    assert visit[0..j] == visit[..j];
    ActedInStretch(e, dir, visit, 0, j);
    var before := visit[..j];
    forall i | 0 <= i < j ensures e.Passes(dir, visit[i]) {
      assert visit[i] == before[i];
    }
    WalkThrough(e, dir, visit, 0, j, step);
    var n := |e.Acted(dir, visit[..j])|;
    match e.Judge(dir, visit[j])
    case Stop(_) =>
      e.WalkStops(dir, visit, j, step - n);
    case Act =>
      e.WalkActs(dir, visit, j, step - n);
  }

  /** `Run` aborts on the first Id that does not parse, with that parse
      error, even when the item is already applied; only the items before it
      reach the runner. */
  lemma RunAbortsOnBadId(e: Executor, items: seq<Item>, j: nat, step: int)
    requires j < |items| && e.layout.parse(items[j].id).Failure?
    requires e.Clean(Up, items[..j])
    requires step < 0 || |e.Acted(Up, items[..j])| < step
    ensures e.Walk(Up, items, 0, step) ==
              Outcome(Some(e.layout.parse(items[j].id).error), e.Trace(Up, e.Acted(Up, items[..j])))
  {
    WalkHalts(e, Up, items, j, step);
  }

  /** An error of the runner is returned at once; the calls made so far stay
      in the trace, ending with those for the failing item. */
  lemma RunnerErrorReturned(e: Executor, dir: Direction, visit: seq<Item>, j: nat, step: int)
    requires j < |visit| && e.Judge(dir, visit[j]) == Act && e.Reply(dir, visit[j]).Some?
    requires e.Clean(dir, visit[..j])
    requires step < 0 || |e.Acted(dir, visit[..j])| < step
    ensures e.Walk(dir, visit, 0, step) ==
              Outcome(e.Reply(dir, visit[j]), e.Trace(dir, e.Acted(dir, visit[..j])) + e.Handling(dir, visit[j]))
  {
    WalkHalts(e, dir, visit, j, step);
  }

  /** Walking the list backward, `Revert` stops at the first applied item (from
      the end) whose Id does not parse, returning the parse error, or whose Id
      is the sentinel, returning no error; only the items after it in the
      list reach the runner. */
  lemma RevertStopsAt(e: Executor, items: seq<Item>, j: nat, step: int)
    requires j < |items| && items[j].Applied()
    requires e.layout.parse(items[j].id).Failure? || e.layout.parse(items[j].id).value == e.layout.min
    requires e.Clean(Down, Reversed(items[j + 1..]))
    requires step < 0 || |e.Acted(Down, Reversed(items[j + 1..]))| < step
    ensures e.Walk(Down, Reversed(items), 0, step) ==
              Outcome(if e.layout.parse(items[j].id).Failure? then Some(e.layout.parse(items[j].id).error) else None,
                      e.Trace(Down, e.Acted(Down, Reversed(items[j + 1..]))))
  {
    var visit, k := Reversed(items), |items| - 1 - j;
    assert items == items[..j + 1] + items[j + 1..];
    ReversedAppend(items[..j + 1], items[j + 1..]);
    ReversedLength(items[j + 1..]);
    ReversedAt(items, k);
    assert visit[..k] == Reversed(items[j + 1..]);
    WalkHalts(e, Down, visit, k, step);
  }

  /** The runner only ever gets items of the kind each walk acts on: an
      applying walk hands over pending items, a reverting walk applied ones,
      and neither a bad Id nor the sentinel. */
  lemma {:induction false} ActedEligible(e: Executor, dir: Direction, s: seq<Item>)
    ensures forall x | x in e.Acted(dir, s) ::
              x in s && e.layout.parse(x.id).Success? && e.layout.parse(x.id).value != e.layout.min &&
              (x.Applied() <==> dir == Down)
  {
    if s != [] {
      ActedEligible(e, dir, s[1..]);
    }
  }

  /** The copies of the items of `s` as the hook leaves them, in order. */
  function PreparedAll(e: Executor, dir: Direction, s: seq<Item>): (r: seq<Item>)
    ensures |r| == |s|
    ensures forall i | 0 <= i < |s| :: r[i] == e.Prepared(dir, s[i])
  {
    if s == [] then [] else [e.Prepared(dir, s[0])] + PreparedAll(e, dir, s[1..])
  }

  /** The runner gets, one per acted-on item and in order, the copy of the
      item as the hook left it; the hook, when there is one, sees each
      acted-on item itself, and nothing else. */
  lemma {:induction false} TraceHandsPrepared(e: Executor, dir: Direction, s: seq<Item>)
    ensures Handed(e.Trace(dir, s)) == PreparedAll(e, dir, s)
    ensures Hooked(e.Trace(dir, s)) == if e.Hook(dir).Some? then s else []
  {
    if s != [] {
      var x, tail := s[0], s[1..];
      TraceHandsPrepared(e, dir, tail);
      var h, t := e.Handling(dir, x), e.Trace(dir, tail);
      HandedAppend(h, t);
      HookedAppend(h, t);
      HandlingHands(e, dir, x);
      if e.Hook(dir).Some? {
        assert s == [x] + tail;
      } else {
        assert [] + Hooked(t) == [];
      }
    }
  }

  /** With a hook that keeps the Id of the item it is given (or with no
      hook), every item the runner gets has an Id that parses to something
      other than `min`: the sentinel never reaches the runner. A hook that
      rewrites the Id can hand the runner any Id at all. */
  lemma RunnerNeverSeesSentinel(e: Executor, dir: Direction, s: seq<Item>)
    requires forall x :: e.Prepared(dir, x).id == x.id
    ensures forall op | op in Handed(e.Trace(dir, e.Acted(dir, s))) ::
              e.layout.parse(op.id).Success? && e.layout.parse(op.id).value != e.layout.min
  {
    var acted := e.Acted(dir, s);
    TraceHandsPrepared(e, dir, acted);
    ActedEligible(e, dir, s);
    forall op | op in Handed(e.Trace(dir, acted))
      ensures e.layout.parse(op.id).Success? && e.layout.parse(op.id).value != e.layout.min
    {
      var i :| 0 <= i < |acted| && PreparedAll(e, dir, acted)[i] == op;
      assert acted[i] in acted;
    }
  }

  /** For one acted-on item: the runner gets the hooked copy, the hook the
      item, and the error the walk sees is the runner's answer for the copy
      it was handed. */
  lemma HandlingHands(e: Executor, dir: Direction, x: Item)
    ensures Handed(e.Handling(dir, x)) == [e.Prepared(dir, x)]
    ensures Hooked(e.Handling(dir, x)) == if e.Hook(dir).Some? then [x] else []
    ensures e.Reply(dir, x) == if dir == Up then e.runner.run(Handed(e.Handling(dir, x))[0])
                               else e.runner.revert(Handed(e.Handling(dir, x))[0])
  {
    var h := e.Handling(dir, x);
    var op := e.Prepared(dir, x);
    var run := if dir == Up then RunnerRun(op) else RunnerRevert(op);
    if e.Hook(dir).Some? {
      var hook := if dir == Up then OnRun(x) else OnRevert(x);
      assert h == [hook, run];
      assert h[1..] == [run] && h[1..][1..] == [];
      assert Handed(h[1..]) == [op];
      assert Hooked(h[1..]) == [];
    } else {
      assert h == [run];
      assert h[1..] == [];
    }
  }

  lemma {:induction false} HandedAppend(a: seq<Event>, b: seq<Event>)
    ensures Handed(a + b) == Handed(a) + Handed(b)
    decreases |a|
  {
    if a == [] {
      assert a + b == b;
    } else {
      assert (a + b)[0] == a[0] && (a + b)[1..] == a[1..] + b;
      HandedAppend(a[1..], b);
      match a[0]
      case RunnerRun(op) =>
        assert [op] + (Handed(a[1..]) + Handed(b)) == ([op] + Handed(a[1..])) + Handed(b);
      case RunnerRevert(op) =>
        assert [op] + (Handed(a[1..]) + Handed(b)) == ([op] + Handed(a[1..])) + Handed(b);
      case _ =>
    }
  }

  lemma {:induction false} HookedAppend(a: seq<Event>, b: seq<Event>)
    ensures Hooked(a + b) == Hooked(a) + Hooked(b)
    decreases |a|
  {
    if a == [] {
      assert a + b == b;
    } else {
      assert (a + b)[0] == a[0] && (a + b)[1..] == a[1..] + b;
      HookedAppend(a[1..], b);
      match a[0]
      case OnRun(op) =>
        assert [op] + (Hooked(a[1..]) + Hooked(b)) == ([op] + Hooked(a[1..])) + Hooked(b);
      case OnRevert(op) =>
        assert [op] + (Hooked(a[1..]) + Hooked(b)) == ([op] + Hooked(a[1..])) + Hooked(b);
      case _ =>
    }
  }

  /** Once a `RunAll` has recorded every item it acts on as applied, a second
      run acts on nothing: whatever its budget, it hands nothing to the runner. */
  lemma {:induction false} RerunActsOnNothing(e: Executor, items: seq<Item>, now: Time, step: int)
    requires now != Zero
    ensures e.Acted(Up, Recorded(e, items, now, -1)) == []
    ensures e.Walk(Up, Recorded(e, items, now, -1), 0, step).trace == []
  {
    RecordedActsOnNothing(e, items, now, -1);
    e.WalkSummary(Up, Recorded(e, items, now, -1), step);
  }

  lemma {:induction false} RecordedActsOnNothing(e: Executor, items: seq<Item>, now: Time, ran: int)
    requires now != Zero && ran < 0
    ensures e.Acted(Up, Recorded(e, items, now, ran)) == []
    decreases |items|
  {
    if items != [] {
      var r := Recorded(e, items, now, ran);
      var ran' := if e.Judge(Up, items[0]) == Act then ran - 1 else ran;
      assert r[0].id == items[0].id && r[1..] == Recorded(e, items[1..], now, ran');
      RecordedActsOnNothing(e, items[1..], now, ran');
    }
  }

  /** When every item is pending and eligible, a run acts on all of them in
      list order; once they are recorded, a revert walk acts on all of them
      again, from the last to the first. */
  lemma RevertMirrorsRun(e: Executor, items: seq<Item>, now: Time)
    requires now != Zero
    requires forall x | x in items :: e.Judge(Up, x) == Act
    ensures e.Acted(Up, items) == items
    ensures var r := Recorded(e, items, now, -1);
              r == Stamped(items, now) &&
              |r| == |items| && (forall i | 0 <= i < |items| :: r[i] == items[i].(createdAt := now)) &&
              e.Acted(Down, Reversed(r)) == Reversed(r)
  {
    ActsOnAll(e, Up, items);
    RecordedPending(e, items, now, -1);
    assert items[|items|..] == [];
    var r := Stamped(items, now);
    assert Recorded(e, items, now, -1) == r + [];
    StampedActs(e, items, now);
    ReversedIn(r);
    ActsOnAll(e, Down, Reversed(r));
  }

  /** A run with budget `step` over a list whose items all act records the
      first `step` of them and leaves the rest pending. */
  lemma {:induction false} RecordedPending(e: Executor, pend: seq<Item>, now: Time, step: int)
    requires forall x | x in pend :: e.Judge(Up, x) == Act
    ensures Recorded(e, pend, now, step) == Stamped(Take(pend, step), now) + pend[|Take(pend, step)|..]
    decreases |pend|
  {
    if pend == [] {
      assert Take(pend, step) == [];
    } else if step == 0 {
      RecordedIdle(e, pend, now);
      assert Take(pend, step) == [] && pend[0..] == pend;
    } else {
      var tail := pend[1..];
      assert forall y | y in tail :: y in pend;
      RecordedPending(e, tail, now, step - 1);
      RecordedStep(e, pend, now, step);
    }
  }

  /** One recorded item at the head of the list, given the tail. */
  lemma RecordedStep(e: Executor, pend: seq<Item>, now: Time, step: int)
    requires pend != [] && step != 0 && e.Judge(Up, pend[0]) == Act
    requires Recorded(e, pend[1..], now, step - 1) ==
               Stamped(Take(pend[1..], step - 1), now) + pend[1..][|Take(pend[1..], step - 1)|..]
    ensures Recorded(e, pend, now, step) == Stamped(Take(pend, step), now) + pend[|Take(pend, step)|..]
  {
    var x, tail := pend[0], pend[1..];
    var d, t := Take(pend, step), Take(tail, step - 1);
    TakeHead(pend, step);
    var r := Recorded(e, tail, now, step - 1);
    assert Recorded(e, pend, now, step) == [x.(createdAt := now)] + r;
    assert Stamped(d, now) == [x.(createdAt := now)] + Stamped(t, now);
  }

  /** Taking from a non-empty sequence with budget left takes its head and
      then from its tail with one less; what is left over is the same. */
  lemma TakeHead<T>(s: seq<T>, step: int)
    requires s != [] && step != 0
    ensures Take(s, step) != [] && Take(s, step)[0] == s[0] && Take(s, step)[1..] == Take(s[1..], step - 1)
    ensures s[|Take(s, step)|..] == s[1..][|Take(s[1..], step - 1)|..]
  {
  }

  /** A run with no budget left records nothing. */
  lemma {:induction false} RecordedIdle(e: Executor, items: seq<Item>, now: Time)
    ensures Recorded(e, items, now, 0) == items
    decreases |items|
  {
    if items != [] {
      RecordedIdle(e, items[1..], now);
      assert items == [items[0]] + items[1..];
    }
  }

  /** The items of `s` stamped at a real instant are, going backward, the
      ones a revert acts on, when a run would have acted on each of them. */
  lemma {:induction false} StampedActs(e: Executor, s: seq<Item>, now: Time)
    requires now != Zero
    requires forall x | x in s :: e.Judge(Up, x) == Act
    ensures forall x | x in Stamped(s, now) :: e.Judge(Down, x) == Act
  {
    forall x | x in Stamped(s, now) ensures e.Judge(Down, x) == Act {
      var i :| 0 <= i < |s| && Stamped(s, now)[i] == x;
      assert s[i] in s;
    }
  }

  /** A walk acts on the items of a concatenation part by part. */
  lemma {:induction false} ActedAppend(e: Executor, dir: Direction, a: seq<Item>, b: seq<Item>)
    ensures e.Acted(dir, a + b) == e.Acted(dir, a) + e.Acted(dir, b)
    decreases |a|
  {
    if a == [] {
      assert a + b == b;
    } else {
      assert (a + b)[0] == a[0] && (a + b)[1..] == a[1..] + b;
      ActedAppend(e, dir, a[1..], b);
    }
  }

  lemma {:induction false} ActsOnAll(e: Executor, dir: Direction, s: seq<Item>)
    requires forall x | x in s :: e.Judge(dir, x) == Act
    ensures e.Acted(dir, s) == s
  {
    if s != [] {
      var tail := s[1..];
      assert s == [s[0]] + tail;
      ActsOnAll(e, dir, tail);
    }
  }

  lemma {:induction false} ActsOnNone(e: Executor, dir: Direction, s: seq<Item>)
    requires forall x | x in s :: e.Judge(dir, x) == Skip
    ensures e.Acted(dir, s) == []
  {
    if s != [] {
      var tail := s[1..];
      assert s == [s[0]] + tail;
      ActsOnNone(e, dir, tail);
    }
  }

  /** Bootstrap, run, revert. The ledger starts with the applied bootstrap
      item (the sentinel) followed by pending migrations that are all
      eligible and that the runner applies and reverts without an error.
      `Run(step)` then applies exactly the first `step` of them (all when
      `step` is negative). Once those are recorded, `Revert(back)` reverts
      exactly the first `back` of them counted from the last one applied
      (all when `back` is negative), and in every case stops at the
      bootstrap item with no error: it is never reverted, and the items still
      pending are passed over. */
  lemma RunThenRevert(e: Executor, boot: Item, pend: seq<Item>, now: Time, step: int, back: int)
    requires now != Zero
    requires boot.Applied() && e.layout.parse(boot.id) == Success(e.layout.min)
    requires forall x | x in pend :: e.Judge(Up, x) == Act && e.Reply(Up, x).None?
    requires forall x | x in pend :: e.Reply(Down, x.(createdAt := now)).None?
    ensures e.Walk(Up, [boot] + pend, 0, step) == Outcome(None, e.Trace(Up, Take(pend, step)))
    ensures e.Walk(Down, Reversed(Recorded(e, [boot] + pend, now, step)), 0, back) ==
              Outcome(None, e.Trace(Down, Take(Reversed(Stamped(Take(pend, step), now)), back)))
  {
    RunFromBootstrap(e, boot, pend, step);
    var done := Take(pend, step);
    var left := pend[|done|..];
    var stamped := Stamped(done, now);
    var v := RecordedFromBootstrap(e, boot, pend, now, step);
    assert forall x | x in done :: x in pend;
    assert forall x | x in left :: x in pend;
    StampedActs(e, done, now);
    forall x | x in stamped ensures e.Reply(Down, x).None? {
      var i :| 0 <= i < |done| && stamped[i] == x;
      assert done[i] in pend;
    }
    RevertToBootstrap(e, boot, left, stamped, back);
  }

  /** A revert over the ledger, read backward as pending items, then
      recorded ones, then the bootstrap item, passes over the pending ones,
      reverts the first `back` recorded ones, and stops with no error at the
      bootstrap item. */
  lemma RevertToBootstrap(e: Executor, boot: Item, left: seq<Item>, stamped: seq<Item>, back: int)
    requires boot.Applied() && e.layout.parse(boot.id) == Success(e.layout.min)
    requires forall x | x in left :: !x.Applied()
    requires forall x | x in stamped :: e.Judge(Down, x) == Act && e.Reply(Down, x).None?
    ensures e.Walk(Down, Reversed(left) + Reversed(stamped) + [boot], 0, back) ==
              Outcome(None, e.Trace(Down, Take(Reversed(stamped), back)))
  {
    var a := Reversed(left) + Reversed(stamped);
    var v := a + [boot];
    RevertReach(e, left, stamped);
    assert v[0..|a|] == a && v[|a|] == boot;
    e.WalkUntil(Down, v, 0, |a|, back);
  }

  /** What a revert meets before the bootstrap item: pending items it passes
      over and recorded ones it reverts without an error. */
  lemma RevertReach(e: Executor, left: seq<Item>, stamped: seq<Item>)
    requires forall x | x in left :: !x.Applied()
    requires forall x | x in stamped :: e.Judge(Down, x) == Act && e.Reply(Down, x).None?
    ensures e.Clean(Down, Reversed(left) + Reversed(stamped))
    ensures e.Acted(Down, Reversed(left) + Reversed(stamped)) == Reversed(stamped)
  {
    var a := Reversed(left) + Reversed(stamped);
    ReversedIn(left);
    ReversedIn(stamped);
    ActsOnNone(e, Down, Reversed(left));
    ActsOnAll(e, Down, Reversed(stamped));
    ActedAppend(e, Down, Reversed(left), Reversed(stamped));
    assert [] + Reversed(stamped) == Reversed(stamped);
    forall i | 0 <= i < |a| ensures e.Passes(Down, a[i]) {
      assert a[i] in Reversed(left) || a[i] in Reversed(stamped);
    }
  }

  lemma RunFromBootstrap(e: Executor, boot: Item, pend: seq<Item>, step: int)
    requires boot.Applied() && e.layout.parse(boot.id).Success?
    requires forall x | x in pend :: e.Judge(Up, x) == Act && e.Reply(Up, x).None?
    ensures e.Walk(Up, [boot] + pend, 0, step) == Outcome(None, e.Trace(Up, Take(pend, step)))
  {
    var items := [boot] + pend;
    assert items[0] == boot && items[1..] == pend;
    ActsOnAll(e, Up, pend);
    assert e.Acted(Up, items) == pend;
    forall i | 0 <= i < |items| ensures e.Passes(Up, items[i]) {
      if i > 0 {
        assert items[i] == pend[i - 1];
      }
    }
    e.WalkSummary(Up, items, step);
  }

  /** The ledger after a run from the bootstrap item, read backward: the items
      still pending (last first), the recorded ones (last first), then the
      bootstrap item. */
  lemma RecordedFromBootstrap(e: Executor, boot: Item, pend: seq<Item>, now: Time, step: int) returns (v: seq<Item>)
    requires boot.Applied() && e.layout.parse(boot.id).Success?
    requires forall x | x in pend :: e.Judge(Up, x) == Act
    ensures v == Reversed(Recorded(e, [boot] + pend, now, step))
    ensures v == Reversed(pend[|Take(pend, step)|..]) + Reversed(Stamped(Take(pend, step), now)) + [boot]
  {
    var items := [boot] + pend;
    assert items[0] == boot && items[1..] == pend;
    var stamped, left := Stamped(Take(pend, step), now), pend[|Take(pend, step)|..];
    RecordedPending(e, pend, now, step);
    assert Recorded(e, items, now, step) == [boot] + (stamped + left);
    ReversedAppend([boot], stamped + left);
    ReversedAppend(stamped, left);
    assert Reversed([boot]) == [boot] + Reversed([boot][..0]);
    assert [boot][..0] == [];
    v := Reversed(Recorded(e, items, now, step));
  }

  /** The item `Setup` creates is one both walks treat as the sentinel, when
      the Id layout reads back what it writes: a run passes over it and a
      revert walk ends on it without an error. */
  lemma SetupItemIsSentinel(e: Executor, now: Time)
    requires now != Zero
    requires e.layout.parse(e.layout.format(e.layout.min)) == Success(e.layout.min)
    ensures e.Judge(Up, e.SetupItem(now)) == Skip
    ensures e.Judge(Down, e.SetupItem(now)) == Stop(None)
    ensures e.Acted(Up, [e.SetupItem(now)]) == [] && e.Acted(Down, [e.SetupItem(now)]) == []
  {
  }
}
