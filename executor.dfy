/** The migration executor: it asks the provider for the ordered list of
    migrations, walks it forward to apply pending ones or backward to revert
    applied ones, and hands each chosen item, after its hook, to the runner. */
module Migration {
  import opened MigrationTypes

  /** `Provider.Migrations()`: the provider's answer to the one call the executor makes. */
  datatype Provider = Provider(migrations: Result<seq<Item>>)

  /** `Runner.Run` and `Runner.Revert`: the error each returns for an item. */
  datatype Runner = Runner(run: Item -> Option<Error>, revert: Item -> Option<Error>)

  /** `Generator.Write`, and `Generator.Create` with the path and the error it
      returns side by side, as Go's `(string, error)` pair. */
  datatype Generator = Generator(write: (Item, Content) -> Option<Error>, create: Item -> (string, Option<Error>))

  /** What a walk does with one item: pass over it without spending budget,
      hand it to the runner, or end the whole call with the given error. */
  datatype Verdict = Skip | Act | Stop(err: Option<Error>)

  /** The error a call returns, and the calls it made on the way, in order. */
  datatype Outcome = Outcome(err: Option<Error>, trace: seq<Event>)

  function Prefixed(events: seq<Event>, o: Outcome): Outcome
  {
    Outcome(o.err, events + o.trace)
  }

  lemma PrefixedTwice(a: seq<Event>, b: seq<Event>, o: Outcome)
    ensures Prefixed(a, Prefixed(b, o)) == Prefixed(a + b, o)
  {
  }

  /** The first `step` elements of `s`; all of it when `step` is negative. */
  function Take<T>(s: seq<T>, step: int): seq<T>
  {
    if 0 <= step < |s| then s[..step] else s
  }

  /** The script pair the bootstrap migration creates and drops the ledger with. */
  const LedgerScript := Content(
    "CREATE TABLE migrations (\n" +
    " id          TEXT      NOT NULL PRIMARY KEY,\n" +
    " description TEXT      NOT NULL,\n" +
    " created_at  TIMESTAMP NOT NULL\n" +
    ");\n",
    "DROP TABLE IF EXISTS migrations;")

  datatype Executor = Executor(
    provider: Provider,
    runner: Runner,
    generator: Generator,
    onRun: Option<Item -> Item>,
    onRevert: Option<Item -> Item>,
    layout: Layout)
  {
    /** `Migrations()` passes the provider's answer through. */
    function Migrations(): Result<seq<Item>>
    {
      provider.migrations
    }

    /** The rules both walks apply to an item. Applying parses the Id first and
        fails on a bad one, then skips applied items and the sentinel; reverting
        skips pending items first, then stops on a bad Id (with its error) and on
        the sentinel (with no error). */
    function Judge(dir: Direction, x: Item): Verdict
    {
      match dir
      case Up =>
        (match layout.parse(x.id)
         case Failure(err) => Stop(Some(err))
         case Success(t) => if x.Applied() || t == layout.min then Skip else Act)
      case Down =>
        if !x.Applied() then Skip
        else
          match layout.parse(x.id)
          case Failure(err) => Stop(Some(err))
          case Success(t) => if t == layout.min then Stop(None) else Act
    }

    /** The applying walk's rules: a bad Id stops it with the parse error,
        whether or not the item is applied; an applied item or the sentinel is
        passed over; any other item is acted on. */
    lemma ApplyRules(x: Item)
      ensures layout.parse(x.id).Failure? ==> Judge(Up, x) == Stop(Some(layout.parse(x.id).error))
      ensures Judge(Up, x) == Skip <==>
                layout.parse(x.id).Success? && (x.Applied() || layout.parse(x.id).value == layout.min)
      ensures Judge(Up, x) == Act <==>
                layout.parse(x.id).Success? && !x.Applied() && layout.parse(x.id).value != layout.min
      ensures Judge(Up, x) != Stop(None)
    {
    }

    /** The reverting walk's rules: a pending item is passed over, whatever
        its Id; an applied item with a bad Id stops the walk with the parse
        error, the applied sentinel stops it with no error, and any other
        applied item is acted on. */
    lemma RevertRules(x: Item)
      ensures !x.Applied() ==> Judge(Down, x) == Skip
      ensures x.Applied() && layout.parse(x.id).Failure? ==> Judge(Down, x) == Stop(Some(layout.parse(x.id).error))
      ensures Judge(Down, x) == Stop(None) <==> x.Applied() && layout.parse(x.id) == Success(layout.min)
      ensures Judge(Down, x) == Act <==>
                x.Applied() && layout.parse(x.id).Success? && layout.parse(x.id).value != layout.min
    {
    }

    function Hook(dir: Direction): Option<Item -> Item>
    {
      if dir == Up then onRun else onRevert
    }

    /** The copy `op` of `x` as the hook leaves it. */
    function Prepared(dir: Direction, x: Item): Item
    {
      match Hook(dir)
      case None => x
      case Some(f) => f(x)
    }

    /** The calls made for an item that is acted on: the hook, when set, sees
        the copy of `x`; then the runner gets that copy as the hook left it. */
    function Handling(dir: Direction, x: Item): seq<Event>
    {
      var hooked := if Hook(dir).None? then [] else if dir == Up then [OnRun(x)] else [OnRevert(x)];
      var op := Prepared(dir, x);
      hooked + [if dir == Up then RunnerRun(op) else RunnerRevert(op)]
    }

    /** The runner's answer for an item that is acted on. */
    function Reply(dir: Direction, x: Item): Option<Error>
    {
      if dir == Up then runner.run(Prepared(dir, x)) else runner.revert(Prepared(dir, x))
    }

    /** The outcome of walking `visit` in order from position `from` on, with
        budget `step`. The walk ends with the list, when the budget reaches 0,
        on an item judged `Stop`, and on the first error of the runner. */
    function Walk(dir: Direction, visit: seq<Item>, from: nat, step: int): Outcome
      decreases |visit| - from
    {
      if from >= |visit| || step == 0 then Outcome(None, [])
      else
        match Judge(dir, visit[from])
        case Stop(err) => Outcome(err, [])
        case Skip => Walk(dir, visit, from + 1, step)
        case Act =>
          var reply := Reply(dir, visit[from]);
          if reply.Some? then Outcome(reply, Handling(dir, visit[from]))
          else Prefixed(Handling(dir, visit[from]), Walk(dir, visit, from + 1, step - 1))
    }

    /** The items of `visit` a walk would act on, in visiting order. */
    function Acted(dir: Direction, visit: seq<Item>): seq<Item>
    {
      if visit == [] then []
      else if Judge(dir, visit[0]) == Act then [visit[0]] + Acted(dir, visit[1..])
      else Acted(dir, visit[1..])
    }

    /** The calls made when the items of `s` are acted on one after another. */
    function Trace(dir: Direction, s: seq<Item>): seq<Event>
    {
      if s == [] then [] else Handling(dir, s[0]) + Trace(dir, s[1..])
    }

    /** The walk neither stops on `x` nor sees the runner fail on it. */
    predicate Passes(dir: Direction, x: Item)
    {
      match Judge(dir, x)
      case Skip => true
      case Act => Reply(dir, x).None?
      case Stop(_) => false
    }

    /** No item of `visit` ends a walk early. */
    predicate Clean(dir: Direction, visit: seq<Item>)
    {
      forall i :: 0 <= i < |visit| ==> Passes(dir, visit[i])
    }

    /** The migration `Setup` creates: the sentinel Id, stamped with the clock. */
    function SetupItem(now: Time): Item
    {
      Item(layout.format(layout.min), "setup", now)
    }

    /** `Setup()`, with `time.Now()` passed in as `now`: the generator writes the
        bootstrap item and the ledger script, and only if that succeeds is the
        item run. No hook is involved. */
    method Setup(now: Time) returns (err: Option<Error>, trace: seq<Event>)
      ensures |trace| >= 1 && trace[0] == Written(SetupItem(now), LedgerScript)
      ensures generator.write(SetupItem(now), LedgerScript).Some? ==>
                err == generator.write(SetupItem(now), LedgerScript) && |trace| == 1
      ensures generator.write(SetupItem(now), LedgerScript).None? ==>
                err == runner.run(SetupItem(now)) && trace == [trace[0], RunnerRun(SetupItem(now))]
    {
      var migration := Item(layout.format(layout.min), "setup", now);
      var content := LedgerScript;
      trace := [Written(migration, content)];
      var written := generator.write(migration, content);
      if written.Some? {
        return written, trace;
      }
      trace := trace + [RunnerRun(migration)];
      err := runner.run(migration);
    }

    /** `Create(name)`, with `time.Now()` passed in as `now`: an item whose Id
        is the formatted clock reading is handed to the generator, whose path
        and error are both returned as they are. The ledger is not touched. */
    method Create(name: string, now: Time) returns (path: string, err: Option<Error>, trace: seq<Event>)
      ensures |trace| == 1 && trace[0].Generated?
      ensures trace[0].item.id == layout.format(now) && trace[0].item.description == name
      ensures trace[0].item.createdAt == now
      ensures (path, err) == generator.create(trace[0].item)
    {
      var migration := Item(layout.format(now), name, now);
      trace := [Generated(migration)];
      path, err := generator.create(migration).0, generator.create(migration).1;
    }

    /** `Run(step)`: applies at most `step` pending migrations in list order,
        all of them when `step` is negative. */
    method Run(step: int) returns (err: Option<Error>, trace: seq<Event>)
      ensures Migrations().Failure? ==> err == Some(Migrations().error) && trace == []
      ensures Migrations().Success? ==> Outcome(err, trace) == Walk(Up, Migrations().value, 0, step)
      ensures Migrations().Success? && step == 0 ==> err == None && trace == []
      ensures Migrations().Success? ==>
                var acted := Acted(Up, Migrations().value);
                exists n :: 0 <= n <= |acted| && (step >= 0 ==> n <= step) && trace == Trace(Up, acted[..n])
      ensures Migrations().Success? && Clean(Up, Migrations().value) ==>
                err == None && trace == Trace(Up, Take(Acted(Up, Migrations().value), step))
      ensures Migrations().Success? ==>
                var visit := Migrations().value;
                forall j | 0 <= j <= |visit| && Clean(Up, visit[..j]) && 0 <= step <= |Acted(Up, visit[..j])| ::
                  err == None && trace == Trace(Up, Take(Acted(Up, visit[..j]), step))
    {
      var listed := Migrations();
      if listed.Failure? {
        return Some(listed.error), [];
      }
      var migrations := listed.value;
      var budget := step;
      err, trace := None, [];
      ghost var whole := Walk(Up, migrations, 0, step);
      var i := 0;
      while i < |migrations|
        invariant 0 <= i <= |migrations|
        invariant whole == Prefixed(trace, Walk(Up, migrations, i, budget))
      {
        var migration := migrations[i];
        if budget == 0 {
          assert trace + [] == trace;
          break;
        }
        var parsed := layout.parse(migration.id);
        if parsed.Failure? {
          err := Some(parsed.error);
          WalkStops(Up, migrations, i, budget);
          assert trace + [] == trace;
          break;
        }
        if migration.createdAt != Zero || parsed.value == layout.min {
          WalkSkips(Up, migrations, i, budget);
          i := i + 1;
          continue;
        }
        WalkActs(Up, migrations, i, budget);
        ghost var before := trace;
        var op := migration;
        if onRun.Some? {
          trace := trace + [OnRun(op)];
          op := onRun.value(op);
        }
        trace := trace + [RunnerRun(op)];
        assert trace == before + Handling(Up, migration);
        var failed := runner.run(op);
        if failed.Some? {
          err := failed;
          break;
        }
        PrefixedTwice(before, Handling(Up, migration), Walk(Up, migrations, i + 1, budget - 1));
        budget := budget - 1;
        i := i + 1;
      }
      assert Outcome(err, trace) == whole;
      WalkSummary(Up, migrations, step);
    }

    /** `RunAll()`: `Run(-1)`, which applies every pending migration. */
    method RunAll() returns (err: Option<Error>, trace: seq<Event>)
      ensures Migrations().Failure? ==> err == Some(Migrations().error) && trace == []
      ensures Migrations().Success? ==> Outcome(err, trace) == Walk(Up, Migrations().value, 0, -1)
      ensures Migrations().Success? && Clean(Up, Migrations().value) ==>
                err == None && trace == Trace(Up, Acted(Up, Migrations().value))
    {
      err, trace := Run(-1);
    }

    /** `Revert(step)`: reverts at most `step` applied migrations from the end
        of the list towards its start, all of them when `step` is negative. */
    method Revert(step: int) returns (err: Option<Error>, trace: seq<Event>)
      ensures Migrations().Failure? ==> err == Some(Migrations().error) && trace == []
      ensures Migrations().Success? ==> Outcome(err, trace) == Walk(Down, Reversed(Migrations().value), 0, step)
      ensures Migrations().Success? && step == 0 ==> err == None && trace == []
      ensures Migrations().Success? ==>
                var acted := Acted(Down, Reversed(Migrations().value));
                exists n :: 0 <= n <= |acted| && (step >= 0 ==> n <= step) && trace == Trace(Down, acted[..n])
      ensures Migrations().Success? && Clean(Down, Reversed(Migrations().value)) ==>
                err == None && trace == Trace(Down, Take(Acted(Down, Reversed(Migrations().value)), step))
      ensures Migrations().Success? ==>
                var visit := Reversed(Migrations().value);
                forall j | 0 <= j <= |visit| && Clean(Down, visit[..j]) && 0 <= step <= |Acted(Down, visit[..j])| ::
                  err == None && trace == Trace(Down, Take(Acted(Down, visit[..j]), step))
      ensures Migrations().Success? ==>
                var visit := Reversed(Migrations().value);
                forall j | 0 <= j < |visit| && Clean(Down, visit[..j]) && Judge(Down, visit[j]) == Stop(None) ::
                  err == None && trace == Trace(Down, Take(Acted(Down, visit[..j]), step))
    {
      var listed := Migrations();
      if listed.Failure? {
        return Some(listed.error), [];
      }
      var migrations := listed.value;
      var budget := step;
      err, trace := None, [];
      ghost var visit := Reversed(migrations);
      ReversedLength(migrations);
      var i := |migrations| - 1;
      ghost var k: nat := 0;
      ghost var whole := Walk(Down, visit, 0, step);
      while i >= 0
        invariant -1 <= i < |migrations| && k == |migrations| - 1 - i
        invariant whole == Prefixed(trace, Walk(Down, visit, k, budget))
      {
        var migration := migrations[i];
        ReversedAt(migrations, k);
        assert migration == visit[k];
        if budget == 0 {
          assert trace + [] == trace;
          break;
        }
        if migration.createdAt == Zero {
          WalkSkips(Down, visit, k, budget);
          i, k := i - 1, k + 1;
          continue;
        }
        var parsed := layout.parse(migration.id);
        if parsed.Failure? || parsed.value == layout.min {
          err := if parsed.Failure? then Some(parsed.error) else None;
          WalkStops(Down, visit, k, budget);
          assert trace + [] == trace;
          break;
        }
        WalkActs(Down, visit, k, budget);
        ghost var before := trace;
        var op := migration;
        if onRevert.Some? {
          trace := trace + [OnRevert(op)];
          op := onRevert.value(op);
        }
        trace := trace + [RunnerRevert(op)];
        assert trace == before + Handling(Down, migration);
        var failed := runner.revert(op);
        if failed.Some? {
          err := failed;
          break;
        }
        PrefixedTwice(before, Handling(Down, migration), Walk(Down, visit, k + 1, budget - 1));
        budget := budget - 1;
        i, k := i - 1, k + 1;
      }
      assert Outcome(err, trace) == whole;
      WalkSummary(Down, visit, step);
    }

    /** `RevertAll()`: `Revert(-1)`, which reverts every applied migration down
        to the sentinel. */
    method RevertAll() returns (err: Option<Error>, trace: seq<Event>)
      ensures Migrations().Failure? ==> err == Some(Migrations().error) && trace == []
      ensures Migrations().Success? ==> Outcome(err, trace) == Walk(Down, Reversed(Migrations().value), 0, -1)
      ensures Migrations().Success? && Clean(Down, Reversed(Migrations().value)) ==>
                err == None && trace == Trace(Down, Acted(Down, Reversed(Migrations().value)))
      ensures Migrations().Success? ==>
                var visit := Reversed(Migrations().value);
                forall j | 0 <= j < |visit| && Clean(Down, visit[..j]) && Judge(Down, visit[j]) == Stop(None) ::
                  err == None && trace == Trace(Down, Acted(Down, visit[..j]))
    {
      err, trace := Revert(-1);
    }

    /** What every walk from the start of `visit` amounts to: nothing when the
        budget is 0; otherwise the calls for the first `n` items it acts on, for
        an `n` within the budget; and when no item ends it early, the calls for
        the first `step` of them, with no error. */
    lemma WalkSummary(dir: Direction, visit: seq<Item>, step: int)
      ensures step == 0 ==> Walk(dir, visit, 0, step) == Outcome(None, [])
      ensures var acted := Acted(dir, visit);
                exists n :: 0 <= n <= |acted| && (step >= 0 ==> n <= step) &&
                  Walk(dir, visit, 0, step).trace == Trace(dir, acted[..n])
      ensures Clean(dir, visit) ==>
                Walk(dir, visit, 0, step) == Outcome(None, Trace(dir, Take(Acted(dir, visit), step)))
      ensures forall j | 0 <= j <= |visit| && Clean(dir, visit[..j]) && 0 <= step <= |Acted(dir, visit[..j])| ::
                Walk(dir, visit, 0, step) == Outcome(None, Trace(dir, Take(Acted(dir, visit[..j]), step)))
      ensures forall j | 0 <= j < |visit| && Clean(dir, visit[..j]) && Judge(dir, visit[j]) == Stop(None) ::
                Walk(dir, visit, 0, step) == Outcome(None, Trace(dir, Take(Acted(dir, visit[..j]), step)))
    {
      var n := WalkPrefix(dir, visit, 0, step);
      assert visit[0..] == visit;
      if Clean(dir, visit) {
        WalkClean(dir, visit, 0, step);
      }
      forall j | 0 <= j <= |visit| && Clean(dir, visit[..j]) && 0 <= step <= |Acted(dir, visit[..j])|
        ensures Walk(dir, visit, 0, step) == Outcome(None, Trace(dir, Take(Acted(dir, visit[..j]), step)))
      {
        assert visit[0..j] == visit[..j];
        WalkBudget(dir, visit, 0, j, step);
      }
      forall j | 0 <= j < |visit| && Clean(dir, visit[..j]) && Judge(dir, visit[j]) == Stop(None)
        ensures Walk(dir, visit, 0, step) == Outcome(None, Trace(dir, Take(Acted(dir, visit[..j]), step)))
      {
        assert visit[0..j] == visit[..j];
        WalkUntil(dir, visit, 0, j, step);
      }
    }

    /** One step of a walk that is not over, by the verdict on the item at `from`. */
    lemma WalkSkips(dir: Direction, visit: seq<Item>, from: nat, step: int)
      requires from < |visit| && step != 0 && Judge(dir, visit[from]) == Skip
      ensures Walk(dir, visit, from, step) == Walk(dir, visit, from + 1, step)
    {
    }

    lemma WalkStops(dir: Direction, visit: seq<Item>, from: nat, step: int)
      requires from < |visit| && step != 0 && Judge(dir, visit[from]).Stop?
      ensures Walk(dir, visit, from, step) == Outcome(Judge(dir, visit[from]).err, [])
    {
    }

    lemma WalkActs(dir: Direction, visit: seq<Item>, from: nat, step: int)
      requires from < |visit| && step != 0 && Judge(dir, visit[from]) == Act
      ensures Reply(dir, visit[from]).Some? ==>
                Walk(dir, visit, from, step) == Outcome(Reply(dir, visit[from]), Handling(dir, visit[from]))
      ensures Reply(dir, visit[from]).None? ==>
                Walk(dir, visit, from, step) == Prefixed(Handling(dir, visit[from]), Walk(dir, visit, from + 1, step - 1))
    {
    }

    /** A walk returns an error only when it got one, from the item it
        ended on: every item before that one passed, and the error is either
        that item's parse error, or the runner's error for it. */
    lemma {:induction false} WalkErrorSource(dir: Direction, visit: seq<Item>, from: nat, step: int)
      ensures var r := Walk(dir, visit, from, step);
                r.err.Some? ==>
                  exists i | from <= i < |visit| ::
                    (forall k | from <= k < i :: Passes(dir, visit[k])) &&
                    (Judge(dir, visit[i]) == Stop(r.err) || (Judge(dir, visit[i]) == Act && Reply(dir, visit[i]) == r.err))
      decreases |visit| - from
    {
      var r := Walk(dir, visit, from, step);
      if from < |visit| && step != 0 && r.err.Some? {
        var x := visit[from];
        match Judge(dir, x)
        case Stop(_) =>
          assert Judge(dir, visit[from]) == Stop(r.err);
        case Skip =>
          WalkErrorSource(dir, visit, from + 1, step);
          var i :| from + 1 <= i < |visit| &&
                   (forall k | from + 1 <= k < i :: Passes(dir, visit[k])) &&
                   (Judge(dir, visit[i]) == Stop(r.err) || (Judge(dir, visit[i]) == Act && Reply(dir, visit[i]) == r.err));
          assert forall k | from <= k < i :: Passes(dir, visit[k]);
        case Act =>
          if Reply(dir, x).Some? {
            assert Reply(dir, visit[from]) == r.err;
          } else {
            WalkErrorSource(dir, visit, from + 1, step - 1);
            var i :| from + 1 <= i < |visit| &&
                     (forall k | from + 1 <= k < i :: Passes(dir, visit[k])) &&
                     (Judge(dir, visit[i]) == Stop(r.err) || (Judge(dir, visit[i]) == Act && Reply(dir, visit[i]) == r.err));
            assert forall k | from <= k < i :: Passes(dir, visit[k]);
          }
      }
    }

    /** `Acted` and `Trace` taken one item at a time. */
    lemma ActedFrom(dir: Direction, visit: seq<Item>, from: nat)
      requires from < |visit|
      ensures Judge(dir, visit[from]) == Act ==> Acted(dir, visit[from..]) == [visit[from]] + Acted(dir, visit[from + 1..])
      ensures Judge(dir, visit[from]) != Act ==> Acted(dir, visit[from..]) == Acted(dir, visit[from + 1..])
    {
    }

    lemma TraceCons(dir: Direction, x: Item, s: seq<Item>)
      ensures Trace(dir, [x] + s) == Handling(dir, x) + Trace(dir, s)
    {
    }

    /** Whatever happens, the calls a walk makes are those for the first `n`
        items it acts on, in order, for an `n` within the budget: a skipped
        item gets no hook and no runner call, and nothing after a stop is touched. */
    lemma {:induction false} WalkPrefix(dir: Direction, visit: seq<Item>, from: nat, step: int) returns (n: nat)
      requires from <= |visit|
      ensures n <= |Acted(dir, visit[from..])| && (step >= 0 ==> n <= step)
      ensures Walk(dir, visit, from, step).trace == Trace(dir, Acted(dir, visit[from..])[..n])
      decreases |visit| - from
    {
      var acted := Acted(dir, visit[from..]);
      n := 0;
      if from < |visit| && step != 0 {
        var x := visit[from];
        ActedFrom(dir, visit, from);
        var rest := Acted(dir, visit[from + 1..]);
        match Judge(dir, x)
        case Stop(err) =>
          WalkStops(dir, visit, from, step);
        case Skip =>
          assert acted == rest;
          WalkSkips(dir, visit, from, step);
          n := WalkPrefix(dir, visit, from + 1, step);
        case Act =>
          WalkActs(dir, visit, from, step);
          if Reply(dir, x).Some? {
            n := 1;
            assert acted == [x] + rest;
            assert acted[..1] == [x] + [];
            TraceCons(dir, x, []);
          } else {
            assert acted == [x] + rest;
            var m := WalkPrefix(dir, visit, from + 1, step - 1);
            n := m + 1;
            assert acted[..m + 1] == [x] + rest[..m];
            TraceCons(dir, x, rest[..m]);
          }
      }
      if n == 0 {
        assert acted[..0] == [];
      }
    }

    /** When no item ends the walk early, it hands the runner exactly the first
        `step` items it acts on (every one when `step` is negative) and returns
        no error. */
    lemma {:induction false} WalkClean(dir: Direction, visit: seq<Item>, from: nat, step: int)
      requires from <= |visit|
      requires Clean(dir, visit[from..])
      ensures Walk(dir, visit, from, step) == Outcome(None, Trace(dir, Take(Acted(dir, visit[from..]), step)))
      decreases |visit| - from
    {
      if from == |visit| {
        assert visit[from..] == [];
      } else if step == 0 {
        assert Take(Acted(dir, visit[from..]), step) == [];
      } else {
        var x := visit[from];
        ActedFrom(dir, visit, from);
        assert Passes(dir, visit[from..][0]);
        var tail, whole := visit[from + 1..], visit[from..];
        forall i | 0 <= i < |tail| ensures Passes(dir, tail[i]) {
          assert tail[i] == whole[i + 1];
        }
        var rest := Acted(dir, visit[from + 1..]);
        if Judge(dir, x) == Skip {
          assert Acted(dir, visit[from..]) == rest;
          WalkSkips(dir, visit, from, step);
          WalkClean(dir, visit, from + 1, step);
        } else {
          WalkActs(dir, visit, from, step);
          WalkClean(dir, visit, from + 1, step - 1);
          TakeCons(x, rest, step);
          TraceCons(dir, x, Take(rest, step - 1));
        }
      }
    }

    /** When the items up to position `j` all pass and a non-negative budget
        runs out among them, the walk ends there without an error, having
        handed the runner exactly the first `step` items it acts on; the
        items after the point where the budget ends are never looked at. */
    lemma {:induction false} WalkBudget(dir: Direction, visit: seq<Item>, from: nat, j: nat, step: int)
      requires from <= j <= |visit|
      requires Clean(dir, visit[from..j])
      requires 0 <= step <= |Acted(dir, visit[from..j])|
      ensures Walk(dir, visit, from, step) == Outcome(None, Trace(dir, Take(Acted(dir, visit[from..j]), step)))
      decreases j - from
    {
      var acted := Acted(dir, visit[from..j]);
      if step == 0 {
        assert Take(acted, step) == [];
      } else {
        var x := visit[from];
        var whole, tail := visit[from..j], visit[from + 1..j];
        assert whole[0] == x && whole[1..] == tail;
        assert Passes(dir, x);
        forall i | 0 <= i < |tail| ensures Passes(dir, tail[i]) {
          assert tail[i] == whole[i + 1];
        }
        var rest := Acted(dir, tail);
        if Judge(dir, x) == Skip {
          assert acted == rest;
          WalkSkips(dir, visit, from, step);
          WalkBudget(dir, visit, from + 1, j, step);
        } else {
          assert acted == [x] + rest;
          WalkActs(dir, visit, from, step);
          WalkBudget(dir, visit, from + 1, j, step - 1);
          TakeCons(x, rest, step);
          TraceCons(dir, x, Take(rest, step - 1));
        }
      }
    }

    /** When the items before position `j` all pass and the item at `j` ends
        the walk without an error (the sentinel, going backward), the walk
        returns no error, having handed the runner the first `step` items it
        acts on before `j`, or all of them when the budget lasts; nothing
        after `j` is looked at. */
    lemma {:induction false} WalkUntil(dir: Direction, visit: seq<Item>, from: nat, j: nat, step: int)
      requires from <= j < |visit|
      requires Clean(dir, visit[from..j])
      requires Judge(dir, visit[j]) == Stop(None)
      ensures Walk(dir, visit, from, step) == Outcome(None, Trace(dir, Take(Acted(dir, visit[from..j]), step)))
      decreases j - from
    {
      var acted := Acted(dir, visit[from..j]);
      if step == 0 {
        assert Take(acted, step) == [];
      } else if from == j {
        assert visit[from..j] == [];
        WalkStops(dir, visit, from, step);
      } else {
        var x := visit[from];
        var whole, tail := visit[from..j], visit[from + 1..j];
        assert whole[0] == x && whole[1..] == tail;
        assert Passes(dir, x);
        forall i | 0 <= i < |tail| ensures Passes(dir, tail[i]) {
          assert tail[i] == whole[i + 1];
        }
        var rest := Acted(dir, tail);
        if Judge(dir, x) == Skip {
          assert acted == rest;
          WalkSkips(dir, visit, from, step);
          WalkUntil(dir, visit, from + 1, j, step);
        } else {
          assert acted == [x] + rest;
          WalkActs(dir, visit, from, step);
          WalkUntil(dir, visit, from + 1, j, step - 1);
          TakeCons(x, rest, step);
          TraceCons(dir, x, Take(rest, step - 1));
        }
      }
    }
  }

  lemma TakeCons<T>(x: T, s: seq<T>, step: int)
    requires step != 0
    ensures Take([x] + s, step) == [x] + Take(s, step - 1)
  {
  }
}
