/** Values the migration executor works on: items, instants, errors and the
    calls it makes to its collaborators. */
module MigrationTypes {

  /** An error value as returned by a collaborator or by the Id parser. */
  datatype Error = Error(message: string)

  /** Go's `error` return: `None` stands for `nil`. */
  datatype Option<+T> = None | Some(value: T)

  /** A value or the error that prevented it. */
  datatype Result<+T> = Success(value: T) | Failure(error: Error)

  /** A `time.Time`; `Zero` is Go's zero instant, the one for which `IsZero()` holds. */
  datatype Time = Zero | At(instant: int)

  /** A migration as the provider reports it. `createdAt` is the moment its
      ledger row was written, and is `Zero` while the migration is pending. */
  datatype Item = Item(id: string, description: string, createdAt: Time)
  {
    predicate Applied() { createdAt != Zero }
  }

  /** The up and down scripts of a migration. */
  datatype Content = Content(up: string, down: string)

  /** The Id layout: `time.Parse(format, ·)`, `t.Format(format)` and the
      sentinel instant `min` of the migration package. */
  datatype Layout = Layout(parse: string -> Result<Time>, format: Time -> string, min: Time)

  /** Which way a walk over the migrations goes: `Up` applies, `Down` reverts. */
  datatype Direction = Up | Down

  /** One call the executor makes to a collaborator or a hook, with what it
      hands over. */
  datatype Event =
    | Written(item: Item, content: Content)  // Generator.Write
    | Generated(item: Item)                 // Generator.Create
    | OnRun(item: Item)                     // OnRunFn, given the copy `op` before it changes it
    | OnRevert(item: Item)                  // OnRevertFn, likewise
    | RunnerRun(op: Item)                   // Runner.Run
    | RunnerRevert(op: Item)                // Runner.Revert

  /** `s` read from its last element to its first. */
  function Reversed<T>(s: seq<T>): seq<T>
  {
    if s == [] then [] else [s[|s| - 1]] + Reversed(s[..|s| - 1])
  }

  /** Position `k` of the reversed sequence is position `|s| - 1 - k` of `s`:
      a backward walk visits the indices from the last down to the first. */
  lemma {:induction false} ReversedAt<T>(s: seq<T>, k: nat)
    requires k < |s|
    ensures |Reversed(s)| == |s|
    ensures Reversed(s)[k] == s[|s| - 1 - k]
  {
    if k == 0 {
      ReversedLength(s[..|s| - 1]);
    } else {
      ReversedAt(s[..|s| - 1], k - 1);
    }
  }

  lemma {:induction false} ReversedLength<T>(s: seq<T>)
    ensures |Reversed(s)| == |s|
  {
    if s != [] {
      ReversedLength(s[..|s| - 1]);
    }
  }

  /** Reversing a concatenation reverses and swaps its parts. */
  lemma {:induction false} ReversedAppend<T>(a: seq<T>, b: seq<T>)
    ensures Reversed(a + b) == Reversed(b) + Reversed(a)
    decreases |b|
  {
    if b == [] {
      assert a + b == a;
    } else {
      var init, last := b[..|b| - 1], b[|b| - 1];
      assert b == init + [last];
      calc {
        Reversed(a + b);
        { assert a + b == (a + init) + [last]; }
        Reversed((a + init) + [last]);
        { ReversedSnoc(a + init, last); }
        [last] + Reversed(a + init);
        { ReversedAppend(a, init); }
        [last] + (Reversed(init) + Reversed(a));
        { ReversedSnoc(init, last); }
        Reversed(b) + Reversed(a);
      }
    }
  }

  lemma ReversedSnoc<T>(s: seq<T>, x: T)
    ensures Reversed(s + [x]) == [x] + Reversed(s)
  {
  }

  /** Reversal keeps exactly the elements it was given. */
  lemma {:induction false} ReversedIn<T>(s: seq<T>)
    ensures forall x :: x in Reversed(s) <==> x in s
  {
    if s != [] {
      var init := s[..|s| - 1];
      assert s == init + [s[|s| - 1]];
      ReversedIn(init);
    }
  }
}
