/** Extension methods over enumerable sequences: `ForEach` and `JoinAll`. */
module EnumerableExtensions {
  import opened Common

  // ---------------------------------------------------------------------
  // ForEach
  // ---------------------------------------------------------------------

  /** The state reached by applying `action` to every element of `items`, in
      order, starting from `state`. The side effect of a C# `Action<T>` is
      modelled as a transformation of the state it acts on. */
  function Applied<S, T>(action: (S, T) -> S, state: S, items: seq<T>): S
    decreases |items|
  {
    if |items| == 0 then state
    else action(Applied(action, state, items[..|items| - 1]), items[|items| - 1])
  }

  /** An action that records the element it is applied to. */
  function Record<T>(log: seq<T>, item: T): seq<T> {
    log + [item]
  }

  /** Runs `action` on each element in enumeration order. */
  method ForEach<S, T>(items: seq<T>, action: (S, T) -> S, state: S) returns (final: S)
    ensures final == Applied(action, state, items)
  {
    final := state;
    var i := 0;
    while i < |items|
      invariant 0 <= i <= |items|
      invariant final == Applied(action, state, items[..i])
    {
      assert items[..i + 1][..i] == items[..i];
      final := action(final, items[i]);
      i := i + 1;
    }
    assert items[..i] == items;
  }

  /** Applying a recording action shows that every element is visited
      exactly once, in enumeration order. */
  lemma {:induction false} AppliedVisitsEachOnceInOrder<T>(items: seq<T>)
    ensures Applied(Record, [], items) == items
  {
    if |items| > 0 {
      var front := items[..|items| - 1];
      AppliedVisitsEachOnceInOrder(front);
      assert front + [items[|items| - 1]] == items;
    }
  }

  // ---------------------------------------------------------------------
  // JoinAll
  // ---------------------------------------------------------------------

  /** The elements of `items` in order, with `separator` between each
      consecutive pair and nowhere else. */
  function Joined(items: seq<string>, separator: string): string
    decreases |items|
  {
    if |items| == 0 then ""
    else if |items| == 1 then items[0]
    else Joined(items[..|items| - 1], separator) + separator + items[|items| - 1]
  }

  /** The sum of the lengths of the elements of `items`. */
  function TotalLength(items: seq<string>): nat
    decreases |items|
  {
    if |items| == 0 then 0 else TotalLength(items[..|items| - 1]) + |items[|items| - 1]|
  }

  /** `n` elements joined hold `n - 1` separators and nothing else. */
  lemma {:induction false} JoinedLength(items: seq<string>, separator: string)
    requires |items| >= 1
    ensures |Joined(items, separator)| == TotalLength(items) + (|items| - 1) * |separator|
  {
    if |items| > 1 {
      JoinedLength(items[..|items| - 1], separator);
    }
  }

  /** Joining unfolds from the front as well as from the back. */
  lemma {:induction false} JoinedCons(first: string, rest: seq<string>, separator: string)
    requires |rest| >= 1
    ensures Joined([first] + rest, separator) == first + separator + Joined(rest, separator)
  {
    var all := [first] + rest;
    if |rest| == 1 {
      assert all[..1] == [first];
    } else {
      var front := rest[..|rest| - 1];
      assert all[..|all| - 1] == [first] + front;
      JoinedCons(first, front, separator);
    }
  }

  /** Concatenates the elements with `separator` between consecutive ones;
      an empty input gives `null`, not the empty string. */
  method JoinAll(items: seq<string>, separator: string) returns (result: Option<string>)
    ensures result.None? <==> |items| == 0
    ensures |items| == 1 ==> result == Some(items[0])
    ensures result.Some? ==> result.value == Joined(items, separator)
  {
    result := None;
    var index := 0;
    var countMinusOne := |items| - 1;
    while index < |items|
      invariant 0 <= index <= |items|
      invariant index == 0 <==> result.None?
      invariant index > 0 ==>
        result.value == Joined(items[..index], separator) + (if index <= countMinusOne then separator else "")
    {
      // C# string concatenation reads a null operand as ""
      var sofar := if result.Some? then result.value else "";
      sofar := sofar + items[index];
      if index < countMinusOne {
        sofar := sofar + separator;
      }
      assert items[..index + 1][..index] == items[..index];
      result := Some(sofar);
      index := index + 1;
    }
    assert items[..index] == items;
  }
}
