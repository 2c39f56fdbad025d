/** `IListExtensions`: in-place operations on a mutable list. */
module ListExtensions {
  import opened Common
  import StringExtensions

  /** A mutable list (`IList<T>`): its elements, read and written by
      position and appended to at the end. */
  class List<T> {
    var items: seq<T>

    constructor (initial: seq<T>)
      ensures items == initial
    {
      items := initial;
    }

    function Count(): nat
      reads this
    {
      |items|
    }

    /** The indexer setter `list[index] = value`. */
    method Set(index: nat, value: T)
      requires index < |items|
      modifies this
      ensures items == old(items)[index := value]
    {
      items := items[index := value];
    }

    /** `Add(value)`: appends at the end. */
    method Add(value: T)
      modifies this
      ensures items == old(items) + [value]
    {
      items := items + [value];
    }
  }

  // ---------------------------------------------------------------------
  // Swap
  // ---------------------------------------------------------------------

  /** `s` with the elements at `i` and `j` exchanged. */
  function Swapped<T>(s: seq<T>, i: nat, j: nat): seq<T>
    requires i < |s| && j < |s|
  {
    s[i := s[j]][j := s[i]]
  }

  /** Swapping keeps the length and the elements (as a multiset), exchanges
      exactly the two positions and leaves every other one as it was. */
  lemma SwappedPermutes<T>(s: seq<T>, i: nat, j: nat)
    requires i < j < |s|
    ensures |Swapped(s, i, j)| == |s|
    ensures Swapped(s, i, j)[i] == s[j] && Swapped(s, i, j)[j] == s[i]
    ensures forall k :: 0 <= k < |s| && k != i && k != j ==> Swapped(s, i, j)[k] == s[k]
    ensures multiset(Swapped(s, i, j)) == multiset(s)
  {
    var t := s[i := s[j]];
    assert multiset(t) == multiset(s) - multiset{s[i]} + multiset{s[j]};
  }

  /** Swapping twice restores the list. */
  lemma SwappedIsInvolution<T>(s: seq<T>, i: nat, j: nat)
    requires i < j < |s|
    ensures Swapped(Swapped(s, i, j), i, j) == s
  {
  }

  /** Exchanges the elements at `sourceIndex` and `destIndex`; answers
      false and changes nothing unless `0 <= sourceIndex < destIndex < Count`. */
  method Swap<T>(list: List<T>, sourceIndex: int, destIndex: int) returns (swapped: bool)
    modifies list
    ensures swapped <==> 0 <= sourceIndex < destIndex < |old(list.items)|
    ensures swapped ==> list.items == Swapped(old(list.items), sourceIndex, destIndex)
    ensures !swapped ==> list.items == old(list.items)
  {
    if sourceIndex < 0 || sourceIndex >= destIndex || list.Count() <= destIndex {
      return false;
    }
    var atSource, atDest := list.items[sourceIndex], list.items[destIndex];
    list.Set(destIndex, atSource);
    list.Set(sourceIndex, atDest);
    return true;
  }

  // ---------------------------------------------------------------------
  // TransformAll, ToLower, ToUpper
  // ---------------------------------------------------------------------

  /** `s` with `f` applied to every element. */
  function Mapped<T>(f: T -> T, s: seq<T>): (r: seq<T>)
    ensures |r| == |s|
  {
    seq(|s|, i requires 0 <= i < |s| => f(s[i]))
  }

  /** Transforming twice is transforming once with the composition. */
  lemma MappedTwice<T>(f: T -> T, g: T -> T, s: seq<T>)
    ensures Mapped(g, Mapped(f, s)) == Mapped(x => g(f(x)), s)
  {
  }

  /** Lower-casing every element of a list a second time changes nothing. */
  lemma ToLowerAllIsIdempotent(s: seq<string>)
    ensures Mapped(StringExtensions.ToLower, Mapped(StringExtensions.ToLower, s))
         == Mapped(StringExtensions.ToLower, s)
  {
    forall i | 0 <= i < |s|
      ensures StringExtensions.ToLower(StringExtensions.ToLower(s[i])) == StringExtensions.ToLower(s[i])
    {
      var t := s[i];
      assert StringExtensions.ToLower(StringExtensions.ToLower(t)) == StringExtensions.ToLower(t);
    }
  }

  /** Replaces each element by its image under `action`, in place. */
  method TransformAll<T>(list: List<T>, action: T -> T)
    modifies list
    ensures list.items == Mapped(action, old(list.items))
  {
    ghost var original := list.items;
    var i := 0;
    while i < list.Count()
      invariant |list.items| == |original| && 0 <= i <= |original|
      invariant forall k :: 0 <= k < i ==> list.items[k] == action(original[k])
      invariant forall k :: i <= k < |original| ==> list.items[k] == original[k]
    {
      list.Set(i, action(list.items[i]));
      i := i + 1;
    }
  }

  /** Lower-cases every string of the list. */
  method ToLower(list: List<string>)
    modifies list
    ensures list.items == Mapped(StringExtensions.ToLower, old(list.items))
  {
    TransformAll(list, StringExtensions.ToLower);
  }

  /** Upper-cases every string of the list. */
  method ToUpper(list: List<string>)
    modifies list
    ensures list.items == Mapped(StringExtensions.ToUpper, old(list.items))
  {
    TransformAll(list, StringExtensions.ToUpper);
  }

  // ---------------------------------------------------------------------
  // CopyTo
  // ---------------------------------------------------------------------

  /** The argument check of `CopyTo`: the first failing condition, in the
      source's order, or `Pass`. */
  function CopyToCheck(count: nat, index: int, copyCount: int): (r: Outcome)
    ensures r == Pass <==> 0 <= index < count && 0 <= copyCount <= count - index
  {
    if index < 0 then Fail(ArgumentOutOfRange("index"))
    else if index >= count then Fail(ArgumentOutOfRange("index"))
    else if copyCount < 0 then Fail(ArgumentOutOfRange("count"))
    else if count - index < copyCount then Fail(ArgumentOutOfRange("count"))
    else Pass
  }

  /** Appends `count` elements of `list`, starting at `index`, to
      `destination`; the list may be its own destination. */
  method CopyTo<T>(list: List<T>, index: int, destination: List<T>, count: int) returns (r: Outcome)
    modifies destination
    ensures r == CopyToCheck(|old(list.items)|, index, count)
    ensures r.Fail? ==> destination.items == old(destination.items)
    ensures r.Pass? ==> destination.items == old(destination.items) + old(list.items)[index..index + count]
  {
    r := CopyToCheck(list.Count(), index, count);
    if r.Fail? {
      return;
    }
    ghost var source := list.items;
    ghost var before := destination.items;
    var length := index + count;
    var i := index;
    while i < length
      invariant index <= i <= length
      invariant destination.items == before + source[index..i]
      invariant list != destination ==> list.items == source
      invariant list == destination ==> list.items == before + source[index..i]
    {
      assert list.items[i] == source[i];
      destination.Add(list.items[i]);
      assert source[index..i + 1] == source[index..i] + [source[i]];
      i := i + 1;
    }
  }
}
