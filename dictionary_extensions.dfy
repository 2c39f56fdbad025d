/** `IDictionaryExtensions`: inserting under a key-collision policy, bulk
    merges, positional slicing, key filtering and cloning over an
    insertion-ordered dictionary. */
module DictionaryExtensions {
  import opened Common
  import opened OrderedDictionary
  import StringExtensions

  /** What to do when the key being added is already present. */
  datatype KeyExistAction = TryAdd | Update | Rename

  const DefaultRenamedKeySuffix: string := "_RenamedKey"
  const DefaultAddOrRenameKeyMinRetryAttempts: int := 1
  const DefaultAddOrRenameKeyMaxRetryAttempts: int := 5

  // ---------------------------------------------------------------------
  // Single inserts
  // ---------------------------------------------------------------------

  /** The entries after `TryAddOrUpdate(key, value, update)`: stored when
      updating or when the key is absent, otherwise unchanged. */
  function TryPut<K(==), V>(entries: seq<(K, V)>, key: K, value: V, update: bool): seq<(K, V)> {
    if update || !HasKey(entries, key) then Put(entries, key, value) else entries
  }

  /** Overwrites the value of a present key, adds an absent one. */
  method AddOrUpdate<K(==), V>(d: Dictionary<K, V>, key: K, value: V)
    requires d.Valid()
    modifies d
    ensures d.Valid()
    ensures d.entries == Put(old(d.entries), key, value)
  {
    if d.ContainsKey(key) {
      d.SetItem(key, value);
    } else {
      PutSpec(d.entries, key, value);
      d.Add(key, value);
    }
  }

  /** Adds or updates; without `updateIfKeyExists` a present key is left
      alone and the answer is false. */
  method TryAddOrUpdate<K(==), V>(d: Dictionary<K, V>, key: K, value: V, updateIfKeyExists: bool)
    returns (ok: bool)
    requires d.Valid()
    modifies d
    ensures d.Valid()
    ensures ok <==> updateIfKeyExists || !HasKey(old(d.entries), key)
    ensures d.entries == TryPut(old(d.entries), key, value, updateIfKeyExists)
  {
    if updateIfKeyExists {
      AddOrUpdate(d, key, value);
    } else if !d.ContainsKey(key) {
      PutSpec(d.entries, key, value);
      d.Add(key, value);
    } else {
      return false;
    }
    return true;
  }

  /** A single `TryAddOrUpdate` changes nothing exactly when it answers false,
      and otherwise stores the value under the key. */
  lemma TryPutSpec<K, V>(entries: seq<(K, V)>, key: K, value: V, update: bool)
    requires DistinctKeys(entries)
    ensures DistinctKeys(TryPut(entries, key, value, update))
    ensures !update && HasKey(entries, key) ==> TryPut(entries, key, value, update) == entries
    ensures update || !HasKey(entries, key) ==> (key, value) in TryPut(entries, key, value, update)
    ensures !HasKey(entries, key) ==> TryPut(entries, key, value, update) == entries + [(key, value)]
  {
    PutSpec(entries, key, value);
    if !HasKey(entries, key) {
      assert Put(entries, key, value) == Put(entries, key, value)[..|entries|] + [(key, value)];
    }
  }

  // ---------------------------------------------------------------------
  // Renaming a colliding key
  // ---------------------------------------------------------------------

  /** The decimal digits of a natural number. */
  function NatToString(n: nat): (s: string)
    ensures |s| >= 1
    decreases n
  {
    if n < 10 then [('0' as int + n) as char]
    else NatToString(n / 10) + [('0' as int + n % 10) as char]
  }

  /** The text of an `int` as string interpolation writes it. */
  function IntToString(n: int): (s: string)
    ensures |s| >= 1
  {
    if n < 0 then "-" + NatToString(-n) else NatToString(n)
  }

  /** The suffix in force: a null or empty suffix means `"_RenamedKey"`. */
  function EffectiveSuffix(renamedKeySuffix: Option<string>): (suffix: string)
    ensures |suffix| >= 1
    ensures renamedKeySuffix.None? || renamedKeySuffix.value == "" ==> suffix == DefaultRenamedKeySuffix
    ensures renamedKeySuffix.Some? && renamedKeySuffix.value != "" ==> suffix == renamedKeySuffix.value
  {
    if renamedKeySuffix.None? || |renamedKeySuffix.value| == 0 then DefaultRenamedKeySuffix
    else renamedKeySuffix.value
  }

  /** The suffix appended after the `n`-th collision: the given one after the
      first, then `"_"` and the clock value read at the previous collision. */
  function SuffixAt(suffix: string, tick: nat -> int, n: nat): string {
    if n == 0 then suffix else "_" + IntToString(tick(n - 1))
  }

  /** The `n`-th key tried: the key itself, then each earlier candidate
      extended by the suffix in force. */
  function Candidate(key: string, suffix: string, tick: nat -> int, n: nat): string
    decreases n
  {
    if n == 0 then key else Candidate(key, suffix, tick, n - 1) + SuffixAt(suffix, tick, n - 1)
  }

  /** The first of `candidate(n)`, ..., `candidate(count - 1)` that is not a
      key of `entries`, or `None` when all of them are taken. */
  function FirstFree<V>(entries: seq<(string, V)>, candidate: nat -> string, n: nat, count: nat): Option<string>
    decreases count - n
  {
    if n >= count then None
    else if !HasKey(entries, candidate(n)) then Some(candidate(n))
    else FirstFree(entries, candidate, n + 1, count)
  }

  /** The keys `AddOrRenameKey` tries, in order. */
  function CandidateKeys(key: string, suffix: string, tick: nat -> int): nat -> string {
    (n: nat) => Candidate(key, suffix, tick, n)
  }

  /** The key `AddOrRenameKey` adds under, among its `retryAttempts + 1`
      candidates, or `None` when all of them are taken. */
  function RenamedKey<V>(entries: seq<(string, V)>, key: string, renamedKeySuffix: Option<string>,
                         tick: nat -> int, retryAttempts: nat): Option<string>
  {
    FirstFree(entries, CandidateKeys(key, EffectiveSuffix(renamedKeySuffix), tick), 0, retryAttempts + 1)
  }

  /** Each candidate extends the one before it by the suffix in force. */
  lemma CandidateStep(key: string, suffix: string, tick: nat -> int, n: nat)
    ensures Candidate(key, suffix, tick, n) <= Candidate(key, suffix, tick, n + 1)
    ensures |suffix| >= 1 ==> |Candidate(key, suffix, tick, n)| < |Candidate(key, suffix, tick, n + 1)|
  {
    var previous := Candidate(key, suffix, tick, n);
    var extension := SuffixAt(suffix, tick, n);
    assert Candidate(key, suffix, tick, n + 1) == previous + extension;
    assert (previous + extension)[..|previous|] == previous;
    if n > 0 {
      assert |extension| >= 1;
    }
  }

  lemma PrefixTransitive<T>(a: seq<T>, b: seq<T>, c: seq<T>)
    requires a <= b && b <= c
    ensures a <= c
  {
    assert c[..|b|][..|a|] == c[..|a|];
  }

  /** Every candidate extends the earlier ones; with a non-empty suffix each
      is strictly longer, so none repeats. */
  lemma {:induction false} CandidatesExtend(key: string, suffix: string, tick: nat -> int, m: nat, n: nat)
    requires m <= n
    ensures Candidate(key, suffix, tick, m) <= Candidate(key, suffix, tick, n)
    ensures |suffix| >= 1 && m < n ==>
      |Candidate(key, suffix, tick, m)| < |Candidate(key, suffix, tick, n)|
    decreases n
  {
    if m < n {
      CandidatesExtend(key, suffix, tick, m, n - 1);
      CandidateStep(key, suffix, tick, n - 1);
      PrefixTransitive(Candidate(key, suffix, tick, m), Candidate(key, suffix, tick, n - 1),
                       Candidate(key, suffix, tick, n));
    }
  }

  /** Every candidate starts with the key. */
  lemma CandidateExtendsKey(key: string, suffix: string, tick: nat -> int, n: nat)
    ensures key <= Candidate(key, suffix, tick, n)
  {
    CandidatesExtend(key, suffix, tick, 0, n);
    assert Candidate(key, suffix, tick, 0) == key;
  }

  /** One step of the search: a free candidate ends it, a taken one passes
      it on to the next candidate. */
  lemma FirstFreeStep<V>(entries: seq<(string, V)>, candidate: nat -> string, n: nat, count: nat)
    requires n < count
    ensures !HasKey(entries, candidate(n)) ==> FirstFree(entries, candidate, n, count) == Some(candidate(n))
    ensures HasKey(entries, candidate(n)) ==>
      FirstFree(entries, candidate, n, count) == FirstFree(entries, candidate, n + 1, count)
  {
  }

  /** The search from candidate `n` finds the first free candidate from
      `n` on, and finds none exactly when every candidate from `n` on is
      taken. */
  lemma {:induction false} FirstFreeMeaning<V>(entries: seq<(string, V)>, candidate: nat -> string,
                                               n: nat, count: nat)
    ensures FirstFree(entries, candidate, n, count).None? <==>
      forall j :: n <= j < count ==> HasKey(entries, candidate(j))
    ensures FirstFree(entries, candidate, n, count).Some? ==>
      exists m :: n <= m < count &&
        FirstFree(entries, candidate, n, count).value == candidate(m) &&
        !HasKey(entries, candidate(m)) &&
        forall j :: n <= j < m ==> HasKey(entries, candidate(j))
    decreases count - n
  {
    if n < count && HasKey(entries, candidate(n)) {
      FirstFreeMeaning(entries, candidate, n + 1, count);
    }
  }

  /** The key renaming settles on is absent, starts with the original key,
      and is the first free one of at most `retryAttempts + 1` candidates;
      there is none exactly when all those candidates are taken. */
  lemma RenamedKeySpec<V>(entries: seq<(string, V)>, key: string, renamedKeySuffix: Option<string>,
                          tick: nat -> int, retryAttempts: nat)
    ensures RenamedKey(entries, key, renamedKeySuffix, tick, retryAttempts).None? <==>
      forall j :: 0 <= j <= retryAttempts ==>
        HasKey(entries, Candidate(key, EffectiveSuffix(renamedKeySuffix), tick, j))
    ensures RenamedKey(entries, key, renamedKeySuffix, tick, retryAttempts).Some? ==>
      var added := RenamedKey(entries, key, renamedKeySuffix, tick, retryAttempts).value;
      !HasKey(entries, added) && key <= added &&
      exists m :: 0 <= m <= retryAttempts &&
        added == Candidate(key, EffectiveSuffix(renamedKeySuffix), tick, m) &&
        forall j :: 0 <= j < m ==> HasKey(entries, Candidate(key, EffectiveSuffix(renamedKeySuffix), tick, j))
  {
    var suffix := EffectiveSuffix(renamedKeySuffix);
    var candidate := CandidateKeys(key, suffix, tick);
    FirstFreeMeaning(entries, candidate, 0, retryAttempts + 1);
    assert forall j :: candidate(j) == Candidate(key, suffix, tick, j);
    var r := RenamedKey(entries, key, renamedKeySuffix, tick, retryAttempts);
    if r.Some? {
      var m :| 0 <= m <= retryAttempts && r.value == candidate(m) && !HasKey(entries, candidate(m)) &&
        forall j :: 0 <= j < m ==> HasKey(entries, candidate(j));
      CandidateExtendsKey(key, suffix, tick, m);
    }
  }

  /** With one retry, the default suffix and both `key` and
      `key + "_RenamedKey"` taken, renaming gives up. */
  lemma OneRetryBothTakenFails<V>(entries: seq<(string, V)>, key: string, renamedKeySuffix: Option<string>,
                                  tick: nat -> int)
    requires renamedKeySuffix.None? || renamedKeySuffix.value in {"", DefaultRenamedKeySuffix}
    requires HasKey(entries, key) && HasKey(entries, key + DefaultRenamedKeySuffix)
    ensures RenamedKey(entries, key, renamedKeySuffix, tick, 1) == None
  {
    var suffix := EffectiveSuffix(renamedKeySuffix);
    assert suffix == DefaultRenamedKeySuffix;
    var candidate := CandidateKeys(key, suffix, tick);
    assert candidate(0) == key;
    assert candidate(1) == key + suffix;
    FirstFreeStep(entries, candidate, 0, 2);
    FirstFreeStep(entries, candidate, 1, 2);
  }

  /** A first collision, with the default suffix and the renamed key free,
      adds under `key + "_RenamedKey"`. */
  lemma FirstCollisionAppendsSuffix<V>(entries: seq<(string, V)>, key: string, renamedKeySuffix: Option<string>,
                                       tick: nat -> int, retryAttempts: nat)
    requires renamedKeySuffix.None? || renamedKeySuffix.value in {"", DefaultRenamedKeySuffix}
    requires retryAttempts >= 1
    requires HasKey(entries, key) && !HasKey(entries, key + DefaultRenamedKeySuffix)
    ensures RenamedKey(entries, key, renamedKeySuffix, tick, retryAttempts) == Some(key + DefaultRenamedKeySuffix)
  {
    var suffix := EffectiveSuffix(renamedKeySuffix);
    assert suffix == DefaultRenamedKeySuffix;
    var candidate := CandidateKeys(key, suffix, tick);
    assert candidate(0) == key;
    assert candidate(1) == key + suffix;
    FirstFreeStep(entries, candidate, 0, retryAttempts + 1);
    FirstFreeStep(entries, candidate, 1, retryAttempts + 1);
  }

  /** Adds under the key or, while it collides, under successively renamed
      keys, trying at most `retryAttempts + 1` keys; the clock is `tick`,
      whose `n`-th value is the one read at the `n`-th collision. Answers
      the key used, or false and no key with the dictionary unchanged. */
  method AddOrRenameKey<V>(d: Dictionary<string, V>, key: string, value: V, renamedKeySuffix: Option<string>,
                           retryAttempts: int, tick: nat -> int)
    returns (r: Result<bool>, addedKey: Option<string>)
    requires d.Valid()
    modifies d
    ensures d.Valid()
    ensures retryAttempts < DefaultAddOrRenameKeyMinRetryAttempts ==>
      r == Err(ArgumentOutOfRange("retryAttempts")) && addedKey == None && d.entries == old(d.entries)
    ensures retryAttempts >= DefaultAddOrRenameKeyMinRetryAttempts ==>
      r == Ok(addedKey.Some?) &&
      addedKey == RenamedKey(old(d.entries), key, renamedKeySuffix, tick, retryAttempts)
    ensures addedKey.Some? ==> d.entries == old(d.entries) + [(addedKey.value, value)]
    ensures addedKey.None? ==> d.entries == old(d.entries)
  {
    if retryAttempts < DefaultAddOrRenameKeyMinRetryAttempts {
      return Err(ArgumentOutOfRange("retryAttempts")), None;
    }
    addedKey := AddUnderFirstFreeKey(d, key, value, renamedKeySuffix, retryAttempts, tick);
    r := Ok(addedKey.Some?);
  }

  /** The retry loop of `AddOrRenameKey`, once `retryAttempts` has passed its
      check: adds under the first free candidate key, if any. */
  method AddUnderFirstFreeKey<V>(d: Dictionary<string, V>, key: string, value: V, renamedKeySuffix: Option<string>,
                                 retryAttempts: nat, tick: nat -> int)
    returns (addedKey: Option<string>)
    requires d.Valid()
    modifies d
    ensures d.Valid()
    ensures addedKey == RenamedKey(old(d.entries), key, renamedKeySuffix, tick, retryAttempts)
    ensures addedKey.Some? ==> d.entries == old(d.entries) + [(addedKey.value, value)]
    ensures addedKey.None? ==> d.entries == old(d.entries)
  {
    var suffix := if renamedKeySuffix.None? || |renamedKeySuffix.value| == 0 then DefaultRenamedKeySuffix
                  else renamedKeySuffix.value;
    ghost var effective := EffectiveSuffix(renamedKeySuffix);
    ghost var entries := d.entries;
    var candidate := key;
    var attempt: nat := 0;
    var maxAttempts := retryAttempts + 1;
    while true
      invariant d.entries == entries
      invariant maxAttempts + attempt == retryAttempts + 1 && maxAttempts >= 1
      invariant candidate == Candidate(key, effective, tick, attempt)
      invariant suffix == SuffixAt(effective, tick, attempt)
      invariant RenamedKey(entries, key, renamedKeySuffix, tick, retryAttempts)
             == FirstFree(entries, CandidateKeys(key, effective, tick), attempt, retryAttempts + 1)
      decreases maxAttempts
    {
      assert CandidateKeys(key, effective, tick)(attempt) == candidate;
      FirstFreeStep(entries, CandidateKeys(key, effective, tick), attempt, retryAttempts + 1);
      if !d.ContainsKey(candidate) {
        d.Add(candidate, value);
        return Some(candidate);
      }
      assert Candidate(key, effective, tick, attempt + 1) == candidate + suffix;
      candidate := candidate + suffix;
      suffix := "_" + IntToString(tick(attempt));
      attempt := attempt + 1;
      maxAttempts := maxAttempts - 1;
      if maxAttempts <= 0 {
        break;
      }
    }
    return None;
  }

  /** The overload that answers the added key, or null when none was free. */
  method AddOrRenameKeyValue<V>(d: Dictionary<string, V>, key: string, value: V, renamedKeySuffix: Option<string>,
                                retryAttempts: int, tick: nat -> int)
    returns (r: Result<Option<string>>)
    requires d.Valid()
    modifies d
    ensures d.Valid()
    ensures retryAttempts < DefaultAddOrRenameKeyMinRetryAttempts ==>
      r == Err(ArgumentOutOfRange("retryAttempts")) && d.entries == old(d.entries)
    ensures retryAttempts >= DefaultAddOrRenameKeyMinRetryAttempts ==>
      r == Ok(RenamedKey(old(d.entries), key, renamedKeySuffix, tick, retryAttempts))
    ensures r.Ok? && r.value.Some? ==> d.entries == old(d.entries) + [(r.value.value, value)]
    ensures r.Ok? && r.value.None? ==> d.entries == old(d.entries)
  {
    var outcome, addedKey := AddOrRenameKey(d, key, value, renamedKeySuffix, retryAttempts, tick);
    if outcome.Err? {
      return Err(outcome.error);
    }
    return Ok(addedKey);
  }

  /** `Add` under a collision policy. `TryAdd` adds only an absent key;
      `Update` always stores; `Rename` renames with the default suffix and
      five retries. Answers whether an entry was stored and under which key. */
  method Add<V>(d: Dictionary<string, V>, key: string, value: V, keyExistAction: KeyExistAction, tick: nat -> int)
    returns (added: bool, addedKey: Option<string>)
    requires d.Valid()
    modifies d
    ensures d.Valid()
    ensures keyExistAction == TryAdd ==>
      (added <==> !HasKey(old(d.entries), key)) &&
      addedKey == (if added then Some(key) else None) &&
      d.entries == (if added then old(d.entries) + [(key, value)] else old(d.entries))
    ensures keyExistAction == Update ==>
      added && addedKey == Some(key) && d.entries == Put(old(d.entries), key, value)
    ensures keyExistAction == Rename ==>
      addedKey == RenamedKey(old(d.entries), key, Some(DefaultRenamedKeySuffix), tick,
                             DefaultAddOrRenameKeyMaxRetryAttempts) &&
      (added <==> addedKey.Some?) &&
      d.entries == (if added then old(d.entries) + [(addedKey.value, value)] else old(d.entries))
  {
    match keyExistAction
    case TryAdd =>
      added := d.TryAdd(key, value);
      addedKey := if added then Some(key) else None;
    case Update =>
      AddOrUpdate(d, key, value);
      added, addedKey := true, Some(key);
    case Rename =>
      var r := AddOrRenameKeyValue(d, key, value, Some(DefaultRenamedKeySuffix),
                                   DefaultAddOrRenameKeyMaxRetryAttempts, tick);
      addedKey := r.value;
      added := addedKey.Some?;
  }

  // ---------------------------------------------------------------------
  // Bulk merges
  // ---------------------------------------------------------------------

  /** Some key of `range` is already a key of `entries`. */
  predicate Collides<K(==), V>(entries: seq<(K, V)>, range: seq<(K, V)>) {
    exists i :: 0 <= i < |range| && HasKey(entries, range[i].0)
  }

  /** `TryAddOrUpdate` of every entry of `range`, in order. */
  function PutAll<K(==), V>(entries: seq<(K, V)>, range: seq<(K, V)>, update: bool): seq<(K, V)>
    decreases |range|
  {
    if |range| == 0 then entries
    else
      var last := range[|range| - 1];
      TryPut(PutAll(entries, range[..|range| - 1], update), last.0, last.1, update)
  }

  /** The entries after `TryAddRangeOrUpdate(range, update)`: a null range
      and, without `update`, a colliding range change nothing. */
  function Merged<K(==), V>(entries: seq<(K, V)>, range: Option<seq<(K, V)>>, update: bool): seq<(K, V)> {
    if range.None? || (!update && Collides(entries, range.value)) then entries
    else PutAll(entries, range.value, update)
  }

  lemma {:induction false} PutAllKeepsDistinct<K, V>(entries: seq<(K, V)>, range: seq<(K, V)>, update: bool)
    requires DistinctKeys(entries)
    ensures DistinctKeys(PutAll(entries, range, update))
    decreases |range|
  {
    if |range| > 0 {
      var last := range[|range| - 1];
      PutAllKeepsDistinct(entries, range[..|range| - 1], update);
      TryPutSpec(PutAll(entries, range[..|range| - 1], update), last.0, last.1, update);
    }
  }

  /** Keys of a prefix are keys of the whole. */
  lemma HasKeyOfPrefix<K, V>(range: seq<(K, V)>, n: nat, key: K)
    requires n <= |range| && HasKey(range[..n], key)
    ensures HasKey(range, key)
  {
    var i :| 0 <= i < n && range[..n][i].0 == key;
    assert range[i].0 == key;
  }

  /** The last key of a collision-free range with distinct keys is neither
      a key of the entries nor of the rest of the range. */
  lemma LastKeyIsNew<K, V>(entries: seq<(K, V)>, range: seq<(K, V)>)
    requires DistinctKeys(range) && !Collides(entries, range) && |range| > 0
    ensures !Collides(entries, range[..|range| - 1])
    ensures !HasKey(entries + range[..|range| - 1], range[|range| - 1].0)
  {
    var n := |range| - 1;
    var front, last := range[..n], range[n];
    forall i | 0 <= i < |front|
      ensures !HasKey(entries, front[i].0)
    {
      assert front[i] == range[i];
    }
    assert !HasKey(entries, last.0);
    forall i | 0 <= i < |entries + front|
      ensures (entries + front)[i].0 != last.0
    {
      if i < |entries| {
        assert (entries + front)[i] == entries[i];
      } else {
        assert (entries + front)[i] == range[i - |entries|];
      }
    }
  }

  /** A range none of whose keys is present is appended whole, in order. */
  lemma {:induction false} PutAllWithoutCollision<K, V>(entries: seq<(K, V)>, range: seq<(K, V)>, update: bool)
    requires DistinctKeys(entries) && DistinctKeys(range) && !Collides(entries, range)
    ensures PutAll(entries, range, update) == entries + range
    decreases |range|
  {
    if |range| > 0 {
      var n := |range| - 1;
      var front, last := range[..n], range[n];
      LastKeyIsNew(entries, range);
      PutAllWithoutCollision(entries, front, update);
      PutAllKeepsDistinct(entries, front, update);
      TryPutSpec(entries + front, last.0, last.1, update);
      calc {
        PutAll(entries, range, update);
        TryPut(PutAll(entries, front, update), last.0, last.1, update);
        TryPut(entries + front, last.0, last.1, update);
        (entries + front) + [last];
        { assert range == front + [last]; }
        entries + range;
      }
    }
  }

  /** Merging with `update` keeps the original keys at their positions and
      adds after them only keys of the range. */
  lemma {:induction false} PutAllKeepsPositions<K, V>(entries: seq<(K, V)>, range: seq<(K, V)>)
    requires DistinctKeys(entries)
    ensures |PutAll(entries, range, true)| >= |entries|
    ensures forall i :: 0 <= i < |entries| ==> PutAll(entries, range, true)[i].0 == entries[i].0
    ensures forall i :: |entries| <= i < |PutAll(entries, range, true)| ==>
      HasKey(range, PutAll(entries, range, true)[i].0)
    decreases |range|
  {
    if |range| > 0 {
      var n := |range| - 1;
      var front, last := range[..n], range[n];
      PutAllKeepsPositions(entries, front);
      PutAllKeepsDistinct(entries, front, true);
      var before := PutAll(entries, front, true);
      var after := PutAll(entries, range, true);
      assert after == Put(before, last.0, last.1);
      PutSpec(before, last.0, last.1);
      forall i | |entries| <= i < |after|
        ensures HasKey(range, after[i].0)
      {
        if i < |before| {
          HasKeyOfPrefix(range, n, before[i].0);
        } else {
          assert after[i].0 == range[n].0;
        }
      }
    }
  }

  /** Merging with `update` leaves untouched every original entry whose key
      the range lacks. */
  lemma {:induction false} PutAllLeavesOthers<K, V>(entries: seq<(K, V)>, range: seq<(K, V)>)
    requires DistinctKeys(entries)
    ensures |PutAll(entries, range, true)| >= |entries|
    ensures forall i :: 0 <= i < |entries| && !HasKey(range, entries[i].0) ==>
      PutAll(entries, range, true)[i] == entries[i]
    decreases |range|
  {
    if |range| > 0 {
      var n := |range| - 1;
      var front, last := range[..n], range[n];
      PutAllLeavesOthers(entries, front);
      PutAllKeepsDistinct(entries, front, true);
      var before := PutAll(entries, front, true);
      var after := PutAll(entries, range, true);
      assert after == Put(before, last.0, last.1);
      PutSpec(before, last.0, last.1);
      forall i | 0 <= i < |entries| && !HasKey(range, entries[i].0)
        ensures after[i] == entries[i]
      {
        if HasKey(front, entries[i].0) {
          HasKeyOfPrefix(range, n, entries[i].0);
        }
        assert entries[i].0 != last.0;
      }
    }
  }

  /** Merging with `update` stores every entry of the range. */
  lemma {:induction false} PutAllStoresRange<K, V>(entries: seq<(K, V)>, range: seq<(K, V)>)
    requires DistinctKeys(entries) && DistinctKeys(range)
    ensures forall i :: 0 <= i < |range| ==> range[i] in PutAll(entries, range, true)
    decreases |range|
  {
    if |range| > 0 {
      var n := |range| - 1;
      var front, last := range[..n], range[n];
      PutAllStoresRange(entries, front);
      PutAllKeepsDistinct(entries, front, true);
      var before := PutAll(entries, front, true);
      var after := PutAll(entries, range, true);
      assert after == Put(before, last.0, last.1);
      PutSpec(before, last.0, last.1);
      forall i | 0 <= i < n
        ensures range[i] in after
      {
        assert range[i] == front[i];
        var p :| 0 <= p < |before| && before[p] == range[i];
        assert range[i].0 != last.0;
        assert after[p] == before[p];
      }
    }
  }

  /** Adds or updates every entry of `rangeToAdd`. A null range answers
      false; without `updateIfKeyExists`, a range with any present key
      answers false and nothing is added. */
  method TryAddRangeOrUpdate<K(==), V>(d: Dictionary<K, V>, rangeToAdd: Option<seq<(K, V)>>, updateIfKeyExists: bool)
    returns (ok: bool)
    requires d.Valid()
    requires rangeToAdd.Some? ==> DistinctKeys(rangeToAdd.value)
    modifies d
    ensures d.Valid()
    ensures ok <==> rangeToAdd.Some? && (updateIfKeyExists || !Collides(old(d.entries), rangeToAdd.value))
    ensures !ok ==> d.entries == old(d.entries)
    ensures d.entries == Merged(old(d.entries), rangeToAdd, updateIfKeyExists)
  {
    if rangeToAdd.None? {
      return false;
    }
    var range := rangeToAdd.value;
    if |range| > 0 {
      if !updateIfKeyExists {
        for i := 0 to |range|
          invariant forall j :: 0 <= j < i ==> !HasKey(d.entries, range[j].0)
        {
          if d.ContainsKey(range[i].0) {
            assert HasKey(d.entries, range[i].0);
            return false;
          }
        }
        assert !Collides(d.entries, range);
      }
      ghost var entries := d.entries;
      assert range[..0] == [];
      for i := 0 to |range|
        invariant d.Valid()
        invariant d.entries == PutAll(entries, range[..i], updateIfKeyExists)
      {
        assert range[..i + 1][..i] == range[..i];
        assert PutAll(entries, range[..i + 1], updateIfKeyExists)
            == TryPut(PutAll(entries, range[..i], updateIfKeyExists), range[i].0, range[i].1, updateIfKeyExists);
        var _ := TryAddOrUpdate(d, range[i].0, range[i].1, updateIfKeyExists);
      }
      assert range[..|range|] == range;
    } else {
      assert !Collides(d.entries, range);
    }
    return true;
  }

  /** Entries `from ..` of `range` added one at a time, entry `i` under the
      key `place` picks for it given the entries so far; stops, with what was
      already added kept, at the first entry it picks no key for. */
  function PlaceFrom<V>(entries: seq<(string, V)>, range: seq<(string, V)>,
                        place: (seq<(string, V)>, nat) -> Option<string>, from: nat): (bool, seq<(string, V)>)
    decreases |range| - from
  {
    if from >= |range| then (true, entries)
    else
      match place(entries, from)
      case None => (false, entries)
      case Some(key) => PlaceFrom(entries + [(key, range[from].1)], range, place, from + 1)
  }

  /** The `Rename` policy as a key picker: entry `i` is renamed with the
      default suffix and retry count, reading the clock `tick(i)`. */
  function RenamePicker<V>(range: seq<(string, V)>, tick: nat -> nat -> int): (seq<(string, V)>, nat) -> Option<string> {
    (entries: seq<(string, V)>, i: nat) =>
      if i < |range| then
        RenamedKey(entries, range[i].0, Some(DefaultRenamedKeySuffix), tick(i), DefaultAddOrRenameKeyMaxRetryAttempts)
      else None
  }

  /** Renaming only picks keys that are absent and extend the entry's key. */
  lemma RenamePickerPicksFreshExtensions<V>(range: seq<(string, V)>, tick: nat -> nat -> int)
    ensures forall entries': seq<(string, V)>, i: nat ::
      i < |range| && RenamePicker(range, tick)(entries', i).Some? ==>
        !HasKey(entries', RenamePicker(range, tick)(entries', i).value) &&
        range[i].0 <= RenamePicker(range, tick)(entries', i).value
  {
    forall entries: seq<(string, V)>, i: nat | i < |range| && RenamePicker(range, tick)(entries, i).Some?
      ensures !HasKey(entries, RenamePicker(range, tick)(entries, i).value) &&
              range[i].0 <= RenamePicker(range, tick)(entries, i).value
    {
      RenamedKeySpec(entries, range[i].0, Some(DefaultRenamedKeySuffix), tick(i),
                     DefaultAddOrRenameKeyMaxRetryAttempts);
    }
  }

  /** Placing a range is not atomic: the original entries stay in front,
      each placed entry is appended in order with its own value under a key
      that extends its own key, and the keys stay distinct. All entries are
      placed exactly when the answer is true; on false, the entries placed
      before the first unplaceable one are kept. */
  lemma {:induction false} PlaceFromCommitsPrefix<V>(entries: seq<(string, V)>, range: seq<(string, V)>,
                                                     place: (seq<(string, V)>, nat) -> Option<string>, from: nat)
    requires DistinctKeys(entries) && from <= |range|
    requires forall entries': seq<(string, V)>, i: nat :: i < |range| && place(entries', i).Some? ==>
      !HasKey(entries', place(entries', i).value) && range[i].0 <= place(entries', i).value
    ensures DistinctKeys(PlaceFrom(entries, range, place, from).1)
    ensures |entries| <= |PlaceFrom(entries, range, place, from).1| <= |entries| + |range| - from
    ensures PlaceFrom(entries, range, place, from).1[..|entries|] == entries
    ensures forall j :: |entries| <= j < |PlaceFrom(entries, range, place, from).1| ==>
      PlaceFrom(entries, range, place, from).1[j].1 == range[from + j - |entries|].1 &&
      range[from + j - |entries|].0 <= PlaceFrom(entries, range, place, from).1[j].0
    ensures PlaceFrom(entries, range, place, from).0 <==>
      |PlaceFrom(entries, range, place, from).1| == |entries| + |range| - from
    decreases |range| - from
  {
    if from < |range| && place(entries, from).Some? {
      var key := place(entries, from).value;
      var next := entries + [(key, range[from].1)];
      AppendKeepsDistinct(entries, key, range[from].1);
      PlaceFromCommitsPrefix(next, range, place, from + 1);
      var result := PlaceFrom(next, range, place, from + 1).1;
      assert PlaceFrom(entries, range, place, from).1 == result;
      assert result[..|entries|] == result[..|next|][..|entries|];
      forall j | |entries| <= j < |result|
        ensures result[j].1 == range[from + j - |entries|].1 && range[from + j - |entries|].0 <= result[j].0
      {
        if j == |entries| {
          assert result[j] == result[..|next|][j] == next[j];
        } else {
          assert (from + 1) + j - |next| == from + j - |entries|;
        }
      }
    }
  }

  /** When placing a range answers false, the first entry not placed is one
      `place` picks no key for. */
  lemma {:induction false} PlaceFromStopsAtUnplaceable<V>(entries: seq<(string, V)>, range: seq<(string, V)>,
                                                          place: (seq<(string, V)>, nat) -> Option<string>, from: nat)
    requires DistinctKeys(entries) && from <= |range|
    requires forall entries': seq<(string, V)>, i: nat :: i < |range| && place(entries', i).Some? ==>
      !HasKey(entries', place(entries', i).value) && range[i].0 <= place(entries', i).value
    ensures !PlaceFrom(entries, range, place, from).0 ==>
      var stuck := from + |PlaceFrom(entries, range, place, from).1| - |entries|;
      from <= stuck < |range| && place(PlaceFrom(entries, range, place, from).1, stuck).None?
    decreases |range| - from
  {
    PlaceFromCommitsPrefix(entries, range, place, from);
    if from < |range| && place(entries, from).Some? {
      var key := place(entries, from).value;
      var next := entries + [(key, range[from].1)];
      AppendKeepsDistinct(entries, key, range[from].1);
      PlaceFromStopsAtUnplaceable(next, range, place, from + 1);
    }
  }

  /** Adds a range under a collision policy. A null range answers false and
      an empty one true; `TryAdd` and `Update` merge as
      `TryAddRangeOrUpdate`; `Rename` adds entry by entry, entry `i` reading
      the clock `tick(i)`, and answers false at the first entry it cannot
      place, keeping the entries placed before it. */
  method TryAddRange<V>(d: Dictionary<string, V>, rangeToAdd: Option<seq<(string, V)>>,
                        keyExistAction: KeyExistAction, tick: nat -> nat -> int)
    returns (ok: bool)
    requires d.Valid()
    requires rangeToAdd.Some? ==> DistinctKeys(rangeToAdd.value)
    modifies d
    ensures d.Valid()
    ensures rangeToAdd.None? ==> !ok && d.entries == old(d.entries)
    ensures rangeToAdd.Some? && |rangeToAdd.value| == 0 ==> ok && d.entries == old(d.entries)
    ensures rangeToAdd.Some? && keyExistAction != Rename ==>
      (ok <==> keyExistAction == Update || !Collides(old(d.entries), rangeToAdd.value)) &&
      d.entries == Merged(old(d.entries), rangeToAdd, keyExistAction == Update)
    ensures rangeToAdd.Some? && keyExistAction == Rename ==>
      (ok, d.entries) == PlaceFrom(old(d.entries), rangeToAdd.value, RenamePicker(rangeToAdd.value, tick), 0)
  {
    if rangeToAdd.None? {
      return false;
    }
    var range := rangeToAdd.value;
    if |range| > 0 {
      match keyExistAction
      case TryAdd =>
        ok := TryAddRangeOrUpdate(d, rangeToAdd, false);
        return;
      case Update =>
        ok := TryAddRangeOrUpdate(d, rangeToAdd, true);
        return;
      case Rename =>
        ghost var entries := d.entries;
        for i := 0 to |range|
          invariant d.Valid()
          invariant PlaceFrom(entries, range, RenamePicker(range, tick), 0)
                 == PlaceFrom(d.entries, range, RenamePicker(range, tick), i)
        {
          var added, _ := Add(d, range[i].0, range[i].1, Rename, tick(i));
          if !added {
            return false;
          }
        }
    }
    return true;
  }

  // ---------------------------------------------------------------------
  // Positional slicing
  // ---------------------------------------------------------------------

  /** The `count` entries from position `index` on, as a new dictionary.
      Checked in this order: `index < 0`, `count < 0`, `index` not a
      position (even when `count` is 0), fewer than `count` entries left. */
  method GetRange<K(==), V>(d: Dictionary<K, V>, index: int, count: int) returns (r: Result<seq<(K, V)>>)
    requires d.Valid()
    ensures index < 0 ==> r == Err(ArgumentOutOfRange("index"))
    ensures 0 <= index && count < 0 ==> r == Err(ArgumentOutOfRange("count"))
    ensures 0 <= index && 0 <= count && |d.entries| <= index ==> r == Err(ArgumentOutOfRange("index"))
    ensures 0 <= index < |d.entries| && |d.entries| - index < count ==> r == Err(ArgumentOutOfRange("count"))
    ensures 0 <= index < |d.entries| && 0 <= count <= |d.entries| - index ==>
      r == Ok(d.entries[index..index + count])
    ensures r.Ok? ==> DistinctKeys(r.value)
  {
    if index < 0 {
      return Err(ArgumentOutOfRange("index"));
    }
    if count < 0 {
      return Err(ArgumentOutOfRange("count"));
    }
    if d.Count() < index + 1 {
      return Err(ArgumentOutOfRange("index"));
    }
    if d.Count() - index < count {
      return Err(ArgumentOutOfRange("count"));
    }
    var ranged: seq<(K, V)> := [];
    if count > 0 {
      var position := 0;
      var added := 0;
      while position < d.Count()
        invariant 0 <= position <= |d.entries|
        invariant added == if position <= index then 0 else position - index
        invariant added < count
        invariant ranged == d.entries[index..index + added]
        decreases |d.entries| - position
      {
        var entry := d.entries[position];
        var current := position;
        position := position + 1;
        if current >= index {
          assert current == index + added;
          assert d.entries[index..index + added + 1] == d.entries[index..index + added] + [entry];
          ranged := ranged + [entry];
          added := added + 1;
          if added >= count {
            assert ranged == d.entries[index..index + count];
            break;
          }
        }
      }
    }
    return Ok(ranged);
  }

  /** The entries after the first `countToSkip`, as a new dictionary; empty
      when all are skipped, even for an empty dictionary. */
  method SkipFirst<K(==), V>(d: Dictionary<K, V>, countToSkip: int) returns (r: Result<seq<(K, V)>>)
    requires d.Valid()
    ensures countToSkip < 0 || |d.entries| < countToSkip ==> r == Err(ArgumentOutOfRange("countToSkip"))
    ensures 0 <= countToSkip <= |d.entries| ==> r == Ok(d.entries[countToSkip..])
  {
    if countToSkip < 0 {
      return Err(ArgumentOutOfRange("countToSkip"));
    }
    if d.Count() - countToSkip < 0 {
      return Err(ArgumentOutOfRange("countToSkip"));
    }
    if d.Count() == countToSkip {
      return Ok([]);
    }
    r := GetRange(d, countToSkip, d.Count() - countToSkip);
    assert d.entries[countToSkip..countToSkip + (|d.entries| - countToSkip)] == d.entries[countToSkip..];
  }

  // ---------------------------------------------------------------------
  // Joining many dictionaries
  // ---------------------------------------------------------------------

  const ElemsToJoinName: string := "elemsToJoin"
  const NullDictionaryInJoin: string := "At least one of the elements in the dictionaries to join is null."

  /** `ArgumentNullException.ThrowIfNull(argument, paramName)`. */
  function ThrowIfNull<T>(argument: Option<T>, paramName: string): (r: Outcome)
    ensures r == Pass <==> argument.Some?
    ensures r.Fail? ==> r.error == ArgumentNull(paramName)
  {
    if argument.None? then Fail(ArgumentNull(paramName)) else Pass
  }

  /** The null-source guard as written: it null-checks the parameter's
      name, a non-null string, instead of the source. */
  function NullSourceGuard<K, V>(source: Option<seq<(K, V)>>, allowNullInElemsToJoin: bool): Outcome {
    if source.None? && !allowNullInElemsToJoin then ThrowIfNull(Some(ElemsToJoinName), NullDictionaryInJoin)
    else Pass
  }

  /** The guard as documented: it null-checks the source itself. */
  function CheckedNullSourceGuard<K, V>(source: Option<seq<(K, V)>>, allowNullInElemsToJoin: bool): Outcome {
    if source.None? && !allowNullInElemsToJoin then ThrowIfNull(source, ElemsToJoinName)
    else Pass
  }

  /** The guard as written never throws, not even for a null source that
      is not allowed. */
  lemma NullSourceGuardNeverThrows<K, V>(source: Option<seq<(K, V)>>, allowNullInElemsToJoin: bool)
    ensures NullSourceGuard(source, allowNullInElemsToJoin) == Pass
  {
  }

  /** The corrected guard throws exactly for a null source that is not
      allowed, naming `elemsToJoin`. */
  lemma CheckedNullSourceGuardThrows<K, V>(source: Option<seq<(K, V)>>, allowNullInElemsToJoin: bool)
    ensures CheckedNullSourceGuard(source, allowNullInElemsToJoin).Fail? <==>
      source.None? && !allowNullInElemsToJoin
    ensures CheckedNullSourceGuard(source, allowNullInElemsToJoin).Fail? ==>
      CheckedNullSourceGuard(source, allowNullInElemsToJoin) == Fail(ArgumentNull(ElemsToJoinName))
  {
  }

  /** Each source must be a dictionary: its keys are distinct. */
  predicate SourcesAreDictionaries<K(==), V>(sources: seq<Option<seq<(K, V)>>>) {
    forall i :: 0 <= i < |sources| && sources[i].Some? ==> DistinctKeys(sources[i].value)
  }

  /** `TryAddRangeOrUpdate` of every source, in order. */
  function JoinSources<K(==), V>(entries: seq<(K, V)>, sources: seq<Option<seq<(K, V)>>>, update: bool)
    : seq<(K, V)>
    decreases |sources|
  {
    if |sources| == 0 then entries
    else Merged(JoinSources(entries, sources[..|sources| - 1], update), sources[|sources| - 1], update)
  }

  /** The index of the first null source, or the number of sources. */
  function FirstNull<K, V>(sources: seq<Option<seq<(K, V)>>>): (n: nat)
    ensures n <= |sources|
    ensures forall i :: 0 <= i < n ==> sources[i].Some?
    ensures n < |sources| ==> sources[n].None?
    decreases |sources|
  {
    if |sources| == 0 || sources[0].None? then 0 else 1 + FirstNull(sources[1..])
  }

  /** Joining two lists of sources is joining the second into the result
      of the first. */
  lemma {:induction false} JoinSourcesAppend<K, V>(entries: seq<(K, V)>, a: seq<Option<seq<(K, V)>>>,
                                                   b: seq<Option<seq<(K, V)>>>, update: bool)
    ensures JoinSources(entries, a + b, update) == JoinSources(JoinSources(entries, a, update), b, update)
    decreases |b|
  {
    if |b| == 0 {
      assert a + b == a;
    } else {
      assert (a + b)[..|a + b| - 1] == a + b[..|b| - 1];
      JoinSourcesAppend(entries, a, b[..|b| - 1], update);
    }
  }

  /** A null source changes nothing, and the sources after it still merge. */
  lemma JoinSkipsNullSource<K, V>(entries: seq<(K, V)>, a: seq<Option<seq<(K, V)>>>,
                                  b: seq<Option<seq<(K, V)>>>, update: bool)
    ensures JoinSources(entries, a + [None] + b, update) == JoinSources(entries, a + b, update)
  {
    JoinSourcesAppend(entries, a + [None], b, update);
    JoinSourcesAppend(entries, a, [None], update);
    JoinSourcesAppend(entries, a, b, update);
    var none: seq<Option<seq<(K, V)>>> := [None];
    assert none[..0] == [];
  }

  /** Without updating, a source colliding with what has been joined so far
      is skipped whole, and the sources after it still merge. */
  lemma JoinSkipsCollidingSource<K, V>(entries: seq<(K, V)>, a: seq<Option<seq<(K, V)>>>, range: seq<(K, V)>,
                                       b: seq<Option<seq<(K, V)>>>)
    requires Collides(JoinSources(entries, a, false), range)
    ensures JoinSources(entries, a + [Some(range)] + b, false) == JoinSources(entries, a + b, false)
  {
    JoinSourcesAppend(entries, a + [Some(range)], b, false);
    JoinSourcesAppend(entries, a, [Some(range)], false);
    JoinSourcesAppend(entries, a, b, false);
    assert [Some(range)][..0] == [];
  }

  lemma {:induction false} JoinSourcesKeepsDistinct<K, V>(entries: seq<(K, V)>, sources: seq<Option<seq<(K, V)>>>,
                                                          update: bool)
    requires DistinctKeys(entries)
    ensures DistinctKeys(JoinSources(entries, sources, update))
    decreases |sources|
  {
    if |sources| > 0 {
      JoinSourcesKeepsDistinct(entries, sources[..|sources| - 1], update);
      var last := sources[|sources| - 1];
      if last.Some? {
        PutAllKeepsDistinct(JoinSources(entries, sources[..|sources| - 1], update), last.value, update);
      }
    }
  }

  /** Merges every source in order with `TryAddRangeOrUpdate`. As written a
      null source is skipped whatever `allowNullInElemsToJoin` says: the
      guard never throws. */
  method JoinMany<K(==), V>(d: Dictionary<K, V>, updateIfKeyExists: bool, allowNullInElemsToJoin: bool,
                            elemsToJoin: Option<seq<Option<seq<(K, V)>>>>)
    returns (r: Outcome)
    requires d.Valid()
    requires elemsToJoin.Some? ==> SourcesAreDictionaries(elemsToJoin.value)
    modifies d
    ensures d.Valid()
    ensures elemsToJoin.None? ==> r == Fail(ArgumentNull(ElemsToJoinName)) && d.entries == old(d.entries)
    ensures elemsToJoin.Some? ==>
      r == Pass && d.entries == JoinSources(old(d.entries), elemsToJoin.value, updateIfKeyExists)
  {
    r := ThrowIfNull(elemsToJoin, ElemsToJoinName);
    if r.Fail? {
      return;
    }
    var elems := elemsToJoin.value;
    ghost var entries := d.entries;
    for i := 0 to |elems|
      invariant d.Valid()
      invariant d.entries == JoinSources(entries, elems[..i], updateIfKeyExists)
    {
      assert elems[..i + 1][..i] == elems[..i];
      var dict := elems[i];
      if dict.None? && !allowNullInElemsToJoin {
        var guard := NullSourceGuard(dict, allowNullInElemsToJoin);
        if guard.Fail? {
          return guard;
        }
      } else {
        var _ := TryAddRangeOrUpdate(d, dict, updateIfKeyExists);
      }
    }
    assert elems[..|elems|] == elems;
  }

  /** `JoinMany` with the guard as documented: a null source that is not
      allowed throws, after the sources before it have been merged. */
  method JoinManyChecked<K(==), V>(d: Dictionary<K, V>, updateIfKeyExists: bool, allowNullInElemsToJoin: bool,
                                   elemsToJoin: Option<seq<Option<seq<(K, V)>>>>)
    returns (r: Outcome)
    requires d.Valid()
    requires elemsToJoin.Some? ==> SourcesAreDictionaries(elemsToJoin.value)
    modifies d
    ensures d.Valid()
    ensures elemsToJoin.None? ==> r == Fail(ArgumentNull(ElemsToJoinName)) && d.entries == old(d.entries)
    ensures elemsToJoin.Some? ==>
      var elems := elemsToJoin.value;
      if !allowNullInElemsToJoin && FirstNull(elems) < |elems| then
        r == Fail(ArgumentNull(ElemsToJoinName)) &&
        d.entries == JoinSources(old(d.entries), elems[..FirstNull(elems)], updateIfKeyExists)
      else
        r == Pass && d.entries == JoinSources(old(d.entries), elems, updateIfKeyExists)
  {
    r := ThrowIfNull(elemsToJoin, ElemsToJoinName);
    if r.Fail? {
      return;
    }
    var elems := elemsToJoin.value;
    ghost var entries := d.entries;
    ghost var firstNull := FirstNull(elems);
    for i := 0 to |elems|
      invariant d.Valid()
      invariant d.entries == JoinSources(entries, elems[..i], updateIfKeyExists)
      invariant !allowNullInElemsToJoin ==> i <= firstNull
    {
      assert elems[..i + 1][..i] == elems[..i];
      var dict := elems[i];
      var guard := CheckedNullSourceGuard(dict, allowNullInElemsToJoin);
      if guard.Fail? {
        assert i == firstNull;
        return guard;
      }
      var _ := TryAddRangeOrUpdate(d, dict, updateIfKeyExists);
    }
    assert elems[..|elems|] == elems;
    assert !allowNullInElemsToJoin ==> firstNull == |elems|;
  }

  // ---------------------------------------------------------------------
  // Filtering keys
  // ---------------------------------------------------------------------

  /** Which way the case-insensitive containment test goes. */
  datatype Containment = PatternContainsKey | KeyContainsPattern

  /** `ignoreKeys` is given and holds the key (ordinal comparison). */
  predicate Ignored(ignoreKeys: Option<seq<string>>, key: string) {
    ignoreKeys.Some? && key in ignoreKeys.value
  }

  /** The test an entry's key must pass to be selected. */
  predicate Selects(mode: Containment, pattern: string, ignoreKeys: Option<seq<string>>, key: string) {
    !Ignored(ignoreKeys, key) &&
    match mode
    case PatternContainsKey => StringExtensions.IgnoreCaseContains(pattern, key)
    case KeyContainsPattern => StringExtensions.IgnoreCaseContains(key, pattern)
  }

  /** The entries whose key passes the test, in dictionary order. */
  function Selection<V>(entries: seq<(string, V)>, mode: Containment, pattern: string,
                        ignoreKeys: Option<seq<string>>): seq<(string, V)>
    decreases |entries|
  {
    if |entries| == 0 then []
    else
      var last := entries[|entries| - 1];
      Selection(entries[..|entries| - 1], mode, pattern, ignoreKeys)
      + (if Selects(mode, pattern, ignoreKeys, last.0) then [last] else [])
  }

  /** An entry is selected exactly when it is in the dictionary and its key
      passes the test. */
  lemma {:induction false} SelectionMeaning<V>(entries: seq<(string, V)>, mode: Containment, pattern: string,
                                               ignoreKeys: Option<seq<string>>, e: (string, V))
    ensures e in Selection(entries, mode, pattern, ignoreKeys) <==>
      e in entries && Selects(mode, pattern, ignoreKeys, e.0)
    decreases |entries|
  {
    if |entries| > 0 {
      var front := entries[..|entries| - 1];
      SelectionMeaning(front, mode, pattern, ignoreKeys, e);
      assert entries == front + [entries[|entries| - 1]];
    }
  }

  /** Selecting from two parts is selecting from each, in order. */
  lemma {:induction false} SelectionOfConcat<V>(a: seq<(string, V)>, b: seq<(string, V)>, mode: Containment,
                                                pattern: string, ignoreKeys: Option<seq<string>>)
    ensures Selection(a + b, mode, pattern, ignoreKeys)
         == Selection(a, mode, pattern, ignoreKeys) + Selection(b, mode, pattern, ignoreKeys)
    decreases |b|
  {
    if |b| == 0 {
      assert a + b == a;
    } else {
      assert (a + b)[..|a + b| - 1] == a + b[..|b| - 1];
      SelectionOfConcat(a, b[..|b| - 1], mode, pattern, ignoreKeys);
    }
  }

  /** The selection of a dictionary is a dictionary. */
  lemma {:induction false} SelectionKeepsDistinct<V>(entries: seq<(string, V)>, mode: Containment, pattern: string,
                                                     ignoreKeys: Option<seq<string>>)
    requires DistinctKeys(entries)
    ensures DistinctKeys(Selection(entries, mode, pattern, ignoreKeys))
    decreases |entries|
  {
    if |entries| > 0 {
      var front, last := entries[..|entries| - 1], entries[|entries| - 1];
      SelectionKeepsDistinct(front, mode, pattern, ignoreKeys);
      var s := Selection(front, mode, pattern, ignoreKeys);
      forall i | 0 <= i < |s|
        ensures s[i].0 != last.0
      {
        SelectionMeaning(front, mode, pattern, ignoreKeys, s[i]);
        assert s[i] in s;
        var p :| 0 <= p < |front| && front[p] == s[i];
        assert entries[p] == s[i];
      }
    }
  }

  /** The shared loop of the `TryGetIf*` methods: collects the selected
      entries in order into a new dictionary and answers whether any was. */
  method SelectEntries<V>(d: Dictionary<string, V>, mode: Containment, pattern: string,
                          ignoreKeys: Option<seq<string>>)
    returns (found: bool, values: seq<(string, V)>)
    requires d.Valid()
    ensures values == Selection(d.entries, mode, pattern, ignoreKeys)
    ensures found <==> |values| != 0
  {
    values := [];
    for i := 0 to |d.entries|
      invariant values == Selection(d.entries[..i], mode, pattern, ignoreKeys)
    {
      assert d.entries[..i + 1][..i] == d.entries[..i];
      var entry := d.entries[i];
      var selected := !Ignored(ignoreKeys, entry.0);
      if selected {
        match mode
        case PatternContainsKey =>
          selected := StringExtensions.IgnoreCaseContains(pattern, entry.0);
        case KeyContainsPattern =>
          selected := StringExtensions.IgnoreCaseContains(entry.0, pattern);
      }
      if selected {
        values := values + [entry];
      }
    }
    assert d.entries[..|d.entries|] == d.entries;
    found := |values| != 0;
  }

  /** The entries whose key occurs in `pattern`, ignoring case, except the
      ignored keys. */
  method TryGetIfPatternContainsKey<V>(d: Dictionary<string, V>, pattern: string, ignoreKeys: Option<seq<string>>)
    returns (found: bool, values: seq<(string, V)>)
    requires d.Valid()
    ensures values == Selection(d.entries, PatternContainsKey, pattern, ignoreKeys)
    ensures found <==> |values| != 0
  {
    found, values := SelectEntries(d, PatternContainsKey, pattern, ignoreKeys);
  }

  /** The overload without `ignoreKeys`: no key is ignored. */
  method TryGetIfPatternContainsKeyAll<V>(d: Dictionary<string, V>, pattern: string)
    returns (found: bool, values: seq<(string, V)>)
    requires d.Valid()
    ensures forall e :: e in values <==> e in d.entries && StringExtensions.IgnoreCaseContains(pattern, e.0)
    ensures values == Selection(d.entries, PatternContainsKey, pattern, None)
    ensures found <==> |values| != 0
  {
    found, values := TryGetIfPatternContainsKey(d, pattern, None);
    forall e {
      SelectionMeaning(d.entries, PatternContainsKey, pattern, None, e);
    }
  }

  /** The entries whose key contains `pattern`, ignoring case, except the
      ignored keys. */
  method TryGetIfKeyContainsPattern<V>(d: Dictionary<string, V>, pattern: string, ignoreKeys: Option<seq<string>>)
    returns (found: bool, values: seq<(string, V)>)
    requires d.Valid()
    ensures values == Selection(d.entries, KeyContainsPattern, pattern, ignoreKeys)
    ensures found <==> |values| != 0
  {
    found, values := SelectEntries(d, KeyContainsPattern, pattern, ignoreKeys);
  }

  /** The overload without `ignoreKeys`: no key is ignored. */
  method TryGetIfKeyContainsPatternAll<V>(d: Dictionary<string, V>, pattern: string)
    returns (found: bool, values: seq<(string, V)>)
    requires d.Valid()
    ensures forall e :: e in values <==> e in d.entries && StringExtensions.IgnoreCaseContains(e.0, pattern)
    ensures values == Selection(d.entries, KeyContainsPattern, pattern, None)
    ensures found <==> |values| != 0
  {
    found, values := TryGetIfKeyContainsPattern(d, pattern, None);
    forall e {
      SelectionMeaning(d.entries, KeyContainsPattern, pattern, None, e);
    }
  }

  // ---------------------------------------------------------------------
  // Cloning
  // ---------------------------------------------------------------------

  /** Empties the dictionary, then adds the entries of `source` in order. A
      source that is the dictionary itself has been emptied by then. */
  method SelfShadowCloneOf<K(==), V>(d: Dictionary<K, V>, source: Dictionary?<K, V>)
    requires d.Valid() && (source != null ==> source.Valid())
    modifies d
    ensures d.Valid()
    ensures d.entries == if source == null || source == d then [] else old(source.entries)
  {
    d.Clear();
    if source != null {
      var items := source.entries;
      for i := 0 to |items|
        invariant d.Valid() && d.entries == items[..i]
      {
        assert !HasKey(d.entries, items[i].0);
        d.Add(items[i].0, items[i].1);
        assert items[..i + 1] == items[..i] + [items[i]];
      }
      assert items[..|items|] == items;
    }
  }

  /** A new dictionary with the same entries in the same order. */
  method ShadowClone<K(==), V>(d: Dictionary<K, V>) returns (clone: Dictionary<K, V>)
    requires d.Valid()
    ensures fresh(clone) && clone.Valid()
    ensures clone.entries == d.entries
  {
    clone := new Dictionary.Copy(d.entries);
  }
}
