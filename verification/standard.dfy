/** The standard library of the framework: `ArrayList`, `Pair` and the eager,
    order-preserving key/value collection `Stream`.

    A PHP array is an ordered map, so a Stream is modelled as the sequence of
    its entries in iteration order; PHP never lets two entries share a key,
    which `DistinctKeys` records. A predicate handed to a Stream may return any
    PHP value; `PVal` keeps only what the code inspects (`is_bool`), and the
    operations that throw on a non-boolean return a `Result`. */
module Standard {
  import opened Wrappers

  /** What a predicate returned, as far as `is_bool` can tell. */
  datatype PVal = B(b: bool) | NonBool

  /** The two exceptions the Stream raises. */
  datatype StreamError =
    | LogicNotBoolean   // a predicate returned something other than a boolean
    | SizeBelowOne      // `chunked` was asked for chunks of fewer than one entry

  datatype Pair<A, B> = Pair(first: A, second: B)

  /** A growable list; `data` is the PHP array behind it. */
  datatype ArrayList<T> = ArrayList(data: seq<T>) {

    function Size(): nat
    {
      |data|
    }

    function ToArray(): seq<T>
    {
      data
    }

    /** Appends one element: the list grows by one, the old elements keep their
        places and the new one is last. */
    function Add(value: T): (r: ArrayList<T>)
      ensures r.Size() == Size() + 1
      ensures r.ToArray()[..Size()] == ToArray()
      ensures r.ToArray()[Size()] == value
    {
      ArrayList(data + [value])
    }
  }

  type Stream<K, V> = seq<(K, V)>

  function Keys<K, V>(s: Stream<K, V>): seq<K>
  {
    seq(|s|, i requires 0 <= i < |s| => s[i].0)
  }

  function Values<K, V>(s: Stream<K, V>): seq<V>
  {
    seq(|s|, i requires 0 <= i < |s| => s[i].1)
  }

  /** The PHP array invariant: no key occurs twice. */
  predicate DistinctKeys<K(==), V>(s: Stream<K, V>)
  {
    forall i, j :: 0 <= i < j < |s| ==> s[i].0 != s[j].0
  }

  /** Array lookup: the value stored under `key`, if any. */
  function Get<K(==), V>(s: Stream<K, V>, key: K): Option<V>
  {
    if |s| == 0 then None
    else if s[0].0 == key then Some(s[0].1)
    else Get(s[1..], key)
  }

  /** `new Stream($list)` for a PHP list: the list's elements under the
      positional keys 0, 1, ... */
  function FromList<V>(xs: seq<V>): (s: Stream<nat, V>)
    ensures DistinctKeys(s)
    ensures Values(s) == xs
    ensures forall i :: 0 <= i < |s| ==> s[i].0 == i
  {
    seq(|xs|, i requires 0 <= i < |xs| => (i as nat, xs[i]))
  }

  /** `add(key, value)`: an existing key keeps its position and only its
      value changes; a new key is appended at the end. */
  function Add<K(==), V>(s: Stream<K, V>, key: K, value: V): (r: Stream<K, V>)
    ensures key !in Keys(s) ==> r == s + [(key, value)]
    ensures DistinctKeys(s) ==>
      forall i :: 0 <= i < |s| && s[i].0 == key ==> r == s[i := (key, value)]
    ensures DistinctKeys(s) ==> DistinctKeys(r)
  {
    if |s| == 0 then [(key, value)]
    else if s[0].0 == key then
      assert Keys(s)[0] == key;
      [(key, value)] + s[1..]
    else
      var rest := Add(s[1..], key, value);
      assert Keys(s) == [s[0].0] + Keys(s[1..]);
      assert forall i :: 0 < i < |s| ==> s[1..][i - 1] == s[i];
      assert DistinctKeys(s) ==> DistinctKeys(s[1..]);
      var r := [s[0]] + rest;
      assert forall i :: 0 < i < |r| ==> r[i] == rest[i - 1];
      assert key !in Keys(s) ==> r == s + [(key, value)];
      r
  }

  /** Reading after `add`: the added key now holds the new value, every other
      key reads as before. */
  lemma {:induction false} AddThenGet<K, V>(s: Stream<K, V>, key: K, value: V, other: K)
    ensures Get(Add(s, key, value), key) == Some(value)
    ensures other != key ==> Get(Add(s, key, value), other) == Get(s, other)
    decreases |s|
  {
    if |s| > 0 && s[0].0 != key {
      AddThenGet(s[1..], key, value, other);
      assert ([s[0]] + Add(s[1..], key, value))[1..] == Add(s[1..], key, value);
    }
  }

  /** `map(logic)`: every value is replaced by `logic(key, value)`; keys,
      order and the entry count are kept. */
  function Map<K, V, W>(s: Stream<K, V>, logic: (K, V) -> W): (r: Stream<K, W>)
    ensures |r| == |s|
    ensures forall i :: 0 <= i < |s| ==> r[i] == (s[i].0, logic(s[i].0, s[i].1))
    ensures Keys(r) == Keys(s)
  {
    if |s| == 0 then []
    else
      var rest := Map(s[1..], logic);
      var r := [(s[0].0, logic(s[0].0, s[0].1))] + rest;
      assert forall i :: 0 < i < |r| ==> r[i] == rest[i - 1] && s[i] == s[1..][i - 1];
      assert forall i :: 0 <= i < |r| ==> Keys(r)[i] == r[i].0 == s[i].0 == Keys(s)[i];
      r
  }

  /** Every entry's predicate result is a boolean. */
  predicate AllBoolean<K, V>(s: Stream<K, V>, logic: (K, V) -> PVal)
  {
    forall i :: 0 <= i < |s| ==> logic(s[i].0, s[i].1).B?
  }

  /** `a` is `b` with some entries dropped and the rest in their original order. */
  ghost predicate SubsequenceOf<T>(a: seq<T>, b: seq<T>)
    decreases |b|
  {
    || |a| == 0
    || (&& |b| > 0
        && ((a[0] == b[0] && SubsequenceOf(a[1..], b[1..])) || SubsequenceOf(a, b[1..])))
  }

  /** `kept` holds exactly the entries of `s` whose predicate yields `want`,
      in their original order. */
  ghost predicate KeepsExactly<K, V>(s: Stream<K, V>, logic: (K, V) -> PVal, want: bool, kept: Stream<K, V>)
  {
    && SubsequenceOf(kept, s)
    && (forall i :: 0 <= i < |kept| ==> logic(kept[i].0, kept[i].1) == B(want))
    && (forall i :: 0 <= i < |s| && logic(s[i].0, s[i].1) == B(want) ==> s[i] in kept)
  }

  /** Prepending an entry to the source keeps every subsequence, and the
      entry may be kept too. */
  lemma SubsequenceOfCons<T>(x: T, a: seq<T>, b: seq<T>)
    requires SubsequenceOf(a, b)
    ensures SubsequenceOf(a, [x] + b) && SubsequenceOf([x] + a, [x] + b)
  {
    assert ([x] + a)[1..] == a;
    assert ([x] + b)[1..] == b;
  }

  /** `filter`/`reject` share one loop: keep the entries whose predicate
      yields `want`. The loop throws at the first non-boolean result, and the
      stream's data is only replaced once the loop has finished, so a throw
      leaves the stream as it was. */
  function Sieve<K, V>(s: Stream<K, V>, logic: (K, V) -> PVal, want: bool): (r: Result<Stream<K, V>, StreamError>)
    ensures r.Success? <==> AllBoolean(s, logic)
    ensures r.Failure? ==> r.error == LogicNotBoolean
    ensures r.Success? ==> KeepsExactly(s, logic, want, r.value)
  {
    if |s| == 0 then Success([])
    else
      assert forall i :: 0 < i < |s| ==> s[1..][i - 1] == s[i];
      match logic(s[0].0, s[0].1)
      case NonBool => Failure(LogicNotBoolean)
      case B(b) =>
        var rest := Sieve(s[1..], logic, want);
        if rest.Failure? then Failure(LogicNotBoolean)
        else
          KeepsExactlyStep(s, logic, want, rest.value);
          Success(if b == want then [s[0]] + rest.value else rest.value)
  }

  lemma KeepsExactlyStep<K, V>(s: Stream<K, V>, logic: (K, V) -> PVal, want: bool, rest: Stream<K, V>)
    requires |s| > 0 && logic(s[0].0, s[0].1).B?
    requires KeepsExactly(s[1..], logic, want, rest)
    ensures KeepsExactly(s, logic, want, if logic(s[0].0, s[0].1) == B(want) then [s[0]] + rest else rest)
  {
    assert s == [s[0]] + s[1..];
    SubsequenceOfCons(s[0], rest, s[1..]);
    assert forall i :: 0 < i < |s| ==> s[1..][i - 1] == s[i];
    var kept := [s[0]] + rest;
    assert forall i :: 0 < i < |kept| ==> kept[i] == rest[i - 1];
  }

  /** `filter(logic)`: exactly the entries whose predicate is true, in their
      original order; throws on the first non-boolean result. */
  function Filter<K, V>(s: Stream<K, V>, logic: (K, V) -> PVal): (r: Result<Stream<K, V>, StreamError>)
    ensures r.Success? <==> AllBoolean(s, logic)
    ensures r.Failure? ==> r.error == LogicNotBoolean
    ensures r.Success? ==> KeepsExactly(s, logic, true, r.value)
  {
    Sieve(s, logic, true)
  }

  /** `reject(logic)`: exactly the entries whose predicate is false, in their
      original order; throws on the first non-boolean result. */
  function Reject<K, V>(s: Stream<K, V>, logic: (K, V) -> PVal): (r: Result<Stream<K, V>, StreamError>)
    ensures r.Success? <==> AllBoolean(s, logic)
    ensures r.Failure? ==> r.error == LogicNotBoolean
    ensures r.Success? ==> KeepsExactly(s, logic, false, r.value)
  {
    Sieve(s, logic, false)
  }

  /** `partition(logic)`: one pass that sends each entry to the first bucket
      when its predicate is true and to the second when it is false. The
      buckets are what `filter` and `reject` would keep. */
  function Partition<K, V>(s: Stream<K, V>, logic: (K, V) -> PVal): (r: Result<Pair<Stream<K, V>, Stream<K, V>>, StreamError>)
    ensures r.Success? <==> AllBoolean(s, logic)
    ensures r.Failure? ==> r.error == LogicNotBoolean
    ensures r.Success? ==> Filter(s, logic) == Success(r.value.first)
    ensures r.Success? ==> Reject(s, logic) == Success(r.value.second)
  {
    if |s| == 0 then Success(Pair([], []))
    else
      assert forall i :: 0 < i < |s| ==> s[1..][i - 1] == s[i];
      match logic(s[0].0, s[0].1)
      case NonBool => Failure(LogicNotBoolean)
      case B(b) =>
        var rest :- Partition(s[1..], logic);
        if b then Success(Pair([s[0]] + rest.first, rest.second))
        else Success(Pair(rest.first, [s[0]] + rest.second))
  }

  ghost function KeySet<K, V>(s: Stream<K, V>): set<K>
  {
    set i | 0 <= i < |s| :: s[i].0
  }

  lemma KeySetCons<K, V>(e: (K, V), s: Stream<K, V>)
    ensures KeySet([e] + s) == {e.0} + KeySet(s)
  {
    var t := [e] + s;
    assert forall i :: 0 < i < |t| ==> t[i] == s[i - 1];
    forall k | k in KeySet(s) ensures k in KeySet(t) {
      var i :| 0 <= i < |s| && s[i].0 == k;
      assert t[i + 1] == s[i];
    }
    assert t[0] == e;
    forall k | k in KeySet(t) ensures k == e.0 || k in KeySet(s) {
      var i :| 0 <= i < |t| && t[i].0 == k;
      if i > 0 {
        assert s[i - 1] == t[i];
      }
    }
  }

  /** The two buckets of `partition` together hold every entry exactly once,
      so their sizes add up to the original count. */
  lemma {:induction false} PartitionKeepsEveryEntry<K, V>(s: Stream<K, V>, logic: (K, V) -> PVal)
    requires Partition(s, logic).Success?
    ensures multiset(Partition(s, logic).value.first) + multiset(Partition(s, logic).value.second) == multiset(s)
    ensures |Partition(s, logic).value.first| + |Partition(s, logic).value.second| == |s|
    decreases |s|
  {
    if |s| > 0 {
      var t := s[1..];
      assert s == [s[0]] + t;
      PartitionKeepsEveryEntry(t, logic);
      var q := Partition(t, logic).value;
      assert multiset([s[0]] + q.first) == multiset{s[0]} + multiset(q.first);
      assert multiset([s[0]] + q.second) == multiset{s[0]} + multiset(q.second);
    }
  }

  /** With distinct keys, the key sets of the two buckets of `partition` are
      disjoint and together cover every original key. */
  lemma {:induction false} PartitionSplitsKeys<K, V>(s: Stream<K, V>, logic: (K, V) -> PVal)
    requires DistinctKeys(s)
    requires Partition(s, logic).Success?
    ensures KeySet(Partition(s, logic).value.first) !! KeySet(Partition(s, logic).value.second)
    ensures KeySet(Partition(s, logic).value.first) + KeySet(Partition(s, logic).value.second) == KeySet(s)
    decreases |s|
  {
    if |s| > 0 {
      var t := s[1..];
      assert s == [s[0]] + t;
      assert forall i :: 0 <= i < |t| ==> t[i] == s[i + 1];
      PartitionSplitsKeys(t, logic);
      var q := Partition(t, logic).value;
      KeySetCons(s[0], t);
      KeySetCons(s[0], q.first);
      KeySetCons(s[0], q.second);
      assert s[0].0 !in KeySet(t);
    }
  }

  /** Index of the first entry whose predicate result is anything other than
      `B(pass)` (the entry at which a short-circuiting scan decides), or `|s|`
      when every entry yields `B(pass)`. */
  function Decisive<K, V>(s: Stream<K, V>, logic: (K, V) -> PVal, pass: bool): (i: nat)
    ensures i <= |s|
    ensures forall j :: 0 <= j < i ==> logic(s[j].0, s[j].1) == B(pass)
    ensures i < |s| ==> logic(s[i].0, s[i].1) != B(pass)
  {
    if |s| == 0 || logic(s[0].0, s[0].1) != B(pass) then 0
    else
      assert forall j :: 0 < j < |s| ==> s[1..][j - 1] == s[j];
      1 + Decisive(s[1..], logic, pass)
  }

  /** `all(logic)`: true on an empty stream; otherwise decided by the first
      entry that is not true: false for a false result, a throw for a
      non-boolean one. Entries after that are never examined. */
  function AllMatch<K, V>(s: Stream<K, V>, logic: (K, V) -> PVal): (r: Result<bool, StreamError>)
    ensures |s| == 0 ==> r == Success(true)
    ensures var i := Decisive(s, logic, true);
      r == if i == |s| then Success(true)
           else if logic(s[i].0, s[i].1) == NonBool then Failure(LogicNotBoolean)
           else Success(false)
  {
    if |s| == 0 then Success(true)
    else
      assert forall j :: 0 < j < |s| ==> s[1..][j - 1] == s[j];
      match logic(s[0].0, s[0].1)
      case NonBool => Failure(LogicNotBoolean)
      case B(b) => if !b then Success(false) else AllMatch(s[1..], logic)
  }

  /** `any(logic)`: with no predicate, whether the stream has any entry;
      otherwise false on an empty stream, and decided by the first entry that
      is not false: true for a true result, a throw for a non-boolean one. */
  function AnyMatch<K, V>(s: Stream<K, V>, logic: Option<(K, V) -> PVal>): (r: Result<bool, StreamError>)
    ensures logic.None? ==> r == Success(|s| > 0)
    ensures logic.Some? && |s| == 0 ==> r == Success(false)
    ensures logic.Some? ==> var i := Decisive(s, logic.value, false);
      r == if i == |s| then Success(false)
           else if logic.value(s[i].0, s[i].1) == NonBool then Failure(LogicNotBoolean)
           else Success(true)
  {
    if logic.None? then Success(|s| > 0)
    else if |s| == 0 then Success(false)
    else
      assert forall j :: 0 < j < |s| ==> s[1..][j - 1] == s[j];
      match logic.value(s[0].0, s[0].1)
      case NonBool => Failure(LogicNotBoolean)
      case B(b) => if b then Success(true) else AnyMatch(s[1..], logic)
  }

  /** `none(logic)`: true on an empty stream; otherwise decided by the first
      entry that is not false: false for a true result, a throw for a
      non-boolean one. */
  function NoneMatch<K, V>(s: Stream<K, V>, logic: (K, V) -> PVal): (r: Result<bool, StreamError>)
    ensures |s| == 0 ==> r == Success(true)
    ensures var i := Decisive(s, logic, false);
      r == if i == |s| then Success(true)
           else if logic(s[i].0, s[i].1) == NonBool then Failure(LogicNotBoolean)
           else Success(false)
  {
    if |s| == 0 then Success(true)
    else
      assert forall j :: 0 < j < |s| ==> s[1..][j - 1] == s[j];
      match logic(s[0].0, s[0].1)
      case NonBool => Failure(LogicNotBoolean)
      case B(b) => if b then Success(false) else NoneMatch(s[1..], logic)
  }

  /** `first(logic)`: the value of the earliest entry whose predicate is
      true, or null when every entry is false; it throws only when a
      non-boolean result comes before the first true one. */
  function First<K, V>(s: Stream<K, V>, logic: (K, V) -> PVal): (r: Result<Option<V>, StreamError>)
    ensures var i := Decisive(s, logic, false);
      r == if i == |s| then Success(None)
           else if logic(s[i].0, s[i].1) == NonBool then Failure(LogicNotBoolean)
           else Success(Some(s[i].1))
  {
    if |s| == 0 then Success(None)
    else
      assert forall j :: 0 < j < |s| ==> s[1..][j - 1] == s[j];
      match logic(s[0].0, s[0].1)
      case NonBool => Failure(LogicNotBoolean)
      case B(b) => if b then Success(Some(s[0].1)) else First(s[1..], logic)
  }

  /** For every predicate, boolean or not, `none` is the negation of `any`:
      both stop at the same entry and throw together. */
  lemma NoneNegatesAny<K, V>(s: Stream<K, V>, logic: (K, V) -> PVal)
    ensures AnyMatch(s, Some(logic)).Success? <==> NoneMatch(s, logic).Success?
    ensures AnyMatch(s, Some(logic)).Success? ==> NoneMatch(s, logic).value == !AnyMatch(s, Some(logic)).value
  {
  }

  /** Once a scan has decided, whatever follows is never looked at: appending
      entries (whose predicate may even return a non-boolean) behind the
      deciding entry changes none of `all`, `any`, `none` and `first`. */
  lemma ScansIgnoreEntriesAfterDecision<K, V>(s: Stream<K, V>, rest: Stream<K, V>, logic: (K, V) -> PVal)
    ensures Decisive(s, logic, true) < |s| ==> AllMatch(s + rest, logic) == AllMatch(s, logic)
    ensures Decisive(s, logic, false) < |s| ==>
      && AnyMatch(s + rest, Some(logic)) == AnyMatch(s, Some(logic))
      && NoneMatch(s + rest, logic) == NoneMatch(s, logic)
      && First(s + rest, logic) == First(s, logic)
  {
    DecisiveAppend(s, rest, logic, true);
    DecisiveAppend(s, rest, logic, false);
  }

  lemma DecisiveAppend<K, V>(s: Stream<K, V>, rest: Stream<K, V>, logic: (K, V) -> PVal, pass: bool)
    ensures Decisive(s, logic, pass) < |s| ==> Decisive(s + rest, logic, pass) == Decisive(s, logic, pass)
  {
    var i := Decisive(s, logic, pass);
    var j := Decisive(s + rest, logic, pass);
    if i < |s| {
      assert forall k :: 0 <= k <= i ==> (s + rest)[k] == s[k];
    }
  }

  /** `fold(initial, logic)`: the accumulator starts at `initial` and is
      passed through `logic` once per entry, in order. */
  function Fold<K, V, A>(s: Stream<K, V>, initial: A, logic: (A, K, V) -> A): A
  {
    if |s| == 0 then initial
    else Fold(s[1..], logic(initial, s[0].0, s[0].1), logic)
  }

  /** Folding a concatenation folds the second part from where the first
      left off. */
  lemma {:induction false} FoldAppend<K, V, A>(s: Stream<K, V>, t: Stream<K, V>, initial: A, logic: (A, K, V) -> A)
    ensures Fold(s + t, initial, logic) == Fold(t, Fold(s, initial, logic), logic)
    decreases |s|
  {
    if |s| == 0 {
      assert s + t == t;
    } else {
      assert (s + t)[0] == s[0];
      assert (s + t)[1..] == s[1..] + t;
      FoldAppend(s[1..], t, logic(initial, s[0].0, s[0].1), logic);
    }
  }

  /** The fold is a left fold: the last entry is combined last, with the
      fold of everything before it. */
  lemma FoldLast<K, V, A>(s: Stream<K, V>, key: K, value: V, initial: A, logic: (A, K, V) -> A)
    ensures Fold(s + [(key, value)], initial, logic) == logic(Fold(s, initial, logic), key, value)
  {
    FoldAppend(s, [(key, value)], initial, logic);
  }

  /** `reduce(logic)`: a fold whose accumulator starts out as null. */
  function Reduce<K, V, A>(s: Stream<K, V>, logic: (Option<A>, K, V) -> Option<A>): Option<A>
  {
    Fold(s, None, logic)
  }

  /** `reduce` yields null on an empty stream, and otherwise combines the last
      entry with the reduction of the entries before it; the first call of
      `logic` therefore sees a null accumulator. */
  lemma ReduceFromNull<K, V, A>(s: Stream<K, V>, key: K, value: V, logic: (Option<A>, K, V) -> Option<A>)
    ensures Reduce([], logic) == None
    ensures Reduce(s + [(key, value)], logic) == logic(Reduce(s, logic), key, value)
  {
    FoldLast(s, key, value, None, logic);
  }

  /** The entries of consecutive chunks, one after another. */
  function Flatten<T>(chunks: seq<seq<T>>): seq<T>
  {
    if |chunks| == 0 then [] else Flatten(chunks[..|chunks| - 1]) + chunks[|chunks| - 1]
  }

  /** `chunked(size)`: throws when `size` is below one. Otherwise the chunks,
      concatenated, give back the entries in order; every chunk has at most
      `size` entries and all but the last exactly `size`; there is always at
      least one chunk, the last is empty only for an empty stream, and an
      empty stream yields exactly one empty chunk. Storing an entry in
      the current chunk under its own key appends it, because a stream's
      keys are distinct. */
  method Chunked<K, V>(s: Stream<K, V>, size: int) returns (r: Result<seq<Stream<K, V>>, StreamError>)
    ensures r.Failure? <==> size < 1
    ensures r.Failure? ==> r.error == SizeBelowOne
    ensures r.Success? ==> Flatten(r.value) == s
    ensures r.Success? ==> |r.value| >= 1
    ensures r.Success? ==> forall i :: 0 <= i < |r.value| ==> |r.value[i]| <= size
    ensures r.Success? ==> forall i :: 0 <= i < |r.value| - 1 ==> |r.value[i]| == size
    ensures r.Success? && |s| == 0 ==> r.value == [[]]
    ensures r.Success? && |s| > 0 ==> |r.value[|r.value| - 1]| > 0
  {
    if size < 1 {
      return Failure(SizeBelowOne);
    }
    var result: seq<Stream<K, V>> := [[]];
    var pos := 0;
    for n := 0 to |s|
      invariant |result| == pos + 1
      invariant Flatten(result) == s[..n]
      invariant forall i :: 0 <= i < pos ==> |result[i]| == size
      invariant |result[pos]| <= size
      invariant n == 0 ==> result == [[]]
      invariant n > 0 ==> |result[pos]| > 0
    {
      if |result[pos]| == size {
        assert (result + [[]])[..|result|] == result;
        pos := pos + 1;
        result := result + [[]];
      }
      var grown := result[pos := result[pos] + [s[n]]];
      assert grown[..pos] == result[..pos];
      assert s[..n + 1] == s[..n] + [s[n]];
      result := grown;
    }
    assert s[..|s|] == s;
    return Success(result);
  }
}
