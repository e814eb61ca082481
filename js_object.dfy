/**
 * JSObject: JavaScript's Object static methods on PHP associative arrays.
 * An associative array is an ordered list of (key, value) pairs; a PHP array
 * has each key once, and its order is insertion order.
 */
module JSObjects {
  import opened Wrappers

  /** A PHP array key (the coercion of numeric strings to integers is not modelled). */
  datatype Key = IntKey(number: int) | StrKey(name: string)

  /** An associative array with values of type `V`. */
  type Assoc<V> = seq<(Key, V)>

  /** A PHP value for `fromObjectToAssocArray`: a leaf, an array, or an object with its properties in order. */
  datatype Value<A> = Scalar(scalar: A) | Array(pairs: Assoc<Value<A>>) | Object(pairs: Assoc<Value<A>>)

  /** Each key occurs once, as in every PHP array. */
  ghost predicate DistinctKeys<V>(m: Assoc<V>)
  {
    forall i, j :: 0 <= i < j < |m| ==> m[i].0 != m[j].0
  }

  /** `array_keys`: the keys in order. */
  function KeyList<V>(m: Assoc<V>): (r: seq<Key>)
    ensures |r| == |m| && forall i :: 0 <= i < |m| ==> r[i] == m[i].0
  {
    if m == [] then [] else [m[0].0] + KeyList(m[1..])
  }

  /** `$m[$k]`: the value stored under `k`, or `None` when the key is absent. */
  function Lookup<V>(m: Assoc<V>, k: Key): (r: Option<V>)
    ensures r == None <==> k !in KeyList(m)
  {
    if m == [] then None else if m[0].0 == k then Some(m[0].1) else Lookup(m[1..], k)
  }

  /**
   * `$m[$k] = $v`: an existing key keeps its position and takes the new
   * value; a new key is appended.
   */
  function Put<V>(m: Assoc<V>, k: Key, v: V): (r: Assoc<V>)
    ensures KeyList(r) == if k in KeyList(m) then KeyList(m) else KeyList(m) + [k]
    ensures k !in KeyList(m) ==> r == m + [(k, v)]
  {
    if m == [] then [(k, v)]
    else if m[0].0 == k then [(k, v)] + m[1..]
    else
      assert m == [m[0]] + m[1..];
      [m[0]] + Put(m[1..], k, v)
  }

  /** After `$m[$k] = $v`, `k` maps to `v` and every other key keeps its value. */
  lemma {:induction false} PutLookup<V>(m: Assoc<V>, k: Key, v: V, j: Key)
    ensures Lookup(Put(m, k, v), j) == if j == k then Some(v) else Lookup(m, j)
  {
    if m != [] {
      var r := Put(m, k, v);
      if m[0].0 == k {
        assert r[0] == (k, v) && r[1..] == m[1..];
      } else {
        PutLookup(m[1..], k, v, j);
        assert r[0] == m[0] && r[1..] == Put(m[1..], k, v);
      }
    }
  }

  lemma {:induction false} PutKeepsDistinct<V>(m: Assoc<V>, k: Key, v: V)
    requires DistinctKeys(m)
    ensures DistinctKeys(Put(m, k, v))
  {
    var r := Put(m, k, v);
    assert KeyList(r) == if k in KeyList(m) then KeyList(m) else KeyList(m) + [k];
    forall i, j | 0 <= i < j < |r| ensures r[i].0 != r[j].0 {
      assert KeyList(r)[i] == r[i].0 && KeyList(r)[j] == r[j].0;
      if j < |m| {
        assert KeyList(m)[i] == m[i].0 && KeyList(m)[j] == m[j].0;
      } else {
        assert KeyList(m)[i] == m[i].0;
        assert KeyList(m)[i] in KeyList(m);
      }
    }
  }

  /** Dropping the last pair of an array with distinct keys leaves distinct keys, none equal to the dropped one. */
  lemma {:induction false} DistinctInit<V>(m: Assoc<V>)
    requires DistinctKeys(m) && m != []
    ensures DistinctKeys(m[..|m| - 1])
    ensures m[|m| - 1].0 !in KeyList(m[..|m| - 1])
  {
    var init := m[..|m| - 1];
    forall i, j | 0 <= i < j < |init| ensures init[i].0 != init[j].0 {
      assert init[i] == m[i] && init[j] == m[j];
    }
    forall i | 0 <= i < |init| ensures KeyList(init)[i] != m[|m| - 1].0 {
      assert init[i] == m[i];
    }
  }

  // ---------------------------------------------------------------------
  // isEmpty, getLength, isAssocArray, clone
  // ---------------------------------------------------------------------

  function IsEmpty<V>(m: Assoc<V>): (r: bool)
    ensures r <==> m == []
  {
    GetLength(m) == 0
  }

  function GetLength<V>(m: Assoc<V>): nat
  {
    |m|
  }

  /** PHP's `range($lo, $hi)` on integers: counts up or down, both ends included. */
  function Range(lo: int, hi: int): (r: seq<int>)
    ensures |r| == (if lo <= hi then hi - lo + 1 else lo - hi + 1)
    ensures r[0] == lo && r[|r| - 1] == hi
    decreases if lo <= hi then hi - lo else lo - hi
  {
    if lo == hi then [lo]
    else if lo < hi then [lo] + Range(lo + 1, hi)
    else [lo] + Range(lo - 1, hi)
  }

  /** `range(0, n - 1)` for a positive `n` is `0, 1, ..., n - 1`, and `range(0, -1)` is `[0, -1]`. */
  lemma {:induction false} RangeUp(lo: int, hi: int)
    requires lo <= hi
    ensures |Range(lo, hi)| == hi - lo + 1
    ensures forall i :: 0 <= i <= hi - lo ==> Range(lo, hi)[i] == lo + i
    decreases hi - lo
  {
    if lo < hi {
      RangeUp(lo + 1, hi);
    }
  }

  /** The keys as PHP integers, so that `!==` against a range compares types as well. */
  function IntKeys(r: seq<int>): (keys: seq<Key>)
    ensures |keys| == |r| && forall i :: 0 <= i < |r| ==> keys[i] == IntKey(r[i])
  {
    seq(|r|, i requires 0 <= i < |r| => IntKey(r[i]))
  }

  /** `array_keys($m) !== range(0, count($m) - 1)`. */
  function IsAssocArray<V>(m: Assoc<V>): bool
  {
    KeyList(m) != IntKeys(Range(0, |m| - 1))
  }

  /** An array is list-like exactly when its keys are `0, 1, ..., n - 1` in order and it is not empty. */
  lemma IsAssocArrayIff<V>(m: Assoc<V>)
    ensures !IsAssocArray(m) <==> |m| > 0 && forall i :: 0 <= i < |m| ==> m[i].0 == IntKey(i)
  {
    if |m| == 0 {
      assert Range(0, -1) == [0] + Range(-1, -1);
      assert |IntKeys(Range(0, -1))| == 2;
    } else {
      RangeUp(0, |m| - 1);
      var keys := IntKeys(Range(0, |m| - 1));
      if forall i :: 0 <= i < |m| ==> m[i].0 == IntKey(i) {
        assert KeyList(m) == keys;
      } else {
        var i :| 0 <= i < |m| && m[i].0 != IntKey(i);
        assert KeyList(m)[i] != keys[i];
      }
    }
  }

  /** `(new ArrayObject($m))->getArrayCopy()`: an equal array. */
  function Clone<V>(m: Assoc<V>): (r: Assoc<V>)
    ensures r == m
  {
    m
  }

  // ---------------------------------------------------------------------
  // keys, values, entries
  // ---------------------------------------------------------------------

  method Keys<V>(m: Assoc<V>) returns (result: seq<Key>)
    ensures result == KeyList(m)
  {
    result := [];
    var i := 0;
    while i < |m|
      invariant 0 <= i <= |m|
      invariant |result| == i && forall k :: 0 <= k < i ==> result[k] == m[k].0
    {
      result := result + [m[i].0];
      i := i + 1;
    }
    assert forall k :: 0 <= k < |m| ==> result[k] == KeyList(m)[k];
  }

  method Values<V>(m: Assoc<V>) returns (result: seq<V>)
    ensures |result| == |m| && forall i :: 0 <= i < |m| ==> result[i] == m[i].1
  {
    result := [];
    var i := 0;
    while i < |m|
      invariant 0 <= i <= |m|
      invariant |result| == i && forall k :: 0 <= k < i ==> result[k] == m[k].1
    {
      result := result + [m[i].1];
      i := i + 1;
    }
  }

  /** Each entry `[$key, $value]` is a pair. */
  method Entries<V>(m: Assoc<V>) returns (result: seq<(Key, V)>)
    ensures |result| == |m| && forall i :: 0 <= i < |m| ==> result[i] == (KeyList(m)[i], m[i].1)
  {
    result := [];
    var i := 0;
    while i < |m|
      invariant 0 <= i <= |m|
      invariant |result| == i && forall k :: 0 <= k < i ==> result[k] == m[k]
    {
      result := result + [(m[i].0, m[i].1)];
      i := i + 1;
    }
  }

  // ---------------------------------------------------------------------
  // fromEntries, assign
  // ---------------------------------------------------------------------

  /** Writes the pairs into `m` one after another, each with `$m[$k] = $v`. */
  function PutAll<V>(m: Assoc<V>, pairs: seq<(Key, V)>): Assoc<V>
  {
    if pairs == [] then m
    else Put(PutAll(m, pairs[..|pairs| - 1]), pairs[|pairs| - 1].0, pairs[|pairs| - 1].1)
  }

  /** The value of the LAST pair with key `k`, or `None`. */
  function LastValue<V>(pairs: seq<(Key, V)>, k: Key): Option<V>
  {
    if pairs == [] then None
    else if pairs[|pairs| - 1].0 == k then Some(pairs[|pairs| - 1].1)
    else LastValue(pairs[..|pairs| - 1], k)
  }

  /** `ks` followed by the keys of `extra` not already present, each at its first occurrence. */
  function AppendNew(ks: seq<Key>, extra: seq<Key>): seq<Key>
  {
    if extra == [] then ks
    else
      var before := AppendNew(ks, extra[..|extra| - 1]);
      if extra[|extra| - 1] in before then before else before + [extra[|extra| - 1]]
  }

  lemma {:induction false} AppendNewExtends(ks: seq<Key>, extra: seq<Key>)
    ensures |AppendNew(ks, extra)| >= |ks| && AppendNew(ks, extra)[..|ks|] == ks
    ensures forall k :: k in AppendNew(ks, extra) <==> k in ks || k in extra
  {
    if extra != [] {
      var init := extra[..|extra| - 1];
      AppendNewExtends(ks, init);
      assert extra == init + [extra[|extra| - 1]];
      var before := AppendNew(ks, init);
      assert (before + [extra[|extra| - 1]])[..|ks|] == before[..|ks|];
    }
  }

  /**
   * Writing pairs: the keys already in `m` keep their positions, and new
   * keys are appended in the order they first appear.
   */
  lemma {:induction false} PutAllKeys<V>(m: Assoc<V>, pairs: seq<(Key, V)>)
    ensures KeyList(PutAll(m, pairs)) == AppendNew(KeyList(m), KeyList(pairs))
  {
    if pairs != [] {
      var init := pairs[..|pairs| - 1];
      PutAllKeys(m, init);
      assert KeyList(pairs)[..|pairs| - 1] == KeyList(init);
    }
  }

  /** Writing pairs: a key takes the value of its last pair, and a key in no pair keeps its value. */
  lemma {:induction false} PutAllLookup<V>(m: Assoc<V>, pairs: seq<(Key, V)>, k: Key)
    ensures Lookup(PutAll(m, pairs), k) == if LastValue(pairs, k) != None then LastValue(pairs, k) else Lookup(m, k)
  {
    if pairs != [] {
      var init := pairs[..|pairs| - 1];
      PutAllLookup(m, init, k);
      PutLookup(PutAll(m, init), pairs[|pairs| - 1].0, pairs[|pairs| - 1].1, k);
    }
  }

  lemma {:induction false} PutAllKeepsDistinct<V>(m: Assoc<V>, pairs: seq<(Key, V)>)
    requires DistinctKeys(m)
    ensures DistinctKeys(PutAll(m, pairs))
  {
    if pairs != [] {
      var init := pairs[..|pairs| - 1];
      PutAllKeepsDistinct(m, init);
      PutKeepsDistinct(PutAll(m, init), pairs[|pairs| - 1].0, pairs[|pairs| - 1].1);
    }
  }

  /** What `fromEntries` builds: the pairs written into an empty array. */
  function FromEntriesOf<V>(pairs: seq<(Key, V)>): Assoc<V>
  {
    PutAll([], pairs)
  }

  /** `fromEntries`: `$result[$item[0]] = $item[1]` for each entry in order. */
  method FromEntries<V>(pairs: seq<(Key, V)>) returns (result: Assoc<V>)
    ensures result == FromEntriesOf(pairs)
  {
    result := [];
    var i := 0;
    while i < |pairs|
      invariant 0 <= i <= |pairs|
      invariant result == PutAll([], pairs[..i])
    {
      assert pairs[..i + 1][..i] == pairs[..i];
      result := Put(result, pairs[i].0, pairs[i].1);
      i := i + 1;
    }
    assert pairs[..i] == pairs;
  }

  /** `fromEntries(entries(m))` gives `m` back when its keys are distinct. */
  lemma {:induction false} FromEntriesOfDistinct<V>(m: Assoc<V>)
    requires DistinctKeys(m)
    ensures FromEntriesOf(m) == m
  {
    if m != [] {
      var init := m[..|m| - 1];
      DistinctInit(m);
      FromEntriesOfDistinct(init);
      var k, v := m[|m| - 1].0, m[|m| - 1].1;
      calc {
        FromEntriesOf(m);
        Put(PutAll([], init), k, v);
        Put(init, k, v);
        init + [(k, v)];
        { assert m[|m| - 1] == (k, v); }
        m;
      }
    }
  }

  /**
   * `fromEntries`: for each key the value of its last entry, the keys in the
   * order of their first entry, and each key once.
   */
  lemma FromEntriesSpec<V>(pairs: seq<(Key, V)>)
    ensures forall k :: Lookup(FromEntriesOf(pairs), k) == LastValue(pairs, k)
    ensures KeyList(FromEntriesOf(pairs)) == AppendNew([], KeyList(pairs))
    ensures DistinctKeys(FromEntriesOf(pairs))
  {
    forall k ensures Lookup(FromEntriesOf(pairs), k) == LastValue(pairs, k) {
      PutAllLookup([], pairs, k);
    }
    PutAllKeys([], pairs);
    PutAllKeepsDistinct([], pairs);
  }

  /** What `assign` builds: the target, then each source written into it, left to right. */
  function AssignOf<V>(target: Assoc<V>, sources: seq<Assoc<V>>): Assoc<V>
  {
    if sources == [] then target
    else PutAll(AssignOf(target, sources[..|sources| - 1]), sources[|sources| - 1])
  }

  /** One more pair written. */
  lemma PutAllStep<V>(m: Assoc<V>, pairs: seq<(Key, V)>, i: nat)
    requires i < |pairs|
    ensures PutAll(m, pairs[..i + 1]) == Put(PutAll(m, pairs[..i]), pairs[i].0, pairs[i].1)
  {
    assert pairs[..i + 1][..i] == pairs[..i];
  }

  /** One more source assigned, with all its pairs. */
  lemma AssignOfStep<V>(target: Assoc<V>, sources: seq<Assoc<V>>, s: nat)
    requires s < |sources|
    ensures AssignOf(target, sources[..s + 1]) == PutAll(AssignOf(target, sources[..s]), sources[s][..|sources[s]|])
  {
    assert sources[..s + 1][..s] == sources[..s];
    assert sources[s][..|sources[s]|] == sources[s];
  }

  /** `assign`: a clone of the target, then every pair of every source assigned into it. */
  method Assign<V>(target: Assoc<V>, sources: seq<Assoc<V>>) returns (result: Assoc<V>)
    ensures result == AssignOf(target, sources)
  {
    result := Clone(target);
    var s := 0;
    while s < |sources|
      invariant 0 <= s <= |sources|
      invariant result == AssignOf(target, sources[..s])
    {
      var source := sources[s];
      var before := result;
      var i := 0;
      while i < |source|
        invariant 0 <= i <= |source|
        invariant result == PutAll(before, source[..i])
      {
        PutAllStep(before, source, i);
        result := Put(result, source[i].0, source[i].1);
        i := i + 1;
      }
      AssignOfStep(target, sources, s);
      s := s + 1;
    }
    assert sources[..s] == sources;
  }

  /** The value `assign` ends up with for key `k`: from the last source that has it, else from the target. */
  function Winner<V>(target: Assoc<V>, sources: seq<Assoc<V>>, k: Key): Option<V>
  {
    if sources == [] then Lookup(target, k)
    else if LastValue(sources[|sources| - 1], k) != None then LastValue(sources[|sources| - 1], k)
    else Winner(target, sources[..|sources| - 1], k)
  }

  /** `assign`: the last source holding a key wins, else the target's value stands. */
  lemma {:induction false} AssignLookup<V>(target: Assoc<V>, sources: seq<Assoc<V>>, k: Key)
    ensures Lookup(AssignOf(target, sources), k) == Winner(target, sources, k)
  {
    if sources != [] {
      var init := sources[..|sources| - 1];
      AssignLookup(target, init, k);
      PutAllLookup(AssignOf(target, init), sources[|sources| - 1], k);
    }
  }

  /** Appending the new keys of `a`, then those of `b`, is appending those of `a + b`. */
  lemma {:induction false} AppendNewTwice(ks: seq<Key>, a: seq<Key>, b: seq<Key>)
    ensures AppendNew(AppendNew(ks, a), b) == AppendNew(ks, a + b)
  {
    if b == [] {
      assert a + b == a;
    } else {
      AppendNewTwice(ks, a, b[..|b| - 1]);
      assert (a + b)[..|a + b| - 1] == a + b[..|b| - 1];
    }
  }

  /** The keys of every source, one source after another. */
  function SourceKeys<V>(sources: seq<Assoc<V>>): seq<Key>
  {
    if sources == [] then [] else SourceKeys(sources[..|sources| - 1]) + KeyList(sources[|sources| - 1])
  }

  /** A key is among the sources' keys iff some source holds it. */
  lemma {:induction false} SourceKeysMembers<V>(sources: seq<Assoc<V>>, k: Key)
    ensures k in SourceKeys(sources) <==> exists s :: 0 <= s < |sources| && k in KeyList(sources[s])
  {
    if sources != [] {
      var init, last := sources[..|sources| - 1], sources[|sources| - 1];
      SourceKeysMembers(init, k);
      assert SourceKeys(sources) == SourceKeys(init) + KeyList(last);
      assert forall s :: 0 <= s < |init| ==> init[s] == sources[s];
      assert k in KeyList(last) ==> k in KeyList(sources[|sources| - 1]);
    }
  }

  /**
   * `assign`: the keys are the target's, in their positions, followed by each
   * key of the sources not seen before, in order of first appearance; so a
   * key ends up in the result exactly when the target or some source has it.
   */
  lemma {:induction false} AssignKeys<V>(target: Assoc<V>, sources: seq<Assoc<V>>)
    ensures KeyList(AssignOf(target, sources)) == AppendNew(KeyList(target), SourceKeys(sources))
    ensures |AssignOf(target, sources)| >= |target|
    ensures KeyList(AssignOf(target, sources))[..|target|] == KeyList(target)
    ensures forall k :: k in KeyList(AssignOf(target, sources)) <==>
              k in KeyList(target) || exists s :: 0 <= s < |sources| && k in KeyList(sources[s])
  {
    AssignKeyList(target, sources);
    AppendNewExtends(KeyList(target), SourceKeys(sources));
    forall k ensures k in SourceKeys(sources) <==> exists s :: 0 <= s < |sources| && k in KeyList(sources[s]) {
      SourceKeysMembers(sources, k);
    }
  }

  /** The key list of `assign` as one `AppendNew` over all the sources' keys. */
  lemma {:induction false} AssignKeyList<V>(target: Assoc<V>, sources: seq<Assoc<V>>)
    ensures KeyList(AssignOf(target, sources)) == AppendNew(KeyList(target), SourceKeys(sources))
  {
    if sources != [] {
      var init := sources[..|sources| - 1];
      var last := sources[|sources| - 1];
      AssignKeyList(target, init);
      PutAllKeys(AssignOf(target, init), last);
      AppendNewTwice(KeyList(target), SourceKeys(init), KeyList(last));
    }
  }

  /** `assign` keeps the keys distinct when the target's are. */
  lemma {:induction false} AssignKeepsDistinct<V>(target: Assoc<V>, sources: seq<Assoc<V>>)
    requires DistinctKeys(target)
    ensures DistinctKeys(AssignOf(target, sources))
  {
    if sources != [] {
      var init := sources[..|sources| - 1];
      AssignKeepsDistinct(target, init);
      PutAllKeepsDistinct(AssignOf(target, init), sources[|sources| - 1]);
    }
  }

  // ---------------------------------------------------------------------
  // fromObjectToAssocArray
  // ---------------------------------------------------------------------

  /** The test of the loop: an associative array or an object is converted. */
  predicate NeedsConversion<A>(v: Value<A>)
  {
    (v.Array? && IsAssocArray(v.pairs)) || v.Object?
  }

  /** A value as the loop stores it: converted recursively, or copied as it is. */
  function Convert<A>(v: Value<A>): (r: Value<A>)
    ensures !r.Object?
  {
    if NeedsConversion(v) then Array(ToAssoc(v.pairs)) else v
  }

  /** What `fromObjectToAssocArray` returns: every value converted, under its key. */
  function ToAssoc<A>(m: Assoc<Value<A>>): Assoc<Value<A>>
  {
    if m == [] then []
    else
      var v := m[|m| - 1].1;
      assert m[|m| - 1] in m && v < m[|m| - 1];
      Put(ToAssoc(m[..|m| - 1]), m[|m| - 1].0, if NeedsConversion(v) then Array(ToAssoc(v.pairs)) else v)
  }

  /** One step of the conversion: the last pair is written, converted, after the others. */
  lemma ToAssocLast<A>(m: Assoc<Value<A>>)
    requires m != []
    ensures ToAssoc(m) == Put(ToAssoc(m[..|m| - 1]), m[|m| - 1].0, Convert(m[|m| - 1].1))
  {
  }

  /** The conversion of a prefix one pair longer. */
  lemma ToAssocPrefix<A>(m: Assoc<Value<A>>, i: nat)
    requires i < |m|
    ensures ToAssoc(m[..i + 1]) == Put(ToAssoc(m[..i]), m[i].0, Convert(m[i].1))
  {
    ToAssocLast(m[..i + 1]);
    assert m[..i + 1][..i] == m[..i] && m[..i + 1][i] == m[i];
  }

  /** `fromObjectToAssocArray`: the foreach over the input, recursing into objects and associative arrays. */
  method FromObjectToAssocArray<A>(obj: Assoc<Value<A>>) returns (result: Assoc<Value<A>>)
    ensures result == ToAssoc(obj)
    decreases obj
  {
    result := [];
    var i := 0;
    while i < |obj|
      invariant 0 <= i <= |obj|
      invariant result == ToAssoc(obj[..i])
    {
      var key, value := obj[i].0, obj[i].1;
      assert obj[i] in obj && value < obj[i];
      var stored;
      if NeedsConversion(value) {
        var converted := FromObjectToAssocArray(value.pairs);
        stored := Array(converted);
      } else {
        stored := value;
      }
      assert stored == Convert(value);
      ToAssocPrefix(obj, i);
      result := Put(result, key, stored);
      i := i + 1;
    }
    assert obj[..i] == obj;
  }

  /**
   * The conversion keeps the keys and their order; each value is converted
   * on its own, so leaves and list-like arrays come out as they went in and
   * no object is left at the top level.
   */
  lemma {:induction false} ToAssocSpec<A>(m: Assoc<Value<A>>)
    requires DistinctKeys(m)
    ensures |ToAssoc(m)| == |m|
    ensures forall i :: 0 <= i < |m| ==> ToAssoc(m)[i] == (m[i].0, Convert(m[i].1))
    ensures KeyList(ToAssoc(m)) == KeyList(m)
    ensures forall i :: 0 <= i < |m| && !NeedsConversion(m[i].1) ==> ToAssoc(m)[i].1 == m[i].1
    ensures forall i :: 0 <= i < |m| ==> !ToAssoc(m)[i].1.Object?
  {
    ToAssocPairs(m);
    var r := ToAssoc(m);
    assert KeyList(r) == KeyList(m) by {
      forall i | 0 <= i < |m| ensures KeyList(r)[i] == KeyList(m)[i] {
        assert r[i].0 == m[i].0;
      }
    }
  }

  /** The pairs of `m`, each value mapped by `f`. */
  function MapValues<V, W>(m: Assoc<V>, f: V -> W): (r: Assoc<W>)
    ensures |r| == |m| && forall i :: 0 <= i < |m| ==> r[i] == (m[i].0, f(m[i].1))
  {
    seq(|m|, i requires 0 <= i < |m| => (m[i].0, f(m[i].1)))
  }

  /** With distinct keys, writing the last mapped pair after the others appends it. */
  lemma {:induction false} PutAfterMapValues<V, W>(m: Assoc<V>, f: V -> W)
    requires DistinctKeys(m) && m != []
    ensures MapValues(m, f) == Put(MapValues(m[..|m| - 1], f), m[|m| - 1].0, f(m[|m| - 1].1))
  {
    var init := m[..|m| - 1];
    DistinctInit(m);
    var before := MapValues(init, f);
    assert KeyList(before) == KeyList(init) by {
      forall i | 0 <= i < |init| ensures KeyList(before)[i] == KeyList(init)[i] {
        assert before[i].0 == init[i].0;
      }
    }
    var r := MapValues(m, f);
    forall i | 0 <= i < |m| ensures r[i] == (before + [(m[|m| - 1].0, f(m[|m| - 1].1))])[i] {
      if i < |init| {
        assert init[i] == m[i];
      }
    }
  }

  lemma {:induction false} ToAssocPairs<A>(m: Assoc<Value<A>>)
    requires DistinctKeys(m)
    ensures ToAssoc(m) == MapValues(m, Convert)
  {
    if m != [] {
      DistinctInit(m);
      ToAssocPairs(m[..|m| - 1]);
      ToAssocLast(m);
      PutAfterMapValues(m, Convert);
    }
  }
}
