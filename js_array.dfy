/**
 * JSArray: a wrapper around a PHP list that offers JavaScript's Array methods.
 * The wrapped list `$array` is the field `elements`; `push`, `pop`, `shift`, `unshift`
 * and `sort` change it in place, every other method leaves it alone.
 */
module JSArrays {
  import opened Wrappers

  /**
   * A PHP value held in a list: an opaque scalar or object of type `A`, or a
   * nested PHP list (what `is_array` recognises).
   */
  datatype Value<A> = Leaf(leaf: A) | List(items: seq<Value<A>>)

  /** The callback shape `(mixed $item, int $index, array $array)`. */
  type Callback<!A, U> = (Value<A>, int, seq<Value<A>>) -> U

  /** A reducer `(mixed $initial, mixed $item, int $index, array $array)`; `None` is `null`. */
  type Reducer<!A> = (Option<Value<A>>, Value<A>, int, seq<Value<A>>) -> Option<Value<A>>

  /** A `usort` comparator: negative, zero or positive. */
  type Comparator<!A> = (Value<A>, Value<A>) -> int

  // ---------------------------------------------------------------------
  // filter: the elements the callback accepts
  // ---------------------------------------------------------------------

  /** The elements among the first `n` that the callback accepts, in order (what filter's loop collects). */
  function Kept<A>(a: seq<Value<A>>, callback: Callback<A, bool>, n: nat): seq<Value<A>>
    requires n <= |a|
  {
    if n == 0 then []
    else Kept(a, callback, n - 1) + (if callback(a[n - 1], n - 1, a) then [a[n - 1]] else [])
  }

  /** The indices among the first `n` whose element the callback accepts. */
  function KeptIndices<A>(a: seq<Value<A>>, callback: Callback<A, bool>, n: nat): seq<nat>
    requires n <= |a|
  {
    if n == 0 then []
    else KeptIndices(a, callback, n - 1) + (if callback(a[n - 1], n - 1, a) then [n - 1] else [])
  }

  /**
   * `Kept` is the order-preserving subsequence of exactly the accepted
   * elements: it picks the elements at a strictly increasing list of
   * indices, and an index is in that list iff the callback accepts it.
   */
  lemma {:induction false} KeptSelects<A>(a: seq<Value<A>>, callback: Callback<A, bool>, n: nat)
    requires n <= |a|
    ensures |Kept(a, callback, n)| == |KeptIndices(a, callback, n)| <= n
    ensures forall k :: 0 <= k < |KeptIndices(a, callback, n)| ==>
              KeptIndices(a, callback, n)[k] < n && Kept(a, callback, n)[k] == a[KeptIndices(a, callback, n)[k]]
    ensures forall k, l :: 0 <= k < l < |KeptIndices(a, callback, n)| ==>
              KeptIndices(a, callback, n)[k] < KeptIndices(a, callback, n)[l]
    ensures forall j :: 0 <= j < n ==> (j in KeptIndices(a, callback, n) <==> callback(a[j], j, a))
  {
    if n > 0 {
      KeptSelects(a, callback, n - 1);
    }
  }

  // ---------------------------------------------------------------------
  // indexOf: PHP's array_search on a list
  // ---------------------------------------------------------------------

  /**
   * `array_search($value, $a)` on a list, looking from index `from`: the
   * first index whose element is loosely equal (`==`) to `value`, or -1.
   * PHP's loose comparison is the parameter `looseEquals`.
   */
  function ArraySearch<A>(a: seq<Value<A>>, value: Value<A>, looseEquals: (Value<A>, Value<A>) -> bool, from: nat): (r: int)
    requires from <= |a|
    ensures r == -1 || from <= r < |a|
    ensures r == -1 <==> forall i :: from <= i < |a| ==> !looseEquals(a[i], value)
    ensures r != -1 ==> looseEquals(a[r], value) && forall j :: from <= j < r ==> !looseEquals(a[j], value)
    decreases |a| - from
  {
    if from == |a| then -1
    else if looseEquals(a[from], value) then from
    else ArraySearch(a, value, looseEquals, from + 1)
  }

  // ---------------------------------------------------------------------
  // flat: the recursive helper `iter`
  // ---------------------------------------------------------------------

  /** `iter($depth, $current)`: depth 0 returns `current` as it is. */
  function Iter<A>(depth: int, current: seq<Value<A>>): seq<Value<A>>
    decreases current, 1
  {
    if depth == 0 then current else IterItems(depth, current)
  }

  /** The foreach of `iter`: nested lists are flattened one level less deep and spliced in, other items pushed. */
  function IterItems<A>(depth: int, current: seq<Value<A>>): seq<Value<A>>
    decreases current, 0
  {
    if current == [] then []
    else
      (match current[0]
       case List(items) => Iter(depth - 1, items)
       case Leaf(_) => [current[0]])
      + IterItems(depth, current[1..])
  }

  /** All leaves of a list, left to right, at any depth. */
  function Leaves<A>(s: seq<Value<A>>): seq<A>
  {
    if s == [] then []
    else (match s[0] case Leaf(x) => [x] case List(items) => Leaves(items)) + Leaves(s[1..])
  }

  /** A list with no nested list in it. */
  predicate IsFlat<A>(s: seq<Value<A>>)
  {
    forall i :: 0 <= i < |s| ==> s[i].Leaf?
  }

  lemma {:induction false} LeavesAppend<A>(a: seq<Value<A>>, b: seq<Value<A>>)
    ensures Leaves(a + b) == Leaves(a) + Leaves(b)
  {
    if a == [] {
      assert a + b == b;
    } else {
      assert (a + b)[0] == a[0];
      assert (a + b)[1..] == a[1..] + b;
      LeavesAppend(a[1..], b);
    }
  }

  /**
   * `iter` works item by item: with a nonzero depth it distributes over
   * concatenation, passes a non-list item through, and replaces a nested
   * list by its flattening one level less deep, spliced in place.
   */
  lemma {:induction false} IterSplices<A>(depth: int, a: seq<Value<A>>, b: seq<Value<A>>, x: A, items: seq<Value<A>>)
    requires depth != 0
    ensures Iter(depth, a + b) == Iter(depth, a) + Iter(depth, b)
    ensures Iter(depth, [Leaf(x)]) == [Leaf(x)]
    ensures Iter(depth, [List(items)]) == Iter(depth - 1, items)
  {
    IterItemsAppend(depth, a, b);
    assert [Leaf(x)][1..] == [];
    assert IterItems(depth, [Leaf(x)]) == [Leaf(x)] + IterItems(depth, []);
    assert [List(items)][1..] == [];
    assert Iter(depth - 1, items) + [] == Iter(depth - 1, items);
  }

  lemma {:induction false} IterItemsAppend<A>(depth: int, a: seq<Value<A>>, b: seq<Value<A>>)
    ensures IterItems(depth, a + b) == IterItems(depth, a) + IterItems(depth, b)
  {
    if a == [] {
      assert a + b == b;
    } else {
      assert (a + b)[0] == a[0];
      assert (a + b)[1..] == a[1..] + b;
      IterItemsAppend(depth, a[1..], b);
    }
  }

  /** Flattening, to any depth, keeps every leaf and their order. */
  lemma {:induction false} IterKeepsLeaves<A>(depth: int, current: seq<Value<A>>)
    ensures Leaves(Iter(depth, current)) == Leaves(current)
    decreases current, 1
  {
    if depth != 0 {
      IterItemsKeepLeaves(depth, current);
    }
  }

  lemma {:induction false} IterItemsKeepLeaves<A>(depth: int, current: seq<Value<A>>)
    ensures Leaves(IterItems(depth, current)) == Leaves(current)
    decreases current, 0
  {
    if current != [] {
      var head := match current[0]
        case List(items) => Iter(depth - 1, items)
        case Leaf(_) => [current[0]];
      LeavesAppend(head, IterItems(depth, current[1..]));
      IterItemsKeepLeaves(depth, current[1..]);
      match current[0] {
        case List(items) => IterKeepsLeaves(depth - 1, items);
        case Leaf(_) =>
      }
    }
  }

  /**
   * A negative depth never reaches the `=== 0` test, so `iter` flattens
   * every level.
   */
  lemma {:induction false} IterNegativeDepthIsFlat<A>(depth: int, current: seq<Value<A>>)
    requires depth < 0
    ensures IsFlat(Iter(depth, current))
    decreases current, 1
  {
    IterItemsNegativeDepthIsFlat(depth, current);
  }

  lemma {:induction false} IterItemsNegativeDepthIsFlat<A>(depth: int, current: seq<Value<A>>)
    requires depth < 0
    ensures IsFlat(IterItems(depth, current))
    decreases current, 0
  {
    if current != [] {
      var head := match current[0]
        case List(items) => Iter(depth - 1, items)
        case Leaf(_) => [current[0]];
      match current[0] {
        case List(items) => IterNegativeDepthIsFlat(depth - 1, items);
        case Leaf(_) =>
      }
      IterItemsNegativeDepthIsFlat(depth, current[1..]);
      var rest := IterItems(depth, current[1..]);
      assert IterItems(depth, current) == head + rest;
      forall i | 0 <= i < |head + rest| ensures (head + rest)[i].Leaf? {
        if i < |head| { assert (head + rest)[i] == head[i]; }
        else { assert (head + rest)[i] == rest[i - |head|]; }
      }
    }
  }

  // ---------------------------------------------------------------------
  // sort: insertion into a list ordered by the comparator
  // ---------------------------------------------------------------------

  /** The comparator orders values as a total preorder: `cmp(x, y) <= 0` reads "x may come before y". */
  ghost predicate TotalPreorder<A(!new)>(cmp: Comparator<A>)
  {
    && (forall x, y :: cmp(x, y) <= 0 || cmp(y, x) <= 0)
    && (forall x, y, z :: cmp(x, y) <= 0 && cmp(y, z) <= 0 ==> cmp(x, z) <= 0)
  }

  /** Every element may come before every later element. */
  ghost predicate SortedBy<A>(s: seq<Value<A>>, cmp: Comparator<A>)
  {
    forall i, j :: 0 <= i < j < |s| ==> cmp(s[i], s[j]) <= 0
  }

  /** `x` inserted after the longest prefix of `s` whose elements may come before it. */
  function Insert<A>(s: seq<Value<A>>, x: Value<A>, cmp: Comparator<A>): (r: seq<Value<A>>)
    ensures multiset(r) == multiset(s) + multiset{x}
  {
    if s == [] then [x]
    else if cmp(s[0], x) <= 0 then
      assert s == [s[0]] + s[1..];
      [s[0]] + Insert(s[1..], x, cmp)
    else [x] + s
  }

  /** A value that may come before every element of `s` and before `x` may come before every element of the insertion. */
  lemma {:induction false} InsertLowerBound<A>(s: seq<Value<A>>, x: Value<A>, cmp: Comparator<A>, b: Value<A>)
    requires forall j :: 0 <= j < |s| ==> cmp(b, s[j]) <= 0
    requires cmp(b, x) <= 0
    ensures forall j :: 0 <= j < |Insert(s, x, cmp)| ==> cmp(b, Insert(s, x, cmp)[j]) <= 0
  {
    if s != [] && cmp(s[0], x) <= 0 {
      InsertLowerBound(s[1..], x, cmp, b);
    }
  }

  /** A value that may come before every element of a sorted list may head it. */
  lemma {:induction false} ConsKeepsSorted<A>(h: Value<A>, s: seq<Value<A>>, cmp: Comparator<A>)
    requires SortedBy(s, cmp)
    requires forall j :: 0 <= j < |s| ==> cmp(h, s[j]) <= 0
    ensures SortedBy([h] + s, cmp)
  {
    var r := [h] + s;
    forall i, j | 0 <= i < j < |r| ensures cmp(r[i], r[j]) <= 0 {
      assert r[j] == s[j - 1];
      if i > 0 { assert r[i] == s[i - 1]; }
    }
  }

  lemma {:induction false} InsertKeepsSorted<A(!new)>(s: seq<Value<A>>, x: Value<A>, cmp: Comparator<A>)
    requires TotalPreorder(cmp) && SortedBy(s, cmp)
    ensures SortedBy(Insert(s, x, cmp), cmp)
  {
    if s != [] {
      var tail := s[1..];
      assert SortedBy(tail, cmp) by {
        forall i, j | 0 <= i < j < |tail| ensures cmp(tail[i], tail[j]) <= 0 {
          assert tail[i] == s[i + 1] && tail[j] == s[j + 1];
        }
      }
      if cmp(s[0], x) <= 0 {
        InsertKeepsSorted(tail, x, cmp);
        assert forall j :: 0 <= j < |tail| ==> cmp(s[0], tail[j]) <= 0 by {
          forall j | 0 <= j < |tail| ensures cmp(s[0], tail[j]) <= 0 {
            assert tail[j] == s[j + 1];
          }
        }
        InsertLowerBound(tail, x, cmp, s[0]);
        ConsKeepsSorted(s[0], Insert(tail, x, cmp), cmp);
      } else {
        assert cmp(x, s[0]) <= 0;
        forall j | 0 <= j < |s| ensures cmp(x, s[j]) <= 0 {
          if j > 0 {
            assert cmp(s[0], s[j]) <= 0;
          }
        }
        ConsKeepsSorted(x, s, cmp);
      }
    }
  }

  // ---------------------------------------------------------------------
  // reverse (corrected): the reversal the PHP code meant to store
  // ---------------------------------------------------------------------

  /** `array_reverse` on a list. */
  function Reversed<A>(s: seq<Value<A>>): (r: seq<Value<A>>)
    ensures |r| == |s|
  {
    if s == [] then [] else Reversed(s[1..]) + [s[0]]
  }

  lemma {:induction false} ReversedAt<A>(s: seq<Value<A>>, k: nat)
    requires k < |s|
    ensures |Reversed(s)| == |s| && Reversed(s)[k] == s[|s| - 1 - k]
  {
    if |s| > 1 {
      ReversedAt(s[1..], if k < |s| - 1 then k else 0);
    }
  }

  /** Reversing twice gives the list back. */
  lemma ReversedTwice<A>(s: seq<Value<A>>)
    ensures Reversed(Reversed(s)) == s
  {
    var r := Reversed(s);
    if s != [] { ReversedAt(s, 0); }
    forall k | 0 <= k < |s| ensures Reversed(r)[k] == s[k] {
      ReversedAt(s, |s| - 1 - k);
      ReversedAt(r, k);
    }
  }

  // ---------------------------------------------------------------------
  // slice: bound normalisation
  // ---------------------------------------------------------------------

  /** `$start`: a negative begin counts from the end. */
  function SliceStart(length: int, begin: int): int
  {
    if begin >= 0 then begin else length + begin
  }

  /** `$upTo`: an absent end is the length, a negative one counts from the end. */
  function SliceUpTo(length: int, end: Option<int>): int
  {
    match end
    case None => length
    case Some(e) => if e < 0 then length + e else e
  }

  /** Every read `$this->array[$start + $i]` of slice's loop hits an existing index. */
  predicate SliceReadsInRange(length: int, begin: int, end: Option<int>)
  {
    var start, upTo := SliceStart(length, begin), SliceUpTo(length, end);
    upTo <= start || (0 <= start && upTo <= length)
  }

  // ---------------------------------------------------------------------
  // The wrapper
  // ---------------------------------------------------------------------

  class JSArray<A(==,!new)> {
    var elements: seq<Value<A>>

    constructor (elements: seq<Value<A>>)
      ensures this.elements == elements
    {
      this.elements := elements;
    }

    function GetResult(): seq<Value<A>>
      reads this
    {
      elements
    }

    function GetLength(): nat
      reads this
    {
      |elements|
    }

    function IsEmpty(): (r: bool)
      reads this
      ensures r <==> elements == []
    {
      GetLength() == 0
    }

    /**
     * A negative index counts from the end. An index still out of range
     * reads an undefined key, which PHP evaluates to `null` (`None`).
     */
    function At(index: int): (r: Option<Value<A>>)
      reads this
      ensures 0 <= index < |elements| ==> r == Some(elements[index])
      ensures -|elements| <= index < 0 ==> r == Some(elements[|elements| + index])
      ensures r == None <==> index < -|elements| || |elements| <= index
    {
      var key := if index < 0 then GetLength() + index else index;
      if 0 <= key < |elements| then Some(elements[key]) else None
    }

    method Map(callback: Callback<A, Value<A>>) returns (r: JSArray<A>)
      ensures fresh(r)
      ensures |r.elements| == |elements|
      ensures forall i :: 0 <= i < |elements| ==> r.elements[i] == callback(elements[i], i, elements)
    {
      var newArray: seq<Value<A>> := [];
      var index := 0;
      while index < |elements|
        invariant 0 <= index <= |elements|
        invariant |newArray| == index
        invariant forall i :: 0 <= i < index ==> newArray[i] == callback(elements[i], i, elements)
      {
        newArray := newArray + [callback(elements[index], index, elements)];
        index := index + 1;
      }
      r := new JSArray(newArray);
    }

    method Filter(callback: Callback<A, bool>) returns (r: JSArray<A>)
      ensures fresh(r)
      ensures r.elements == Kept(elements, callback, |elements|)
    {
      var newArray: seq<Value<A>> := [];
      var index := 0;
      while index < |elements|
        invariant 0 <= index <= |elements|
        invariant newArray == Kept(elements, callback, index)
      {
        if callback(elements[index], index, elements) {
          newArray := newArray + [elements[index]];
        }
        index := index + 1;
      }
      r := new JSArray(newArray);
    }

    /** JavaScript's `some`: stops at the first accepted element. */
    method Any(callback: Callback<A, bool>) returns (result: bool)
      ensures result <==> exists i :: 0 <= i < |elements| && callback(elements[i], i, elements)
    {
      result := false;
      var index := 0;
      while index < |elements|
        invariant 0 <= index <= |elements|
        invariant forall j :: 0 <= j < index ==> !callback(elements[j], j, elements)
      {
        if callback(elements[index], index, elements) {
          result := true;
          break;
        }
        index := index + 1;
      }
    }

    /** JavaScript's `every`: stops at the first rejected element. */
    method Every(callback: Callback<A, bool>) returns (result: bool)
      ensures result <==> forall i :: 0 <= i < |elements| ==> callback(elements[i], i, elements)
    {
      result := true;
      var index := 0;
      while index < |elements|
        invariant 0 <= index <= |elements|
        invariant forall j :: 0 <= j < index ==> callback(elements[j], j, elements)
      {
        if !callback(elements[index], index, elements) {
          result := false;
          break;
        }
        index := index + 1;
      }
    }

    method Find(callback: Callback<A, bool>) returns (result: Option<Value<A>>)
      ensures result == None <==> forall i :: 0 <= i < |elements| ==> !callback(elements[i], i, elements)
      ensures result != None ==>
                exists i :: 0 <= i < |elements| && callback(elements[i], i, elements) && result == Some(elements[i]) &&
                            forall j :: 0 <= j < i ==> !callback(elements[j], j, elements)
    {
      result := None;
      var index := 0;
      while index < |elements|
        invariant 0 <= index <= |elements|
        invariant forall j :: 0 <= j < index ==> !callback(elements[j], j, elements)
      {
        if callback(elements[index], index, elements) {
          result := Some(elements[index]);
          break;
        }
        index := index + 1;
      }
    }

    method FindIndex(callback: Callback<A, bool>) returns (result: int)
      ensures -1 <= result < |elements|
      ensures result == -1 <==> forall i :: 0 <= i < |elements| ==> !callback(elements[i], i, elements)
      ensures result != -1 ==>
                callback(elements[result], result, elements) && forall j :: 0 <= j < result ==> !callback(elements[j], j, elements)
    {
      result := -1;
      var index := 0;
      while index < |elements|
        invariant 0 <= index <= |elements|
        invariant forall j :: 0 <= j < index ==> !callback(elements[j], j, elements)
      {
        if callback(elements[index], index, elements) {
          result := index;
          break;
        }
        index := index + 1;
      }
    }

    /** `array_search` with PHP's loose `==`, here the parameter `looseEquals`; `false` becomes -1. */
    function IndexOf(value: Value<A>, looseEquals: (Value<A>, Value<A>) -> bool): (r: int)
      reads this
      ensures -1 <= r < |elements|
      ensures r == -1 <==> forall i :: 0 <= i < |elements| ==> !looseEquals(elements[i], value)
      ensures r != -1 ==> looseEquals(elements[r], value) && forall j :: 0 <= j < r ==> !looseEquals(elements[j], value)
    {
      ArraySearch(elements, value, looseEquals, 0)
    }

    method Flat(depth: int) returns (r: JSArray<A>)
      ensures fresh(r)
      ensures r.elements == Iter(depth, elements)
    {
      r := new JSArray(Iter(depth, elements));
    }

    /**
     * Compares with `===` at the indices `fromIndex .. length - 2`: the loop
     * bound stops one short of the last element. A negative index reads an
     * undefined key, i.e. `null`, which never equals a value.
     */
    method Includes(value: Value<A>, fromIndex: int) returns (result: bool)
      ensures result <==> exists i :: fromIndex <= i < |elements| - 1 && 0 <= i && elements[i] == value
    {
      result := false;
      var i := fromIndex;
      while i < |elements| - 1
        invariant fromIndex <= i
        invariant i <= |elements| - 1 || i == fromIndex
        invariant forall j :: fromIndex <= j < i && 0 <= j ==> elements[j] != value
        decreases |elements| - i
      {
        if 0 <= i && elements[i] == value {
          result := true;
          break;
        }
        i := i + 1;
      }
    }

    /** `includes` with the loop bound corrected to `length`: the last element is compared too. */
    method IncludesThroughLast(value: Value<A>, fromIndex: int) returns (result: bool)
      ensures result <==> exists i :: fromIndex <= i < |elements| && 0 <= i && elements[i] == value
    {
      result := false;
      var i := fromIndex;
      while i < |elements|
        invariant fromIndex <= i
        invariant i <= |elements| || i == fromIndex
        invariant forall j :: fromIndex <= j < i && 0 <= j ==> elements[j] != value
        decreases |elements| - i
      {
        if 0 <= i && elements[i] == value {
          result := true;
          break;
        }
        i := i + 1;
      }
    }

    method Clone() returns (r: JSArray<A>)
      ensures fresh(r)
      ensures r.elements == elements
    {
      r := new JSArray(elements);
    }

    /** `array_push($this->array, $values)`: the argument list is pushed as ONE nested element. */
    method Push(values: seq<Value<A>>) returns (length: int)
      modifies this
      ensures elements == old(elements) + [List(values)]
      ensures length == |old(elements)| + 1 == |elements|
    {
      elements := elements + [List(values)];
      length := GetLength();
    }

    method Pop() returns (result: Option<Value<A>>)
      modifies this
      ensures old(elements) == [] ==> result == None && elements == []
      ensures old(elements) != [] ==>
                result == Some(old(elements)[|old(elements)| - 1]) && elements == old(elements)[..|old(elements)| - 1]
    {
      if IsEmpty() {
        return None;
      }
      result := Some(elements[|elements| - 1]);
      elements := elements[..|elements| - 1];
    }

    method Shift() returns (result: Option<Value<A>>)
      modifies this
      ensures old(elements) == [] ==> result == None && elements == []
      ensures old(elements) != [] ==> result == Some(old(elements)[0]) && elements == old(elements)[1..]
    {
      if IsEmpty() {
        return None;
      }
      result := Some(elements[0]);
      elements := elements[1..];
    }

    /** `array_unshift($this->array, $values)`: the argument list is prepended as ONE nested element. */
    method Unshift(values: seq<Value<A>>) returns (length: int)
      modifies this
      ensures elements == [List(values)] + old(elements)
      ensures length == |old(elements)| + 1 == |elements|
    {
      elements := [List(values)] + elements;
      length := GetLength();
    }

    /**
     * Drops the first element of a copy when `initial` is `null` (it seeds
     * the accumulator), folds the callback over the copy, then returns a new
     * JSArray of the copy: the accumulated value is discarded.
     */
    method Reduce(callback: Reducer<A>, initial: Option<Value<A>>) returns (r: JSArray<A>)
      ensures fresh(r)
      ensures r.elements == if initial == None && elements != [] then elements[1..] else elements
    {
      var newArray := elements;
      var accumulator := initial;
      if accumulator == None {
        // array_shift: the first element, or null on an empty list
        if newArray != [] {
          accumulator := Some(newArray[0]);
          newArray := newArray[1..];
        }
      }
      var index := 0;
      while index < |newArray|
        invariant 0 <= index <= |newArray|
      {
        accumulator := callback(accumulator, newArray[index], index, newArray);
        index := index + 1;
      }
      r := new JSArray(newArray);
    }

    /**
     * Returns a plain list, not a JSArray. Both branches of the PHP code's
     * `$size > 0` test run the same loop, so one loop stands for both.
     */
    method Slice(begin: int, end: Option<int>) returns (cloned: seq<Value<A>>)
      requires SliceReadsInRange(|elements|, begin, end)
      ensures var start, upTo := SliceStart(|elements|, begin), SliceUpTo(|elements|, end);
              |cloned| == (if upTo > start then upTo - start else 0) &&
              (upTo > start ==> cloned == elements[start..upTo])
    {
      var length := GetLength();
      var start := SliceStart(length, begin);
      var upTo := SliceUpTo(length, end);
      var size := upTo - start;
      cloned := [];
      var i := 0;
      while i < size
        invariant 0 <= i && (size > 0 ==> i <= size) && (size <= 0 ==> i == 0)
        invariant |cloned| == i
        invariant forall k :: 0 <= k < i ==> cloned[k] == elements[start + k]
      {
        cloned := cloned + [elements[start + i]];
        i := i + 1;
      }
    }

    /** `usort` with the comparator, then `$this`. */
    method Sort(cmp: Comparator<A>) returns (r: JSArray<A>)
      requires TotalPreorder(cmp)
      modifies this
      ensures r == this
      ensures multiset(elements) == multiset(old(elements))
      ensures SortedBy(elements, cmp)
    {
      var input := elements;
      var sorted: seq<Value<A>> := [];
      var i := 0;
      while i < |input|
        invariant 0 <= i <= |input|
        invariant SortedBy(sorted, cmp)
        invariant multiset(sorted) == multiset(input[..i])
      {
        InsertKeepsSorted(sorted, input[i], cmp);
        assert input[..i + 1] == input[..i] + [input[i]];
        sorted := Insert(sorted, input[i], cmp);
        i := i + 1;
      }
      assert input[..i] == input;
      elements := sorted;
      r := this;
    }

    /** `array_merge($this->array, $values)`: each argument becomes one element of a new JSArray. */
    method Concat(values: seq<Value<A>>) returns (r: JSArray<A>)
      ensures fresh(r)
      ensures r.elements == elements + values
    {
      r := new JSArray(elements + values);
    }

    /** The result of `array_reverse` is discarded: `$this` is returned with its list as it was. */
    method Reverse() returns (r: JSArray<A>)
      ensures r == this
      ensures elements == old(elements)
    {
      // array_reverse($this->array) builds a reversed copy that nothing keeps
      r := this;
    }

    /** `reverse` as documented ("Mutate original array"): the list is replaced by its reversal. */
    method ReverseInPlace() returns (r: JSArray<A>)
      modifies this
      ensures r == this
      ensures elements == Reversed(old(elements))
    {
      elements := Reversed(elements);
      r := this;
    }
  }

  /** `includes` misses a value that occurs only at the last index; the corrected loop finds it. */
  method IncludesMissesLastElement()
  {
    var a := new JSArray<int>([Leaf(1), Leaf(2), Leaf(3)]);
    var found := a.Includes(Leaf(3), 0);
    assert a.elements[1] != Leaf(3) && a.elements[0] != Leaf(3);
    assert !found;
    var foundFixed := a.IncludesThroughLast(Leaf(3), 0);
    assert a.elements[2] == Leaf(3);
    assert foundFixed;
  }

  /** `reverse` leaves `[1, 2]` as it is; the corrected method stores `[2, 1]`. */
  method ReverseKeepsOrder()
  {
    var a := new JSArray<int>([Leaf(1), Leaf(2)]);
    var same := a.Reverse();
    assert same.elements == [Leaf(1), Leaf(2)];
    var fixed := a.ReverseInPlace();
    assert fixed.elements == [Leaf(2), Leaf(1)];
  }
}
