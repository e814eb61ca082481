/**
 * JSString: JavaScript's String methods on an immutable text indexed by code
 * point. A text is a `seq<char>`, one `char` per code point. The wrapper's
 * field is set once by its constructor; `slice` and `repeat` return a new
 * wrapper and the other methods return strings, arrays or booleans, so the
 * model works on the text itself.
 */
module JSStrings {
  import opened Wrappers

  /**
   * The exceptions the PHP code throws: the plain `Exception`s of `split` and
   * `repeat`, modelled by their message, and the `TypeError` PHP 8 raises when a built-in's string parameter
   * receives an object that cannot be converted to a string.
   */
  datatype Error = InvalidArgument(message: string) | TypeError(callee: string)

  const NegativeLimit: string := "The second argument $limit must be no negative"
  const NegativeCount: string := "Repeat count must be non-negative"

  /** `mb_strlen`. */
  function GetLength(text: seq<char>): nat
  {
    |text|
  }

  // ---------------------------------------------------------------------
  // at
  // ---------------------------------------------------------------------

  /** `mb_substr($text, $position, 1)`: a negative position counts from the end; past the end gives `''`. */
  function MbSubstrOne(text: seq<char>, position: int): (r: seq<char>)
    requires -|text| <= position
  {
    var k := if position < 0 then |text| + position else position;
    if k < |text| then [text[k]] else []
  }

  /** PHP's `empty()` on a string: true for `''` and also for `'0'`. */
  predicate PhpEmpty(s: seq<char>)
  {
    s == [] || s == "0"
  }

  /** The code point a position selects, counting a negative position from the end. */
  function CodePointAt(text: seq<char>, position: int): char
    requires -|text| <= position < |text|
  {
    if position < 0 then text[|text| + position] else text[position]
  }

  /**
   * `at`: the one-code-point string at `position`, or `null` when the
   * position is past the end OR the code point is `'0'` (`empty('0')`).
   */
  function At(text: seq<char>, position: int): (r: Option<seq<char>>)
    requires -|text| <= position
    ensures r == None <==> |text| <= position || CodePointAt(text, position) == '0'
    ensures r != None ==> r == Some([CodePointAt(text, position)])
  {
    var result := MbSubstrOne(text, position);
    if PhpEmpty(result) then None else Some(result)
  }

  /** `at` with the test written `$result === ''`, as evidently intended: `null` only past the end. */
  function AtCodePoint(text: seq<char>, position: int): (r: Option<seq<char>>)
    requires -|text| <= position
    ensures r == None <==> |text| <= position
    ensures r != None ==> r == Some([CodePointAt(text, position)])
  {
    var result := MbSubstrOne(text, position);
    if result == [] then None else Some(result)
  }

  /** `"10"->at(1)` is `null` although the text has a code point `'0'` there. */
  lemma AtMissesZero()
    ensures At("10", 1) == None
    ensures AtCodePoint("10", 1) == Some("0")
  {
    assert MbSubstrOne("10", 1) == "0";
  }

  /** The two readings of `at` differ exactly on the code point `'0'`. */
  lemma AtDiffersOnlyOnZero(text: seq<char>, position: int)
    requires -|text| <= position
    ensures At(text, position) != AtCodePoint(text, position) <==>
              position < |text| && CodePointAt(text, position) == '0'
  {
  }

  // ---------------------------------------------------------------------
  // slice
  // ---------------------------------------------------------------------

  /** PHP string conversion of `string|null`: `null` becomes `''`. */
  function Str(s: Option<seq<char>>): seq<char>
  {
    match s
    case None => []
    case Some(p) => p
  }

  /** `$indexStart` after normalisation. */
  function SliceFrom(length: int, indexStart: int): int
  {
    if indexStart < 0 then length + indexStart else indexStart
  }

  /** `$length`: the end, or the text length when it is omitted; a negative end counts from the end. */
  function SliceTo(length: int, indexEnd: Option<int>): int
  {
    match indexEnd
    case None => length
    case Some(e) => if e < 0 then length + e else e
  }

  /** Every `at($i)` slice's loop makes stays at or above `-length` (the range below is out of this model). */
  predicate SliceDefined(length: int, indexStart: int, indexEnd: Option<int>)
  {
    var lo, hi := SliceFrom(length, indexStart), SliceTo(length, indexEnd);
    -length <= lo || hi <= lo
  }

  /** The concatenation of `at(i)` for `lo <= i < hi`, `null` contributing nothing. */
  function Pieces(text: seq<char>, lo: int, hi: int): seq<char>
    requires -|text| <= lo || hi <= lo
    decreases hi - lo
  {
    if hi <= lo then [] else Pieces(text, lo, hi - 1) + Str(At(text, hi - 1))
  }

  /** What `slice($indexStart, $indexEnd)` wraps in its new JSString. */
  function SliceText(text: seq<char>, indexStart: int, indexEnd: Option<int>): seq<char>
    requires SliceDefined(|text|, indexStart, indexEnd)
  {
    Pieces(text, SliceFrom(|text|, indexStart), SliceTo(|text|, indexEnd))
  }

  /** `slice`: the loop appending `at($i)` to a local string. */
  method Slice(text: seq<char>, indexStart: int, indexEnd: Option<int>) returns (result: seq<char>)
    requires SliceDefined(|text|, indexStart, indexEnd)
    ensures result == SliceText(text, indexStart, indexEnd)
  {
    var strLength := GetLength(text);
    var length := if indexEnd == None then strLength else indexEnd.value;
    var start := indexStart;
    if start < 0 {
      start := strLength + start;
    }
    if indexEnd != None && indexEnd.value < 0 {
      length := strLength + indexEnd.value;
    }
    assert start == SliceFrom(strLength, indexStart) && length == SliceTo(strLength, indexEnd);
    result := [];
    var i := start;
    while i < length
      invariant start <= i && (i <= length || i == start)
      invariant result == Pieces(text, start, i)
      decreases length - i
    {
      assert Pieces(text, start, i + 1) == Pieces(text, start, i) + Str(At(text, i));
      result := result + Str(At(text, i));
      i := i + 1;
    }
  }

  /** The text with every `'0'` removed. */
  function DropZeros(s: seq<char>): (r: seq<char>)
  {
    if s == [] then []
    else DropZeros(s[..|s| - 1]) + (if s[|s| - 1] == '0' then [] else [s[|s| - 1]])
  }

  lemma {:induction false} DropZerosOfZeroFree(s: seq<char>)
    requires '0' !in s
    ensures DropZeros(s) == s
  {
    if s != [] {
      assert '0' !in s[..|s| - 1];
      DropZerosOfZeroFree(s[..|s| - 1]);
    }
  }

  /**
   * A slice has at most one code point per position of its range, and never
   * a `'0'`.
   */
  lemma {:induction false} PiecesBounds(text: seq<char>, lo: int, hi: int)
    requires -|text| <= lo || hi <= lo
    ensures |Pieces(text, lo, hi)| <= (if hi > lo then hi - lo else 0)
    ensures '0' !in Pieces(text, lo, hi)
    decreases hi - lo
  {
    if lo < hi {
      PiecesBounds(text, lo, hi - 1);
    }
  }

  /** What `at(i)` contributes to a slice at a position inside the text. */
  lemma PieceInText(text: seq<char>, i: nat)
    requires i < |text|
    ensures Str(At(text, i)) == if text[i] == '0' then [] else [text[i]]
  {
  }

  /** Within the text, a slice is the code points of the range with the `'0'`s removed. */
  lemma {:induction false} PiecesInText(text: seq<char>, lo: int, hi: int)
    requires 0 <= lo <= hi <= |text|
    ensures Pieces(text, lo, hi) == DropZeros(text[lo..hi])
    decreases hi - lo
  {
    if lo < hi {
      var s := text[lo..hi];
      PiecesInText(text, lo, hi - 1);
      PieceInText(text, hi - 1);
      assert s[..|s| - 1] == text[lo..hi - 1];
      assert s[|s| - 1] == text[hi - 1];
      assert DropZeros(s) == DropZeros(s[..|s| - 1]) + (if s[|s| - 1] == '0' then [] else [s[|s| - 1]]);
    } else {
      assert text[lo..hi] == [];
    }
  }

  /** Positions past the end select nothing. */
  lemma {:induction false} PiecesPastEnd(text: seq<char>, lo: int, hi: int)
    requires 0 <= lo && |text| <= hi
    ensures Pieces(text, lo, hi) == if lo <= |text| then DropZeros(text[lo..]) else []
    decreases hi
  {
    if hi > |text| && lo < hi {
      PiecesPastEnd(text, lo, hi - 1);
    } else if lo <= |text| {
      PiecesInText(text, lo, |text|);
      assert text[lo..|text|] == text[lo..];
    }
  }

  /** Negative positions select code points counted from the end. */
  lemma {:induction false} PiecesBeforeStart(text: seq<char>, lo: int, hi: int)
    requires -|text| <= lo <= hi <= 0
    ensures Pieces(text, lo, hi) == DropZeros(text[|text| + lo..|text| + hi])
    decreases hi - lo
  {
    var n := |text|;
    if lo < hi {
      PiecesBeforeStart(text, lo, hi - 1);
      var s := text[n + lo..n + hi];
      assert s[..|s| - 1] == text[n + lo..n + hi - 1];
      assert s[|s| - 1] == text[n + hi - 1] == CodePointAt(text, hi - 1);
    } else {
      assert text[n + lo..n + hi] == [];
    }
  }

  /**
   * A range that starts below 0 and ends at or after 0 first wraps to the end
   * of the text, then continues from its beginning.
   */
  lemma {:induction false} PiecesWrap(text: seq<char>, lo: int, hi: int)
    requires -|text| <= lo < 0 <= hi
    ensures Pieces(text, lo, hi) == DropZeros(text[|text| + lo..]) + Pieces(text, 0, hi)
    decreases hi
  {
    if hi == 0 {
      PiecesBeforeStart(text, lo, 0);
      assert text[|text| + lo..|text| + 0] == text[|text| + lo..];
    } else {
      PiecesWrap(text, lo, hi - 1);
    }
  }

  /**
   * `slice` on a range inside the text returns that range minus its `'0'`s;
   * an empty or reversed range gives the empty text.
   */
  lemma SliceWithinText(text: seq<char>, indexStart: int, indexEnd: int)
    requires 0 <= SliceFrom(|text|, indexStart) <= SliceTo(|text|, Some(indexEnd)) <= |text|
    ensures SliceText(text, indexStart, Some(indexEnd)) ==
              DropZeros(text[SliceFrom(|text|, indexStart)..SliceTo(|text|, Some(indexEnd))])
  {
    PiecesInText(text, SliceFrom(|text|, indexStart), SliceTo(|text|, Some(indexEnd)));
  }

  // ---------------------------------------------------------------------
  // startsWith, endsWith
  // ---------------------------------------------------------------------

  /**
   * A value handed to a string parameter of a PHP built-in: a string, or the
   * `JSString` object that `slice` returns.
   */
  datatype PhpValue = PhpString(s: seq<char>) | JSStringObject(wrapped: seq<char>)

  /**
   * What a string parameter of the built-in `callee` receives: a string as it
   * is; a `JSString` object, whose class has no `__toString`, is a `TypeError`.
   */
  function StringArg(callee: string, v: PhpValue): (r: Result<seq<char>, Error>)
    ensures r.Success? <==> v.PhpString?
    ensures r.Failure? ==> r.error == TypeError(callee)
  {
    match v
    case PhpString(s) => Success(s)
    case JSStringObject(_) => Failure(TypeError(callee))
  }

  /** Applies `f` to the text a string parameter received; a `TypeError` passes through. */
  function MapText(arg: Result<seq<char>, Error>, f: seq<char> -> bool): Result<bool, Error>
  {
    if arg.Success? then Success(f(arg.value)) else Failure(arg.error)
  }

  /** `mb_substr($s, 0, $n)`: the first `n` code points, or all of them. */
  function MbPrefix(s: seq<char>, n: nat): seq<char>
  {
    if n <= |s| then s[..n] else s
  }

  /**
   * `startsWith` as written: `$position` is an `int`, never `null`, so
   * `slice($position)` always runs, and the `JSString` object it returns is
   * what reaches `mb_substr`: every call throws a `TypeError`.
   */
  function StartsWith(text: seq<char>, searchString: seq<char>, position: int): (r: Result<bool, Error>)
    requires SliceDefined(|text|, position, None)
    ensures r == Failure(TypeError("mb_substr"))
  {
    var newString := JSStringObject(SliceText(text, position, None));
    MapText(StringArg("mb_substr", newString), s => MbPrefix(s, |searchString|) == searchString)
  }

  /** `startsWith` with the text of `slice(position)` compared, as evidently intended. */
  function StartsWithSliceText(text: seq<char>, searchString: seq<char>, position: int): bool
    requires SliceDefined(|text|, position, None)
  {
    MbPrefix(SliceText(text, position, None), |searchString|) == searchString
  }

  /** The corrected `startsWith` holds iff the search string is a prefix of `slice(position)`. */
  lemma StartsWithIffPrefix(text: seq<char>, searchString: seq<char>, position: int)
    requires SliceDefined(|text|, position, None)
    ensures StartsWithSliceText(text, searchString, position) <==>
              exists rest :: SliceText(text, position, None) == searchString + rest
  {
    var s := SliceText(text, position, None);
    if StartsWithSliceText(text, searchString, position) {
      assert s == searchString + s[|searchString|..];
    }
  }

  /** On a text without `'0'`, the corrected `startsWith` at a position inside the text is the plain prefix test. */
  lemma StartsWithOnZeroFreeText(text: seq<char>, searchString: seq<char>, position: nat)
    requires '0' !in text && position <= |text|
    ensures StartsWithSliceText(text, searchString, position) <==> exists rest :: text[position..] == searchString + rest
  {
    PiecesPastEnd(text, position, |text|);
    assert '0' !in text[position..];
    DropZerosOfZeroFree(text[position..]);
    StartsWithIffPrefix(text, searchString, position);
  }

  /** A search string containing `'0'` never matches the corrected `startsWith`, since the slice has none. */
  lemma StartsWithNeverSeesZero(text: seq<char>, searchString: seq<char>, position: int)
    requires SliceDefined(|text|, position, None)
    requires '0' in searchString
    ensures !StartsWithSliceText(text, searchString, position)
  {
    PiecesBounds(text, SliceFrom(|text|, position), SliceTo(|text|, None));
    var s := SliceText(text, position, None);
    var p := MbPrefix(s, |searchString|);
    if |searchString| <= |s| {
      forall i | 0 <= i < |p| ensures p[i] != '0' {
        assert p[i] == s[i];
      }
    }
    assert '0' !in p;
  }

  /** `startsWith("a")` on `"ab"` throws as written, where the corrected member answers `true`. */
  lemma StartsWithThrows()
    ensures StartsWith("ab", "a", 0).Failure?
    ensures StartsWithSliceText("ab", "a", 0)
  {
    StartsWithOnZeroFreeText("ab", "a", 0);
    assert "ab"[0..] == "a" + "b";
  }

  /**
   * The comparison of `endsWith`: the last `|searchString|` code points of
   * `newString`. When the search string is longer, `mb_substr` with the
   * negative start yields fewer code points than the search string has, so
   * the comparison fails.
   */
  predicate EndsWithText(newString: seq<char>, searchString: seq<char>)
  {
    var start := |newString| - |searchString|;
    start >= 0 && newString[start..] == searchString
  }

  /**
   * `endsWith` as written: without an end position it compares the whole
   * text; with one, the `JSString` object `slice(0, endPosition)` returns is
   * what reaches `mb_strlen`, which throws a `TypeError`.
   */
  function EndsWith(text: seq<char>, searchString: seq<char>, endPosition: Option<int>): (r: Result<bool, Error>)
    ensures endPosition == None ==> r == Success(EndsWithSliceText(text, searchString, None))
    ensures endPosition != None ==> r == Failure(TypeError("mb_strlen"))
  {
    var newString := if endPosition == None then PhpString(text) else JSStringObject(SliceText(text, 0, endPosition));
    MapText(StringArg("mb_strlen", newString), s => EndsWithText(s, searchString))
  }

  /** `endsWith` with the text of `slice(0, endPosition)` compared, as evidently intended. */
  function EndsWithSliceText(text: seq<char>, searchString: seq<char>, endPosition: Option<int>): bool
  {
    EndsWithText(if endPosition == None then text else SliceText(text, 0, endPosition), searchString)
  }

  /** Without an end position, `endsWith` holds iff the search string is a suffix of the whole text. */
  lemma EndsWithIffSuffix(text: seq<char>, searchString: seq<char>)
    ensures EndsWith(text, searchString, None) == Success(exists init :: text == init + searchString)
  {
    if EndsWithSliceText(text, searchString, None) {
      assert text == text[..|text| - |searchString|] + searchString;
    }
  }

  /** With an end position inside the text, the corrected `endsWith` takes the suffix of the slice, whose `'0'`s are gone. */
  lemma EndsWithBefore(text: seq<char>, searchString: seq<char>, endPosition: nat)
    requires endPosition <= |text|
    ensures EndsWithSliceText(text, searchString, Some(endPosition)) <==>
              exists init :: DropZeros(text[..endPosition]) == init + searchString
  {
    PiecesInText(text, 0, endPosition);
    assert text[0..endPosition] == text[..endPosition];
    var s := DropZeros(text[..endPosition]);
    if EndsWithSliceText(text, searchString, Some(endPosition)) {
      assert s == s[..|s| - |searchString|] + searchString;
    }
  }

  /** `endsWith("a", 1)` on `"ab"` throws as written, where the corrected member answers `true`. */
  lemma EndsWithThrows()
    ensures EndsWith("ab", "a", Some(1)).Failure?
    ensures EndsWithSliceText("ab", "a", Some(1))
  {
    EndsWithBefore("ab", "a", 1);
    assert "ab"[..1] == "a";
    DropZerosOfZeroFree("a");
    assert DropZeros("ab"[..1]) == [] + "a";
  }

  // ---------------------------------------------------------------------
  // includes
  // ---------------------------------------------------------------------

  /** `needle` occurs in `haystack` at code point `i`. */
  predicate OccursAt(haystack: seq<char>, needle: seq<char>, i: int)
  {
    0 <= i && i + |needle| <= |haystack| && haystack[i..i + |needle|] == needle
  }

  /** `mb_strpos($haystack, $needle)` from `lo`: the first occurrence, or `false` (`None`). */
  function MbStrpos(haystack: seq<char>, needle: seq<char>, lo: nat): (r: Option<nat>)
    ensures r != None ==> lo <= r.value && OccursAt(haystack, needle, r.value) &&
                          forall j :: lo <= j < r.value ==> !OccursAt(haystack, needle, j)
    ensures r == None <==> forall j :: lo <= j ==> !OccursAt(haystack, needle, j)
    decreases |haystack| - lo
  {
    if lo + |needle| > |haystack| then None
    else if haystack[lo..lo + |needle|] == needle then
      assert OccursAt(haystack, needle, lo);
      Some(lo)
    else MbStrpos(haystack, needle, lo + 1)
  }

  /**
   * `includes` as written: with position 0 it searches the whole text; with
   * any other position the `JSString` object `slice(position)` returns is
   * what reaches `mb_strpos`, which throws a `TypeError`.
   */
  function Includes(text: seq<char>, searchString: seq<char>, position: int): (r: Result<bool, Error>)
    requires position == 0 || SliceDefined(|text|, position, None)
    ensures position == 0 ==> r.Success? && (r.value <==> exists i :: OccursAt(text, searchString, i))
    ensures position != 0 ==> r == Failure(TypeError("mb_strpos"))
  {
    var haystack := if position != 0 then JSStringObject(SliceText(text, position, None)) else PhpString(text);
    MapText(StringArg("mb_strpos", haystack), s => MbStrpos(s, searchString, 0) != None)
  }

  /** `includes` with the text of `slice(position)` searched, as evidently intended. */
  function IncludesSliceText(text: seq<char>, searchString: seq<char>, position: int): (r: bool)
    requires position == 0 || SliceDefined(|text|, position, None)
    ensures position == 0 ==> Includes(text, searchString, position) == Success(r)
    ensures position != 0 ==> (r <==> exists i :: OccursAt(SliceText(text, position, None), searchString, i))
  {
    var haystack := if position != 0 then SliceText(text, position, None) else text;
    MbStrpos(haystack, searchString, 0) != None
  }

  /** A nonzero position goes through `slice`, so the corrected `includes` never finds `'0'` after it. */
  lemma IncludesNeverSeesZero(text: seq<char>, position: int)
    requires position != 0 && SliceDefined(|text|, position, None)
    ensures !IncludesSliceText(text, "0", position)
  {
    var s := SliceText(text, position, None);
    PiecesBounds(text, SliceFrom(|text|, position), SliceTo(|text|, None));
    forall i ensures !OccursAt(s, "0", i) {
      if 0 <= i && i + 1 <= |s| {
        assert s[i..i + 1] == [s[i]];
        assert s[i] in s;
      }
    }
  }

  /** `includes("b", 1)` on `"ab"` throws as written, where the corrected member answers `true`. */
  lemma IncludesThrows()
    ensures Includes("ab", "b", 1).Failure?
    ensures IncludesSliceText("ab", "b", 1)
  {
    PiecesPastEnd("ab", 1, 2);
    assert "ab"[1..] == "b";
    DropZerosOfZeroFree("b");
    assert OccursAt(SliceText("ab", 1, None), "b", 0);
  }

  // ---------------------------------------------------------------------
  // split
  // ---------------------------------------------------------------------

  /** `splitByChars($limit)`: `at($i)` for every `$i` below the limit. */
  method SplitByChars(text: seq<char>, limit: int) returns (result: seq<Option<seq<char>>>)
    ensures |result| == if limit > 0 then limit else 0
    ensures forall i :: 0 <= i < |result| ==> result[i] == At(text, i)
  {
    result := [];
    var i := 0;
    while i < limit
      invariant 0 <= i && (limit > 0 ==> i <= limit) && (limit <= 0 ==> i == 0)
      invariant |result| == i
      invariant forall k :: 0 <= k < i ==> result[k] == At(text, k)
    {
      result := result + [At(text, i)];
      i := i + 1;
    }
  }

  /** `array_slice($pieces, 0, $limit)` for a non-negative limit. */
  function Take<T>(pieces: seq<T>, limit: nat): (r: seq<T>)
    ensures |r| == (if limit <= |pieces| then limit else |pieces|)
    ensures r == pieces[..|r|]
  {
    if limit <= |pieces| then pieces[..limit] else pieces
  }

  /** Every piece of `mb_split` as a PHP string. */
  function Strings(pieces: seq<seq<char>>): (r: seq<Option<seq<char>>>)
    ensures |r| == |pieces| && forall i :: 0 <= i < |pieces| ==> r[i] == Some(pieces[i])
  {
    seq(|pieces|, i requires 0 <= i < |pieces| => Some(pieces[i]))
  }

  /**
   * `split`. The regular-expression engine of `mb_split` is the parameter
   * `mbSplit(pattern, text)`. The checks come in the PHP code's order: a limit
   * of 0, then a missing separator, then a negative limit.
   */
  method Split(text: seq<char>, separator: Option<seq<char>>, limit: Option<int>,
               mbSplit: (seq<char>, seq<char>) -> seq<seq<char>>)
    returns (result: Result<seq<Option<seq<char>>>, Error>)
    ensures limit == Some(0) ==> result == Success([])
    ensures limit != Some(0) && separator == None ==> result == Success([Some(text)])
    ensures limit != Some(0) && separator != None && limit != None && limit.value < 0 ==>
              result == Failure(InvalidArgument(NegativeLimit))
    ensures separator == Some([]) && limit != None && limit.value > 0 ==>
              result.Success? && |result.value| == limit.value &&
              forall i :: 0 <= i < limit.value ==> result.value[i] == At(text, i)
    ensures separator == Some([]) && limit == None ==>
              result.Success? && |result.value| == |text| &&
              forall i :: 0 <= i < |text| ==>
                result.value[i] == (if text[i] == '0' then None else Some([text[i]]))
    ensures separator != None && separator != Some([]) && limit != None && limit.value > 0 ==>
              result == Success(Strings(Take(mbSplit(separator.value, text), limit.value)))
    ensures separator != None && separator != Some([]) && limit == None ==>
              result == Success(Strings(Take(mbSplit(separator.value, text), |text|)))
  {
    if limit == Some(0) {
      return Success([]);
    }
    var max := if limit == None then GetLength(text) else limit.value;
    if separator == None {
      return Success([Some(text)]);
    }
    if max < 0 {
      return Failure(InvalidArgument(NegativeLimit));
    }
    if separator.value == [] {
      var chars := SplitByChars(text, max);
      return Success(chars);
    }
    var pieces := Take(mbSplit(separator.value, text), max);
    return Success(Strings(pieces));
  }

  // ---------------------------------------------------------------------
  // repeat
  // ---------------------------------------------------------------------

  /** `str_repeat`: `count` copies of the text, one after another. */
  function StrRepeat(text: seq<char>, count: nat): (r: seq<char>)
    ensures |r| == count * |text|
  {
    if count == 0 then [] else StrRepeat(text, count - 1) + text
  }

  /** `repeat`: throws for a negative count. */
  function Repeat(text: seq<char>, count: int): (r: Result<seq<char>, Error>)
    ensures r.Failure? <==> count < 0
    ensures r.Failure? ==> r.error == InvalidArgument(NegativeCount)
    ensures r.Success? ==> |r.value| == count * |text|
    ensures count == 0 ==> r == Success([])
  {
    if count < 0 then Failure(InvalidArgument(NegativeCount))
    else Success(StrRepeat(text, count))
  }

  /** Repeating `a + b` times is repeating `a` times followed by repeating `b` times. */
  lemma {:induction false} StrRepeatAdds(text: seq<char>, a: nat, b: nat)
    ensures StrRepeat(text, a + b) == StrRepeat(text, a) + StrRepeat(text, b)
    decreases b
  {
    if b > 0 {
      StrRepeatAdds(text, a, b - 1);
    }
  }

  /** Copy `k` of `count` occupies code points `k * |text|` up to `(k + 1) * |text|`. */
  lemma {:induction false} StrRepeatCopy(text: seq<char>, count: nat, k: nat)
    requires k < count
    ensures (k + 1) * |text| <= count * |text|
    ensures StrRepeat(text, count)[k * |text|..(k + 1) * |text|] == text
  {
    StrRepeatAdds(text, k, 1);
    StrRepeatAdds(text, k + 1, count - k - 1);
    assert StrRepeat(text, 1) == text;
    var before := StrRepeat(text, k);
    var after := StrRepeat(text, count - k - 1);
    assert StrRepeat(text, count) == before + text + after;
    assert |before| == k * |text|;
    assert (k + 1) * |text| == k * |text| + |text|;
  }
}
