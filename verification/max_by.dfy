/**
 * Kotlin's `Iterable.maxByOrNull(selector)` with a `String` key: null for an
 * empty list, otherwise the FIRST element whose key is largest. The standard
 * library scans left to right and replaces the running maximum only when
 * `maxValue < v`, so a later element with an equal key never displaces an
 * earlier one.
 */
module MaxBy {
  import opened Wrappers
  import opened KotlinStrings

  /** `i` is the first position holding a largest key. */
  predicate IsFirstMax<T>(xs: seq<T>, key: T -> string, i: int) {
    && 0 <= i < |xs|
    && (forall j :: 0 <= j < |xs| ==> AtMost(key(xs[j]), key(xs[i])))
    && (forall j :: 0 <= j < i ==> Less(key(xs[j]), key(xs[i])))
  }

  /** One step of the scan: extending the list by one element keeps the first maximum correct. */
  lemma FirstMaxStep<T>(xs: seq<T>, key: T -> string, j: int)
    requires |xs| >= 2
    requires IsFirstMax(xs[..|xs| - 1], key, j)
    ensures Less(key(xs[j]), key(xs[|xs| - 1])) ==> IsFirstMax(xs, key, |xs| - 1)
    ensures !Less(key(xs[j]), key(xs[|xs| - 1])) ==> IsFirstMax(xs, key, j)
  {
    var last := |xs| - 1;
    var prefix := xs[..last];
    assert forall k :: 0 <= k < last ==> prefix[k] == xs[k];
    if Less(key(xs[j]), key(xs[last])) {
      forall k | 0 <= k < last
        ensures Less(key(xs[k]), key(xs[last]))
      {
        AtMostLessTransitive(key(xs[k]), key(xs[j]), key(xs[last]));
      }
      LessIrreflexive(key(xs[last]));
    } else {
      NotLessIsAtLeast(key(xs[j]), key(xs[last]));
    }
  }

  /** The position `maxByOrNull` picks, computed as the same left-to-right fold. */
  function FirstMaxIndex<T>(xs: seq<T>, key: T -> string): (i: nat)
    requires |xs| > 0
    ensures IsFirstMax(xs, key, i)
    decreases |xs|
  {
    if |xs| == 1 then
      LessIrreflexive(key(xs[0]));
      0
    else
      var j := FirstMaxIndex(xs[..|xs| - 1], key);
      FirstMaxStep(xs, key, j);
      if Less(key(xs[j]), key(xs[|xs| - 1])) then |xs| - 1 else j
  }

  /** At most one position is the first maximum. */
  lemma FirstMaxUnique<T>(xs: seq<T>, key: T -> string, i: int, i': int)
    requires IsFirstMax(xs, key, i) && IsFirstMax(xs, key, i')
    ensures i == i'
  {
    if i < i' {
      AtMostExcludesGreater(key(xs[i']), key(xs[i]));
    } else if i' < i {
      AtMostExcludesGreater(key(xs[i]), key(xs[i']));
    }
  }

  /**
   * An earlier element whose key ties with the first maximum (`compareTo`
   * gives 0) cannot exist: ties go to the earliest.
   */
  lemma FirstMaxBeatsEarlierTies<T>(xs: seq<T>, key: T -> string, i: int, j: int)
    requires IsFirstMax(xs, key, i)
    requires 0 <= j < |xs| && CompareTo(key(xs[j]), key(xs[i])) == 0
    ensures i <= j
  {
  }

  /** `xs.maxByOrNull(key)`: null exactly for the empty list, else the element at the first maximum. */
  function MaxByOrNull<T>(xs: seq<T>, key: T -> string): (r: Option<T>)
    ensures r.None? <==> |xs| == 0
    ensures r.Some? ==> exists i :: IsFirstMax(xs, key, i) && r.value == xs[i]
  {
    if |xs| == 0 then None else Some(xs[FirstMaxIndex(xs, key)])
  }

  /** The standard library's loop, agreeing with `MaxByOrNull` on every input. */
  method MaxByOrNullLoop<T>(xs: seq<T>, key: T -> string) returns (r: Option<T>)
    ensures r == MaxByOrNull(xs, key)
  {
    if |xs| == 0 {
      return None;
    }
    var maxElem := xs[0];
    ghost var maxIndex := 0;
    LessIrreflexive(key(xs[0]));
    assert IsFirstMax(xs[..1], key, 0);
    if |xs| == 1 {
      assert xs[..1] == xs;
      FirstMaxUnique(xs, key, 0, FirstMaxIndex(xs, key));
      return Some(maxElem);
    }
    var maxValue := key(maxElem);
    var n := 1;
    while n < |xs|
      invariant 1 <= n <= |xs|
      invariant 0 <= maxIndex < n
      invariant maxElem == xs[maxIndex] && maxValue == key(maxElem)
      invariant IsFirstMax(xs[..n], key, maxIndex)
    {
      var e := xs[n];
      var v := key(e);
      assert xs[..n + 1][..n] == xs[..n];
      FirstMaxStep(xs[..n + 1], key, maxIndex);
      if Less(maxValue, v) {
        maxElem := e;
        maxValue := v;
        maxIndex := n;
      }
      n := n + 1;
    }
    assert xs[..n] == xs;
    FirstMaxUnique(xs, key, maxIndex, FirstMaxIndex(xs, key));
    return Some(maxElem);
  }
}
