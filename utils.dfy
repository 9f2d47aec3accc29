/** General sequence helpers the game engine is built on (utils.js):
    chunking, splitting into runs, grouping, ranges, a zip-style map,
    element-wise array equality, membership and de-duplication.
    Each helper that the source writes as a loop is a method proved against
    a specification function or a direct statement of its result. */
module Utils {

  datatype Option<T> = None | Some(value: T)

  /** The groups of `groups` concatenated in order. */
  function Flatten<T>(groups: seq<seq<T>>): seq<T>
  {
    if groups == [] then [] else Flatten(groups[..|groups| - 1]) + groups[|groups| - 1]
  }

  // ---------------------------------------------------------------------
  // partition: fixed-size chunks
  // ---------------------------------------------------------------------

  /** Cuts `arr` into consecutive slices of `chunk` elements; the last slice
      holds what is left over. An empty array gives no slices whatever the
      chunk; on a non-empty one a chunk of 0 or less would never advance
      the loop. */
  method Partition<T>(arr: seq<T>, chunk: int) returns (acc: seq<seq<T>>)
    requires chunk > 0 || arr == []
    ensures arr == [] ==> acc == []
    ensures Flatten(acc) == arr
    ensures forall k :: 0 <= k < |acc| - 1 ==> |acc[k]| == chunk
    ensures forall k :: 0 <= k < |acc| ==> 0 < |acc[k]| <= chunk
  {
    acc := [];
    var i := 0;
    while i < |arr|
      invariant 0 <= i
      invariant i <= |arr| ==> Flatten(acc) == arr[..i]
      invariant i <= |arr| ==> forall k :: 0 <= k < |acc| ==> |acc[k]| == chunk
      invariant i > |arr| ==> Flatten(acc) == arr
      invariant forall k :: 0 <= k < |acc| - 1 ==> |acc[k]| == chunk
      invariant forall k :: 0 <= k < |acc| ==> 0 < |acc[k]| <= chunk
    {
      // `slice` clamps its end to the length of the array
      var hi := if i + chunk <= |arr| then i + chunk else |arr|;
      var slice := arr[i..hi];
      assert (acc + [slice])[..|acc|] == acc;
      assert arr[..i] + slice == arr[..hi];
      acc := acc + [slice];
      i := i + chunk;
    }
    if i == |arr| {
      assert arr[..i] == arr;
    }
  }

  // ---------------------------------------------------------------------
  // partition_by: maximal runs of equal keys
  // ---------------------------------------------------------------------

  /** The runs `partition_by` builds from `s`, read left to right: an element
      joins the last run when its key equals the key of that run's first
      element, and starts a new run otherwise. */
  function Runs<T, K(==)>(f: T -> K, s: seq<T>): (runs: seq<seq<T>>)
    ensures forall k :: 0 <= k < |runs| ==> runs[k] != []
  {
    if s == [] then []
    else
      var prev := Runs(f, s[..|s| - 1]);
      var x := s[|s| - 1];
      if prev != [] && f(prev[|prev| - 1][0]) == f(x) then
        prev[..|prev| - 1] + [prev[|prev| - 1] + [x]]
      else
        prev + [[x]]
  }

  /** Nonempty runs, each of one key, neighbours of different keys. */
  ghost predicate RunsShape<T, K>(f: T -> K, runs: seq<seq<T>>)
  {
    && (forall k :: 0 <= k < |runs| ==> runs[k] != [])
    && (forall k, i :: 0 <= k < |runs| && 0 <= i < |runs[k]| ==> f(runs[k][i]) == f(runs[k][0]))
    && (forall k :: 0 <= k < |runs| - 1 ==> f(runs[k][0]) != f(runs[k + 1][0]))
  }

  /** An element with the last run's key joins that run. */
  lemma RunsJoinLast<T, K>(f: T -> K, prev: seq<seq<T>>, x: T)
    requires RunsShape(f, prev) && prev != [] && f(prev[|prev| - 1][0]) == f(x)
    ensures RunsShape(f, prev[..|prev| - 1] + [prev[|prev| - 1] + [x]])
  {
    var n := |prev|;
    var runs := prev[..n - 1] + [prev[n - 1] + [x]];
    forall k | 0 <= k < |runs| - 1 ensures f(runs[k][0]) != f(runs[k + 1][0]) {
      assert runs[k] == prev[k];
      assert runs[k + 1][0] == prev[k + 1][0];
    }
  }

  /** An element with another key than the last run's starts a run. */
  lemma RunsStartNew<T, K>(f: T -> K, prev: seq<seq<T>>, x: T)
    requires RunsShape(f, prev) && (prev == [] || f(prev[|prev| - 1][0]) != f(x))
    ensures RunsShape(f, prev + [[x]])
  {
  }

  lemma {:induction false} RunsShaped<T, K>(f: T -> K, s: seq<T>)
    ensures RunsShape(f, Runs(f, s))
  {
    if s != [] {
      var s' := s[..|s| - 1];
      RunsShaped(f, s');
      var prev := Runs(f, s');
      var x := s[|s| - 1];
      if prev != [] && f(prev[|prev| - 1][0]) == f(x) {
        RunsJoinLast(f, prev, x);
      } else {
        RunsStartNew(f, prev, x);
      }
    }
  }

  lemma {:induction false} RunsFlatten<T, K>(f: T -> K, s: seq<T>)
    ensures Flatten(Runs(f, s)) == s
  {
    if s != [] {
      var s' := s[..|s| - 1];
      var prev := Runs(f, s');
      var x := s[|s| - 1];
      RunsFlatten(f, s');
      assert s' + [x] == s;
      if prev != [] && f(prev[|prev| - 1][0]) == f(x) {
        var n := |prev|;
        var last := prev[n - 1] + [x];
        var runs := prev[..n - 1] + [last];
        assert runs[..n - 1] == prev[..n - 1];
        assert prev[..n - 1] + [prev[n - 1]] == prev;
        calc {
          Flatten(runs);
          Flatten(prev[..n - 1]) + last;
          Flatten(prev[..n - 1]) + prev[n - 1] + [x];
          Flatten(prev) + [x];
        }
      } else {
        var runs := prev + [[x]];
        assert runs[..|prev|] == prev;
      }
    }
  }

  /** The runs give back the input when concatenated, every element of a run
      has the run's key, and neighbouring runs have different keys. */
  lemma RunsSplitInput<T, K>(f: T -> K, s: seq<T>)
    ensures Flatten(Runs(f, s)) == s
    ensures forall k, i :: 0 <= k < |Runs(f, s)| && 0 <= i < |Runs(f, s)[k]| ==>
              f(Runs(f, s)[k][i]) == f(Runs(f, s)[k][0])
    ensures forall k :: 0 <= k < |Runs(f, s)| - 1 ==> f(Runs(f, s)[k][0]) != f(Runs(f, s)[k + 1][0])
  {
    RunsFlatten(f, s);
    RunsShaped(f, s);
  }

  /** One more element extends the runs of a prefix as `partition_by`'s loop does. */
  lemma RunsStep<T, K>(f: T -> K, s: seq<T>, i: nat)
    requires i < |s|
    ensures var prev := Runs(f, s[..i]);
      Runs(f, s[..i + 1]) ==
        if prev != [] && f(prev[|prev| - 1][0]) == f(s[i]) then prev[..|prev| - 1] + [prev[|prev| - 1] + [s[i]]]
        else prev + [[s[i]]]
  {
    assert s[..i + 1][..i] == s[..i];
  }

  method PartitionBy<T, K(==)>(f: T -> K, arr: seq<T>) returns (acc: seq<seq<T>>)
    ensures acc == Runs(f, arr)
    ensures Flatten(acc) == arr
    ensures forall k :: 0 <= k < |acc| ==> acc[k] != []
    ensures forall k, i :: 0 <= k < |acc| && 0 <= i < |acc[k]| ==> f(acc[k][i]) == f(acc[k][0])
    ensures forall k :: 0 <= k < |acc| - 1 ==> f(acc[k][0]) != f(acc[k + 1][0])
  {
    // `fv` is the key of the current run; None until the first element
    var fv: Option<K> := None;
    acc := [];
    var i := 0;
    while i < |arr|
      invariant 0 <= i <= |arr|
      invariant acc == Runs(f, arr[..i])
      invariant fv.None? <==> acc == []
      invariant fv.Some? ==> fv.value == f(acc[|acc| - 1][0])
    {
      RunsStep(f, arr, i);
      if fv.None? {
        acc := acc + [[arr[i]]];
        fv := Some(f(arr[i]));
      } else if fv.value == f(arr[i]) {
        acc := acc[..|acc| - 1] + [acc[|acc| - 1] + [arr[i]]];
      } else {
        acc := acc + [[arr[i]]];
        fv := Some(f(arr[i]));
      }
      i := i + 1;
    }
    assert arr[..i] == arr;
    RunsSplitInput(f, arr);
  }

  // ---------------------------------------------------------------------
  // group_by: buckets keyed by f
  // ---------------------------------------------------------------------

  /** The elements of `s` whose key is `key`, in input order. */
  function Select<T, K(==)>(f: T -> K, s: seq<T>, key: K): seq<T>
  {
    if s == [] then []
    else Select(f, s[..|s| - 1], key) + (if f(s[|s| - 1]) == key then [s[|s| - 1]] else [])
  }

  /** A bucket holds exactly the elements with its key. */
  lemma {:induction false} SelectMembers<T, K>(f: T -> K, s: seq<T>, key: K)
    ensures forall x :: x in Select(f, s, key) <==> x in s && f(x) == key
  {
    if s != [] {
      var s' := s[..|s| - 1];
      SelectMembers(f, s', key);
      assert s == s' + [s[|s| - 1]];
    }
  }

  /** Filtering keeps input order: the bucket of a concatenation is the
      bucket of the first part followed by the bucket of the second. */
  lemma {:induction false} SelectAppend<T, K>(f: T -> K, s1: seq<T>, s2: seq<T>, key: K)
    ensures Select(f, s1 + s2, key) == Select(f, s1, key) + Select(f, s2, key)
  {
    if s2 == [] {
      assert s1 + s2 == s1;
    } else {
      var s2' := s2[..|s2| - 1];
      SelectAppend(f, s1, s2', key);
      assert (s1 + s2)[..|s1 + s2| - 1] == s1 + s2';
    }
  }

  lemma {:induction false} SelectMissingKey<T, K>(f: T -> K, s: seq<T>, key: K)
    requires forall j :: 0 <= j < |s| ==> f(s[j]) != key
    ensures Select(f, s, key) == []
  {
    if s != [] {
      SelectMissingKey(f, s[..|s| - 1], key);
    }
  }

  /** The keys `f` takes on `s`. */
  function Keys<T, K>(f: T -> K, s: seq<T>): set<K>
  {
    set i | 0 <= i < |s| :: f(s[i])
  }

  /** The map `group_by` returns: one bucket per key, in input order. */
  function Buckets<T, K(==)>(f: T -> K, s: seq<T>): map<K, seq<T>>
  {
    map k | k in Keys(f, s) :: Select(f, s, k)
  }

  lemma BucketMember<T, K>(f: T -> K, s: seq<T>, k: K, x: T)
    requires k in Buckets(f, s) && x in Buckets(f, s)[k]
    ensures x in s && f(x) == k
  {
    assert Buckets(f, s)[k] == Select(f, s, k);
    SelectMembers(f, s, k);
  }

  /** There is a bucket exactly for each key some element has; every
      element lands in the bucket of its own key, and a bucket holds only
      elements of its key. */
  lemma BucketsProperties<T, K>(f: T -> K, s: seq<T>)
    ensures forall k :: k in Buckets(f, s) <==> exists i :: 0 <= i < |s| && f(s[i]) == k
    ensures forall i :: 0 <= i < |s| ==> f(s[i]) in Buckets(f, s) && s[i] in Buckets(f, s)[f(s[i])]
    ensures forall k, x :: k in Buckets(f, s) && x in Buckets(f, s)[k] ==> f(x) == k
  {
    forall k, x | k in Buckets(f, s) && x in Buckets(f, s)[k] ensures f(x) == k {
      BucketMember(f, s, k, x);
    }
    forall i | 0 <= i < |s| ensures f(s[i]) in Buckets(f, s) && s[i] in Buckets(f, s)[f(s[i])] {
      SelectMembers(f, s, f(s[i]));
    }
  }

  /** `group_by`: folds the input into a map from each key to its
      elements, in input order. */
  method GroupBy<T, K(==)>(f: T -> K, arr: seq<T>) returns (acc: map<K, seq<T>>)
    ensures acc == Buckets(f, arr)
  {
    acc := map[];
    for i := 0 to |arr|
      invariant acc.Keys == Keys(f, arr[..i])
      invariant forall k :: k in acc ==> acc[k] == Select(f, arr[..i], k)
    {
      assert arr[..i + 1][..i] == arr[..i];
      assert forall k :: Select(f, arr[..i + 1], k) == Select(f, arr[..i], k) + (if f(arr[i]) == k then [arr[i]] else []);
      assert Keys(f, arr[..i + 1]) == Keys(f, arr[..i]) + {f(arr[i])} by {
        forall k | k in Keys(f, arr[..i + 1]) ensures k in Keys(f, arr[..i]) + {f(arr[i])} {
          var j :| 0 <= j < i + 1 && arr[..i + 1][j] == arr[j] && f(arr[j]) == k;
          if j < i { assert arr[..i][j] == arr[j]; }
        }
      }
      var v := f(arr[i]);
      if v in acc {
        acc := acc[v := acc[v] + [arr[i]]];
      } else {
        assert forall j :: 0 <= j < i ==> f(arr[..i][j]) != v;
        SelectMissingKey(f, arr[..i], v);
        acc := acc[v := [arr[i]]];
      }
    }
    assert arr[..|arr|] == arr;
  }

  // ---------------------------------------------------------------------
  // range
  // ---------------------------------------------------------------------

  /** The integers from `start` up to, but not including, `end`. */
  method Range(start: int, end: int) returns (acc: seq<int>)
    ensures |acc| == if end > start then end - start else 0
    ensures forall k :: 0 <= k < |acc| ==> acc[k] == start + k
  {
    acc := [];
    var i := start;
    while i < end
      invariant start <= i <= if end > start then end else start
      invariant |acc| == i - start
      invariant forall k :: 0 <= k < |acc| ==> acc[k] == start + k
    {
      acc := acc + [i];
      i := i + 1;
    }
  }

  // ---------------------------------------------------------------------
  // map (two-array form)
  // ---------------------------------------------------------------------

  /** Applies `f` to the elements at the same position of `a` and `b`; the
      first array decides the length. */
  method Map<A, B, C>(f: (A, B) -> C, a: seq<A>, b: seq<B>) returns (acc: seq<C>)
    requires |a| <= |b|
    ensures |acc| == |a|
    ensures forall i :: 0 <= i < |a| ==> acc[i] == f(a[i], b[i])
  {
    acc := [];
    for i := 0 to |a|
      invariant |acc| == i
      invariant forall k :: 0 <= k < i ==> acc[k] == f(a[k], b[k])
    {
      acc := acc + [f(a[i], b[i])];
    }
  }

  // ---------------------------------------------------------------------
  // equals, contains
  // ---------------------------------------------------------------------

  /** What `equals` checks: same length, and equal at every position. */
  predicate SameElements<T(==)>(a: seq<T>, b: seq<T>)
  {
    |a| == |b| && forall i :: 0 <= i < |a| ==> a[i] == b[i]
  }

  method Equals<T(==)>(a: seq<T>, b: seq<T>) returns (r: bool)
    ensures r <==> SameElements(a, b)
    ensures r <==> a == b
  {
    if |a| != |b| {
      return false;
    }
    for i := 0 to |a|
      invariant forall k :: 0 <= k < i ==> a[k] == b[k]
    {
      if a[i] != b[i] {
        return false;
      }
    }
    return true;
  }

  /** `contains` for an array-valued `obj`: some element `equals` it. */
  function Contains<T(==)>(arr: seq<seq<T>>, obj: seq<T>): (r: bool)
    ensures r <==> obj in arr
  {
    SameElementsMeansEqual(arr, obj);
    exists i :: 0 <= i < |arr| && SameElements(arr[i], obj)
  }

  lemma SameElementsMeansEqual<T>(arr: seq<seq<T>>, obj: seq<T>)
    ensures forall i :: 0 <= i < |arr| ==> (SameElements(arr[i], obj) <==> arr[i] == obj)
  {
    forall i | 0 <= i < |arr| && SameElements(arr[i], obj) ensures arr[i] == obj {
      assert arr[i] == obj;
    }
  }

  // ---------------------------------------------------------------------
  // ArraySet: de-duplication by `equals`
  // ---------------------------------------------------------------------

  predicate NoDuplicates<T(==)>(s: seq<T>)
  {
    forall i, j :: 0 <= i < j < |s| ==> s[i] != s[j]
  }

  /** The position of the first occurrence of `x` in `s`. */
  function FirstIndex<T(==)>(s: seq<T>, x: T): (i: nat)
    requires x in s
    ensures i < |s| && s[i] == x && x !in s[..i]
  {
    if s[0] == x then 0
    else
      var j := FirstIndex(s[1..], x);
      assert s[..j + 1] == [s[0]] + s[1..][..j];
      1 + j
  }

  lemma FirstIndexAt<T>(s: seq<T>, i: nat)
    requires i < |s| && s[i] !in s[..i]
    ensures FirstIndex(s, s[i]) == i
  {
    var r := FirstIndex(s, s[i]);
    assert r <= i;
  }

  /** Keeps the first occurrence of every array of `arr`, in order. */
  method ArraySet<T(==)>(arr: seq<seq<T>>) returns (acc: seq<seq<T>>)
    ensures NoDuplicates(acc)
    ensures forall x :: x in acc <==> x in arr
    ensures forall i, j :: 0 <= i < j < |acc| ==> FirstIndex(arr, acc[i]) < FirstIndex(arr, acc[j])
  {
    acc := [];
    for i := 0 to |arr|
      invariant NoDuplicates(acc)
      invariant forall x :: x in acc <==> x in arr[..i]
      invariant forall k :: 0 <= k < |acc| ==> acc[k] in arr && FirstIndex(arr, acc[k]) < i
      invariant forall k, l :: 0 <= k < l < |acc| ==> FirstIndex(arr, acc[k]) < FirstIndex(arr, acc[l])
    {
      assert arr[..i + 1] == arr[..i] + [arr[i]];
      if |acc| == 0 || !Contains(acc, arr[i]) {
        assert arr[i] !in arr[..i];
        FirstIndexAt(arr, i);
        acc := acc + [arr[i]];
      }
    }
    assert arr[..|arr|] == arr;
  }
}
