/**
 * The multi-array merge program: `mergeArrays` copies k input arrays one
 * after another into an output buffer through a running index and then sorts
 * the filled prefix in place; `main` validates the counts, sorts each input,
 * sizes the buffer as the sum of the sizes and calls it.
 */
module ArrayMerge {
  import opened Common

  predicate Sorted(s: seq<int>)
  {
    forall i, j :: 0 <= i < j < |s| ==> s[i] <= s[j]
  }

  /** The elements array i contributes: its first `size` cells (none for size <= 0). */
  function Part(a: seq<int>, size: int): seq<int>
    requires size <= |a|
  {
    if size <= 0 then [] else a[..size]
  }

  /** The number of cells `size` contributes. */
  function Width(size: int): nat
  {
    if size <= 0 then 0 else size
  }

  /** All parts, one after the other. */
  function Flatten(parts: seq<seq<int>>): seq<int>
  {
    if parts == [] then [] else Flatten(parts[..|parts| - 1]) + parts[|parts| - 1]
  }

  /** The sum of the sizes, `totalSize` in `main`. */
  function TotalSize(sizes: seq<int>): nat
  {
    if sizes == [] then 0 else TotalSize(sizes[..|sizes| - 1]) + Width(sizes[|sizes| - 1])
  }

  /** The input parts `mergeArrays` reads: array i up to sizes[i], for i < n. */
  ghost function Inputs(arrays: array<array<int>>, sizes: array<int>, n: int): seq<seq<int>>
    requires n <= arrays.Length && n <= sizes.Length
    requires forall i :: 0 <= i < n ==> sizes[i] <= arrays[i].Length
    reads arrays, sizes, arrays[..Width(n)]
    decreases Width(n)
  {
    if n <= 0 then [] else Inputs(arrays, sizes, n - 1) + [Part(arrays[n - 1][..], sizes[n - 1])]
  }

  lemma {:induction false} InputsLength(arrays: array<array<int>>, sizes: array<int>, n: int)
    requires n <= arrays.Length && n <= sizes.Length
    requires forall i :: 0 <= i < n ==> sizes[i] <= arrays[i].Length
    ensures |Flatten(Inputs(arrays, sizes, n))| == TotalSize(sizes[..Width(n)])
    decreases Width(n)
  {
    if n > 0 {
      InputsLength(arrays, sizes, n - 1);
      var ps := Inputs(arrays, sizes, n);
      assert ps[..|ps| - 1] == Inputs(arrays, sizes, n - 1);
      assert sizes[..n][..n - 1] == sizes[..n - 1];
    }
  }

  /** Exchange cells j - 1 and j of the prefix a[..n]. */
  method SwapDown(a: array<int>, j: int, n: int)
    requires 0 < j < n <= a.Length
    modifies a
    ensures a[..] == old(a[..])[j - 1 := old(a[j])][j := old(a[j - 1])]
    ensures multiset(a[..n]) == old(multiset(a[..n]))
    ensures a[n..] == old(a[n..])
  {
    ghost var s := a[..n];
    a[j - 1], a[j] := a[j], a[j - 1];
    assert a[..n] == s[j - 1 := s[j]][j := s[j - 1]];
  }

  /**
   * `sort(a, a + n)`: the prefix a[..n] becomes sorted and stays a
   * permutation of itself; the rest is untouched.  (Insertion sort stands in
   * for the library's algorithm: only its contract matters here.)
   */
  method SortPrefix(a: array<int>, n: int)
    requires 0 <= n <= a.Length
    modifies a
    ensures Sorted(a[..n])
    ensures multiset(a[..n]) == old(multiset(a[..n]))
    ensures a[n..] == old(a[n..])
  {
    if n == 0 {
      return;
    }
    var i := 1;
    while i < n
      invariant 1 <= i <= n
      invariant forall p, q :: 0 <= p < q < i ==> a[p] <= a[q]
      invariant multiset(a[..n]) == old(multiset(a[..n]))
      invariant a[n..] == old(a[n..])
    {
      var j := i;
      while j > 0 && a[j - 1] > a[j]
        invariant 0 <= j <= i
        invariant forall p, q :: 0 <= p < q <= i && q != j ==> a[p] <= a[q]
        invariant forall p, q :: 0 <= p < j && j < q <= i ==> a[p] <= a[q]
        invariant multiset(a[..n]) == old(multiset(a[..n]))
        invariant a[n..] == old(a[n..])
      {
        SwapDown(a, j, n);
        j := j - 1;
      }
      i := i + 1;
    }
    assert forall p, q :: 0 <= p < q < n ==> a[..n][p] <= a[..n][q];
  }

  lemma {:induction false} TotalSizePrefix(s: seq<int>, i: nat, k: nat)
    requires i <= k <= |s|
    ensures TotalSize(s[..i]) <= TotalSize(s[..k])
    decreases k - i
  {
    if i < k {
      TotalSizePrefix(s, i, k - 1);
      assert s[..k][..k - 1] == s[..k - 1];
    }
  }

  lemma {:induction false} InputsShape(arrays: array<array<int>>, sizes: array<int>, n: int)
    requires n <= arrays.Length && n <= sizes.Length
    requires forall i :: 0 <= i < n ==> sizes[i] <= arrays[i].Length
    ensures var ps := Inputs(arrays, sizes, n);
      |ps| == Width(n) && forall i :: 0 <= i < Width(n) ==> ps[i] == Part(arrays[i][..], sizes[i])
    decreases Width(n)
  {
    if n > 0 {
      InputsShape(arrays, sizes, n - 1);
    }
  }

  lemma TotalSizeStep(s: seq<int>, i: nat)
    requires i < |s|
    ensures TotalSize(s[..i + 1]) == TotalSize(s[..i]) + Width(s[i])
  {
    assert s[..i + 1][..i] == s[..i];
  }

  lemma FlattenPrefixStep(parts: seq<seq<int>>, i: nat)
    requires i < |parts|
    ensures Flatten(parts[..i + 1]) == Flatten(parts[..i]) + parts[i]
  {
    assert parts[..i + 1][..i] == parts[..i];
  }

  /**
   * The inner loop of `mergeArrays`: `result[resultSize++] = src[j]` for
   * j < size, starting at `start`; nothing before `start` or past the
   * copied cells changes.
   */
  method AppendPart(src: array<int>, size: int, result: array<int>, start: int) returns (resultSize: int)
    requires src != result && size <= src.Length
    requires 0 <= start && start + Width(size) <= result.Length
    modifies result
    ensures resultSize == start + Width(size)
    ensures result[..resultSize] == old(result[..start]) + Part(src[..], size)
    ensures forall k :: resultSize <= k < result.Length ==> result[k] == old(result[k])
  {
    resultSize := start;
    var j := 0;
    while j < size
      invariant 0 <= j <= Width(size)
      invariant resultSize == start + j
      invariant result[..resultSize] == old(result[..start]) + src[..j]
      invariant forall k :: resultSize <= k < result.Length ==> result[k] == old(result[k])
    {
      result[resultSize] := src[j];
      resultSize := resultSize + 1;
      j := j + 1;
    }
    assert src[..j] == Part(src[..], size);
  }

  /**
   * One pass of the outer copy loop of `mergeArrays`: array i goes after the
   * arrays before it, and the cells past it keep their original values.
   */
  method CopyOne(src: array<int>, size: int, result: array<int>, start: int,
                 ghost parts: seq<seq<int>>, ghost sz: seq<int>, ghost i: nat, ghost orig: seq<int>)
    returns (resultSize: int)
    requires src != result && size <= src.Length
    requires i < |parts| && i < |sz| && sz[i] == size && parts[i] == Part(src[..], size)
    requires start == TotalSize(sz[..i]) && start + Width(size) <= result.Length
    requires result[..start] == Flatten(parts[..i])
    requires |orig| == result.Length && forall k :: start <= k < result.Length ==> result[k] == orig[k]
    modifies result
    ensures resultSize == start + Width(size) == TotalSize(sz[..i + 1])
    ensures result[..resultSize] == Flatten(parts[..i + 1])
    ensures forall k :: resultSize <= k < result.Length ==> result[k] == orig[k]
  {
    TotalSizeStep(sz, i);
    FlattenPrefixStep(parts, i);
    resultSize := AppendPart(src, size, result, start);
  }

  /**
   * The copy loops of `mergeArrays`: array 0 .. numArrays-1, each up to its
   * size, written one after another through the running index `resultSize`.
   */
  method CopyArrays(arrays: array<array<int>>, sizes: array<int>, numArrays: int, result: array<int>)
    returns (resultSize: int)
    requires numArrays <= arrays.Length && numArrays <= sizes.Length
    requires forall i :: 0 <= i < numArrays ==> sizes[i] <= arrays[i].Length && arrays[i] != result
    requires sizes != result
    requires TotalSize(sizes[..Width(numArrays)]) <= result.Length
    modifies result
    ensures resultSize == TotalSize(sizes[..Width(numArrays)])
    ensures result[..resultSize] == Flatten(old(Inputs(arrays, sizes, numArrays)))
    ensures forall k :: resultSize <= k < result.Length ==> result[k] == old(result[k])
  {
    InputsShape(arrays, sizes, numArrays);
    ghost var sz := sizes[..];
    ghost var orig := result[..];
    ghost var total := TotalSize(sz[..Width(numArrays)]);
    assert sizes[..Width(numArrays)] == sz[..Width(numArrays)];
    ghost var parts := Inputs(arrays, sizes, numArrays);
    resultSize := 0;
    var i := 0;
    while i < numArrays
      invariant 0 <= i <= Width(numArrays)
      invariant resultSize == TotalSize(sz[..i]) <= total
      invariant result[..resultSize] == Flatten(parts[..i])
      invariant forall k :: resultSize <= k < result.Length ==> result[k] == orig[k]
    {
      TotalSizePrefix(sz, i + 1, Width(numArrays));
      TotalSizeStep(sz, i);
      resultSize := CopyOne(arrays[i], sizes[i], result, resultSize, parts, sz, i, orig);
      i := i + 1;
    }
    assert parts[..i] == parts;
  }

  /**
   * `mergeArrays`: copy the inputs, then sort result[0 .. resultSize).  The
   * filled prefix is exactly as long as the sizes add up to, sorted, and a
   * permutation of the inputs; no cell beyond it is written, and the inputs are
   * not changed.
   */
  method MergeArrays(arrays: array<array<int>>, sizes: array<int>, numArrays: int, result: array<int>)
    returns (resultSize: int)
    requires numArrays <= arrays.Length && numArrays <= sizes.Length
    requires forall i :: 0 <= i < numArrays ==> sizes[i] <= arrays[i].Length && arrays[i] != result
    requires sizes != result
    requires TotalSize(sizes[..Width(numArrays)]) <= result.Length
    modifies result
    ensures resultSize == TotalSize(sizes[..Width(numArrays)])
    ensures Sorted(result[..resultSize])
    ensures multiset(result[..resultSize]) == multiset(Flatten(old(Inputs(arrays, sizes, numArrays))))
    ensures result[resultSize..] == old(result[resultSize..])
  {
    resultSize := CopyArrays(arrays, sizes, numArrays, result);
    assert result[resultSize..] == old(result[resultSize..]);
    SortPrefix(result, resultSize);
  }

  /** How a run of `main` ends: one of its two error messages, or the merged array. */
  datatype MergeOutcome =
    | InvalidCount
    | InvalidSize(index: nat)
    | InputExhausted
    | Merged(elements: seq<int>)

  /** What reading the arrays from the input yields: their elements as typed, or the outcome that stops `main`. */
  datatype Reading = Read(parts: seq<seq<int>>) | Stopped(outcome: MergeOutcome)

  /**
   * Reading arrays index .. count-1 from `tokens`: each is a size, which must
   * be positive, followed by that many elements.
   */
  function ReadArrays(tokens: seq<int>, count: nat, index: nat): Reading
    decreases count - index
  {
    if count <= index then Read([])
    else if tokens == [] then Stopped(InputExhausted)
    else if tokens[0] <= 0 then Stopped(InvalidSize(index))
    else if |tokens| - 1 < tokens[0] then Stopped(InputExhausted)
    else Prepend(tokens[1..1 + tokens[0]], ReadArrays(tokens[1 + tokens[0]..], count, index + 1))
  }

  function Prepend(done: seq<int>, r: Reading): Reading
  {
    match r
    case Read(ps) => Read([done] + ps)
    case Stopped(o) => Stopped(o)
  }

  /** `Prepend` over several parts already read. */
  function PrependAll(done: seq<seq<int>>, r: Reading): Reading
  {
    match r
    case Read(ps) => Read(done + ps)
    case Stopped(o) => Stopped(o)
  }

  lemma MergedOutcome(tokens: seq<int>, read: seq<seq<int>>, elements: seq<int>)
    requires tokens != [] && tokens[0] > 0 && ReadArrays(tokens[1..], tokens[0], 0) == Read(read)
    requires Sorted(elements) && multiset(elements) == multiset(Flatten(read))
    ensures MergeResult(tokens, Merged(elements))
  {
  }

  /** What reading from position `pos` of the input yields, case by case. */
  lemma ReadFront(tokens: seq<int>, pos: nat, count: nat, index: nat)
    requires index < count && pos <= |tokens|
    ensures pos == |tokens| ==> ReadArrays(tokens[pos..], count, index) == Stopped(InputExhausted)
    ensures pos < |tokens| && tokens[pos] <= 0 ==>
      ReadArrays(tokens[pos..], count, index) == Stopped(InvalidSize(index))
    ensures pos < |tokens| && tokens[pos] > |tokens| - pos - 1 ==>
      ReadArrays(tokens[pos..], count, index) == Stopped(InputExhausted)
    ensures pos < |tokens| && 0 < tokens[pos] <= |tokens| - pos - 1 ==>
      ReadArrays(tokens[pos..], count, index)
      == Prepend(tokens[pos + 1..pos + 1 + tokens[pos]], ReadArrays(tokens[pos + 1 + tokens[pos]..], count, index + 1))
  {
    if pos < |tokens| && 0 < tokens[pos] <= |tokens| - pos - 1 {
      var size := tokens[pos];
      assert tokens[pos..][1..1 + size] == tokens[pos + 1..pos + 1 + size];
      assert tokens[pos..][1 + size..] == tokens[pos + 1 + size..];
    }
  }

  lemma PrependAllStep(done: seq<seq<int>>, p: seq<int>, r: Reading)
    ensures PrependAll(done, Prepend(p, r)) == PrependAll(done + [p], r)
  {
    if r.Read? {
      assert done + ([p] + r.parts) == (done + [p]) + r.parts;
    }
  }

  /** What `main` must produce for a given input: its error outcomes, or the sorted merge. */
  ghost predicate MergeResult(tokens: seq<int>, outcome: MergeOutcome)
  {
    if tokens == [] then outcome == InputExhausted
    else if tokens[0] <= 0 then outcome == InvalidCount
    else match ReadArrays(tokens[1..], tokens[0], 0)
      case Stopped(o) => outcome == o
      case Read(parts) =>
        && outcome.Merged?
        && Sorted(outcome.elements)
        && multiset(outcome.elements) == multiset(Flatten(parts))
  }

  lemma {:induction false} ReadArraysShape(tokens: seq<int>, count: nat, index: nat)
    requires ReadArrays(tokens, count, index).Read?
    ensures var ps := ReadArrays(tokens, count, index).parts;
      |ps| == count - index || (count <= index && ps == [])
    ensures forall p :: p in ReadArrays(tokens, count, index).parts ==> |p| > 0
    decreases count - index
  {
    if index < count {
      ReadArraysShape(tokens[1 + tokens[0]..], count, index + 1);
    }
  }

  /** Two sorted sequences holding the same elements are equal: the merge result is unique. */
  lemma {:induction false} SortedUnique(r: seq<int>, s: seq<int>)
    requires Sorted(r) && Sorted(s) && multiset(r) == multiset(s)
    ensures r == s
    decreases |r|
  {
    if r != [] {
      SortedHeads(r, s);
      SortedTails(r, s);
      SortedUnique(r[1..], s[1..]);
      assert r == [r[0]] + r[1..] && s == [s[0]] + s[1..];
    }
  }

  /** The least elements of two sorted sequences holding the same elements agree. */
  lemma SortedHeads(r: seq<int>, s: seq<int>)
    requires r != [] && Sorted(r) && Sorted(s) && multiset(r) == multiset(s)
    ensures s != [] && r[0] == s[0]
  {
    assert |s| == |multiset(s)| == |r|;
    assert r[0] in multiset(s) && s[0] in multiset(r);
    var i :| 0 <= i < |s| && s[i] == r[0];
    var j :| 0 <= j < |r| && r[j] == s[0];
    assert s[0] <= s[i] && r[0] <= r[j];
  }

  /** Dropping the same first element from both keeps them sorted and with the same elements. */
  lemma SortedTails(r: seq<int>, s: seq<int>)
    requires r != [] && s != [] && r[0] == s[0] && Sorted(r) && Sorted(s) && multiset(r) == multiset(s)
    ensures Sorted(r[1..]) && Sorted(s[1..]) && multiset(r[1..]) == multiset(s[1..])
  {
    SortedRest(r);
    SortedRest(s);
    RestElements(r);
    RestElements(s);
  }

  lemma SortedRest(r: seq<int>)
    requires r != [] && Sorted(r)
    ensures Sorted(r[1..])
  {
    assert forall i :: 0 <= i < |r| - 1 ==> r[1..][i] == r[i + 1];
  }

  lemma RestElements(r: seq<int>)
    requires r != []
    ensures multiset(r[1..]) == multiset(r) - multiset{r[0]}
  {
    assert r == [r[0]] + r[1..];
  }

  /** `main`'s output is determined by its input: sorting each array first changes nothing. */
  lemma MergeResultUnique(tokens: seq<int>, o1: MergeOutcome, o2: MergeOutcome)
    requires MergeResult(tokens, o1) && MergeResult(tokens, o2)
    ensures o1 == o2
  {
    if tokens != [] && tokens[0] > 0 && ReadArrays(tokens[1..], tokens[0], 0).Read? {
      SortedUnique(o1.elements, o2.elements);
    }
  }

  /** Parts with the same elements, part by part, flatten to the same elements. */
  lemma {:induction false} FlattenMultiset(ps: seq<seq<int>>, qs: seq<seq<int>>)
    requires |ps| == |qs|
    requires forall i :: 0 <= i < |ps| ==> multiset(ps[i]) == multiset(qs[i])
    ensures multiset(Flatten(ps)) == multiset(Flatten(qs))
  {
    if ps != [] {
      FlattenMultiset(ps[..|ps| - 1], qs[..|qs| - 1]);
    }
  }

  /** The element loop of `main`: a fresh array of `size` cells read from tokens[pos..]. */
  method ReadElements(tokens: seq<int>, pos: nat, size: nat) returns (a: array<int>)
    requires pos + size <= |tokens|
    ensures fresh(a) && a[..] == tokens[pos..pos + size]
  {
    a := new int[size];
    var j := 0;
    while j < size
      invariant 0 <= j <= size
      invariant a[..j] == tokens[pos..pos + j]
    {
      a[j] := tokens[pos + j];
      j := j + 1;
    }
  }

  /** One array of `main`: its elements read, then `sort` on it. */
  method ReadSortedArray(tokens: seq<int>, pos: nat, size: nat) returns (a: array<int>)
    requires pos + size <= |tokens|
    ensures fresh(a) && a.Length == size
    ensures Sorted(a[..]) && multiset(a[..]) == multiset(tokens[pos..pos + size])
  {
    a := ReadElements(tokens, pos, size);
    assert a[..size] == a[..];
    SortPrefix(a, size);
    assert a[..] == a[..size];
  }

  /**
   * One round of the reading loop of `main` at input position `pos`: the size
   * of array `index`, checked, then its elements, sorted.  Reading stops when
   * input runs out or the size is not positive.
   */
  method ReadArray(tokens: seq<int>, pos: nat, ghost count: nat, index: nat)
    returns (failed: Option<MergeOutcome>, size: int, a: array<int>, next: nat)
    requires 1 <= pos <= |tokens| && index < count
    ensures fresh(a)
    ensures failed.Some? ==> ReadArrays(tokens[pos..], count, index) == Stopped(failed.value)
    ensures failed.None? ==>
      && 0 < size == a.Length && next == pos + 1 + size <= |tokens|
      && Sorted(a[..]) && multiset(a[..]) == multiset(tokens[pos + 1..next])
      && ReadArrays(tokens[pos..], count, index)
         == Prepend(tokens[pos + 1..next], ReadArrays(tokens[next..], count, index + 1))
  {
    ReadFront(tokens, pos, count, index);
    a := new int[0];
    next := pos;
    if pos == |tokens| {
      return Some(InputExhausted), 0, a, next;
    }
    size := tokens[pos];
    if size <= 0 {
      return Some(InvalidSize(index)), size, a, next;
    }
    if |tokens| - pos - 1 < size {
      return Some(InputExhausted), size, a, next;
    }
    a := ReadSortedArray(tokens, pos + 1, size);
    next := pos + 1 + size;
    failed := None;
  }

  /** Arrays 0 .. n-1 are in place: each holds, in some order, the elements read for it. */
  ghost predicate Loaded(arrays: array<array<int>>, sizes: array<int>, read: seq<seq<int>>, n: nat)
    reads arrays, sizes, arrays[..]
  {
    && n <= arrays.Length && n <= sizes.Length && |read| == n
    && (forall k :: 0 <= k < n ==> arrays[k].Length == sizes[k] && sizes[k] > 0)
    && (forall k :: 0 <= k < n ==> multiset(arrays[k][..]) == multiset(read[k]))
    && (forall k :: 0 <= k < n ==> arrays[k] != sizes)
  }

  /** `sizes[i]` and `arrays[i]` of `main` receive a size and the array read for it. */
  method StoreArray(arrays: array<array<int>>, sizes: array<int>, i: nat, a: array<int>,
                    ghost read: seq<seq<int>>, ghost elements: seq<int>)
    requires i < arrays.Length && i < sizes.Length && a != sizes
    requires Loaded(arrays, sizes, read, i)
    requires 0 < a.Length && multiset(a[..]) == multiset(elements)
    modifies arrays, sizes
    ensures Loaded(arrays, sizes, read + [elements], i + 1)
    ensures arrays[i] == a && sizes[i] == a.Length
  {
    ghost var prev := arrays[..i];
    sizes[i] := a.Length;
    arrays[i] := a;
    assert arrays[..i] == prev;
  }

  /**
   * One pass of the reading loop of `main`, stated on the whole input: the
   * run stops here, or array i is read, sorted and stored and reading goes on.
   */
  method ReadRound(tokens: seq<int>, pos: nat, numArrays: nat, i: nat,
                   arrays: array<array<int>>, sizes: array<int>, ghost read: seq<seq<int>>)
    returns (failed: Option<MergeOutcome>, next: nat, ghost read': seq<seq<int>>)
    requires 1 <= pos <= |tokens| && i < numArrays == arrays.Length == sizes.Length
    requires ReadArrays(tokens[1..], numArrays, 0) == PrependAll(read, ReadArrays(tokens[pos..], numArrays, i))
    requires Loaded(arrays, sizes, read, i)
    modifies arrays, sizes
    ensures failed.Some? ==> ReadArrays(tokens[1..], numArrays, 0) == Stopped(failed.value)
    ensures failed.None? ==>
      && 1 <= next <= |tokens|
      && ReadArrays(tokens[1..], numArrays, 0) == PrependAll(read', ReadArrays(tokens[next..], numArrays, i + 1))
      && Loaded(arrays, sizes, read', i + 1)
  {
    var size, a;
    failed, size, a, next := ReadArray(tokens, pos, numArrays, i);
    read' := read;
    if failed.Some? {
      sizes[i] := size;
      return;
    }
    ghost var elements := tokens[pos + 1..next];
    PrependAllStep(read, elements, ReadArrays(tokens[next..], numArrays, i + 1));
    StoreArray(arrays, sizes, i, a, read, elements);
    read' := read + [elements];
  }

  /**
   * The reading loop of `main` (for each array: its size, checked, then its
   * elements, then `sort` on it), with the count already read and checked.
   * It stops at the first non-positive size or when input runs out; otherwise
   * every array holds, sorted, the elements typed for it.
   */
  method ReadInputArrays(tokens: seq<int>, numArrays: int) returns
    (stop: Option<MergeOutcome>, arrays: array<array<int>>, sizes: array<int>, ghost read: seq<seq<int>>)
    requires tokens != [] && numArrays == tokens[0] > 0
    ensures fresh(arrays) && fresh(sizes)
    ensures stop.Some? ==> ReadArrays(tokens[1..], numArrays, 0) == Stopped(stop.value)
    ensures stop.None? ==>
      && ReadArrays(tokens[1..], numArrays, 0) == Read(read)
      && arrays.Length == sizes.Length == |read| == numArrays
      && (forall k :: 0 <= k < numArrays ==> arrays[k].Length == sizes[k] && sizes[k] > 0)
      && (forall k :: 0 <= k < numArrays ==> multiset(arrays[k][..]) == multiset(read[k]))
  {
    sizes := new int[numArrays];
    var empty := new int[0];
    arrays := new array<int>[numArrays](_ => empty);
    read := [];
    var pos := 1;
    var i := 0;
    while i < numArrays
      invariant 0 <= i <= numArrays && 1 <= pos <= |tokens|
      invariant ReadArrays(tokens[1..], numArrays, 0) == PrependAll(read, ReadArrays(tokens[pos..], numArrays, i))
      invariant Loaded(arrays, sizes, read, i)
    {
      var failed;
      failed, pos, read := ReadRound(tokens, pos, numArrays, i, arrays, sizes, read);
      if failed.Some? {
        return failed, arrays, sizes, read;
      }
      i := i + 1;
    }
    assert read + [] == read;
    stop := None;
  }

  /** `totalSize += sizes[i]` over the first n sizes: their sum. */
  method SumSizes(sizes: array<int>, n: int) returns (totalSize: int)
    requires 0 <= n <= sizes.Length
    requires forall k :: 0 <= k < n ==> sizes[k] > 0
    ensures totalSize == TotalSize(sizes[..n])
  {
    totalSize := 0;
    var i := 0;
    while i < n
      invariant 0 <= i <= n
      invariant totalSize == TotalSize(sizes[..i])
    {
      TotalSizeStep(sizes[..], i);
      assert sizes[..][..i + 1] == sizes[..i + 1] && sizes[..][..i] == sizes[..i];
      totalSize := totalSize + sizes[i];
      i := i + 1;
    }
  }

  /** The arrays `main` read, each whole, hold together the elements typed in. */
  lemma InputsElements(arrays: array<array<int>>, sizes: array<int>, n: int, read: seq<seq<int>>)
    requires 0 < n == arrays.Length == sizes.Length == |read|
    requires forall k :: 0 <= k < n ==> arrays[k].Length == sizes[k] && sizes[k] > 0
    requires forall k :: 0 <= k < n ==> multiset(arrays[k][..]) == multiset(read[k])
    ensures multiset(Flatten(Inputs(arrays, sizes, n))) == multiset(Flatten(read))
  {
    InputsShape(arrays, sizes, n);
    var inputs := Inputs(arrays, sizes, n);
    forall k | 0 <= k < n
      ensures multiset(inputs[k]) == multiset(read[k])
    {
      assert inputs[k] == arrays[k][..];
    }
    FlattenMultiset(inputs, read);
  }

  /**
   * `main`, with the console input given as the sequence of integers typed
   * in: the number of arrays, then for each array its size and its
   * elements.  It rejects a non-positive count and the first non-positive
   * size, sorts each array, sizes the buffer as the sum of the sizes and
   * merges.  Running out of input ends the run with `InputExhausted`.
   */
  method MergeProgram(tokens: seq<int>) returns (outcome: MergeOutcome)
    ensures MergeResult(tokens, outcome)
  {
    if tokens == [] {
      return InputExhausted;
    }
    var numArrays := tokens[0];
    if numArrays <= 0 {
      return InvalidCount;
    }
    var stop, arrays, sizes, read := ReadInputArrays(tokens, numArrays);
    if stop.Some? {
      return stop.value;
    }
    var totalSize := SumSizes(sizes, numArrays);
    var result := new int[totalSize];
    InputsElements(arrays, sizes, numArrays, read);
    var resultSize := MergeArrays(arrays, sizes, numArrays, result);
    outcome := Merged(result[..resultSize]);
    MergedOutcome(tokens, read, outcome.elements);
  }
}
