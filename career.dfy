/**
 * The exact-arithmetic parts of the career recommender: Jaccard similarity of
 * lower-cased word lists, the top trait alignments, the work-mode, salary and
 * education bonus terms, the overlapping skills, the folding of questionnaire
 * answers into a trait vector, and the parsing of comma-separated lists.
 * Python floats are taken as exact reals.
 */
module Career {
  import opened Common

  // ---------------------------------------------------------------------------
  // Text
  // ---------------------------------------------------------------------------

  predicate IsUpper(c: char)
  {
    'A' <= c <= 'Z'
  }

  /** `str.lower` on one character (ASCII letters only). */
  function LowerChar(c: char): (d: char)
    ensures !IsUpper(d)
    ensures !IsUpper(c) ==> d == c
  {
    if IsUpper(c) then (c as int + 32) as char else c
  }

  /** `str.lower`: every letter lower-cased, nothing else changed. */
  function Lower(s: string): (r: string)
    ensures |r| == |s|
    ensures forall i :: 0 <= i < |s| ==> r[i] == LowerChar(s[i])
    ensures forall i :: 0 <= i < |r| ==> !IsUpper(r[i])
  {
    if s == [] then [] else [LowerChar(s[0])] + Lower(s[1..])
  }

  /** A string with no upper-case letter is its own lower case. */
  lemma {:induction false} LowerOfLower(s: string)
    requires forall i :: 0 <= i < |s| ==> !IsUpper(s[i])
    ensures Lower(s) == s
  {
    if s != [] {
      LowerOfLower(s[1..]);
    }
  }

  // ---------------------------------------------------------------------------
  // Jaccard similarity
  // ---------------------------------------------------------------------------

  /** `set(map(str.lower, xs))`. */
  function LowerSet(xs: seq<string>): set<string>
  {
    set x | x in xs :: Lower(x)
  }

  /** A subset is no larger than its superset, and equally large only when equal. */
  lemma {:induction false} SubsetSize<T>(a: set<T>, b: set<T>)
    requires a <= b
    ensures |a| <= |b|
    ensures |a| == |b| ==> a == b
    decreases |a|
  {
    if a != {} {
      var x :| x in a;
      SubsetSize(a - {x}, b - {x});
      assert |b - {x}| == |b| - 1;
      assert a == (a - {x}) + {x} && b == (b - {x}) + {x};
    } else if |b| == 0 {
      assert b == {};
    }
  }

  /**
   * `jaccard`: 0 when both lower-cased sets are empty, otherwise the size of
   * their intersection over the size of their union.  It lies in [0, 1], is 1
   * exactly when the sets are equal and not empty, and 0 exactly when they
   * share nothing.
   */
  function Jaccard(a: seq<string>, b: seq<string>): (r: real)
    ensures 0.0 <= r <= 1.0
    ensures r == 1.0 <==> LowerSet(a) == LowerSet(b) != {}
    ensures r == 0.0 <==> LowerSet(a) * LowerSet(b) == {}
  {
    var sa, sb := LowerSet(a), LowerSet(b);
    if sa == {} && sb == {} then
      0.0
    else
      SubsetSize(sa * sb, sa + sb);
      SubsetSize(sa, sa + sb);
      SubsetSize(sa * sb, sa);
      SubsetSize(sa * sb, sb);
      assert |sa + sb| > 0 by {
        if sa == {} {
          var y :| y in sb;
        } else {
          var y :| y in sa;
        }
      }
      Ratio(|sa * sb|, |sa + sb|);
      assert sa * sb == sa + sb ==> sa == sb;
      |sa * sb| as real / |sa + sb| as real
  }

  /** A count over a larger positive count: within [0, 1], 1 only when equal, 0 only for zero. */
  lemma Ratio(n: nat, d: nat)
    requires 0 < d && n <= d
    ensures 0.0 <= n as real / d as real <= 1.0
    ensures n as real / d as real == 1.0 <==> n == d
    ensures n as real / d as real == 0.0 <==> n == 0
  {
    var q := n as real / d as real;
    assert q * d as real == n as real;
  }

  /** The similarity does not depend on the order of its arguments. */
  lemma JaccardSymmetric(a: seq<string>, b: seq<string>)
    ensures Jaccard(a, b) == Jaccard(b, a)
  {
    assert LowerSet(a) * LowerSet(b) == LowerSet(b) * LowerSet(a);
    assert LowerSet(a) + LowerSet(b) == LowerSet(b) + LowerSet(a);
  }

  // ---------------------------------------------------------------------------
  // Top trait alignments
  // ---------------------------------------------------------------------------

  /** A trait vector: weights by trait name. */
  type TraitVec = map<string, real>

  /** `d.get(t, 0.0)`. */
  function Get(m: TraitVec, t: string): real
  {
    if t in m then m[t] else 0.0
  }

  /** How much trait t contributes: the product of the two weights. */
  function Contribution(user: TraitVec, career: TraitVec, t: string): real
  {
    Get(user, t) * Get(career, t)
  }

  /** The list `pairs` before sorting: one pair per trait, in the order the keys are visited. */
  function Pairs(user: TraitVec, career: TraitVec, keys: seq<string>): (pairs: seq<(string, real)>)
    ensures |pairs| == |keys|
    ensures forall i :: 0 <= i < |keys| ==> pairs[i] == (keys[i], Contribution(user, career, keys[i]))
  {
    if keys == [] then []
    else Pairs(user, career, keys[..|keys| - 1]) + [(keys[|keys| - 1], Contribution(user, career, keys[|keys| - 1]))]
  }

  predicate NonIncreasing(ps: seq<(string, real)>)
  {
    forall i, j :: 0 <= i < j < |ps| ==> ps[i].1 >= ps[j].1
  }

  /**
   * Insert p into a list sorted by decreasing value, after every pair whose
   * value is at least p's (so equal values keep their order).
   */
  function Insert(p: (string, real), ps: seq<(string, real)>): (r: seq<(string, real)>)
    requires NonIncreasing(ps)
    ensures NonIncreasing(r)
    ensures forall i :: 0 <= i < |r| ==> r[i] == p || r[i] in ps
  {
    if ps == [] then [p]
    else if ps[0].1 >= p.1 then
      var rest := Insert(p, ps[1..]);
      assert forall i :: 0 <= i < |rest| ==> ps[0].1 >= rest[i].1 by {
        forall i | 0 <= i < |rest| ensures ps[0].1 >= rest[i].1 {
          if rest[i] != p {
            var j :| 0 <= j < |ps[1..]| && ps[1..][j] == rest[i];
            assert ps[j + 1] == rest[i];
          }
        }
      }
      [ps[0]] + rest
    else
      [p] + ps
  }

  /** Inserting adds exactly the one pair. */
  lemma {:induction false} InsertPermutes(p: (string, real), ps: seq<(string, real)>)
    requires NonIncreasing(ps)
    ensures multiset(Insert(p, ps)) == multiset(ps) + multiset{p}
  {
    if ps != [] && ps[0].1 >= p.1 {
      InsertPermutes(p, ps[1..]);
      assert ps == [ps[0]] + ps[1..];
    }
  }

  /** No trait is named by two pairs. */
  predicate DistinctNames(ps: seq<(string, real)>)
  {
    forall i, j :: 0 <= i < j < |ps| ==> ps[i].0 != ps[j].0
  }

  /** Inserting a pair whose trait is new keeps the traits distinct. */
  lemma {:induction false} InsertDistinct(p: (string, real), ps: seq<(string, real)>)
    requires NonIncreasing(ps) && DistinctNames(ps)
    requires forall i :: 0 <= i < |ps| ==> ps[i].0 != p.0
    ensures DistinctNames(Insert(p, ps))
  {
    if ps != [] && ps[0].1 >= p.1 {
      InsertDistinct(p, ps[1..]);
      var rest := Insert(p, ps[1..]);
      forall i | 0 <= i < |rest|
        ensures rest[i].0 != ps[0].0
      {
        if rest[i] != p {
          var j :| 0 <= j < |ps[1..]| && ps[1..][j] == rest[i];
          assert ps[j + 1] == rest[i];
        }
      }
    }
  }

  /** Sorting keeps the traits distinct. */
  lemma {:induction false} SortDistinct(ps: seq<(string, real)>)
    requires DistinctNames(ps)
    ensures DistinctNames(SortByValue(ps))
  {
    if ps != [] {
      var n := |ps| - 1;
      var sorted := SortByValue(ps[..n]);
      SortDistinct(ps[..n]);
      forall i | 0 <= i < |sorted|
        ensures sorted[i].0 != ps[n].0
      {
        assert sorted[i] in multiset(ps[..n]);
        var j :| 0 <= j < n && ps[..n][j] == sorted[i];
      }
      InsertDistinct(ps[n], sorted);
    }
  }

  /** `pairs.sort(key=value, reverse=True)`, a stable sort by decreasing value. */
  function SortByValue(ps: seq<(string, real)>): (r: seq<(string, real)>)
    ensures NonIncreasing(r)
    ensures multiset(r) == multiset(ps)
  {
    if ps == [] then []
    else
      assert ps == ps[..|ps| - 1] + [ps[|ps| - 1]];
      InsertPermutes(ps[|ps| - 1], SortByValue(ps[..|ps| - 1]));
      Insert(ps[|ps| - 1], SortByValue(ps[..|ps| - 1]))
  }

  /** `[(t, v) for t, v in ps if v > 0]`. */
  function Positive(ps: seq<(string, real)>): (r: seq<(string, real)>)
    ensures |r| <= |ps|
    ensures forall i :: 0 <= i < |r| ==> r[i].1 > 0.0
    ensures forall i :: 0 <= i < |r| ==> r[i] in ps
  {
    if ps == [] then []
    else if ps[0].1 > 0.0 then [ps[0]] + Positive(ps[1..])
    else Positive(ps[1..])
  }

  /** In a list sorted by decreasing value, the positive pairs are a prefix, and all pairs before a positive one are kept. */
  lemma {:induction false} PositivePrefix(ps: seq<(string, real)>)
    requires NonIncreasing(ps)
    ensures Positive(ps) == ps[..|Positive(ps)|]
    ensures forall j :: 0 <= j < |ps| && ps[j].1 > 0.0 ==> j < |Positive(ps)|
  {
    if ps != [] {
      PositivePrefix(ps[1..]);
      if ps[0].1 <= 0.0 {
        assert forall j :: 0 <= j < |ps| ==> ps[j].1 <= 0.0;
        assert Positive(ps[1..]) == [];
      }
    }
  }

  /** Every pair is a trait of either vector with its positive contribution, in non-increasing order. */
  predicate Aligned(user: TraitVec, career: TraitVec, r: seq<(string, real)>)
  {
    && (forall i :: 0 <= i < |r| ==> r[i].1 > 0.0)
    && NonIncreasing(r)
    && forall i :: 0 <= i < |r| ==> (r[i].0 in user || r[i].0 in career) && r[i].1 == Contribution(user, career, r[i].0)
  }

  /** A trait with a positive contribution is missing from r only when r holds k pairs, none worth less. */
  ghost predicate NoneBetterLeftOut(user: TraitVec, career: TraitVec, r: seq<(string, real)>, k: nat)
  {
    forall t :: (t in user || t in career) && Contribution(user, career, t) > 0.0 && (forall i :: 0 <= i < |r| ==> r[i].0 != t) ==>
      |r| == k && forall i :: 0 <= i < |r| ==> r[i].1 >= Contribution(user, career, t)
  }

  /**
   * `top_trait_alignments`: over the traits of either vector, visited in the
   * order `keys` (Python's iteration order of that set), at most k pairs, all
   * with a positive contribution, in non-increasing order, each the
   * contribution of its trait; a positive trait left out means k pairs were
   * kept, all contributing at least as much.
   */
  function TopTraitAlignments(user: TraitVec, career: TraitVec, keys: seq<string>, k: nat): (r: seq<(string, real)>)
    requires forall t :: t in keys <==> t in user || t in career
    requires forall i, j :: 0 <= i < j < |keys| ==> keys[i] != keys[j]
    ensures |r| <= k
    ensures Aligned(user, career, r) && DistinctNames(r)
    ensures NoneBetterLeftOut(user, career, r, k)
  {
    TopTraitsSound(user, career, keys, k);
    TopTraitsDistinct(user, career, keys, k);
    TopTraitsKept(user, career, keys, k);
    Positive(Take(SortByValue(Pairs(user, career, keys)), k))
  }

  /** With each key listed once, the pairs kept name different traits. */
  lemma TopTraitsDistinct(user: TraitVec, career: TraitVec, keys: seq<string>, k: nat)
    requires forall i, j :: 0 <= i < j < |keys| ==> keys[i] != keys[j]
    ensures DistinctNames(Positive(Take(SortByValue(Pairs(user, career, keys)), k)))
  {
    var pairs := Pairs(user, career, keys);
    var sorted := SortByValue(pairs);
    var top := Take(sorted, k);
    assert DistinctNames(pairs);
    SortDistinct(pairs);
    KeptPrefix(sorted, k);
    DistinctPrefix(sorted, |Positive(top)|);
  }

  lemma DistinctPrefix(ps: seq<(string, real)>, n: nat)
    requires DistinctNames(ps) && n <= |ps|
    ensures DistinctNames(ps[..n])
  {
  }

  /** The pairs kept are at most k, positive, in non-increasing order, each a trait with its contribution. */
  lemma TopTraitsSound(user: TraitVec, career: TraitVec, keys: seq<string>, k: nat)
    requires forall t :: t in keys ==> t in user || t in career
    ensures var r := Positive(Take(SortByValue(Pairs(user, career, keys)), k));
      |r| <= k && Aligned(user, career, r)
  {
    var sorted := SortByValue(Pairs(user, career, keys));
    KeptPrefix(sorted, k);
    var r := Positive(Take(sorted, k));
    assert forall i :: 0 <= i < |r| ==> r[i] in sorted by {
      forall i | 0 <= i < |r| ensures r[i] in sorted {
        assert r[i] == sorted[i];
      }
    }
    PairsSound(user, career, keys, sorted, r);
  }

  /** The positive pairs among the first k of a sorted list are a sorted prefix of it. */
  lemma KeptPrefix(sorted: seq<(string, real)>, k: nat)
    requires NonIncreasing(sorted)
    ensures var r := Positive(Take(sorted, k));
      |r| <= k && r == sorted[..|r|] && NonIncreasing(r)
  {
    var top := Take(sorted, k);
    assert NonIncreasing(top);
    PositivePrefix(top);
  }

  /** A positive trait left out of the pairs kept means k pairs were kept, none worth less. */
  lemma TopTraitsKept(user: TraitVec, career: TraitVec, keys: seq<string>, k: nat)
    requires forall t :: t in keys <==> t in user || t in career
    ensures NoneBetterLeftOut(user, career, Positive(Take(SortByValue(Pairs(user, career, keys)), k)), k)
  {
    var sorted := SortByValue(Pairs(user, career, keys));
    var top := Take(sorted, k);
    assert NonIncreasing(top);
    PositivePrefix(top);
    TopTraitsComplete(user, career, keys, sorted, top, Positive(top), k);
  }

  /**
   * Let r be the positive prefix of the first pairs `top` of a list sorted by
   * decreasing value.  A positive pair j missing from r lies past `top`, and
   * then r is all of `top`, every pair worth at least pair j.
   */
  lemma LeftOut(sorted: seq<(string, real)>, top: seq<(string, real)>, r: seq<(string, real)>, j: nat)
    requires NonIncreasing(sorted) && |top| <= |sorted| && top == sorted[..|top|]
    requires |r| <= |top| && r == top[..|r|]
    requires forall i :: 0 <= i < |top| && top[i].1 > 0.0 ==> i < |r|
    requires j < |sorted| && sorted[j].1 > 0.0
    requires forall i :: 0 <= i < |r| ==> r[i] != sorted[j]
    ensures |top| <= j && |r| == |top|
    ensures forall i :: 0 <= i < |r| ==> r[i].1 >= sorted[j].1
  {
    if |top| > 0 {
      var last := |top| - 1;
      assert top[last] == sorted[last];
      assert last < |r|;
    }
    forall i | 0 <= i < |r| ensures r[i].1 >= sorted[j].1 {
      assert r[i] == sorted[i];
    }
  }

  /** Every pair of the sorted list is a trait of either vector with its contribution. */
  lemma PairsSound(user: TraitVec, career: TraitVec, keys: seq<string>, sorted: seq<(string, real)>, r: seq<(string, real)>)
    requires forall t :: t in keys ==> t in user || t in career
    requires multiset(sorted) == multiset(Pairs(user, career, keys))
    requires forall i :: 0 <= i < |r| ==> r[i] in sorted
    ensures forall i :: 0 <= i < |r| ==> (r[i].0 in user || r[i].0 in career) && r[i].1 == Contribution(user, career, r[i].0)
  {
    var pairs := Pairs(user, career, keys);
    forall i | 0 <= i < |r|
      ensures (r[i].0 in user || r[i].0 in career) && r[i].1 == Contribution(user, career, r[i].0)
    {
      assert r[i] in multiset(pairs);
      var n :| 0 <= n < |pairs| && pairs[n] == r[i];
    }
  }

  /** A positive trait left out of the result lies past the first k sorted pairs, all kept. */
  lemma TopTraitsComplete(user: TraitVec, career: TraitVec, keys: seq<string>, sorted: seq<(string, real)>,
                          top: seq<(string, real)>, r: seq<(string, real)>, k: nat)
    requires forall t :: t in keys <==> t in user || t in career
    requires NonIncreasing(sorted) && multiset(sorted) == multiset(Pairs(user, career, keys))
    requires |top| <= |sorted| && top == sorted[..|top|] && (|top| < |sorted| ==> |top| == k)
    requires |r| <= |top| && r == top[..|r|]
    requires forall j :: 0 <= j < |top| && top[j].1 > 0.0 ==> j < |r|
    ensures NoneBetterLeftOut(user, career, r, k)
  {
    var pairs := Pairs(user, career, keys);
    forall t | (t in user || t in career) && Contribution(user, career, t) > 0.0 && (forall i :: 0 <= i < |r| ==> r[i].0 != t)
      ensures |r| == k && forall i :: 0 <= i < |r| ==> r[i].1 >= Contribution(user, career, t)
    {
      var c := Contribution(user, career, t);
      var n :| 0 <= n < |keys| && keys[n] == t;
      assert pairs[n] == (t, c);
      assert (t, c) in multiset(sorted);
      var j :| 0 <= j < |sorted| && sorted[j] == (t, c);
      LeftOut(sorted, top, r, j);
    }
  }

  // ---------------------------------------------------------------------------
  // Bonus terms of a career's score
  // ---------------------------------------------------------------------------

  /**
   * The work-mode bonus: 0.05 when the requested mode (possibly absent) is
   * one of the career's modes, 0 otherwise.
   */
  function ModeBonus(remote: Option<string>, workModes: seq<string>): (bonus: real)
    ensures bonus == 0.05 || bonus == 0.0
    ensures bonus == 0.05 <==> exists i :: 0 <= i < |workModes| && remote == Some(workModes[i])
  {
    if remote.Some? && remote.value in workModes then 0.05 else 0.0
  }

  /** The two salary ranges share a unit: some amount lies in [umin, umax) and in [cmin, cmax). */
  ghost predicate SharedAmount(umin: int, umax: int, cmin: int, cmax: int)
  {
    exists x :: Within(x, umin, umax) && Within(x, cmin, cmax)
  }

  /** The amount x lies in the half-open range [lo, hi). */
  predicate Within(x: int, lo: int, hi: int)
  {
    lo <= x < hi
  }

  /**
   * The salary fit: 0.05 when the overlap `min(umax, cmax) - max(umin, cmin)`
   * is positive, else -0.05 when the career's maximum is below the user's
   * minimum, else 0.  A positive overlap means the ranges share an amount,
   * so ranges that only touch score 0.
   */
  function SalaryFit(umin: int, umax: int, cmin: int, cmax: int): (fit: real)
    ensures fit == 0.05 <==> SharedAmount(umin, umax, cmin, cmax)
    ensures fit == -0.05 <==> !SharedAmount(umin, umax, cmin, cmax) && cmax < umin
    ensures fit == 0.0 <==> !SharedAmount(umin, umax, cmin, cmax) && umin <= cmax
  {
    var overlap := Max(0, Min(umax, cmax) - Max(umin, cmin));
    if overlap > 0 then
      assert Within(Max(umin, cmin), umin, umax) && Within(Max(umin, cmin), cmin, cmax);
      0.05
    else if cmax < umin then -0.05
    else 0.0
  }

  /** Ranges that meet only at an end point earn no salary bonus. */
  lemma TouchingRanges(umin: int, umax: int, cmin: int, cmax: int)
    requires umin <= umax && cmin <= cmax
    requires umax == cmin || cmax == umin
    ensures SalaryFit(umin, umax, cmin, cmax) == 0.0
  {
  }

  /** The education horizons and paths, `EDU_ORDER`. */
  datatype Horizon = Short | Medium | Long

  function EduOrder(h: Horizon): nat
  {
    match h
    case Short => 0
    case Medium => 1
    case Long => 2
  }

  /**
   * The education fit: 0.03 when the career's path is no longer than the
   * user's horizon (medium when none was given), -0.03 otherwise.
   */
  function EducationFit(horizon: Option<Horizon>, path: Horizon): (fit: real)
    ensures fit == 0.03 || fit == -0.03
    ensures fit == 0.03 <==> EduOrder(path) <= EduOrder(if horizon.Some? then horizon.value else Medium)
  {
    var user := EduOrder(if horizon.Some? then horizon.value else Medium);
    if EduOrder(path) <= user then 0.03 else -0.03
  }

  /** A longer horizon never lowers the fit, and a short path always fits. */
  lemma EducationFitMonotone(h: Horizon, g: Horizon, path: Horizon)
    requires EduOrder(h) <= EduOrder(g)
    ensures EducationFit(Some(h), path) <= EducationFit(Some(g), path)
    ensures EducationFit(Some(h), Short) == 0.03
  {
  }

  // ---------------------------------------------------------------------------
  // Overlapping skills
  // ---------------------------------------------------------------------------

  /** Python's string order: lexicographic by code point. */
  predicate LexLess(a: string, b: string)
  {
    if a == [] then b != []
    else b != [] && (a[0] < b[0] || (a[0] == b[0] && LexLess(a[1..], b[1..])))
  }

  lemma {:induction false} LexIrreflexive(a: string)
    ensures !LexLess(a, a)
  {
    if a != [] {
      LexIrreflexive(a[1..]);
    }
  }

  lemma {:induction false} LexTotal(a: string, b: string)
    requires a != b
    ensures LexLess(a, b) || LexLess(b, a)
  {
    if a != [] && b != [] && a[0] == b[0] {
      assert a == [a[0]] + a[1..] && b == [b[0]] + b[1..];
      LexTotal(a[1..], b[1..]);
    }
  }

  lemma {:induction false} LexTransitive(a: string, b: string, c: string)
    requires LexLess(a, b) && LexLess(b, c)
    ensures LexLess(a, c)
  {
    if a != [] && a[0] == b[0] && b[0] == c[0] {
      LexTransitive(a[1..], b[1..], c[1..]);
    }
  }

  predicate StrictlySorted(s: seq<string>)
  {
    forall i, j :: 0 <= i < j < |s| ==> LexLess(s[i], s[j])
  }

  /** Add x to a strictly sorted list unless it is there already. */
  function InsertUnique(x: string, s: seq<string>): (r: seq<string>)
    requires StrictlySorted(s)
    ensures StrictlySorted(r)
    ensures forall y :: y in r <==> y == x || y in s
  {
    if s == [] then [x]
    else if x == s[0] then s
    else if LexLess(x, s[0]) then
      assert forall j :: 0 < j < |s| ==> LexLess(x, s[j]) by {
        forall j | 0 < j < |s| ensures LexLess(x, s[j]) {
          LexTransitive(x, s[0], s[j]);
        }
      }
      [x] + s
    else
      LexTotal(x, s[0]);
      var rest := InsertUnique(x, s[1..]);
      assert forall j :: 0 <= j < |rest| ==> LexLess(s[0], rest[j]) by {
        forall j | 0 <= j < |rest| ensures LexLess(s[0], rest[j]) {
          if rest[j] != x {
            assert rest[j] in s[1..];
            var m :| 0 <= m < |s[1..]| && s[1..][m] == rest[j];
            assert s[m + 1] == rest[j];
          }
        }
      }
      [s[0]] + rest
  }

  /** `sorted(set(xs))`: each element once, in increasing order. */
  function SortedSet(xs: seq<string>): (r: seq<string>)
    ensures StrictlySorted(r)
    ensures forall y :: y in r <==> y in xs
  {
    if xs == [] then [] else InsertUnique(xs[|xs| - 1], SortedSet(xs[..|xs| - 1]))
  }

  /** A user skill qualifies when its lower case is the lower case of some career skill. */
  predicate SkillMatches(skill: string, careerSkills: seq<string>)
  {
    exists x :: x in careerSkills && Lower(x) == Lower(skill)
  }

  /** `[s for s in user_skills if s.lower() in [x.lower() for x in c.skills]]`. */
  function MatchingSkills(userSkills: seq<string>, careerSkills: seq<string>): (r: seq<string>)
    ensures forall s :: s in r <==> s in userSkills && SkillMatches(s, careerSkills)
  {
    if userSkills == [] then []
    else
      var last := userSkills[|userSkills| - 1];
      assert userSkills == userSkills[..|userSkills| - 1] + [last];
      MatchingSkills(userSkills[..|userSkills| - 1], careerSkills)
      + (if Lower(last) in LowerList(careerSkills) then [last] else [])
  }

  /** `[x.lower() for x in xs]`. */
  function LowerList(xs: seq<string>): (r: seq<string>)
    ensures |r| == |xs| && forall i :: 0 <= i < |xs| ==> r[i] == Lower(xs[i])
  {
    if xs == [] then [] else [Lower(xs[0])] + LowerList(xs[1..])
  }

  /**
   * The overlapping skills of a career: the user's skills (as typed) whose
   * lower case matches a career skill, without repeats, in increasing order.
   */
  function OverlappingSkills(userSkills: seq<string>, careerSkills: seq<string>): (r: seq<string>)
    ensures StrictlySorted(r)
    ensures forall s :: s in r <==> s in userSkills && SkillMatches(s, careerSkills)
  {
    SortedSet(MatchingSkills(userSkills, careerSkills))
  }

  /** Of two sorted lists without repeats holding the same strings, neither starts below the other. */
  lemma HeadNotBelow(r: seq<string>, s: seq<string>)
    requires StrictlySorted(r) && StrictlySorted(s) && r != [] && s != []
    requires forall y :: y in r <==> y in s
    ensures !LexLess(r[0], s[0])
  {
    if LexLess(r[0], s[0]) {
      assert r[0] in s;
      var j :| 0 <= j < |s| && s[j] == r[0];
      LexIrreflexive(r[0]);
      if j > 0 {
        LexTransitive(r[0], s[0], s[j]);
      }
    }
  }

  /** Sorted lists without repeats holding the same strings are equal: the overlap is determined. */
  lemma {:induction false} StrictlySortedUnique(r: seq<string>, s: seq<string>)
    requires StrictlySorted(r) && StrictlySorted(s)
    requires forall y :: y in r <==> y in s
    ensures r == s
  {
    if r != [] && s != [] {
      HeadNotBelow(r, s);
      HeadNotBelow(s, r);
      if r[0] != s[0] {
        LexTotal(r[0], s[0]);
      }
      forall y ensures y in r[1..] <==> y in s[1..] {
        if y in r[1..] {
          var i :| 1 <= i < |r| && r[i] == y;
          LexIrreflexive(y);
          assert y in s && y != s[0];
          var j :| 0 <= j < |s| && s[j] == y;
          assert y == s[1..][j - 1];
        }
        if y in s[1..] {
          var i :| 1 <= i < |s| && s[i] == y;
          LexIrreflexive(y);
          assert y in r && y != r[0];
          var j :| 0 <= j < |r| && r[j] == y;
          assert y == r[1..][j - 1];
        }
      }
      StrictlySortedUnique(r[1..], s[1..]);
      assert r == [r[0]] + r[1..] && s == [s[0]] + s[1..];
    } else {
      EmptyTogether(r, s);
    }
  }

  lemma EmptyTogether(r: seq<string>, s: seq<string>)
    requires forall y :: y in r <==> y in s
    ensures r == [] <==> s == []
  {
    if r != [] {
      assert r[0] in s;
    }
    if s != [] {
      assert s[0] in r;
    }
  }

  // ---------------------------------------------------------------------------
  // Questionnaire answers
  // ---------------------------------------------------------------------------

  /** The eleven traits every user starts with, at 0.0. */
  const BaseTraits: set<string> := {
    "collaboration", "creativity", "analysis", "empathy", "tech", "variety",
    "risk", "physical", "leadership", "stability", "worklife"}

  function RealMax(a: real, b: real): real
  {
    if a < b then b else a
  }

  /** The traits named by the chosen answers. */
  function AnswerKeys(answers: seq<TraitVec>): set<string>
  {
    if answers == [] then {} else AnswerKeys(answers[..|answers| - 1]) + answers[|answers| - 1].Keys
  }

  /** The weight trait t ends with: the largest of 0.0 and its weights in the chosen answers. */
  function Best(answers: seq<TraitVec>, t: string): (w: real)
    ensures w >= 0.0
    ensures forall i :: 0 <= i < |answers| ==> w >= Get(answers[i], t)
  {
    if answers == [] then 0.0
    else RealMax(Best(answers[..|answers| - 1], t), Get(answers[|answers| - 1], t))
  }

  /** The weight is attained: it is 0.0 or the weight of some chosen answer. */
  lemma {:induction false} BestAttained(answers: seq<TraitVec>, t: string)
    ensures Best(answers, t) == 0.0 || exists i :: 0 <= i < |answers| && t in answers[i] && Best(answers, t) == answers[i][t]
  {
    if answers != [] {
      var front := answers[..|answers| - 1];
      BestAttained(front, t);
      if Best(answers, t) != Best(front, t) {
        assert t in answers[|answers| - 1];
      } else if Best(front, t) != 0.0 {
        var i :| 0 <= i < |front| && t in front[i] && Best(front, t) == front[i][t];
        assert answers[i] == front[i];
      }
    }
  }

  /** Answering more questions never lowers a trait. */
  lemma {:induction false} BestMonotone(answers: seq<TraitVec>, n: nat, t: string)
    requires n <= |answers|
    ensures Best(answers[..n], t) <= Best(answers, t)
    decreases |answers| - n
  {
    if n < |answers| {
      BestMonotone(answers[..|answers| - 1], n, t);
      assert answers[..|answers| - 1][..n] == answers[..n];
    } else {
      assert answers[..n] == answers;
    }
  }

  /** A trait no answer names keeps 0.0. */
  lemma {:induction false} BestUnnamed(answers: seq<TraitVec>, t: string)
    requires t !in AnswerKeys(answers)
    ensures Best(answers, t) == 0.0
  {
    if answers != [] {
      BestUnnamed(answers[..|answers| - 1], t);
    }
  }

  /**
   * The questionnaire loop of `run_cli`: start from the base traits at 0.0;
   * for each chosen answer, raise every trait it names to the larger of its
   * current weight and the answer's.  Every trait ends at the largest of 0.0
   * and its weights among the answers, whatever order the entries are
   * visited in.
   */
  method FoldAnswers(answers: seq<TraitVec>) returns (traits: TraitVec)
    ensures traits.Keys == BaseTraits + AnswerKeys(answers)
    ensures forall t :: t in traits ==> traits[t] == Best(answers, t)
  {
    traits := map t | t in BaseTraits :: 0.0;
    var i := 0;
    while i < |answers|
      invariant 0 <= i <= |answers|
      invariant traits.Keys == BaseTraits + AnswerKeys(answers[..i])
      invariant forall t :: t in traits ==> traits[t] == Best(answers[..i], t)
    {
      traits := RaiseTraits(traits, answers[i], answers, i);
      i := i + 1;
    }
    assert answers[..i] == answers;
  }

  /**
   * The inner loop of the questionnaire: `for k, v in mapping.items()`, each
   * trait raised to the larger of its weight and the answer's.
   */
  method RaiseTraits(traits: TraitVec, mapping: TraitVec, ghost answers: seq<TraitVec>, ghost i: nat)
    returns (raised: TraitVec)
    requires i < |answers| && mapping == answers[i]
    requires traits.Keys == BaseTraits + AnswerKeys(answers[..i])
    requires forall t :: t in traits ==> traits[t] == Best(answers[..i], t)
    ensures raised.Keys == BaseTraits + AnswerKeys(answers[..i + 1])
    ensures forall t :: t in raised ==> raised[t] == Best(answers[..i + 1], t)
  {
    ghost var before := answers[..i];
    ghost var after := answers[..i + 1];
    assert after[..|after| - 1] == before;
    raised := traits;
    var pending := mapping.Keys;
    ghost var done: set<string> := {};
    while pending != {}
      invariant pending + done == mapping.Keys && pending !! done
      invariant PartlyRaised(raised, before, after, done)
      decreases pending
    {
      var k :| k in pending;
      RaiseOne(raised, k, before, after, done);
      raised := raised[k := RealMax(Get(raised, k), mapping[k])];
      pending := pending - {k};
      done := done + {k};
    }
  }

  /** Midway through the inner loop: the traits in `done` are raised, the others not yet. */
  ghost predicate PartlyRaised(raised: TraitVec, before: seq<TraitVec>, after: seq<TraitVec>, done: set<string>)
  {
    && raised.Keys == BaseTraits + AnswerKeys(before) + done
    && forall t :: t in raised ==> raised[t] == if t in done then Best(after, t) else Best(before, t)
  }

  /** Raising one more trait of the last answer keeps `PartlyRaised`. */
  lemma RaiseOne(raised: TraitVec, k: string, before: seq<TraitVec>, after: seq<TraitVec>, done: set<string>)
    requires after != [] && after[..|after| - 1] == before && k in after[|after| - 1] && k !in done
    requires PartlyRaised(raised, before, after, done)
    ensures PartlyRaised(raised[k := RealMax(Get(raised, k), after[|after| - 1][k])], before, after, done + {k})
  {
    if k !in raised {
      BestUnnamed(before, k);
    }
  }

  /** With every weight in [0, 1], so is every folded trait. */
  lemma {:induction false} BestBounded(answers: seq<TraitVec>, t: string)
    requires forall i, u :: 0 <= i < |answers| && u in answers[i] ==> 0.0 <= answers[i][u] <= 1.0
    ensures 0.0 <= Best(answers, t) <= 1.0
  {
    if answers != [] {
      BestBounded(answers[..|answers| - 1], t);
    }
  }

  // ---------------------------------------------------------------------------
  // Comma-separated lists
  // ---------------------------------------------------------------------------

  /** The characters `str.strip` removes (its ASCII ones). */
  predicate IsSpace(c: char)
  {
    c == ' ' || c == '\t' || c == '\n' || c == '\r' || c == '\U{b}' || c == '\U{c}' || '\U{1c}' <= c <= '\U{1f}'
  }

  /** How many white-space characters `str.lstrip` removes: all the leading ones. */
  function LeadingSpaces(s: string): (n: nat)
    ensures n <= |s|
    ensures forall i :: 0 <= i < n ==> IsSpace(s[i])
    ensures n < |s| ==> !IsSpace(s[n])
  {
    if s != [] && IsSpace(s[0]) then 1 + LeadingSpaces(s[1..]) else 0
  }

  /** How many white-space characters `str.rstrip` removes: all the trailing ones. */
  function TrailingSpaces(s: string): (n: nat)
    ensures n <= |s|
    ensures forall i :: |s| - n <= i < |s| ==> IsSpace(s[i])
    ensures n < |s| ==> !IsSpace(s[|s| - 1 - n])
  {
    if s != [] && IsSpace(s[|s| - 1]) then 1 + TrailingSpaces(s[..|s| - 1]) else 0
  }

  /**
   * `str.strip`: the string without its leading and trailing white space.
   * The result is a slice s[i..j] with only white space outside it and none
   * at its ends, which fixes it.
   */
  function Strip(s: string): (r: string)
    ensures Stripped(r)
    ensures exists i, j :: SpaceOutside(s, i, j) && r == s[i..j]
    ensures forall c :: c in r ==> c in s
    ensures Stripped(s) ==> r == s
  {
    var i := LeadingSpaces(s);
    var rest := s[i..];
    var j := i + |rest| - TrailingSpaces(rest);
    var r := rest[..|rest| - TrailingSpaces(rest)];
    assert r == s[i..j];
    assert SpaceOutside(s, i, j);
    assert forall c :: c in r ==> c in rest;
    assert forall c :: c in rest ==> c in s;
    r
  }

  /** Any slice with only white space outside it and none at its ends is what `strip` returns. */
  lemma StripUnique(s: string, i: int, j: int)
    requires SpaceOutside(s, i, j) && Stripped(s[i..j])
    ensures Strip(s) == s[i..j]
  {
    var n := LeadingSpaces(s);
    var rest := s[n..];
    var t := TrailingSpaces(rest);
    var e := n + |rest| - t;
    assert forall m :: e <= m < |s| ==> IsSpace(s[m]) by {
      forall m | e <= m < |s|
        ensures IsSpace(s[m])
      {
        assert s[m] == rest[m - n];
      }
    }
    assert n < e ==> !IsSpace(s[e - 1]) by {
      if n < e {
        assert s[e - 1] == rest[|rest| - 1 - t];
      }
    }
    assert i < j ==> !IsSpace(s[i]) && !IsSpace(s[j - 1]);
  }

  /** Every character of s before position i or from position j on is white space. */
  predicate SpaceOutside(s: string, i: int, j: int)
  {
    0 <= i <= j <= |s| && forall m :: 0 <= m < |s| && (m < i || j <= m) ==> IsSpace(s[m])
  }

  predicate Stripped(s: string)
  {
    s == [] || (!IsSpace(s[0]) && !IsSpace(s[|s| - 1]))
  }

  /** `s.split(sep)`: the pieces between the separators, empty ones included. */
  function Split(s: string, sep: char): (pieces: seq<string>)
    ensures |pieces| >= 1
    ensures forall i :: 0 <= i < |pieces| ==> sep !in pieces[i]
    ensures forall i, c :: 0 <= i < |pieces| && c in pieces[i] ==> c in s
  {
    if s == [] then [[]]
    else
      var rest := Split(s[1..], sep);
      assert forall c :: c in s[1..] ==> c in s;
      if s[0] == sep then [[]] + rest
      else [[s[0]] + rest[0]] + rest[1..]
  }

  /** `sep.join(pieces)`. */
  function Join(pieces: seq<string>, sep: char): string
    requires |pieces| >= 1
  {
    if |pieces| == 1 then pieces[0] else pieces[0] + [sep] + Join(pieces[1..], sep)
  }

  /** Joining the pieces restores the string. */
  lemma {:induction false} JoinSplit(s: string, sep: char)
    ensures Join(Split(s, sep), sep) == s
  {
    if s != [] {
      var rest := Split(s[1..], sep);
      JoinSplit(s[1..], sep);
      if s[0] == sep {
        assert Split(s, sep)[1..] == rest;
      } else {
        var pieces := Split(s, sep);
        if |rest| > 1 {
          assert pieces[1..] == rest[1..];
          assert Join(rest, sep) == rest[0] + [sep] + Join(rest[1..], sep);
        }
      }
    }
  }

  /** Joining starts with the first character of the first piece, when it has one. */
  lemma JoinFirst(pieces: seq<string>, sep: char)
    requires |pieces| >= 1 && pieces[0] != []
    ensures Join(pieces, sep) == [pieces[0][0]] + Join([pieces[0][1..]] + pieces[1..], sep)
  {
    var shorter := [pieces[0][1..]] + pieces[1..];
    if |pieces| > 1 {
      assert shorter[1..] == pieces[1..];
    }
  }

  /** Splitting pieces that hold no separator recovers them. */
  lemma {:induction false} SplitJoin(pieces: seq<string>, sep: char)
    requires |pieces| >= 1
    requires forall i :: 0 <= i < |pieces| ==> sep !in pieces[i]
    ensures Split(Join(pieces, sep), sep) == pieces
    decreases |pieces|, |pieces[0]|
  {
    var p := pieces[0];
    if p != [] {
      var shorter := [p[1..]] + pieces[1..];
      SplitJoin(shorter, sep);
      JoinFirst(pieces, sep);
      assert p[0] != sep by { assert p[0] in p; }
      assert [p[0]] + shorter[0] == p;
      assert shorter[1..] == pieces[1..];
    } else if |pieces| > 1 {
      SplitJoin(pieces[1..], sep);
      assert Join(pieces, sep) == [sep] + Join(pieces[1..], sep);
      assert Join(pieces, sep)[1..] == Join(pieces[1..], sep);
      assert pieces == [[]] + pieces[1..];
    }
  }

  /** `[p.strip() for p in pieces if p.strip()]`. */
  function CleanPieces(pieces: seq<string>): (r: seq<string>)
    ensures |r| <= |pieces|
    ensures NonBlank(r)
    ensures CleanItems(pieces) ==> CleanItems(r)
    ensures CommaFree(pieces) ==> CommaFree(r)
  {
    if pieces == [] then []
    else
      var p := Strip(pieces[0]);
      var head := if p != [] then [p] else [];
      var rest := CleanPieces(pieces[1..]);
      PieceFacts(pieces);
      AppendItems(head, rest);
      head + rest
  }

  /** Every item is non-empty and has no white space at either end. */
  predicate NonBlank(items: seq<string>)
  {
    forall i :: 0 <= i < |items| ==> items[i] != [] && Stripped(items[i])
  }

  /** No character is upper case or a comma. */
  predicate Clean(s: string)
  {
    forall c :: c in s ==> c != ',' && !IsUpper(c)
  }

  predicate CommaFree(items: seq<string>)
  {
    forall i :: 0 <= i < |items| ==> ',' !in items[i]
  }

  predicate CleanItems(items: seq<string>)
  {
    forall i :: 0 <= i < |items| ==> Clean(items[i])
  }

  /** What the first piece and the rest inherit from the whole list, and the strip of the first. */
  lemma PieceFacts(pieces: seq<string>)
    requires pieces != []
    ensures var head := if Strip(pieces[0]) != [] then [Strip(pieces[0])] else [];
      && NonBlank(head)
      && (CleanItems(pieces) ==> CleanItems(pieces[1..]) && CleanItems(head))
      && (CommaFree(pieces) ==> CommaFree(pieces[1..]) && CommaFree(head))
  {
    var p := Strip(pieces[0]);
    if CleanItems(pieces) {
      assert Clean(pieces[0]);
      assert forall i :: 0 <= i < |pieces[1..]| ==> pieces[1..][i] == pieces[i + 1];
    }
    if CommaFree(pieces) {
      assert ',' !in pieces[0];
      assert forall i :: 0 <= i < |pieces[1..]| ==> pieces[1..][i] == pieces[i + 1];
    }
  }

  /** The item properties hold of a concatenation when they hold of both parts. */
  lemma AppendItems(a: seq<string>, b: seq<string>)
    ensures NonBlank(a) && NonBlank(b) ==> NonBlank(a + b)
    ensures CleanItems(a) && CleanItems(b) ==> CleanItems(a + b)
    ensures CommaFree(a) && CommaFree(b) ==> CommaFree(a + b)
  {
    var ab := a + b;
    assert forall i :: |a| <= i < |ab| ==> ab[i] == b[i - |a|];
  }

  /** One piece is kept, stripped, exactly when it is not blank. */
  lemma CleanPiecesSingle(p: string)
    ensures CleanPieces([p]) == if Strip(p) == [] then [] else [Strip(p)]
  {
    assert [p][1..] == [];
  }

  /** Cleaning works piece by piece: it keeps the order of the pieces. */
  lemma {:induction false} CleanPiecesAppend(a: seq<string>, b: seq<string>)
    ensures CleanPieces(a + b) == CleanPieces(a) + CleanPieces(b)
  {
    if a == [] {
      assert a + b == b;
    } else {
      var p := Strip(a[0]);
      var head := if p != [] then [p] else [];
      assert (a + b)[0] == a[0];
      assert (a + b)[1..] == a[1..] + b;
      assert CleanPieces(a + b) == head + CleanPieces(a[1..] + b);
      CleanPiecesAppend(a[1..], b);
    }
  }

  /** `xs[:n]`. */
  function Take<T>(xs: seq<T>, n: nat): (r: seq<T>)
    ensures |r| <= n && |r| <= |xs| && r == xs[..|r|]
    ensures |xs| >= n ==> |r| == n
    ensures |xs| < n ==> r == xs
  {
    if |xs| <= n then xs else xs[..n]
  }

  /** The first items of a list keep the item properties. */
  lemma TakeItems(items: seq<string>, n: nat)
    ensures NonBlank(items) ==> NonBlank(Take(items, n))
    ensures CleanItems(items) ==> CleanItems(Take(items, n))
  {
    var r := Take(items, n);
    assert forall i :: 0 <= i < |r| ==> r[i] == items[i];
  }

  /**
   * The interests line: stripped, lower-cased, split on commas, each piece
   * stripped, blank pieces dropped, the first three kept.  Every item is
   * non-empty, stripped, lower-case and comma-free.
   */
  function ParseInterests(line: string): (items: seq<string>)
    ensures |items| <= 3
    ensures NonBlank(items) && CleanItems(items)
  {
    var lowered := Lower(Strip(line));
    var pieces := Split(lowered, ',');
    SplitClean(lowered);
    TakeItems(CleanPieces(pieces), 3);
    Take(CleanPieces(pieces), 3)
  }

  /** Splitting text with no upper-case letter on commas gives clean pieces. */
  lemma SplitClean(s: string)
    requires forall i :: 0 <= i < |s| ==> !IsUpper(s[i])
    ensures CleanItems(Split(s, ','))
  {
    var pieces := Split(s, ',');
    forall i | 0 <= i < |pieces| ensures Clean(pieces[i]) {
      forall c | c in pieces[i] ensures c != ',' && !IsUpper(c) {
        assert c in s;
      }
    }
  }

  /**
   * The skills line: stripped, split on commas, each piece stripped and
   * lower-cased, blank pieces dropped, the first five kept.  Every item is
   * non-empty, stripped, lower-case and comma-free.
   */
  function ParseSkills(line: string): (items: seq<string>)
    ensures |items| <= 5
    ensures NonBlank(items) && CleanItems(items)
  {
    var pieces := Split(Strip(line), ',');
    assert CommaFree(pieces);
    var cleaned := CleanPieces(pieces);
    LowerCleaned(cleaned);
    TakeItems(LowerList(cleaned), 5);
    Take(LowerList(cleaned), 5)
  }

  /** Lower-casing comma-free, stripped, non-empty items keeps them so. */
  lemma LowerCleaned(items: seq<string>)
    requires NonBlank(items) && CommaFree(items)
    ensures NonBlank(LowerList(items)) && CleanItems(LowerList(items))
  {
    var lowered := LowerList(items);
    forall i | 0 <= i < |items| ensures lowered[i] != [] && Stripped(lowered[i]) && Clean(lowered[i]) {
      assert ',' !in items[i];
      LowerKeeps(items[i]);
    }
  }

  /** Lower-casing a character keeps white space and commas, and makes neither. */
  lemma LowerCharKeeps(c: char)
    ensures IsSpace(LowerChar(c)) <==> IsSpace(c)
    ensures LowerChar(c) == ',' <==> c == ','
  {
  }

  /** Lower-casing keeps the commas and the stripped ends. */
  lemma LowerKeeps(s: string)
    ensures ',' !in s ==> Clean(Lower(s))
    ensures Stripped(s) <==> Stripped(Lower(s))
  {
    var r := Lower(s);
    if s != [] {
      LowerCharKeeps(s[0]);
      LowerCharKeeps(s[|s| - 1]);
    }
    if ',' !in s {
      forall i | 0 <= i < |r| ensures r[i] != ',' && !IsUpper(r[i]) {
        LowerCharKeeps(s[i]);
      }
    }
  }

  /** Items that come out of parsing unchanged. */
  predicate ParsedItems(items: seq<string>)
  {
    NonBlank(items) && CleanItems(items)
  }

  /** Joined with commas, parsed items form a stripped line with no upper-case letter. */
  lemma {:induction false} JoinParsed(items: seq<string>)
    requires |items| >= 1 && ParsedItems(items)
    ensures Stripped(Join(items, ','))
    ensures forall c :: c in Join(items, ',') ==> !IsUpper(c)
  {
    var line := Join(items, ',');
    assert Clean(items[0]) && items[0] != [];
    if |items| > 1 {
      var rest := items[1..];
      assert ParsedItems(rest) by {
        assert forall i :: 0 <= i < |rest| ==> rest[i] == items[i + 1];
      }
      JoinParsed(rest);
      var tail := Join(rest, ',');
      assert line == items[0] + [','] + tail;
      assert line[0] == items[0][0];
      assert line[|line| - 1] == tail[|tail| - 1];
      forall c | c in line ensures !IsUpper(c) {
        assert c in items[0] || c == ',' || c in tail;
      }
    }
  }

  /** Cleaning pieces that are already stripped and non-blank keeps them all. */
  lemma {:induction false} CleanPiecesKeeps(items: seq<string>)
    requires NonBlank(items)
    ensures CleanPieces(items) == items
  {
    if items != [] {
      var rest := items[1..];
      assert NonBlank(rest) by {
        assert forall i :: 0 <= i < |rest| ==> rest[i] == items[i + 1];
      }
      CleanPiecesKeeps(rest);
      assert items[0] != [] && Stripped(items[0]);
      CleanPiecesSingle(items[0]);
      CleanPiecesAppend([items[0]], rest);
      HeadRest(items);
    }
  }

  /** Lower-casing items with no upper-case letter keeps them. */
  lemma {:induction false} LowerListKeeps(items: seq<string>)
    requires CleanItems(items)
    ensures LowerList(items) == items
  {
    if items != [] {
      assert Clean(items[0]);
      assert forall i :: 0 <= i < |items[0]| ==> !IsUpper(items[0][i]) by {
        forall i | 0 <= i < |items[0]| ensures !IsUpper(items[0][i]) {
          assert items[0][i] in items[0];
        }
      }
      LowerOfLower(items[0]);
      assert CleanItems(items[1..]) by {
        assert forall i :: 0 <= i < |items[1..]| ==> items[1..][i] == items[i + 1];
      }
      LowerListKeeps(items[1..]);
    }
  }

  /** Parsed items hold no comma. */
  lemma ParsedCommaFree(items: seq<string>)
    requires CleanItems(items)
    ensures forall i :: 0 <= i < |items| ==> ',' !in items[i]
  {
    forall i | 0 <= i < |items| ensures ',' !in items[i] {
      assert Clean(items[i]);
    }
  }

  /** Parsing a comma-joined list of interests gives back its first three items. */
  lemma ParseInterestsJoin(items: seq<string>)
    requires |items| >= 1 && ParsedItems(items)
    ensures ParseInterests(Join(items, ',')) == Take(items, 3)
  {
    var line := Join(items, ',');
    JoinParsed(items);
    assert Strip(line) == line;
    LowerOfLower(line);
    ParsedCommaFree(items);
    SplitJoin(items, ',');
    CleanPiecesKeeps(items);
  }

  /** Parsing a comma-joined list of skills gives back its first five items. */
  lemma ParseSkillsJoin(items: seq<string>)
    requires |items| >= 1 && ParsedItems(items)
    ensures ParseSkills(Join(items, ',')) == Take(items, 5)
  {
    var line := Join(items, ',');
    JoinParsed(items);
    assert Strip(line) == line;
    ParsedCommaFree(items);
    SplitJoin(items, ',');
    CleanPiecesKeeps(items);
    LowerListKeeps(items);
  }

  // ---------------------------------------------------------------------------
  // Parsing any line
  // ---------------------------------------------------------------------------

  /** Where the strip of s lies in s. */
  lemma StripBounds(s: string) returns (i: int, j: int)
    ensures SpaceOutside(s, i, j) && Strip(s) == s[i..j]
  {
    var stripped := Strip(s);
    i, j :| SpaceOutside(s, i, j) && stripped == s[i..j];
  }

  /** Every character of s outside the slice from i to j is white space. */
  lemma SpaceParts(s: string, i: int, j: int)
    requires SpaceOutside(s, i, j)
    ensures s == (s[..i] + s[i..j]) + s[j..]
    ensures forall k :: 0 <= k < |s[..i]| ==> IsSpace(s[..i][k])
    ensures forall k :: 0 <= k < |s[j..]| ==> IsSpace(s[j..][k])
  {
    assert forall k :: 0 <= k < |s[j..]| ==> s[j..][k] == s[j + k];
  }

  /** White space before a string keeps a slice with white space outside it. */
  lemma SpaceOutsideFront(w: string, x: string, i: int, j: int)
    requires forall k :: 0 <= k < |w| ==> IsSpace(w[k])
    requires SpaceOutside(x, i, j)
    ensures SpaceOutside(w + x, |w| + i, |w| + j) && (w + x)[|w| + i..|w| + j] == x[i..j]
  {
    var s := w + x;
    forall m | 0 <= m < |s| && (m < |w| + i || |w| + j <= m) ensures IsSpace(s[m]) {
      if m >= |w| {
        assert s[m] == x[m - |w|];
      }
    }
  }

  /** White space after a string keeps a slice with white space outside it. */
  lemma SpaceOutsideBack(x: string, w: string, i: int, j: int)
    requires forall k :: 0 <= k < |w| ==> IsSpace(w[k])
    requires SpaceOutside(x, i, j)
    ensures SpaceOutside(x + w, i, j) && (x + w)[i..j] == x[i..j]
  {
    var s := x + w;
    forall m | 0 <= m < |s| && (m < i || j <= m) ensures IsSpace(s[m]) {
      if m >= |x| {
        assert s[m] == w[m - |x|];
      }
    }
  }

  /** White space before a string does not change its strip. */
  lemma StripPadFront(w: string, x: string)
    requires forall i :: 0 <= i < |w| ==> IsSpace(w[i])
    ensures Strip(w + x) == Strip(x)
  {
    var i, j := StripBounds(x);
    SpaceOutsideFront(w, x, i, j);
    StripUnique(w + x, |w| + i, |w| + j);
  }

  /** White space after a string does not change its strip. */
  lemma StripPadBack(x: string, w: string)
    requires forall i :: 0 <= i < |w| ==> IsSpace(w[i])
    ensures Strip(x + w) == Strip(x)
  {
    var i, j := StripBounds(x);
    SpaceOutsideBack(x, w, i, j);
    StripUnique(x + w, i, j);
  }

  /** Text before a join becomes part of the first piece. */
  lemma JoinPadFront(w: string, pieces: seq<string>, sep: char)
    requires |pieces| >= 1
    ensures w + Join(pieces, sep) == Join([w + pieces[0]] + pieces[1..], sep)
  {
    var q := [w + pieces[0]] + pieces[1..];
    if |pieces| > 1 {
      assert q[1..] == pieces[1..];
    }
  }

  /** Text after a join becomes part of the last piece. */
  lemma {:induction false} JoinPadBack(pieces: seq<string>, w: string, sep: char)
    requires |pieces| >= 1
    ensures Join(pieces, sep) + w == Join(pieces[..|pieces| - 1] + [pieces[|pieces| - 1] + w], sep)
  {
    var n := |pieces|;
    var q := pieces[..n - 1] + [pieces[n - 1] + w];
    if n > 1 {
      var rest := pieces[1..];
      JoinPadBack(rest, w, sep);
      assert q[0] == pieces[0];
      assert q[1..] == rest[..|rest| - 1] + [rest[|rest| - 1] + w];
    }
  }

  /** Padding the first piece with white space does not change what cleaning keeps. */
  lemma CleanPadFront(w: string, x: string, rest: seq<string>)
    requires forall i :: 0 <= i < |w| ==> IsSpace(w[i])
    ensures CleanPieces([w + x] + rest) == CleanPieces([x] + rest)
  {
    CleanPiecesSingle(w + x);
    CleanPiecesSingle(x);
    StripPadFront(w, x);
    assert CleanPieces([w + x]) == CleanPieces([x]);
    CleanPiecesAppend([w + x], rest);
    CleanPiecesAppend([x], rest);
  }

  /** Padding the last piece with white space does not change what cleaning keeps. */
  lemma CleanPadBack(init: seq<string>, x: string, w: string)
    requires forall i :: 0 <= i < |w| ==> IsSpace(w[i])
    ensures CleanPieces(init + [x + w]) == CleanPieces(init + [x])
  {
    CleanPiecesSingle(x + w);
    CleanPiecesSingle(x);
    StripPadBack(x, w);
    assert CleanPieces([x + w]) == CleanPieces([x]);
    CleanPiecesAppend(init, [x + w]);
    CleanPiecesAppend(init, [x]);
  }

  /** Text with no separator before a string joins its first piece. */
  lemma SplitPadFront(w: string, t: string, sep: char)
    requires sep !in w
    ensures Split(w + t, sep) == [w + Split(t, sep)[0]] + Split(t, sep)[1..]
  {
    var pieces := Split(t, sep);
    JoinSplit(t, sep);
    JoinPadFront(w, pieces, sep);
    SplitJoin([w + pieces[0]] + pieces[1..], sep);
  }

  /** Text with no separator after a string joins its last piece. */
  lemma SplitPadBack(t: string, w: string, sep: char)
    requires sep !in w
    ensures var pieces := Split(t, sep);
      Split(t + w, sep) == pieces[..|pieces| - 1] + [pieces[|pieces| - 1] + w]
  {
    var pieces := Split(t, sep);
    var n := |pieces|;
    JoinSplit(t, sep);
    JoinPadBack(pieces, w, sep);
    var q := pieces[..n - 1] + [pieces[n - 1] + w];
    assert forall k :: 0 <= k < |q| ==> sep !in q[k] by {
      forall k | 0 <= k < |q| ensures sep !in q[k] {
        assert sep !in pieces[k];
      }
    }
    SplitJoin(q, sep);
  }

  /** A non-empty list is its first element followed by the rest. */
  lemma HeadRest<T>(xs: seq<T>)
    requires |xs| >= 1
    ensures [xs[0]] + xs[1..] == xs
  {
  }

  /** A non-empty list is its elements up to the last, then the last. */
  lemma InitLast<T>(xs: seq<T>)
    requires |xs| >= 1
    ensures xs[..|xs| - 1] + [xs[|xs| - 1]] == xs
  {
  }

  /** White space holds no comma. */
  lemma SpaceNoComma(w: string)
    requires forall i :: 0 <= i < |w| ==> IsSpace(w[i])
    ensures ',' !in w
  {
    forall i | 0 <= i < |w| ensures w[i] != ',' {
      assert IsSpace(w[i]);
    }
  }

  /** White space before a line changes nothing that cleaning keeps. */
  lemma CleanSplitPadFront(w: string, t: string)
    requires forall i :: 0 <= i < |w| ==> IsSpace(w[i])
    ensures CleanPieces(Split(w + t, ',')) == CleanPieces(Split(t, ','))
  {
    var pieces := Split(t, ',');
    SpaceNoComma(w);
    SplitPadFront(w, t, ',');
    CleanPadFront(w, pieces[0], pieces[1..]);
    HeadRest(pieces);
  }

  /** White space after a line changes nothing that cleaning keeps. */
  lemma CleanSplitPadBack(t: string, w: string)
    requires forall i :: 0 <= i < |w| ==> IsSpace(w[i])
    ensures CleanPieces(Split(t + w, ',')) == CleanPieces(Split(t, ','))
  {
    var pieces := Split(t, ',');
    var n := |pieces|;
    SpaceNoComma(w);
    SplitPadBack(t, w, ',');
    CleanPadBack(pieces[..n - 1], pieces[n - 1], w);
    InitLast(pieces);
  }

  /** Stripping the line first changes only white space at the ends of its outer pieces. */
  lemma SplitStrip(s: string)
    ensures CleanPieces(Split(Strip(s), ',')) == CleanPieces(Split(s, ','))
  {
    var i, j := StripBounds(s);
    SpaceParts(s, i, j);
    var m, w1, w2 := s[i..j], s[..i], s[j..];
    CleanSplitPadBack(w1 + m, w2);
    CleanSplitPadFront(w1, m);
  }

  /** Lower-casing the line lower-cases each of its pieces. */
  lemma {:induction false} SplitLower(x: string)
    ensures Split(Lower(x), ',') == LowerList(Split(x, ','))
  {
    if x != [] {
      var rest := Split(x[1..], ',');
      SplitLower(x[1..]);
      assert Lower(x)[1..] == Lower(x[1..]);
      LowerCharKeeps(x[0]);
      if x[0] != ',' {
        assert Lower([x[0]] + rest[0]) == [LowerChar(x[0])] + Lower(rest[0]);
        assert LowerList(Split(x, ','))[1..] == LowerList(rest)[1..];
      } else {
        assert LowerList(Split(x, ','))[1..] == LowerList(rest);
      }
    }
  }

  /** Lower-casing and stripping can be done in either order. */
  lemma StripLower(p: string)
    ensures Strip(Lower(p)) == Lower(Strip(p))
  {
    var i, j := StripBounds(p);
    SpaceOutsideLower(p, i, j);
    LowerKeeps(p[i..j]);
    StripUnique(Lower(p), i, j);
  }

  /** Lower-casing keeps a slice with white space outside it. */
  lemma SpaceOutsideLower(p: string, i: int, j: int)
    requires SpaceOutside(p, i, j)
    ensures SpaceOutside(Lower(p), i, j) && Lower(p)[i..j] == Lower(p[i..j])
  {
    var l := Lower(p);
    forall m | 0 <= m < |l| && (m < i || j <= m) ensures IsSpace(l[m]) {
      LowerCharKeeps(p[m]);
    }
  }

  /** Lower-casing a concatenation lower-cases both parts. */
  lemma LowerListAppend(a: seq<string>, b: seq<string>)
    ensures LowerList(a + b) == LowerList(a) + LowerList(b)
  {
    var ab := a + b;
    assert forall i :: |a| <= i < |ab| ==> ab[i] == b[i - |a|];
  }

  /** One piece: lower-casing before or after cleaning gives the same. */
  lemma CleanLowerSingle(p: string)
    ensures CleanPieces([Lower(p)]) == LowerList(CleanPieces([p]))
  {
    CleanPiecesSingle(p);
    CleanPiecesSingle(Lower(p));
    StripLower(p);
  }

  /** Lower-casing and cleaning pieces can be done in either order. */
  lemma {:induction false} CleanLower(pieces: seq<string>)
    ensures CleanPieces(LowerList(pieces)) == LowerList(CleanPieces(pieces))
  {
    if pieces != [] {
      var p, rest := pieces[0], pieces[1..];
      HeadRest(pieces);
      LowerListAppend([p], rest);
      CleanPiecesAppend([Lower(p)], LowerList(rest));
      CleanPiecesAppend([p], rest);
      LowerListAppend(CleanPieces([p]), CleanPieces(rest));
      CleanLowerSingle(p);
      CleanLower(rest);
    }
  }

  /**
   * Any interests line: its comma-separated pieces, each stripped and
   * lower-cased, blank ones dropped, in order, the first three kept.
   */
  lemma ParseInterestsPieces(line: string)
    ensures ParseInterests(line) == Take(LowerList(CleanPieces(Split(line, ','))), 3)
  {
    SplitLower(Strip(line));
    CleanLower(Split(Strip(line), ','));
    SplitStrip(line);
  }

  /**
   * Any skills line: its comma-separated pieces, each stripped and
   * lower-cased, blank ones dropped, in order, the first five kept.
   */
  lemma ParseSkillsPieces(line: string)
    ensures ParseSkills(line) == Take(LowerList(CleanPieces(Split(line, ','))), 5)
  {
    SplitStrip(line);
  }
}
