/** Feature ranking (idability.py, funcRankRarity and funcRankAbundGap): each sample's
    features are put in an order from which funcMakeOneCode pops the most promising
    one first, i.e. from the END of the list. */
module Ranking {
  import opened Sequences
  import opened Dicts
  import opened Tables

  /** The two rankings offered on the command line. */
  datatype Strategy = Rarity | AbundanceGap

  /** Score `a` goes strictly before score `b`: higher first when `descending`
      (`reverse=True`), lower first otherwise. */
  predicate Precedes(a: real, b: real, descending: bool)
  {
    if descending then a > b else a < b
  }

  /** Every element has a score. */
  ghost predicate Scored<T(!new)>(xs: seq<T>, score: map<T, real>)
  {
    forall x :: x in xs ==> x in score
  }

  /** Insert `x` in front of the first element it does not strictly follow. As `x`
      comes earlier in the input than every element of `ys`, it goes before its ties. */
  function Insert<T(!new)>(ys: seq<T>, x: T, score: map<T, real>, descending: bool): (r: seq<T>)
    requires x in score && Scored(ys, score)
    ensures multiset(r) == multiset(ys) + multiset{x}
    ensures forall y :: y in r <==> y == x || y in ys
    decreases |ys|
  {
    if ys == [] || !Precedes(score[ys[0]], score[x], descending) then [x] + ys
    else
      assert ys == [ys[0]] + ys[1..];
      [ys[0]] + Insert(ys[1..], x, score, descending)
  }

  /** Python's `sorted(xs, key=score.get, reverse=descending)`, a stable sort. */
  function SortBy<T(!new)>(xs: seq<T>, score: map<T, real>, descending: bool): (r: seq<T>)
    requires Scored(xs, score)
    ensures multiset(r) == multiset(xs)
    decreases |xs|
  {
    if xs == [] then []
    else
      assert xs == [xs[0]] + xs[1..];
      var rest := SortBy(xs[1..], score, descending);
      assert forall y :: y in rest ==> y in multiset(xs[1..]);
      Insert(rest, xs[0], score, descending)
  }

  /** No element strictly precedes an element placed before it. */
  ghost predicate SortedBy<T(!new)>(ys: seq<T>, score: map<T, real>, descending: bool)
    requires Scored(ys, score)
  {
    forall i, j :: 0 <= i < j < |ys| ==> !Precedes(score[ys[j]], score[ys[i]], descending)
  }

  /** The elements of `xs` whose score is `v`, in the order of `xs`. */
  function WithScore<T(!new)>(xs: seq<T>, score: map<T, real>, v: real): (r: seq<T>)
    requires Scored(xs, score)
    ensures |r| <= |xs|
    decreases |xs|
  {
    if xs == [] then []
    else
      assert xs == [xs[0]] + xs[1..];
      (if score[xs[0]] == v then [xs[0]] else []) + WithScore(xs[1..], score, v)
  }

  lemma {:induction false} InsertSorted<T(!new)>(ys: seq<T>, x: T, score: map<T, real>, descending: bool)
    requires x in score && Scored(ys, score) && SortedBy(ys, score, descending)
    ensures Scored(Insert(ys, x, score, descending), score)
    ensures SortedBy(Insert(ys, x, score, descending), score, descending)
    decreases |ys|
  {
    var r := Insert(ys, x, score, descending);
    if ys == [] || !Precedes(score[ys[0]], score[x], descending) {
      forall i, j | 0 <= i < j < |r|
        ensures !Precedes(score[r[j]], score[r[i]], descending)
      {
        if i == 0 {
          assert r[j] == ys[j - 1];
          assert !Precedes(score[ys[j - 1]], score[ys[0]], descending) || j - 1 == 0;
        } else {
          assert r[i] == ys[i - 1] && r[j] == ys[j - 1];
        }
      }
    } else {
      var tail := ys[1..];
      assert ys == [ys[0]] + tail;
      InsertSorted(tail, x, score, descending);
      var rest := Insert(tail, x, score, descending);
      assert r == [ys[0]] + rest;
      forall i, j | 0 <= i < j < |r|
        ensures !Precedes(score[r[j]], score[r[i]], descending)
      {
        if i == 0 {
          var y := rest[j - 1];
          assert y in rest;
          if y != x {
            assert y in tail;
            var k :| 0 <= k < |tail| && tail[k] == y;
            assert ys[k + 1] == y;
          }
        } else {
          assert r[i] == rest[i - 1] && r[j] == rest[j - 1];
        }
      }
    }
  }

  /** `sorted` returns its input in key order. */
  lemma {:induction false} SortBySorted<T(!new)>(xs: seq<T>, score: map<T, real>, descending: bool)
    requires Scored(xs, score)
    ensures Scored(SortBy(xs, score, descending), score)
    ensures SortedBy(SortBy(xs, score, descending), score, descending)
    decreases |xs|
  {
    var r := SortBy(xs, score, descending);
    forall y | y in r
      ensures y in score
    {
      assert y in multiset(r);
    }
    if xs != [] {
      assert xs == [xs[0]] + xs[1..];
      SortBySorted(xs[1..], score, descending);
      InsertSorted(SortBy(xs[1..], score, descending), xs[0], score, descending);
    }
  }

  lemma WithScoreCons<T(!new)>(y: T, ys: seq<T>, score: map<T, real>, v: real)
    requires y in score && Scored(ys, score)
    ensures Scored([y] + ys, score)
    ensures WithScore([y] + ys, score, v) == (if score[y] == v then [y] else []) + WithScore(ys, score, v)
  {
    assert ([y] + ys)[0] == y && ([y] + ys)[1..] == ys;
  }

  lemma {:induction false} InsertWithScore<T(!new)>(ys: seq<T>, x: T, score: map<T, real>, descending: bool, v: real)
    requires x in score && Scored(ys, score)
    ensures WithScore(Insert(ys, x, score, descending), score, v) ==
            (if score[x] == v then [x] else []) + WithScore(ys, score, v)
    decreases |ys|
  {
    if ys == [] || !Precedes(score[ys[0]], score[x], descending) {
      WithScoreCons(x, ys, score, v);
    } else {
      var tail := ys[1..];
      assert ys == [ys[0]] + tail;
      var rest := Insert(tail, x, score, descending);
      assert Insert(ys, x, score, descending) == [ys[0]] + rest;
      InsertWithScore(tail, x, score, descending, v);
      WithScoreCons(ys[0], rest, score, v);
      WithScoreCons(ys[0], tail, score, v);
      if score[x] == v {
        assert score[ys[0]] != v;
        assert WithScore(rest, score, v) == [x] + WithScore(tail, score, v);
      } else {
        assert WithScore(rest, score, v) == [] + WithScore(tail, score, v);
      }
    }
  }

  /** `sorted` is stable: the elements sharing a score keep their relative order. */
  lemma {:induction false} SortByStable<T(!new)>(xs: seq<T>, score: map<T, real>, descending: bool, v: real)
    requires Scored(xs, score)
    ensures Scored(SortBy(xs, score, descending), score)
    ensures WithScore(SortBy(xs, score, descending), score, v) == WithScore(xs, score, v)
    decreases |xs|
  {
    var r := SortBy(xs, score, descending);
    forall y | y in r
      ensures y in score
    {
      assert y in multiset(r);
    }
    if xs != [] {
      assert xs == [xs[0]] + xs[1..];
      var rest := SortBy(xs[1..], score, descending);
      assert forall y :: y in rest ==> y in multiset(xs[1..]);
      SortByStable(xs[1..], score, descending, v);
      InsertWithScore(rest, xs[0], score, descending, v);
    }
  }

  /** The prevalence of each feature, `len(fsv[feature])`, the key of funcRankRarity. */
  function RarityScores(fsv: Table, fs: seq<Feature>): (m: map<Feature, real>)
    requires forall f :: f in fs ==> f in fsv.vals
    ensures Scored(fs, m)
  {
    map f | f in fs :: |fsv.vals[f].vals| as real
  }

  /** `max([nondetect] + [v for k, v in column.items() if v <= focal and k != sample])`,
      the keys of `column` being scanned in the order `ks`. */
  function LargestLesser(column: Dict<Sample, real>, ks: seq<Sample>, sample: Sample, focal: real, nondetect: real): (m: real)
    ensures m >= nondetect
    ensures forall k :: k in ks && k in column.vals && k != sample && column.vals[k] <= focal ==> column.vals[k] <= m
    ensures m == nondetect || exists k :: k in ks && k in column.vals && k != sample && column.vals[k] <= focal && m == column.vals[k]
    decreases |ks|
  {
    if ks == [] then nondetect
    else
      var k := ks[|ks| - 1];
      assert ks == ks[..|ks| - 1] + [k];
      var rest := LargestLesser(column, ks[..|ks| - 1], sample, focal, nondetect);
      if k in column.vals && k != sample && column.vals[k] <= focal && column.vals[k] > rest then column.vals[k]
      else rest
  }

  /** The abundance gap of `feature` in `sample`: how far its value `focal` stands above
      the largest value no greater than it in any other sample, or above `nondetect`. */
  function Gap(fsv: Table, sample: Sample, feature: Feature, focal: real, nondetect: real): (g: real)
    requires ValidNested(fsv) && feature in fsv.vals
    ensures g <= focal - nondetect
    ensures nondetect <= focal ==> g >= 0.0
    ensures forall s :: Has(fsv, feature, s) && s != sample && fsv.vals[feature].vals[s] <= focal ==>
              g <= focal - fsv.vals[feature].vals[s]
    ensures g == focal - nondetect ||
            exists s :: Has(fsv, feature, s) && s != sample && fsv.vals[feature].vals[s] <= focal &&
                        g == focal - fsv.vals[feature].vals[s]
  {
    var column := fsv.vals[feature];
    var m := LargestLesser(column, column.keys, sample, focal, nondetect);
    focal - m
  }

  /** `ranked` is what a stable sort of `row` by `score` returns: a permutation of it,
      in score order, with ties in their order in `row`. */
  ghost predicate IsStableSort<T(!new)>(ranked: seq<T>, row: seq<T>, score: map<T, real>, descending: bool)
    requires Scored(row, score)
  {
    && multiset(ranked) == multiset(row)
    && Scored(ranked, score)
    && SortedBy(ranked, score, descending)
    && forall v :: WithScore(ranked, score, v) == WithScore(row, score, v)
  }

  lemma SortByIsStableSort<T(!new)>(row: seq<T>, score: map<T, real>, descending: bool)
    requires Scored(row, score)
    ensures IsStableSort(SortBy(row, score, descending), row, score, descending)
  {
    SortBySorted(row, score, descending);
    forall v ensures WithScore(SortBy(row, score, descending), score, v) == WithScore(row, score, v) {
      SortByStable(row, score, descending, v);
    }
  }

  /** Every feature of `row` is a key of `fsv` (else the rankers raise KeyError). */
  ghost predicate RowCovered(fsv: Table, row: Dict<Feature, real>)
  {
    forall f :: f in row.vals ==> f in fsv.vals
  }

  /** Every feature any sample carries is a key of `fsv`. */
  ghost predicate Covers(fsv: Table, sfv: Table)
  {
    forall s :: s in sfv.vals ==> RowCovered(fsv, sfv.vals[s])
  }

  /** The gaps of a sample's features, the dict `gaps` of funcRankAbundGap. */
  function GapScores(fsv: Table, sample: Sample, row: Dict<Feature, real>, nondetect: real): (m: map<Feature, real>)
    requires ValidNested(fsv) && row.Valid() && RowCovered(fsv, row)
    ensures Scored(row.keys, m)
  {
    map f | f in row.vals :: Gap(fsv, sample, f, row.vals[f], nondetect)
  }

  /** The sort key of each strategy. */
  function Scores(strategy: Strategy, fsv: Table, sample: Sample, row: Dict<Feature, real>, nondetect: real): (m: map<Feature, real>)
    requires ValidNested(fsv) && row.Valid() && RowCovered(fsv, row)
    ensures Scored(row.keys, m)
  {
    match strategy
    case Rarity => RarityScores(fsv, row.keys)
    case AbundanceGap => GapScores(fsv, sample, row, nondetect)
  }

  /** Rarity sorts with `reverse=True`, the abundance gap without. */
  function Descending(strategy: Strategy): bool
  {
    strategy == Rarity
  }

  /** The ranked feature list of one sample: its features stably sorted by the
      strategy's key. */
  function Ranked(strategy: Strategy, fsv: Table, sample: Sample, row: Dict<Feature, real>, nondetect: real): (r: seq<Feature>)
    requires ValidNested(fsv) && row.Valid() && RowCovered(fsv, row)
    ensures IsStableSort(r, row.keys, Scores(strategy, fsv, sample, row, nondetect), Descending(strategy))
  {
    var score := Scores(strategy, fsv, sample, row, nondetect);
    SortByIsStableSort(row.keys, score, Descending(strategy));
    SortBy(row.keys, score, Descending(strategy))
  }

  /** The dict `sorted_features` after the first `i` samples of `sfv` were ranked. */
  ghost predicate RankedThrough(strategy: Strategy, sfv: Table, fsv: Table, sorted: Dict<Sample, seq<Feature>>, i: nat, nondetect: real)
  {
    && ValidNested(sfv) && ValidNested(fsv) && Covers(fsv, sfv)
    && i <= |sfv.keys|
    && sorted.Valid() && sorted.keys == sfv.keys[..i]
    && forall s :: s in sorted.vals ==> s in sfv.vals && sorted.vals[s] == Ranked(strategy, fsv, s, sfv.vals[s], nondetect)
  }

  lemma RankedStart(strategy: Strategy, sfv: Table, fsv: Table, nondetect: real)
    requires ValidNested(sfv) && ValidNested(fsv) && Covers(fsv, sfv)
    ensures RankedThrough(strategy, sfv, fsv, Empty(), 0, nondetect)
  {
  }

  lemma RankedStep(strategy: Strategy, sfv: Table, fsv: Table, sorted: Dict<Sample, seq<Feature>>, i: nat, nondetect: real, ranked: seq<Feature>)
    requires RankedThrough(strategy, sfv, fsv, sorted, i, nondetect) && i < |sfv.keys|
    requires ranked == Ranked(strategy, fsv, sfv.keys[i], sfv.vals[sfv.keys[i]], nondetect)
    ensures RankedThrough(strategy, sfv, fsv, sorted.Put(sfv.keys[i], ranked), i + 1, nondetect)
  {
    var sample := sfv.keys[i];
    assert sfv.keys[..i + 1] == sfv.keys[..i] + [sample];
    assert sample !in sfv.keys[..i];
  }

  lemma RankedEnd(strategy: Strategy, sfv: Table, fsv: Table, sorted: Dict<Sample, seq<Feature>>, nondetect: real)
    requires RankedThrough(strategy, sfv, fsv, sorted, |sfv.keys|, nondetect)
    ensures sorted.Valid() && sorted.keys == sfv.keys
    ensures forall s :: s in sfv.vals ==> sorted.vals[s] == Ranked(strategy, fsv, s, sfv.vals[s], nondetect)
  {
    assert sfv.keys[..|sfv.keys|] == sfv.keys;
  }

  /** funcRankRarity: each sample's features, most prevalent first, so that the rarest
      is popped first. */
  method RankRarity(sfv: Table, fsv: Table, nondetect: real) returns (sorted: Dict<Sample, seq<Feature>>)
    requires ValidNested(sfv) && ValidNested(fsv) && Covers(fsv, sfv)
    ensures sorted.Valid() && sorted.keys == sfv.keys
    ensures forall s :: s in sfv.vals ==> sorted.vals[s] == Ranked(Rarity, fsv, s, sfv.vals[s], nondetect)
  {
    sorted := Empty();
    RankedStart(Rarity, sfv, fsv, nondetect);
    var i := 0;
    while i < |sfv.keys|
      invariant RankedThrough(Rarity, sfv, fsv, sorted, i, nondetect)
    {
      var sample := sfv.keys[i];
      var fdict := sfv.vals[sample];
      var ranked := SortBy(fdict.keys, RarityScores(fsv, fdict.keys), true);
      RankedStep(Rarity, sfv, fsv, sorted, i, nondetect, ranked);
      sorted := sorted.Put(sample, ranked);
      i := i + 1;
    }
    RankedEnd(Rarity, sfv, fsv, sorted, nondetect);
  }

  /** The inner loop of funcRankAbundGap: the gap of every feature of one sample. */
  method GapsOf(fsv: Table, sample: Sample, row: Dict<Feature, real>, nondetect: real) returns (gaps: Dict<Feature, real>)
    requires ValidNested(fsv) && row.Valid() && RowCovered(fsv, row)
    ensures gaps.Valid() && gaps.keys == row.keys
    ensures gaps.vals == GapScores(fsv, sample, row, nondetect)
  {
    gaps := Empty();
    var j := 0;
    while j < |row.keys|
      invariant 0 <= j <= |row.keys|
      invariant gaps.Valid() && gaps.keys == row.keys[..j]
      invariant forall f :: f in gaps.vals ==> f in row.vals && gaps.vals[f] == Gap(fsv, sample, f, row.vals[f], nondetect)
    {
      var feature := row.keys[j];
      var focal := row.vals[feature];
      assert row.keys[..j + 1] == row.keys[..j] + [feature];
      assert feature !in row.keys[..j];
      gaps := gaps.Put(feature, Gap(fsv, sample, feature, focal, nondetect));
      j := j + 1;
    }
    assert row.keys[..j] == row.keys;
    assert forall f :: f in gaps.vals ==> gaps.vals[f] == GapScores(fsv, sample, row, nondetect)[f];
  }

  /** funcRankAbundGap: each sample's features by increasing abundance gap, so that the
      feature standing out most is popped first. */
  method RankAbundGap(sfv: Table, fsv: Table, nondetect: real) returns (sorted: Dict<Sample, seq<Feature>>)
    requires ValidNested(sfv) && ValidNested(fsv) && Covers(fsv, sfv)
    ensures sorted.Valid() && sorted.keys == sfv.keys
    ensures forall s :: s in sfv.vals ==> sorted.vals[s] == Ranked(AbundanceGap, fsv, s, sfv.vals[s], nondetect)
  {
    sorted := Empty();
    RankedStart(AbundanceGap, sfv, fsv, nondetect);
    var i := 0;
    while i < |sfv.keys|
      invariant RankedThrough(AbundanceGap, sfv, fsv, sorted, i, nondetect)
    {
      var sample := sfv.keys[i];
      var fdict := sfv.vals[sample];
      var gaps := GapsOf(fsv, sample, fdict, nondetect);
      var ranked := SortBy(gaps.keys, gaps.vals, false);
      RankedStep(AbundanceGap, sfv, fsv, sorted, i, nondetect, ranked);
      sorted := sorted.Put(sample, ranked);
      i := i + 1;
    }
    RankedEnd(AbundanceGap, sfv, fsv, sorted, nondetect);
  }
}
