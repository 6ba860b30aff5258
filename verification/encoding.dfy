/** The encode half of idability (idability.py, "encode part"): for each sample, a
    greedy search for a short list of features that no other sample carries in full. */
module Encoding {
  import opened Sequences
  import opened Dicts
  import opened Tables
  import opened Ranking

  /** A subset as large as its superset is the superset. */
  lemma SubsetSameSize<T>(a: set<T>, b: set<T>)
    requires a <= b && |a| == |b|
    ensures a == b
  {
    var d := b - a;
    assert b == a + d && a * d == {};
    assert |b| == |a| + |d|;
    assert d == {};
  }

  /** A subset is no larger than its superset, a proper subset strictly smaller. */
  lemma SubsetSize<T>(a: set<T>, b: set<T>)
    requires a <= b
    ensures |a| <= |b|
    ensures a < b ==> |a| < |b|
  {
    var d := b - a;
    assert b == a + d && a * d == {};
    assert |b| == |a| + |d|;
    if a < b {
      var x :| x in b && x !in a;
      assert x in d;
    }
  }

  /** funcJaccard: the size of the intersection over the size of the union. An empty
      union is a division by zero in the source. */
  function Jaccard(a: set<Sample>, b: set<Sample>): (r: real)
    requires a + b != {}
  {
    (|a * b| as real) / (|a + b| as real)
  }

  /** A ratio of a count to a positive count at least as large. */
  lemma Ratio(i: nat, u: nat)
    requires 0 < u && i <= u
    ensures 0.0 <= (i as real) / (u as real) <= 1.0
    ensures (i as real) / (u as real) == 1.0 <==> i == u
    ensures (i as real) / (u as real) == 0.0 <==> i == 0
  {
    var r := (i as real) / (u as real);
    assert r * (u as real) == i as real;
  }

  /** funcJaccard lies between 0 and 1; it is 1 exactly for equal sets and 0 exactly
      for disjoint ones. */
  lemma JaccardRange(a: set<Sample>, b: set<Sample>)
    requires a + b != {}
    ensures 0.0 <= Jaccard(a, b) <= 1.0
    ensures Jaccard(a, b) == 1.0 <==> a == b
    ensures Jaccard(a, b) == 0.0 <==> a * b == {}
  {
    SubsetSize(a * b, a + b);
    Ratio(|a * b|, |a + b|);
    if |a * b| == |a + b| {
      SubsetSameSize(a * b, a + b);
      assert a == b;
    }
    assert a == b ==> a * b == a + b;
  }

  /** funcJaccard does not depend on the order of its arguments. */
  lemma JaccardSymmetric(a: set<Sample>, b: set<Sample>)
    requires a + b != {}
    ensures b + a != {} && Jaccard(a, b) == Jaccard(b, a)
  {
    assert a * b == b * a && a + b == b + a;
  }

  /** `feature2` survives the knockout by `feature` at similarity cutoff `t`: their
      sets of carrying samples are less than `t` alike. */
  ghost predicate Unlike(fsvSets: KeySets, feature: Feature, feature2: Feature, t: real)
  {
    var a, b := Carriers(fsvSets, feature), Carriers(fsvSets, feature2);
    a + b != {} && Jaccard(a, b) < t
  }

  /** `list(filter(lambda feature2: funcJaccard(...) < t, features))`. */
  function KnockOut(fsvSets: KeySets, feature: Feature, features: seq<Feature>, t: real): (r: seq<Feature>)
    requires Carriers(fsvSets, feature) != {}
    ensures IsSubseq(r, features)
    ensures forall f :: f in r <==> f in features && Unlike(fsvSets, feature, f, t)
    decreases |features|
  {
    if features == [] then []
    else
      var f := features[|features| - 1];
      var front := features[..|features| - 1];
      assert features == front + [f];
      var r := KnockOut(fsvSets, feature, front, t);
      if Jaccard(Carriers(fsvSets, feature), Carriers(fsvSets, f)) < t then
        SubseqSnoc(r, front, f);
        r + [f]
      else
        SubseqExtend(r, front, f);
        r
  }

  /** The samples other than `sample`: the starting `other_samples`. */
  function Others(sfvSets: KeySets, sample: Sample): set<Sample>
  {
    set s | s in sfvSets.vals && s != sample
  }

  /** What is left of `others` after intersecting it with the carriers of each feature
      of `code` in turn. */
  function Remaining(others: set<Sample>, fsvSets: KeySets, code: seq<Feature>): (r: set<Sample>)
    ensures r <= others
    decreases |code|
  {
    if code == [] then others
    else Remaining(others, fsvSets, code[..|code| - 1]) * Carriers(fsvSets, code[|code| - 1])
  }

  lemma RemainingSnoc(others: set<Sample>, fsvSets: KeySets, code: seq<Feature>, f: Feature)
    ensures Remaining(others, fsvSets, code + [f]) == Remaining(others, fsvSets, code) * Carriers(fsvSets, f)
  {
    assert (code + [f])[..|code|] == code;
  }

  /** The samples still remaining are exactly those that carry every feature of the code;
      so the order of the code does not matter. */
  lemma {:induction false} RemainingCarryAll(others: set<Sample>, fsvSets: KeySets, code: seq<Feature>, s: Sample)
    ensures s in Remaining(others, fsvSets, code) <==> s in others && forall f :: f in code ==> s in Carriers(fsvSets, f)
    decreases |code|
  {
    if code != [] {
      var front, last := code[..|code| - 1], code[|code| - 1];
      assert code == front + [last];
      RemainingCarryAll(others, fsvSets, front, s);
    }
  }

  /** A code with more features leaves fewer samples remaining. */
  lemma RemainingAntitone(others: set<Sample>, fsvSets: KeySets, small: seq<Feature>, large: seq<Feature>)
    requires forall f :: f in small ==> f in large
    ensures Remaining(others, fsvSets, large) <= Remaining(others, fsvSets, small)
  {
    forall s | s in Remaining(others, fsvSets, large)
      ensures s in Remaining(others, fsvSets, small)
    {
      RemainingCarryAll(others, fsvSets, large, s);
      RemainingCarryAll(others, fsvSets, small, s);
    }
  }

  /** The code funcMakeOneCode builds from the features it popped, in popping order: a
      feature is dropped exactly when it leaves the number of remaining samples unchanged
      and that number is not zero; otherwise it is kept, so once no other sample remains
      every further feature lengthens the code. */
  function Kept(others: set<Sample>, fsvSets: KeySets, tried: seq<Feature>): (code: seq<Feature>)
    decreases |tried|
  {
    if tried == [] then []
    else
      var front, x := tried[..|tried| - 1], tried[|tried| - 1];
      var before := Remaining(others, fsvSets, front);
      if |before * Carriers(fsvSets, x)| == |before| && |before| != 0 then Kept(others, fsvSets, front)
      else Kept(others, fsvSets, front) + [x]
  }

  /** Dropping a feature never changes the remaining samples: the kept code leaves the
      same samples as all the popped features, and is drawn from them in order. */
  lemma {:induction false} KeptRemaining(others: set<Sample>, fsvSets: KeySets, tried: seq<Feature>)
    ensures Remaining(others, fsvSets, Kept(others, fsvSets, tried)) == Remaining(others, fsvSets, tried)
    ensures IsSubseq(Kept(others, fsvSets, tried), tried)
    decreases |tried|
  {
    if tried != [] {
      var front, x := tried[..|tried| - 1], tried[|tried| - 1];
      assert tried == front + [x];
      KeptRemaining(others, fsvSets, front);
      var code := Kept(others, fsvSets, front);
      var before := Remaining(others, fsvSets, front);
      RemainingSnoc(others, fsvSets, front, x);
      RemainingSnoc(others, fsvSets, code, x);
      if |before * Carriers(fsvSets, x)| == |before| && |before| != 0 {
        SubsetSameSize(before * Carriers(fsvSets, x), before);
        SubseqExtend(code, front, x);
      } else {
        SubseqSnoc(code, front, x);
      }
    }
  }

  /** A feature popped when no other sample remains is kept. */
  lemma KeptSnocEmpty(others: set<Sample>, fsvSets: KeySets, tried: seq<Feature>, x: Feature)
    requires Remaining(others, fsvSets, tried) == {}
    ensures Kept(others, fsvSets, tried + [x]) == Kept(others, fsvSets, tried) + [x]
  {
    assert (tried + [x])[..|tried|] == tried;
  }

  /** Once the popped features leave no other sample, every feature popped after them is
      kept: the code is lengthened beyond the point of uniqueness. */
  lemma {:induction false} KeptPadding(others: set<Sample>, fsvSets: KeySets, tried: seq<Feature>, pad: seq<Feature>)
    requires Remaining(others, fsvSets, tried) == {}
    ensures Kept(others, fsvSets, tried + pad) == Kept(others, fsvSets, tried) + pad
    ensures Remaining(others, fsvSets, tried + pad) == {}
    decreases |pad|
  {
    if pad == [] {
      assert tried + pad == tried;
    } else {
      var front, x := pad[..|pad| - 1], pad[|pad| - 1];
      FrontLast(pad);
      KeptPadding(others, fsvSets, tried, front);
      KeptSnocEmpty(others, fsvSets, tried + front, x);
      RemainingSnoc(others, fsvSets, tried + front, x);
      AppendSnoc(tried, front, x);
      AppendSnoc(Kept(others, fsvSets, tried), front, x);
    }
  }

  /** Each feature of `code` earned its place when it was appended: it strictly shrank
      the set of remaining samples, or that set was already empty and the code was still
      shorter than `minSize` (padding). */
  ghost predicate Justified(others: set<Sample>, fsvSets: KeySets, code: seq<Feature>, minSize: int)
    decreases |code|
  {
    code == [] ||
    var front := code[..|code| - 1];
    && Justified(others, fsvSets, front, minSize)
    && (|| Remaining(others, fsvSets, code) < Remaining(others, fsvSets, front)
        || (Remaining(others, fsvSets, front) == {} && |front| < minSize))
  }

  /** A justified code is no longer than the number of other samples, or than `minSize`
      when it was padded: every shrinking step removes at least one sample. */
  lemma {:induction false} JustifiedLength(others: set<Sample>, fsvSets: KeySets, code: seq<Feature>, minSize: int)
    requires Justified(others, fsvSets, code, minSize)
    ensures Remaining(others, fsvSets, code) != {} ==> |code| + |Remaining(others, fsvSets, code)| <= |others|
    ensures |code| <= |others| || |code| <= minSize
    decreases |code|
  {
    if code != [] {
      var front := code[..|code| - 1];
      JustifiedLength(others, fsvSets, front, minSize);
      var now, before := Remaining(others, fsvSets, code), Remaining(others, fsvSets, front);
      if now < before {
        SubsetSize(now, before);
      } else {
        assert now <= before;
      }
    }
  }

  /** Feature `f` left the candidate list because it was too similar to a feature that
      was popped. */
  ghost predicate KnockedOut(fsvSets: KeySets, tried: seq<Feature>, f: Feature, cutoff: Option<real>)
  {
    cutoff.Some? && exists g :: g in tried && !Unlike(fsvSets, g, f, cutoff.value)
  }

  /** What funcMakeOneCode needs of its candidates: each is a key of `fsvSets` (else
      KeyError) and, when a similarity cutoff is set, is carried by some sample (else
      funcJaccard may divide by zero). */
  ghost predicate Candidates(fsvSets: KeySets, ranked: seq<Feature>, cutoff: Option<real>)
  {
    forall f :: f in ranked ==> f in fsvSets.vals && (cutoff.Some? ==> fsvSets.vals[f] != {})
  }

  /** No two features of `code` are as alike as the cutoff. */
  ghost predicate SpreadOut(fsvSets: KeySets, code: seq<Feature>, t: real)
  {
    forall i, j :: 0 <= i < j < |code| ==> Unlike(fsvSets, code[i], code[j], t)
  }

  /** Popping `x` from the end of the candidates and then filtering the rest to `next`
      keeps the candidates followed by the popped features, latest first, a
      sub-sequence of `ranked`. */
  lemma PopStep(ranked: seq<Feature>, rest: seq<Feature>, x: Feature, next: seq<Feature>, tried: seq<Feature>)
    requires IsSubseq((rest + [x]) + Reverse(tried), ranked)
    requires IsSubseq(next, rest)
    ensures IsSubseq(next + Reverse(tried + [x]), ranked)
    ensures |next| <= |rest|
  {
    ReverseSnoc(tried, x);
    assert (rest + [x]) + Reverse(tried) == rest + Reverse(tried + [x]);
    SubseqAppendBoth(next, rest, Reverse(tried + [x]));
    SubseqTrans(next + Reverse(tried + [x]), rest + Reverse(tried + [x]), ranked);
    SubseqLength(next, rest);
  }

  /** Keeping a feature that strictly shrinks the remaining samples, or that pads a code
      which already leaves none, keeps the code justified. */
  lemma JustifiedStep(start: set<Sample>, fsvSets: KeySets, code: seq<Feature>, x: Feature, minSize: int)
    requires Justified(start, fsvSets, code, minSize)
    requires var before := Remaining(start, fsvSets, code);
      (before != {} || |code| < minSize) &&
      !(|before * Carriers(fsvSets, x)| == |before| && |before| != 0)
    ensures Justified(start, fsvSets, code + [x], minSize)
  {
    var before := Remaining(start, fsvSets, code);
    RemainingSnoc(start, fsvSets, code, x);
    assert (code + [x])[..|code|] == code;
    if before != {} {
      var now := before * Carriers(fsvSets, x);
      assert |now| != |before|;
      assert now <= before;
      assert now != before;
    }
  }

  /** After `x` is popped and the candidates filtered against it, no code feature is
      as alike as the cutoff to a candidate, nor to another code feature. */
  lemma SpreadStep(fsvSets: KeySets, code: seq<Feature>, rest: seq<Feature>, x: Feature, next: seq<Feature>, t: real, keep: bool)
    requires SpreadOut(fsvSets, code, t)
    requires forall g, f :: g in code && f in rest + [x] ==> Unlike(fsvSets, g, f, t)
    requires forall f :: f in next ==> f in rest && Unlike(fsvSets, x, f, t)
    ensures var code' := if keep then code + [x] else code;
      && SpreadOut(fsvSets, code', t)
      && forall g, f :: g in code' && f in next ==> Unlike(fsvSets, g, f, t)
  {
    if keep {
      var code' := code + [x];
      forall i, j | 0 <= i < j < |code'|
        ensures Unlike(fsvSets, code'[i], code'[j], t)
      {
        if j == |code| {
          assert code'[i] in code && x in rest + [x];
        } else {
          assert code'[i] == code[i] && code'[j] == code[j];
        }
      }
    }
  }

  /** Every candidate is still a candidate, has been tried, or was knocked out. */
  lemma CoverStep(fsvSets: KeySets, ranked: seq<Feature>, rest: seq<Feature>, x: Feature, next: seq<Feature>,
                  tried: seq<Feature>, cutoff: Option<real>)
    requires forall f :: f in ranked ==> f in rest + [x] || f in tried || KnockedOut(fsvSets, tried, f, cutoff)
    requires cutoff.None? ==> next == rest
    requires cutoff.Some? ==> forall f :: f in rest ==> f in next || !Unlike(fsvSets, x, f, cutoff.value)
    ensures forall f :: f in ranked ==> f in next || f in tried + [x] || KnockedOut(fsvSets, tried + [x], f, cutoff)
  {
    forall f | f in ranked
      ensures f in next || f in tried + [x] || KnockedOut(fsvSets, tried + [x], f, cutoff)
    {
      if KnockedOut(fsvSets, tried, f, cutoff) {
        var g :| g in tried && !Unlike(fsvSets, g, f, cutoff.value);
        assert g in tried + [x];
      } else if f in rest && f !in next {
        assert x in tried + [x];
      }
    }
  }

  /** The candidates `features` followed by the popped features `tried` (latest first)
      are a sub-sequence of `ranked`, and every ranked feature is a candidate, tried or
      knocked out. */
  ghost predicate Ordered(fsvSets: KeySets, ranked: seq<Feature>, cutoff: Option<real>, features: seq<Feature>, tried: seq<Feature>)
  {
    && IsSubseq(features + Reverse(tried), ranked)
    && (forall f :: f in features ==> f in ranked)
    && (forall f :: f in ranked ==> f in features || f in tried || KnockedOut(fsvSets, tried, f, cutoff))
  }

  /** The code is a sub-sequence of `tried` and leaves the same samples `others`; it is
      justified, spread out, and unlike every remaining candidate. */
  ghost predicate Coded(start: set<Sample>, fsvSets: KeySets, cutoff: Option<real>, minSize: int,
                        features: seq<Feature>, code: seq<Feature>, tried: seq<Feature>, others: set<Sample>)
  {
    && IsSubseq(code, tried) && code == Kept(start, fsvSets, tried)
    && others == Remaining(start, fsvSets, code) == Remaining(start, fsvSets, tried)
    && Justified(start, fsvSets, code, minSize)
    && (cutoff.Some? ==> SpreadOut(fsvSets, code, cutoff.value))
    && (cutoff.Some? ==> forall g, f :: g in code && f in features ==> Unlike(fsvSets, g, f, cutoff.value))
  }

  /** What holds of funcMakeOneCode's variables at the top of each iteration. */
  ghost predicate Progress(start: set<Sample>, fsvSets: KeySets, ranked: seq<Feature>, cutoff: Option<real>, minSize: int,
                           features: seq<Feature>, code: seq<Feature>, tried: seq<Feature>, others: set<Sample>)
  {
    Ordered(fsvSets, ranked, cutoff, features, tried) && Coded(start, fsvSets, cutoff, minSize, features, code, tried, others)
  }

  lemma ProgressStart(start: set<Sample>, fsvSets: KeySets, ranked: seq<Feature>, cutoff: Option<real>, minSize: int)
    ensures Progress(start, fsvSets, ranked, cutoff, minSize, ranked, [], [], start)
  {
    assert ranked + Reverse([]) == ranked;
    SubseqRefl(ranked);
  }

  lemma ProgressLast(start: set<Sample>, fsvSets: KeySets, ranked: seq<Feature>, cutoff: Option<real>, minSize: int,
                     features: seq<Feature>, code: seq<Feature>, tried: seq<Feature>, others: set<Sample>)
    requires Candidates(fsvSets, ranked, cutoff)
    requires Progress(start, fsvSets, ranked, cutoff, minSize, features, code, tried, others)
    requires features != []
    ensures features[|features| - 1] in fsvSets.vals
    ensures cutoff.Some? ==> Carriers(fsvSets, features[|features| - 1]) != {}
  {
    assert features[|features| - 1] in ranked;
  }

  /** Popping `x` and filtering the rest of the candidates to `next` keeps them `Ordered`. */
  lemma OrderedStep(fsvSets: KeySets, ranked: seq<Feature>, cutoff: Option<real>, rest: seq<Feature>, x: Feature,
                    next: seq<Feature>, tried: seq<Feature>)
    requires Ordered(fsvSets, ranked, cutoff, rest + [x], tried)
    requires IsSubseq(next, rest)
    requires cutoff.None? ==> next == rest
    requires cutoff.Some? ==> forall f :: f in rest ==> f in next || !Unlike(fsvSets, x, f, cutoff.value)
    ensures Ordered(fsvSets, ranked, cutoff, next, tried + [x])
    ensures |next| <= |rest|
  {
    PopStep(ranked, rest, x, next, tried);
    SubseqMembers(next, rest);
    CoverStep(fsvSets, ranked, rest, x, next, tried, cutoff);
  }

  /** Trying `x`, keeping it only when it shrinks the remaining samples (or pads), keeps
      the code `Coded` against the filtered candidates `next`. */
  lemma CodedStep(start: set<Sample>, fsvSets: KeySets, cutoff: Option<real>, minSize: int,
                  rest: seq<Feature>, x: Feature, next: seq<Feature>, code: seq<Feature>, tried: seq<Feature>, others: set<Sample>,
                  code': seq<Feature>, others': set<Sample>)
    requires Coded(start, fsvSets, cutoff, minSize, rest + [x], code, tried, others)
    requires |others| > 0 || |code| < minSize
    requires others' == others * Carriers(fsvSets, x)
    requires code' == (if |others| == |others'| && |others| != 0 then code else code + [x])
    requires cutoff.Some? ==> forall f :: f in next ==> f in rest && Unlike(fsvSets, x, f, cutoff.value)
    ensures Coded(start, fsvSets, cutoff, minSize, next, code', tried + [x], others')
  {
    RemainingSnoc(start, fsvSets, code, x);
    RemainingSnoc(start, fsvSets, tried, x);
    var keep := !(|others| == |others'| && |others| != 0);
    assert (tried + [x])[..|tried|] == tried;
    if !keep {
      SubsetSameSize(others', others);
      SubseqExtend(code, tried, x);
    } else {
      JustifiedStep(start, fsvSets, code, x, minSize);
      SubseqSnoc(code, tried, x);
    }
    if cutoff.Some? {
      SpreadStep(fsvSets, code, rest, x, next, cutoff.value, keep);
    }
  }

  /** One iteration of funcMakeOneCode's loop, popping `x` off the candidates `rest + [x]`,
      keeps `Progress`. */
  lemma ProgressStep(start: set<Sample>, fsvSets: KeySets, ranked: seq<Feature>, cutoff: Option<real>, minSize: int,
                     rest: seq<Feature>, x: Feature, code: seq<Feature>, tried: seq<Feature>, others: set<Sample>,
                     features': seq<Feature>, code': seq<Feature>, others': set<Sample>)
    requires Candidates(fsvSets, ranked, cutoff)
    requires Progress(start, fsvSets, ranked, cutoff, minSize, rest + [x], code, tried, others)
    requires |others| > 0 || |code| < minSize
    requires others' == others * Carriers(fsvSets, x)
    requires code' == (if |others| == |others'| && |others| != 0 then code else code + [x])
    requires features' == (if cutoff.Some? then KnockOut(fsvSets, x, rest, cutoff.value) else rest)
    ensures |features'| <= |rest|
    ensures Progress(start, fsvSets, ranked, cutoff, minSize, features', code', tried + [x], others')
  {
    if cutoff.None? {
      SubseqRefl(rest);
    }
    OrderedStep(fsvSets, ranked, cutoff, rest, x, features', tried);
    CodedStep(start, fsvSets, cutoff, minSize, rest, x, features', code, tried, others, code', others');
  }

  /** What `Progress` gives once funcMakeOneCode's loop has stopped. */
  lemma ProgressEnd(start: set<Sample>, fsvSets: KeySets, ranked: seq<Feature>, cutoff: Option<real>, minSize: int,
                    features: seq<Feature>, code: seq<Feature>, tried: seq<Feature>, others: set<Sample>)
    requires Progress(start, fsvSets, ranked, cutoff, minSize, features, code, tried, others)
    requires !(|features| > 0 && (|others| > 0 || |code| < minSize))
    ensures IsSubseq(Reverse(tried), ranked)
    ensures code == Kept(start, fsvSets, tried)
    ensures others == {} <==> Remaining(start, fsvSets, tried) == {}
    ensures others == {} ==>
              && Remaining(start, fsvSets, code) == {}
              && IsSubseq(Reverse(code), ranked)
              && (Distinct(ranked) ==> Distinct(code))
    ensures others != {} || |code| < minSize ==>
              forall f :: f in ranked ==> f in tried || KnockedOut(fsvSets, tried, f, cutoff)
  {
    SubseqSuffix(features, Reverse(tried));
    SubseqTrans(Reverse(tried), features + Reverse(tried), ranked);
    SubseqReverse(code, tried);
    SubseqTrans(Reverse(code), Reverse(tried), ranked);
    if Distinct(ranked) {
      SubseqDistinct(Reverse(code), ranked);
      ReverseDistinct(code);
    }
  }

  /** What a run of funcMakeOneCode's loop ends with: the result it returns and the
      features it popped, in popping order. */
  datatype Run = Run(result: Option<seq<Feature>>, popped: seq<Feature>)

  /** funcMakeOneCode's loop as a recursion, from the state `others`, `features`, `code`:
      while candidates are left and some other sample remains or the code is shorter than
      `minSize`, pop the last candidate, intersect, keep or drop it, and knock out the
      candidates too alike to it. */
  function Greedy(others: set<Sample>, fsvSets: KeySets, features: seq<Feature>, code: seq<Feature>,
                  cutoff: Option<real>, minSize: int): (run: Run)
    requires Candidates(fsvSets, features, cutoff)
    ensures run.result.Some? <==> Remaining(others, fsvSets, run.popped) == {}
    decreases |features|
  {
    if |features| > 0 && (|others| > 0 || |code| < minSize) then
      var x, rest := features[|features| - 1], features[..|features| - 1];
      FrontLast(features);
      var others' := others * Carriers(fsvSets, x);
      var code' := if |others| == |others'| && |others| != 0 then code else code + [x];
      var features' := GreedyNext(fsvSets, rest, x, cutoff);
      var next := Greedy(others', fsvSets, features', code', cutoff, minSize);
      RemainingPrepend(others, fsvSets, x, next.popped);
      Run(next.result, [x] + next.popped)
    else
      Run(if |others| == 0 then Some(code) else None, [])
  }

  /** The candidates after popping `x` off `rest + [x]`: filtered against `x` under a
      cutoff, untouched otherwise. */
  function GreedyNext(fsvSets: KeySets, rest: seq<Feature>, x: Feature, cutoff: Option<real>): (next: seq<Feature>)
    requires Candidates(fsvSets, rest + [x], cutoff)
    ensures Candidates(fsvSets, next, cutoff) && |next| <= |rest|
    ensures cutoff.None? ==> next == rest
    ensures cutoff.Some? ==> forall f :: f in next <==> f in rest && Unlike(fsvSets, x, f, cutoff.value)
    ensures IsSubseq(next, rest)
  {
    assert x in rest + [x];
    assert forall f :: f in rest ==> f in rest + [x];
    if cutoff.Some? then
      var next := KnockOut(fsvSets, x, rest, cutoff.value);
      SubseqLength(next, rest);
      next
    else
      SubseqRefl(rest);
      rest
  }

  /** Intersecting with the carriers of `x` first and then with those of `more` leaves
      the same samples as intersecting with `[x] + more` from the start. */
  lemma {:induction false} RemainingPrepend(others: set<Sample>, fsvSets: KeySets, x: Feature, more: seq<Feature>)
    ensures Remaining(others * Carriers(fsvSets, x), fsvSets, more) == Remaining(others, fsvSets, [x] + more)
    decreases |more|
  {
    if more == [] {
      assert [x] + more == [x];
      assert [x][..0] == [];
    } else {
      var front, y := more[..|more| - 1], more[|more| - 1];
      RemainingPrepend(others, fsvSets, x, front);
      assert ([x] + more)[..|[x] + more| - 1] == [x] + front;
    }
  }

  /** One iteration of the loop, as `Greedy` unfolds it. */
  lemma GreedyStep(others: set<Sample>, fsvSets: KeySets, rest: seq<Feature>, x: Feature, code: seq<Feature>,
                   cutoff: Option<real>, minSize: int, features': seq<Feature>, code': seq<Feature>, others': set<Sample>)
    requires Candidates(fsvSets, rest + [x], cutoff)
    requires |others| > 0 || |code| < minSize
    requires others' == others * Carriers(fsvSets, x)
    requires code' == (if |others| == |others'| && |others| != 0 then code else code + [x])
    requires features' == (if cutoff.Some? then KnockOut(fsvSets, x, rest, cutoff.value) else rest)
    ensures Candidates(fsvSets, features', cutoff)
    ensures var next := Greedy(others', fsvSets, features', code', cutoff, minSize);
      Greedy(others, fsvSets, rest + [x], code, cutoff, minSize) == Run(next.result, [x] + next.popped)
  {
    var features := rest + [x];
    assert features[..|features| - 1] == rest && features[|features| - 1] == x;
    assert features' == GreedyNext(fsvSets, rest, x, cutoff);
  }

  /** The run `whole` is what the popped features `tried` began, and `Greedy` from the
      state `others`, `features`, `code` finishes it. */
  ghost predicate Follows(whole: Run, others: set<Sample>, fsvSets: KeySets, features: seq<Feature>, code: seq<Feature>,
                          cutoff: Option<real>, minSize: int, tried: seq<Feature>)
    requires Candidates(fsvSets, features, cutoff)
  {
    var rest := Greedy(others, fsvSets, features, code, cutoff, minSize);
    whole == Run(rest.result, tried + rest.popped)
  }

  /** One iteration of funcMakeOneCode's loop, from the candidates `features`, keeps
      `Progress` and stays on the run `whole`. */
  lemma LoopStep(start: set<Sample>, fsvSets: KeySets, ranked: seq<Feature>, cutoff: Option<real>, minSize: int,
                 whole: Run, features: seq<Feature>, code: seq<Feature>, tried: seq<Feature>, others: set<Sample>,
                 features': seq<Feature>, code': seq<Feature>, others': set<Sample>)
    requires Candidates(fsvSets, ranked, cutoff) && Candidates(fsvSets, features, cutoff)
    requires Progress(start, fsvSets, ranked, cutoff, minSize, features, code, tried, others)
    requires Follows(whole, others, fsvSets, features, code, cutoff, minSize, tried)
    requires |features| > 0 && (|others| > 0 || |code| < minSize)
    requires features[|features| - 1] in fsvSets.vals
    requires others' == others * fsvSets.vals[features[|features| - 1]]
    requires code' == (if |others| == |others'| && |others| != 0 then code else code + [features[|features| - 1]])
    requires var x, rest := features[|features| - 1], features[..|features| - 1];
      features' == (if cutoff.Some? then KnockOut(fsvSets, x, rest, cutoff.value) else rest)
    ensures |features'| < |features|
    ensures Progress(start, fsvSets, ranked, cutoff, minSize, features', code', tried + [features[|features| - 1]], others')
    ensures Candidates(fsvSets, features', cutoff)
    ensures Follows(whole, others', fsvSets, features', code', cutoff, minSize, tried + [features[|features| - 1]])
  {
    var x, rest := features[|features| - 1], features[..|features| - 1];
    FrontLast(features);
    ProgressStep(start, fsvSets, ranked, cutoff, minSize, rest, x, code, tried, others, features', code', others');
    GreedyStep(others, fsvSets, rest, x, code, cutoff, minSize, features', code', others');
    AppendCons(tried, x, Greedy(others', fsvSets, features', code', cutoff, minSize).popped);
  }

  /** Once the loop has stopped, `whole` is the run the popped features `tried` made. */
  lemma FollowsEnd(whole: Run, others: set<Sample>, fsvSets: KeySets, features: seq<Feature>, code: seq<Feature>,
                   cutoff: Option<real>, minSize: int, tried: seq<Feature>)
    requires Candidates(fsvSets, features, cutoff)
    requires Follows(whole, others, fsvSets, features, code, cutoff, minSize, tried)
    requires !(|features| > 0 && (|others| > 0 || |code| < minSize))
    ensures whole == Run(if |others| == 0 then Some(code) else None, tried)
  {
  }

  /** funcMakeOneCode. `tried` lists the features popped, in the order they were popped.
      The result is a code exactly when no other sample carries all the tried features;
      the code is then `Kept` of the tried features, leaves no other sample, was built by
      steps that each shrank the set of remaining samples or padded the code to `minSize`,
      and is drawn from `ranked` back to front. When no code is found, or a short one, every candidate was tried or
      knocked out. */
  method MakeOneCode(sample: Sample, ranked: seq<Feature>, sfvSets: KeySets, fsvSets: KeySets,
                     cutoff: Option<real>, minSize: int)
    returns (result: Option<seq<Feature>>, ghost tried: seq<Feature>)
    requires Candidates(fsvSets, ranked, cutoff)
    ensures Run(result, tried) == Greedy(Others(sfvSets, sample), fsvSets, ranked, [], cutoff, minSize)
    ensures IsSubseq(Reverse(tried), ranked)
    ensures result.Some? <==> Remaining(Others(sfvSets, sample), fsvSets, tried) == {}
    ensures result.Some? ==> IsSubseq(result.value, tried) && result.value == Kept(Others(sfvSets, sample), fsvSets, tried)
    ensures result.Some? ==>
              && Remaining(Others(sfvSets, sample), fsvSets, result.value) == {}
              && IsSubseq(Reverse(result.value), ranked)
              && (Distinct(ranked) ==> Distinct(result.value))
              && Justified(Others(sfvSets, sample), fsvSets, result.value, minSize)
              && (cutoff.Some? ==> SpreadOut(fsvSets, result.value, cutoff.value))
    ensures result.None? || |result.value| < minSize ==>
              forall f :: f in ranked ==> f in tried || KnockedOut(fsvSets, tried, f, cutoff)
  {
    var features := ranked;
    var others := Others(sfvSets, sample);
    ghost var start := others;
    var code: seq<Feature> := [];
    tried := [];
    ProgressStart(start, fsvSets, ranked, cutoff, minSize);
    ghost var whole := Greedy(start, fsvSets, ranked, [], cutoff, minSize);
    while |features| > 0 && (|others| > 0 || |code| < minSize)
      invariant Progress(start, fsvSets, ranked, cutoff, minSize, features, code, tried, others)
      invariant Candidates(fsvSets, features, cutoff)
      invariant Follows(whole, others, fsvSets, features, code, cutoff, minSize, tried)
      decreases |features|
    {
      ProgressLast(start, fsvSets, ranked, cutoff, minSize, features, code, tried, others);
      ghost var features0, code0, others0 := features, code, others;
      var feature := features[|features| - 1];
      features := features[..|features| - 1];
      code := code + [feature];
      var oldCount := |others|;
      others := others * fsvSets.vals[feature];
      var newCount := |others|;
      if oldCount == newCount && oldCount != 0 {
        code := code[..|code| - 1];
      }
      if cutoff.Some? {
        features := KnockOut(fsvSets, feature, features, cutoff.value);
      }
      LoopStep(start, fsvSets, ranked, cutoff, minSize, whole, features0, code0, tried, others0, features, code, others);
      tried := tried + [feature];
    }
    ProgressEnd(start, fsvSets, ranked, cutoff, minSize, features, code, tried, others);
    FollowsEnd(whole, others, fsvSets, features, code, cutoff, minSize, tried);
    if |others| == 0 {
      result := Some(code);
    } else {
      result := None;
    }
  }

  /** `code` tells `s` apart: `s` carries every code feature at the detection level, and
      every other sample lacks some code feature altogether. */
  ghost predicate Identifies(sfv: Table, s: Sample, code: seq<Feature>, detect: real)
  {
    && (forall f :: f in code ==> Detected(sfv, s, f, detect))
    && (forall s2 :: s2 in sfv.vals && s2 != s ==> exists f :: f in code && !Has(sfv, s2, f))
  }

  /** Some other sample carries every feature `s` has at the detection level, so no
      choice of those features tells `s` apart. */
  ghost predicate Shadowed(sfv: Table, s: Sample, detect: real)
  {
    exists s2 :: s2 in sfv.vals && s2 != s && forall f :: Detected(sfv, s, f, detect) ==> Has(sfv, s2, f)
  }

  /** A sample that has an identifying code is not shadowed. */
  lemma IdentifiedNotShadowed(sfv: Table, s: Sample, code: seq<Feature>, detect: real)
    requires Identifies(sfv, s, code, detect)
    ensures !Shadowed(sfv, s, detect)
  {
    forall s2 | s2 in sfv.vals && s2 != s
      ensures exists f :: Detected(sfv, s, f, detect) && !Has(sfv, s2, f)
    {
      var f :| f in code && !Has(sfv, s2, f);
      assert Detected(sfv, s, f, detect);
    }
  }

  /** What funcEncode promises of the entry it makes for sample `s`: a code identifies
      `s` with distinct features, and is no longer than the number of other samples
      unless padded to `minSize`; without a similarity cutoff, the entry is null exactly
      when `s` is shadowed. */
  ghost predicate EncodesWell(sfv: Table, s: Sample, entry: Option<seq<Feature>>, detect: real, cutoff: Option<real>, minSize: int)
  {
    && (entry.Some? ==>
          && Identifies(sfv, s, entry.value, detect)
          && Distinct(entry.value)
          && (|entry.value| < |sfv.vals| || |entry.value| <= minSize))
    && (cutoff.None? ==> (entry.None? <==> Shadowed(sfv, s, detect)))
  }

  /** The tables funcEncode derives before building codes: the transpose `fsv` of the
      whole table, the table `reduced` to the detected entries, and their key-set forms. */
  ghost predicate Prepared(sfv: Table, fsv: Table, reduced: Table, sfvSets: KeySets, fsvSets: KeySets, detect: real)
  {
    && ValidNested(sfv)
    && IsFlipOf(fsv, sfv, sfv.keys)
    && ValidNested(reduced) && reduced.keys == sfv.keys
    && (forall s :: s in sfv.vals ==> reduced.vals[s] == Reduction(sfv.vals[s], detect, true))
    && sfvSets == SetForm(reduced)
    && fsvSets == SetForm(fsv)
  }

  lemma PreparedOthers(sfv: Table, reduced: Table, sfvSets: KeySets, s: Sample)
    requires sfv.Valid() && reduced.Valid() && reduced.keys == sfv.keys && sfvSets == SetForm(reduced)
    requires s in sfv.vals
    ensures Others(sfvSets, s) == sfv.vals.Keys - {s}
    ensures |Others(sfvSets, s)| == |sfv.vals| - 1
  {
    var keys := sfv.vals.Keys;
    assert reduced.vals.Keys == keys;
    assert sfvSets.vals.Keys == keys;
    assert |keys - {s}| == |keys| - 1;
  }

  /** The carriers of a feature are the samples that have it at all. */
  lemma PreparedCarriers(sfv: Table, fsv: Table, reduced: Table, sfvSets: KeySets, fsvSets: KeySets, detect: real, f: Feature, s2: Sample)
    requires Prepared(sfv, fsv, reduced, sfvSets, fsvSets, detect)
    ensures s2 in Carriers(fsvSets, f) <==> Has(sfv, s2, f)
  {
    assert Entry(fsv, f, s2) == if s2 in sfv.keys then Entry(sfv, s2, f) else None;
  }

  /** The reduced row of a sample lists exactly its detected features. */
  lemma PreparedRow(sfv: Table, fsv: Table, reduced: Table, sfvSets: KeySets, fsvSets: KeySets, detect: real, s: Sample, f: Feature)
    requires Prepared(sfv, fsv, reduced, sfvSets, fsvSets, detect) && s in sfv.vals
    ensures f in reduced.vals[s].keys <==> Detected(sfv, s, f, detect)
  {
  }

  /** Every feature a reduced row holds is a key of the transpose, as the rankers need. */
  lemma PreparedCovers(sfv: Table, fsv: Table, reduced: Table, sfvSets: KeySets, fsvSets: KeySets, detect: real)
    requires Prepared(sfv, fsv, reduced, sfvSets, fsvSets, detect)
    ensures ValidNested(fsv) && Covers(fsv, reduced)
  {
    assert reduced.vals.Keys == sfv.vals.Keys;
    forall s, f | s in reduced.vals && f in reduced.vals[s].vals
      ensures f in fsv.vals
    {
      assert Entry(fsv, f, s) == Entry(sfv, s, f);
    }
  }

  /** A code that leaves no other sample and is drawn from the detected features of `s`
      identifies `s`. */
  lemma CodeIdentifies(sfv: Table, fsv: Table, reduced: Table, sfvSets: KeySets, fsvSets: KeySets, detect: real,
                       s: Sample, ranked: seq<Feature>, code: seq<Feature>)
    requires Prepared(sfv, fsv, reduced, sfvSets, fsvSets, detect) && s in sfv.vals
    requires multiset(ranked) == multiset(reduced.vals[s].keys)
    requires Remaining(Others(sfvSets, s), fsvSets, code) == {}
    requires IsSubseq(Reverse(code), ranked)
    ensures Identifies(sfv, s, code, detect)
  {
    ReverseMembers(code);
    SubseqMembers(Reverse(code), ranked);
    forall f | f in code
      ensures Detected(sfv, s, f, detect)
    {
      assert f in multiset(reduced.vals[s].keys);
      PreparedRow(sfv, fsv, reduced, sfvSets, fsvSets, detect, s, f);
    }
    PreparedOthers(sfv, reduced, sfvSets, s);
    forall s2 | s2 in sfv.vals && s2 != s
      ensures exists f :: f in code && !Has(sfv, s2, f)
    {
      RemainingCarryAll(Others(sfvSets, s), fsvSets, code, s2);
      var f :| f in code && s2 !in Carriers(fsvSets, f);
      PreparedCarriers(sfv, fsv, reduced, sfvSets, fsvSets, detect, f, s2);
    }
  }

  /** When every detected feature of `s` was tried and some other sample is left, that
      sample shadows `s`. */
  lemma LeftoverShadows(sfv: Table, fsv: Table, reduced: Table, sfvSets: KeySets, fsvSets: KeySets, detect: real,
                        s: Sample, ranked: seq<Feature>, tried: seq<Feature>)
    requires Prepared(sfv, fsv, reduced, sfvSets, fsvSets, detect) && s in sfv.vals
    requires multiset(ranked) == multiset(reduced.vals[s].keys)
    requires Remaining(Others(sfvSets, s), fsvSets, tried) != {}
    requires forall f :: f in ranked ==> f in tried
    ensures Shadowed(sfv, s, detect)
  {
    var s2 :| s2 in Remaining(Others(sfvSets, s), fsvSets, tried);
    RemainingCarryAll(Others(sfvSets, s), fsvSets, tried, s2);
    PreparedOthers(sfv, reduced, sfvSets, s);
    forall f | Detected(sfv, s, f, detect)
      ensures Has(sfv, s2, f)
    {
      PreparedRow(sfv, fsv, reduced, sfvSets, fsvSets, detect, s, f);
      assert f in multiset(ranked);
      PreparedCarriers(sfv, fsv, reduced, sfvSets, fsvSets, detect, f, s2);
    }
  }

  /** funcMakeOneCode's guarantees, run on the ranked detected features of `s`, give
      what funcEncode promises for `s`. */
  lemma EntryEncodesWell(sfv: Table, fsv: Table, reduced: Table, sfvSets: KeySets, fsvSets: KeySets, detect: real,
                         s: Sample, ranked: seq<Feature>, cutoff: Option<real>, minSize: int,
                         result: Option<seq<Feature>>, tried: seq<Feature>)
    requires Prepared(sfv, fsv, reduced, sfvSets, fsvSets, detect) && s in sfv.vals
    requires multiset(ranked) == multiset(reduced.vals[s].keys)
    requires result.Some? <==> Remaining(Others(sfvSets, s), fsvSets, tried) == {}
    requires result.Some? ==>
               && Remaining(Others(sfvSets, s), fsvSets, result.value) == {}
               && IsSubseq(Reverse(result.value), ranked)
               && (Distinct(ranked) ==> Distinct(result.value))
               && Justified(Others(sfvSets, s), fsvSets, result.value, minSize)
    requires result.None? ==> forall f :: f in ranked ==> f in tried || KnockedOut(fsvSets, tried, f, cutoff)
    ensures EncodesWell(sfv, s, result, detect, cutoff, minSize)
  {
    if result.Some? {
      var code := result.value;
      CodeIdentifies(sfv, fsv, reduced, sfvSets, fsvSets, detect, s, ranked, code);
      PermutationDistinct(ranked, reduced.vals[s].keys);
      JustifiedLength(Others(sfvSets, s), fsvSets, code, minSize);
      PreparedOthers(sfv, reduced, sfvSets, s);
      IdentifiedNotShadowed(sfv, s, code, detect);
    } else if cutoff.None? {
      LeftoverShadows(sfv, fsv, reduced, sfvSets, fsvSets, detect, s, ranked, tried);
    }
  }

  /** The tables funcEncode has once the features are ranked: each sample's ranked list
      is a permutation of its detected features. */
  ghost predicate Planned(sfv: Table, fsv: Table, reduced: Table, sfvSets: KeySets, fsvSets: KeySets,
                          sorted: Dict<Sample, seq<Feature>>, detect: real)
  {
    && Prepared(sfv, fsv, reduced, sfvSets, fsvSets, detect)
    && sorted.keys == sfv.keys
    && forall s :: s in sfv.vals ==> s in sorted.vals && multiset(sorted.vals[s]) == multiset(reduced.vals[s].keys)
  }

  /** Ranking every reduced row, by either strategy, gives a plan. */
  lemma RankingPlanned(sfv: Table, fsv: Table, reduced: Table, sfvSets: KeySets, fsvSets: KeySets,
                       sorted: Dict<Sample, seq<Feature>>, detect: real, strategy: Strategy, nondetect: real)
    requires Prepared(sfv, fsv, reduced, sfvSets, fsvSets, detect)
    requires ValidNested(fsv) && Covers(fsv, reduced)
    requires sorted.Valid() && sorted.keys == reduced.keys
    requires forall s :: s in reduced.vals ==> sorted.vals[s] == Ranked(strategy, fsv, s, reduced.vals[s], nondetect)
    ensures Planned(sfv, fsv, reduced, sfvSets, fsvSets, sorted, detect)
  {
    assert reduced.vals.Keys == sfv.vals.Keys;
  }

  /** The ranked list of a sample meets funcMakeOneCode's needs. */
  lemma PlannedCandidates(sfv: Table, fsv: Table, reduced: Table, sfvSets: KeySets, fsvSets: KeySets,
                          sorted: Dict<Sample, seq<Feature>>, detect: real, s: Sample, cutoff: Option<real>)
    requires Planned(sfv, fsv, reduced, sfvSets, fsvSets, sorted, detect) && s in sfv.vals
    ensures s in sorted.vals && Candidates(fsvSets, sorted.vals[s], cutoff)
  {
    forall f | f in sorted.vals[s]
      ensures f in fsvSets.vals && s in fsvSets.vals[f]
    {
      assert f in multiset(reduced.vals[s].keys);
      PreparedRow(sfv, fsv, reduced, sfvSets, fsvSets, detect, s, f);
      PreparedCarriers(sfv, fsv, reduced, sfvSets, fsvSets, detect, f, s);
    }
  }

  /** `entry` is what funcMakeOneCode returns for `s` on its ranked list `sorted[s]`. */
  ghost predicate Found(sfvSets: KeySets, fsvSets: KeySets, sorted: Dict<Sample, seq<Feature>>, s: Sample,
                        entry: Option<seq<Feature>>, cutoff: Option<real>, minSize: int)
  {
    && s in sorted.vals && Candidates(fsvSets, sorted.vals[s], cutoff)
    && entry == Greedy(Others(sfvSets, s), fsvSets, sorted.vals[s], [], cutoff, minSize).result
  }

  /** The entries made for the first `i` samples are funcMakeOneCode's results on their
      ranked lists, and meet funcEncode's promise. */
  ghost predicate EncodedUpTo(sfv: Table, sfvSets: KeySets, fsvSets: KeySets, sorted: Dict<Sample, seq<Feature>>,
                              codes: Dict<Sample, Option<seq<Feature>>>, i: nat,
                              detect: real, cutoff: Option<real>, minSize: int)
  {
    && i <= |sfv.keys|
    && codes.Valid() && codes.keys == sfv.keys[..i]
    && forall s :: s in codes.vals ==>
         && s in sfv.vals
         && Found(sfvSets, fsvSets, sorted, s, codes.vals[s], cutoff, minSize)
         && EncodesWell(sfv, s, codes.vals[s], detect, cutoff, minSize)
  }

  lemma EncodedStep(sfv: Table, sfvSets: KeySets, fsvSets: KeySets, sorted: Dict<Sample, seq<Feature>>,
                    codes: Dict<Sample, Option<seq<Feature>>>, i: nat,
                    detect: real, cutoff: Option<real>, minSize: int, entry: Option<seq<Feature>>)
    requires sfv.Valid() && EncodedUpTo(sfv, sfvSets, fsvSets, sorted, codes, i, detect, cutoff, minSize) && i < |sfv.keys|
    requires Found(sfvSets, fsvSets, sorted, sfv.keys[i], entry, cutoff, minSize)
    requires EncodesWell(sfv, sfv.keys[i], entry, detect, cutoff, minSize)
    ensures EncodedUpTo(sfv, sfvSets, fsvSets, sorted, codes.Put(sfv.keys[i], entry), i + 1, detect, cutoff, minSize)
  {
    var sample := sfv.keys[i];
    assert sfv.keys[..i + 1] == sfv.keys[..i] + [sample];
    assert sample !in sfv.keys[..i];
  }

  /** The loop of funcEncode: one call of funcMakeOneCode per sample, in table order. */
  method EncodeSamples(sfv: Table, ghost fsv: Table, ghost reduced: Table, sfvSets: KeySets, fsvSets: KeySets,
                       sorted: Dict<Sample, seq<Feature>>, detect: real, cutoff: Option<real>, minSize: int)
    returns (codes: Dict<Sample, Option<seq<Feature>>>)
    requires Planned(sfv, fsv, reduced, sfvSets, fsvSets, sorted, detect)
    ensures EncodedUpTo(sfv, sfvSets, fsvSets, sorted, codes, |sfv.keys|, detect, cutoff, minSize)
  {
    codes := Empty();
    assert sfvSets.keys == sfv.keys;
    var i := 0;
    while i < |sfvSets.keys|
      invariant i <= |sfv.keys|
      invariant EncodedUpTo(sfv, sfvSets, fsvSets, sorted, codes, i, detect, cutoff, minSize)
    {
      var sample := sfvSets.keys[i];
      PlannedCandidates(sfv, fsv, reduced, sfvSets, fsvSets, sorted, detect, sample, cutoff);
      var ranked := sorted.vals[sample];
      var code, tried := MakeOneCode(sample, ranked, sfvSets, fsvSets, cutoff, minSize);
      EntryEncodesWell(sfv, fsv, reduced, sfvSets, fsvSets, detect, sample, ranked, cutoff, minSize, code, tried);
      EncodedStep(sfv, sfvSets, fsvSets, sorted, codes, i, detect, cutoff, minSize, code);
      codes := codes.Put(sample, code);
      i := i + 1;
    }
  }

  /** The features `s` has at the detection level, ranked by `strategy` against the
      transpose `fsv`, are all features of `fsv` that `s` carries. */
  lemma DetectedRanked(sfv: Table, fsv: Table, s: Sample, detect: real, nondetect: real, cutoff: Option<real>, strategy: Strategy)
    requires ValidNested(sfv) && IsFlipOf(fsv, sfv, sfv.keys) && s in sfv.vals
    ensures ValidNested(fsv) && RowCovered(fsv, Reduction(sfv.vals[s], detect, true))
    ensures Candidates(SetForm(fsv), Ranked(strategy, fsv, s, Reduction(sfv.vals[s], detect, true), nondetect), cutoff)
  {
    var row := Reduction(sfv.vals[s], detect, true);
    forall f | f in row.vals
      ensures f in fsv.vals && s in fsv.vals[f].vals
    {
      assert Entry(fsv, f, s) == Entry(sfv, s, f);
    }
    var ranked := Ranked(strategy, fsv, s, row, nondetect);
    forall f | f in ranked
      ensures f in row.vals
    {
      assert f in multiset(row.keys);
    }
  }

  /** The entry funcEncode makes for `s`, as one expression: funcMakeOneCode's run, from
      all other samples, over the features `s` has at the detection level ranked by
      `strategy` against the transpose `fsv`. */
  ghost function MadeCode(sfv: Table, fsv: Table, s: Sample, detect: real, nondetect: real,
                          cutoff: Option<real>, minSize: int, strategy: Strategy): Option<seq<Feature>>
    requires ValidNested(sfv) && IsFlipOf(fsv, sfv, sfv.keys) && s in sfv.vals
  {
    DetectedRanked(sfv, fsv, s, detect, nondetect, cutoff, strategy);
    var ranked := Ranked(strategy, fsv, s, Reduction(sfv.vals[s], detect, true), nondetect);
    Greedy(sfv.vals.Keys - {s}, SetForm(fsv), ranked, [], cutoff, minSize).result
  }

  /** An entry found on a list ranked from the prepared tables is `MadeCode`. */
  lemma FoundMade(sfv: Table, fsv: Table, reduced: Table, sfvSets: KeySets, fsvSets: KeySets,
                  sorted: Dict<Sample, seq<Feature>>, s: Sample, entry: Option<seq<Feature>>,
                  detect: real, nondetect: real, cutoff: Option<real>, minSize: int, strategy: Strategy)
    requires Prepared(sfv, fsv, reduced, sfvSets, fsvSets, detect) && Covers(fsv, reduced) && s in sfv.vals
    requires Found(sfvSets, fsvSets, sorted, s, entry, cutoff, minSize)
    requires s in reduced.vals && sorted.vals[s] == Ranked(strategy, fsv, s, reduced.vals[s], nondetect)
    ensures entry == MadeCode(sfv, fsv, s, detect, nondetect, cutoff, minSize, strategy)
  {
    PreparedOthers(sfv, reduced, sfvSets, s);
  }

  /** funcEncode: a code, or null, for every sample, in the table's sample order; each
      entry is `MadeCode` over the transpose `fsv` of the table, so it follows the
      chosen ranking strategy and non-detection level. */
  method Encode(sfv: Table, detect: real, nondetect: real, cutoff: Option<real>, minSize: int, strategy: Strategy)
    returns (codes: Dict<Sample, Option<seq<Feature>>>, ghost fsv: Table)
    requires ValidNested(sfv)
    ensures IsFlipOf(fsv, sfv, sfv.keys)
    ensures codes.Valid() && codes.keys == sfv.keys
    ensures forall s :: s in sfv.vals ==> codes.vals[s] == MadeCode(sfv, fsv, s, detect, nondetect, cutoff, minSize, strategy)
    ensures forall s :: s in sfv.vals ==> EncodesWell(sfv, s, codes.vals[s], detect, cutoff, minSize)
  {
    var flipped := FlipSFV(sfv);
    fsv := flipped;
    var reduced := ReduceSFV(sfv, detect, true);
    var sfvSets := SetForm(reduced);
    var fsvSets := SetForm(flipped);
    assert Prepared(sfv, fsv, reduced, sfvSets, fsvSets, detect);
    PreparedCovers(sfv, fsv, reduced, sfvSets, fsvSets, detect);
    var sorted;
    match strategy {
      case Rarity => sorted := RankRarity(reduced, flipped, nondetect);
      case AbundanceGap => sorted := RankAbundGap(reduced, flipped, nondetect);
    }
    RankingPlanned(sfv, fsv, reduced, sfvSets, fsvSets, sorted, detect, strategy, nondetect);
    codes := EncodeSamples(sfv, fsv, reduced, sfvSets, fsvSets, sorted, detect, cutoff, minSize);
    assert sfv.keys[..|sfv.keys|] == sfv.keys;
    forall s | s in sfv.vals
      ensures codes.vals[s] == MadeCode(sfv, fsv, s, detect, nondetect, cutoff, minSize, strategy)
    {
      FoundMade(sfv, fsv, reduced, sfvSets, fsvSets, sorted, s, codes.vals[s], detect, nondetect, cutoff, minSize, strategy);
    }
  }
}
