/** The decode half of idability (idability.py, "decode part" and funcCheckHits): every
    code is matched against a table, and each match list is classified against the
    sample the code was made for. */
module Decoding {
  import opened Sequences
  import opened Dicts
  import opened Tables
  import opened Encoding

  /** The samples of `ks`, in that order, whose feature set holds every feature of `code`. */
  function Matches(code: seq<Feature>, sets: KeySets, ks: seq<Sample>): (r: seq<Sample>)
    ensures IsSubseq(r, ks)
    decreases |ks|
  {
    if ks == [] then []
    else
      var s := ks[|ks| - 1];
      var front := ks[..|ks| - 1];
      assert ks == front + [s];
      var r := Matches(code, sets, front);
      if s in sets.vals && (set f | f in code) <= sets.vals[s] then
        SubseqSnoc(r, front, s);
        r + [s]
      else
        SubseqExtend(r, front, s);
        r
  }

  /** The matches of `code` are exactly the listed samples that carry all of it. */
  lemma {:induction false} MatchesMembers(code: seq<Feature>, sets: KeySets, ks: seq<Sample>, s: Sample)
    ensures s in Matches(code, sets, ks) <==>
            s in ks && s in sets.vals && forall f :: f in code ==> f in sets.vals[s]
    decreases |ks|
  {
    if ks != [] {
      var front := ks[..|ks| - 1];
      assert ks == front + [ks[|ks| - 1]];
      MatchesMembers(code, sets, front, s);
    }
  }

  /** A feature that no sample carries matches no sample. */
  lemma UnknownFeatureMatchesNothing(code: seq<Feature>, sets: KeySets, ks: seq<Sample>, f: Feature)
    requires f in code && forall s :: s in sets.vals ==> f !in sets.vals[s]
    ensures Matches(code, sets, ks) == []
  {
    if Matches(code, sets, ks) != [] {
      var s := Matches(code, sets, ks)[0];
      MatchesMembers(code, sets, ks, s);
    }
  }

  /** funcCheckOneCode: the samples, in table order, whose feature set contains the code. */
  method CheckOneCode(code: seq<Feature>, sets: KeySets) returns (hits: seq<Sample>)
    ensures hits == Matches(code, sets, sets.keys)
    ensures Distinct(sets.keys) ==> Distinct(hits)
  {
    var codeSet := set f | f in code;
    hits := [];
    var i := 0;
    while i < |sets.keys|
      invariant 0 <= i <= |sets.keys|
      invariant hits == Matches(code, sets, sets.keys[..i])
    {
      var sample := sets.keys[i];
      assert sets.keys[..i + 1] == sets.keys[..i] + [sample];
      assert sets.keys[..i + 1][..i] == sets.keys[..i];
      if sample in sets.vals && codeSet <= sets.vals[sample] {
        hits := hits + [sample];
      }
      i := i + 1;
    }
    assert sets.keys[..i] == sets.keys;
    if Distinct(sets.keys) {
      SubseqDistinct(hits, sets.keys);
    }
  }

  /** `hits` lists, in table order, exactly the samples of `sfv` that have every feature
      of `code` at the detection level. */
  ghost predicate IsHitList(hits: seq<Sample>, code: seq<Feature>, sfv: Table, detect: real)
  {
    && IsSubseq(hits, sfv.keys)
    && forall s :: s in hits <==> s in sfv.vals && forall f :: f in code ==> Detected(sfv, s, f, detect)
  }

  /** Matching against the key-set form of the reduced table finds the samples that have
      the whole code at the detection level. */
  lemma MatchesAreHits(sfv: Table, reduced: Table, code: seq<Feature>, detect: real)
    requires ValidNested(sfv) && ValidNested(reduced) && reduced.keys == sfv.keys
    requires forall s :: s in sfv.vals ==> reduced.vals[s] == Reduction(sfv.vals[s], detect, true)
    ensures IsHitList(Matches(code, SetForm(reduced), reduced.keys), code, sfv, detect)
  {
    var sets := SetForm(reduced);
    forall s
      ensures s in Matches(code, sets, reduced.keys) <==>
              s in sfv.vals && forall f :: f in code ==> Detected(sfv, s, f, detect)
    {
      MatchesMembers(code, sets, reduced.keys, s);
      assert s in reduced.keys <==> s in sfv.vals;
    }
  }

  /** The hit lists that decoding produces for the first `i` codes. */
  ghost predicate DecodedUpTo(sfv: Table, codes: Dict<Sample, Option<seq<Feature>>>, detect: real,
                              hits: Dict<Sample, Option<seq<Sample>>>, i: nat)
  {
    && i <= |codes.keys|
    && hits.Valid() && hits.keys == codes.keys[..i]
    && forall s :: s in hits.vals ==>
         && s in codes.vals
         && (hits.vals[s].None? <==> codes.vals[s].None?)
         && (hits.vals[s].Some? ==> IsHitList(hits.vals[s].value, codes.vals[s].value, sfv, detect))
  }

  lemma DecodedStep(sfv: Table, codes: Dict<Sample, Option<seq<Feature>>>, detect: real,
                    hits: Dict<Sample, Option<seq<Sample>>>, i: nat, entry: Option<seq<Sample>>)
    requires codes.Valid() && DecodedUpTo(sfv, codes, detect, hits, i) && i < |codes.keys|
    requires var s := codes.keys[i];
      && (entry.None? <==> codes.vals[s].None?)
      && (entry.Some? ==> IsHitList(entry.value, codes.vals[s].value, sfv, detect))
    ensures DecodedUpTo(sfv, codes, detect, hits.Put(codes.keys[i], entry), i + 1)
  {
    var s := codes.keys[i];
    assert codes.keys[..i + 1] == codes.keys[..i] + [s];
    assert s !in codes.keys[..i];
  }

  /** funcDecode: a hit list for every code, and null for every null code. */
  method Decode(sfv: Table, codes: Dict<Sample, Option<seq<Feature>>>, detect: real)
    returns (hits: Dict<Sample, Option<seq<Sample>>>)
    requires ValidNested(sfv) && codes.Valid()
    ensures DecodedUpTo(sfv, codes, detect, hits, |codes.keys|)
    ensures hits.keys == codes.keys
  {
    var reduced := ReduceSFV(sfv, detect, true);
    var sets := SetForm(reduced);
    hits := Empty();
    var i := 0;
    while i < |codes.keys|
      invariant DecodedUpTo(sfv, codes, detect, hits, i)
    {
      var sample := codes.keys[i];
      var code := codes.vals[sample];
      var entry: Option<seq<Sample>>;
      if code.None? {
        entry := None;
      } else {
        var found := CheckOneCode(code.value, sets);
        MatchesAreHits(sfv, reduced, code.value, detect);
        entry := Some(found);
      }
      DecodedStep(sfv, codes, detect, hits, i, entry);
      hits := hits.Put(sample, entry);
      i := i + 1;
    }
    assert codes.keys[..i] == codes.keys;
  }

  /** The confusion classes of funcCheckHits. */
  datatype Category = TP | TPFP | FNFP | FN | NA

  /** The key under which funcCheckHits counts each class. */
  function Label(c: Category): (key: string)
    ensures |key| > 0 && key[0] == match c
      case TP => '1' case TPFP => '2' case FNFP => '3' case FN => '4' case NA => '5'
  {
    match c
    case TP => "1|TP"
    case TPFP => "2|TP+FP"
    case FNFP => "3|FN+FP"
    case FN => "4|FN"
    case NA => "5|NA"
  }

  /** `[sample2 for sample2 in hits if sample2 != sample]` */
  function FalseHits(hits: seq<Sample>, sample: Sample): (r: seq<Sample>)
    ensures forall s :: s in r <==> s in hits && s != sample
    decreases |hits|
  {
    if hits == [] then []
    else
      assert hits == [hits[0]] + hits[1..];
      (if hits[0] != sample then [hits[0]] else []) + FalseHits(hits[1..], sample)
  }

  /** The class funcCheckHits gives the hit list of `sample`'s code. */
  function Classify(sample: Sample, hits: Option<seq<Sample>>): (c: Category)
    ensures c == NA <==> hits.None?
    ensures hits.Some? ==> (c == TP <==> sample in hits.value && forall s :: s in hits.value ==> s == sample)
    ensures hits.Some? ==> (c == TPFP <==> sample in hits.value && exists s :: s in hits.value && s != sample)
    ensures hits.Some? ==> (c == FNFP <==> sample !in hits.value && hits.value != [])
    ensures hits.Some? ==> (c == FN <==> hits.value == [])
  {
    match hits
    case None => NA
    case Some(h) =>
      var tp := sample in h;
      var fp := |FalseHits(h, sample)| > 0;
      assert fp <==> exists s :: s in h && s != sample by {
        if !fp {
          assert FalseHits(h, sample) == [];
        } else {
          assert FalseHits(h, sample)[0] in FalseHits(h, sample);
        }
      }
      if tp then (if fp then TPFP else TP)
      else (if fp then FNFP else FN)
  }

  /** How many of the samples `ks` have hit lists of class `c`. */
  function Tally(sampleHits: Dict<Sample, Option<seq<Sample>>>, ks: seq<Sample>, c: Category): (n: nat)
    ensures n <= |ks|
    decreases |ks|
  {
    if ks == [] then 0
    else
      var s := ks[|ks| - 1];
      Tally(sampleHits, ks[..|ks| - 1], c) +
      (if s in sampleHits.vals && Classify(s, sampleHits.vals[s]) == c then 1 else 0)
  }

  /** Every listed entry falls in exactly one class. */
  lemma {:induction false} TallyTotal(sampleHits: Dict<Sample, Option<seq<Sample>>>, ks: seq<Sample>)
    requires forall s :: s in ks ==> s in sampleHits.vals
    ensures Tally(sampleHits, ks, TP) + Tally(sampleHits, ks, TPFP) + Tally(sampleHits, ks, FNFP) +
            Tally(sampleHits, ks, FN) + Tally(sampleHits, ks, NA) == |ks|
    decreases |ks|
  {
    if ks != [] {
      TallyTotal(sampleHits, ks[..|ks| - 1]);
    }
  }

  /** The counter keys in the order funcCheckHits creates them. */
  const CountKeys: seq<string> := [Label(TP), Label(FNFP), Label(TPFP), Label(FN), Label(NA)]

  /** The counts after the first `i` entries of `sampleHits`. */
  ghost predicate CountedUpTo(sampleHits: Dict<Sample, Option<seq<Sample>>>, counts: Dict<string, int>, i: nat)
  {
    && i <= |sampleHits.keys|
    && counts.Valid() && counts.keys == CountKeys
    && forall c :: counts.vals[Label(c)] == Tally(sampleHits, sampleHits.keys[..i], c)
  }

  lemma LabelsDiffer(c: Category, d: Category)
    ensures Label(c) == Label(d) <==> c == d
  {
    if c != d {
      assert Label(c)[0] != Label(d)[0];
    }
  }

  /** Every class starts at zero. */
  lemma CountedStart(sampleHits: Dict<Sample, Option<seq<Sample>>>)
    ensures CountedUpTo(sampleHits, Dict(CountKeys, map k | k in CountKeys :: 0), 0)
  {
    forall c, d ensures Label(c) == Label(d) <==> c == d {
      LabelsDiffer(c, d);
    }
  }

  /** Counting one more entry adds one to its class and nothing to the others. */
  lemma CountedStep(sampleHits: Dict<Sample, Option<seq<Sample>>>, counts: Dict<string, int>, i: nat)
    requires sampleHits.Valid() && CountedUpTo(sampleHits, counts, i) && i < |sampleHits.keys|
    ensures var s := sampleHits.keys[i];
      var key := Label(Classify(s, sampleHits.vals[s]));
      CountedUpTo(sampleHits, counts.Put(key, counts.vals[key] + 1), i + 1)
  {
    var s := sampleHits.keys[i];
    var ks := sampleHits.keys[..i + 1];
    assert ks[..i] == sampleHits.keys[..i] && ks[i] == s;
    forall c, d ensures Label(c) == Label(d) <==> c == d {
      LabelsDiffer(c, d);
    }
  }

  /** funcCheckHits: how many entries fall in each confusion class. */
  method CheckHits(sampleHits: Dict<Sample, Option<seq<Sample>>>) returns (counts: Dict<string, int>)
    requires sampleHits.Valid()
    ensures counts.Valid() && counts.keys == CountKeys
    ensures forall c :: counts.vals[Label(c)] == Tally(sampleHits, sampleHits.keys, c)
    ensures counts.vals[Label(TP)] + counts.vals[Label(TPFP)] + counts.vals[Label(FNFP)] +
            counts.vals[Label(FN)] + counts.vals[Label(NA)] == |sampleHits.keys|
  {
    counts := Dict(CountKeys, map k | k in CountKeys :: 0);
    CountedStart(sampleHits);
    var i := 0;
    while i < |sampleHits.keys|
      invariant CountedUpTo(sampleHits, counts, i)
    {
      var sample := sampleHits.keys[i];
      var key := Label(Classify(sample, sampleHits.vals[sample]));
      CountedStep(sampleHits, counts, i);
      counts := counts.Put(key, counts.vals[key] + 1);
      i := i + 1;
    }
    assert sampleHits.keys[..i] == sampleHits.keys;
    TallyTotal(sampleHits, sampleHits.keys);
  }

  /** A class other than `c` for every listed entry leaves `c` uncounted. */
  lemma {:induction false} TallyNone(sampleHits: Dict<Sample, Option<seq<Sample>>>, ks: seq<Sample>, c: Category)
    requires forall s :: s in ks && s in sampleHits.vals ==> Classify(s, sampleHits.vals[s]) != c
    ensures Tally(sampleHits, ks, c) == 0
    decreases |ks|
  {
    if ks != [] {
      assert forall s :: s in ks[..|ks| - 1] ==> s in ks;
      TallyNone(sampleHits, ks[..|ks| - 1], c);
    }
  }

  /** A code that identifies its sample, decoded at the same or a lower detection level,
      hits that sample and no other: a true positive. */
  lemma OwnCodeIsTruePositive(sfv: Table, s: Sample, code: seq<Feature>, encodeDetect: real, decodeDetect: real, hits: seq<Sample>)
    requires s in sfv.vals && decodeDetect <= encodeDetect
    requires Identifies(sfv, s, code, encodeDetect)
    requires IsHitList(hits, code, sfv, decodeDetect)
    ensures Classify(s, Some(hits)) == TP
  {
    assert s in hits;
    forall s2 | s2 in sfv.vals && s2 != s
      ensures s2 !in hits
    {
      var f :| f in code && !Has(sfv, s2, f);
      assert !Detected(sfv, s2, f, decodeDetect);
    }
  }

  /** Decoding a table with the codes made from it, listed in any order (the codes file
      lists them sorted by name): every entry is a true positive or null. */
  lemma SelfDecodeClasses(sfv: Table, codes: Dict<Sample, Option<seq<Feature>>>,
                          hits: Dict<Sample, Option<seq<Sample>>>, encodeDetect: real, decodeDetect: real,
                          cutoff: Option<real>, minSize: int)
    requires sfv.Valid() && codes.Valid() && codes.vals.Keys == sfv.vals.Keys && decodeDetect <= encodeDetect
    requires forall s :: s in sfv.vals ==> EncodesWell(sfv, s, codes.vals[s], encodeDetect, cutoff, minSize)
    requires DecodedUpTo(sfv, codes, decodeDetect, hits, |codes.keys|)
    ensures forall s :: s in hits.vals ==> Classify(s, hits.vals[s]) in {TP, NA}
  {
    assert codes.keys[..|codes.keys|] == codes.keys;
    forall s | s in hits.vals
      ensures Classify(s, hits.vals[s]) in {TP, NA}
    {
      assert s in sfv.vals;
      if hits.vals[s].Some? {
        OwnCodeIsTruePositive(sfv, s, codes.vals[s].value, encodeDetect, decodeDetect, hits.vals[s].value);
      }
    }
  }

  /** When every entry is a true positive or null, nothing is counted under TP+FP, FN+FP
      or FN. */
  lemma OnlyTruePositivesTally(hits: Dict<Sample, Option<seq<Sample>>>)
    requires hits.Valid()
    requires forall s :: s in hits.vals ==> Classify(s, hits.vals[s]) in {TP, NA}
    ensures Tally(hits, hits.keys, TPFP) == Tally(hits, hits.keys, FNFP) == Tally(hits, hits.keys, FN) == 0
    ensures Tally(hits, hits.keys, TP) + Tally(hits, hits.keys, NA) == |hits.keys|
  {
    TallyNone(hits, hits.keys, TPFP);
    TallyNone(hits, hits.keys, FNFP);
    TallyNone(hits, hits.keys, FN);
    TallyTotal(hits, hits.keys);
  }

  /** So the confusion counts of a self-decode have nothing under TP+FP, FN+FP or FN. */
  lemma SelfDecodeNoErrors(sfv: Table, codes: Dict<Sample, Option<seq<Feature>>>,
                           hits: Dict<Sample, Option<seq<Sample>>>, encodeDetect: real, decodeDetect: real,
                           cutoff: Option<real>, minSize: int)
    requires sfv.Valid() && codes.Valid() && codes.vals.Keys == sfv.vals.Keys && decodeDetect <= encodeDetect
    requires forall s :: s in sfv.vals ==> EncodesWell(sfv, s, codes.vals[s], encodeDetect, cutoff, minSize)
    requires DecodedUpTo(sfv, codes, decodeDetect, hits, |codes.keys|)
    ensures Tally(hits, hits.keys, TPFP) == Tally(hits, hits.keys, FNFP) == Tally(hits, hits.keys, FN) == 0
    ensures Tally(hits, hits.keys, TP) + Tally(hits, hits.keys, NA) == |hits.keys|
  {
    SelfDecodeClasses(sfv, codes, hits, encodeDetect, decodeDetect, cutoff, minSize);
    OnlyTruePositivesTally(hits);
  }
}
