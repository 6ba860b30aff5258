/** The measurement table and its reshapings: filtering by a cutoff, transposing,
    and forgetting the values (idability.py, "utilities and file i/o"). */
module Tables {
  import opened Sequences
  import opened Dicts

  /** Column (subject) and row (feature) identifiers are the strings of the table file. */
  type Sample = string
  type Feature = string

  /** A nested dict of values. Read as sample -> feature -> value it is the "sfv"
      layout; the transposed feature -> sample -> value layout ("fsv") has the same shape. */
  type Table = Dict<string, Dict<string, real>>

  /** The same nesting with the inner dicts reduced to their key sets. */
  type KeySets = Dict<string, set<string>>

  /** Row `r` of the table has an entry in column `c`. */
  ghost predicate Has(t: Table, r: string, c: string)
  {
    r in t.vals && c in t.vals[r].vals
  }

  /** Sample `s` carries feature `f` at a value of at least `detect`. */
  ghost predicate Detected(t: Table, s: Sample, f: Feature, detect: real)
  {
    Has(t, s, f) && t.vals[s].vals[f] >= detect
  }

  /** The test of funcReduceSFV: `value >= cutoff` when `greater`, else `value < cutoff`. */
  predicate Passes(value: real, cutoff: real, greater: bool)
  {
    (greater && value >= cutoff) || (!greater && value < cutoff)
  }

  /** The entry for `f` is kept: it exists and its value passes the cutoff test. */
  ghost predicate Keeps(row: Dict<Feature, real>, f: Feature, cutoff: real, greater: bool)
  {
    f in row.vals && Passes(row.vals[f], cutoff, greater)
  }

  /** The features of `fs` whose entries are kept, in the order of `fs`. */
  ghost function Survivors(row: Dict<Feature, real>, fs: seq<Feature>, cutoff: real, greater: bool): (r: seq<Feature>)
    ensures IsSubseq(r, fs)
    ensures forall f :: f in r <==> f in fs && Keeps(row, f, cutoff, greater)
    decreases |fs|
  {
    if fs == [] then []
    else
      var f := fs[|fs| - 1];
      var front := fs[..|fs| - 1];
      assert fs == front + [f];
      var r := Survivors(row, front, cutoff, greater);
      if Keeps(row, f, cutoff, greater) then
        SubseqSnoc(r, front, f);
        r + [f]
      else
        SubseqExtend(r, front, f);
        r
  }

  /** The values of the kept entries among the features `fs`. */
  ghost function KeptValues(row: Dict<Feature, real>, fs: seq<Feature>, cutoff: real, greater: bool): (m: map<Feature, real>)
    ensures forall f :: f in m <==> f in fs && Keeps(row, f, cutoff, greater)
    ensures forall f :: f in m ==> f in row.vals && m[f] == row.vals[f]
  {
    map f | f in fs && Keeps(row, f, cutoff, greater) :: row.vals[f]
  }

  /** The row funcReduceSFV builds from `row`: the kept entries, in their original order. */
  ghost function Reduction(row: Dict<Feature, real>, cutoff: real, greater: bool): (kept: Dict<Feature, real>)
    requires row.Valid()
    ensures kept.Valid()
    ensures IsSubseq(kept.keys, row.keys)
    ensures forall f :: f in kept.vals <==> f in row.vals && Passes(row.vals[f], cutoff, greater)
    ensures forall f :: f in kept.vals ==> kept.vals[f] == row.vals[f]
  {
    var keys := Survivors(row, row.keys, cutoff, greater);
    SubseqDistinct(keys, row.keys);
    Dict(keys, KeptValues(row, row.keys, cutoff, greater))
  }

  /** Scanning one more feature of the row extends the kept prefix by that feature
      exactly when it is kept; it was not kept before. */
  lemma ReductionStep(row: Dict<Feature, real>, i: nat, cutoff: real, greater: bool)
    requires row.Valid() && i < |row.keys|
    ensures var f := row.keys[i];
      && f !in Survivors(row, row.keys[..i], cutoff, greater)
      && Survivors(row, row.keys[..i + 1], cutoff, greater) ==
         Survivors(row, row.keys[..i], cutoff, greater) + (if Keeps(row, f, cutoff, greater) then [f] else [])
      && KeptValues(row, row.keys[..i + 1], cutoff, greater) ==
         if Keeps(row, f, cutoff, greater) then KeptValues(row, row.keys[..i], cutoff, greater)[f := row.vals[f]]
         else KeptValues(row, row.keys[..i], cutoff, greater)
  {
    var f := row.keys[i];
    var front, next := row.keys[..i], row.keys[..i + 1];
    assert next == front + [f];
    assert next[..i] == front;
    assert f !in front;
    SurvivorsSnoc(row, front, f, cutoff, greater);
    KeptValuesSnoc(row, front, f, cutoff, greater);
  }

  lemma SurvivorsSnoc(row: Dict<Feature, real>, fs: seq<Feature>, f: Feature, cutoff: real, greater: bool)
    ensures Survivors(row, fs + [f], cutoff, greater) ==
            Survivors(row, fs, cutoff, greater) + (if Keeps(row, f, cutoff, greater) then [f] else [])
  {
    assert (fs + [f])[..|fs|] == fs;
  }

  lemma KeptValuesSnoc(row: Dict<Feature, real>, fs: seq<Feature>, f: Feature, cutoff: real, greater: bool)
    ensures KeptValues(row, fs + [f], cutoff, greater) ==
            if Keeps(row, f, cutoff, greater) then KeptValues(row, fs, cutoff, greater)[f := row.vals[f]]
            else KeptValues(row, fs, cutoff, greater)
  {
  }

  /** The inner loop of funcReduceSFV, over one sample's features. */
  method ReduceRow(row: Dict<Feature, real>, cutoff: real, greater: bool) returns (kept: Dict<Feature, real>)
    requires row.Valid()
    ensures kept == Reduction(row, cutoff, greater)
  {
    kept := Empty();
    var i := 0;
    while i < |row.keys|
      invariant 0 <= i <= |row.keys|
      invariant kept == Dict(Survivors(row, row.keys[..i], cutoff, greater), KeptValues(row, row.keys[..i], cutoff, greater))
      invariant kept.Valid()
    {
      var feature := row.keys[i];
      var value := row.vals[feature];
      ReductionStep(row, i, cutoff, greater);
      if Passes(value, cutoff, greater) {
        kept := kept.Put(feature, value);
      }
      i := i + 1;
    }
    assert row.keys[..i] == row.keys;
  }

  /** The rows of `sfv` after the samples `done` have been reduced; the other samples
      still hold the empty row funcReduceSFV starts them with. */
  ghost function PartlyReduced(sfv: Table, done: seq<Sample>, cutoff: real, greater: bool): (m: map<Sample, Dict<Feature, real>>)
    requires ValidNested(sfv)
    ensures m.Keys == sfv.vals.Keys
  {
    map s | s in sfv.vals :: if s in done then Reduction(sfv.vals[s], cutoff, greater) else Empty()
  }

  lemma PartlyReducedStep(sfv: Table, done: seq<Sample>, s: Sample, cutoff: real, greater: bool)
    requires ValidNested(sfv) && s in sfv.vals
    ensures PartlyReduced(sfv, done + [s], cutoff, greater) ==
            PartlyReduced(sfv, done, cutoff, greater)[s := Reduction(sfv.vals[s], cutoff, greater)]
  {
    assert forall t :: t in done + [s] <==> t in done || t == s;
  }

  /** funcReduceSFV: every sample is kept, even one left with no entries; each row
      keeps exactly its entries that pass the cutoff test. */
  method ReduceSFV(sfv: Table, cutoff: real, greater: bool) returns (temp: Table)
    requires ValidNested(sfv)
    ensures ValidNested(temp) && temp.keys == sfv.keys
    ensures forall s :: s in sfv.vals ==> temp.vals[s] == Reduction(sfv.vals[s], cutoff, greater)
  {
    temp := Dict(sfv.keys, map s | s in sfv.vals :: Empty());
    var i := 0;
    while i < |sfv.keys|
      invariant 0 <= i <= |sfv.keys|
      invariant temp == Dict(sfv.keys, PartlyReduced(sfv, sfv.keys[..i], cutoff, greater))
    {
      var sample := sfv.keys[i];
      var row := ReduceRow(sfv.vals[sample], cutoff, greater);
      assert sfv.keys[..i + 1] == sfv.keys[..i] + [sample];
      PartlyReducedStep(sfv, sfv.keys[..i], sample, cutoff, greater);
      temp := Dict(temp.keys, temp.vals[sample := row]);
      i := i + 1;
    }
    assert sfv.keys[..i] == sfv.keys;
  }

  /** The value stored at `t[r][c]`, or `None` when there is no such entry. */
  function Entry(t: Table, r: string, c: string): (e: Option<real>)
    ensures e.Some? <==> Has(t, r, c)
  {
    if r in t.vals && c in t.vals[r].vals then Some(t.vals[r].vals[c]) else None
  }

  /** `fsv` is the transpose of the rows `done` of `sfv`: `fsv[f][s]` exists exactly
      when `s` is among `done` and `sfv[s][f]` exists, and then they are equal. */
  ghost predicate IsFlipOf(fsv: Table, sfv: Table, done: seq<Sample>)
  {
    && ValidNested(fsv) && NoEmptyRows(fsv)
    && forall f, s :: Entry(fsv, f, s) == if s in done then Entry(sfv, s, f) else None
  }

  /** Every row holds at least one entry. */
  ghost predicate NoEmptyRows(t: Table)
  {
    forall r :: r in t.vals ==> t.vals[r].vals != map[]
  }

  /** The features of a transpose are exactly those that some sample of `done` has. */
  lemma FlipFeatures(fsv: Table, sfv: Table, done: seq<Sample>, f: Feature)
    requires IsFlipOf(fsv, sfv, done)
    ensures f in fsv.vals <==> exists s :: s in done && Has(sfv, s, f)
  {
    if f in fsv.vals {
      var s :| s in fsv.vals[f].vals;
      assert Entry(fsv, f, s).Some?;
    }
    forall s | s in done && Has(sfv, s, f)
      ensures f in fsv.vals
    {
      assert Entry(fsv, f, s) == Entry(sfv, s, f);
    }
  }

  /** `t.setdefault(r, {})[c] = v`: one entry added to a nested dict, nothing else changed. */
  function SetDefaultPut(t: Table, r: string, c: string, v: real): (u: Table)
    requires ValidNested(t)
    ensures ValidNested(u)
    ensures forall f, s :: Entry(u, f, s) == if f == r && s == c then Some(v) else Entry(t, f, s)
    ensures NoEmptyRows(t) ==> NoEmptyRows(u)
  {
    var inner := if r in t.vals then t.vals[r] else Empty();
    t.Put(r, inner.Put(c, v))
  }

  /** `r` is the transpose of the rows `done` of `sfv` plus the entries `got` of the
      row of `sample`. */
  ghost predicate PartFlip(r: Table, sfv: Table, done: seq<Sample>, sample: Sample, got: seq<Feature>)
  {
    && ValidNested(r) && NoEmptyRows(r)
    && forall f, s :: Entry(r, f, s) ==
         if s in done then Entry(sfv, s, f)
         else if s == sample && f in got then Entry(sfv, s, f)
         else None
  }

  lemma AddSampleStart(fsv: Table, sfv: Table, done: seq<Sample>, sample: Sample)
    requires sample in sfv.vals && IsFlipOf(fsv, sfv, done)
    ensures PartFlip(fsv, sfv, done, sample, sfv.vals[sample].keys[..0])
  {
    assert sfv.vals[sample].keys[..0] == [];
  }

  lemma AddSampleStep(r: Table, sfv: Table, done: seq<Sample>, sample: Sample, n: nat)
    requires ValidNested(sfv) && sample in sfv.vals && sample !in done
    requires 0 < n <= |sfv.vals[sample].keys|
    requires PartFlip(r, sfv, done, sample, sfv.vals[sample].keys[..n - 1])
    ensures var row := sfv.vals[sample]; var feature := row.keys[n - 1];
            PartFlip(SetDefaultPut(r, feature, sample, row.vals[feature]), sfv, done, sample, row.keys[..n])
  {
    var row := sfv.vals[sample];
    var feature := row.keys[n - 1];
    var u := SetDefaultPut(r, feature, sample, row.vals[feature]);
    assert row.keys[..n] == row.keys[..n - 1] + [feature];
    forall f, s
      ensures Entry(u, f, s) ==
        if s in done then Entry(sfv, s, f)
        else if s == sample && f in row.keys[..n] then Entry(sfv, s, f)
        else None
    {
      assert f in row.keys[..n] <==> f in row.keys[..n - 1] || f == feature;
      if f == feature && s == sample {
        assert Entry(u, f, s) == Some(row.vals[feature]) == Entry(sfv, s, f);
      } else {
        assert Entry(u, f, s) == Entry(r, f, s);
      }
    }
  }

  /** The first `n` entries of `row`, in its order, added under column `sample`
      by `SetDefaultPut`. */
  function AddEntries(t: Table, sample: Sample, row: Dict<Feature, real>, n: nat): (u: Table)
    requires ValidNested(t) && row.Valid() && n <= |row.keys|
    ensures ValidNested(u)
  {
    if n == 0 then t
    else
      var f := row.keys[n - 1];
      SetDefaultPut(AddEntries(t, sample, row, n - 1), f, sample, row.vals[f])
  }

  /** Adding the first `n` entries of the row of `sample` to a transpose of `done`
      gives the transpose of `done` plus those entries. */
  lemma {:induction false} AddEntriesFlip(fsv: Table, sfv: Table, done: seq<Sample>, sample: Sample, n: nat)
    requires ValidNested(sfv) && sample in sfv.vals && sample !in done
    requires IsFlipOf(fsv, sfv, done) && n <= |sfv.vals[sample].keys|
    ensures PartFlip(AddEntries(fsv, sample, sfv.vals[sample], n), sfv, done, sample, sfv.vals[sample].keys[..n])
  {
    if n == 0 {
      AddSampleStart(fsv, sfv, done, sample);
    } else {
      AddEntriesFlip(fsv, sfv, done, sample, n - 1);
      AddSampleStep(AddEntries(fsv, sample, sfv.vals[sample], n - 1), sfv, done, sample, n);
    }
  }

  lemma AddSampleEnd(r: Table, sfv: Table, done: seq<Sample>, sample: Sample)
    requires ValidNested(sfv) && sample in sfv.vals
    requires PartFlip(r, sfv, done, sample, sfv.vals[sample].keys[..|sfv.vals[sample].keys|])
    ensures IsFlipOf(r, sfv, done + [sample])
  {
    assert sfv.vals[sample].keys[..|sfv.vals[sample].keys|] == sfv.vals[sample].keys;
    forall f, s
      ensures Entry(r, f, s) == if s in done + [sample] then Entry(sfv, s, f) else None
    {
      assert s in done + [sample] <==> s in done || s == sample;
    }
  }

  /** The inner loop of funcFlipSFV: `fsv.setdefault(feature, {})[sample] = value`
      for every entry of one sample's row. */
  method AddSample(fsv: Table, sfv: Table, done: seq<Sample>, sample: Sample) returns (r: Table)
    requires ValidNested(sfv) && sample in sfv.vals && sample !in done
    requires IsFlipOf(fsv, sfv, done)
    ensures IsFlipOf(r, sfv, done + [sample])
  {
    var row := sfv.vals[sample];
    r := fsv;
    var j := 0;
    while j < |row.keys|
      invariant 0 <= j <= |row.keys|
      invariant r == AddEntries(fsv, sample, row, j)
    {
      var feature := row.keys[j];
      r := SetDefaultPut(r, feature, sample, row.vals[feature]);
      j := j + 1;
    }
    AddEntriesFlip(fsv, sfv, done, sample, j);
    AddSampleEnd(r, sfv, done, sample);
  }

  /** funcFlipSFV: the feature -> sample -> value transpose, `fsv[f][s] == sfv[s][f]`. */
  method FlipSFV(sfv: Table) returns (fsv: Table)
    requires ValidNested(sfv)
    ensures IsFlipOf(fsv, sfv, sfv.keys)
  {
    fsv := Empty();
    var i := 0;
    while i < |sfv.keys|
      invariant 0 <= i <= |sfv.keys|
      invariant IsFlipOf(fsv, sfv, sfv.keys[..i])
    {
      fsv := AddSample(fsv, sfv, sfv.keys[..i], sfv.keys[i]);
      assert sfv.keys[..i + 1] == sfv.keys[..i] + [sfv.keys[i]];
      i := i + 1;
    }
    assert sfv.keys[..i] == sfv.keys;
  }

  /** funcSetForm: the same keys in the same order, each inner dict replaced by the
      set of its keys. */
  function SetForm(t: Table): (r: KeySets)
    ensures r.keys == t.keys && r.vals.Keys == t.vals.Keys
    ensures forall k, e :: k in r.vals && e in r.vals[k] <==> Has(t, k, e)
  {
    Dict(t.keys, map k | k in t.vals :: t.vals[k].vals.Keys)
  }

  /** The key set stored under `k`, or the empty set when `k` is not a key. */
  function Carriers(sets: KeySets, k: string): set<string>
  {
    if k in sets.vals then sets.vals[k] else {}
  }
}
