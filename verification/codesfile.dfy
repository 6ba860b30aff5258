/** The codes file of idability (funcWriteCodes / funcReadCodes): a header line, then
    one tab-separated line per sample, the sample name followed by its code features,
    or by `#N/A` when the sample has no code. Files are sequences of lines; opening,
    writing and reading them is outside this model. */
module CodesFile {
  import opened Sequences
  import opened Dicts
  import opened Tables
  import opened Text

  /** c_na: what stands for a null code. */
  const NA: string := "#N/A"

  /** The header line funcWriteCodes writes first and funcReadCodes skips. */
  const Header: string := "#SAMPLE\tCODE\n"

  type Codes = Dict<Sample, Option<seq<Feature>>>

  /** `[sample] + ([c_na] if code is None else code)` */
  function Items(sample: Sample, code: Option<seq<Feature>>): (items: seq<string>)
    ensures |items| >= 1 && items[0] == sample
  {
    [sample] + (if code.None? then [NA] else code.value)
  }

  /** The line written for one sample. */
  function FormatLine(sample: Sample, code: Option<seq<Feature>>): (line: string)
    ensures |line| > 0 && line[|line| - 1] == '\n'
  {
    Join(Items(sample, code), '\t') + "\n"
  }

  /** What funcReadCodes makes of one line: the first field is the sample, the rest its
      code, which is null as soon as one field is `#N/A`. */
  function ParseLine(line: string): (entry: (Sample, Option<seq<Feature>>))
    ensures '\t' !in entry.0
    ensures entry.1.Some? ==> NA !in entry.1.value && forall f :: f in entry.1.value ==> '\t' !in f
  {
    var items := Split(Strip(line), '\t');
    SplitPieces(Strip(line), '\t');
    assert items[0] in items;
    var code := items[1..];
    assert forall f :: f in code ==> f in items;
    (items[0], if NA in code then None else Some(code))
  }

  /** No tab, which would split the field, and no line break, which would split the line. */
  predicate Plain(field: string)
  {
    forall k :: 0 <= k < |field| ==> field[k] != '\t' && field[k] != '\n' && field[k] != '\r'
  }

  /** The line of a sample survives being read: its fields are plain, and its text
      neither starts nor ends with whitespace, which `strip` would remove. */
  predicate Framed(sample: Sample, code: Option<seq<Feature>>)
  {
    var items := Items(sample, code);
    var text := Join(items, '\t');
    && (forall i :: 0 <= i < |items| ==> Plain(items[i]))
    && (text == [] || (!IsSpace(text[0]) && !IsSpace(text[|text| - 1])))
  }

  /** A code that is read back as written: its line is framed and no feature is spelled
      like the null marker. */
  predicate Writable(sample: Sample, code: Option<seq<Feature>>)
  {
    Framed(sample, code) && (code.Some? ==> NA !in code.value)
  }

  /** A sample that starts without whitespace, a last field that ends without it, and
      plain fields make a framed line. */
  lemma FramedByEnds(sample: Sample, code: Option<seq<Feature>>)
    requires var items := Items(sample, code); var last := items[|items| - 1];
      && (forall i :: 0 <= i < |items| ==> Plain(items[i]))
      && sample != [] && !IsSpace(sample[0])
      && last != [] && !IsSpace(last[|last| - 1])
    ensures Framed(sample, code)
  {
    var items := Items(sample, code);
    JoinFirst(items, '\t');
    JoinLast(items, '\t');
  }

  /** Reading back the line written for a framed sample gives the sample, and its code
      unless the code holds the null marker, in which case it reads as null. */
  lemma LineReadBack(sample: Sample, code: Option<seq<Feature>>)
    requires Framed(sample, code)
    ensures ParseLine(FormatLine(sample, code)) == (sample, if code.Some? && NA in code.value then None else code)
  {
    var items := Items(sample, code);
    forall i | 0 <= i < |items|
      ensures '\t' !in items[i]
    {
      assert Plain(items[i]);
      forall k | 0 <= k < |items[i]|
        ensures items[i][k] != '\t'
      {
      }
    }
    StripLine(Join(items, '\t'));
    SplitJoin(items, '\t');
    assert items[1..] == if code.None? then [NA] else code.value;
  }

  /** Reading back the line written for a sample gives the sample and its code. */
  lemma LineRoundTrip(sample: Sample, code: Option<seq<Feature>>)
    requires Writable(sample, code)
    ensures ParseLine(FormatLine(sample, code)) == (sample, code)
  {
    LineReadBack(sample, code);
  }

  /** The lines written for the samples `order`, in that order. */
  function Lines(codes: Codes, order: seq<Sample>): (lines: seq<string>)
    requires forall s :: s in order ==> s in codes.vals
    ensures |lines| == |order|
    decreases |order|
  {
    if order == [] then []
    else
      var s := order[|order| - 1];
      Lines(codes, order[..|order| - 1]) + [FormatLine(s, codes.vals[s])]
  }

  /** funcWriteCodes: the header, then a line for each sample in the order given (the
      source writes them sorted by name). */
  method WriteCodes(codes: Codes, order: seq<Sample>) returns (file: seq<string>)
    requires forall s :: s in order <==> s in codes.vals
    ensures file == [Header] + Lines(codes, order)
  {
    file := [Header];
    var i := 0;
    while i < |order|
      invariant 0 <= i <= |order|
      invariant file == [Header] + Lines(codes, order[..i])
    {
      var sample := order[i];
      assert order[..i + 1][..i] == order[..i];
      file := file + [FormatLine(sample, codes.vals[sample])];
      i := i + 1;
    }
    assert order[..i] == order;
  }

  /** The dict built from `lines`, a later line for a sample overriding an earlier one. */
  function Collected(lines: seq<string>): (codes: Codes)
    ensures codes.Valid()
    decreases |lines|
  {
    if lines == [] then Empty()
    else
      var entry := ParseLine(lines[|lines| - 1]);
      Collected(lines[..|lines| - 1]).Put(entry.0, entry.1)
  }

  /** funcReadCodes: skip the header, then record every line's sample and code. */
  method ReadCodes(file: seq<string>) returns (codes: Codes)
    ensures codes == if file == [] then Empty() else Collected(file[1..])
  {
    codes := Empty();
    if file == [] {
      return;
    }
    var body := file[1..];
    var i := 0;
    while i < |body|
      invariant 0 <= i <= |body|
      invariant codes == Collected(body[..i])
    {
      var entry := ParseLine(body[i]);
      CollectedStep(body, i);
      codes := codes.Put(entry.0, entry.1);
      i := i + 1;
    }
    assert body[..i] == body;
  }

  lemma CollectedStep(lines: seq<string>, i: nat)
    requires i < |lines|
    ensures var entry := ParseLine(lines[i]);
      Collected(lines[..i + 1]) == Collected(lines[..i]).Put(entry.0, entry.1)
  {
    assert lines[..i + 1][..i] == lines[..i];
  }

  /** Reading back the lines written for distinct samples gives those samples, in the
      written order, with their codes. */
  lemma {:induction false} LinesRoundTrip(codes: Codes, order: seq<Sample>)
    requires Distinct(order) && forall s :: s in order ==> s in codes.vals && Writable(s, codes.vals[s])
    ensures var back := Collected(Lines(codes, order));
      back.keys == order && forall s :: s in order ==> back.vals[s] == codes.vals[s]
    decreases |order|
  {
    if order != [] {
      var s := order[|order| - 1];
      var front := order[..|order| - 1];
      assert order == front + [s];
      DistinctFront(order);
      LinesRoundTrip(codes, front);
      var lines := Lines(codes, order);
      assert lines[..|lines| - 1] == Lines(codes, front);
      LineRoundTrip(s, codes.vals[s]);
      assert Collected(lines) == Collected(Lines(codes, front)).Put(s, codes.vals[s]);
    }
  }

  /** Writing a codes dict and reading the file back gives the same codes, listed in
      the order they were written. */
  lemma FileRoundTrip(codes: Codes, order: seq<Sample>)
    requires Distinct(order) && forall s :: s in order <==> s in codes.vals
    requires forall s :: s in codes.vals ==> Writable(s, codes.vals[s])
    ensures var back := ([Header] + Lines(codes, order))[1..];
      Collected(back).keys == order && Collected(back).vals == codes.vals
  {
    var lines := Lines(codes, order);
    assert ([Header] + lines)[1..] == lines;
    LinesRoundTrip(codes, order);
    SameEntries(Collected(lines), codes, order);
  }

  /** Two valid dicts over the same keys, agreeing on every key, hold the same map. */
  lemma SameEntries(back: Codes, codes: Codes, order: seq<Sample>)
    requires back.Valid() && back.keys == order && forall s :: s in order <==> s in codes.vals
    requires forall s :: s in order ==> back.vals[s] == codes.vals[s]
    ensures back.vals == codes.vals
  {
    assert back.vals.Keys == codes.vals.Keys;
  }
}
