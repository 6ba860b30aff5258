/** The run settings of idability's `main`: the command-line defaults, the meta-mode
    presets and the default output file name. Parsing the command line is outside this
    model; its result is the `Arguments` value. */
module Options {
  import opened Dicts
  import opened Text
  import opened Ranking

  /** c_epsilon, the default detection and non-detection levels. */
  const Epsilon: real := 0.00000000000000000001

  /** c_codes_extension and c_hits_extension. */
  const CodesExtension: string := "codes.txt"
  const HitsExtension: string := "hits.txt"

  datatype MetaMode = Off | Relab | Rpkm

  /** The parsed command line. */
  datatype Arguments = Arguments(
    table: string, codes: Option<string>, cutoff: Option<real>, minSize: int,
    detect: real, nondetect: real, strategy: Strategy, output: Option<string>, meta: MetaMode)

  /** The command-line defaults for a table and, when decoding, a codes file. */
  function Defaults(table: string, codes: Option<string>): (args: Arguments)
    ensures args.detect == args.nondetect == Epsilon && args.minSize == 1
    ensures args.cutoff.None? && args.strategy == Rarity && args.meta == Off && args.output.None?
  {
    Arguments(table, codes, None, 1, Epsilon, Epsilon, Rarity, None, Off)
  }

  /** The parameters the run uses. */
  datatype Settings = Settings(detect: real, nondetect: real, cutoff: Option<real>, minSize: int, strategy: Strategy)

  /** The overrides of `main`: a meta mode replaces every parameter by its preset, and
      relaxes detection tenfold when decoding. */
  function Configure(args: Arguments): (settings: Settings)
    ensures args.meta == Off ==>
              settings == Settings(args.detect, args.nondetect, args.cutoff, args.minSize, args.strategy)
    ensures args.meta != Off ==>
              && settings.cutoff == Some(0.8) && settings.minSize == 7 && settings.strategy == AbundanceGap
              && 0.0 < settings.nondetect < settings.detect
    ensures args.meta == Rpkm ==>
              settings.nondetect == 0.05 && settings.detect == if args.codes.Some? then 0.5 else 5.0
    ensures args.meta == Relab ==>
              settings.nondetect == 0.00001 && settings.detect == if args.codes.Some? then 0.0001 else 0.001
  {
    if args.meta == Off then
      Settings(args.detect, args.nondetect, args.cutoff, args.minSize, args.strategy)
    else
      var base := if args.meta == Rpkm then 5.0 else 0.001;
      var detect := if args.codes.Some? then base / 10.0 else base;
      Settings(detect, base / 100.0, Some(0.8), 7, AbundanceGap)
  }

  /** In a meta mode, decoding detects at a tenth of the level encoding used, so a code
      made in that mode hits its own sample when the table is decoded in that mode. */
  lemma MetaDecodeRelaxed(args: Arguments, codesPath: string)
    requires args.meta != Off
    ensures var encoding := Configure(args.(codes := None));
      var decoding := Configure(args.(codes := Some(codesPath)));
      decoding.detect * 10.0 == encoding.detect && decoding.detect <= encoding.detect
      && decoding.nondetect == encoding.nondetect
  {
  }

  /** With the command-line defaults, encoding and decoding detect at the same positive
      level, non-detection is no higher than detection, and no cutoff is applied: the
      self-decode results hold for a default run. */
  lemma DefaultRun(table: string, codesPath: string)
    ensures var encoding := Configure(Defaults(table, None));
      var decoding := Configure(Defaults(table, Some(codesPath)));
      && 0.0 < encoding.detect == decoding.detect
      && encoding.nondetect <= encoding.detect && decoding.nondetect <= decoding.detect
      && encoding.cutoff.None? && decoding.cutoff.None?
      && encoding.minSize == decoding.minSize == 1
      && encoding.strategy == decoding.strategy == Rarity
  {
  }

  /** `os.path.split(path)[1]`: what follows the last `/`. */
  function Tail(path: string): (tail: string)
    ensures '/' !in tail && |tail| <= |path| && path[|path| - |tail|..] == tail
    ensures |tail| == |path| || path[|path| - |tail| - 1] == '/'
    decreases |path|
  {
    if path == [] || path[|path| - 1] == '/' then []
    else
      var t := Tail(path[..|path| - 1]);
      assert path[|path| - |t| - 1..] == t + [path[|path| - 1]];
      t + [path[|path| - 1]]
  }

  /** funcPathToName: the file name up to its first `.`. */
  function PathToName(path: string): (name: string)
  {
    Split(Tail(path), '.')[0]
  }

  /** The name is the start of the file name, before any `.`, with no directory in it. */
  lemma PathToNameShape(path: string)
    ensures var name, tail := PathToName(path), Tail(path);
      && '.' !in name && '/' !in name && name <= tail
      && (|name| == |tail| || tail[|name|] == '.')
  {
    var tail := Tail(path);
    SplitFirst(tail, '.');
    var name := PathToName(path);
    assert forall c :: c in name ==> c in tail;
  }

  /** The default output path built from the table's name and, when decoding, the
      codes file's name. */
  function NamedPath(tableName: string, codesName: Option<string>): (path: string)
  {
    if codesName.None? then Join([tableName, CodesExtension], '.')
    else Join([tableName, codesName.value, HitsExtension], '.')
  }

  /** The output path of `main`: the given one, or one built from the input names. */
  function OutputPath(args: Arguments): (path: string)
  {
    if args.output.Some? then args.output.value
    else NamedPath(PathToName(args.table), if args.codes.Some? then Some(PathToName(args.codes.value)) else None)
  }

  /** Split on `.`, a default output path gives back the names it was built from, then
      the pieces of the extension. */
  lemma NamedPathFields(tableName: string, codesName: Option<string>)
    requires '.' !in tableName && (codesName.Some? ==> '.' !in codesName.value)
    ensures Split(NamedPath(tableName, codesName), '.') ==
            if codesName.None? then [tableName] + Split(CodesExtension, '.')
            else [tableName, codesName.value] + Split(HitsExtension, '.')
  {
    if codesName.None? {
      assert [tableName] + [CodesExtension] == [tableName, CodesExtension];
      assert forall x :: x in [tableName] ==> x == tableName;
      SplitJoinLast([tableName], CodesExtension, '.');
    } else {
      var c := codesName.value;
      assert [tableName, c] + [HitsExtension] == [tableName, c, HitsExtension];
      assert forall x :: x in [tableName, c] ==> x == tableName || x == c;
      SplitJoinLast([tableName, c], HitsExtension, '.');
    }
  }

  /** Split on `.`, a default output path built from names without a `.` is those
      names followed by the pieces of the extension. */
  lemma DefaultPathFields(tableName: string, codesName: Option<string>)
    requires '.' !in tableName && (codesName.Some? ==> '.' !in codesName.value)
    ensures Split(NamedPath(tableName, codesName), '.') ==
            if codesName.None? then [tableName, "codes", "txt"] else [tableName, codesName.value, "hits", "txt"]
  {
    NamedPathFields(tableName, codesName);
    if codesName.None? {
      CodesExtensionFields();
      assert [tableName] + ["codes", "txt"] == [tableName, "codes", "txt"];
    } else {
      HitsExtensionFields();
      assert [tableName, codesName.value] + ["hits", "txt"] == [tableName, codesName.value, "hits", "txt"];
    }
  }

  /** Without an explicit output, the output path split on `.` is the table's name, the
      codes file's name when decoding, then the extension's pieces. */
  lemma OutputPathFields(args: Arguments)
    requires args.output.None?
    ensures Split(OutputPath(args), '.') ==
            if args.codes.None? then [PathToName(args.table), "codes", "txt"]
            else [PathToName(args.table), PathToName(args.codes.value), "hits", "txt"]
  {
    PathToNameShape(args.table);
    var codesName := if args.codes.Some? then Some(PathToName(args.codes.value)) else None;
    if args.codes.Some? {
      PathToNameShape(args.codes.value);
    }
    DefaultPathFields(PathToName(args.table), codesName);
  }

  /** The codes extension is `codes` followed by `txt`. */
  lemma CodesExtensionFields()
    ensures Split(CodesExtension, '.') == ["codes", "txt"]
  {
    assert '.' !in "txt";
    SplitNoSep("txt", '.');
    assert CodesExtension == "codes" + ['.'] + "txt";
    SplitPrefix("codes", '.', "txt");
  }

  /** The hits extension is `hits` followed by `txt`. */
  lemma HitsExtensionFields()
    ensures Split(HitsExtension, '.') == ["hits", "txt"]
  {
    assert '.' !in "txt";
    SplitNoSep("txt", '.');
    assert HitsExtension == "hits" + ['.'] + "txt";
    SplitPrefix("hits", '.', "txt");
  }
}
