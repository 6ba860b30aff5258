/** The few Python string operations the file formats use: `sep.join`, `str.split(sep)`
    and `str.strip()`. */
module Text {

  /** The characters `str.strip()` removes, those for which Python's `str.isspace` holds:
      the ASCII controls \t to \r and \x1c to \x1f, the space, and the Unicode
      separators and spaces U+0085, U+00A0, U+1680, U+2000 to U+200A, U+2028, U+2029,
      U+202F, U+205F and U+3000. */
  predicate IsSpace(c: char)
  {
    var n := c as int;
    || 9 <= n <= 13 || 28 <= n <= 32 || n == 0x85 || n == 0xA0 || n == 0x1680
    || 0x2000 <= n <= 0x200A || n == 0x2028 || n == 0x2029 || n == 0x202F || n == 0x205F || n == 0x3000
  }

  /** `sep.join(items)` */
  function Join(items: seq<string>, sep: char): (r: string)
    ensures |items| == 1 ==> r == items[0]
    decreases |items|
  {
    if items == [] then ""
    else if |items| == 1 then items[0]
    else items[0] + [sep] + Join(items[1..], sep)
  }

  /** `s.split(sep)`: the pieces between the separators, at least one. */
  function Split(s: string, sep: char): (pieces: seq<string>)
    ensures |pieces| >= 1
    decreases |s|
  {
    if s == [] then [""]
    else
      var rest := Split(s[1..], sep);
      if s[0] == sep then [""] + rest else [[s[0]] + rest[0]] + rest[1..]
  }

  /** No piece of a split contains the separator. */
  lemma {:induction false} SplitPieces(s: string, sep: char)
    ensures forall p :: p in Split(s, sep) ==> sep !in p
    decreases |s|
  {
    if s != [] {
      SplitPieces(s[1..], sep);
    }
  }

  /** Joining the pieces of a split gives back the string. */
  lemma {:induction false} JoinSplit(s: string, sep: char)
    ensures Join(Split(s, sep), sep) == s
    decreases |s|
  {
    if s != [] {
      var rest := Split(s[1..], sep);
      JoinSplit(s[1..], sep);
      if s[0] == sep {
        assert ([""] + rest)[1..] == rest;
      } else {
        var pieces := [[s[0]] + rest[0]] + rest[1..];
        if |rest| == 1 {
          assert pieces == [[s[0]] + rest[0]];
        } else {
          assert pieces[1..] == rest[1..];
          assert Join(rest, sep) == rest[0] + [sep] + Join(rest[1..], sep);
        }
      }
    }
  }

  /** Splitting a join of separator-free items gives back the items. */
  lemma {:induction false} SplitJoin(items: seq<string>, sep: char)
    requires |items| >= 1 && forall i :: 0 <= i < |items| ==> sep !in items[i]
    ensures Split(Join(items, sep), sep) == items
    decreases |items|, |items[0]|
  {
    if |items| == 1 {
      SplitNoSep(items[0], sep);
    } else if items[0] == [] {
      var tail := Join(items[1..], sep);
      assert Join(items, sep) == [sep] + tail;
      assert ([sep] + tail)[1..] == tail;
      SplitJoin(items[1..], sep);
      assert items == [""] + items[1..];
    } else {
      var head := items[0];
      var shorter := [head[1..]] + items[1..];
      assert Join(items, sep) == [head[0]] + Join(shorter, sep) by {
        assert shorter[1..] == items[1..];
        assert head == [head[0]] + head[1..];
      }
      assert head[0] != sep by { assert head[0] in head; }
      forall i | 0 <= i < |shorter|
        ensures sep !in shorter[i]
      {
        if i == 0 {
          assert forall c :: c in head[1..] ==> c in head;
        } else {
          assert shorter[i] == items[i];
        }
      }
      SplitJoin(shorter, sep);
      assert ([head[0]] + Join(shorter, sep))[1..] == Join(shorter, sep);
      assert [head[0]] + head[1..] == head;
      assert items == [head] + shorter[1..];
    }
  }

  /** A string without the separator splits into itself alone. */
  lemma {:induction false} SplitNoSep(s: string, sep: char)
    requires sep !in s
    ensures Split(s, sep) == [s]
    decreases |s|
  {
    if s != [] {
      assert sep !in s[1..] by { assert forall c :: c in s[1..] ==> c in s; }
      SplitNoSep(s[1..], sep);
      assert [s[0]] + s[1..] == s;
    }
  }

  /** Leading whitespace removed. */
  function StripLeft(s: string): (r: string)
    ensures |r| <= |s| && (r == [] || !IsSpace(r[0]))
    decreases |s|
  {
    if s != [] && IsSpace(s[0]) then StripLeft(s[1..]) else s
  }

  /** Trailing whitespace removed. */
  function StripRight(s: string): (r: string)
    ensures |r| <= |s| && (r == [] || !IsSpace(r[|r| - 1]))
    decreases |s|
  {
    if s != [] && IsSpace(s[|s| - 1]) then StripRight(s[..|s| - 1]) else s
  }

  /** `s.strip()` */
  function Strip(s: string): (r: string)
  {
    StripRight(StripLeft(s))
  }

  /** Stripping a line whose text neither starts nor ends with whitespace gives back
      the text without its end of line. */
  lemma StripLine(s: string)
    requires s == [] || (!IsSpace(s[0]) && !IsSpace(s[|s| - 1]))
    ensures Strip(s + "\n") == s
  {
    var line := s + "\n";
    if s == [] {
      assert line[1..] == [];
      assert StripLeft(line) == StripLeft([]) == [];
      assert StripRight([]) == [];
    } else {
      assert line[0] == s[0] && line[..|line| - 1] == s;
      assert StripLeft(line) == line;
      assert StripRight(line) == StripRight(s) == s;
    }
  }

  /** A join whose first item is not empty starts with that item's first character. */
  lemma JoinFirst(items: seq<string>, sep: char)
    requires |items| >= 1 && items[0] != []
    ensures var r := Join(items, sep); |r| > 0 && r[0] == items[0][0]
  {
  }

  /** A join whose last item is not empty ends with that item's last character. */
  lemma {:induction false} JoinLast(items: seq<string>, sep: char)
    requires |items| >= 1 && items[|items| - 1] != []
    ensures var r, last := Join(items, sep), items[|items| - 1]; |r| > 0 && r[|r| - 1] == last[|last| - 1]
    decreases |items|
  {
    if |items| > 1 {
      assert items[1..][|items| - 2] == items[|items| - 1];
      JoinLast(items[1..], sep);
    }
  }

  /** The first piece of a split is the longest prefix free of the separator. */
  lemma {:induction false} SplitFirst(s: string, sep: char)
    ensures var p := Split(s, sep)[0];
      sep !in p && p <= s && (|p| == |s| || s[|p|] == sep)
    decreases |s|
  {
    if s != [] {
      SplitFirst(s[1..], sep);
    }
  }

  /** A separator-free piece and a separator split off the front of a string. */
  lemma {:induction false} SplitPrefix(a: string, sep: char, rest: string)
    requires sep !in a
    ensures Split(a + [sep] + rest, sep) == [a] + Split(rest, sep)
    decreases |a|
  {
    var s := a + [sep] + rest;
    if a == [] {
      assert s[1..] == rest;
    } else {
      assert sep !in a[1..] by { assert forall c :: c in a[1..] ==> c in a; }
      SplitPrefix(a[1..], sep, rest);
      assert s[1..] == a[1..] + [sep] + rest;
      assert [a[0]] + a[1..] == a;
    }
  }

  /** Joining separator-free items and a last string, then splitting, gives back the
      items followed by the pieces of the last string. */
  lemma {:induction false} SplitJoinLast(items: seq<string>, last: string, sep: char)
    requires forall x :: x in items ==> sep !in x
    ensures Split(Join(items + [last], sep), sep) == items + Split(last, sep)
    decreases |items|
  {
    if items == [] {
      assert items + [last] == [last];
    } else {
      var first, rest := items[0], items[1..];
      assert items == [first] + rest;
      assert (items + [last])[1..] == rest + [last];
      var tail := Join(rest + [last], sep);
      assert Join(items + [last], sep) == first + [sep] + tail;
      assert forall x :: x in rest ==> x in items;
      SplitJoinLast(rest, last, sep);
      SplitPrefix(first, sep, tail);
      assert Split(Join(items + [last], sep), sep) == [first] + (rest + Split(last, sep));
    }
  }
}
