/**
 * Properties of `stripIndents` on particular inputs: the empty and the
 * single blank line, two indented blocks, one with an inner empty line,
 * and an input on which applying it twice differs from applying it once.
 */
module IndentationCases {
  import opened Text
  import opened Indentation

  /** A single line that is blank (the empty string among them) is shifted
      away, the `pop` then acts on an empty array, and nothing is left. */
  lemma {:induction false} SingleBlankLine(s: string)
    requires '\n' !in s && Blank(s)
    ensures StripIndents(s) == ""
  {
    SplitSingle(s, '\n');
    assert DropBlankEnds([s]) == [];
  }

  /** `stripIndents("")` is `""`. */
  lemma EmptyInput()
    ensures StripIndents("") == ""
  {
    SingleBlankLine("");
  }

  /** The result of `stripIndents` is the join of the lines it computed. */
  lemma ResultJoinsLines(s: string)
    ensures StripIndents(s) == Join(Dedent(DropBlankEnds(Split(s, '\n'))), '\n')
  {
    var r := StripIndents(s);
    if |DropBlankEnds(Split(s, '\n'))| > 0 {
      assert Join(Split(r, '\n'), '\n') == r;
    }
  }

  /** The four steps of `stripIndents`, each shown on its own. */
  lemma StripIndentsSteps(s: string, lines: seq<string>, kept: seq<string>, out: seq<string>, r: string)
    requires Split(s, '\n') == lines
    requires |lines| >= 1 && DropBlankEnds(lines) == kept
    requires Dedent(kept) == out
    requires Join(out, '\n') == r
    ensures StripIndents(s) == r
  {
    ResultJoinsLines(s);
  }

  /** The dedent of lines whose least indentation is known. */
  lemma DedentIs(lines: seq<string>, m: nat, out: seq<string>)
    requires IsLeastIndent(lines, m)
    requires |out| == |lines|
    requires forall i :: 0 <= i < |lines| ==> out[i] == lines[i][if m <= |lines[i]| then m else |lines[i]|..]
    ensures Dedent(lines) == out
  {
    DedentByLeast(lines, m);
  }

  /** A letter after two spaces: indentation two, not blank. */
  lemma TwoSpacesThen(c: char)
    requires !IsWs(c)
    ensures LeadingWs([' ', ' ', c]) == 2 && !Blank([' ', ' ', c])
  {
    assert [' ', ' ', c][2] == c;
    assert [' ', ' ', c][1..] == [' ', c] && [' ', c][1..] == [c];
  }

  /** Joining a line in front of further lines puts a line feed between. */
  lemma JoinCons(x: string, rest: seq<string>)
    requires |rest| > 0
    ensures Join([x] + rest, '\n') == x + "\n" + Join(rest, '\n')
  {
    assert ([x] + rest)[1..] == rest;
  }

  /** Two lines indented by two spaces between a leading and a trailing
      empty line: both empty lines go and both indents are removed. */
  lemma IndentedBlock()
    ensures StripIndents("\n  a\n  b\n") == "a\nb"
  {
    var lines := ["", "  a", "  b", ""];
    var kept := ["  a", "  b"];
    var out := ["a", "b"];
    IndentedBlockLines();
    SplitsInto("\n  a\n  b\n", lines);
    IndentedBlockKept();
    IndentedBlockDedent();
    JoinedAB();
    StripIndentsSteps("\n  a\n  b\n", lines, kept, out, "a\nb");
  }

  /** The lines of the first block join back to its text. */
  lemma IndentedBlockLines()
    ensures Join(["", "  a", "  b", ""], '\n') == "\n  a\n  b\n"
  {
    JoinCons("", ["  a", "  b", ""]);
    JoinCons("  a", ["  b", ""]);
    JoinCons("  b", [""]);
  }

  /** Both empty end lines of the first block are dropped. */
  lemma IndentedBlockKept()
    ensures DropBlankEnds(["", "  a", "  b", ""]) == ["  a", "  b"]
  {
  }

  /** Both lines of the first block lose their two spaces. */
  lemma IndentedBlockDedent()
    ensures Dedent(["  a", "  b"]) == ["a", "b"]
  {
    var lines := ["  a", "  b"];
    TwoSpacesThen('a');
    TwoSpacesThen('b');
    assert lines[0] == [' ', ' ', 'a'] && lines[1] == [' ', ' ', 'b'];
    assert IsLeastIndent(lines, 2);
    DedentIs(lines, 2, ["a", "b"]);
  }

  /** The dedented lines of the first block join to its result. */
  lemma JoinedAB()
    ensures Join(["a", "b"], '\n') == "a\nb"
  {
    assert ["a", "b"][1..] == ["b"];
  }

  /** An empty line between two indented lines is kept, and being blank it
      does not count towards the least indentation. */
  lemma InnerBlankLineKept()
    ensures StripIndents("  a\n\n  b") == "a\n\nb"
  {
    var lines := ["  a", "", "  b"];
    InnerBlankLines();
    SplitsInto("  a\n\n  b", lines);
    InnerBlankKept();
    InnerBlankDedent();
    JoinedAEmptyB();
    StripIndentsSteps("  a\n\n  b", lines, lines, ["a", "", "b"], "a\n\nb");
  }

  /** The lines of the second block join back to its text. */
  lemma InnerBlankLines()
    ensures Join(["  a", "", "  b"], '\n') == "  a\n\n  b"
  {
    JoinCons("  a", ["", "  b"]);
    JoinCons("", ["  b"]);
  }

  /** The second block has no blank end line, so all its lines stay. */
  lemma InnerBlankKept()
    ensures DropBlankEnds(["  a", "", "  b"]) == ["  a", "", "  b"]
  {
    TwoSpacesThen('a');
    TwoSpacesThen('b');
    var lines := ["  a", "", "  b"];
    assert lines[0] == [' ', ' ', 'a'] && lines[2] == [' ', ' ', 'b'];
  }

  /** The second block loses two spaces per line; its empty line stays empty. */
  lemma InnerBlankDedent()
    ensures Dedent(["  a", "", "  b"]) == ["a", "", "b"]
  {
    var lines := ["  a", "", "  b"];
    TwoSpacesThen('a');
    TwoSpacesThen('b');
    assert lines[0] == [' ', ' ', 'a'] && lines[2] == [' ', ' ', 'b'];
    assert IsLeastIndent(lines, 2);
    DedentIs(lines, 2, ["a", "", "b"]);
  }

  /** The dedented lines of the second block join to its result. */
  lemma JoinedAEmptyB()
    ensures Join(["a", "", "b"], '\n') == "a\n\nb"
  {
    JoinCons("a", ["", "b"]);
    JoinCons("", ["b"]);
  }

  /** `stripIndents` is not idempotent: of two leading empty lines only one
      is dropped, and the second application drops the other. */
  lemma NotIdempotent()
    ensures StripIndents("\n\n  a") == "\na"
    ensures StripIndents(StripIndents("\n\n  a")) == "a"
    ensures StripIndents(StripIndents("\n\n  a")) != StripIndents("\n\n  a")
  {
    FirstOfTwoEmptyLinesDropped();
    SecondApplication();
  }

  /** The first application keeps the second of two leading empty lines. */
  lemma FirstOfTwoEmptyLinesDropped()
    ensures StripIndents("\n\n  a") == "\na"
  {
    var lines := ["", "", "  a"];
    TwoEmptyLines();
    SplitsInto("\n\n  a", lines);
    TwoEmptyKept();
    TwoEmptyDedent();
    JoinedEmptyA();
    StripIndentsSteps("\n\n  a", lines, ["", "  a"], ["", "a"], "\na");
  }

  /** The lines of `"\n\n  a"` join back to it. */
  lemma TwoEmptyLines()
    ensures Join(["", "", "  a"], '\n') == "\n\n  a"
  {
    JoinCons("", ["", "  a"]);
    JoinCons("", ["  a"]);
  }

  /** Only the first of the two leading empty lines is dropped. */
  lemma TwoEmptyKept()
    ensures DropBlankEnds(["", "", "  a"]) == ["", "  a"]
  {
    TwoSpacesThen('a');
    var lines := ["", "", "  a"];
    assert lines[2] == [' ', ' ', 'a'];
  }

  /** The kept empty line stays empty and `"  a"` loses its indent. */
  lemma TwoEmptyDedent()
    ensures Dedent(["", "  a"]) == ["", "a"]
  {
    var lines := ["", "  a"];
    TwoSpacesThen('a');
    assert lines[1] == [' ', ' ', 'a'];
    assert IsLeastIndent(lines, 2);
    DedentIs(lines, 2, ["", "a"]);
  }

  /** `""` and `"a"` join to `"\na"`. */
  lemma JoinedEmptyA()
    ensures Join(["", "a"], '\n') == "\na"
  {
    JoinCons("", ["a"]);
  }

  /** The second application drops the remaining leading empty line. */
  lemma SecondApplication()
    ensures StripIndents("\na") == "a"
  {
    JoinedEmptyA();
    SplitsInto("\na", ["", "a"]);
    OneEmptyKept();
    FlushDedent();
    StripIndentsSteps("\na", ["", "a"], ["a"], ["a"], "a");
  }

  /** Of `""` and `"a"` only `"a"` is kept. */
  lemma OneEmptyKept()
    ensures DropBlankEnds(["", "a"]) == ["a"]
  {
    var lines := ["", "a"];
    assert lines[1][0] == 'a';
  }

  /** A line without indentation is left unchanged. */
  lemma FlushDedent()
    ensures Dedent(["a"]) == ["a"]
  {
    var lines := ["a"];
    assert lines[0][0] == 'a';
    assert IsLeastIndent(lines, 0);
    DedentIs(lines, 0, ["a"]);
  }

  /** Splitting the join of line-feed-free lines. */
  lemma SplitsInto(s: string, lines: seq<string>)
    requires |lines| >= 1 && forall i :: 0 <= i < |lines| ==> '\n' !in lines[i]
    requires Join(lines, '\n') == s
    ensures Split(s, '\n') == lines
  {
    SplitJoin(lines, '\n');
  }
}
