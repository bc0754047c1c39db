/**
 * `stripIndents`: the dedent used on template text. The input is split on
 * line feeds, at most one blank line is dropped at each end, the least
 * indentation among the non-blank lines is measured, and that many
 * characters are sliced off every line before the lines are joined again.
 */
module Indentation {
  import opened Text

  /** The accumulator of the indentation `reduce`, seeded with `Infinity`. */
  datatype Width = Infinity | Finite(n: nat)

  /** The comparison `indent < min`, where `Infinity` exceeds every width. */
  predicate Below(indent: nat, min: Width) {
    min.Infinity? || indent < min.n
  }

  /** `m` is the least leading-whitespace width over the non-blank lines,
      and some non-blank line attains it. */
  ghost predicate IsLeastIndent(lines: seq<string>, m: nat) {
    && (exists i :: 0 <= i < |lines| && !Blank(lines[i]) && LeadingWs(lines[i]) == m)
    && (forall i :: 0 <= i < |lines| && !Blank(lines[i]) ==> m <= LeadingWs(lines[i]))
  }

  /** The least indentation is unique when it exists. */
  lemma LeastIndentUnique(lines: seq<string>, m: nat, m': nat)
    requires IsLeastIndent(lines, m) && IsLeastIndent(lines, m')
    ensures m == m'
  {
    var i :| 0 <= i < |lines| && !Blank(lines[i]) && LeadingWs(lines[i]) == m;
    var j :| 0 <= j < |lines| && !Blank(lines[j]) && LeadingWs(lines[j]) == m';
    assert m' <= LeadingWs(lines[i]) && m <= LeadingWs(lines[j]);
  }

  /** The reduce callback: a non-blank line whose indentation is below the
      running minimum replaces it. */
  function Step(min: Width, line: string): Width {
    var indent := LeadingWs(line);
    if |Trim(line)| > 0 && Below(indent, min) then Finite(indent) else min
  }

  /** The callback keeps the smaller of the running minimum and the
      indentation of a non-blank line; a blank line leaves the minimum as
      it is. */
  lemma StepKeepsLeast(min: Width, line: string)
    ensures Step(min, line) == min || Step(min, line) == Finite(LeadingWs(line))
    ensures Blank(line) ==> Step(min, line) == min
    ensures !Blank(line) ==> Step(min, line).Finite? && Step(min, line).n <= LeadingWs(line)
    ensures min.Finite? ==> Step(min, line).Finite? && Step(min, line).n <= min.n
  {
  }

  /** `lines.reduce(Step, acc)`, folding from the left. The result never
      exceeds the seed nor the indentation of any non-blank line, and it is
      either the seed or the indentation of one of those lines. */
  function Reduce(lines: seq<string>, acc: Width): (r: Width)
    ensures acc.Finite? ==> r.Finite? && r.n <= acc.n
    ensures forall i :: 0 <= i < |lines| && !Blank(lines[i]) ==> r.Finite? && r.n <= LeadingWs(lines[i])
    ensures r == acc || exists i :: 0 <= i < |lines| && !Blank(lines[i]) && r == Finite(LeadingWs(lines[i]))
    decreases |lines|
  {
    if |lines| == 0 then acc
    else
      var r := Reduce(lines[1..], Step(acc, lines[0]));
      assert forall i :: 1 <= i < |lines| ==> lines[i] == lines[1..][i - 1];
      r
  }

  /** The indentation measured by stripIndents: `Infinity` exactly when
      every line is blank, and otherwise the least indentation of the
      non-blank lines. */
  function MinIndent(lines: seq<string>): (r: Width)
    ensures r.Infinity? <==> forall i :: 0 <= i < |lines| ==> Blank(lines[i])
    ensures r.Finite? ==> IsLeastIndent(lines, r.n)
  {
    Reduce(lines, Infinity)
  }

  /** `line.slice(m)`: drops the first `m` characters, or all of them when
      the line is shorter. */
  function Slice(line: string, m: nat): (r: string)
    ensures |r| == if m <= |line| then |line| - m else 0
    ensures r == line[|line| - |r|..]
  {
    if m <= |line| then line[m..] else ""
  }

  /** The `shift`/`pop` of blank end lines. Both tests look at the first and
      last line of the split input, taken before either removal, so a single
      blank line is shifted away and the `pop` then finds an empty array.
      The result is the window of the input that starts one line in when the
      first line is blank, and ends one line early when the last line is
      blank and is not the line already dropped. */
  function DropBlankEnds(lines: seq<string>): (r: seq<string>)
    requires |lines| >= 1
    ensures var lo := if Blank(lines[0]) then 1 else 0;
            var hi := if Blank(lines[|lines| - 1]) && lo < |lines| then |lines| - 1 else |lines|;
            lo <= hi && r == lines[lo..hi]
    ensures |lines| - 2 <= |r| <= |lines|
  {
    var firstLine := lines[0];
    var lastLine := lines[|lines| - 1];
    var lo := if |Trim(firstLine)| == 0 then 1 else 0;
    assert lo == 1 <==> Blank(firstLine);
    var shifted := if lo == 1 then lines[1..] else lines;
    assert shifted == lines[lo..];
    var dropLast := |Trim(lastLine)| == 0;
    assert dropLast <==> Blank(lastLine);
    if dropLast && |shifted| > 0 then
      assert shifted[..|shifted| - 1] == lines[lo..|lines| - 1];
      shifted[..|shifted| - 1]
    else
      assert shifted == lines[lo..|lines|];
      shifted
  }

  /** `out` is `line` after removing a prefix made only of whitespace. */
  predicate CutsBlankPrefix(line: string, out: string) {
    && |out| <= |line|
    && out == line[|line| - |out|..]
    && Blank(line[..|line| - |out|])
  }

  /** `line` starts with a non-whitespace character. */
  predicate StartsFlush(line: string) {
    |line| > 0 && !IsWs(line[0])
  }

  /** The removal of the measured indentation from every line (the `map`
      over `slice`, or no change when every line is blank). Each output
      line is what is left of its input line after a prefix made only of
      whitespace is removed, and when some line is non-blank, the line
      attaining the least indentation ends up starting with a
      non-whitespace character. `DedentByLeast` and `DedentAllBlank` say
      how long the removed prefixes are. */
  function Dedent(lines: seq<string>): (out: seq<string>)
    ensures |out| == |lines|
    ensures forall i :: 0 <= i < |lines| ==> CutsBlankPrefix(lines[i], out[i])
    ensures (exists i :: 0 <= i < |lines| && !Blank(lines[i])) ==>
              exists i :: 0 <= i < |out| && StartsFlush(out[i])
  {
    var minIndent := MinIndent(lines);
    if minIndent.Infinity? then
      UnchangedLines(lines);
      lines
    else
      var out := SliceAll(lines, minIndent.n);
      SlicedLines(lines, minIndent.n, out);
      out
  }

  /** `lines.map(line => line.slice(m))`. */
  function SliceAll(lines: seq<string>, m: nat): (out: seq<string>)
    ensures |out| == |lines| && forall i :: 0 <= i < |lines| ==> out[i] == Slice(lines[i], m)
  {
    seq(|lines|, i requires 0 <= i < |lines| => Slice(lines[i], m))
  }

  /** When some line is non-blank, line i of the dedent is line i without
      its first m characters, or empty when shorter, where m is the least
      indentation of the non-blank lines. */
  lemma DedentByLeast(lines: seq<string>, m: nat)
    requires IsLeastIndent(lines, m)
    ensures |Dedent(lines)| == |lines|
    ensures forall i :: 0 <= i < |lines| ==>
              Dedent(lines)[i] == lines[i][if m <= |lines[i]| then m else |lines[i]|..]
  {
    var w := MinIndent(lines);
    LeastIndentUnique(lines, m, w.n);
  }

  /** With every line blank, `Dedent` returns the lines unchanged. */
  lemma DedentAllBlank(lines: seq<string>)
    requires forall i :: 0 <= i < |lines| ==> Blank(lines[i])
    ensures Dedent(lines) == lines
  {
  }

  /** The facts of `Dedent` for all-blank lines kept whole. */
  lemma UnchangedLines(lines: seq<string>)
    requires forall i :: 0 <= i < |lines| ==> Blank(lines[i])
    ensures forall i :: 0 <= i < |lines| ==> CutsBlankPrefix(lines[i], lines[i])
    ensures !exists i :: 0 <= i < |lines| && !Blank(lines[i])
  {
    forall i | 0 <= i < |lines|
      ensures CutsBlankPrefix(lines[i], lines[i])
    {
      assert lines[i][0..] == lines[i] && lines[i][..0] == [];
    }
  }

  /** The facts of `Dedent` for lines sliced by their least indentation. */
  lemma SlicedLines(lines: seq<string>, m: nat, out: seq<string>)
    requires IsLeastIndent(lines, m)
    requires |out| == |lines| && forall i :: 0 <= i < |lines| ==> out[i] == Slice(lines[i], m)
    ensures |out| == |lines|
    ensures forall i :: 0 <= i < |lines| ==> CutsBlankPrefix(lines[i], out[i])
    ensures (exists i :: 0 <= i < |lines| && !Blank(lines[i])) ==>
              exists i :: 0 <= i < |out| && StartsFlush(out[i])
  {
    SlicedPrefixes(lines, m, out);
    SlicedFlush(lines, m, out);
  }

  /** Lines sliced by their least indentation lose a whitespace prefix. */
  lemma SlicedPrefixes(lines: seq<string>, m: nat, out: seq<string>)
    requires IsLeastIndent(lines, m)
    requires |out| == |lines| && forall i :: 0 <= i < |lines| ==> out[i] == Slice(lines[i], m)
    ensures forall i :: 0 <= i < |lines| ==> CutsBlankPrefix(lines[i], out[i])
  {
    forall i | 0 <= i < |lines|
      ensures CutsBlankPrefix(lines[i], out[i])
    {
      SliceCutsWhitespace(lines[i], m);
    }
  }

  /** A line attaining the least indentation starts, once sliced, with a
      non-whitespace character. */
  lemma SlicedFlush(lines: seq<string>, m: nat, out: seq<string>)
    requires IsLeastIndent(lines, m)
    requires |out| == |lines| && forall i :: 0 <= i < |lines| ==> out[i] == Slice(lines[i], m)
    ensures exists i :: 0 <= i < |out| && StartsFlush(out[i])
  {
    var i :| 0 <= i < |lines| && !Blank(lines[i]) && LeadingWs(lines[i]) == m;
    assert out[i][0] == lines[i][m];
  }

  /** Slicing a line by at most its indentation, or slicing a blank line,
      removes whitespace only. */
  lemma SliceCutsWhitespace(line: string, m: nat)
    requires Blank(line) || m <= LeadingWs(line)
    ensures CutsBlankPrefix(line, Slice(line, m))
  {
    var o := Slice(line, m);
    var cut := |line| - |o|;
    assert o == line[cut..];
    var w := LeadingWs(line);
    assert cut <= w;
    BlankSplit(line[..w], cut);
    assert line[..w][..cut] == line[..cut];
  }

  /** `stripIndents(str)`. When no line survives the end trimming the
      result is empty; otherwise splitting the result on line feeds gives
      back exactly the dedented surviving lines. */
  function StripIndents(s: string): (r: string)
    ensures var kept := DropBlankEnds(Split(s, '\n'));
            && (|kept| == 0 ==> r == "")
            && (|kept| > 0 ==> Split(r, '\n') == Dedent(kept))
  {
    var kept := DropBlankEnds(Split(s, '\n'));
    DedentedSplitBack(s);
    Join(Dedent(kept), '\n')
  }

  /** The dedented kept lines of a split input survive a join and a split. */
  lemma DedentedSplitBack(s: string)
    ensures var kept := DropBlankEnds(Split(s, '\n'));
            |kept| > 0 ==> Split(Join(Dedent(kept), '\n'), '\n') == Dedent(kept)
  {
    var lines := Split(s, '\n');
    var kept := DropBlankEnds(lines);
    KeptHoldNoLineFeed(lines, kept);
    JoinSplitsBack(kept, Dedent(kept));
  }

  /** The lines kept from a split input hold no line feed. */
  lemma KeptHoldNoLineFeed(lines: seq<string>, kept: seq<string>)
    requires |lines| >= 1 && forall i :: 0 <= i < |lines| ==> '\n' !in lines[i]
    requires kept == DropBlankEnds(lines)
    ensures forall i :: 0 <= i < |kept| ==> '\n' !in kept[i]
  {
    var lo := if Blank(lines[0]) then 1 else 0;
    assert forall i :: 0 <= i < |kept| ==> kept[i] == lines[lo + i];
  }

  /** Suffixes of line-feed-free lines hold no line feed either, so joining
      and splitting them again gives them back. */
  lemma JoinSplitsBack(kept: seq<string>, out: seq<string>)
    requires forall i :: 0 <= i < |kept| ==> '\n' !in kept[i]
    requires |out| == |kept|
    requires forall i :: 0 <= i < |kept| ==>
               |out[i]| <= |kept[i]| && out[i] == kept[i][|kept[i]| - |out[i]|..]
    ensures |out| > 0 ==> Split(Join(out, '\n'), '\n') == out
  {
    forall i | 0 <= i < |out| ensures '\n' !in out[i] {
      var cut := |kept[i]| - |out[i]|;
      assert forall k :: 0 <= k < |out[i]| ==> out[i][k] == kept[i][cut + k];
    }
    if |out| > 0 {
      SplitJoin(out, '\n');
    }
  }
}
