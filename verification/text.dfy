/**
 * The JavaScript string primitives the server relies on, restated over
 * `seq<char>`: the whitespace class shared by `String.prototype.trim` and
 * the regular-expression class `\s`, `trim`, ASCII `toLowerCase`,
 * `includes`, and `split`/`join` on a one-character separator.
 */
module Text {

  /** A character of the ECMAScript WhiteSpace or LineTerminator classes.
      `trim` strips exactly these, and `\s` matches exactly these. */
  predicate IsWs(c: char) {
    var n := c as int;
    // TAB, LF, VT, FF, CR
    || (0x09 <= n <= 0x0D)
    // SPACE, NO-BREAK SPACE, OGHAM SPACE MARK
    || n == 0x20 || n == 0xA0 || n == 0x1680
    // EN QUAD .. HAIR SPACE
    || (0x2000 <= n <= 0x200A)
    // LINE SEPARATOR, PARAGRAPH SEPARATOR
    || n == 0x2028 || n == 0x2029
    // NARROW NBSP, MEDIUM MATHEMATICAL SPACE, IDEOGRAPHIC SPACE, ZWNBSP (BOM)
    || n == 0x202F || n == 0x205F || n == 0x3000 || n == 0xFEFF
  }

  /** Every character is whitespace (the empty string included). */
  predicate Blank(s: string) {
    forall k :: 0 <= k < |s| ==> IsWs(s[k])
  }

  /** Length of the longest all-whitespace prefix: the length of the match
      of the regular expression `^\s*`, which always matches. */
  function LeadingWs(s: string): (n: nat)
    ensures n <= |s|
    ensures Blank(s[..n])
    ensures n == |s| || !IsWs(s[n])
    ensures n == |s| <==> Blank(s)
  {
    if |s| > 0 && IsWs(s[0]) then
      var n := 1 + LeadingWs(s[1..]);
      assert s[..n] == [s[0]] + s[1..][..n - 1];
      assert s[..|s|] == s;
      n
    else 0
  }

  /** Length of the longest all-whitespace suffix. */
  function TrailingWs(s: string): (n: nat)
    ensures n <= |s|
    ensures Blank(s[|s| - n..])
    ensures n == |s| || !IsWs(s[|s| - n - 1])
  {
    if |s| > 0 && IsWs(s[|s| - 1]) then
      var n := 1 + TrailingWs(s[..|s| - 1]);
      assert s[|s| - n..] == s[..|s| - 1][|s| - n..] + [s[|s| - 1]];
      n
    else 0
  }

  /** `String.prototype.trim`: the window of `s` left after removing the
      leading and the trailing whitespace. It is empty exactly when `s` is
      blank, and otherwise starts and ends with a non-whitespace character. */
  function Trim(s: string): (r: string)
    ensures LeadingWs(s) + |r| <= |s|
    ensures r == s[LeadingWs(s)..LeadingWs(s) + |r|]
    ensures Blank(s[LeadingWs(s) + |r|..])
    ensures |r| == 0 <==> Blank(s)
    ensures |r| > 0 ==> !IsWs(r[0]) && !IsWs(r[|r| - 1])
  {
    var a := LeadingWs(s);
    var rest := s[a..];
    var r := rest[..|rest| - TrailingWs(rest)];
    assert s[a + |r|..] == rest[|rest| - TrailingWs(rest)..];
    assert r == s[a..a + |r|];
    assert |r| > 0 ==> r[0] == s[a] && r[|r| - 1] == rest[|rest| - TrailingWs(rest) - 1];
    BlankSplit(s, a);
    BlankSplit(s[a..], |r|);
    r
  }

  /** A string is blank exactly when both sides of any cut are. */
  lemma BlankSplit(s: string, i: nat)
    requires i <= |s|
    ensures Blank(s) <==> Blank(s[..i]) && Blank(s[i..])
  {
    if Blank(s[..i]) && Blank(s[i..]) {
      forall k | 0 <= k < |s| ensures IsWs(s[k]) {
        if k < i {
          assert s[..i][k] == s[k];
        } else {
          assert s[i..][k - i] == s[k];
        }
      }
    }
  }

  /** ASCII `toLowerCase` of one character: a capital letter becomes its
      small letter, 32 code points up, and every other character stays. */
  function LowerChar(c: char): (d: char)
    ensures IsWs(d) <==> IsWs(c)
    ensures !('A' <= d <= 'Z')
    ensures 'A' <= c <= 'Z' ==> d as int == c as int + 32
    ensures !('A' <= c <= 'Z') ==> d == c
  {
    if 'A' <= c <= 'Z' then (c as int + 32) as char else c
  }

  /** `String.prototype.toLowerCase`, restricted to ASCII letters: the
      string is mapped character by character, and no capital is left. */
  function Lower(s: string): (r: string)
    ensures |r| == |s|
    ensures forall k :: 0 <= k < |s| ==> r[k] == LowerChar(s[k])
    ensures forall k :: 0 <= k < |r| ==> !('A' <= r[k] <= 'Z')
  {
    seq(|s|, k requires 0 <= k < |s| => LowerChar(s[k]))
  }

  /** Lower-casing twice is lower-casing once. */
  lemma LowerIdempotent(s: string)
    ensures Lower(Lower(s)) == Lower(s)
  {
    var t := Lower(s);
    assert forall k :: 0 <= k < |t| ==> Lower(t)[k] == t[k];
  }

  /** `t` occurs in `s` starting at index `k`. */
  ghost predicate OccursAt(s: string, t: string, k: int) {
    0 <= k && k + |t| <= |s| && s[k..k + |t|] == t
  }

  /** `String.prototype.includes`: a left-to-right scan for `t` in `s`. */
  function Includes(s: string, t: string): (b: bool)
    ensures b <==> exists k :: OccursAt(s, t, k)
    decreases |s|
  {
    if |s| < |t| then false
    else if s[..|t|] == t then
      assert OccursAt(s, t, 0);
      true
    else
      IncludesStep(s, t);
      Includes(s[1..], t)
  }

  /** When `t` is not a prefix of `s`, it occurs in `s` exactly when it
      occurs in `s` without its first character. */
  lemma IncludesStep(s: string, t: string)
    requires |s| >= |t| && s[..|t|] != t
    ensures (exists k :: OccursAt(s, t, k)) <==> (exists k :: OccursAt(s[1..], t, k))
  {
    if k :| OccursAt(s[1..], t, k) {
      assert s[k + 1..k + 1 + |t|] == s[1..][k..k + |t|];
      assert OccursAt(s, t, k + 1);
    }
    if k :| OccursAt(s, t, k) {
      assert k != 0;
      assert s[1..][k - 1..k - 1 + |t|] == s[k..k + |t|];
      assert OccursAt(s[1..], t, k - 1);
    }
  }

  /** Joining lines with `sep`, as `Array.prototype.join(sep)`: the empty
      array joins to the empty string. `JoinLength`, `JoinEnds` and
      `SplitJoin` state what the join holds. */
  function Join(lines: seq<string>, sep: char): string
    decreases |lines|
  {
    if |lines| == 0 then ""
    else if |lines| == 1 then lines[0]
    else lines[0] + [sep] + Join(lines[1..], sep)
  }

  /** The join of no lines is empty; the join of one or more lines holds
      the lines' characters plus one separator between each two
      neighbours. */
  lemma {:induction false} JoinLength(lines: seq<string>, sep: char)
    ensures |lines| == 0 ==> Join(lines, sep) == ""
    ensures |lines| > 0 ==> |Join(lines, sep)| == TotalLength(lines) + |lines| - 1
    decreases |lines|
  {
    if |lines| > 1 {
      JoinLength(lines[1..], sep);
    }
  }

  /** The join of a non-empty array starts with its first line and ends
      with its last. */
  lemma {:induction false} JoinEnds(lines: seq<string>, sep: char)
    requires |lines| > 0
    ensures var r := Join(lines, sep);
            && |lines[0]| <= |r| && r[..|lines[0]|] == lines[0]
            && |lines[|lines| - 1]| <= |r| && r[|r| - |lines[|lines| - 1]|..] == lines[|lines| - 1]
    decreases |lines|
  {
    if |lines| > 1 {
      JoinEnds(lines[1..], sep);
      var rest := Join(lines[1..], sep);
      var r := lines[0] + [sep] + rest;
      assert r[..|lines[0]|] == lines[0];
      assert r[|r| - |rest|..] == rest;
      assert lines[1..][|lines[1..]| - 1] == lines[|lines| - 1];
    }
  }

  /** The number of characters in all the lines together. */
  function TotalLength(lines: seq<string>): nat
    decreases |lines|
  {
    if |lines| == 0 then 0 else |lines[0]| + TotalLength(lines[1..])
  }

  /** `String.prototype.split(sep)` for a one-character separator: always
      at least one piece, no piece holds the separator, and joining the
      pieces back gives the input. */
  function Split(s: string, sep: char): (r: seq<string>)
    ensures |r| >= 1
    ensures forall i :: 0 <= i < |r| ==> sep !in r[i]
    ensures Join(r, sep) == s
    decreases |s|
  {
    if |s| == 0 then [""]
    else
      var rest := Split(s[1..], sep);
      if s[0] == sep then
        var r := [""] + rest;
        assert r[1..] == rest;
        assert s == [sep] + s[1..];
        r
      else
        var r := [[s[0]] + rest[0]] + rest[1..];
        assert s == [s[0]] + s[1..];
        assert r[1..] == rest[1..];
        r
  }

  /** A string without the separator has none after its first character. */
  lemma NoSepInTail(w: string, sep: char)
    requires |w| > 0 && sep !in w
    ensures sep !in w[1..]
  {
    forall k | 0 <= k < |w[1..]| ensures w[1..][k] != sep {
      assert w[1..][k] == w[k + 1];
    }
  }

  /** A line that holds no separator splits to itself. */
  lemma {:induction false} SplitSingle(w: string, sep: char)
    requires sep !in w
    ensures Split(w, sep) == [w]
    decreases |w|
  {
    if |w| > 0 {
      NoSepInTail(w, sep);
      SplitSingle(w[1..], sep);
      assert [w[0]] + w[1..] == w;
    }
  }

  /** Splitting `w + sep + t`, where `w` holds no separator, yields `w`
      followed by the pieces of `t`. */
  lemma {:induction false} SplitCons(w: string, sep: char, t: string)
    requires sep !in w
    ensures Split(w + [sep] + t, sep) == [w] + Split(t, sep)
    decreases |w|
  {
    var s := w + [sep] + t;
    if |w| == 0 {
      assert s[1..] == t;
    } else {
      NoSepInTail(w, sep);
      SplitCons(w[1..], sep, t);
      assert s[1..] == w[1..] + [sep] + t;
      assert s[0] == w[0] && w[0] != sep;
      var rest := Split(s[1..], sep);
      assert rest[0] == w[1..] && rest[1..] == Split(t, sep);
      assert [w[0]] + w[1..] == w;
    }
  }

  /** `split` undoes `join` on a non-empty list of separator-free lines. */
  lemma {:induction false} SplitJoin(lines: seq<string>, sep: char)
    requires |lines| >= 1
    requires forall i :: 0 <= i < |lines| ==> sep !in lines[i]
    ensures Split(Join(lines, sep), sep) == lines
    decreases |lines|
  {
    if |lines| == 1 {
      SplitSingle(lines[0], sep);
    } else {
      SplitJoin(lines[1..], sep);
      SplitCons(lines[0], sep, Join(lines[1..], sep));
      assert [lines[0]] + lines[1..] == lines;
    }
  }
}
