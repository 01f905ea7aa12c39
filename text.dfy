/**
 * The handful of Python `str` operations the disk tool relies on, as functions on
 * `string` (a sequence of Unicode code points): `strip()`, `sep in s`,
 * `s.split(sep, 1)`, `s.split('\n')`, the `:<w` format spec, and `isdigit()`.
 */
module Text {
  import opened Wrappers

  // ---------------------------------------------------------------------------
  // Whitespace and strip()

  /** The characters Python's `str.isspace()` accepts, which `str.strip()` removes. */
  predicate IsSpace(c: char) {
    || c == '\t' || c == '\n' || c == '\U{B}' || c == '\U{C}' || c == '\r'
    || ('\U{1C}' <= c <= '\U{1F}')
    || c == ' ' || c == '\U{85}' || c == '\U{A0}' || c == '\U{1680}'
    || ('\U{2000}' <= c <= '\U{200A}')
    || c == '\U{2028}' || c == '\U{2029}' || c == '\U{202F}' || c == '\U{205F}'
    || c == '\U{3000}'
  }

  /** Every character of s is whitespace: what `not s.strip()` tests. */
  predicate IsBlank(s: string) {
    forall i :: 0 <= i < |s| ==> IsSpace(s[i])
  }

  /** Neither end of s is whitespace: what `strip()` leaves behind. */
  predicate Trimmed(s: string) {
    s == [] || (!IsSpace(s[0]) && !IsSpace(s[|s| - 1]))
  }

  /** Python's `s.lstrip()`: the suffix of s after its leading whitespace. */
  function StripStart(s: string): (r: string)
    ensures |r| <= |s| && r == s[|s| - |r|..]
    ensures forall i :: 0 <= i < |s| - |r| ==> IsSpace(s[i])
    ensures r == [] || !IsSpace(r[0])
  {
    if s != [] && IsSpace(s[0]) then StripStart(s[1..]) else s
  }

  /** Python's `s.rstrip()`: the prefix of s before its trailing whitespace. */
  function StripEnd(s: string): (r: string)
    ensures |r| <= |s| && r == s[..|r|]
    ensures forall i :: |r| <= i < |s| ==> IsSpace(s[i])
    ensures r == [] || !IsSpace(r[|r| - 1])
  {
    if s != [] && IsSpace(s[|s| - 1]) then StripEnd(s[..|s| - 1]) else s
  }

  /** Python's `s.strip()`. */
  function Strip(s: string): (r: string)
    ensures Trimmed(r)
    ensures |r| <= |s|
  {
    StripEnd(StripStart(s))
  }

  /** strip() cuts s into leading whitespace, the result, and trailing whitespace. */
  lemma StripSlices(s: string)
    ensures var r, i := Strip(s), |s| - |StripStart(s)|;
      && i + |r| <= |s|
      && r == s[i..i + |r|]
      && (forall k :: 0 <= k < i ==> IsSpace(s[k]))
      && (forall k :: i + |r| <= k < |s| ==> IsSpace(s[k]))
  {
    var t := StripStart(s);
    var r := StripEnd(t);
    var i := |s| - |t|;
    assert t == s[i..];
    assert r == t[..|r|];
    forall k | i + |r| <= k < |s| ensures IsSpace(s[k]) {
      assert s[k] == t[k - i];
    }
  }

  /** strip() returns "" exactly for blank strings. */
  lemma StripEmptyIffBlank(s: string)
    ensures Strip(s) == [] <==> IsBlank(s)
  {
    StripSlices(s);
    if Strip(s) != [] {
      var i := |s| - |StripStart(s)|;
      assert Strip(s)[0] == s[i] && !IsSpace(s[i]);
    }
  }

  /** strip() leaves an already trimmed string alone, so stripping twice is stripping once. */
  lemma StripTrimmed(s: string)
    requires Trimmed(s)
    ensures Strip(s) == s
  {
    assert StripStart(s) == s;
    assert StripEnd(s) == s;
  }

  /** Every character strip() keeps comes from its argument. */
  lemma StripKeepsCharacters(s: string, c: char)
    ensures c in Strip(s) ==> c in s
  {
    if c in Strip(s) {
      StripSlices(s);
      var r, i := Strip(s), |s| - |StripStart(s)|;
      var k :| 0 <= k < |r| && r[k] == c;
      assert s[i + k] == c;
    }
  }

  /** Text that starts with whitespace is blank exactly when the rest is. */
  lemma BlankAfterSpace(s: string)
    requires s != [] && IsSpace(s[0])
    ensures IsBlank(s) <==> IsBlank(s[1..])
  {
    if IsBlank(s[1..]) {
      forall i | 1 <= i < |s| ensures IsSpace(s[i]) {
        assert s[i] == s[1..][i - 1];
      }
    }
  }

  /** lstrip() of s with one more character: a whitespace character after blank text is cut with it. */
  lemma {:induction false} StripStartSnoc(s: string, c: char)
    requires IsSpace(c)
    ensures StripStart(s + [c]) == if IsBlank(s) then [] else StripStart(s) + [c]
  {
    if s == [] {
      assert StripStart([c]) == StripStart([c][1..]);
    } else if IsSpace(s[0]) {
      assert (s + [c])[1..] == s[1..] + [c];
      StripStartSnoc(s[1..], c);
      BlankAfterSpace(s);
    } else {
      assert (s + [c])[0] == s[0];
    }
  }

  /**
   * A trailing whitespace character changes nothing that `strip()` returns,
   * such as padding after a value on a line of the command output.
   */
  lemma StripDropsTrailingSpace(s: string, c: char)
    requires IsSpace(c)
    ensures Strip(s + [c]) == Strip(s)
  {
    StripStartSnoc(s, c);
    StripEmptyIffBlank(s);
    if !IsBlank(s) {
      var t := StripStart(s);
      assert (t + [c])[..|t|] == t;
    }
  }

  // ---------------------------------------------------------------------------
  // Searching for a separator: `sep in s` and `s.split(sep, 1)`

  /** sep occurs in s starting at index i. */
  predicate OccursAt(s: string, sep: string, i: int) {
    0 <= i && i + |sep| <= |s| && s[i..i + |sep|] == sep
  }

  /** Python's `sep in s`. */
  ghost predicate Contains(s: string, sep: string) {
    exists i :: OccursAt(s, sep, i)
  }

  /** The first index at or after k where sep occurs in s, if any. */
  function FindFrom(s: string, sep: string, k: nat): (r: Option<nat>)
    requires k <= |s|
    ensures r.Some? ==> k <= r.value && OccursAt(s, sep, r.value)
    ensures r.Some? ==> forall i :: k <= i < r.value ==> !OccursAt(s, sep, i)
    ensures r.None? ==> forall i :: k <= i ==> !OccursAt(s, sep, i)
    decreases |s| - k
  {
    if k + |sep| > |s| then None
    else if s[k..k + |sep|] == sep then Some(k)
    else FindFrom(s, sep, k + 1)
  }

  /**
   * Python's `s.split(sep, 1)` for a line that contains sep: the text before and
   * the text after the first occurrence; None when sep does not occur.
   */
  function SplitOnce(s: string, sep: string): (r: Option<(string, string)>)
    ensures r.None? <==> !Contains(s, sep)
    ensures r.Some? ==> s == r.value.0 + sep + r.value.1
    ensures r.Some? ==> forall i :: 0 <= i < |r.value.0| ==> !OccursAt(s, sep, i)
  {
    match FindFrom(s, sep, 0)
    case None => None
    case Some(i) =>
      assert s == s[..i] + sep + s[i + |sep|..];
      Some((s[..i], s[i + |sep|..]))
  }

  /** Splitting a + sep + b at its first sep gives back a and b, when sep does not start inside a. */
  lemma SplitOnceOfJoin(a: string, sep: string, b: string)
    requires forall i :: 0 <= i < |a| ==> !OccursAt(a + sep + b, sep, i)
    ensures SplitOnce(a + sep + b, sep) == Some((a, b))
  {
    var s := a + sep + b;
    assert OccursAt(s, sep, |a|) by {
      assert s[|a|..|a| + |sep|] == sep;
    }
    var r := SplitOnce(s, sep);
    assert r.Some?;
    var x := r.value.0;
    assert |x| <= |a|;
    assert OccursAt(s, sep, |x|) by {
      assert s == x + sep + r.value.1;
      assert s[|x|..|x| + |sep|] == sep;
    }
    assert |x| == |a|;
    assert x == s[..|a|] == a;
    assert r.value.1 == s[|a| + |sep|..] == b;
  }

  // ---------------------------------------------------------------------------
  // Fixed-width columns: the `:<w` format spec

  /** Python's `c * n` for one character c: n copies of c. */
  function Repeat(c: char, n: nat): (r: string)
    ensures |r| == n
    ensures forall i :: 0 <= i < n ==> r[i] == c
  {
    seq(n, _ => c)
  }

  /** Python's `f"{s:<w}"`: s padded on the right with spaces to width w, never cut. */
  function LeftJustify(s: string, w: nat): (r: string)
    ensures |r| == if |s| < w then w else |s|
    ensures r[..|s|] == s
    ensures forall i :: |s| <= i < |r| ==> r[i] == ' '
  {
    if |s| < w then s + Repeat(' ', w - |s|) else s
  }

  /** s without its trailing spaces: the inverse of LeftJustify on a column. */
  function TrimPadding(s: string): (r: string)
    ensures |r| <= |s| && r == s[..|r|]
    ensures r == [] || r[|r| - 1] != ' '
    ensures forall i :: |r| <= i < |s| ==> s[i] == ' '
  {
    if s != [] && s[|s| - 1] == ' ' then TrimPadding(s[..|s| - 1]) else s
  }

  /** Padding a value that does not end in a space, then trimming, gives the value back. */
  lemma TrimPaddingOfLeftJustify(s: string, w: nat)
    requires s == [] || s[|s| - 1] != ' '
    ensures TrimPadding(LeftJustify(s, w)) == s
  {
    var p := LeftJustify(s, w);
    var r := TrimPadding(p);
    assert r != [] ==> p[|r| - 1] == r[|r| - 1] != ' ';
    assert |r| <= |s|;
    assert s != [] ==> p[|s| - 1] == s[|s| - 1] != ' ';
    assert |r| >= |s|;
    assert r == p[..|s|];
  }

  // ---------------------------------------------------------------------------
  // Lines: `s.split('\n')` and text built from newline-terminated lines

  /** Python's `s.split(c)` for one separator character: never empty, and s has |r| - 1 separators. */
  function SplitOn(s: string, c: char): (r: seq<string>)
    ensures |r| >= 1
    ensures forall k :: 0 <= k < |r| ==> c !in r[k]
  {
    if s == [] then [""]
    else
      var rest := SplitOn(s[1..], c);
      if s[0] == c then [""] + rest else [[s[0]] + rest[0]] + rest[1..]
  }

  /** Python's `c.join(pieces)`. */
  function JoinWith(pieces: seq<string>, c: char): string
    requires |pieces| >= 1
  {
    if |pieces| == 1 then pieces[0] else pieces[0] + [c] + JoinWith(pieces[1..], c)
  }

  /** Joining the pieces of a split gives back the text. */
  lemma {:induction false} JoinSplit(s: string, c: char)
    ensures JoinWith(SplitOn(s, c), c) == s
  {
    if s != [] {
      var rest := SplitOn(s[1..], c);
      JoinSplit(s[1..], c);
      if s[0] != c && |rest| > 1 {
        assert rest == [rest[0]] + rest[1..];
      }
    }
  }

  /** Splitting a + [c] + b, where a has no c, gives a and then the pieces of b. */
  lemma {:induction false} SplitOnAfterPiece(a: string, c: char, b: string)
    requires c !in a
    ensures SplitOn(a + [c] + b, c) == [a] + SplitOn(b, c)
  {
    if a == [] {
      assert (a + [c] + b)[1..] == b;
    } else {
      assert (a + [c] + b)[1..] == a[1..] + [c] + b;
      SplitOnAfterPiece(a[1..], c, b);
      assert [a[0]] + a[1..] == a;
    }
  }

  /** Text made of the given lines, each followed by "\n" (what repeated `result += line + "\n"` builds). */
  function Terminated(lines: seq<string>): string {
    if lines == [] then "" else lines[0] + "\n" + Terminated(lines[1..])
  }

  /** The text of two or more lines opens with the first two, each ended by a newline. */
  lemma TerminatedStartsWith(lines: seq<string>)
    requires |lines| >= 2
    ensures var head := lines[0] + "\n" + lines[1] + "\n";
      |head| <= |Terminated(lines)| && Terminated(lines)[..|head|] == head
  {
    var head := lines[0] + "\n" + lines[1] + "\n";
    assert Terminated(lines) == head + Terminated(lines[2..]) by {
      assert lines[1..][1..] == lines[2..];
    }
    assert (head + Terminated(lines[2..]))[..|head|] == head;
  }

  /** Appending one line to the text appends it to the line sequence. */
  lemma {:induction false} TerminatedSnoc(lines: seq<string>, line: string)
    ensures Terminated(lines + [line]) == Terminated(lines) + line + "\n"
  {
    if lines != [] {
      assert (lines + [line])[1..] == lines[1..] + [line];
      TerminatedSnoc(lines[1..], line);
    }
  }

  /** No line holds a newline. */
  predicate SingleLines(lines: seq<string>) {
    forall k :: 0 <= k < |lines| ==> '\n' !in lines[k]
  }

  /** Two sequences of single lines make one. */
  lemma SingleLinesAppend(a: seq<string>, b: seq<string>)
    requires SingleLines(a) && SingleLines(b)
    ensures SingleLines(a + b)
  {
    forall k | 0 <= k < |a + b| ensures '\n' !in (a + b)[k] {
      if k >= |a| {
        assert (a + b)[k] == b[k - |a|];
      }
    }
  }

  /** `split('\n')` recovers the lines of newline-terminated text, plus the empty tail Python reports. */
  lemma {:induction false} SplitTerminated(lines: seq<string>)
    requires SingleLines(lines)
    ensures SplitOn(Terminated(lines), '\n') == lines + [""]
  {
    if lines != [] {
      SplitOnAfterPiece(lines[0], '\n', Terminated(lines[1..]));
      SplitTerminated(lines[1..]);
      assert lines == [lines[0]] + lines[1..];
    }
  }

  // ---------------------------------------------------------------------------
  // Digits

  /** An ASCII decimal digit. */
  predicate IsAsciiDigit(c: char) {
    '0' <= c <= '9'
  }

  /** Python's `s.isdigit()`, restricted to ASCII digits: non-empty and all digits. */
  predicate IsDigits(s: string) {
    |s| > 0 && forall i :: 0 <= i < |s| ==> IsAsciiDigit(s[i])
  }
}
