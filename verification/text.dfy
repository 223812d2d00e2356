/** String helpers with the semantics of the Rust standard-library calls the
    notice engine relies on: `str::strip_prefix`, `str::splitn(2, c)` and
    `BufRead::lines`. */
module Text {
  import opened Wrappers

  /** `line` without `prefix`, when `line` starts with it (`str::strip_prefix`). */
  function StripPrefix(line: string, prefix: string): (r: Option<string>)
    ensures r.Some? <==> prefix <= line
    ensures r.Some? ==> prefix + r.value == line
  {
    if prefix <= line then Some(line[|prefix|..]) else None
  }

  /** `s.splitn(2, sep)`: the text before the first `sep`, and the text after
      it when `sep` occurs at all. */
  function SplitOnce(s: string, sep: char): (r: (string, Option<string>))
    ensures sep !in r.0
    ensures r.1.None? <==> sep !in s
    ensures r.1.None? ==> r.0 == s
    ensures r.1.Some? ==> s == r.0 + [sep] + r.1.value
  {
    if s == [] then ([], None)
    else if s[0] == sep then
      assert s == [] + [sep] + s[1..];
      ([], Some(s[1..]))
    else
      var (before, after) := SplitOnce(s[1..], sep);
      assert s == [s[0]] + s[1..];
      ([s[0]] + before, after)
  }

  /** The split point is the first separator, so a known decomposition is the one found. */
  lemma {:induction false} SplitOnceAt(before: string, sep: char, after: string)
    requires sep !in before
    ensures SplitOnce(before + [sep] + after, sep) == (before, Some(after))
    decreases |before|
  {
    var s := before + [sep] + after;
    if before != [] {
      assert s[1..] == before[1..] + [sep] + after;
      SplitOnceAt(before[1..], sep, after);
      assert before == [before[0]] + before[1..];
    }
  }

  /** A line that `BufRead::lines` gives back unchanged once it is written
      with a `'\n'` terminator: no line feed inside, no trailing carriage return. */
  predicate LineSafe(s: string) {
    '\n' !in s && (|s| == 0 || s[|s| - 1] != '\r')
  }

  /** The line `BufRead::lines` yields for a segment that ended in `'\n'`:
      one trailing `'\r'` is dropped as well. */
  function DropCarriageReturn(s: string): (r: string)
    ensures LineSafe(s) ==> r == s
  {
    if |s| > 0 && s[|s| - 1] == '\r' then s[..|s| - 1] else s
  }

  /** `BufRead::lines` on a whole text: split at each `'\n'`, drop a `'\r'`
      before the `'\n'`, and yield a final unterminated segment only when it
      is not empty. */
  function Lines(text: string): (r: seq<string>)
    ensures text == [] <==> r == []
    decreases |text|
  {
    if text == [] then []
    else
      var (line, rest) := SplitOnce(text, '\n');
      match rest
      case None => [line]
      case Some(tail) => [DropCarriageReturn(line)] + Lines(tail)
  }

  /** A safe line written with its terminator is read back as that line. */
  lemma LinesCons(line: string, rest: string)
    requires LineSafe(line)
    ensures Lines(line + "\n" + rest) == [line] + Lines(rest)
  {
    SplitOnceAt(line, '\n', rest);
  }

  /** Two safe lines written with their terminators are read back as those lines. */
  lemma LinesTwo(first: string, second: string, rest: string)
    requires LineSafe(first) && LineSafe(second)
    ensures Lines(first + "\n" + second + "\n" + rest) == [first, second] + Lines(rest)
  {
    assert first + "\n" + second + "\n" + rest == first + "\n" + (second + "\n" + rest);
    LinesCons(first, second + "\n" + rest);
    LinesCons(second, rest);
  }

  /** Every line followed by `'\n'`, concatenated: the text `fix_file` builds
      from the lines it keeps. */
  function JoinLines(lines: seq<string>): (r: string)
    ensures |r| >= |lines|
  {
    if lines == [] then [] else JoinLines(lines[..|lines| - 1]) + lines[|lines| - 1] + "\n"
  }

  /** Reading back lines that were joined gives the same lines. */
  lemma {:induction false} LinesJoinLines(lines: seq<string>)
    requires forall i :: 0 <= i < |lines| ==> LineSafe(lines[i])
    ensures Lines(JoinLines(lines)) == lines
    decreases |lines|
  {
    if lines != [] {
      JoinLinesCons(lines[0], lines[1..]);
      assert lines == [lines[0]] + lines[1..];
      LinesCons(lines[0], JoinLines(lines[1..]));
      LinesJoinLines(lines[1..]);
    }
  }

  lemma {:induction false} JoinLinesCons(first: string, rest: seq<string>)
    ensures JoinLines([first] + rest) == first + "\n" + JoinLines(rest)
    decreases |rest|
  {
    if rest == [] {
      assert [first] + rest == [first];
      assert JoinLines([first]) == JoinLines([]) + first + "\n";
    } else {
      var init := rest[..|rest| - 1];
      var last := rest[|rest| - 1];
      assert ([first] + rest)[..|rest|] == [first] + init;
      JoinLinesCons(first, init);
    }
  }

  /** `s.starts_with('\n')`. */
  predicate StartsWithNewline(s: string) {
    |s| > 0 && s[0] == '\n'
  }

  /** Concatenation regroups freely. */
  lemma AppendAssoc<T>(a: seq<T>, b: seq<T>, c: seq<T>)
    ensures a + b + c == a + (b + c)
  {
  }
}
