/**
 * The line framer of the HCI scanner reader: text arrives in chunks, is
 * appended to a buffer, and every complete `'\n'`-terminated line is split
 * off; the unterminated remainder stays in the buffer for the next chunk.
 */
module Framing {
  import opened Sequences

  /** `String.prototype.indexOf` for one character: an index of `c`, or -1 when there is none. */
  function IndexOf(s: string, c: char): (r: int)
    ensures -1 <= r < |s|
    ensures r == -1 <==> c !in s
    ensures r >= 0 ==> s[r] == c
  {
    if s == [] then -1
    else if s[0] == c then 0
    else
      var k := IndexOf(s[1..], c);
      if k == -1 then -1 else k + 1
  }

  /** ... and it is the first one. */
  lemma {:induction false} IndexOfFirst(s: string, c: char)
    ensures forall j | 0 <= j < IndexOf(s, c) :: s[j] != c
    decreases |s|
  {
    if s != [] && s[0] != c {
      IndexOfFirst(s[1..], c);
      forall j | 1 <= j < IndexOf(s, c) ensures s[j] != c {
        assert s[j] == s[1..][j - 1];
      }
    }
  }

  /** The first occurrence is where `IndexOf` finds it. */
  lemma IndexOfAt(s: string, c: char, k: nat)
    requires k < |s| && s[k] == c && forall j | 0 <= j < k :: s[j] != c
    ensures IndexOf(s, c) == k
  {
    IndexOfFirst(s, c);
  }

  predicate NoNewline(s: string)
  {
    '\n' !in s
  }

  predicate AllLines(lines: seq<string>)
  {
    forall k | 0 <= k < |lines| :: NoNewline(lines[k])
  }

  /** The text the lines came from: each line followed by its terminator. */
  function JoinLines(lines: seq<string>): string
  {
    if lines == [] then "" else lines[0] + "\n" + JoinLines(lines[1..])
  }

  /** The complete lines of a buffer, in order, and the unterminated remainder. */
  datatype Framed = Framed(lines: seq<string>, rest: string)

  /** Splits off the complete lines, first newline first, as the framer loop does. */
  function Frame(s: string): Framed
    decreases |s|
  {
    var k := IndexOf(s, '\n');
    if k == -1 then Framed([], s)
    else
      var f := Frame(s[k + 1..]);
      Framed([s[..k]] + f.lines, f.rest)
  }

  lemma JoinLinesCons(line: string, lines: seq<string>)
    ensures JoinLines([line] + lines) == line + "\n" + JoinLines(lines)
  {
    assert ([line] + lines)[1..] == lines;
  }

  lemma AllLinesCons(line: string, lines: seq<string>)
    requires NoNewline(line) && AllLines(lines)
    ensures AllLines([line] + lines)
  {
    forall k | 0 <= k < |[line] + lines| ensures NoNewline(([line] + lines)[k]) {
      if k > 0 {
        assert ([line] + lines)[k] == lines[k - 1];
      }
    }
  }

  /** The text up to the first newline is a line, and the text is that line, the newline and the rest. */
  lemma SplitAtNewline(s: string, k: int)
    requires k == IndexOf(s, '\n') && k != -1
    ensures NoNewline(s[..k]) && s == s[..k] + "\n" + s[k + 1..]
  {
    IndexOfFirst(s, '\n');
    assert forall j | 0 <= j < k :: s[..k][j] == s[j];
  }

  /** One step of the framer: the first line, and the framing of what follows its newline. */
  lemma FrameStep(s: string, k: int)
    requires k == IndexOf(s, '\n') && k != -1
    ensures Frame(s).lines == [s[..k]] + Frame(s[k + 1..]).lines
    ensures Frame(s).rest == Frame(s[k + 1..]).rest
  {
  }

  /** The framer loses and invents nothing: lines plus terminators plus remainder give back the text. */
  lemma {:induction false} FrameSound(s: string)
    ensures JoinLines(Frame(s).lines) + Frame(s).rest == s
    ensures AllLines(Frame(s).lines) && NoNewline(Frame(s).rest)
    decreases |s|
  {
    if '\n' in s {
      var k := IndexOf(s, '\n');
      var line := s[..k];
      var f := Frame(s[k + 1..]);
      SplitAtNewline(s, k);
      FrameStep(s, k);
      FrameSound(s[k + 1..]);
      JoinLinesCons(line, f.lines);
      AllLinesCons(line, f.lines);
      Associative(line + "\n", JoinLines(f.lines), f.rest);
    }
  }

  /** Conversely, text made of newline-free lines and a newline-free tail frames back into exactly those. */
  lemma {:induction false} FrameUnique(lines: seq<string>, rest: string)
    requires AllLines(lines) && NoNewline(rest)
    ensures Frame(JoinLines(lines) + rest) == Framed(lines, rest)
    decreases |lines|
  {
    if lines != [] {
      var line := lines[0];
      var tail := JoinLines(lines[1..]) + rest;
      var s := line + "\n" + tail;
      assert JoinLines(lines) + rest == s;
      assert NoNewline(line);
      assert s[|line|] == '\n';
      assert s[..|line|] == line;
      forall j | 0 <= j < |line| ensures s[j] != '\n' {
        assert s[j] == line[j];
      }
      IndexOfAt(s, '\n', |line|);
      assert s[|line| + 1..] == tail;
      assert AllLines(lines[1..]) by {
        forall k | 0 <= k < |lines[1..]| ensures NoNewline(lines[1..][k]) {
          assert lines[1..][k] == lines[k + 1];
        }
      }
      FrameUnique(lines[1..], rest);
      assert [line] + lines[1..] == lines;
    }
  }

  lemma {:induction false} JoinLinesConcat(a: seq<string>, b: seq<string>)
    ensures JoinLines(a + b) == JoinLines(a) + JoinLines(b)
    decreases |a|
  {
    if a == [] {
      assert a + b == b;
    } else {
      var head := a[0] + "\n";
      calc {
        JoinLines(a + b);
        { assert a + b == [a[0]] + (a[1..] + b);
          JoinLinesCons(a[0], a[1..] + b); }
        head + JoinLines(a[1..] + b);
        { JoinLinesConcat(a[1..], b); }
        head + (JoinLines(a[1..]) + JoinLines(b));
        { Associative(head, JoinLines(a[1..]), JoinLines(b)); }
        head + JoinLines(a[1..]) + JoinLines(b);
        { assert a == [a[0]] + a[1..];
          JoinLinesCons(a[0], a[1..]); }
        JoinLines(a) + JoinLines(b);
      }
    }
  }

  /**
   * Framing does not depend on how the text was cut into chunks: the lines of
   * `s + t` are the lines of `s`, then the lines of `s`'s remainder followed by `t`.
   */
  lemma FrameAppend(s: string, t: string)
    ensures Frame(s + t).lines == Frame(s).lines + Frame(Frame(s).rest + t).lines
    ensures Frame(s + t).rest == Frame(Frame(s).rest + t).rest
  {
    var f := Frame(s);
    var g := Frame(f.rest + t);
    FrameSound(s);
    FrameSound(f.rest + t);
    AllLinesConcat(f.lines, g.lines);
    calc {
      s + t;
      JoinLines(f.lines) + f.rest + t;
      { Associative(JoinLines(f.lines), f.rest, t); }
      JoinLines(f.lines) + (f.rest + t);
      JoinLines(f.lines) + (JoinLines(g.lines) + g.rest);
      { Associative(JoinLines(f.lines), JoinLines(g.lines), g.rest); }
      JoinLines(f.lines) + JoinLines(g.lines) + g.rest;
      { JoinLinesConcat(f.lines, g.lines); }
      JoinLines(f.lines + g.lines) + g.rest;
    }
    FrameUnique(f.lines + g.lines, g.rest);
  }

  lemma AllLinesConcat(a: seq<string>, b: seq<string>)
    requires AllLines(a) && AllLines(b)
    ensures AllLines(a + b)
  {
    forall k | 0 <= k < |a + b| ensures NoNewline((a + b)[k]) {
      if k < |a| {
        assert (a + b)[k] == a[k];
      } else {
        assert (a + b)[k] == b[k - |a|];
      }
    }
  }

  /** Text without a newline holds no complete line: it all stays buffered. */
  lemma FrameNoNewline(s: string)
    requires NoNewline(s)
    ensures Frame(s) == Framed([], s)
  {
  }
}
