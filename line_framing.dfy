/** Newline framing of the analysis stream (frontend/src/hooks/useAnalysis.ts:30-40): text
    arrives in pieces, is appended to a buffer, and the buffer is split at '\n'; every piece
    but the last is a complete line, the last is kept for the next read. */
module LineFraming {
  import opened Wrappers

  predicate NoNewline(s: string) {
    '\n' !in s
  }

  predicate AllNoNewline(lines: seq<string>) {
    forall i :: 0 <= i < |lines| ==> NoNewline(lines[i])
  }

  /** Each line followed by its newline, all concatenated. */
  function Terminated(lines: seq<string>): string {
    if lines == [] then "" else lines[0] + "\n" + Terminated(lines[1..])
  }

  lemma {:induction false} TerminatedAppend(a: seq<string>, b: seq<string>)
    ensures Terminated(a + b) == Terminated(a) + Terminated(b)
  {
    if a != [] {
      assert (a + b)[1..] == a[1..] + b;
      TerminatedAppend(a[1..], b);
    } else {
      assert a + b == b;
    }
  }

  /** `lines = buffer.split('\n'); buffer = lines.pop() || ''`: the complete lines, in
      order, and the text after the last newline. */
  function Frame(s: string): (r: (seq<string>, string))
    ensures Terminated(r.0) + r.1 == s
    ensures AllNoNewline(r.0) && NoNewline(r.1)
    decreases |s|
  {
    if '\n' !in s then ([], s)
    else
      var k := IndexOf(s, '\n');
      var rest := Frame(s[k + 1..]);
      FrameCons(s, k, rest.0, rest.1);
      ([s[..k]] + rest.0, rest.1)
  }

  /** One framing step: the text before the first newline, then the framing of the rest. */
  lemma FrameCons(s: string, k: nat, lines: seq<string>, tail: string)
    requires k < |s| && s[k] == '\n'
    requires forall i :: 0 <= i < k ==> s[i] != '\n'
    requires Terminated(lines) + tail == s[k + 1..]
    requires AllNoNewline(lines) && NoNewline(tail)
    ensures Terminated([s[..k]] + lines) + tail == s
    ensures AllNoNewline([s[..k]] + lines)
  {
    var l := [s[..k]] + lines;
    assert l[0] == s[..k] && l[1..] == lines;
    assert Terminated(l) == s[..k] + "\n" + Terminated(lines);
    assert s == s[..k] + "\n" + s[k + 1..];
    assert NoNewline(s[..k]) by {
      forall i | 0 <= i < k ensures s[..k][i] != '\n' {
        assert s[..k][i] == s[i];
      }
    }
    forall i | 0 <= i < |l| ensures NoNewline(l[i]) {
      if i > 0 {
        assert l[i] == lines[i - 1];
      }
    }
  }

  /** Framing a newline-free line followed by a newline frames the rest after that line. */
  lemma FrameOfLine(head: string, t: string)
    requires NoNewline(head)
    ensures Frame(head + "\n" + t) == ([head] + Frame(t).0, Frame(t).1)
  {
    var s := head + "\n" + t;
    assert s[|head|] == '\n';
    assert forall i :: 0 <= i < |head| ==> s[i] == head[i];
    var k := IndexOf(s, '\n');
    assert k == |head|;
    assert s[..k] == head;
    assert s[k + 1..] == t;
  }

  /** Framing is the only way to write a text as newline-free lines, each terminated,
      followed by a newline-free remainder. */
  lemma {:induction false} FrameUnique(lines: seq<string>, rest: string)
    requires AllNoNewline(lines) && NoNewline(rest)
    ensures Frame(Terminated(lines) + rest) == (lines, rest)
  {
    if lines == [] {
      assert Terminated(lines) + rest == rest;
    } else {
      var head, tail := lines[0], lines[1..];
      assert Terminated(lines) + rest == head + "\n" + (Terminated(tail) + rest);
      assert AllNoNewline(tail) by {
        forall i | 0 <= i < |tail| ensures NoNewline(tail[i]) {
          assert tail[i] == lines[i + 1];
        }
      }
      FrameOfLine(head, Terminated(tail) + rest);
      FrameUnique(tail, rest);
      assert lines == [head] + tail;
    }
  }

  /** The text received so far: the pieces in arrival order. */
  function Concat(pieces: seq<string>): string {
    if pieces == [] then "" else Concat(pieces[..|pieces| - 1]) + pieces[|pieces| - 1]
  }

  /** The loop after reading `pieces`: the lines processed so far, in order, and the
      buffer. */
  function ReadAll(pieces: seq<string>): (r: (seq<string>, string)) {
    if pieces == [] then ([], "")
    else
      var before := ReadAll(pieces[..|pieces| - 1]);
      var f := Frame(before.1 + pieces[|pieces| - 1]);
      (before.0 + f.0, f.1)
  }

  /** The lines of two batches together are newline-free when each batch is. */
  lemma AllNoNewlineAppend(a: seq<string>, b: seq<string>)
    requires AllNoNewline(a) && AllNoNewline(b)
    ensures AllNoNewline(a + b)
  {
    forall i | 0 <= i < |a + b| ensures NoNewline((a + b)[i]) {
      if i < |a| {
        assert (a + b)[i] == a[i];
      } else {
        assert (a + b)[i] == b[i - |a|];
      }
    }
  }

  /** No processed line and not the buffer holds a newline. */
  lemma {:induction false} ReadAllNoNewline(pieces: seq<string>)
    ensures AllNoNewline(ReadAll(pieces).0) && NoNewline(ReadAll(pieces).1)
  {
    if pieces != [] {
      var init := pieces[..|pieces| - 1];
      ReadAllNoNewline(init);
      var before := ReadAll(init);
      var f := Frame(before.1 + pieces[|pieces| - 1]);
      AllNoNewlineAppend(before.0, f.0);
    }
  }

  /** One read step keeps the framing equation. */
  lemma ReadStep(lines: seq<string>, buffer: string, received: string, piece: string,
                 newLines: seq<string>, newBuffer: string)
    requires Terminated(lines) + buffer == received
    requires Terminated(newLines) + newBuffer == buffer + piece
    ensures Terminated(lines + newLines) + newBuffer == received + piece
  {
    TerminatedAppend(lines, newLines);
    var a, b := Terminated(lines), Terminated(newLines);
    assert (a + b) + newBuffer == a + (b + newBuffer);
    assert (a + buffer) + piece == a + (buffer + piece);
  }

  /** After every read, the processed lines, each with its newline, followed by the buffer
      are exactly the text received. */
  lemma {:induction false} ReadAllConcat(pieces: seq<string>)
    ensures Terminated(ReadAll(pieces).0) + ReadAll(pieces).1 == Concat(pieces)
  {
    if pieces != [] {
      var init := pieces[..|pieces| - 1];
      ReadAllConcat(init);
      var f := Frame(ReadAll(init).1 + pieces[|pieces| - 1]);
      ReadStep(ReadAll(init).0, ReadAll(init).1, Concat(init), pieces[|pieces| - 1], f.0, f.1);
    }
  }

  /** However the text was cut into pieces, the lines processed are the complete lines of
      the whole text and the buffer is what follows the last newline. */
  lemma ReadAllIsFrameOfConcat(pieces: seq<string>)
    ensures ReadAll(pieces) == Frame(Concat(pieces))
  {
    ReadAllConcat(pieces);
    ReadAllNoNewline(pieces);
    FrameUnique(ReadAll(pieces).0, ReadAll(pieces).1);
  }

  /** One read step of the loop, in the terms the loop keeps. */
  lemma ReadAllSnoc(pieces: seq<string>, i: nat)
    requires i < |pieces|
    ensures var before := ReadAll(pieces[..i]);
      var f := Frame(before.1 + pieces[i]);
      ReadAll(pieces[..i + 1]) == (before.0 + f.0, f.1)
  {
    assert pieces[..i + 1][..i] == pieces[..i];
  }

  /** A piece without a newline only grows the buffer. */
  lemma PieceWithoutNewlineIsBuffered(pieces: seq<string>, piece: string)
    requires NoNewline(piece)
    ensures ReadAll(pieces + [piece]) == (ReadAll(pieces).0, ReadAll(pieces).1 + piece)
  {
    var p := pieces + [piece];
    assert p[..|p| - 1] == pieces;
    ReadAllNoNewline(pieces);
    var text := ReadAll(pieces).1 + piece;
    assert '\n' !in text;
    assert Frame(text) == ([], text);
    assert ReadAll(pieces).0 + [] == ReadAll(pieces).0;
  }

  /** A worked example: a line cut across two reads is processed once it is complete, and
      the unterminated tail is left in the buffer. */
  lemma ExampleSplitLine()
    ensures ReadAll(["ab", "c\nd"]) == (["abc"], "d")
  {
    var p := ["ab", "c\nd"];
    assert p[..1] == ["ab"];
    assert ["ab"][..0] == [];
    assert Concat(p) == "" + "ab" + "c\nd";
    assert Terminated(["abc"]) + "d" == Concat(p);
    ReadAllIsFrameOfConcat(p);
    FrameUnique(["abc"], "d");
  }
}
