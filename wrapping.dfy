/** `wrapText` (index.js:40-54): greedy packing of the space-separated words
    of a caption into lines of at most `maxWidth` characters. */
module Wrapping {
  import opened Text

  /** The loop of index.js:44-51 as a function: `lines` are the lines pushed
      so far, `current` the line being filled and `rest` the words not yet
      looked at. A word joins the current line when the line, one space and
      the word fit in `maxWidth`; otherwise the current line is pushed and the
      word starts a new one. */
  function Pack(lines: seq<string>, current: string, rest: seq<string>, maxWidth: int): (r: seq<string>)
    ensures |r| >= |lines| + 1 && r[..|lines|] == lines
    decreases |rest|
  {
    if |rest| == 0 then lines + [current]
    else if |current| + 1 + |rest[0]| <= maxWidth then Pack(lines, current + " " + rest[0], rest[1..], maxWidth)
    else Pack(lines + [current], rest[0], rest[1..], maxWidth)
  }

  /** The lines `wrapText(text, maxWidth)` produces, before they are joined;
      there is always at least one. */
  function WrappedLines(text: string, maxWidth: int): (lines: seq<string>)
    ensures |lines| >= 1
  {
    var words := Split(text, ' ');
    Pack([], words[0], words[1..], maxWidth)
  }

  /** `wrapText(text, maxWidth)`: the packed lines joined with newlines. When
      the text holds no newline, turning the newlines back into spaces gives
      the text back, so no word is split, dropped or moved. */
  method WrapText(text: string, maxWidth: int) returns (wrapped: string)
    ensures wrapped == Join(WrappedLines(text, maxWidth), '\n')
    ensures '\n' !in text ==> ReplaceChar(wrapped, '\n', ' ') == text
  {
    var words := Split(text, ' ');
    var lines: seq<string> := [];
    var currentLine := words[0];
    var i := 1;
    while i < |words|
      invariant 1 <= i <= |words|
      invariant Pack(lines, currentLine, words[i..], maxWidth) == WrappedLines(text, maxWidth)
    {
      assert words[i..][1..] == words[i + 1..];
      if |currentLine| + 1 + |words[i]| <= maxWidth {
        currentLine := currentLine + " " + words[i];
      } else {
        lines := lines + [currentLine];
        currentLine := words[i];
      }
      i := i + 1;
    }
    lines := lines + [currentLine];
    wrapped := Join(lines, '\n');
    if '\n' !in text {
      WrapRoundTrip(text, maxWidth);
    }
  }

  /** A line respects the width, or it is a single word. */
  predicate Fits(line: string, maxWidth: int)
  {
    |line| <= maxWidth || ' ' !in line
  }

  /** The first word of a line. */
  function FirstWord(line: string): string
  {
    Split(line, ' ')[0]
  }

  /** Greedy packing: each line is followed by a line whose first word would
      not have fitted after it. */
  predicate Greedy(lines: seq<string>, maxWidth: int)
  {
    forall k :: 0 <= k < |lines| - 1 ==> |lines[k]| + 1 + |FirstWord(lines[k + 1])| > maxWidth
  }

  predicate NoSpaces(words: seq<string>)
  {
    forall k :: 0 <= k < |words| ==> ' ' !in words[k]
  }

  lemma {:induction false} PackFits(lines: seq<string>, current: string, rest: seq<string>, maxWidth: int)
    requires forall k :: 0 <= k < |lines| ==> Fits(lines[k], maxWidth)
    requires Fits(current, maxWidth)
    requires NoSpaces(rest)
    ensures forall k :: 0 <= k < |Pack(lines, current, rest, maxWidth)| ==> Fits(Pack(lines, current, rest, maxWidth)[k], maxWidth)
    decreases |rest|
  {
    if |rest| > 0 {
      assert NoSpaces(rest[1..]) by {
        forall k | 0 <= k < |rest[1..]| ensures ' ' !in rest[1..][k] {
          assert rest[1..][k] == rest[k + 1];
        }
      }
      if |current| + 1 + |rest[0]| <= maxWidth {
        PackFits(lines, current + " " + rest[0], rest[1..], maxWidth);
      } else {
        PackFits(lines + [current], rest[0], rest[1..], maxWidth);
      }
    }
  }

  /** Line bound: every line of `wrapText` is at most `maxWidth` characters
      long unless it is a single word, which is then left whole. */
  lemma WrappedLinesFit(text: string, maxWidth: int)
    ensures forall k :: 0 <= k < |WrappedLines(text, maxWidth)| ==> Fits(WrappedLines(text, maxWidth)[k], maxWidth)
  {
    var words := Split(text, ' ');
    SplitPieces(text, ' ');
    assert NoSpaces(words[1..]) by {
      forall k | 0 <= k < |words[1..]| ensures ' ' !in words[1..][k] {
        assert words[1..][k] == words[k + 1];
      }
    }
    PackFits([], words[0], words[1..], maxWidth);
  }

  lemma {:induction false} PackJoin(lines: seq<string>, current: string, rest: seq<string>, maxWidth: int)
    ensures Join(Pack(lines, current, rest, maxWidth), ' ') == Join(lines + [current] + rest, ' ')
    decreases |rest|
  {
    if |rest| == 0 {
      assert lines + [current] + rest == lines + [current];
    } else {
      var w := rest[0];
      assert rest == [w] + rest[1..];
      if |current| + 1 + |w| <= maxWidth {
        PackJoin(lines, current + " " + w, rest[1..], maxWidth);
        JoinMerge(lines, current, w, rest[1..], ' ');
        assert lines + [current] + rest == lines + [current, w] + rest[1..];
      } else {
        PackJoin(lines + [current], w, rest[1..], maxWidth);
        assert lines + [current] + rest == lines + [current] + [w] + rest[1..];
      }
    }
  }

  /** Round trip: joining the lines with spaces instead of newlines gives the
      text back. */
  lemma WrappedLinesJoin(text: string, maxWidth: int)
    ensures Join(WrappedLines(text, maxWidth), ' ') == text
  {
    var words := Split(text, ' ');
    PackJoin([], words[0], words[1..], maxWidth);
    assert [] + [words[0]] + words[1..] == words;
    JoinSplit(text, ' ');
  }

  /** No line of the result holds a character that occurs in no word other
      than a space (used for newlines). */
  lemma WrappedLinesAvoid(text: string, maxWidth: int, c: char)
    requires c != ' ' && c !in text
    ensures forall k :: 0 <= k < |WrappedLines(text, maxWidth)| ==> c !in WrappedLines(text, maxWidth)[k]
  {
    var lines := WrappedLines(text, maxWidth);
    WrappedLinesJoin(text, maxWidth);
    JoinChars(lines, ' ', c);
  }

  /** Round trip of `wrapText` for text without newlines: replacing every
      newline of the result by a space gives back the input exactly. */
  lemma WrapRoundTrip(text: string, maxWidth: int)
    requires '\n' !in text
    ensures ReplaceChar(Join(WrappedLines(text, maxWidth), '\n'), '\n', ' ') == text
  {
    WrappedLinesAvoid(text, maxWidth, '\n');
    ReplaceJoin(WrappedLines(text, maxWidth), '\n', ' ');
    WrappedLinesJoin(text, maxWidth);
  }

  /** Re-wrapping: turning the newlines of a wrapped caption back into
      spaces and wrapping again at the same width gives the same result. */
  lemma RewrapSame(text: string, maxWidth: int)
    requires '\n' !in text
    ensures var wrapped := Join(WrappedLines(text, maxWidth), '\n');
            Join(WrappedLines(ReplaceChar(wrapped, '\n', ' '), maxWidth), '\n') == wrapped
  {
    WrapRoundTrip(text, maxWidth);
  }

  /** Appending a word after a space keeps the first word of a line. */
  lemma FirstWordAppend(line: string, w: string)
    ensures FirstWord(line + " " + w) == FirstWord(line)
  {
    SplitConcat(line, w, ' ');
  }

  lemma {:induction false} PackGreedy(lines: seq<string>, current: string, rest: seq<string>, maxWidth: int)
    requires Greedy(lines + [current], maxWidth)
    requires NoSpaces(rest)
    ensures Greedy(Pack(lines, current, rest, maxWidth), maxWidth)
    decreases |rest|
  {
    if |rest| > 0 {
      var w := rest[0];
      assert NoSpaces(rest[1..]) by {
        forall k | 0 <= k < |rest[1..]| ensures ' ' !in rest[1..][k] {
          assert rest[1..][k] == rest[k + 1];
        }
      }
      if |current| + 1 + |w| <= maxWidth {
        var merged := current + " " + w;
        FirstWordAppend(current, w);
        var before, after := lines + [current], lines + [merged];
        assert Greedy(after, maxWidth) by {
          forall k | 0 <= k < |after| - 1
            ensures |after[k]| + 1 + |FirstWord(after[k + 1])| > maxWidth
          {
            assert after[k] == before[k];
            assert FirstWord(after[k + 1]) == FirstWord(before[k + 1]);
          }
        }
        PackGreedy(lines, merged, rest[1..], maxWidth);
      } else {
        SplitWord(w, ' ');
        var before, after := lines + [current], lines + [current] + [w];
        assert Greedy(after, maxWidth) by {
          forall k | 0 <= k < |after| - 1
            ensures |after[k]| + 1 + |FirstWord(after[k + 1])| > maxWidth
          {
            if k < |after| - 2 {
              assert after[k] == before[k] && after[k + 1] == before[k + 1];
            }
          }
        }
        PackGreedy(lines + [current], w, rest[1..], maxWidth);
      }
    }
  }

  /** Greediness: a line ends only when the next word would not fit after it. */
  lemma WrappedLinesGreedy(text: string, maxWidth: int)
    ensures Greedy(WrappedLines(text, maxWidth), maxWidth)
  {
    var words := Split(text, ' ');
    SplitPieces(text, ' ');
    assert NoSpaces(words[1..]) by {
      forall k | 0 <= k < |words[1..]| ensures ' ' !in words[1..][k] {
        assert words[1..][k] == words[k + 1];
      }
    }
    PackGreedy([], words[0], words[1..], maxWidth);
  }

  /** The empty caption wraps to a single empty line. */
  lemma EmptyTextWraps(maxWidth: int)
    ensures WrappedLines("", maxWidth) == [""]
  {
  }

  /** The next `n` words, one letter each, all join the current line when it
      has room for them: the line grows by two characters per word. */
  lemma {:induction false} PackAbsorb(lines: seq<string>, current: string, rest: seq<string>, n: nat, maxWidth: int)
    returns (line: string)
    requires n <= |rest|
    requires forall k :: 0 <= k < n ==> |rest[k]| == 1
    requires |current| + 2 * n <= maxWidth
    ensures |line| == |current| + 2 * n
    ensures Pack(lines, current, rest, maxWidth) == Pack(lines, line, rest[n..], maxWidth)
    decreases n
  {
    if n == 0 {
      line := current;
    } else {
      forall k | 0 <= k < n - 1 ensures |rest[1..][k]| == 1 {
        assert rest[1..][k] == rest[k + 1];
      }
      line := PackAbsorb(lines, current + " " + rest[0], rest[1..], n - 1, maxWidth);
      assert rest[1..][n - 1..] == rest[n..];
    }
  }

  /** Sixteen one-letter words at width 25: thirteen fill the first line to
      exactly 25 characters and the other three make a second line. */
  lemma SixteenLetters(words: seq<string>)
    requires |words| == 16
    requires forall k :: 0 <= k < |words| ==> |words[k]| == 1 && ' ' !in words[k]
    ensures |WrappedLines(Join(words, ' '), 25)| == 2
    ensures |WrappedLines(Join(words, ' '), 25)[0]| == 25
  {
    SplitJoin(words, ' ');
    assert Split(Join(words, ' '), ' ') == words;
    forall k | 0 <= k < 12 ensures |words[1..][k]| == 1 {
      assert words[1..][k] == words[k + 1];
    }
    var first := PackAbsorb([], words[0], words[1..], 12, 25);
    var tail := words[13..];
    assert words[1..][12..] == tail;
    assert tail[1..] == words[14..];
    forall k | 0 <= k < 2 ensures |words[14..][k]| == 1 {
      assert words[14..][k] == words[k + 14];
    }
    assert [] + [first] == [first];
    assert Pack([], first, tail, 25) == Pack([first], tail[0], words[14..], 25);
    var second := PackAbsorb([first], tail[0], words[14..], 2, 25);
    assert words[14..][2..] == [];
    assert Pack([first], second, [], 25) == [first, second];
  }
}
