/** String operations with the meaning of the JavaScript built-ins the renderer
    relies on: `split` and `join` with a one-character separator, a global
    one-character `replace`, and the decimal rendering of a number inside a
    template literal. */
module Text {

  /** `s.split(sep)`: the pieces between separators, in order. Like JavaScript,
      the empty string splits into one empty piece, and adjacent separators
      produce empty pieces. */
  function Split(s: string, sep: char): (parts: seq<string>)
    ensures |parts| >= 1
  {
    if |s| == 0 then [""]
    else
      var rest := Split(s[1..], sep);
      if s[0] == sep then [""] + rest
      else [[s[0]] + rest[0]] + rest[1..]
  }

  /** No piece of a split contains the separator. */
  lemma {:induction false} SplitPieces(s: string, sep: char)
    ensures forall k :: 0 <= k < |Split(s, sep)| ==> sep !in Split(s, sep)[k]
  {
    if |s| > 0 {
      SplitPieces(s[1..], sep);
      var rest := Split(s[1..], sep);
      if s[0] != sep {
        var parts := Split(s, sep);
        forall k | 0 <= k < |parts| ensures sep !in parts[k] {
          if k == 0 {
            assert parts[0] == [s[0]] + rest[0];
          } else {
            assert parts[k] == rest[k];
          }
        }
      }
    }
  }

  /** `parts.join(sep)`; the empty list joins to the empty string. */
  function Join(parts: seq<string>, sep: char): string
  {
    if |parts| == 0 then ""
    else if |parts| == 1 then parts[0]
    else parts[0] + [sep] + Join(parts[1..], sep)
  }

  /** Joining the pieces of a split gives the string back. */
  lemma {:induction false} JoinSplit(s: string, sep: char)
    ensures Join(Split(s, sep), sep) == s
  {
    if |s| > 0 {
      var rest := Split(s[1..], sep);
      JoinSplit(s[1..], sep);
      if s[0] == sep {
        assert Split(s, sep) == [""] + rest;
        assert ([""] + rest)[1..] == rest;
      } else if |rest| == 1 {
        assert Split(s, sep) == [[s[0]] + rest[0]];
      } else {
        var parts := Split(s, sep);
        assert parts == [[s[0]] + rest[0]] + rest[1..];
        assert parts[1..] == rest[1..];
        assert Join(rest, sep) == rest[0] + [sep] + Join(rest[1..], sep);
      }
    }
  }

  /** A string without the separator is a single piece. */
  lemma {:induction false} SplitWord(w: string, sep: char)
    requires sep !in w
    ensures Split(w, sep) == [w]
  {
    if |w| > 0 {
      SplitWord(w[1..], sep);
      assert [w[0]] + w[1..] == w;
    }
  }

  /** Split unfolded once at the front of a string. */
  lemma SplitCons(c: char, t: string, sep: char)
    ensures Split([c] + t, sep) ==
              if c == sep then [""] + Split(t, sep)
              else [[c] + Split(t, sep)[0]] + Split(t, sep)[1..]
  {
    assert ([c] + t)[1..] == t;
  }

  /** Splitting distributes over a separator between two strings. */
  lemma {:induction false} SplitConcat(a: string, b: string, sep: char)
    ensures Split(a + [sep] + b, sep) == Split(a, sep) + Split(b, sep)
  {
    if |a| == 0 {
      SplitCons(sep, b, sep);
      assert a + [sep] + b == [sep] + b;
    } else {
      var t := a[1..];
      SplitConcat(t, b, sep);
      SplitConcatStep(a[0], t, b, sep);
      assert a == [a[0]] + t;
      assert a + [sep] + b == [a[0]] + (t + [sep] + b);
    }
  }

  /** One step of `SplitConcat`: a character in front of both sides. */
  lemma SplitConcatStep(c: char, t: string, b: string, sep: char)
    requires Split(t + [sep] + b, sep) == Split(t, sep) + Split(b, sep)
    ensures Split([c] + (t + [sep] + b), sep) == Split([c] + t, sep) + Split(b, sep)
  {
    var ra, rb := Split(t, sep), Split(b, sep);
    SplitCons(c, t + [sep] + b, sep);
    SplitCons(c, t, sep);
    if c == sep {
      var empty: seq<string> := [""];
      assert empty + (ra + rb) == empty + ra + rb;
    } else {
      HeadAppend([c], ra, rb);
    }
  }

  lemma HeadAppend(c: string, x: seq<string>, y: seq<string>)
    requires |x| >= 1
    ensures [c + (x + y)[0]] + (x + y)[1..] == [c + x[0]] + x[1..] + y
  {
    assert (x + y)[0] == x[0];
    assert (x + y)[1..] == x[1..] + y;
  }

  /** Splitting the join of separator-free pieces gives the pieces back. */
  lemma {:induction false} SplitJoin(parts: seq<string>, sep: char)
    requires |parts| >= 1
    requires forall k :: 0 <= k < |parts| ==> sep !in parts[k]
    ensures Split(Join(parts, sep), sep) == parts
  {
    SplitWord(parts[0], sep);
    if |parts| > 1 {
      SplitJoin(parts[1..], sep);
      SplitConcat(parts[0], Join(parts[1..], sep), sep);
      assert [parts[0]] + parts[1..] == parts;
    }
  }

  /** Joining around a merged piece is the same as joining the two pieces:
      the separator between them only moves into the piece. */
  lemma {:induction false} JoinMerge(pre: seq<string>, a: string, b: string, post: seq<string>, sep: char)
    ensures Join(pre + [a + [sep] + b] + post, sep) == Join(pre + [a, b] + post, sep)
  {
    if |pre| == 0 {
      assert pre + [a + [sep] + b] + post == [a + [sep] + b] + post;
      assert pre + [a, b] + post == [a, b] + post;
      assert ([a, b] + post)[1..] == [b] + post;
      if |post| > 0 {
        assert ([a + [sep] + b] + post)[1..] == post;
        assert ([b] + post)[1..] == post;
      }
    } else {
      JoinMerge(pre[1..], a, b, post, sep);
      assert (pre + [a + [sep] + b] + post)[1..] == pre[1..] + [a + [sep] + b] + post;
      assert (pre + [a, b] + post)[1..] == pre[1..] + [a, b] + post;
    }
  }

  /** A character occurs in a join exactly when it occurs in one of the pieces,
      or it is the separator and there are at least two pieces. */
  lemma {:induction false} JoinChars(parts: seq<string>, sep: char, c: char)
    ensures c in Join(parts, sep) <==>
              (exists k :: 0 <= k < |parts| && c in parts[k]) || (|parts| >= 2 && c == sep)
  {
    if |parts| >= 2 {
      JoinChars(parts[1..], sep, c);
      if c in Join(parts[1..], sep) && c != sep {
        var k :| 0 <= k < |parts[1..]| && c in parts[1..][k];
        assert c in parts[k + 1];
      }
      if exists k :: 0 <= k < |parts| && c in parts[k] {
        var k :| 0 <= k < |parts| && c in parts[k];
        if k > 0 {
          assert c in parts[1..][k - 1];
        }
      }
    }
  }

  /** `s.replace(/from/g, to)` for single characters. */
  function ReplaceChar(s: string, from: char, to: char): (r: string)
    ensures |r| == |s|
    ensures forall i :: 0 <= i < |s| ==> r[i] == (if s[i] == from then to else s[i])
  {
    if |s| == 0 then []
    else [if s[0] == from then to else s[0]] + ReplaceChar(s[1..], from, to)
  }

  /** Replacing the separator of a join whose pieces never contain it is the
      same as joining with the replacement. */
  lemma {:induction false} ReplaceJoin(parts: seq<string>, from: char, to: char)
    requires forall k :: 0 <= k < |parts| ==> from !in parts[k]
    ensures ReplaceChar(Join(parts, from), from, to) == Join(parts, to)
  {
    if |parts| == 1 {
      assert ReplaceChar(parts[0], from, to) == parts[0];
    } else if |parts| > 1 {
      ReplaceJoin(parts[1..], from, to);
      var head := parts[0] + [from];
      var tail := Join(parts[1..], from);
      assert ReplaceChar(head + tail, from, to) == ReplaceChar(head, from, to) + ReplaceChar(tail, from, to);
      assert ReplaceChar(head, from, to) == parts[0] + [to];
    }
  }

  /** The decimal digit character for `d`. */
  function DigitChar(d: nat): (c: char)
    requires d < 10
    ensures '0' <= c <= '9'
    ensures c as int - '0' as int == d
  {
    ('0' as int + d) as char
  }

  predicate AllDigits(s: string)
  {
    forall k :: 0 <= k < |s| ==> '0' <= s[k] <= '9'
  }

  /** The decimal rendering of a natural number, as a template literal
      `${n}` prints it: no leading zeros, at least one digit. */
  function NatToString(n: nat): string
  {
    if n < 10 then [DigitChar(n)] else NatToString(n / 10) + [DigitChar(n % 10)]
  }

  /** The rendering is a non-empty string of digits without a leading zero. */
  lemma {:induction false} NatToStringDigits(n: nat)
    ensures |NatToString(n)| >= 1 && AllDigits(NatToString(n))
    ensures |NatToString(n)| > 1 ==> NatToString(n)[0] != '0'
  {
    if n >= 10 {
      NatToStringDigits(n / 10);
    }
  }

  /** The value of a string of decimal digits. */
  function ParseDecimal(s: string): nat
    requires AllDigits(s)
  {
    if |s| == 0 then 0
    else ParseDecimal(s[..|s| - 1]) * 10 + (s[|s| - 1] as int - '0' as int)
  }

  /** Reading back the rendering of a number gives the number. */
  lemma {:induction false} ParseNatToString(n: nat)
    ensures AllDigits(NatToString(n)) && ParseDecimal(NatToString(n)) == n
  {
    NatToStringDigits(n);
    if n >= 10 {
      ParseNatToString(n / 10);
      var s := NatToString(n);
      assert s[..|s| - 1] == NatToString(n / 10);
    }
  }

  /** Distinct numbers render as distinct strings. */
  lemma NatToStringInjective(m: nat, n: nat)
    ensures NatToString(m) == NatToString(n) ==> m == n
  {
    ParseNatToString(m);
    ParseNatToString(n);
  }

  /** A template literal `${i}` for a JavaScript integer, with a minus sign for
      negative values. */
  function IntToString(i: int): string
  {
    if i < 0 then "-" + NatToString(-i) else NatToString(i)
  }

  /** The rendering of an integer is a minus sign followed by digits when it
      is negative, and digits otherwise. */
  lemma IntToStringChars(i: int)
    ensures |IntToString(i)| >= 1
    ensures forall k :: 0 <= k < |IntToString(i)| ==> IntToString(i)[k] == '-' || '0' <= IntToString(i)[k] <= '9'
    ensures i >= 0 ==> AllDigits(IntToString(i))
    ensures i < 0 ==> IntToString(i)[0] == '-' && AllDigits(IntToString(i)[1..])
  {
    NatToStringDigits(if i < 0 then -i else i);
    if i < 0 {
      assert IntToString(i)[1..] == NatToString(-i);
    }
  }
}
