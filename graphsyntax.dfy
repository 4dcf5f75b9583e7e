/** How the external processor's filter-graph parser reads the text of a
    filter chain. Outside single quotes, `[` and `]` delimit labels, `,`
    separates the filters of a chain, `;` separates chains and `\` escapes
    the next character. Inside single quotes every character up to the
    closing quote is taken as it is. A filter's argument text runs until the
    first of `[`, `]`, `,` or `;` that stands outside quotes. */
module GraphSyntax {
  import opened Text

  /** A character the parser acts on when it stands outside quotes. */
  predicate Metachar(c: char)
  {
    c == '[' || c == ']' || c == ',' || c == ';' || c == '\'' || c == '\\'
  }

  /** `s` holds no metacharacter at all, so the parser reads it as it is,
      quoted or not. */
  predicate Inert(s: string)
  {
    forall k :: 0 <= k < |s| ==> !Metachar(s[k])
  }

  lemma InertConcat(a: string, b: string)
    ensures Inert(a + b) <==> Inert(a) && Inert(b)
  {
    if Inert(a) && Inert(b) {
      forall k | 0 <= k < |a + b| ensures !Metachar((a + b)[k]) {
        if k >= |a| {
          assert (a + b)[k] == b[k - |a|];
        }
      }
    }
    if Inert(a + b) {
      forall k | 0 <= k < |a| ensures !Metachar(a[k]) {
        assert (a + b)[k] == a[k];
      }
      forall k | 0 <= k < |b| ensures !Metachar(b[k]) {
        assert (a + b)[|a| + k] == b[k];
      }
    }
  }

  lemma DigitsInert(d: string)
    requires AllDigits(d)
    ensures Inert(d)
  {
  }

  /** Whether the parser is inside quotes after reading `s`, when it starts
      inside them if `quoted` holds: every quote toggles the state. */
  function QuoteAfter(s: string, quoted: bool): bool
  {
    if s == [] then quoted
    else QuoteAfter(s[1..], if s[0] == '\'' then !quoted else quoted)
  }

  /** The characters of `s` the parser reads outside quotes, the quotes
      themselves left out, when it starts inside quotes if `quoted` holds. */
  function Live(s: string, quoted: bool): string
  {
    if s == [] then []
    else if s[0] == '\'' then Live(s[1..], !quoted)
    else if quoted then Live(s[1..], quoted)
    else [s[0]] + Live(s[1..], quoted)
  }

  /** The parser takes all of `s` as the argument text of one filter and
      leaves it outside quotes: outside its quoted spans `s` holds no label
      bracket, no separator and no escape, and it closes every quote it
      opens. */
  predicate Sealed(s: string)
  {
    Inert(Live(s, false)) && !QuoteAfter(s, false)
  }

  /** Reading a concatenation is reading its first part and then its second
      part, from the state the first part left. */
  lemma {:induction false} ReadConcat(a: string, b: string, quoted: bool)
    ensures Live(a + b, quoted) == Live(a, quoted) + Live(b, QuoteAfter(a, quoted))
    ensures QuoteAfter(a + b, quoted) == QuoteAfter(b, QuoteAfter(a, quoted))
  {
    if a == [] {
      assert a + b == b;
    } else {
      assert (a + b)[0] == a[0];
      assert (a + b)[1..] == a[1..] + b;
      ReadConcat(a[1..], b, if a[0] == '\'' then !quoted else quoted);
    }
  }

  /** Starting inside quotes flips the state at the end. */
  lemma {:induction false} QuoteAfterFlip(s: string, quoted: bool)
    ensures QuoteAfter(s, quoted) == (quoted != QuoteAfter(s, false))
  {
    if s != [] {
      QuoteAfterFlip(s[1..], if s[0] == '\'' then !quoted else quoted);
      QuoteAfterFlip(s[1..], s[0] == '\'');
    }
  }

  /** Text without quotes is read as it is outside quotes, not at all inside
      them, and leaves the state as it was. */
  lemma {:induction false} QuoteFreeRead(s: string, quoted: bool)
    requires '\'' !in s
    ensures Live(s, quoted) == if quoted then [] else s
    ensures QuoteAfter(s, quoted) == quoted
  {
    if s != [] {
      assert s[0] != '\'' by { assert s[0] in s; }
      assert '\'' !in s[1..] by {
        forall k | 0 <= k < |s[1..]| ensures s[1..][k] != '\'' {
          assert s[1..][k] == s[k + 1];
        }
      }
      QuoteFreeRead(s[1..], quoted);
      if !quoted {
        assert s == [s[0]] + s[1..];
      }
    }
  }

  lemma InertQuoteFree(s: string)
    requires Inert(s)
    ensures '\'' !in s
  {
    forall k | 0 <= k < |s| ensures s[k] != '\'' {
      assert !Metachar(s[k]);
    }
  }

  lemma InertSealed(s: string)
    requires Inert(s)
    ensures Sealed(s)
  {
    InertQuoteFree(s);
    QuoteFreeRead(s, false);
  }

  /** After a sealed part, what follows is sealed exactly when the whole is. */
  lemma SealedConcat(a: string, b: string)
    requires Sealed(a)
    ensures Sealed(b) <==> Sealed(a + b)
  {
    ReadConcat(a, b, false);
    InertConcat(Live(a, false), Live(b, false));
  }

  /** An inert prefix is read as it is and changes nothing that follows. */
  lemma InertPrefix(p: string, s: string)
    requires Inert(p)
    ensures Live(p + s, false) == p + Live(s, false)
    ensures QuoteAfter(p + s, false) == QuoteAfter(s, false)
    ensures Sealed(p + s) <==> Sealed(s)
  {
    InertQuoteFree(p);
    QuoteFreeRead(p, false);
    ReadConcat(p, s, false);
    InertConcat(p, Live(s, false));
  }

  /** `s` between a pair of single quotes. */
  function Quoted(s: string): string
  {
    "'" + s + "'"
  }

  /** Quoting leaves the quote state of the text unchanged; and quote-free
      text between quotes is taken as it is. */
  lemma QuotedRead(s: string, quoted: bool)
    ensures QuoteAfter(Quoted(s), quoted) == QuoteAfter(s, quoted)
    ensures '\'' !in s ==> Sealed(Quoted(s))
  {
    var q := "'" + (s + "'");
    assert Quoted(s) == q;
    assert q[0] == '\'' && q[1..] == s + "'";
    ReadConcat(s, "'", !quoted);
    QuoteAfterFlip(s, !quoted);
    QuoteAfterFlip(s, quoted);
    if '\'' !in s {
      ReadConcat(s, "'", true);
      QuoteFreeRead(s, true);
    }
  }

  /** A join of sealed parts with an inert separator is sealed. */
  lemma {:induction false} SealedJoin(parts: seq<string>, sep: char)
    requires !Metachar(sep)
    requires forall k :: 0 <= k < |parts| ==> Sealed(parts[k])
    ensures Sealed(Join(parts, sep))
  {
    if |parts| == 0 {
      assert Inert(Live("", false));
    } else if |parts| >= 2 {
      SealedJoin(parts[1..], sep);
      assert Inert([sep]);
      InertSealed([sep]);
      SealedConcat(parts[0], [sep]);
      SealedConcat(parts[0] + [sep], Join(parts[1..], sep));
    }
  }

  /** Every part of an inert join is inert. */
  lemma InertJoinParts(parts: seq<string>, sep: char)
    requires Inert(Join(parts, sep))
    ensures forall k :: 0 <= k < |parts| ==> Inert(parts[k])
  {
    forall k, i | 0 <= k < |parts| && 0 <= i < |parts[k]| ensures !Metachar(parts[k][i]) {
      var c := parts[k][i];
      assert c in parts[k];
      JoinChars(parts, sep, c);
      var j :| 0 <= j < |Join(parts, sep)| && Join(parts, sep)[j] == c;
    }
  }

  /** What each part shows outside quotes. */
  function LiveParts(parts: seq<string>): (live: seq<string>)
    ensures |live| == |parts|
  {
    seq(|parts|, k requires 0 <= k < |parts| => Live(parts[k], false))
  }

  /** When every part closes its quotes, the parser reads a join outside
      quotes as the join of what it reads of each part. */
  lemma {:induction false} LiveJoin(parts: seq<string>, sep: char)
    requires sep != '\''
    requires forall k :: 0 <= k < |parts| ==> !QuoteAfter(parts[k], false)
    ensures Live(Join(parts, sep), false) == Join(LiveParts(parts), sep)
  {
    if |parts| == 1 {
      assert LiveParts(parts) == [Live(parts[0], false)];
    } else if |parts| >= 2 {
      var rest := Join(parts[1..], sep);
      LiveJoin(parts[1..], sep);
      QuoteFreeRead([sep], false);
      ReadConcat(parts[0], [sep], false);
      ReadConcat(parts[0] + [sep], rest, false);
      assert LiveParts(parts)[1..] == LiveParts(parts[1..]);
    }
  }

  /** A join leaves a quote open exactly when one part, `odd`, leaves a quote
      open and no other part does. */
  lemma {:induction false} JoinQuoteAfter(parts: seq<string>, sep: char, odd: int)
    requires sep != '\''
    requires forall k :: 0 <= k < |parts| ==> (QuoteAfter(parts[k], false) <==> k == odd)
    ensures QuoteAfter(Join(parts, sep), false) == (0 <= odd < |parts|)
  {
    if |parts| >= 2 {
      var rest := Join(parts[1..], sep);
      JoinQuoteAfter(parts[1..], sep, odd - 1);
      QuoteFreeRead([sep], QuoteAfter(parts[0], false));
      ReadConcat(parts[0], [sep], false);
      ReadConcat(parts[0] + [sep], rest, false);
      QuoteAfterFlip(rest, QuoteAfter(parts[0], false));
    }
  }
}
