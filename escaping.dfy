/** The two text rewrites of the overlay loop: removing label brackets from
    caption text (index.js:85) and escaping a path for use as a drawtext
    option value (index.js:90-91). */
module Escaping {
  import opened Text

  predicate IsBracket(c: char)
  {
    c == '[' || c == ']'
  }

  /** `text.replace(/[\[\]]/g, "")`: the caption without its square brackets. */
  function StripBrackets(s: string): string
  {
    if |s| == 0 then ""
    else (if IsBracket(s[0]) then "" else [s[0]]) + StripBrackets(s[1..])
  }

  /** No bracket is left, and the result is no longer than the text. */
  lemma {:induction false} StripBracketsRemoves(s: string)
    ensures '[' !in StripBrackets(s) && ']' !in StripBrackets(s)
    ensures |StripBrackets(s)| <= |s|
  {
    if |s| > 0 {
      StripBracketsRemoves(s[1..]);
    }
  }

  /** Every other character keeps its number of occurrences. */
  lemma {:induction false} StripBracketsKeeps(s: string, c: char)
    requires !IsBracket(c)
    ensures multiset(StripBrackets(s))[c] == multiset(s)[c]
  {
    if |s| > 0 {
      StripBracketsKeeps(s[1..], c);
      var head := if IsBracket(s[0]) then "" else [s[0]];
      assert multiset(head + StripBrackets(s[1..])) == multiset(head) + multiset(StripBrackets(s[1..]));
      assert s == [s[0]] + s[1..];
      assert multiset(s) == multiset([s[0]]) + multiset(s[1..]);
    }
  }

  /** Stripping works character by character, so it keeps the order of what
      it leaves: the cleaned text of a concatenation is the concatenation of
      the cleaned parts. */
  lemma {:induction false} StripBracketsConcat(a: string, b: string)
    ensures StripBrackets(a + b) == StripBrackets(a) + StripBrackets(b)
  {
    if |a| > 0 {
      var head := if IsBracket(a[0]) then "" else [a[0]];
      assert (a + b)[0] == a[0];
      assert (a + b)[1..] == a[1..] + b;
      StripBracketsConcat(a[1..], b);
      assert head + (StripBrackets(a[1..]) + StripBrackets(b)) == head + StripBrackets(a[1..]) + StripBrackets(b);
    } else {
      assert a + b == b;
    }
  }

  /** Text without brackets is left as it is; in particular stripping twice
      is stripping once. */
  lemma {:induction false} StripBracketsClean(s: string)
    requires '[' !in s && ']' !in s
    ensures StripBrackets(s) == s
  {
    if |s| > 0 {
      assert s[0] in s;
      StripBracketsClean(s[1..]);
      assert [s[0]] + s[1..] == s;
    }
  }

  /** `p.replace(/\\/g, '/')`: backslash separators become forward slashes. */
  function ForwardSlashes(p: string): string
  {
    ReplaceChar(p, '\\', '/')
  }

  /** `.replace(/:/g, '\\:')`: every colon gets a backslash in front. */
  function EscapeColons(p: string): (r: string)
    ensures |r| > 0 ==> r[0] != ':'
  {
    if |p| == 0 then ""
    else
      assert p == [p[0]] + p[1..];
      (if p[0] == ':' then "\\:" else [p[0]]) + EscapeColons(p[1..])
  }

  /** In an escaped string without backslashes of its own, a backslash only
      ever stands right before a colon, and every colon has one. */
  predicate Escaped(r: string)
  {
    && (forall i :: 0 <= i < |r| && r[i] == '\\' ==> i + 1 < |r| && r[i + 1] == ':')
    && (forall i :: 0 <= i < |r| && r[i] == ':' ==> 0 < i && r[i - 1] == '\\')
  }

  lemma {:induction false} EscapeColonsEscaped(p: string)
    requires '\\' !in p
    ensures Escaped(EscapeColons(p))
  {
    if |p| > 0 {
      EscapeColonsEscaped(p[1..]);
      var h := if p[0] == ':' then "\\:" else [p[0]];
      var t := EscapeColons(p[1..]);
      var r := h + t;
      forall i | 0 <= i < |r| && r[i] == '\\' ensures i + 1 < |r| && r[i + 1] == ':' {
        if i >= |h| {
          assert r[i] == t[i - |h|];
          assert r[i + 1] == t[i + 1 - |h|];
        }
      }
      forall i | 0 <= i < |r| && r[i] == ':' ensures 0 < i && r[i - 1] == '\\' {
        if i > |h| {
          assert r[i] == t[i - |h|];
          assert r[i - 1] == t[i - 1 - |h|];
        }
      }
    }
  }

  /** Reading back an escaped value: `\:` stands for a colon, every other
      character for itself. */
  function Unescape(s: string): string
  {
    if |s| == 0 then ""
    else if |s| >= 2 && s[0] == '\\' && s[1] == ':' then ":" + Unescape(s[2..])
    else [s[0]] + Unescape(s[1..])
  }

  /** Unescaping undoes colon escaping, for any string. */
  lemma {:induction false} UnescapeEscapeColons(p: string)
    ensures Unescape(EscapeColons(p)) == p
  {
    if |p| > 0 {
      UnescapeEscapeColons(p[1..]);
      var t := EscapeColons(p[1..]);
      if p[0] == ':' {
        var r := "\\:" + t;
        assert r[2..] == t;
      } else {
        var r := [p[0]] + t;
        assert r[1..] == t;
        assert |r| >= 2 ==> r[1] != ':';
      }
      assert [p[0]] + p[1..] == p;
    }
  }

  /** The escaped form of a path embedded as a drawtext option value
      (index.js:90-91): backslashes are turned into forward slashes first,
      then every colon is escaped. */
  function EscapePath(p: string): string
  {
    EscapeColons(ForwardSlashes(p))
  }

  /** The only backslashes left in an escaped path are those right before a
      colon, every colon has one, and unescaping gives the path back with
      forward slashes. */
  lemma EscapePathRoundTrip(p: string)
    ensures Escaped(EscapePath(p))
    ensures Unescape(EscapePath(p)) == ForwardSlashes(p)
  {
    var slashed := ForwardSlashes(p);
    EscapeColonsEscaped(slashed);
    UnescapeEscapeColons(slashed);
  }
}
