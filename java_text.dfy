/**
  * The java.lang.String operations the codecs are built from: splitting on a
  * single-character delimiter (with and without a limit of -1), joining,
  * whitespace as Character.isWhitespace defines it, strip() and isBlank().
  */
module JavaText {

  /** Number of occurrences of `d` in `s`. */
  function Occurrences(s: string, d: char): nat
  {
    if |s| == 0 then 0 else (if s[0] == d then 1 else 0) + Occurrences(s[1..], d)
  }

  /**
    * s.split(d, -1): the maximal pieces of `s` between occurrences of `d`,
    * empty pieces (leading, inner and trailing) included. Never empty: a text
    * without the delimiter is its own single piece.
    */
  function Split(s: string, d: char): (r: seq<string>)
    ensures |r| >= 1
    ensures forall i :: 0 <= i < |r| ==> d !in r[i]
  {
    if |s| == 0 then [""]
    else
      var rest := Split(s[1..], d);
      if s[0] == d then [""] + rest else [[s[0]] + rest[0]] + rest[1..]
  }

  /** A text holds `d` exactly when it has a positive number of occurrences of `d`. */
  lemma {:induction false} OccurrencesZero(s: string, d: char)
    ensures d !in s <==> Occurrences(s, d) == 0
  {
    if |s| > 0 {
      OccurrencesZero(s[1..], d);
      assert s == [s[0]] + s[1..];
    }
  }

  /** Occurrences add up over a concatenation. */
  lemma {:induction false} OccurrencesAppend(a: string, b: string, d: char)
    ensures Occurrences(a + b, d) == Occurrences(a, d) + Occurrences(b, d)
  {
    if |a| > 0 {
      assert (a + b)[1..] == a[1..] + b;
      OccurrencesAppend(a[1..], b, d);
    } else {
      assert a + b == b;
    }
  }

  /** String.join(d, parts): the pieces with one `d` between neighbours. */
  function Join(parts: seq<string>, d: char): string
  {
    if |parts| == 0 then ""
    else if |parts| == 1 then parts[0]
    else parts[0] + [d] + Join(parts[1..], d)
  }

  /**
    * Joining pieces free of `d` puts exactly one `d` between neighbours: one
    * fewer than there are pieces. The text starts with the first piece.
    */
  lemma {:induction false} JoinOccurrences(parts: seq<string>, d: char)
    requires forall i :: 0 <= i < |parts| ==> d !in parts[i]
    ensures Occurrences(Join(parts, d), d) == if |parts| == 0 then 0 else |parts| - 1
    ensures |parts| >= 1 ==> |Join(parts, d)| >= |parts[0]| && Join(parts, d)[..|parts[0]|] == parts[0]
  {
    if |parts| == 1 {
      OccurrencesZero(parts[0], d);
    } else if |parts| > 1 {
      var rest := Join(parts[1..], d);
      JoinOccurrences(parts[1..], d);
      OccurrencesZero(parts[0], d);
      OccurrencesAppend(parts[0] + [d], rest, d);
      OccurrencesAppend(parts[0], [d], d);
      assert (parts[0] + [d] + rest)[..|parts[0]|] == parts[0];
    }
  }

  /**
    * Drops the empty pieces at the end, as split with limit 0 does: what is
    * kept is a prefix that does not end with an empty piece, and every piece
    * dropped is empty.
    */
  function DropTrailingEmpty(parts: seq<string>): (r: seq<string>)
    ensures |r| <= |parts| && r == parts[..|r|]
    ensures |r| == 0 || r[|r| - 1] != ""
    ensures forall i :: |r| <= i < |parts| ==> parts[i] == ""
  {
    if |parts| > 0 && parts[|parts| - 1] == "" then DropTrailingEmpty(parts[..|parts| - 1]) else parts
  }

  /**
    * s.split(d) (limit 0): as Split, but trailing empty pieces are removed,
    * except that a text without any delimiter is returned whole (so "" gives [""]).
    */
  function SplitDroppingTrailing(s: string, d: char): seq<string>
  {
    if d !in s then [s] else DropTrailingEmpty(Split(s, d))
  }

  /**
    * split(d) keeps a prefix of the pieces of split(d, -1), all of them free
    * of `d`, and what it drops are empty pieces.
    */
  lemma SplitDroppingTrailingPrefix(s: string, d: char)
    ensures var r := SplitDroppingTrailing(s, d);
      |r| <= |Split(s, d)| && r == Split(s, d)[..|r|]
      && (forall i :: |r| <= i < |Split(s, d)| ==> Split(s, d)[i] == "")
      && (forall i :: 0 <= i < |r| ==> d !in r[i])
  {
    if d !in s {
      SplitWithoutDelimiter(s, d);
    }
  }

  /**
    * Character.isWhitespace: the Unicode space, line and paragraph separators
    * other than the three no-break spaces, and the controls U+0009-U+000D and
    * U+001C-U+001F.
    */
  predicate IsWhitespace(c: char)
  {
    var n := c as int;
    n == 0x20 || 0x09 <= n <= 0x0D || 0x1C <= n <= 0x1F || n == 0x1680
    || 0x2000 <= n <= 0x2006 || 0x2008 <= n <= 0x200A
    || n == 0x2028 || n == 0x2029 || n == 0x205F || n == 0x3000
  }

  /** The usual ASCII separators are whitespace; the three no-break spaces are not. */
  lemma WhitespaceExamples()
    ensures IsWhitespace(' ') && IsWhitespace('\t') && IsWhitespace('\n') && IsWhitespace('\r')
    ensures !IsWhitespace('\U{A0}') && !IsWhitespace('\U{2007}') && !IsWhitespace('\U{202F}')
    ensures !IsWhitespace('a') && !IsWhitespace('0') && !IsWhitespace('=')
  {
  }

  /** String.isBlank: empty, or whitespace only. */
  predicate IsBlank(s: string)
  {
    forall i :: 0 <= i < |s| ==> IsWhitespace(s[i])
  }

  /** Text whose every character is ASCII. */
  predicate IsAscii(s: string)
  {
    forall i :: 0 <= i < |s| ==> s[i] as int < 128
  }

  /** Joining ASCII pieces with an ASCII delimiter gives ASCII text. */
  lemma {:induction false} JoinAscii(parts: seq<string>, d: char)
    requires d as int < 128
    requires forall i :: 0 <= i < |parts| ==> IsAscii(parts[i])
    ensures IsAscii(Join(parts, d))
  {
    if |parts| > 1 {
      JoinAscii(parts[1..], d);
    }
  }

  /** What a text made of a prefix, one character and a suffix holds. */
  lemma Around(x: string, c: char, t: string)
    ensures |x + [c] + t| > |x| && (x + [c] + t)[..|x|] == x && (x + [c] + t)[|x|] == c
    ensures forall ch :: ch in x + [c] + t <==> ch in x || ch == c || ch in t
  {
    assert (x + [c] + t)[..|x|] == x;
  }

  /** ASCII pieces around an ASCII character make ASCII text. */
  lemma AsciiAround(x: string, c: char, t: string)
    requires IsAscii(x) && c as int < 128 && IsAscii(t)
    ensures IsAscii(x + [c] + t)
  {
    var s := x + [c] + t;
    forall i | 0 <= i < |s|
      ensures s[i] as int < 128
    {
      if i < |x| {
        assert s[i] == x[i];
      } else if i > |x| {
        assert s[i] == t[i - |x| - 1];
      }
    }
  }

  /** A text that does not begin with whitespace. */
  predicate NoLeadingWhitespace(s: string)
  {
    |s| == 0 || !IsWhitespace(s[0])
  }

  /** A text that does not end with whitespace. */
  predicate NoTrailingWhitespace(s: string)
  {
    |s| == 0 || !IsWhitespace(s[|s| - 1])
  }

  /** String.stripLeading: the suffix of `s` left after its leading whitespace. */
  function StripLeading(s: string): (r: string)
    ensures |r| <= |s| && r == s[|s| - |r|..]
    ensures NoLeadingWhitespace(r)
    ensures forall i :: 0 <= i < |s| - |r| ==> IsWhitespace(s[i])
  {
    if |s| > 0 && IsWhitespace(s[0]) then StripLeading(s[1..]) else s
  }

  /** String.stripTrailing: the prefix of `s` left after its trailing whitespace. */
  function StripTrailing(s: string): (r: string)
    ensures |r| <= |s| && r == s[..|r|]
    ensures NoTrailingWhitespace(r)
    ensures forall i :: |r| <= i < |s| ==> IsWhitespace(s[i])
  {
    if |s| > 0 && IsWhitespace(s[|s| - 1]) then StripTrailing(s[..|s| - 1]) else s
  }

  /** String.strip. */
  function Strip(s: string): string
  {
    StripTrailing(StripLeading(s))
  }

  /**
    * strip() leaves a text that neither starts nor ends with whitespace: the
    * prefix of stripLeading()'s result that stripTrailing() keeps.
    */
  lemma StripShape(s: string)
    ensures NoLeadingWhitespace(Strip(s)) && NoTrailingWhitespace(Strip(s))
    ensures |Strip(s)| <= |StripLeading(s)| <= |s|
    ensures Strip(s) == StripLeading(s)[..|Strip(s)|]
  {
    var t := StripLeading(s);
    var r := StripTrailing(t);
    assert |r| > 0 ==> r[0] == t[0];
  }

  /** The pieces that are not blank, in order (a stream filter on !isBlank). */
  function NonBlank(parts: seq<string>): (r: seq<string>)
    ensures |r| <= |parts|
    ensures forall i :: 0 <= i < |r| ==> !IsBlank(r[i]) && r[i] in parts
  {
    if |parts| == 0 then []
    else (if IsBlank(parts[0]) then [] else [parts[0]]) + NonBlank(parts[1..])
  }

  lemma {:induction false} NonBlankAppend(a: seq<string>, b: seq<string>)
    ensures NonBlank(a + b) == NonBlank(a) + NonBlank(b)
  {
    if |a| > 0 {
      assert (a + b)[1..] == a[1..] + b;
      NonBlankAppend(a[1..], b);
    } else {
      assert a + b == b;
    }
  }

  /** Filtering pieces none of which is blank keeps them all. */
  lemma {:induction false} NonBlankAll(parts: seq<string>)
    requires forall i :: 0 <= i < |parts| ==> !IsBlank(parts[i])
    ensures NonBlank(parts) == parts
  {
    if |parts| > 0 {
      NonBlankAll(parts[1..]);
      assert [parts[0]] + parts[1..] == parts;
    }
  }

  /** A text without the delimiter splits into itself alone. */
  lemma {:induction false} SplitWithoutDelimiter(s: string, d: char)
    requires d !in s
    ensures Split(s, d) == [s]
  {
    if |s| > 0 {
      SplitWithoutDelimiter(s[1..], d);
      assert [s[0]] + s[1..] == s;
    }
  }

  /** Splitting distributes over a delimiter: the pieces of a, then those of b. */
  lemma {:induction false} SplitAround(a: string, b: string, d: char)
    ensures Split(a + [d] + b, d) == Split(a, d) + Split(b, d)
  {
    if |a| == 0 {
      assert (a + [d] + b)[1..] == b;
    } else {
      var c, t := a[0], a[1..];
      SplitAround(t, b, d);
      assert a == [c] + t && a + [d] + b == [c] + (t + [d] + b);
      if c == d {
        SplitAroundDelimiter(c, t, b, d);
      } else {
        SplitAroundChar(c, t, b, d);
      }
    }
  }

  /** Split of a text given as its first character and the rest. */
  lemma SplitCons(c: char, t: string, d: char)
    ensures Split([c] + t, d) ==
      if c == d then [""] + Split(t, d) else [[c] + Split(t, d)[0]] + Split(t, d)[1..]
  {
    assert ([c] + t)[1..] == t;
  }

  /** The inductive step of SplitAround for a first character that is not the delimiter. */
  lemma SplitAroundChar(c: char, t: string, b: string, d: char)
    requires c != d
    requires Split(t + [d] + b, d) == Split(t, d) + Split(b, d)
    ensures Split([c] + (t + [d] + b), d) == Split([c] + t, d) + Split(b, d)
  {
    SplitCons(c, t + [d] + b, d);
    SplitCons(c, t, d);
    PrependToFirst([c], Split(t, d), Split(b, d));
  }

  /** The inductive step of SplitAround for a first character that is the delimiter. */
  lemma SplitAroundDelimiter(c: char, t: string, b: string, d: char)
    requires c == d
    requires Split(t + [d] + b, d) == Split(t, d) + Split(b, d)
    ensures Split([c] + (t + [d] + b), d) == Split([c] + t, d) + Split(b, d)
  {
    SplitCons(c, t + [d] + b, d);
    SplitCons(c, t, d);
    assert [""] + (Split(t, d) + Split(b, d)) == ([""] + Split(t, d)) + Split(b, d);
  }

  /** Extending the first of a list of pieces commutes with appending more pieces. */
  lemma PrependToFirst(x: string, p: seq<string>, q: seq<string>)
    requires |p| > 0
    ensures [x + (p + q)[0]] + (p + q)[1..] == ([x + p[0]] + p[1..]) + q
  {
    assert (p + q)[0] == p[0] && (p + q)[1..] == p[1..] + q;
  }

  /** Join then Split gives the pieces back when none holds the delimiter. */
  lemma {:induction false} SplitJoin(parts: seq<string>, d: char)
    requires |parts| >= 1
    requires forall i :: 0 <= i < |parts| ==> d !in parts[i]
    ensures Split(Join(parts, d), d) == parts
  {
    SplitWithoutDelimiter(parts[0], d);
    if |parts| > 1 {
      SplitJoin(parts[1..], d);
      SplitAround(parts[0], Join(parts[1..], d), d);
      assert [parts[0]] + parts[1..] == parts;
    }
  }

  /** Split then Join gives the text back. */
  lemma {:induction false} JoinSplit(s: string, d: char)
    ensures Join(Split(s, d), d) == s
  {
    if |s| > 0 {
      JoinSplit(s[1..], d);
      var rest := Split(s[1..], d);
      if s[0] == d {
        assert ([""] + rest)[1..] == rest;
      } else {
        var r := [[s[0]] + rest[0]] + rest[1..];
        if |rest| > 1 {
          assert r[1..] == rest[1..];
          assert Join(rest, d) == rest[0] + [d] + Join(rest[1..], d);
        }
      }
      assert [s[0]] + s[1..] == s;
    }
  }

  /** Split yields one piece more than there are delimiters. */
  lemma {:induction false} SplitCount(s: string, d: char)
    ensures |Split(s, d)| == Occurrences(s, d) + 1
  {
    if |s| > 0 {
      SplitCount(s[1..], d);
    }
  }

  /** isBlank() holds of exactly the texts that strip() empties. */
  lemma BlankIffStripsToEmpty(s: string)
    ensures IsBlank(s) <==> Strip(s) == ""
  {
    var t := StripLeading(s);
    if |t| > 0 {
      assert t[0] == s[|s| - |t|];
      assert StripTrailing(t)[..1] == t[..1];
    }
  }

  /** Text that neither starts nor ends with whitespace is unchanged by strip(). */
  lemma StripUnchanged(s: string)
    requires NoLeadingWhitespace(s) && NoTrailingWhitespace(s)
    ensures Strip(s) == s
  {
  }

  /** Leading whitespace is removed by strip(). */
  lemma StripSkipsLeadingWhitespace(c: char, s: string)
    requires IsWhitespace(c)
    ensures Strip([c] + s) == Strip(s)
  {
    assert ([c] + s)[1..] == s;
  }
}
