/** The JavaScript string operations that markets.js relies on, as values:
    String.prototype.trim, String.prototype.split with a one-character
    separator, String.prototype.split with the regular expression /\r?\n/,
    and String.prototype.toUpperCase restricted to ASCII letters. */
module JsText {

  // ---------------------------------------------------------------------------
  // trim

  /** The code points JavaScript's trim removes: WhiteSpace (tab, vertical tab,
      form feed, space, no-break space, byte order mark and the other Zs space
      separators) and LineTerminator (LF, CR, line and paragraph separators). */
  predicate IsTrimmable(c: char) {
    c == '\t' || c == '\n' || c == '\U{000B}' || c == '\U{000C}' || c == '\r' || c == ' '
    || c == '\U{00A0}' || c == '\U{1680}' || ('\U{2000}' <= c <= '\U{200A}')
    || c == '\U{2028}' || c == '\U{2029}' || c == '\U{202F}' || c == '\U{205F}'
    || c == '\U{3000}' || c == '\U{FEFF}'
  }

  /** Every character of s is one that trim removes (the empty string included). */
  predicate Blank(s: string) {
    forall i :: 0 <= i < |s| ==> IsTrimmable(s[i])
  }

  /** Nothing for trim to remove: s is empty or starts and ends with a kept character. */
  predicate Bare(s: string) {
    |s| == 0 || (!IsTrimmable(s[0]) && !IsTrimmable(s[|s| - 1]))
  }

  /** Length of the longest blank prefix of s. */
  function LeadingBlanks(s: string): (n: nat)
    ensures n <= |s|
    ensures Blank(s[..n])
    ensures n < |s| ==> !IsTrimmable(s[n])
  {
    if |s| == 0 || !IsTrimmable(s[0]) then 0
    else
      var m := LeadingBlanks(s[1..]);
      assert forall i :: 1 <= i < 1 + m ==> s[i] == s[1..][..m][i - 1];
      1 + m
  }

  /** Length of the longest blank suffix of s. */
  function TrailingBlanks(s: string): (n: nat)
    ensures n <= |s|
    ensures Blank(s[|s| - n..])
    ensures n < |s| ==> !IsTrimmable(s[|s| - 1 - n])
  {
    if |s| == 0 || !IsTrimmable(s[|s| - 1]) then 0
    else
      var m := TrailingBlanks(s[..|s| - 1]);
      assert forall i :: |s| - 1 - m <= i < |s| - 1 ==>
        s[i] == s[..|s| - 1][|s| - 1 - m..][i - (|s| - 1 - m)];
      1 + m
  }

  /** String.prototype.trim: the result is a slice of s, with only blank
      characters cut off before and after it, and nothing left to cut. */
  function Trim(s: string): (r: string)
    ensures Bare(r)
    ensures LeadingBlanks(s) + |r| <= |s|
    ensures r == s[LeadingBlanks(s)..LeadingBlanks(s) + |r|]
    ensures Blank(s[..LeadingBlanks(s)]) && Blank(s[LeadingBlanks(s) + |r|..])
  {
    var t := s[LeadingBlanks(s)..];
    t[..|t| - TrailingBlanks(t)]
  }

  /** Trim is determined by its contract: blank padding around a bare string
      is exactly what it removes. */
  lemma {:induction false} TrimPadded(w1: string, t: string, w2: string)
    requires Blank(w1) && Bare(t) && Blank(w2)
    ensures Trim(w1 + t + w2) == t
  {
    var s := w1 + t + w2;
    if |t| == 0 {
      assert s == w1 + w2;
      BlankConcat(w1, w2);
      AllLeadingBlanks(s);
    } else {
      assert s == w1 + (t + w2);
      assert (t + w2)[0] == t[0];
      LeadingBlanksBefore(w1, t + w2);
      assert s[|w1|..] == t + w2;
      TrailingBlanksAfter(t, w2);
      assert (t + w2)[..|t|] == t;
    }
  }

  /** A blank prefix followed by a kept character is exactly the leading blanks. */
  lemma {:induction false} LeadingBlanksBefore(w: string, t: string)
    requires Blank(w) && |t| > 0 && !IsTrimmable(t[0])
    ensures LeadingBlanks(w + t) == |w|
    decreases |w|
  {
    if |w| == 0 {
      assert w + t == t;
    } else {
      assert (w + t)[1..] == w[1..] + t;
      LeadingBlanksBefore(w[1..], t);
    }
  }

  /** A blank suffix after a kept character is exactly the trailing blanks. */
  lemma {:induction false} TrailingBlanksAfter(t: string, w: string)
    requires Blank(w) && |t| > 0 && !IsTrimmable(t[|t| - 1])
    ensures TrailingBlanks(t + w) == |w|
    decreases |w|
  {
    if |w| == 0 {
      assert t + w == t;
    } else {
      assert (t + w)[..|t + w| - 1] == t + w[..|w| - 1];
      TrailingBlanksAfter(t, w[..|w| - 1]);
    }
  }

  /** A blank string is all leading blanks. */
  lemma {:induction false} AllLeadingBlanks(s: string)
    requires Blank(s)
    ensures LeadingBlanks(s) == |s|
  {
    if |s| > 0 {
      AllLeadingBlanks(s[1..]);
    }
  }

  /** The concatenation of blank strings is blank. */
  lemma BlankConcat(x: string, y: string)
    requires Blank(x) && Blank(y)
    ensures Blank(x + y)
  {
    assert forall i :: |x| <= i < |x + y| ==> (x + y)[i] == y[i - |x|];
  }

  /** Trimming twice is trimming once. */
  lemma TrimIdempotent(s: string)
    ensures Trim(Trim(s)) == Trim(s)
  {
    TrimPadded("", Trim(s), "");
    assert "" + Trim(s) + "" == Trim(s);
  }

  /** Blank padding added around any string disappears under trim. */
  lemma TrimIgnoresPadding(w1: string, s: string, w2: string)
    requires Blank(w1) && Blank(w2)
    ensures Trim(w1 + s + w2) == Trim(s)
  {
    var a := LeadingBlanks(s);
    var r := Trim(s);
    var pre, post := s[..a], s[a + |r|..];
    assert Blank(pre) && Blank(post) && Bare(r);
    SliceThree(s, a, a + |r|);
    Regroup(w1, pre, r, post, w2);
    BlankConcat(w1, pre);
    BlankConcat(post, w2);
    TrimPadded(w1 + pre, r, post + w2);
  }

  lemma SliceThree(s: string, i: nat, j: nat)
    requires i <= j <= |s|
    ensures s == s[..i] + s[i..j] + s[j..]
  {
    assert s[..i] + s[i..j] == s[..j];
  }

  lemma Regroup(a: string, b: string, c: string, d: string, e: string)
    ensures a + (b + c + d) + e == (a + b) + c + (d + e)
  {
  }

  /** A string of blanks only trims to the empty string. */
  lemma TrimBlank(s: string)
    requires Blank(s)
    ensures Trim(s) == ""
  {
    TrimPadded(s, "", "");
    assert s + "" + "" == s;
  }

  // ---------------------------------------------------------------------------
  // split on one character

  /** Number of occurrences of c in s. */
  function CountChar(s: string, c: char): nat {
    if |s| == 0 then 0 else (if s[0] == c then 1 else 0) + CountChar(s[1..], c)
  }

  /** String.prototype.split with a one-character string separator: the
      pieces between separators, always at least one, none holding sep. */
  function Split(s: string, sep: char): (parts: seq<string>)
    ensures |parts| >= 1
    ensures forall k :: 0 <= k < |parts| ==> sep !in parts[k]
    decreases |s|
  {
    if |s| == 0 then [""]
    else
      var rest := Split(s[1..], sep);
      if s[0] == sep then [""] + rest
      else [[s[0]] + rest[0]] + rest[1..]
  }

  /** Array.prototype.join with a one-character separator. */
  function Join(parts: seq<string>, sep: char): string
    requires |parts| >= 1
  {
    if |parts| == 1 then parts[0] else parts[0] + [sep] + Join(parts[1..], sep)
  }

  /** One more piece than there are separators. */
  lemma {:induction false} SplitCount(s: string, sep: char)
    ensures |Split(s, sep)| == CountChar(s, sep) + 1
  {
    if |s| > 0 {
      SplitCount(s[1..], sep);
    }
  }

  /** Joining the pieces back with the separator gives the original string. */
  lemma {:induction false} SplitThenJoin(s: string, sep: char)
    ensures Join(Split(s, sep), sep) == s
  {
    if |s| > 0 {
      var rest := Split(s[1..], sep);
      SplitThenJoin(s[1..], sep);
      if s[0] == sep {
        assert ([""] + rest)[1..] == rest;
        assert s == [sep] + s[1..];
      } else if |rest| == 1 {
        assert s == [s[0]] + s[1..];
      } else {
        var parts := Split(s, sep);
        assert parts[1..] == rest[1..];
        assert Join(rest, sep) == rest[0] + [sep] + Join(rest[1..], sep);
        assert s == [s[0]] + s[1..];
      }
    }
  }

  /** A separator-free prefix lands in the first piece. */
  lemma {:induction false} SplitPrefix(p: string, tail: string, sep: char)
    requires sep !in p
    ensures Split(p + tail, sep) == [p + Split(tail, sep)[0]] + Split(tail, sep)[1..]
  {
    if |p| == 0 {
      var rest := Split(tail, sep);
      assert p == "";
      assert p + tail == tail;
      assert p + rest[0] == rest[0];
      assert [rest[0]] + rest[1..] == rest;
    } else {
      assert (p + tail)[1..] == p[1..] + tail;
      SplitPrefix(p[1..], tail, sep);
      assert [p[0]] + (p[1..] + Split(tail, sep)[0]) == p + Split(tail, sep)[0];
    }
  }

  /** Splitting a join of separator-free pieces gives the pieces back. */
  lemma {:induction false} JoinThenSplit(parts: seq<string>, sep: char)
    requires |parts| >= 1
    requires forall k :: 0 <= k < |parts| ==> sep !in parts[k]
    ensures Split(Join(parts, sep), sep) == parts
  {
    if |parts| == 1 {
      SplitPrefix(parts[0], "", sep);
      assert Split("", sep) == [""];
      assert parts[0] + "" == parts[0];
      assert parts == [parts[0]];
    } else {
      var tail := Join(parts[1..], sep);
      JoinThenSplit(parts[1..], sep);
      assert Join(parts, sep) == parts[0] + ([sep] + tail);
      SplitPrefix(parts[0], [sep] + tail, sep);
      assert ([sep] + tail)[1..] == tail;
      var r := Split([sep] + tail, sep);
      assert r == [""] + parts[1..];
      assert parts[0] + r[0] == parts[0];
      assert r[1..] == parts[1..];
      assert parts == [parts[0]] + parts[1..];
    }
  }

  // ---------------------------------------------------------------------------
  // split on /\r?\n/

  /** String.prototype.split(/\r?\n/): scanning left to right, a line ends at
      the first LF, and a CR directly before that LF belongs to the break, not
      to the line. A CR anywhere else stays in its line. */
  function SplitLines(s: string): (lines: seq<string>)
    ensures |lines| >= 1
    ensures forall k :: 0 <= k < |lines| ==> '\n' !in lines[k]
    decreases |s|
  {
    if |s| == 0 then [""]
    else if s[0] == '\n' then [""] + SplitLines(s[1..])
    else if |s| >= 2 && s[0] == '\r' && s[1] == '\n' then [""] + SplitLines(s[2..])
    else
      var rest := SplitLines(s[1..]);
      [[s[0]] + rest[0]] + rest[1..]
  }

  /** s with one final CR removed, if it has one. */
  function DropCR(s: string): string {
    if |s| > 0 && s[|s| - 1] == '\r' then s[..|s| - 1] else s
  }

  /** Every piece but the last with its final CR dropped. */
  function DropCRs(pieces: seq<string>): seq<string>
    requires |pieces| >= 1
  {
    if |pieces| == 1 then pieces else [DropCR(pieces[0])] + DropCRs(pieces[1..])
  }

  /** An independent reading of the regular expression split: cut at every
      LF, then drop one CR from the end of each piece an LF followed. */
  lemma {:induction false} SplitLinesBySplit(s: string)
    ensures SplitLines(s) == DropCRs(Split(s, '\n'))
    decreases |s|
  {
    if |s| == 0 {
    } else if s[0] == '\n' {
      SplitLinesBySplit(s[1..]);
    } else if |s| >= 2 && s[0] == '\r' && s[1] == '\n' {
      SplitLinesBySplit(s[2..]);
      assert s[1..][1..] == s[2..];
      var tail := Split(s[2..], '\n');
      assert Split(s[1..], '\n') == [""] + tail;
      assert [s[0]] + "" == "\r";
      assert ([""] + tail)[1..] == tail;
      assert Split(s, '\n') == ["\r"] + tail;
    } else {
      SplitLinesBySplit(s[1..]);
      var c := s[0];
      var pieces := Split(s[1..], '\n');
      var rest := SplitLines(s[1..]);
      assert Split(s, '\n') == [[c] + pieces[0]] + pieces[1..];
      if |pieces| == 1 {
        assert rest == [pieces[0]];
      } else {
        assert rest == [DropCR(pieces[0])] + DropCRs(pieces[1..]);
        if |pieces[0]| == 0 {
          assert s[1] == '\n';
          assert DropCR([c] + pieces[0]) == [c];
        } else {
          assert ([c] + pieces[0])[..|[c] + pieces[0]| - 1] == [c] + pieces[0][..|pieces[0]| - 1];
          assert DropCR([c] + pieces[0]) == [c] + DropCR(pieces[0]);
        }
        assert ([[c] + pieces[0]] + pieces[1..])[1..] == pieces[1..];
      }
    }
  }

  /** One line more than there are LFs. */
  lemma {:induction false} SplitLinesCount(s: string)
    ensures |SplitLines(s)| == CountChar(s, '\n') + 1
    decreases |s|
  {
    if |s| == 0 {
    } else if s[0] == '\n' {
      SplitLinesCount(s[1..]);
    } else if |s| >= 2 && s[0] == '\r' && s[1] == '\n' {
      SplitLinesCount(s[2..]);
      assert s[1..][1..] == s[2..];
    } else {
      SplitLinesCount(s[1..]);
    }
  }

  /** The lines joined back with a line break (LF or CRLF). */
  function JoinLines(lines: seq<string>, eol: string): string
    requires |lines| >= 1
  {
    if |lines| == 1 then lines[0] else lines[0] + eol + JoinLines(lines[1..], eol)
  }

  /** An LF-free prefix lands in the first line, unless it ends in CR and an
      LF follows, in which case that CR would join the break. */
  lemma {:induction false} SplitLinesPrefix(p: string, tail: string)
    requires '\n' !in p
    requires !(|p| > 0 && p[|p| - 1] == '\r' && |tail| > 0 && tail[0] == '\n')
    ensures SplitLines(p + tail) == [p + SplitLines(tail)[0]] + SplitLines(tail)[1..]
  {
    if |p| == 0 {
      var rest := SplitLines(tail);
      assert p == "";
      assert p + tail == tail;
      assert p + rest[0] == rest[0];
      assert [rest[0]] + rest[1..] == rest;
    } else {
      var s := p + tail;
      assert s[0] == p[0];
      assert s[1..] == p[1..] + tail;
      if |p| > 1 {
        assert s[1] == p[1];
      } else {
        assert |tail| > 0 ==> s[1] == tail[0];
      }
      SplitLinesPrefix(p[1..], tail);
      assert [p[0]] + (p[1..] + SplitLines(tail)[0]) == p + SplitLines(tail)[0];
    }
  }

  /** Splitting a text joined with LF or CRLF gives its lines back, provided
      no line holds an LF and, for LF breaks, no line but the last ends in CR. */
  lemma {:induction false} JoinLinesThenSplit(lines: seq<string>, eol: string)
    requires |lines| >= 1
    requires eol == "\n" || eol == "\r\n"
    requires forall k :: 0 <= k < |lines| ==> '\n' !in lines[k]
    requires eol == "\n" ==> forall k :: 0 <= k < |lines| - 1 ==> DropCR(lines[k]) == lines[k]
    ensures SplitLines(JoinLines(lines, eol)) == lines
  {
    if |lines| == 1 {
      SplitLinesPrefix(lines[0], "");
      assert SplitLines("") == [""];
      assert lines[0] + "" == lines[0];
      assert lines == [lines[0]];
    } else {
      var tail := JoinLines(lines[1..], eol);
      JoinLinesThenSplit(lines[1..], eol);
      assert JoinLines(lines, eol) == lines[0] + (eol + tail);
      var t := eol + tail;
      if eol == "\n" {
        assert DropCR(lines[0]) == lines[0];
        SplitLinesPrefix(lines[0], t);
        assert t[1..] == tail;
      } else {
        SplitLinesPrefix(lines[0], t);
        assert t[2..] == tail;
      }
      var r := SplitLines(t);
      assert r == [""] + lines[1..];
      assert lines[0] + r[0] == lines[0];
      assert r[1..] == lines[1..];
      assert lines == [lines[0]] + lines[1..];
    }
  }

  /** s holds the three characters CR CR LF in a row. */
  predicate HasCrCrLf(s: string)
    decreases |s|
  {
    |s| >= 3 && ((s[0] == '\r' && s[1] == '\r' && s[2] == '\n') || HasCrCrLf(s[1..]))
  }

  /** The first line is empty only when the text is empty or starts with a break. */
  lemma FirstLineEmpty(t: string)
    requires SplitLines(t)[0] == ""
    ensures |t| == 0 || t[0] == '\n' || (|t| >= 2 && t[0] == '\r' && t[1] == '\n')
  {
  }

  /** A line comes out ending in CR only when the text ends in CR or holds
      CR CR LF (the regular expression eats one CR per break, not more). */
  lemma {:induction false} LinesEndWithoutCR(s: string)
    requires !HasCrCrLf(s)
    requires !(|s| > 0 && s[|s| - 1] == '\r')
    ensures forall k :: 0 <= k < |SplitLines(s)| ==> DropCR(SplitLines(s)[k]) == SplitLines(s)[k]
    decreases |s|
  {
    if |s| == 0 {
    } else if s[0] == '\n' {
      LinesEndWithoutCR(s[1..]);
    } else if |s| >= 2 && s[0] == '\r' && s[1] == '\n' {
      assert !HasCrCrLf(s[1..]);
      assert s[1..][1..] == s[2..];
      LinesEndWithoutCR(s[2..]);
    } else {
      LinesEndWithoutCR(s[1..]);
      var rest := SplitLines(s[1..]);
      var first := [s[0]] + rest[0];
      if |rest[0]| == 0 {
        FirstLineEmpty(s[1..]);
        assert s[0] != '\r';
      } else {
        assert first[|first| - 1] == rest[0][|rest[0]| - 1];
        assert first[..|first| - 1] == [s[0]] + rest[0][..|rest[0]| - 1];
      }
    }
  }

  /** The converse: CR CR LF anywhere leaves some line ending in CR, because
      at the first CR the pattern cannot match (an LF does not follow), so
      that CR stays in its line. */
  lemma {:induction false} LinesKeepCR(s: string)
    requires HasCrCrLf(s)
    ensures exists k :: 0 <= k < |SplitLines(s)| && DropCR(SplitLines(s)[k]) != SplitLines(s)[k]
    decreases |s|
  {
    var lines := SplitLines(s);
    if s[0] == '\r' && s[1] == '\r' && s[2] == '\n' {
      assert s[1..][0] == '\r' && s[1..][1] == '\n';
      assert SplitLines(s[1..])[0] == "";
      assert lines[0] == "\r";
      assert DropCR(lines[0]) == "";
    } else if s[0] == '\n' {
      LinesKeepCR(s[1..]);
      var k :| 0 <= k < |SplitLines(s[1..])| && DropCR(SplitLines(s[1..])[k]) != SplitLines(s[1..])[k];
      assert lines[k + 1] == SplitLines(s[1..])[k];
    } else if |s| >= 2 && s[0] == '\r' && s[1] == '\n' {
      assert s[1..][1..] == s[2..];
      LinesKeepCR(s[2..]);
      var k :| 0 <= k < |SplitLines(s[2..])| && DropCR(SplitLines(s[2..])[k]) != SplitLines(s[2..])[k];
      assert lines[k + 1] == SplitLines(s[2..])[k];
    } else {
      LinesKeepCR(s[1..]);
      var rest := SplitLines(s[1..]);
      var k :| 0 <= k < |rest| && DropCR(rest[k]) != rest[k];
      if k > 0 {
        assert lines[k] == rest[k];
      } else {
        var first := [s[0]] + rest[0];
        assert lines[0] == first;
        assert first[|first| - 1] == rest[0][|rest[0]| - 1];
        assert |DropCR(first)| < |first|;
      }
    }
  }

  // ---------------------------------------------------------------------------
  // upper-casing

  predicate IsAsciiLower(c: char) {
    'a' <= c <= 'z'
  }

  /** toUpperCase on one character, for the ASCII letters only. */
  function UpperChar(c: char): char {
    if IsAsciiLower(c) then (c as int - 32) as char else c
  }

  /** String.prototype.toUpperCase restricted to ASCII: each lower-case ASCII
      letter becomes its capital, every other character is kept. */
  function AsciiUpper(s: string): (u: string)
    ensures |u| == |s|
    ensures forall i :: 0 <= i < |s| ==> !IsAsciiLower(u[i])
    ensures forall i :: 0 <= i < |s| && !IsAsciiLower(s[i]) ==> u[i] == s[i]
    ensures forall i :: 0 <= i < |s| && IsAsciiLower(s[i]) ==> u[i] as int == s[i] as int - 32
  {
    if |s| == 0 then "" else [UpperChar(s[0])] + AsciiUpper(s[1..])
  }

  /** A string without lower-case ASCII letters is its own upper case, so
      upper-casing is idempotent. */
  lemma AsciiUpperFixes(s: string)
    requires forall i :: 0 <= i < |s| ==> !IsAsciiLower(s[i])
    ensures AsciiUpper(s) == s
  {
  }

  lemma AsciiUpperIdempotent(s: string)
    ensures AsciiUpper(AsciiUpper(s)) == AsciiUpper(s)
  {
    AsciiUpperFixes(AsciiUpper(s));
  }
}
