/** The handful of Python `str` operations the system relies on, stated over
    `seq<char>`: whitespace stripping and splitting, joining, substring search,
    replacement, occurrence counting and `repr`. */
module PyText {

  /** Python's `str.isspace` for a single character. */
  predicate IsSpace(c: char) {
    || c == ' '
    || ('\t' <= c <= '\r')
    || ('\U{1c}' <= c <= '\U{1f}')
    || c == '\U{85}' || c == '\U{a0}' || c == '\U{1680}'
    || ('\U{2000}' <= c <= '\U{200a}')
    || c == '\U{2028}' || c == '\U{2029}' || c == '\U{202f}' || c == '\U{205f}' || c == '\U{3000}'
  }

  // ---------------------------------------------------------------------------
  // strip

  /** Index of the first character at or after `i` that `drop` keeps. */
  function LeadingEnd(s: string, drop: char -> bool, i: nat): (n: nat)
    requires i <= |s|
    ensures i <= n <= |s|
    ensures forall k :: i <= k < n ==> drop(s[k])
    ensures n == |s| || !drop(s[n])
    decreases |s| - i
  {
    if i < |s| && drop(s[i]) then LeadingEnd(s, drop, i + 1) else i
  }

  /** Index just past the last character before `j`, and at or after `lo`,
      that `drop` keeps (or `lo` if there is none). */
  function TrailingStart(s: string, drop: char -> bool, lo: nat, j: nat): (m: nat)
    requires lo <= j <= |s|
    ensures lo <= m <= j
    ensures forall k :: m <= k < j ==> drop(s[k])
    ensures m == lo || !drop(s[m - 1])
    decreases j
  {
    if j > lo && drop(s[j - 1]) then TrailingStart(s, drop, lo, j - 1) else j
  }

  /** Python's `s.strip(chars)`, `drop` telling which characters are in `chars`:
      the slice of `s` left after removing dropped characters at both ends. */
  function Trim(s: string, drop: char -> bool): (r: string)
    ensures var i := LeadingEnd(s, drop, 0);
      && i + |r| <= |s|
      && r == s[i..i + |r|]
      && (forall k :: 0 <= k < i ==> drop(s[k]))
      && (forall k :: i + |r| <= k < |s| ==> drop(s[k]))
    ensures |r| == 0 || (!drop(r[0]) && !drop(r[|r| - 1]))
  {
    var i := LeadingEnd(s, drop, 0);
    var j := TrailingStart(s, drop, i, |s|);
    s[i..j]
  }

  /** `Trim` is the only slice whose outside is all dropped characters and
      whose ends are kept ones. */
  lemma TrimIs(s: string, drop: char -> bool, i: nat, j: nat)
    requires i <= j <= |s|
    requires forall k :: 0 <= k < i ==> drop(s[k])
    requires forall k :: j <= k < |s| ==> drop(s[k])
    requires i < j ==> !drop(s[i]) && !drop(s[j - 1])
    ensures Trim(s, drop) == s[i..j]
  {
    var n := LeadingEnd(s, drop, 0);
    var r := Trim(s, drop);
    if i < j {
      assert n == i;
      assert |r| == j - i;
    } else {
      assert forall k :: 0 <= k < |s| ==> drop(s[k]);
      assert |r| == 0;
    }
  }

  /** Python's `s.strip()`. */
  function Strip(s: string): string {
    Trim(s, IsSpace)
  }

  // ---------------------------------------------------------------------------
  // split and join

  /** A maximal run of non-whitespace, as produced by `str.split()`. */
  predicate IsWord(w: string) {
    |w| > 0 && forall k :: 0 <= k < |w| ==> !IsSpace(w[k])
  }

  /** End of the non-whitespace run of `s` that covers `s[..i]`. */
  function WordEnd(s: string, i: nat): (n: nat)
    requires 0 < i <= |s|
    requires forall k :: 0 <= k < i ==> !IsSpace(s[k])
    ensures i <= n <= |s|
    ensures forall k :: 0 <= k < n ==> !IsSpace(s[k])
    ensures n == |s| || IsSpace(s[n])
    decreases |s| - i
  {
    if i == |s| || IsSpace(s[i]) then i else WordEnd(s, i + 1)
  }

  /** Python's `s.split()` with no separator. */
  function Words(s: string): (ws: seq<string>)
    ensures forall k :: 0 <= k < |ws| ==> IsWord(ws[k])
    decreases |s|
  {
    if |s| == 0 then []
    else if IsSpace(s[0]) then Words(s[1..])
    else
      var n := WordEnd(s, 1);
      [s[..n]] + Words(s[n..])
  }

  /** Python's `sep.join(ws)`. */
  function Join(ws: seq<string>, sep: string): string {
    if |ws| == 0 then ""
    else if |ws| == 1 then ws[0]
    else ws[0] + sep + Join(ws[1..], sep)
  }

  /** `' '.join(s.split())`: whitespace runs collapsed to one space, ends trimmed. */
  function Normalize(s: string): string {
    Join(Words(s), " ")
  }

  /** No whitespace at either end, and every inner whitespace character is a
      single ' ' between two non-whitespace characters. */
  predicate Collapsed(r: string) {
    && (|r| == 0 || (!IsSpace(r[0]) && !IsSpace(r[|r| - 1])))
    && forall k :: 0 <= k < |r| && IsSpace(r[k]) ==>
         r[k] == ' ' && 0 < k < |r| - 1 && !IsSpace(r[k - 1]) && !IsSpace(r[k + 1])
  }

  /** The run end is the first whitespace position (or the end of `s`). */
  lemma {:induction false} WordEndAt(s: string, i: nat, m: nat)
    requires 0 < i <= m <= |s|
    requires forall k :: 0 <= k < m ==> !IsSpace(s[k])
    requires m == |s| || IsSpace(s[m])
    ensures WordEnd(s, i) == m
    decreases m - i
  {
    if i < m {
      WordEndAt(s, i + 1, m);
    }
  }

  /** A word followed by whitespace (or nothing) splits off as the first word. */
  lemma WordThenBreak(w: string, t: string)
    requires IsWord(w)
    requires |t| == 0 || IsSpace(t[0])
    ensures Words(w + t) == [w] + Words(t)
  {
    var s := w + t;
    assert s[0] == w[0];
    WordEndAt(s, 1, |w|);
    var n := WordEnd(s, 1);
    assert s[..n] == w;
    assert s[n..] == t;
  }

  /** Splitting a space-joined list of words gives the words back. */
  lemma {:induction false} WordsOfJoin(ws: seq<string>)
    requires forall k :: 0 <= k < |ws| ==> IsWord(ws[k])
    ensures Words(Join(ws, " ")) == ws
    decreases |ws|
  {
    if |ws| == 0 {
    } else if |ws| == 1 {
      WordThenBreak(ws[0], "");
      assert ws[0] + "" == ws[0];
    } else {
      var j := Join(ws[1..], " ");
      assert Join(ws, " ") == ws[0] + (" " + j);
      WordThenBreak(ws[0], " " + j);
      assert (" " + j)[1..] == j;
      WordsOfJoin(ws[1..]);
      assert ws == [ws[0]] + ws[1..];
    }
  }

  /** Joining words with single spaces gives collapsed text, empty exactly when
      there are no words. */
  lemma {:induction false} JoinWordsCollapsed(ws: seq<string>)
    requires forall k :: 0 <= k < |ws| ==> IsWord(ws[k])
    ensures Collapsed(Join(ws, " "))
    ensures |Join(ws, " ")| == 0 <==> |ws| == 0
    decreases |ws|
  {
    if |ws| >= 2 {
      var w := ws[0];
      var j := Join(ws[1..], " ");
      JoinWordsCollapsed(ws[1..]);
      var r := w + " " + j;
      assert Join(ws, " ") == r;
      assert r[|r| - 1] == j[|j| - 1];
      forall k | 0 <= k < |r| && IsSpace(r[k])
        ensures r[k] == ' ' && 0 < k < |r| - 1 && !IsSpace(r[k - 1]) && !IsSpace(r[k + 1])
      {
        if k == |w| {
          assert r[k - 1] == w[|w| - 1];
          assert r[k + 1] == j[0];
        } else {
          var k' := k - |w| - 1;
          assert r[k] == j[k'];
          assert r[k + 1] == j[k' + 1];
          if k' == 0 {
            assert false;
          }
          assert r[k - 1] == j[k' - 1];
        }
      }
    }
  }

  /** Normalised text is collapsed. */
  lemma NormalizeCollapsed(s: string)
    ensures Collapsed(Normalize(s))
  {
    JoinWordsCollapsed(Words(s));
  }

  /** Normalising keeps the words and so is idempotent. */
  lemma NormalizeIdempotent(s: string)
    ensures Words(Normalize(s)) == Words(s)
    ensures Normalize(Normalize(s)) == Normalize(s)
  {
    WordsOfJoin(Words(s));
  }

  // ---------------------------------------------------------------------------
  // substring search

  /** Python's `p in s` for strings. */
  predicate Contains(s: string, p: string) {
    p <= s || (|s| > 0 && Contains(s[1..], p))
  }

  lemma {:induction false} ContainsInRight(a: string, b: string, p: string)
    requires Contains(b, p)
    ensures Contains(a + b, p)
    decreases |a|
  {
    if |a| > 0 {
      assert (a + b)[1..] == a[1..] + b;
      ContainsInRight(a[1..], b, p);
    } else {
      assert a + b == b;
    }
  }

  lemma {:induction false} ContainsInLeft(a: string, b: string, p: string)
    requires Contains(a, p)
    ensures Contains(a + b, p)
    decreases |a|
  {
    if p <= a {
      assert (a + b)[..|p|] == a[..|p|];
    } else {
      assert (a + b)[1..] == a[1..] + b;
      ContainsInLeft(a[1..], b, p);
    }
  }

  /** A string found in a slice of `s` is found in `s`. */
  lemma ContainsInSlice(s: string, i: nat, j: nat, p: string)
    requires i <= j <= |s|
    requires Contains(s[i..j], p)
    ensures Contains(s, p)
  {
    ContainsInLeft(s[i..j], s[j..], p);
    assert s[i..j] + s[j..] == s[i..];
    ContainsInRight(s[..i], s[i..], p);
    assert s[..i] + s[i..] == s;
  }

  /** Every word of `s` is a substring of `s`. */
  lemma {:induction false} WordsInText(s: string)
    ensures forall k :: 0 <= k < |Words(s)| ==> Contains(s, Words(s)[k])
    decreases |s|
  {
    if |s| == 0 {
    } else if IsSpace(s[0]) {
      WordsInText(s[1..]);
      assert s[1..|s|] == s[1..];
      assert Words(s) == Words(s[1..]);
      forall k | 0 <= k < |Words(s)|
        ensures Contains(s, Words(s)[k])
      {
        ContainsInSlice(s, 1, |s|, Words(s)[k]);
      }
    } else {
      var n := WordEnd(s, 1);
      WordsInText(s[n..]);
      assert s[n..|s|] == s[n..];
      forall k | 0 <= k < |Words(s)|
        ensures Contains(s, Words(s)[k])
      {
        if k == 0 {
          assert Words(s)[0] == s[..n];
        } else {
          assert Words(s)[k] == Words(s[n..])[k - 1];
          ContainsInSlice(s, n, |s|, Words(s)[k]);
        }
      }
    }
  }

  // ---------------------------------------------------------------------------
  // replace and count

  /** Python's `s.replace(from, to)` for one-character strings. */
  function ReplaceChar(s: string, from: char, to: char): (r: string)
    ensures |r| == |s|
    ensures forall k :: 0 <= k < |s| ==> r[k] == if s[k] == from then to else s[k]
  {
    if |s| == 0 then ""
    else [if s[0] == from then to else s[0]] + ReplaceChar(s[1..], from, to)
  }

  /** Python's `s.replace(p, "")`: occurrences of `p` are removed in one
      left-to-right scan, without overlap. */
  function RemoveAll(s: string, p: string): string
    requires |p| > 0
    decreases |s|
  {
    if |s| == 0 then ""
    else if p <= s then RemoveAll(s[|p|..], p)
    else [s[0]] + RemoveAll(s[1..], p)
  }

  /** A text in which `p` starts nowhere is left as it is. */
  lemma {:induction false} RemoveAllAbsent(s: string, p: string)
    requires |p| > 0
    requires forall k :: 0 <= k < |s| ==> !(p <= s[k..])
    ensures RemoveAll(s, p) == s
    decreases |s|
  {
    if |s| > 0 {
      assert s[0..] == s;
      assert forall k :: 0 <= k < |s| - 1 ==> s[1..][k..] == s[k + 1..];
      RemoveAllAbsent(s[1..], p);
    }
  }

  /** A leading part without the first character of `p` is kept, and removal
      carries on after it. */
  lemma {:induction false} RemoveAllAfterFree(m: string, q: string, p: string)
    requires |p| > 0 && p[0] !in m
    ensures RemoveAll(m + q, p) == m + RemoveAll(q, p)
    decreases |m|
  {
    if |m| > 0 {
      assert (m + q)[0] == m[0];
      assert (m + q)[1..] == m[1..] + q;
      RemoveAllAfterFree(m[1..], q, p);
    } else {
      assert m + q == q;
    }
  }

  /** Number of positions at which `p` occurs in `s`. */
  function Count(s: string, p: string): nat
    requires |p| > 0
    decreases |s|
  {
    if |s| < |p| then 0
    else (if p <= s then 1 else 0) + Count(s[1..], p)
  }

  /** A string lacking the first character of `p` holds no occurrence of it. */
  lemma {:induction false} CountAbsent(s: string, p: string)
    requires |p| > 0 && p[0] !in s
    ensures Count(s, p) == 0
    decreases |s|
  {
    if |s| >= |p| {
      assert s[0] in s;
      assert s[1..] <= s[1..];
      assert forall c :: c in s[1..] ==> c in s;
      CountAbsent(s[1..], p);
    }
  }

  /** Occurrences add up over a concatenation when the characters on both
      sides of the seam cannot be part of one occurrence. */
  lemma {:induction false} CountConcat(a: string, b: string, p: string)
    requires |p| > 0
    requires (|a| > 0 && a[|a| - 1] !in p) || (|b| > 0 && b[0] !in p)
    ensures Count(a + b, p) == Count(a, p) + Count(b, p)
    decreases |a|
  {
    if |a| == 0 {
      assert a + b == b;
    } else {
      var s := a + b;
      assert s[1..] == a[1..] + b;
      if |a| == 1 {
        assert s[1..] == b;
      } else {
        assert a[1..][|a| - 2] == a[|a| - 1];
        CountConcat(a[1..], b, p);
        assert Count(s, p) == (if p <= s then 1 else 0) + Count(s[1..], p);
        if |a| >= |p| {
          assert s[..|p|] == a[..|p|];
          assert Count(a, p) == (if p <= a then 1 else 0) + Count(a[1..], p);
        } else {
          assert Count(a[1..], p) == 0;
          if |b| > 0 && |p| <= |s| {
            assert s[|a| - 1] == a[|a| - 1] && s[|a|] == b[0];
            assert p[|a| - 1] in p && p[|a|] in p;
          }
        }
      }
    }
  }

  // ---------------------------------------------------------------------------
  // repr

  function HexDigit(n: nat): char
    requires n < 16
  {
    "0123456789abcdef"[n]
  }

  /** One character as Python's `repr` writes it inside `quote` quotes. Only
      the Latin-1 range is escaped as Python does; see the README. */
  function EscapeChar(c: char, quote: char): string {
    if c == quote || c == '\\' then ['\\', c]
    else if c == '\t' then "\\t"
    else if c == '\n' then "\\n"
    else if c == '\r' then "\\r"
    else if c < ' ' || ('\U{7f}' <= c <= '\U{a0}') || c == '\U{ad}' then
      "\\x" + [HexDigit(c as int / 16), HexDigit(c as int % 16)]
    else [c]
  }

  function EscapeAll(s: string, quote: char): string {
    if |s| == 0 then "" else EscapeChar(s[0], quote) + EscapeAll(s[1..], quote)
  }

  /** Python's `repr` of a string: single quotes unless the text holds a single
      quote and no double quote. */
  function PyRepr(s: string): string {
    var quote := if '\'' in s && '"' !in s then '"' else '\'';
    [quote] + EscapeAll(s, quote) + [quote]
  }

  /** Python's `str(list_of_strings)`. */
  function ListRepr(xs: seq<string>): string {
    "[" + Join(ReprEach(xs), ", ") + "]"
  }

  function ReprEach(xs: seq<string>): (r: seq<string>)
    ensures |r| == |xs|
    ensures forall k :: 0 <= k < |xs| ==> r[k] == PyRepr(xs[k])
  {
    if |xs| == 0 then [] else [PyRepr(xs[0])] + ReprEach(xs[1..])
  }

  /** Text without quotes, backslashes or escaped characters is written as is. */
  lemma {:induction false} EscapePlain(s: string, quote: char)
    requires forall k :: 0 <= k < |s| ==> EscapeChar(s[k], quote) == [s[k]]
    ensures EscapeAll(s, quote) == s
    decreases |s|
  {
    if |s| > 0 {
      EscapePlain(s[1..], quote);
    }
  }

  /** Where the `i`-th part starts in `Join(xs, sep)`. */
  function JoinOffset(xs: seq<string>, sep: string, i: nat): nat
    requires i < |xs|
  {
    if i == 0 then 0 else |xs[0]| + |sep| + JoinOffset(xs[1..], sep, i - 1)
  }

  /** Each part of a join sits at its offset, and the offsets increase. */
  lemma {:induction false} JoinPartAt(xs: seq<string>, sep: string, i: nat)
    requires i < |xs|
    ensures JoinOffset(xs, sep, i) + |xs[i]| <= |Join(xs, sep)|
    ensures Join(xs, sep)[JoinOffset(xs, sep, i)..JoinOffset(xs, sep, i) + |xs[i]|] == xs[i]
    ensures i + 1 < |xs| ==> JoinOffset(xs, sep, i) + |xs[i]| + |sep| == JoinOffset(xs, sep, i + 1)
    decreases i
  {
    if |xs| == 1 {
    } else if i == 0 {
      assert Join(xs, sep) == xs[0] + (sep + Join(xs[1..], sep));
    } else {
      JoinPartAt(xs[1..], sep, i - 1);
      var rest := Join(xs[1..], sep);
      var pre := xs[0] + sep;
      assert Join(xs, sep) == pre + rest;
      assert xs[1..][i - 1] == xs[i];
      var o := JoinOffset(xs[1..], sep, i - 1);
      assert (pre + rest)[|pre| + o..|pre| + o + |xs[i]|] == rest[o..o + |xs[i]|];
    }
  }

  /** Between part `i` and part `i + 1` of a join sits exactly the separator. */
  lemma {:induction false} JoinSepAt(xs: seq<string>, sep: string, i: nat)
    requires i + 1 < |xs|
    ensures JoinOffset(xs, sep, i) + |xs[i]| + |sep| <= |Join(xs, sep)|
    ensures Join(xs, sep)[JoinOffset(xs, sep, i) + |xs[i]|..JoinOffset(xs, sep, i) + |xs[i]| + |sep|] == sep
    decreases i
  {
    var rest := Join(xs[1..], sep);
    assert Join(xs, sep) == xs[0] + sep + rest;
    if i == 0 {
      assert (xs[0] + sep + rest)[|xs[0]|..|xs[0]| + |sep|] == sep;
    } else {
      JoinSepAt(xs[1..], sep, i - 1);
      var pre := xs[0] + sep;
      assert xs[1..][i - 1] == xs[i];
      var o := JoinOffset(xs[1..], sep, i - 1) + |xs[i]|;
      assert (pre + rest)[|pre| + o..|pre| + o + |sep|] == rest[o..o + |sep|];
    }
  }

  /** A join ends with its last part. */
  lemma {:induction false} JoinLength(xs: seq<string>, sep: string)
    requires |xs| > 0
    ensures |Join(xs, sep)| == JoinOffset(xs, sep, |xs| - 1) + |xs[|xs| - 1]|
    decreases |xs|
  {
    if |xs| > 1 {
      JoinLength(xs[1..], sep);
      assert xs[1..][|xs| - 2] == xs[|xs| - 1];
    }
  }
}
