/**
 * Python string primitives the scheduling core relies on: `str.isspace`,
 * `str.lower`, `str.strip`, `str.split()`, the substring test `in`,
 * `str.isdigit` filtering and decimal rendering of integers, plus the SQL
 * `LIKE` pattern test that `ilike` compiles to.
 *
 * Letters, digits and case mapping are ASCII; whitespace is the full set of
 * characters for which `str.isspace()` holds.
 */
module Text {

  /** `str.isspace()` for one character (also what `\s` matches in `re`). */
  predicate IsSpace(c: char)
  {
    c == ' ' || '\t' <= c <= '\r' || '\U{1c}' <= c <= '\U{1f}' ||
    c == '\U{85}' || c == '\U{a0}' || c == '\U{1680}' ||
    '\U{2000}' <= c <= '\U{200a}' || c == '\U{2028}' || c == '\U{2029}' ||
    c == '\U{202f}' || c == '\U{205f}' || c == '\U{3000}'
  }

  predicate IsDigit(c: char) { '0' <= c <= '9' }
  predicate IsUpper(c: char) { 'A' <= c <= 'Z' }
  predicate IsLower(c: char) { 'a' <= c <= 'z' }
  predicate IsLetter(c: char) { IsUpper(c) || IsLower(c) }

  /** A regex word character (`\w`). */
  predicate IsWordChar(c: char) { IsLetter(c) || IsDigit(c) || c == '_' }

  function LowerChar(c: char): (r: char)
    ensures IsLetter(c) ==> IsLower(r) && UpperChar(r) == UpperChar(c)
    ensures !IsLetter(c) ==> r == c
    ensures IsLetter(r) == IsLetter(c)
  {
    if IsUpper(c) then (c as int + 32) as char else c
  }

  function UpperChar(c: char): (r: char)
    ensures IsLetter(c) ==> IsUpper(r)
    ensures !IsLetter(c) ==> r == c
    ensures IsLetter(r) == IsLetter(c)
  {
    if IsLower(c) then (c as int - 32) as char else c
  }

  /** `s.lower()` */
  function Lower(s: string): (r: string)
    ensures |r| == |s|
    ensures forall i :: 0 <= i < |s| ==> r[i] == LowerChar(s[i])
  {
    seq(|s|, i requires 0 <= i < |s| => LowerChar(s[i]))
  }

  predicate NoSpace(s: string)
  {
    forall i :: 0 <= i < |s| ==> !IsSpace(s[i])
  }

  /** `s.lstrip()` */
  function TrimStart(s: string): (r: string)
    ensures |r| <= |s| && r == s[|s| - |r|..]
    ensures forall i :: 0 <= i < |s| - |r| ==> IsSpace(s[i])
    ensures r == [] || !IsSpace(r[0])
  {
    if s != [] && IsSpace(s[0]) then TrimStart(s[1..]) else s
  }

  /** `s.rstrip()` */
  function TrimEnd(s: string): (r: string)
    ensures |r| <= |s| && r == s[..|r|]
    ensures forall i :: |r| <= i < |s| ==> IsSpace(s[i])
    ensures r == [] || !IsSpace(r[|r| - 1])
  {
    if s != [] && IsSpace(s[|s| - 1]) then TrimEnd(s[..|s| - 1]) else s
  }

  /** `s.strip()` */
  function Strip(s: string): (r: string)
    ensures r == [] || (!IsSpace(r[0]) && !IsSpace(r[|r| - 1]))
  {
    TrimEnd(TrimStart(s))
  }

  /** Stripping an all-whitespace string leaves nothing, and only such strings. */
  lemma {:induction false} StripEmptyIffBlank(s: string)
    ensures Strip(s) == [] <==> forall i :: 0 <= i < |s| ==> IsSpace(s[i])
  {
    if Strip(s) != [] {
      var t := TrimStart(s);
      var u := TrimEnd(t);
      assert u == t[..|u|] && t == s[|s| - |t|..];
      assert !IsSpace(s[|s| - |t|]);
    }
  }

  lemma {:induction false} StripUnchanged(s: string)
    requires s != [] && !IsSpace(s[0]) && !IsSpace(s[|s| - 1])
    ensures Strip(s) == s
  {
  }

  /** Index of the first whitespace character of `s`, or `|s|`. */
  function WordEnd(s: string): (k: nat)
    ensures k <= |s|
    ensures NoSpace(s[..k])
    ensures k < |s| ==> IsSpace(s[k])
    ensures s != [] && !IsSpace(s[0]) ==> k > 0
  {
    if s == [] || IsSpace(s[0]) then 0
    else
      var k := 1 + WordEnd(s[1..]);
      assert s[..k] == [s[0]] + s[1..][..k - 1];
      k
  }

  /** `s.split()` with no separator: the maximal runs of non-whitespace. */
  function Split(s: string): (ws: seq<string>)
    ensures forall i :: 0 <= i < |ws| ==> ws[i] != [] && NoSpace(ws[i])
    decreases |s|
  {
    if s == [] then []
    else if IsSpace(s[0]) then Split(s[1..])
    else
      var k := WordEnd(s);
      [s[..k]] + Split(s[k..])
  }

  /** `" ".join(ws)` */
  function JoinWords(ws: seq<string>): string
    decreases |ws|
  {
    if ws == [] then []
    else if |ws| == 1 then ws[0]
    else ws[0] + " " + JoinWords(ws[1..])
  }

  /**
   * How `split()` sees one more character in front: whitespace is skipped,
   * and a non-whitespace character starts a word of its own or joins the
   * first word when that word starts right after it.
   */
  lemma {:induction false} SplitCons(c: char, x: string)
    ensures IsSpace(c) ==> Split([c] + x) == Split(x)
    ensures !IsSpace(c) && (x == [] || IsSpace(x[0])) ==> Split([c] + x) == [[c]] + Split(x)
    ensures !IsSpace(c) && x != [] && !IsSpace(x[0]) ==>
              Split(x) != [] && Split([c] + x) == [[c] + Split(x)[0]] + Split(x)[1..]
  {
    var s := [c] + x;
    assert s[1..] == x;
    if !IsSpace(c) {
      var k := WordEnd(s);
      var j := WordEnd(x);
      assert k == 1 + j;
      assert s[..k] == [c] + x[..j];
      assert s[k..] == x[j..];
    }
  }

  /** Texts with the same words that agree on starting with whitespace keep the same words under one more leading character. */
  lemma {:induction false} SplitConsSame(c: char, x: string, y: string)
    requires Split(x) == Split(y)
    requires (x == [] || IsSpace(x[0])) <==> (y == [] || IsSpace(y[0]))
    ensures Split([c] + x) == Split([c] + y)
  {
    SplitCons(c, x);
    SplitCons(c, y);
  }

  /** A word followed by nothing or by whitespace is split off whole. */
  lemma {:induction false} SplitWordThen(w: string, x: string)
    requires w != [] && NoSpace(w)
    requires x == [] || IsSpace(x[0])
    ensures Split(w + x) == [w] + Split(x)
    decreases |w|
  {
    if |w| == 1 {
      assert w + x == [w[0]] + x && w == [w[0]];
      SplitCons(w[0], x);
    } else {
      var rest := w[1..];
      assert w + x == [w[0]] + (rest + x);
      SplitWordThen(rest, x);
      SplitCons(w[0], rest + x);
      assert [w[0]] + rest == w;
    }
  }

  /** `" ".join(ws).split() == ws` for non-empty words without whitespace. */
  lemma {:induction false} SplitJoin(ws: seq<string>)
    requires forall i :: 0 <= i < |ws| ==> ws[i] != [] && NoSpace(ws[i])
    ensures Split(JoinWords(ws)) == ws
    decreases |ws|
  {
    if |ws| == 1 {
      SplitWordThen(ws[0], []);
      assert ws[0] + [] == ws[0];
    } else if |ws| > 1 {
      var rest := JoinWords(ws[1..]);
      assert JoinWords(ws) == ws[0] + ([' '] + rest);
      SplitWordThen(ws[0], [' '] + rest);
      SplitCons(' ', rest);
      SplitJoin(ws[1..]);
      assert ws == [ws[0]] + ws[1..];
    }
  }

  /** Whitespace in front of a text does not change its words. */
  lemma {:induction false} SplitAfterSpaces(pre: string, x: string)
    requires forall i :: 0 <= i < |pre| ==> IsSpace(pre[i])
    ensures Split(pre + x) == Split(x)
    decreases |pre|
  {
    if pre != [] {
      assert pre + x == [pre[0]] + (pre[1..] + x);
      SplitCons(pre[0], pre[1..] + x);
      SplitAfterSpaces(pre[1..], x);
    } else {
      assert pre + x == x;
    }
  }

  /** Whitespace after a text does not change its words. */
  lemma {:induction false} SplitBeforeSpaces(x: string, post: string)
    requires forall i :: 0 <= i < |post| ==> IsSpace(post[i])
    ensures Split(x + post) == Split(x)
    decreases |x|
  {
    if x == [] {
      assert x + post == post + [];
      SplitAfterSpaces(post, []);
    } else {
      var rest := x[1..];
      assert x + post == [x[0]] + (rest + post) && x == [x[0]] + rest;
      SplitBeforeSpaces(rest, post);
      SplitCons(x[0], rest + post);
      SplitCons(x[0], rest);
      if rest == [] && post != [] {
        assert (rest + post)[0] == post[0];
      } else if rest != [] {
        assert (rest + post)[0] == rest[0];
      }
    }
  }

  /** Leading whitespace removed by `lstrip()` does not change the words. */
  lemma {:induction false} SplitTrimStart(s: string)
    ensures Split(TrimStart(s)) == Split(s)
  {
    var t := TrimStart(s);
    var pre := s[..|s| - |t|];
    assert s == pre + t;
    SplitAfterSpaces(pre, t);
  }

  /** Trailing whitespace removed by `rstrip()` does not change the words. */
  lemma {:induction false} SplitTrimEnd(t: string)
    ensures Split(TrimEnd(t)) == Split(t)
  {
    var u := TrimEnd(t);
    var post := t[|u|..];
    assert t == u + post;
    SplitBeforeSpaces(u, post);
  }

  /** A text is what comes before position `k`, the character there, and what follows. */
  lemma CutAt(s: string, k: nat)
    requires k < |s|
    ensures s == s[..k] + ([s[k]] + s[k + 1..])
  {
    assert s[k..] == [s[k]] + s[k + 1..];
    assert s == s[..k] + s[k..];
  }

  /** Stripping does not change the words. */
  lemma {:induction false} SplitStrip(s: string)
    ensures Split(Strip(s)) == Split(s)
  {
    SplitTrimStart(s);
    SplitTrimEnd(TrimStart(s));
  }

  /** Lower-casing distributes over concatenation. */
  lemma LowerAppend(a: string, b: string)
    ensures Lower(a + b) == Lower(a) + Lower(b)
  {
    assert forall i :: 0 <= i < |a + b| ==> Lower(a + b)[i] == (Lower(a) + Lower(b))[i];
  }

  /** Lower-casing a word keeps it a non-empty word. */
  lemma LowerNoSpace(w: string)
    requires w != [] && NoSpace(w)
    ensures Lower(w) != [] && NoSpace(Lower(w))
  {
    forall j | 0 <= j < |w|
      ensures !IsSpace(Lower(w)[j])
    {
      assert !IsSpace(w[j]);
    }
  }

  /** `[w.lower() for w in ws]` */
  function LowerAll(ws: seq<string>): (r: seq<string>)
    ensures |r| == |ws| && forall i :: 0 <= i < |ws| ==> r[i] == Lower(ws[i])
  {
    seq(|ws|, i requires 0 <= i < |ws| => Lower(ws[i]))
  }

  /** Lower-casing each word of a joined text is lower-casing the text. */
  lemma {:induction false} LowerJoin(ws: seq<string>)
    ensures Lower(JoinWords(ws)) == JoinWords(LowerAll(ws))
    decreases |ws|
  {
    if |ws| > 1 {
      LowerJoin(ws[1..]);
      assert LowerAll(ws)[1..] == LowerAll(ws[1..]);
      LowerAppend(ws[0] + " ", JoinWords(ws[1..]));
      LowerAppend(ws[0], " ");
    }
  }

  /** `needle` occurs in `hay` starting at position `i`. */
  predicate OccursAt(needle: string, hay: string, i: int)
  {
    0 <= i && i + |needle| <= |hay| && hay[i..i + |needle|] == needle
  }

  /** Python's `needle in hay` on strings. */
  predicate Contains(hay: string, needle: string)
  {
    exists i | 0 <= i <= |hay| :: OccursAt(needle, hay, i)
  }

  /** `"".join(filter(str.isdigit, s))` */
  function ExtractDigits(s: string): (r: string)
    ensures |r| <= |s|
    ensures forall i :: 0 <= i < |r| ==> IsDigit(r[i])
    ensures (forall i :: 0 <= i < |s| ==> IsDigit(s[i])) ==> r == s
  {
    if s == [] then []
    else if IsDigit(s[0]) then [s[0]] + ExtractDigits(s[1..])
    else ExtractDigits(s[1..])
  }

  predicate AllDigits(s: string)
  {
    forall i :: 0 <= i < |s| ==> IsDigit(s[i])
  }

  function DigitValue(c: char): (d: nat)
    requires IsDigit(c)
    ensures d < 10
  {
    c as int - '0' as int
  }

  function DigitChar(d: nat): (c: char)
    requires d < 10
    ensures IsDigit(c) && DigitValue(c) == d
  {
    ('0' as int + d) as char
  }

  /** `int(s)` for a string of ASCII digits (leading zeros allowed). */
  function DigitsValue(s: string): (n: nat)
    requires AllDigits(s)
  {
    if s == [] then 0 else 10 * DigitsValue(s[..|s| - 1]) + DigitValue(s[|s| - 1])
  }

  /** `str(n)` for a non-negative integer: no leading zeros. */
  function DecimalString(n: nat): (s: string)
    ensures s != [] && AllDigits(s)
    ensures |s| > 1 ==> s[0] != '0'
  {
    if n < 10 then [DigitChar(n)]
    else
      var s := DecimalString(n / 10) + [DigitChar(n % 10)];
      assert s[0] == DecimalString(n / 10)[0];
      s
  }

  /** `str(i)` for any integer. */
  function IntToStr(i: int): (s: string)
  {
    if i < 0 then "-" + DecimalString(-i) else DecimalString(i)
  }

  /** Reading back a rendered number gives the number. */
  lemma {:induction false} DecimalRoundTrip(n: nat)
    ensures DigitsValue(DecimalString(n)) == n
  {
    if n >= 10 {
      var s := DecimalString(n);
      assert s[..|s| - 1] == DecimalString(n / 10);
      DecimalRoundTrip(n / 10);
    }
  }

  /** The digits of `str(i)` spell `abs(i)`. */
  lemma DigitsOfIntToStr(i: int)
    ensures ExtractDigits(IntToStr(i)) == DecimalString(if i < 0 then -i else i)
    ensures DigitsValue(ExtractDigits(IntToStr(i))) == if i < 0 then -i else i
  {
    var n := if i < 0 then -i else i;
    if i < 0 {
      assert IntToStr(i)[1..] == DecimalString(n);
    }
    DecimalRoundTrip(n);
  }

  /** `s[:n]` for a non-negative `n`. */
  function Take(s: string, n: nat): (r: string)
    ensures |r| == if n < |s| then n else |s|
    ensures r == s[..|r|]
  {
    if n < |s| then s[..n] else s
  }

  /** SQL `LIKE`: `%` matches any run of characters, `_` any one character. */
  function LikeMatch(pattern: string, text: string): bool
    decreases |pattern| + |text|
  {
    if pattern == [] then text == []
    else if pattern[0] == '%' then
      LikeMatch(pattern[1..], text) || (text != [] && LikeMatch(pattern, text[1..]))
    else
      text != [] && (pattern[0] == '_' || pattern[0] == text[0]) && LikeMatch(pattern[1..], text[1..])
  }

  /** SQLAlchemy `column.ilike(pattern)`: `lower(column) LIKE lower(pattern)`. */
  predicate ILike(text: string, pattern: string)
  {
    LikeMatch(Lower(pattern), Lower(text))
  }

  predicate NoWildcards(s: string)
  {
    forall i :: 0 <= i < |s| ==> s[i] != '%' && s[i] != '_'
  }

  /** Without wildcards, `x%` matches exactly the texts that start with `x`. */
  lemma {:induction false} LikePrefix(x: string, t: string)
    requires NoWildcards(x)
    ensures LikeMatch(x + "%", t) <==> |x| <= |t| && t[..|x|] == x
  {
    if x == [] {
      assert x + "%" == "%";
      LikeAnyMatches(t);
    } else {
      assert (x + "%")[1..] == x[1..] + "%";
      if t != [] {
        LikePrefix(x[1..], t[1..]);
        if |x| <= |t| && t[..|x|] == x {
          assert t[1..][..|x| - 1] == x[1..];
        }
      }
    }
  }

  /** `%` alone matches every text. */
  lemma {:induction false} LikeAnyMatches(t: string)
    ensures LikeMatch("%", t)
  {
    if t != [] {
      LikeAnyMatches(t[1..]);
    }
  }

  /** `%q` matches a text iff `q` matches one of its suffixes. */
  lemma {:induction false} LikeLeadingPercent(q: string, t: string)
    ensures LikeMatch("%" + q, t) <==> exists i | 0 <= i <= |t| :: LikeMatch(q, t[i..])
  {
    assert ("%" + q)[1..] == q;
    assert t[0..] == t;
    if t != [] {
      LikeLeadingPercent(q, t[1..]);
      if exists i | 0 <= i <= |t| :: LikeMatch(q, t[i..]) {
        var i :| 0 <= i <= |t| && LikeMatch(q, t[i..]);
        if i > 0 {
          assert t[1..][i - 1..] == t[i..];
        }
      }
      if exists i | 0 <= i <= |t[1..]| :: LikeMatch(q, t[1..][i..]) {
        var i :| 0 <= i <= |t[1..]| && LikeMatch(q, t[1..][i..]);
        assert t[1..][i..] == t[i + 1..];
      }
    }
  }

  /**
   * The pattern `%x%` that doctor and test lookups build is a substring test
   * as long as `x` holds no wildcard character.
   */
  lemma LikeContains(x: string, t: string)
    requires NoWildcards(x)
    ensures LikeMatch("%" + x + "%", t) <==> Contains(t, x)
  {
    assert "%" + x + "%" == "%" + (x + "%");
    LikeLeadingPercent(x + "%", t);
    if LikeMatch("%" + x + "%", t) {
      var i :| 0 <= i <= |t| && LikeMatch(x + "%", t[i..]);
      LikePrefix(x, t[i..]);
      assert t[i..][..|x|] == t[i..i + |x|];
      assert OccursAt(x, t, i);
    }
    if Contains(t, x) {
      var i :| 0 <= i <= |t| && OccursAt(x, t, i);
      LikePrefix(x, t[i..]);
      assert t[i..][..|x|] == t[i..i + |x|];
    }
  }
}
