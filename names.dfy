/**
 * `clean_doctor_name` and the doctor lookup that `check_availability` and
 * `book_appointment` share.
 *
 * The filler-word removal is `re.sub(r'\b(dr\.?|doctor|...)\b', '', s)`
 * on the already lower-cased text: at each position the engine requires a
 * word boundary, tries the alternatives in their written order (`dr\.?`
 * first with its dot, then without), keeps the first whose end is again a
 * word boundary, deletes it and resumes after it; where nothing matches it
 * keeps one character and moves on.
 */
module Names {
  import opened Wrappers
  import opened Text

  // ---------------------------------------------------------------------
  // Filler removal

  /** The alternatives of the filler regex, in the order the engine tries them. */
  function Fillers(): seq<string>
  {
    ["dr.", "dr", "doctor", "mr.", "mr", "mrs.", "mrs", "please", "book",
     "appointment", "with", "for", "i want", "check"]
  }

  /** `\b` at position `p`: exactly one side is a word character. */
  predicate Boundary(s: string, p: int)
    requires 0 <= p <= |s|
  {
    (p > 0 && IsWordChar(s[p - 1])) != (p < |s| && IsWordChar(s[p]))
  }

  /** Alternative `f` matches at `p` and the closing `\b` holds after it. */
  predicate Hit(f: string, s: string, p: int)
  {
    OccursAt(f, s, p) && Boundary(s, p + |f|)
  }

  /** Length of the first alternative of `fs` that hits at `p`. */
  function FirstHit(s: string, p: int, fs: seq<string>): (r: Option<nat>)
    ensures r.Some? ==> exists j :: 0 <= j < |fs| && r.value == |fs[j]| && Hit(fs[j], s, p) &&
                                    forall k :: 0 <= k < j ==> !Hit(fs[k], s, p)
    ensures r.None? <==> forall j :: 0 <= j < |fs| ==> !Hit(fs[j], s, p)
  {
    if fs == [] then None
    else if Hit(fs[0], s, p) then Some(|fs[0]|)
    else
      var r := FirstHit(s, p, fs[1..]);
      assert forall j :: 1 <= j < |fs| ==> fs[j] == fs[1..][j - 1];
      r
  }

  /** Length of the filler the regex deletes at `p`, if any. */
  function MatchAt(s: string, p: int): (r: Option<nat>)
    requires 0 <= p <= |s|
    ensures r.Some? ==> 0 < r.value && p + r.value <= |s|
  {
    if Boundary(s, p) then FirstHit(s, p, Fillers()) else None
  }

  /** The `re.sub` scan from position `p`. */
  function RemoveFrom(s: string, p: int): (r: string)
    requires 0 <= p <= |s|
    ensures |r| <= |s| - p
    decreases |s| - p
  {
    if p == |s| then []
    else
      match MatchAt(s, p)
      case Some(k) => RemoveFrom(s, p + k)
      case None => [s[p]] + RemoveFrom(s, p + 1)
  }

  function RemoveFillers(s: string): string
  {
    RemoveFrom(s, 0)
  }

  // ---------------------------------------------------------------------
  // Whitespace and case

  /** `re.sub(r'\s+', ' ', s)`: every whitespace run becomes one space. */
  function CollapseSpace(s: string): (r: string)
    ensures forall i :: 0 <= i < |r| && IsSpace(r[i]) ==> r[i] == ' '
    ensures forall i :: 0 <= i < |r| - 1 ==> !(IsSpace(r[i]) && IsSpace(r[i + 1]))
    ensures (r != [] && IsSpace(r[0])) <==> (s != [] && IsSpace(s[0]))
    ensures (r != [] && IsSpace(r[|r| - 1])) <==> (s != [] && IsSpace(s[|s| - 1]))
    ensures r == [] <==> s == []
    decreases |s|
  {
    if s == [] then []
    else if IsSpace(s[0]) then
      var t := TrimStart(s);
      assert t == s[|s| - |t|..];
      [' '] + CollapseSpace(t)
    else [s[0]] + CollapseSpace(s[1..])
  }

  /** The characters of `s` that are not whitespace, in order. */
  function NonSpace(s: string): (r: string)
    ensures NoSpace(r)
  {
    if s == [] then []
    else if IsSpace(s[0]) then NonSpace(s[1..])
    else [s[0]] + NonSpace(s[1..])
  }

  /** `str.title()`: a letter is upper-cased when no letter precedes it, lower-cased otherwise. */
  function TitleFrom(s: string, prevCased: bool): (r: string)
    ensures |r| == |s|
    ensures forall i :: 0 <= i < |s| && !IsLetter(s[i]) ==> r[i] == s[i]
    ensures forall i :: 0 <= i < |s| && IsLetter(s[i]) ==> IsLetter(r[i]) && LowerChar(r[i]) == LowerChar(s[i])
    ensures forall i :: 0 <= i < |s| && IsLetter(s[i]) ==>
              (IsUpper(r[i]) <==> if i == 0 then !prevCased else !IsLetter(s[i - 1]))
    decreases |s|
  {
    if s == [] then []
    else
      var c := if !IsLetter(s[0]) then s[0] else if prevCased then LowerChar(s[0]) else UpperChar(s[0]);
      var rest := TitleFrom(s[1..], IsLetter(s[0]));
      assert forall i :: 1 <= i < |s| ==> s[i] == s[1..][i - 1];
      [c] + rest
  }

  function Title(s: string): string
  {
    TitleFrom(s, false)
  }

  /** `clean_doctor_name`: lower, strip, delete fillers, collapse whitespace, strip, title-case. */
  function CleanDoctorName(x: string): string
  {
    if x == [] then []
    else Title(Strip(CollapseSpace(RemoveFillers(Strip(Lower(x))))))
  }

  // ---------------------------------------------------------------------
  // Properties of the cleaning

  /** Spaces only, single, and never at either end. */
  predicate Tidy(r: string)
  {
    (forall i :: 0 <= i < |r| && IsSpace(r[i]) ==> r[i] == ' ') &&
    (forall i :: 0 <= i < |r| - 1 ==> !(IsSpace(r[i]) && IsSpace(r[i + 1]))) &&
    (r == [] || (!IsSpace(r[0]) && !IsSpace(r[|r| - 1])))
  }

  /** Every letter is upper case exactly when it starts a run of letters. */
  predicate TitleCased(r: string)
  {
    forall i :: 0 <= i < |r| && IsLetter(r[i]) ==> (IsUpper(r[i]) <==> i == 0 || !IsLetter(r[i - 1]))
  }

  /** `Strip` returns a contiguous piece of its argument. */
  lemma {:induction false} StripIsSlice(s: string) returns (a: nat)
    ensures a + |Strip(s)| <= |s| && Strip(s) == s[a..a + |Strip(s)|]
  {
    var t := TrimStart(s);
    a := |s| - |t|;
    assert Strip(s) == t[..|Strip(s)|];
  }

  lemma {:induction false} TitleKeepsTidy(s: string)
    requires Tidy(s)
    ensures Tidy(Title(s))
  {
    var r := Title(s);
    forall i | 0 <= i < |s|
      ensures (IsSpace(r[i]) <==> IsSpace(s[i])) && (IsSpace(s[i]) ==> r[i] == s[i])
    {
      if IsLetter(s[i]) {
        LetterIsNotSpace(s[i]);
        LetterIsNotSpace(r[i]);
      }
    }
  }

  lemma LetterIsNotSpace(c: char)
    requires IsLetter(c)
    ensures !IsSpace(c)
  {
  }

  /** A stripped piece of a whitespace-collapsed string is tidy. */
  lemma {:induction false} StripOfCollapsedIsTidy(c: string)
    requires forall i :: 0 <= i < |c| && IsSpace(c[i]) ==> c[i] == ' '
    requires forall i :: 0 <= i < |c| - 1 ==> !(IsSpace(c[i]) && IsSpace(c[i + 1]))
    ensures Tidy(Strip(c))
  {
    var s := Strip(c);
    var a := StripIsSlice(c);
    assert forall i :: 0 <= i < |s| ==> s[i] == c[a + i];
  }

  lemma {:induction false} TitleIsTitleCased(s: string)
    ensures TitleCased(Title(s))
  {
    var r := Title(s);
    forall i | 0 <= i < |r| && IsLetter(r[i])
      ensures IsUpper(r[i]) <==> i == 0 || !IsLetter(r[i - 1])
    {
      assert IsLetter(s[i]);
      if i > 0 {
        assert IsLetter(r[i - 1]) <==> IsLetter(s[i - 1]);
      }
    }
  }

  /** `clean_doctor_name` returns a tidy, title-cased string. */
  lemma {:induction false} CleanIsTidyTitle(x: string)
    ensures Tidy(CleanDoctorName(x)) && TitleCased(CleanDoctorName(x))
  {
    if x != [] {
      var c := CollapseSpace(RemoveFillers(Strip(Lower(x))));
      StripOfCollapsedIsTidy(c);
      TitleKeepsTidy(Strip(c));
      TitleIsTitleCased(Strip(c));
    }
  }

  /** Up to letter case, the result is the lower-cased text with fillers removed and whitespace normalised. */
  lemma {:induction false} CleanLowered(x: string)
    ensures x == [] ==> CleanDoctorName(x) == []
    ensures Lower(CleanDoctorName(x)) == Lower(Strip(CollapseSpace(RemoveFillers(Strip(Lower(x))))))
  {
    if x != [] {
      TitleLower(Strip(CollapseSpace(RemoveFillers(Strip(Lower(x))))));
    }
  }

  /** Title-casing changes letter case only. */
  lemma TitleLower(s: string)
    ensures Lower(Title(s)) == Lower(s)
  {
    var r := Title(s);
    forall i | 0 <= i < |s|
      ensures Lower(r)[i] == Lower(s)[i]
    {
      if !IsLetter(s[i]) {
        assert r[i] == s[i];
      }
    }
  }

  /** Collapsing whitespace keeps the words: each run of whitespace becomes one space, none vanishes. */
  lemma {:induction false} CollapseSplit(s: string)
    ensures Split(CollapseSpace(s)) == Split(s)
    decreases |s|
  {
    if s != [] && IsSpace(s[0]) {
      var t := TrimStart(s);
      CollapseSplit(t);
      SplitTrimStart(s);
      assert Split(CollapseSpace(s)) == Split(CollapseSpace(t)) by {
        assert CollapseSpace(s) == [' '] + CollapseSpace(t);
        SplitCons(' ', CollapseSpace(t));
      }
    } else if s != [] {
      var rest := s[1..];
      CollapseSplit(rest);
      assert Split(CollapseSpace(s)) == Split(s) by {
        assert CollapseSpace(s) == [s[0]] + CollapseSpace(rest);
        assert s == [s[0]] + rest;
        SplitConsSame(s[0], CollapseSpace(rest), rest);
      }
    }
  }

  /** A tidy text is its own words joined by single spaces. */
  lemma {:induction false} TidyIsJoin(s: string)
    requires Tidy(s)
    ensures s == JoinWords(Split(s))
    decreases |s|
  {
    if s != [] {
      var k := WordEnd(s);
      var w := s[..k];
      if k == |s| {
        assert s == w + [];
        SplitWordThen(w, []);
      } else {
        var rest := s[k + 1..];
        TidyAfterWord(s, k);
        TidyIsJoin(rest);
        JoinAfterWord(w, rest);
      }
    }
  }

  /** In a tidy text, the first word is followed by one space and a tidy remainder. */
  lemma TidyAfterWord(s: string, k: nat)
    requires Tidy(s) && k == WordEnd(s) && k < |s|
    ensures s[k + 1..] != [] && !IsSpace(s[k + 1]) && Tidy(s[k + 1..])
    ensures s == s[..k] + ([' '] + s[k + 1..])
  {
    assert s[k] == ' ';
    assert k + 1 < |s| && !IsSpace(s[k + 1]);
    TidySuffix(s, k + 1);
    CutAt(s, k);
  }

  /** A tidy text cut just before a non-space character leaves a tidy text. */
  lemma TidySuffix(s: string, j: nat)
    requires Tidy(s) && j < |s| && !IsSpace(s[j])
    ensures Tidy(s[j..])
  {
    var rest := s[j..];
    forall i | 0 <= i < |rest| && IsSpace(rest[i])
      ensures rest[i] == ' '
    {
      assert rest[i] == s[j + i];
    }
    forall i | 0 <= i < |rest| - 1
      ensures !(IsSpace(rest[i]) && IsSpace(rest[i + 1]))
    {
      assert rest[i] == s[j + i] && rest[i + 1] == s[j + i + 1];
    }
    assert rest[|rest| - 1] == s[|s| - 1];
  }

  /** A word, one space, and a text that is its own words joined, is again its own words joined. */
  lemma {:induction false} JoinAfterWord(w: string, rest: string)
    requires w != [] && NoSpace(w) && rest != [] && !IsSpace(rest[0])
    requires rest == JoinWords(Split(rest))
    ensures w + ([' '] + rest) == JoinWords(Split(w + ([' '] + rest)))
  {
    SplitWordThen(w, [' '] + rest);
    SplitCons(' ', rest);
    SplitCons(rest[0], rest[1..]);
    assert rest == [rest[0]] + rest[1..];
    var ws := [w] + Split(rest);
    assert Split(w + ([' '] + rest)) == ws;
    assert |ws| > 1 && ws[0] == w && ws[1..] == Split(rest);
    assert JoinWords(ws) == w + " " + JoinWords(Split(rest));
  }

  /**
   * Before title-casing, `clean_doctor_name` yields exactly the words left
   * after filler removal, joined by single spaces: "john smith" keeps both
   * of its words.
   */
  lemma {:induction false} CleanWords(x: string)
    ensures x != [] ==> CleanDoctorName(x) == Title(JoinWords(Split(RemoveFillers(Strip(Lower(x))))))
  {
    if x != [] {
      var r := RemoveFillers(Strip(Lower(x)));
      var c := CollapseSpace(r);
      StripOfCollapsedIsTidy(c);
      TidyIsJoin(Strip(c));
      SplitStrip(c);
      CollapseSplit(r);
    }
  }

  /** Collapsing whitespace changes only whitespace. */
  lemma {:induction false} CollapseKeepsText(s: string)
    ensures NonSpace(CollapseSpace(s)) == NonSpace(s)
    decreases |s|
  {
    if s != [] {
      if IsSpace(s[0]) {
        var t := TrimStart(s);
        assert t == s[|s| - |t|..];
        CollapseKeepsText(t);
        NonSpaceOfSpaces(s, |s| - |t|);
        assert ([' '] + CollapseSpace(t))[1..] == CollapseSpace(t);
      } else {
        CollapseKeepsText(s[1..]);
        assert ([s[0]] + CollapseSpace(s[1..]))[1..] == CollapseSpace(s[1..]);
      }
    }
  }

  lemma {:induction false} NonSpaceOfSpaces(s: string, k: nat)
    requires k <= |s| && forall i :: 0 <= i < k ==> IsSpace(s[i])
    ensures NonSpace(s) == NonSpace(s[k..])
    decreases k
  {
    if k > 0 {
      NonSpaceOfSpaces(s[1..], k - 1);
      assert s[1..][k - 1..] == s[k..];
    }
  }

  /** A text where no filler matches is returned unchanged by the removal. */
  lemma {:induction false} RemoveNothing(s: string, p: int)
    requires 0 <= p <= |s|
    requires forall q :: p <= q < |s| ==> MatchAt(s, q).None?
    ensures RemoveFrom(s, p) == s[p..]
    decreases |s| - p
  {
    if p < |s| {
      RemoveNothing(s, p + 1);
      assert s[p..] == [s[p]] + s[p + 1..];
    }
  }

  /** A deleted stretch is always a whole filler word, bounded by word boundaries on both sides. */
  lemma {:induction false} MatchIsWholeFiller(s: string, p: int, k: nat)
    requires 0 <= p <= |s| && MatchAt(s, p) == Some(k)
    ensures Boundary(s, p) && p + k <= |s|
    ensures exists j :: 0 <= j < |Fillers()| && s[p..p + k] == Fillers()[j] && Boundary(s, p + k)
  {
    MatchIsFirstHit(s, p);
    FirstHitIsWhole(s, p, k, Fillers());
  }

  lemma {:induction false} MatchIsFirstHit(s: string, p: int)
    requires 0 <= p <= |s| && MatchAt(s, p).Some?
    ensures Boundary(s, p) && FirstHit(s, p, Fillers()) == MatchAt(s, p)
  {
  }

  /** The first hit is one whole alternative, followed by a word boundary. */
  lemma {:induction false} FirstHitIsWhole(s: string, p: int, k: nat, fs: seq<string>)
    requires 0 <= p <= |s| && FirstHit(s, p, fs) == Some(k)
    ensures p + k <= |s|
    ensures exists j :: 0 <= j < |fs| && s[p..p + k] == fs[j] && Boundary(s, p + k)
  {
    var j :| 0 <= j < |fs| && k == |fs[j]| && Hit(fs[j], s, p);
    assert s[p..p + k] == fs[j];
  }

  /** A filler word standing at word boundaries is always deleted (by it or an earlier alternative). */
  lemma {:induction false} WholeFillerMatches(s: string, p: int, j: int)
    requires 0 <= p <= |s| && 0 <= j < |Fillers()| && Boundary(s, p) && Hit(Fillers()[j], s, p)
    ensures MatchAt(s, p).Some?
  {
  }

  /**
   * The dot after `dr`, `mr` or `mrs` is deleted only when a word character
   * follows it: `dr.smith` loses `dr.`, while in `dr. smith` only `dr` goes
   * and the dot stays.
   */
  lemma {:induction false} TitleDot(s: string, p: int, w: string)
    requires w == "dr" || w == "mr" || w == "mrs"
    requires 0 <= p && p + |w| + 1 <= |s| && s[p..p + |w| + 1] == w + "." && Boundary(s, p)
    ensures p + |w| + 1 < |s| && IsWordChar(s[p + |w| + 1]) ==> MatchAt(s, p) == Some(|w| + 1)
    ensures !(p + |w| + 1 < |s| && IsWordChar(s[p + |w| + 1])) ==> MatchAt(s, p) == Some(|w|)
  {
    assert s[p..p + |w|] == s[p..p + |w| + 1][..|w|] == (w + ".")[..|w|] == w;
    assert s[p + |w|] == s[p..p + |w| + 1][|w|] == (w + ".")[|w|] == '.';
    if w == "dr" {
      NoFillerBeforeDr(s, p);
    } else if w == "mr" {
      NoFillerBeforeMr(s, p);
    } else {
      NoFillerBeforeMrs(s, p);
    }
  }

  lemma {:induction false} NoFillerBeforeDr(s: string, p: int)
    requires 0 <= p && p + 3 <= |s| && s[p..p + 2] == "dr" && s[p + 2] == '.'
    ensures p + 3 < |s| && IsWordChar(s[p + 3]) ==> FirstHit(s, p, Fillers()) == Some(3)
    ensures !(p + 3 < |s| && IsWordChar(s[p + 3])) ==> FirstHit(s, p, Fillers()) == Some(2)
  {
    var fs := Fillers();
    assert fs[0] == "dr." && fs[1] == "dr";
    assert s[p + 1] == s[p..p + 2][1];
    DotThenBare(s, p, "dr", 0);
  }

  lemma {:induction false} NoFillerBeforeMr(s: string, p: int)
    requires 0 <= p && p + 3 <= |s| && s[p..p + 2] == "mr" && s[p + 2] == '.'
    ensures p + 3 < |s| && IsWordChar(s[p + 3]) ==> FirstHit(s, p, Fillers()) == Some(3)
    ensures !(p + 3 < |s| && IsWordChar(s[p + 3])) ==> FirstHit(s, p, Fillers()) == Some(2)
  {
    var fs := Fillers();
    assert fs[0] == "dr." && fs[1] == "dr" && fs[2] == "doctor" && fs[3] == "mr." && fs[4] == "mr";
    assert s[p] == 'm' && s[p + 1] == 'r';
    assert !Hit(fs[0], s, p) && !Hit(fs[1], s, p) && !Hit(fs[2], s, p) by {
      assert p + 6 > |s| || s[p..p + 6][0] == 'm';
      assert s[p..p + 2][0] == 'm' && s[p..p + 3][0] == 'm';
    }
    assert forall j :: 0 <= j < 3 ==> !Hit(fs[j], s, p);
    DotThenBare(s, p, "mr", 3);
  }

  lemma {:induction false} NoFillerBeforeMrs(s: string, p: int)
    requires 0 <= p && p + 4 <= |s| && s[p..p + 3] == "mrs" && s[p + 3] == '.'
    ensures p + 4 < |s| && IsWordChar(s[p + 4]) ==> FirstHit(s, p, Fillers()) == Some(4)
    ensures !(p + 4 < |s| && IsWordChar(s[p + 4])) ==> FirstHit(s, p, Fillers()) == Some(3)
  {
    var fs := Fillers();
    assert fs[0] == "dr." && fs[1] == "dr" && fs[2] == "doctor" && fs[3] == "mr." && fs[4] == "mr";
    assert fs[5] == "mrs." && fs[6] == "mrs";
    assert s[p] == 'm' && s[p + 1] == 'r' && s[p + 2] == 's';
    assert !Hit(fs[0], s, p) && !Hit(fs[1], s, p) && !Hit(fs[2], s, p) by {
      assert p + 6 > |s| || s[p..p + 6][0] == 'm';
      assert s[p..p + 2][0] == 'm' && s[p..p + 3][0] == 'm';
    }
    assert !Hit(fs[3], s, p) by { assert s[p..p + 3][2] == 's'; }
    assert !Hit(fs[4], s, p) by { assert IsWordChar(s[p + 2]); }
    assert forall j :: 0 <= j < 5 ==> !Hit(fs[j], s, p);
    DotThenBare(s, p, "mrs", 5);
  }

  /** With no earlier alternative hitting, `w.` wins when a word follows the dot and `w` wins otherwise. */
  lemma {:induction false} DotThenBare(s: string, p: int, w: string, dot: nat)
    requires dot + 1 < |Fillers()| && Fillers()[dot] == w + "." && Fillers()[dot + 1] == w && w != []
    requires forall j :: 0 <= j < dot ==> !Hit(Fillers()[j], s, p)
    requires 0 <= p && p + |w| + 1 <= |s| && s[p..p + |w|] == w && s[p + |w|] == '.'
    requires IsWordChar(s[p + |w| - 1])
    ensures p + |w| + 1 < |s| && IsWordChar(s[p + |w| + 1]) ==> FirstHit(s, p, Fillers()) == Some(|w| + 1)
    ensures !(p + |w| + 1 < |s| && IsWordChar(s[p + |w| + 1])) ==> FirstHit(s, p, Fillers()) == Some(|w|)
  {
    var fs := Fillers();
    var e := p + |w| + 1;
    assert s[p..p + |w| + 1] == w + ".";
    assert Boundary(s, p + |w|);
    assert Boundary(s, e) <==> e < |s| && IsWordChar(s[e]);
    assert Hit(fs[dot + 1], s, p);
    if Boundary(s, e) {
      assert Hit(fs[dot], s, p);
      FirstHitIs(s, p, fs, dot);
    } else {
      assert !Hit(fs[dot], s, p);
      FirstHitIs(s, p, fs, dot + 1);
    }
  }

  /** The first alternative that hits is the one the engine keeps. */
  lemma {:induction false} FirstHitIs(s: string, p: int, fs: seq<string>, k: int)
    requires 0 <= k < |fs| && Hit(fs[k], s, p)
    requires forall j :: 0 <= j < k ==> !Hit(fs[j], s, p)
    ensures FirstHit(s, p, fs) == Some(|fs[k]|)
  {
    var r := FirstHit(s, p, fs);
    var j :| 0 <= j < |fs| && r.value == |fs[j]| && Hit(fs[j], s, p) && forall i :: 0 <= i < j ==> !Hit(fs[i], s, p);
    assert j == k;
  }

  // ---------------------------------------------------------------------
  // Doctor resolution

  /** A doctor row; `Branch_Id` is a nullable column, so a doctor may have no branch. */
  datatype Doctor = Doctor(id: int, name: string, branch: Option<int>)

  /**
   * `if req.branch_id: query.filter(Doctor.Branch_Id == req.branch_id)`: zero and a
   * missing id do not scope, and a doctor without a branch never equals one (SQL NULL).
   */
  predicate InScope(d: Doctor, scope: Option<int>)
  {
    scope.None? || scope.value == 0 || d.branch == Some(scope.value)
  }

  /** The doctors a possibly branch-scoped query sees, in table order. */
  function Candidates(docs: seq<Doctor>, scope: Option<int>): (r: seq<Doctor>)
    ensures forall d :: d in r <==> d in docs && InScope(d, scope)
    ensures scope.None? || scope.value == 0 ==> r == docs
  {
    if docs == [] then []
    else (if InScope(docs[0], scope) then [docs[0]] else []) + Candidates(docs[1..], scope)
  }

  /** `.filter(Doctor_Name.ilike(pattern)).first()`: index of the first matching row. */
  function FirstLike(ds: seq<Doctor>, pattern: string): (r: Option<nat>)
    ensures r.Some? ==> r.value < |ds| && ILike(ds[r.value].name, pattern) &&
                        forall j :: 0 <= j < r.value ==> !ILike(ds[j].name, pattern)
    ensures r.None? <==> forall j :: 0 <= j < |ds| ==> !ILike(ds[j].name, pattern)
  {
    if ds == [] then None
    else if ILike(ds[0].name, pattern) then Some(0)
    else
      match FirstLike(ds[1..], pattern)
      case None => None
      case Some(i) => Some(i + 1)
  }

  /**
   * `process.extractOne(query, names)`: the index of the best-scoring name,
   * the first one among equals; `score` stands for the fuzzy scorer.
   */
  function BestMatch(ds: seq<Doctor>, query: string, score: (string, string) -> int): (b: nat)
    requires ds != []
    ensures b < |ds|
    ensures forall j :: 0 <= j < |ds| ==> score(query, ds[j].name) <= score(query, ds[b].name)
    ensures forall j :: 0 <= j < b ==> score(query, ds[j].name) < score(query, ds[b].name)
  {
    if |ds| == 1 then 0
    else
      var b := BestMatch(ds[..|ds| - 1], query, score);
      if score(query, ds[|ds| - 1].name) > score(query, ds[b].name) then |ds| - 1 else b
  }

  /** `next(d for d in docs if d.Doctor_Name == name)` */
  function FirstNamed(ds: seq<Doctor>, name: string): (i: nat)
    requires exists j :: 0 <= j < |ds| && ds[j].name == name
    ensures i < |ds| && ds[i].name == name
    ensures forall j :: 0 <= j < i ==> ds[j].name != name
  {
    if ds[0].name == name then 0
    else
      assert exists j :: 0 <= j < |ds[1..]| && ds[1..][j].name == name by {
        var j :| 0 <= j < |ds| && ds[j].name == name;
        assert ds[1..][j - 1] == ds[j];
      }
      1 + FirstNamed(ds[1..], name)
  }

  /** The fuzzy threshold: a score must be strictly above 70. */
  const FuzzyThreshold := 70

  /**
   * The doctor lookup: the first case-insensitive substring match among the
   * candidates, else the best fuzzy match if it scores above the threshold,
   * taken as the first candidate bearing that name.
   */
  function ResolveDoctor(docs: seq<Doctor>, clean: string, scope: Option<int>, score: (string, string) -> int): (r: Option<Doctor>)
    ensures r.Some? ==> r.value in docs && InScope(r.value, scope)
  {
    var cs := Candidates(docs, scope);
    match FirstLike(cs, "%" + clean + "%")
    case Some(i) => Some(cs[i])
    case None =>
      if cs == [] then None
      else
        var b := BestMatch(cs, clean, score);
        if score(clean, cs[b].name) > FuzzyThreshold then Some(cs[FirstNamed(cs, cs[b].name)]) else None
  }

  /** Without wildcards in the name, the `ilike` lookup is a case-insensitive substring test. */
  lemma {:induction false} ILikeIsContains(name: string, clean: string)
    requires NoWildcards(clean)
    ensures ILike(name, "%" + clean + "%") <==> Contains(Lower(name), Lower(clean))
  {
    LowerAppend("%" + clean, "%");
    LowerAppend("%", clean);
    assert Lower("%") == "%";
    LikeContains(Lower(clean), Lower(name));
  }

  /** When a candidate contains the cleaned name, the first such candidate is chosen and fuzzy matching never runs. */
  lemma {:induction false} SubstringMatchWins(docs: seq<Doctor>, clean: string, scope: Option<int>, score: (string, string) -> int, i: int)
    requires NoWildcards(clean)
    requires 0 <= i < |Candidates(docs, scope)| && Contains(Lower(Candidates(docs, scope)[i].name), Lower(clean))
    requires forall j :: 0 <= j < i ==> !Contains(Lower(Candidates(docs, scope)[j].name), Lower(clean))
    ensures ResolveDoctor(docs, clean, scope, score) == Some(Candidates(docs, scope)[i])
  {
    var cs := Candidates(docs, scope);
    forall j | 0 <= j <= i
      ensures ILike(cs[j].name, "%" + clean + "%") <==> Contains(Lower(cs[j].name), Lower(clean))
    {
      ILikeIsContains(cs[j].name, clean);
    }
    var f := FirstLike(cs, "%" + clean + "%");
    assert f.Some? && f.value == i;
  }

  /**
   * Without a substring match, a doctor is found exactly when the best fuzzy
   * score exceeds 70, and the doctor found is the best-scoring candidate
   * itself (the name lookup never lands on an earlier namesake).
   */
  lemma {:induction false} FuzzyFallback(docs: seq<Doctor>, clean: string, scope: Option<int>, score: (string, string) -> int)
    requires Candidates(docs, scope) != []
    requires FirstLike(Candidates(docs, scope), "%" + clean + "%").None?
    ensures var cs := Candidates(docs, scope);
            var b := BestMatch(cs, clean, score);
            ResolveDoctor(docs, clean, scope, score) == if score(clean, cs[b].name) > 70 then Some(cs[b]) else None
  {
    var cs := Candidates(docs, scope);
    var b := BestMatch(cs, clean, score);
    if score(clean, cs[b].name) > FuzzyThreshold {
      var i := FirstNamed(cs, cs[b].name);
      assert score(clean, cs[i].name) == score(clean, cs[b].name);
      assert i == b;
      assert ResolveDoctor(docs, clean, scope, score) == Some(cs[i]);
    } else {
      assert ResolveDoctor(docs, clean, scope, score) == None;
    }
  }

  /** An empty cleaned name matches every doctor, so the first candidate is chosen. */
  lemma {:induction false} EmptyNamePicksFirst(docs: seq<Doctor>, scope: Option<int>, score: (string, string) -> int)
    requires Candidates(docs, scope) != []
    ensures ResolveDoctor(docs, [], scope, score) == Some(Candidates(docs, scope)[0])
  {
    var cs := Candidates(docs, scope);
    assert "%" + [] + "%" == "%%";
    assert Lower("%%") == "%%";
    assert LikeMatch("%", Lower(cs[0].name)) by { LikeAnyMatches(Lower(cs[0].name)); }
  }

  /** With no candidates at all, nothing is found. */
  lemma {:induction false} NoCandidatesNotFound(docs: seq<Doctor>, clean: string, scope: Option<int>, score: (string, string) -> int)
    requires Candidates(docs, scope) == []
    ensures ResolveDoctor(docs, clean, scope, score).None?
  {
  }
}
