/**
 * The request normalisation that runs before field validation: key
 * cleaning, alias mapping, patient-id digit extraction, and the
 * `get_safe_int` helper.
 *
 * The validators see a request body as the items of the dictionary
 * `json.loads` builds from it: one item per distinct member name, in the
 * order names first appear, each holding the value of the last member with
 * that name (`DecodeObject`). The functions below take those items.
 * Values are the JSON scalars the validators distinguish; Python truthiness
 * and `str()` are modelled for them.
 */
module Requests {
  import opened Wrappers
  import opened Text

  datatype Json = JNull | JBool(b: bool) | JInt(i: int) | JStr(s: string)

  /** Python truthiness. */
  predicate Truthy(v: Json)
  {
    match v
    case JNull => false
    case JBool(b) => b
    case JInt(i) => i != 0
    case JStr(s) => s != []
  }

  /** Python `str(v)`. */
  function ToStr(v: Json): string
  {
    match v
    case JNull => "None"
    case JBool(b) => if b then "True" else "False"
    case JInt(i) => IntToStr(i)
    case JStr(s) => s
  }

  // ---------------------------------------------------------------------
  // Decoding an object

  /** Some item carries the name `k`. */
  predicate Named(items: seq<(string, Json)>, k: string)
  {
    exists i :: 0 <= i < |items| && items[i].0 == k
  }

  /** No name occurs twice: the items of a Python dictionary. */
  predicate DistinctNames(items: seq<(string, Json)>)
  {
    forall i, j :: 0 <= i < j < |items| ==> items[i].0 != items[j].0
  }

  /** `d[k] = v` on a dictionary's items: an existing name keeps its place and takes the value, a new one goes last. */
  function PutMember(items: seq<(string, Json)>, kv: (string, Json)): (r: seq<(string, Json)>)
    requires DistinctNames(items)
    ensures |r| == |items| + (if Named(items, kv.0) then 0 else 1)
    ensures forall i :: 0 <= i < |items| ==> r[i] == (if items[i].0 == kv.0 then kv else items[i])
    ensures !Named(items, kv.0) ==> r[|items|] == kv
    decreases |items|
  {
    if items == [] then [kv]
    else if items[0].0 == kv.0 then [kv] + items[1..]
    else
      assert Named(items, kv.0) <==> Named(items[1..], kv.0) by {
        if Named(items, kv.0) {
          var i :| 0 <= i < |items| && items[i].0 == kv.0;
          assert items[1..][i - 1].0 == kv.0;
        }
        if Named(items[1..], kv.0) {
          var i :| 0 <= i < |items[1..]| && items[1..][i].0 == kv.0;
          assert items[i + 1].0 == kv.0;
        }
      }
      [items[0]] + PutMember(items[1..], kv)
  }

  /** Storing a member keeps the names distinct. */
  lemma PutMemberDistinct(items: seq<(string, Json)>, kv: (string, Json))
    requires DistinctNames(items)
    ensures DistinctNames(PutMember(items, kv))
  {
    var r := PutMember(items, kv);
    forall i, j | 0 <= i < j < |r|
      ensures r[i].0 != r[j].0
    {
      if j == |items| {
        assert !Named(items, kv.0) && r[j] == kv && r[i].0 == items[i].0;
      }
    }
  }

  /** `json.loads` of an object: the members stored one after the other into an empty dictionary. */
  function DecodeObject(members: seq<(string, Json)>): (d: seq<(string, Json)>)
    ensures DistinctNames(d)
  {
    if members == [] then []
    else
      var e := DecodeObject(members[..|members| - 1]);
      PutMemberDistinct(e, members[|members| - 1]);
      PutMember(e, members[|members| - 1])
  }

  /** Storing a member names exactly the names before and the stored one. */
  lemma PutMemberNamed(items: seq<(string, Json)>, kv: (string, Json), k: string)
    requires DistinctNames(items)
    ensures Named(PutMember(items, kv), k) <==> Named(items, k) || kv.0 == k
  {
    var r := PutMember(items, kv);
    if Named(r, k) {
      var i :| 0 <= i < |r| && r[i].0 == k;
      if i < |items| && items[i].0 != kv.0 {
        assert items[i].0 == k;
      }
    }
    if Named(items, k) {
      var i :| 0 <= i < |items| && items[i].0 == k;
      assert r[i].0 == k;
    }
    if kv.0 == k {
      if Named(items, kv.0) {
        var i :| 0 <= i < |items| && items[i].0 == kv.0;
        assert r[i].0 == k;
      } else {
        assert r[|items|].0 == k;
      }
    }
  }

  /** The last member of a body is named, and the other names are those of the members before it. */
  lemma NamedSnoc(members: seq<(string, Json)>, k: string)
    requires members != []
    ensures Named(members, k) <==> Named(members[..|members| - 1], k) || members[|members| - 1].0 == k
  {
    var n := |members| - 1;
    if Named(members, k) {
      var i :| 0 <= i < |members| && members[i].0 == k;
      if i < n {
        assert members[..n][i].0 == k;
      }
    }
    if Named(members[..n], k) {
      var i :| 0 <= i < n && members[..n][i].0 == k;
      assert members[i].0 == k;
    }
  }

  /** `kv` is a member of the body and no later member has its name. */
  predicate LastOfName(members: seq<(string, Json)>, kv: (string, Json))
  {
    exists j :: 0 <= j < |members| && members[j] == kv &&
                forall j' :: j < j' < |members| ==> members[j'].0 != kv.0
  }

  /** The decoded object names exactly the member names. */
  lemma {:induction false} DecodeObjectNamed(members: seq<(string, Json)>, k: string)
    ensures Named(DecodeObject(members), k) <==> Named(members, k)
    decreases |members|
  {
    if members != [] {
      var n := |members| - 1;
      DecodeObjectNamed(members[..n], k);
      PutMemberNamed(DecodeObject(members[..n]), members[n], k);
      NamedSnoc(members, k);
    }
  }

  /** Each decoded item is the last member of its name. */
  lemma {:induction false} DecodeObjectLast(members: seq<(string, Json)>, i: int)
    requires 0 <= i < |DecodeObject(members)|
    ensures LastOfName(members, DecodeObject(members)[i])
    decreases |members|
  {
    var n := |members| - 1;
    var front, kv := members[..n], members[n];
    var e := DecodeObject(front);
    var d := DecodeObject(members);
    assert d == PutMember(e, kv);
    if d[i].0 == kv.0 {
      assert members[n] == d[i];
    } else {
      assert i < |e| && d[i] == e[i];
      DecodeObjectLast(front, i);
      LastOfNameSnoc(members, e[i]);
    }
  }

  /**
   * The decoded object names exactly the member names, once each, and
   * each of its items is the last member of its name.
   */
  lemma DecodeObjectSpec(members: seq<(string, Json)>)
    ensures forall k :: Named(DecodeObject(members), k) <==> Named(members, k)
    ensures forall i :: 0 <= i < |DecodeObject(members)| ==> LastOfName(members, DecodeObject(members)[i])
  {
    forall k
      ensures Named(DecodeObject(members), k) <==> Named(members, k)
    {
      DecodeObjectNamed(members, k);
    }
    forall i | 0 <= i < |DecodeObject(members)|
      ensures LastOfName(members, DecodeObject(members)[i])
    {
      DecodeObjectLast(members, i);
    }
  }

  /** A member of another name after an item keeps it the last of its name. */
  lemma LastOfNameSnoc(members: seq<(string, Json)>, x: (string, Json))
    requires members != [] && members[|members| - 1].0 != x.0
    requires LastOfName(members[..|members| - 1], x)
    ensures LastOfName(members, x)
  {
    var front := members[..|members| - 1];
    var j :| 0 <= j < |front| && front[j] == x &&
             forall j' :: j < j' < |front| ==> front[j'].0 != x.0;
    assert members[j] == x;
    forall j' | j < j' < |members|
      ensures members[j'].0 != x.0
    {
      if j' < |front| {
        assert members[j'] == front[j'];
      }
    }
  }

  /**
   * A name repeated in the body keeps the place of its first occurrence
   * and the value of its last: `{"a": 1, "b": 2, "a": 3}` decodes as
   * `{"a": 3, "b": 2}`.
   */
  lemma RepeatedNameKeepsFirstPlace(a: string, b: string, x: Json, y: Json, z: Json)
    requires a != b
    ensures DecodeObject([(a, x), (b, y), (a, z)]) == [(a, z), (b, y)]
  {
    var m := [(a, x), (b, y), (a, z)];
    assert m[..2] == [(a, x), (b, y)] && m[..2][..1] == [(a, x)] && [(a, x)][..0] == [];
    assert DecodeObject([(a, x)]) == [(a, x)];
    assert !Named([(a, x)], b);
    assert DecodeObject(m[..2]) == [(a, x), (b, y)];
    assert Named([(a, x), (b, y)], a);
  }

  // ---------------------------------------------------------------------
  // Key cleaning

  /** `s.replace(c, '')` */
  function RemoveChar(s: string, c: char): (r: string)
    ensures forall i :: 0 <= i < |r| ==> r[i] != c
    ensures (forall i :: 0 <= i < |s| ==> s[i] != c) ==> r == s
    ensures IsSpace(c) && s != [] && !IsSpace(s[0]) ==> r != [] && r[0] == s[0]
    ensures IsSpace(c) && s != [] && !IsSpace(s[|s| - 1]) ==> r != [] && r[|r| - 1] == s[|s| - 1]
  {
    if s == [] then []
    else
      var rest := RemoveChar(s[1..], c);
      assert forall i :: 0 <= i < |s| - 1 ==> s[1..][i] == s[i + 1];
      if s[0] == c then rest else [s[0]] + rest
  }

  /**
   * `k.strip().replace('\r', '').replace('\n', '')`; the cancellation
   * validator drops only the `'\n'` replacement (`dropCR` false).
   */
  function CleanKey(k: string, dropCR: bool): string
  {
    var t := Strip(k);
    RemoveChar(if dropCR then RemoveChar(t, '\r') else t, '\n')
  }

  /** A cleaned key has no line feed, no carriage return when those are dropped, and no whitespace at either end. */
  lemma {:induction false} CleanKeyShape(k: string, dropCR: bool)
    ensures var r := CleanKey(k, dropCR);
            (forall i :: 0 <= i < |r| ==> r[i] != '\n' && (dropCR ==> r[i] != '\r')) &&
            (r == [] || (!IsSpace(r[0]) && !IsSpace(r[|r| - 1])))
    ensures CleanKey(k, dropCR) == [] <==> forall i :: 0 <= i < |k| ==> IsSpace(k[i])
  {
    var t := Strip(k);
    var u := if dropCR then RemoveChar(t, '\r') else t;
    var r := RemoveChar(u, '\n');
    assert CleanKey(k, dropCR) == r;
    assert (u == [] <==> t == []) && (u == [] || (!IsSpace(u[0]) && !IsSpace(u[|u| - 1]))) by {
      if dropCR {
        RemoveKeepsEnds(t, '\r');
      }
    }
    RemoveKeepsEnds(u, '\n');
    assert forall i :: 0 <= i < |r| ==> r[i] != '\n' && (dropCR ==> r[i] != '\r') by {
      if dropCR {
        RemoveKeepsAbsent(u, '\n', '\r');
      }
    }
    StripEmptyIffBlank(k);
  }

  /** Removing a whitespace character keeps the ends of a string whose ends are not whitespace. */
  lemma {:induction false} RemoveKeepsEnds(s: string, c: char)
    requires IsSpace(c)
    ensures s == [] || (!IsSpace(s[0]) && !IsSpace(s[|s| - 1])) ==>
              var r := RemoveChar(s, c);
              (r == [] <==> s == []) && (r == [] || (!IsSpace(r[0]) && !IsSpace(r[|r| - 1])))
  {
  }

  /** Removing one character never brings in another. */
  lemma {:induction false} RemoveKeepsAbsent(s: string, c: char, d: char)
    requires forall i :: 0 <= i < |s| ==> s[i] != d
    ensures forall i :: 0 <= i < |RemoveChar(s, c)| ==> RemoveChar(s, c)[i] != d
    decreases |s|
  {
    if s != [] {
      RemoveKeepsAbsent(s[1..], c, d);
    }
  }

  /** Cleaning a cleaned key changes nothing. */
  lemma {:induction false} CleanKeyIdempotent(k: string, dropCR: bool)
    ensures CleanKey(CleanKey(k, dropCR), dropCR) == CleanKey(k, dropCR)
  {
    var r := CleanKey(k, dropCR);
    CleanKeyShape(k, dropCR);
    if r != [] {
      StripUnchanged(r);
    }
  }

  /** The members with their keys cleaned. */
  function CleanPairs(items: seq<(string, Json)>, dropCR: bool): (ps: seq<(string, Json)>)
    ensures |ps| == |items|
    ensures forall i :: 0 <= i < |items| ==> ps[i] == (CleanKey(items[i].0, dropCR), items[i].1)
  {
    seq(|items|, i requires 0 <= i < |items| => (CleanKey(items[i].0, dropCR), items[i].1))
  }

  /** `for k, v in pairs: d[k] = v` from an empty dictionary. */
  function Collect(ps: seq<(string, Json)>): map<string, Json>
    decreases |ps|
  {
    if ps == [] then map[] else Collect(ps[..|ps| - 1])[ps[|ps| - 1].0 := ps[|ps| - 1].1]
  }

  /** The dictionary the validators build: cleaned keys, the later of two colliding members wins. */
  function CleanedKeys(items: seq<(string, Json)>, dropCR: bool): map<string, Json>
  {
    Collect(CleanPairs(items, dropCR))
  }

  /** Collecting one more pair stores it over what the earlier pairs left. */
  lemma CollectNext(ps: seq<(string, Json)>, i: int)
    requires 0 <= i < |ps|
    ensures Collect(ps[..i + 1]) == Collect(ps[..i])[ps[i].0 := ps[i].1]
  {
    assert ps[..i + 1][..i] == ps[..i];
  }

  /** The key-cleaning loop of the validators. */
  method CleanKeys(items: seq<(string, Json)>, dropCR: bool) returns (m: map<string, Json>)
    ensures m == CleanedKeys(items, dropCR)
  {
    ghost var ps := CleanPairs(items, dropCR);
    m := map[];
    var i := 0;
    while i < |items|
      invariant 0 <= i <= |items|
      invariant m == Collect(ps[..i])
    {
      var (k, v) := items[i];
      var cleanKey := CleanKey(k, dropCR);
      m := m[cleanKey := v];
      CollectNext(ps, i);
      i := i + 1;
    }
    assert ps[..i] == ps;
  }

  /** A collected dictionary holds exactly the keys of the pairs. */
  lemma {:induction false} CollectDomain(ps: seq<(string, Json)>, k: string)
    ensures k in Collect(ps) <==> exists i :: 0 <= i < |ps| && ps[i].0 == k
    decreases |ps|
  {
    if ps != [] {
      var n := |ps| - 1;
      var front := ps[..n];
      CollectDomain(front, k);
      if exists i :: 0 <= i < |ps| && ps[i].0 == k {
        var i :| 0 <= i < |ps| && ps[i].0 == k;
        assert i < n ==> front[i] == ps[i];
      }
      if exists i :: 0 <= i < |front| && front[i].0 == k {
        var i :| 0 <= i < |front| && front[i].0 == k;
        assert front[i] == ps[i];
      }
    }
  }

  /** A pair whose key no later pair repeats keeps its value. */
  lemma {:induction false} CollectLastWins(ps: seq<(string, Json)>, i: int)
    requires 0 <= i < |ps|
    requires forall j :: i < j < |ps| ==> ps[j].0 != ps[i].0
    ensures ps[i].0 in Collect(ps) && Collect(ps)[ps[i].0] == ps[i].1
    decreases |ps|
  {
    if i < |ps| - 1 {
      var front := ps[..|ps| - 1];
      assert front[i] == ps[i];
      assert forall j :: i < j < |front| ==> front[j] == ps[j];
      CollectLastWins(front, i);
    }
  }

  /** The cleaned dictionary holds exactly the cleaned keys of the members. */
  lemma {:induction false} CleanedKeysDomain(items: seq<(string, Json)>, dropCR: bool, k: string)
    ensures k in CleanedKeys(items, dropCR) <==> exists i :: 0 <= i < |items| && CleanKey(items[i].0, dropCR) == k
  {
    var ps := CleanPairs(items, dropCR);
    CollectDomain(ps, k);
    assert forall i :: 0 <= i < |items| ==> ps[i].0 == CleanKey(items[i].0, dropCR);
  }

  /** A member whose cleaned key no later member shares keeps its value. */
  lemma {:induction false} CleanedKeysLastWins(items: seq<(string, Json)>, dropCR: bool, i: int)
    requires 0 <= i < |items|
    requires forall j :: i < j < |items| ==> CleanKey(items[j].0, dropCR) != CleanKey(items[i].0, dropCR)
    ensures var m := CleanedKeys(items, dropCR);
            CleanKey(items[i].0, dropCR) in m && m[CleanKey(items[i].0, dropCR)] == items[i].1
  {
    CollectLastWins(CleanPairs(items, dropCR), i);
  }

  /**
   * `{"k ": x, "k": y, "k ": z}` decodes as `{"k ": z, "k": y}`, so the
   * cleaned key `k` ends up holding `y`, not the last member's `z`.
   */
  lemma PaddedRepeatLosesToExactName(padded: string, k: string, dropCR: bool, x: Json, y: Json, z: Json)
    requires padded != k && CleanKey(padded, dropCR) == k && CleanKey(k, dropCR) == k
    ensures var m := CleanedKeys(DecodeObject([(padded, x), (k, y), (padded, z)]), dropCR);
            k in m && m[k] == y
  {
    RepeatedNameKeepsFirstPlace(padded, k, x, y, z);
    CleanedKeysLastWins([(padded, z), (k, y)], dropCR, 1);
  }

  // ---------------------------------------------------------------------
  // Aliases

  /** `data.get(k)` */
  function Get(m: map<string, Json>, k: string): Json
  {
    if k in m then m[k] else JNull
  }

  /** Python `a or b`. */
  function Or(a: Json, b: Json): (r: Json)
    ensures Truthy(r) <==> Truthy(a) || Truthy(b)
  {
    if Truthy(a) then a else b
  }

  /** `if key not in data: data[key] = data.get(a) or data.get(b)` */
  function Alias(m: map<string, Json>, key: string, a: string, b: string): (r: map<string, Json>)
    ensures key in r && r.Keys == m.Keys + {key}
    ensures forall k :: k in m && k != key ==> r[k] == m[k]
  {
    if key in m then m else m[key := Or(Get(m, a), Get(m, b))]
  }

  /** The canonical key wins over its aliases; otherwise the first truthy alias is used. */
  lemma {:induction false} AliasPriority(m: map<string, Json>, key: string, a: string, b: string)
    ensures key in m ==> Alias(m, key, a, b)[key] == m[key]
    ensures key !in m && Truthy(Get(m, a)) ==> Alias(m, key, a, b)[key] == m[a]
    ensures key !in m && !Truthy(Get(m, a)) ==> Alias(m, key, a, b)[key] == Get(m, b)
  {
  }

  // ---------------------------------------------------------------------
  // Patient-id extraction

  /** Book and test-booking validators: a string id keeps only its digits; anything else is untouched. */
  function BookPatientId(v: Json): (r: Json)
    ensures !v.JStr? ==> r == v
    ensures v.JStr? && ExtractDigits(v.s) != [] ==> r == JInt(DigitsValue(ExtractDigits(v.s)))
    ensures v.JStr? && ExtractDigits(v.s) == [] ==> r == JNull
  {
    match v
    case JStr(s) =>
      var digits := ExtractDigits(s);
      if digits != [] then JInt(DigitsValue(digits)) else JNull
    case _ => v
  }

  /** Reschedule validator: any truthy id is rendered with `str` and keeps only its digits. */
  function ReschedulePatientId(v: Json): (r: Json)
    ensures !Truthy(v) ==> r == v
    ensures Truthy(v) && ExtractDigits(ToStr(v)) != [] ==> r == JInt(DigitsValue(ExtractDigits(ToStr(v))))
    ensures Truthy(v) && ExtractDigits(ToStr(v)) == [] ==> r == JNull
  {
    if Truthy(v) then
      var digits := ExtractDigits(ToStr(v));
      if digits != [] then JInt(DigitsValue(digits)) else JNull
    else v
  }

  predicate NoDigits(s: string)
  {
    forall i :: 0 <= i < |s| ==> !IsDigit(s[i])
  }

  lemma {:induction false} ExtractDigitsAppend(a: string, b: string)
    ensures ExtractDigits(a + b) == ExtractDigits(a) + ExtractDigits(b)
    decreases |a|
  {
    if a == [] {
      assert a + b == b;
    } else {
      assert (a + b)[0] == a[0] && (a + b)[1..] == a[1..] + b;
      ExtractDigitsAppend(a[1..], b);
    }
  }

  lemma {:induction false} ExtractNoDigits(s: string)
    requires NoDigits(s)
    ensures ExtractDigits(s) == []
    decreases |s|
  {
    if s != [] {
      ExtractNoDigits(s[1..]);
    }
  }

  /** A number surrounded by digit-free text, such as `"ID: 210001"`, is read as that number. */
  lemma {:induction false} BookPatientIdOfLabelledNumber(a: string, n: nat, b: string)
    requires NoDigits(a) && NoDigits(b)
    ensures BookPatientId(JStr(a + DecimalString(n) + b)) == JInt(n)
  {
    ExtractDigitsAppend(a + DecimalString(n), b);
    ExtractDigitsAppend(a, DecimalString(n));
    ExtractNoDigits(a);
    ExtractNoDigits(b);
    DecimalRoundTrip(n);
    assert ExtractDigits(a + DecimalString(n) + b) == DecimalString(n);
  }

  /** Digit runs separated by digit-free text are read as one number: `"12-34"` becomes 1234. */
  lemma {:induction false} BookPatientIdJoinsRuns(a: string, sep: string, b: string)
    requires AllDigits(a) && AllDigits(b) && NoDigits(sep) && a + b != []
    ensures BookPatientId(JStr(a + sep + b)) == JInt(DigitsValue(a + b))
  {
    ExtractDigitsAppend(a + sep, b);
    ExtractDigitsAppend(a, sep);
    ExtractNoDigits(sep);
    assert ExtractDigits(a + sep + b) == a + b;
  }

  /** The reschedule validator reads a labelled number such as `"ID: 210001"` as that number. */
  lemma {:induction false} RescheduleIdOfLabelledNumber(a: string, n: nat, b: string)
    requires NoDigits(a) && NoDigits(b)
    ensures ReschedulePatientId(JStr(a + DecimalString(n) + b)) == JInt(n)
  {
    BookPatientIdOfLabelledNumber(a, n, b);
    PatientIdValidatorsAgree(a + DecimalString(n) + b);
  }

  /** On a non-empty string id the book and reschedule validators agree; an empty one is nulled only by book. */
  lemma {:induction false} PatientIdValidatorsAgree(s: string)
    ensures s != [] ==> ReschedulePatientId(JStr(s)) == BookPatientId(JStr(s))
    ensures s == [] ==> BookPatientId(JStr(s)) == JNull && ReschedulePatientId(JStr(s)) == JStr(s)
  {
  }

  /** A string id without digits becomes null, so the typed field rejects it. */
  lemma {:induction false} BookPatientIdWithoutDigits(s: string)
    requires NoDigits(s)
    ensures BookPatientId(JStr(s)) == JNull
  {
    ExtractNoDigits(s);
  }

  /** The reschedule validator keeps a positive id and drops the sign of a negative one. */
  lemma {:induction false} RescheduleIdOfInt(i: int)
    ensures ReschedulePatientId(JInt(i)) == JInt(if i < 0 then -i else i)
  {
    if i != 0 {
      DigitsOfIntToStr(i);
    }
  }

  /** `True` has no digits, so a boolean id is turned into null. */
  lemma {:induction false} RescheduleIdOfTrue()
    ensures ReschedulePatientId(JBool(true)) == JNull
  {
    var t := "True";
    assert !IsDigit(t[0]) && !IsDigit(t[1]) && !IsDigit(t[2]) && !IsDigit(t[3]);
    ExtractNoDigits(t);
  }

  // ---------------------------------------------------------------------
  // The validators

  /** The shape shared by the book and test-booking validators: the id and one name field, then the id conversion. */
  function IdAndNameFields(items: seq<(string, Json)>, name: string, a: string, b: string): (m: map<string, Json>)
    requires name != "patient_id"
    ensures "patient_id" in m && name in m
  {
    var d := Alias(Alias(CleanedKeys(items, true), "patient_id", "patientId", "id"), name, a, b);
    d["patient_id" := BookPatientId(d["patient_id"])]
  }

  /** `BookRequest.bulletproof_inputs` */
  function NormalizeBook(items: seq<(string, Json)>): (m: map<string, Json>)
    ensures "patient_id" in m && "doctor_name" in m
  {
    IdAndNameFields(items, "doctor_name", "doctor", "doctorName")
  }

  /** `BookTestRequest.bulletproof_inputs` */
  function NormalizeBookTest(items: seq<(string, Json)>): (m: map<string, Json>)
    ensures "patient_id" in m && "test_name" in m
  {
    IdAndNameFields(items, "test_name", "test", "name")
  }

  /** `RescheduleRequest.bulletproof_inputs` */
  function NormalizeReschedule(items: seq<(string, Json)>): (m: map<string, Json>)
    ensures "patient_id" in m && "new_date" in m && "new_time" in m
  {
    var d := Alias(Alias(Alias(CleanedKeys(items, true), "patient_id", "patientId", "id"),
                         "new_date", "date", "newDate"), "new_time", "time", "newTime");
    d["patient_id" := ReschedulePatientId(d["patient_id"])]
  }

  /** `CancelRequest.fix_keys`: keys lose only line feeds, and the id is not converted. */
  function NormalizeCancel(items: seq<(string, Json)>): (m: map<string, Json>)
    ensures "patient_id" in m
  {
    Alias(CleanedKeys(items, false), "patient_id", "patientId", "id")
  }

  /** `AvailabilityRequest.fix_keys`: an empty-string branch becomes null. */
  function NormalizeAvailability(items: seq<(string, Json)>): (m: map<string, Json>)
    ensures "doctor_name" in m && "branch_id" in m
    ensures m["branch_id"] != JStr([])
  {
    var d := Alias(Alias(CleanedKeys(items, true), "doctor_name", "doctor", "doctorName"), "branch_id", "branchId", "branch");
    if d["branch_id"] == JStr([]) then d["branch_id" := JNull] else d
  }

  // ---------------------------------------------------------------------
  // What the validators leave under each key

  /** Member `i` is the last one whose key cleans to `key`. */
  predicate LastWithKey(items: seq<(string, Json)>, dropCR: bool, key: string, i: int)
  {
    0 <= i < |items| && CleanKey(items[i].0, dropCR) == key &&
    forall j :: i < j < |items| ==> CleanKey(items[j].0, dropCR) != key
  }

  /** No member's key cleans to `key`. */
  predicate NoMemberKey(items: seq<(string, Json)>, dropCR: bool, key: string)
  {
    forall i :: 0 <= i < |items| ==> CleanKey(items[i].0, dropCR) != key
  }

  /**
   * A map that agrees with the cleaned members outside `skip` gets, under an
   * alias step for `key`, the value of the last member whose key cleans to
   * `key`, or else the first truthy of the two aliases.
   */
  lemma {:induction false} AliasOfCleaned(items: seq<(string, Json)>, dropCR: bool, m: map<string, Json>,
                                          skip: set<string>, key: string, a: string, b: string)
    requires key !in skip && a !in skip && b !in skip
    requires forall k :: k !in skip ==> (k in m <==> k in CleanedKeys(items, dropCR))
    requires forall k :: k !in skip && k in m ==> m[k] == CleanedKeys(items, dropCR)[k]
    ensures forall i :: LastWithKey(items, dropCR, key, i) ==> Alias(m, key, a, b)[key] == items[i].1
    ensures NoMemberKey(items, dropCR, key) ==>
              Alias(m, key, a, b)[key] == Or(Get(CleanedKeys(items, dropCR), a), Get(CleanedKeys(items, dropCR), b))
  {
    var c := CleanedKeys(items, dropCR);
    forall i | LastWithKey(items, dropCR, key, i)
      ensures Alias(m, key, a, b)[key] == items[i].1
    {
      CleanedKeysLastWins(items, dropCR, i);
    }
    if NoMemberKey(items, dropCR, key) {
      CleanedKeysDomain(items, dropCR, key);
      assert Get(m, a) == Get(c, a) && Get(m, b) == Get(c, b);
    }
  }

  /** An alias step keeps every other key as it was, so the map still agrees with the cleaned members outside `skip` and `key`. */
  lemma {:induction false} AliasKeepsAgreement(items: seq<(string, Json)>, dropCR: bool, m: map<string, Json>,
                                               skip: set<string>, key: string, a: string, b: string)
    requires forall k :: k !in skip ==> (k in m <==> k in CleanedKeys(items, dropCR))
    requires forall k :: k !in skip && k in m ==> m[k] == CleanedKeys(items, dropCR)[k]
    ensures forall k :: k !in skip + {key} ==> (k in Alias(m, key, a, b) <==> k in CleanedKeys(items, dropCR))
    ensures forall k :: k !in skip + {key} && k in Alias(m, key, a, b) ==> Alias(m, key, a, b)[k] == CleanedKeys(items, dropCR)[k]
  {
  }

  /** The value a second alias step leaves under its key, when the first step set another key. */
  lemma {:induction false} SecondAliasValue(items: seq<(string, Json)>, dropCR: bool,
                                            k1: string, a1: string, b1: string, key: string, a: string, b: string)
    requires k1 != key && k1 != a && k1 != b
    ensures var c := CleanedKeys(items, dropCR);
            var d := Alias(Alias(c, k1, a1, b1), key, a, b);
            (forall i :: LastWithKey(items, dropCR, key, i) ==> d[key] == items[i].1) &&
            (NoMemberKey(items, dropCR, key) ==> d[key] == Or(Get(c, a), Get(c, b)))
  {
    var c := CleanedKeys(items, dropCR);
    AliasKeepsAgreement(items, dropCR, c, {}, k1, a1, b1);
    assert {} + {k1} == {k1};
    AliasOfCleaned(items, dropCR, Alias(c, k1, a1, b1), {k1}, key, a, b);
  }

  /** The value a third alias step leaves under its key, when the first two steps set other keys. */
  lemma {:induction false} ThirdAliasValue(items: seq<(string, Json)>, dropCR: bool,
                                           k1: string, a1: string, b1: string, k2: string, a2: string, b2: string,
                                           key: string, a: string, b: string)
    requires k1 != key && k1 != a && k1 != b && k2 != key && k2 != a && k2 != b
    ensures var c := CleanedKeys(items, dropCR);
            var d := Alias(Alias(Alias(c, k1, a1, b1), k2, a2, b2), key, a, b);
            (forall i :: LastWithKey(items, dropCR, key, i) ==> d[key] == items[i].1) &&
            (NoMemberKey(items, dropCR, key) ==> d[key] == Or(Get(c, a), Get(c, b)))
  {
    var c := CleanedKeys(items, dropCR);
    var d1 := Alias(c, k1, a1, b1);
    AliasKeepsAgreement(items, dropCR, c, {}, k1, a1, b1);
    assert {} + {k1} == {k1};
    AliasKeepsAgreement(items, dropCR, d1, {k1}, k2, a2, b2);
    AliasOfCleaned(items, dropCR, Alias(d1, k2, a2, b2), {k1} + {k2}, key, a, b);
  }

  /**
   * What the book and test-booking validators leave: the id of the last
   * member named `patient_id` (or of the first truthy alias) with a string
   * id reduced to its digits, the name field taken the same way, and every
   * other cleaned key unchanged.
   */
  lemma {:induction false} IdAndNameValues(items: seq<(string, Json)>, name: string, a: string, b: string)
    requires name != "patient_id" && a != "patient_id" && b != "patient_id"
    ensures var c := CleanedKeys(items, true);
            var m := IdAndNameFields(items, name, a, b);
            m.Keys == c.Keys + {"patient_id", name} &&
            (forall k :: k in c && k != "patient_id" && k != name ==> m[k] == c[k]) &&
            (forall i :: LastWithKey(items, true, "patient_id", i) ==> m["patient_id"] == BookPatientId(items[i].1)) &&
            (NoMemberKey(items, true, "patient_id") ==>
               m["patient_id"] == BookPatientId(Or(Get(c, "patientId"), Get(c, "id")))) &&
            (forall i :: LastWithKey(items, true, name, i) ==> m[name] == items[i].1) &&
            (NoMemberKey(items, true, name) ==> m[name] == Or(Get(c, a), Get(c, b)))
  {
    var c := CleanedKeys(items, true);
    var d1 := Alias(c, "patient_id", "patientId", "id");
    var d2 := Alias(d1, name, a, b);
    var m := IdAndNameFields(items, name, a, b);
    assert m == d2["patient_id" := BookPatientId(d2["patient_id"])];
    assert d2["patient_id"] == d1["patient_id"];
    assert m.Keys == c.Keys + {"patient_id", name} by {
      assert d1.Keys == c.Keys + {"patient_id"};
      assert d2.Keys == d1.Keys + {name};
      assert m.Keys == d2.Keys;
    }
    forall k | k in c && k != "patient_id" && k != name
      ensures m[k] == c[k]
    {
      assert m[k] == d2[k] == d1[k];
    }
    assert (forall i :: LastWithKey(items, true, "patient_id", i) ==> m["patient_id"] == BookPatientId(items[i].1)) &&
           (NoMemberKey(items, true, "patient_id") ==>
              m["patient_id"] == BookPatientId(Or(Get(c, "patientId"), Get(c, "id")))) by {
      AliasOfCleaned(items, true, c, {}, "patient_id", "patientId", "id");
    }
    assert (forall i :: LastWithKey(items, true, name, i) ==> m[name] == items[i].1) &&
           (NoMemberKey(items, true, name) ==> m[name] == Or(Get(c, a), Get(c, b))) by {
      SecondAliasValue(items, true, "patient_id", "patientId", "id", name, a, b);
    }
  }

  /** What the book validator leaves under `patient_id` and `doctor_name`, and that it keeps the other keys. */
  lemma {:induction false} NormalizeBookValues(items: seq<(string, Json)>)
    ensures var c := CleanedKeys(items, true);
            var m := NormalizeBook(items);
            m.Keys == c.Keys + {"patient_id", "doctor_name"} &&
            (forall k :: k in c && k != "patient_id" && k != "doctor_name" ==> m[k] == c[k]) &&
            (forall i :: LastWithKey(items, true, "patient_id", i) ==> m["patient_id"] == BookPatientId(items[i].1)) &&
            (NoMemberKey(items, true, "patient_id") ==>
               m["patient_id"] == BookPatientId(Or(Get(c, "patientId"), Get(c, "id")))) &&
            (forall i :: LastWithKey(items, true, "doctor_name", i) ==> m["doctor_name"] == items[i].1) &&
            (NoMemberKey(items, true, "doctor_name") ==> m["doctor_name"] == Or(Get(c, "doctor"), Get(c, "doctorName")))
  {
    IdAndNameValues(items, "doctor_name", "doctor", "doctorName");
  }

  /** What the test-booking validator leaves under `patient_id` and `test_name`, and that it keeps the other keys. */
  lemma {:induction false} NormalizeBookTestValues(items: seq<(string, Json)>)
    ensures var c := CleanedKeys(items, true);
            var m := NormalizeBookTest(items);
            m.Keys == c.Keys + {"patient_id", "test_name"} &&
            (forall k :: k in c && k != "patient_id" && k != "test_name" ==> m[k] == c[k]) &&
            (forall i :: LastWithKey(items, true, "patient_id", i) ==> m["patient_id"] == BookPatientId(items[i].1)) &&
            (NoMemberKey(items, true, "patient_id") ==>
               m["patient_id"] == BookPatientId(Or(Get(c, "patientId"), Get(c, "id")))) &&
            (forall i :: LastWithKey(items, true, "test_name", i) ==> m["test_name"] == items[i].1) &&
            (NoMemberKey(items, true, "test_name") ==> m["test_name"] == Or(Get(c, "test"), Get(c, "name")))
  {
    IdAndNameValues(items, "test_name", "test", "name");
  }

  /** What the reschedule validator leaves under `patient_id`: the id converted, and every key other than the three it sets unchanged. */
  lemma {:induction false} NormalizeRescheduleValues(items: seq<(string, Json)>)
    ensures var c := CleanedKeys(items, true);
            var m := NormalizeReschedule(items);
            m.Keys == c.Keys + {"patient_id", "new_date", "new_time"} &&
            (forall k :: k in c && k != "patient_id" && k != "new_date" && k != "new_time" ==> m[k] == c[k]) &&
            (forall i :: LastWithKey(items, true, "patient_id", i) ==> m["patient_id"] == ReschedulePatientId(items[i].1)) &&
            (NoMemberKey(items, true, "patient_id") ==>
               m["patient_id"] == ReschedulePatientId(Or(Get(c, "patientId"), Get(c, "id"))))
  {
    var c := CleanedKeys(items, true);
    var d1 := Alias(c, "patient_id", "patientId", "id");
    var d2 := Alias(d1, "new_date", "date", "newDate");
    var d3 := Alias(d2, "new_time", "time", "newTime");
    var m := NormalizeReschedule(items);
    assert m == d3["patient_id" := ReschedulePatientId(d3["patient_id"])];
    assert d3["patient_id"] == d1["patient_id"];
    assert m.Keys == c.Keys + {"patient_id", "new_date", "new_time"} by {
      assert d1.Keys == c.Keys + {"patient_id"};
      assert d2.Keys == d1.Keys + {"new_date"};
      assert d3.Keys == d2.Keys + {"new_time"};
      assert m.Keys == d3.Keys;
    }
    forall k | k in c && k != "patient_id" && k != "new_date" && k != "new_time"
      ensures m[k] == c[k]
    {
      assert m[k] == d3[k] == d2[k] == d1[k];
    }
    AliasOfCleaned(items, true, c, {}, "patient_id", "patientId", "id");
  }

  /** What the reschedule validator leaves under `new_date` and `new_time`: the last member so named, else the first truthy alias. */
  lemma {:induction false} NormalizeRescheduleDateTime(items: seq<(string, Json)>)
    ensures var c := CleanedKeys(items, true);
            var m := NormalizeReschedule(items);
            (forall i :: LastWithKey(items, true, "new_date", i) ==> m["new_date"] == items[i].1) &&
            (NoMemberKey(items, true, "new_date") ==> m["new_date"] == Or(Get(c, "date"), Get(c, "newDate"))) &&
            (forall i :: LastWithKey(items, true, "new_time", i) ==> m["new_time"] == items[i].1) &&
            (NoMemberKey(items, true, "new_time") ==> m["new_time"] == Or(Get(c, "time"), Get(c, "newTime")))
  {    var c := CleanedKeys(items, true);
    var d2 := Alias(Alias(c, "patient_id", "patientId", "id"), "new_date", "date", "newDate");
    var d3 := Alias(d2, "new_time", "time", "newTime");
    var m := NormalizeReschedule(items);
    assert m == d3["patient_id" := ReschedulePatientId(d3["patient_id"])];
    assert m["new_date"] == d2["new_date"] && m["new_time"] == d3["new_time"];
    SecondAliasValue(items, true, "patient_id", "patientId", "id", "new_date", "date", "newDate");
    ThirdAliasValue(items, true, "patient_id", "patientId", "id", "new_date", "date", "newDate", "new_time", "time", "newTime");
  }

  /** What the cancellation validator leaves: the id exactly as sent (no conversion), and every other key unchanged. */
  lemma {:induction false} NormalizeCancelValues(items: seq<(string, Json)>)
    ensures var c := CleanedKeys(items, false);
            var m := NormalizeCancel(items);
            m.Keys == c.Keys + {"patient_id"} &&
            (forall k :: k in c && k != "patient_id" ==> m[k] == c[k]) &&
            (forall i :: LastWithKey(items, false, "patient_id", i) ==> m["patient_id"] == items[i].1) &&
            (NoMemberKey(items, false, "patient_id") ==> m["patient_id"] == Or(Get(c, "patientId"), Get(c, "id")))
  {
    AliasOfCleaned(items, false, CleanedKeys(items, false), {}, "patient_id", "patientId", "id");
  }

  /** `""` for a branch becomes null, any other value is kept. */
  function EmptyToNull(v: Json): Json
  {
    if v == JStr([]) then JNull else v
  }

  /** What the availability validator leaves: the doctor name, the branch with `""` turned into null, and every other key unchanged. */
  lemma {:induction false} NormalizeAvailabilityValues(items: seq<(string, Json)>)
    ensures var c := CleanedKeys(items, true);
            var m := NormalizeAvailability(items);
            m.Keys == c.Keys + {"doctor_name", "branch_id"} &&
            (forall k :: k in c && k != "doctor_name" && k != "branch_id" ==> m[k] == c[k]) &&
            (forall i :: LastWithKey(items, true, "doctor_name", i) ==> m["doctor_name"] == items[i].1) &&
            (NoMemberKey(items, true, "doctor_name") ==> m["doctor_name"] == Or(Get(c, "doctor"), Get(c, "doctorName"))) &&
            (forall i :: LastWithKey(items, true, "branch_id", i) ==> m["branch_id"] == EmptyToNull(items[i].1)) &&
            (NoMemberKey(items, true, "branch_id") ==> m["branch_id"] == EmptyToNull(Or(Get(c, "branchId"), Get(c, "branch"))))
  {
    var c := CleanedKeys(items, true);
    var d1 := Alias(c, "doctor_name", "doctor", "doctorName");
    var d2 := Alias(d1, "branch_id", "branchId", "branch");
    var m := NormalizeAvailability(items);
    assert m == if d2["branch_id"] == JStr([]) then d2["branch_id" := JNull] else d2;
    assert m["branch_id"] == EmptyToNull(d2["branch_id"]);
    assert m["doctor_name"] == d1["doctor_name"];
    assert m.Keys == c.Keys + {"doctor_name", "branch_id"};
    assert forall k :: k in c && k != "doctor_name" && k != "branch_id" ==> m[k] == c[k];
    assert (forall i :: LastWithKey(items, true, "doctor_name", i) ==> m["doctor_name"] == items[i].1) &&
           (NoMemberKey(items, true, "doctor_name") ==> m["doctor_name"] == Or(Get(c, "doctor"), Get(c, "doctorName"))) by {
      AliasOfCleaned(items, true, c, {}, "doctor_name", "doctor", "doctorName");
    }
    assert (forall i :: LastWithKey(items, true, "branch_id", i) ==> m["branch_id"] == EmptyToNull(items[i].1)) &&
           (NoMemberKey(items, true, "branch_id") ==> m["branch_id"] == EmptyToNull(Or(Get(c, "branchId"), Get(c, "branch")))) by {
      SecondAliasValue(items, true, "doctor_name", "doctor", "doctorName", "branch_id", "branchId", "branch");
    }
  }

  /** A key that is the canonical name up to surrounding whitespace and line breaks is found as that name. */
  lemma {:induction false} GhostKeyFound(items: seq<(string, Json)>, i: int, key: string)
    requires 0 <= i < |items| && CleanKey(items[i].0, true) == key
    requires forall j :: i < j < |items| ==> CleanKey(items[j].0, true) != key
    ensures Get(Alias(CleanedKeys(items, true), key, "x", "y"), key) == items[i].1
  {
    CleanedKeysLastWins(items, true, i);
  }

  // ---------------------------------------------------------------------
  // get_safe_int

  /** Digits with single underscores between them, as `int()` accepts. */
  predicate Underscored(s: string)
  {
    s != [] && IsDigit(s[0]) && IsDigit(s[|s| - 1]) &&
    (forall i :: 0 <= i < |s| ==> IsDigit(s[i]) || s[i] == '_') &&
    (forall i :: 0 <= i < |s| - 1 ==> !(s[i] == '_' && s[i + 1] == '_'))
  }

  /** The value of digits with underscores, the underscores being ignored. */
  function UnderscoredValue(s: string): nat
    requires forall i :: 0 <= i < |s| ==> IsDigit(s[i]) || s[i] == '_'
  {
    if s == [] then 0
    else if s[|s| - 1] == '_' then UnderscoredValue(s[..|s| - 1])
    else 10 * UnderscoredValue(s[..|s| - 1]) + DigitValue(s[|s| - 1])
  }

  lemma {:induction false} UnderscoredValueOfDigits(s: string)
    requires AllDigits(s)
    ensures UnderscoredValue(s) == DigitsValue(s)
    decreases |s|
  {
    if s != [] {
      UnderscoredValueOfDigits(s[..|s| - 1]);
    }
  }

  /** Python `int(s)` in base 10, `None` for the `ValueError`. */
  function ParseInt(s: string): (r: Option<int>)
    ensures r.Some? ==> Strip(s) != []
    ensures r.Some? ==> forall i :: 1 <= i < |Strip(s)| ==> IsDigit(Strip(s)[i]) || Strip(s)[i] == '_'
  {
    var t := Strip(s);
    if t == [] then None
    else
      var neg := t[0] == '-';
      var body := if t[0] == '-' || t[0] == '+' then t[1..] else t;
      if Underscored(body) then
        var n := UnderscoredValue(body);
        var v := if neg then -(n as int) else n as int;
        Some(v)
      else None
  }

  /** `get_safe_int(val)`: `None` for falsy values and for text `int` refuses. */
  function SafeInt(v: Json): (r: Option<int>)
    ensures !Truthy(v) ==> r.None?
  {
    if !Truthy(v) then None else ParseInt(ToStr(v))
  }

  /** Plain decimal digits are accepted by `int` and keep their value. */
  lemma {:induction false} UnderscoredDigits(d: string)
    requires d != [] && AllDigits(d)
    ensures Underscored(d) && UnderscoredValue(d) == DigitsValue(d)
  {
    UnderscoredValueOfDigits(d);
  }

  /** `int` reads a run of decimal digits as its value. */
  lemma {:induction false} ParseDigits(d: string)
    requires d != [] && AllDigits(d)
    ensures ParseInt(d) == Some(DigitsValue(d))
  {
    StripUnchanged(d);
    UnderscoredDigits(d);
  }

  /** `int` reads a minus sign and a run of decimal digits as the negated value. */
  lemma {:induction false} ParseNegativeDigits(d: string)
    requires d != [] && AllDigits(d)
    ensures ParseInt("-" + d) == Some(-(DigitsValue(d) as int))
  {
    var m := "-" + d;
    assert m[0] == '-' && m[|m| - 1] == d[|d| - 1] && m[1..] == d;
    StripUnchanged(m);
    UnderscoredDigits(d);
  }

  lemma {:induction false} ParseDecimal(i: int)
    ensures ParseInt(IntToStr(i)) == Some(i)
  {
    var n := if i < 0 then -i else i;
    var d := DecimalString(n);
    DecimalRoundTrip(n);
    if i < 0 {
      ParseNegativeDigits(d);
    } else {
      ParseDigits(d);
    }
  }

  /** Text that starts with a letter, such as `True`, is refused by `int`. */
  lemma {:induction false} ParseIntRejectsWord(s: string)
    requires Strip(s) != [] && IsLetter(Strip(s)[0])
    ensures ParseInt(s).None?
  {
  }

  /** An integer survives `int(str(val).strip())`, except zero, which is falsy. */
  lemma {:induction false} SafeIntOfInt(i: int)
    ensures SafeInt(JInt(i)) == if i == 0 then None else Some(i)
  {
    ParseDecimal(i);
  }

  /** The decimal text of any integer, zero included, reads back as that integer. */
  lemma {:induction false} SafeIntOfDecimal(i: int)
    ensures SafeInt(JStr(IntToStr(i))) == Some(i)
  {
    ParseDecimal(i);
  }

  /** Booleans never come back as integers. */
  lemma {:induction false} SafeIntOfBool(b: bool)
    ensures SafeInt(JBool(b)).None?
  {
    if b {
      var t := ToStr(JBool(b));
      assert t == "True";
      assert t[0] == 'T' && t[3] == 'e';
      StripUnchanged(t);
      ParseIntRejectsWord(t);
    }
  }
}
