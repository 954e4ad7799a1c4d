/** The JavaScript string operations the generator relies on, stated over
    `seq<char>`: `split` and `join` on a one-character separator, `pop` and
    `shift` of a split, `includes`, `Number(text)` on decimal text, number
    formatting in a template literal, the `/(\?.*$)/` query regex, the
    title-casing helper shared by the generator and the rarity report, and
    `Array.prototype.filter`. */
module JsText {
  import opened Wrappers

  // ---------------------------------------------------------------------
  // Character classes
  // ---------------------------------------------------------------------

  /** The characters ECMAScript's `.` does not match and `$` (without the
      multiline flag) does not look past. */
  predicate IsLineTerminator(c: char) {
    c == '\n' || c == '\r' || c as int == 0x2028 || c as int == 0x2029
  }

  predicate NoLineTerminator(s: string) {
    forall i :: 0 <= i < |s| ==> !IsLineTerminator(s[i])
  }

  /** White space and line terminators, the characters `Number()` trims. */
  predicate IsJsWhiteSpace(c: char) {
    || c == '\t' || c as int == 0x0B || c as int == 0x0C || c == ' '
    || c as int == 0xA0 || c as int == 0xFEFF || c as int == 0x1680
    || (0x2000 <= c as int <= 0x200A)
    || c as int == 0x202F || c as int == 0x205F || c as int == 0x3000
    || IsLineTerminator(c)
  }

  predicate IsDigit(c: char) {
    '0' <= c <= '9'
  }

  predicate AllDigits(s: string) {
    forall i :: 0 <= i < |s| ==> IsDigit(s[i])
  }

  /** `toUpperCase` on the ASCII letters; every other character is kept. */
  function ToUpper(c: char): (u: char)
    ensures 'a' <= c <= 'z' ==> 'A' <= u <= 'Z' && u as int == c as int - 32
    ensures !('a' <= c <= 'z') ==> u == c
  {
    if 'a' <= c <= 'z' then (c as int - 32) as char else c
  }

  // ---------------------------------------------------------------------
  // split / join
  // ---------------------------------------------------------------------

  /** `s.split(d)`: the maximal pieces of `s` between occurrences of `d`;
      never empty (`"".split(d)` is `[""]`). */
  function Split(s: string, d: char): (parts: seq<string>)
    ensures |parts| >= 1
    ensures forall k :: 0 <= k < |parts| ==> d !in parts[k]
    ensures Join(parts, d) == s
    decreases |s|
  {
    if |s| == 0 then [""]
    else
      var rest := Split(s[1..], d);
      if s[0] == d then [""] + rest
      else [[s[0]] + rest[0]] + rest[1..]
  }

  /** `parts.join(d)`. */
  function Join(parts: seq<string>, d: char): string
    decreases |parts|
  {
    if |parts| == 0 then ""
    else if |parts| == 1 then parts[0]
    else parts[0] + [d] + Join(parts[1..], d)
  }

  /** Concatenation regroups freely. */
  lemma AppendAssociative<T>(a: seq<T>, b: seq<T>, c: seq<T>)
    ensures (a + b) + c == a + (b + c)
  {
  }

  /** `s.split(d).shift()`: the text before the first `d`. */
  function First(s: string, d: char): string {
    Split(s, d)[0]
  }

  /** `s.split(d).pop()`: the text after the last `d`. */
  function Last(s: string, d: char): string {
    var parts := Split(s, d);
    parts[|parts| - 1]
  }

  lemma {:induction false} SplitWithoutDelimiter(p: string, d: char)
    requires d !in p
    ensures Split(p, d) == [p]
    decreases |p|
  {
    if |p| > 0 {
      assert d !in p[1..];
      SplitWithoutDelimiter(p[1..], d);
    }
  }

  /** Splitting at one occurrence of the separator splits each side apart. */
  lemma {:induction false} SplitAround(p: string, d: char, t: string)
    ensures Split(p + [d] + t, d) == Split(p, d) + Split(t, d)
    decreases |p|
  {
    var s := p + [d] + t;
    if |p| == 0 {
      assert s[1..] == t;
    } else {
      assert s[1..] == p[1..] + [d] + t;
      SplitAround(p[1..], d, t);
    }
  }

  lemma SplitAfterPiece(p: string, d: char, t: string)
    requires d !in p
    ensures Split(p + [d] + t, d) == [p] + Split(t, d)
  {
    SplitAround(p, d, t);
    SplitWithoutDelimiter(p, d);
  }

  /** Splitting undoes joining, as long as no piece holds the separator. */
  lemma {:induction false} SplitJoin(parts: seq<string>, d: char)
    requires |parts| >= 1
    requires forall k :: 0 <= k < |parts| ==> d !in parts[k]
    ensures Split(Join(parts, d), d) == parts
    decreases |parts|
  {
    if |parts| == 1 {
      SplitWithoutDelimiter(parts[0], d);
    } else {
      SplitJoin(parts[1..], d);
      SplitAfterPiece(parts[0], d, Join(parts[1..], d));
      assert [parts[0]] + parts[1..] == parts;
    }
  }

  /** Joining is injective on separator-free pieces. */
  lemma JoinInjective(a: seq<string>, b: seq<string>, d: char)
    requires |a| >= 1 && |b| >= 1
    requires forall k :: 0 <= k < |a| ==> d !in a[k]
    requires forall k :: 0 <= k < |b| ==> d !in b[k]
    requires Join(a, d) == Join(b, d)
    ensures a == b
  {
    SplitJoin(a, d);
    SplitJoin(b, d);
  }

  /** The pieces of a join of separator-free pieces contain no separator. */
  lemma {:induction false} JoinWithoutDelimiter(parts: seq<string>, d: char, c: char)
    requires c != d
    requires forall k :: 0 <= k < |parts| ==> c !in parts[k]
    ensures c !in Join(parts, d)
    decreases |parts|
  {
    if |parts| > 1 {
      JoinWithoutDelimiter(parts[1..], d, c);
    }
  }

  lemma JoinOfOne(p: string, d: char)
    ensures Join([p], d) == p
  {
  }

  /** A join is empty only when every piece is empty; in particular a join of
      non-empty pieces is empty only for the empty list. */
  lemma {:induction false} JoinEmpty(parts: seq<string>, d: char)
    requires |parts| >= 1 && |parts[0]| > 0
    ensures |Join(parts, d)| > 0
  {
  }

  // ---------------------------------------------------------------------
  // includes
  // ---------------------------------------------------------------------

  predicate IsPrefix(t: string, s: string) {
    |t| <= |s| && s[..|t|] == t
  }

  /** `s.includes(t)`: `t` occurs in `s` at some position. */
  predicate Contains(s: string, t: string)
    decreases |s|
  {
    IsPrefix(t, s) || (|s| > 0 && Contains(s[1..], t))
  }

  /** `t` occurs in `s` starting at `i`. */
  predicate OccursAt(s: string, t: string, i: int) {
    0 <= i && i + |t| <= |s| && s[i..i + |t|] == t
  }

  lemma {:induction false} ContainsAt(s: string, t: string, i: nat)
    requires OccursAt(s, t, i)
    ensures Contains(s, t)
    decreases i
  {
    if i > 0 {
      assert s[1..][i - 1..i - 1 + |t|] == s[i..i + |t|];
      ContainsAt(s[1..], t, i - 1);
    }
  }

  lemma {:induction false} ContainsWitness(s: string, t: string) returns (i: nat)
    requires Contains(s, t)
    ensures OccursAt(s, t, i)
    decreases |s|
  {
    if IsPrefix(t, s) {
      i := 0;
    } else {
      var j := ContainsWitness(s[1..], t);
      i := j + 1;
      assert s[1..][j..j + |t|] == s[i..i + |t|];
    }
  }

  /** `includes` is exactly "occurs at some position", in both directions. */
  lemma ContainsIff(s: string, t: string)
    ensures Contains(s, t) <==> exists i :: OccursAt(s, t, i)
  {
    if Contains(s, t) {
      var i := ContainsWitness(s, t);
    }
    if exists i :: OccursAt(s, t, i) {
      var i :| OccursAt(s, t, i);
      ContainsAt(s, t, i);
    }
  }

  // ---------------------------------------------------------------------
  // Numbers as text
  // ---------------------------------------------------------------------

  function DigitChar(d: nat): (c: char)
    requires d < 10
    ensures IsDigit(c)
  {
    "0123456789"[d]
  }

  function DigitValue(c: char): (v: nat)
    requires IsDigit(c)
    ensures v < 10
  {
    c as int - '0' as int
  }

  lemma DigitRoundTrip(d: nat)
    requires d < 10
    ensures DigitValue(DigitChar(d)) == d
  {
  }

  /** The decimal text of a natural number, as `${n}` renders it. */
  function NatToString(n: nat): (s: string)
    ensures |s| >= 1 && AllDigits(s)
    decreases n
  {
    if n < 10 then [DigitChar(n)] else NatToString(n / 10) + [DigitChar(n % 10)]
  }

  /** The value of a string of decimal digits (leading zeros allowed). */
  function DigitsValue(s: string): nat
    requires AllDigits(s)
    decreases |s|
  {
    if |s| == 0 then 0 else 10 * DigitsValue(s[..|s| - 1]) + DigitValue(s[|s| - 1])
  }

  /** Reading back the rendered text of `n` gives `n`. */
  lemma {:induction false} DigitsValueOfNatToString(n: nat)
    ensures DigitsValue(NatToString(n)) == n
    decreases n
  {
    var s := NatToString(n);
    if n < 10 {
      DigitRoundTrip(n);
    } else {
      DigitsValueOfNatToString(n / 10);
      DigitRoundTrip(n % 10);
      assert s[..|s| - 1] == NatToString(n / 10);
    }
  }

  lemma NatToStringInjective(m: nat, n: nat)
    requires NatToString(m) == NatToString(n)
    ensures m == n
  {
    DigitsValueOfNatToString(m);
    DigitsValueOfNatToString(n);
  }

  function TrimStart(s: string): (t: string)
    ensures |t| <= |s| && t == s[|s| - |t|..]
    ensures |t| > 0 ==> !IsJsWhiteSpace(t[0])
    decreases |s|
  {
    if |s| > 0 && IsJsWhiteSpace(s[0]) then TrimStart(s[1..]) else s
  }

  function TrimEnd(s: string): (t: string)
    ensures |t| <= |s| && t == s[..|t|]
    ensures |t| > 0 ==> !IsJsWhiteSpace(t[|t| - 1])
    decreases |s|
  {
    if |s| > 0 && IsJsWhiteSpace(s[|s| - 1]) then TrimEnd(s[..|s| - 1]) else s
  }

  /** A digit is no white space, so trimming leaves a numeral alone. */
  lemma DigitsAreNotTrimmed(s: string)
    ensures AllDigits(s) ==> TrimEnd(TrimStart(s)) == s
  {
    if AllDigits(s) && |s| > 0 {
      assert IsDigit(s[0]) && IsDigit(s[|s| - 1]);
      assert !IsJsWhiteSpace(s[0]);
      assert TrimStart(s) == s;
      assert !IsJsWhiteSpace(s[|s| - 1]);
    }
  }

  /** `Number(text)` restricted to decimal integers: surrounding white space
      is ignored, blank text is 0, a run of decimal digits is its value, and
      everything else reads as NaN (`None`). */
  function ToNumber(s: string): (r: Option<nat>)
    ensures AllDigits(s) && |s| > 0 ==> r == Some(DigitsValue(s))
  {
    DigitsAreNotTrimmed(s);
    var t := TrimEnd(TrimStart(s));
    if |t| == 0 then Some(0)
    else if AllDigits(t) then Some(DigitsValue(t))
    else None
  }

  /** `Number(`${n}`)` is `n`. */
  lemma ToNumberOfNatToString(n: nat)
    ensures ToNumber(NatToString(n)) == Some(n)
  {
    DigitsValueOfNatToString(n);
  }

  // ---------------------------------------------------------------------
  // The query regex /(\?.*$)/
  // ---------------------------------------------------------------------

  /** `/(\?.*$)/` matches at `j`: a `?` with no line terminator after it. */
  predicate QueryAt(s: string, j: int) {
    0 <= j < |s| && s[j] == '?' && NoLineTerminator(s[j + 1..])
  }

  /** The position of the leftmost match of `/(\?.*$)/`, if any. */
  function QueryStart(s: string): (q: Option<nat>)
    ensures q.Some? ==> QueryAt(s, q.value)
    ensures q.Some? ==> forall j :: 0 <= j < q.value ==> !QueryAt(s, j)
    ensures q.None? ==> forall j :: 0 <= j < |s| ==> !QueryAt(s, j)
    decreases |s|
  {
    if |s| == 0 then None
    else if s[0] == '?' && NoLineTerminator(s[1..]) then Some(0)
    else
      var q := QueryStart(s[1..]);
      assert !QueryAt(s, 0);
      assert forall j :: 1 <= j < |s| ==> (QueryAt(s, j) <==> QueryAt(s[1..], j - 1)) by {
        forall j | 1 <= j < |s|
          ensures QueryAt(s, j) <==> QueryAt(s[1..], j - 1)
        {
          assert s[1..][j..] == s[j + 1..];
        }
      }
      match q
      case None => None
      case Some(k) => Some(k + 1)
  }

  lemma NoQuestionMarkNoQuery(s: string)
    requires '?' !in s
    ensures QueryStart(s).None?
  {
  }

  /** The regex matches at the first `?` of `p + "?" + t` when `p` has no
      `?` and `t` has no line terminator. */
  lemma QueryStartAfter(p: string, t: string)
    requires '?' !in p
    requires NoLineTerminator(t)
    ensures QueryStart(p + "?" + t) == Some(|p|)
  {
    var s := p + "?" + t;
    assert s[|p| + 1..] == t;
    assert QueryAt(s, |p|);
    assert forall j :: 0 <= j < |p| ==> s[j] == p[j];
  }

  // ---------------------------------------------------------------------
  // Title case
  // ---------------------------------------------------------------------

  /** `s.replace(/from/g, to)` for a one-character pattern. */
  function ReplaceAll(s: string, from: char, to: char): (r: string)
    ensures |r| == |s|
    ensures forall k :: 0 <= k < |s| ==> r[k] == (if s[k] == from then to else s[k])
    decreases |s|
  {
    if |s| == 0 then ""
    else [if s[0] == from then to else s[0]] + ReplaceAll(s[1..], from, to)
  }

  /** `word.charAt(0).toUpperCase() + word.slice(1)`. */
  function UpperFirst(w: string): string {
    if |w| == 0 then "" else [ToUpper(w[0])] + w[1..]
  }

  function UpperFirstAll(ws: seq<string>): (r: seq<string>)
    ensures |r| == |ws|
    decreases |ws|
  {
    if |ws| == 0 then [] else [UpperFirst(ws[0])] + UpperFirstAll(ws[1..])
  }

  /** `phrase.split(' ').map(upperFirst).join(' ')`. */
  function TitleCase(phrase: string): string {
    Join(UpperFirstAll(Split(phrase, ' ')), ' ')
  }

  /** Reference definition of title case, character by character: a
      character is upper-cased exactly when it starts a word, i.e. it is
      first (and `atStart` holds) or follows a space. */
  function Capitalized(s: string, atStart: bool): (r: string)
    ensures |r| == |s|
    ensures forall k :: 0 <= k < |s| ==>
      r[k] == (if (k == 0 && atStart) || (k > 0 && s[k - 1] == ' ') then ToUpper(s[k]) else s[k])
    decreases |s|
  {
    if |s| == 0 then ""
    else [if atStart then ToUpper(s[0]) else s[0]] + Capitalized(s[1..], s[0] == ' ')
  }

  lemma JoinFirstChar(c: char, w: string, rest: seq<string>, d: char)
    ensures Join([[c] + w] + rest, d) == [c] + Join([w] + rest, d)
  {
    if |rest| > 0 {
      assert ([[c] + w] + rest)[1..] == rest;
      assert ([w] + rest)[1..] == rest;
    }
  }

  lemma {:induction false} CapitalizedIsSplitMapJoin(s: string, atStart: bool)
    ensures var ws := Split(s, ' ');
      Capitalized(s, atStart)
        == Join([if atStart then UpperFirst(ws[0]) else ws[0]] + UpperFirstAll(ws[1..]), ' ')
    decreases |s|
  {
    var ws := Split(s, ' ');
    if |s| == 0 {
    } else {
      var rest := Split(s[1..], ' ');
      if s[0] == ' ' {
        CapitalizedIsSplitMapJoin(s[1..], true);
        assert ws == [""] + rest;
        assert ws[1..] == rest;
        assert UpperFirstAll(rest) == [UpperFirst(rest[0])] + UpperFirstAll(rest[1..]);
        assert ([""] + UpperFirstAll(rest))[1..] == UpperFirstAll(rest);
      } else {
        CapitalizedIsSplitMapJoin(s[1..], false);
        assert ws == [[s[0]] + rest[0]] + rest[1..];
        assert ws[1..] == rest[1..];
        var u := if atStart then ToUpper(s[0]) else s[0];
        assert (if atStart then UpperFirst(ws[0]) else ws[0]) == [u] + rest[0];
        JoinFirstChar(u, rest[0], UpperFirstAll(rest[1..]), ' ');
      }
    }
  }

  /** The source's split/map/join title case agrees with the character-wise
      reference: it upper-cases the first character of the text and every
      character after a space, and changes nothing else. */
  lemma TitleCaseIsCapitalized(s: string)
    ensures TitleCase(s) == Capitalized(s, true)
    ensures |TitleCase(s)| == |s|
  {
    var ws := Split(s, ' ');
    CapitalizedIsSplitMapJoin(s, true);
    assert UpperFirstAll(ws) == [UpperFirst(ws[0])] + UpperFirstAll(ws[1..]);
  }

  // ---------------------------------------------------------------------
  // Array filter
  // ---------------------------------------------------------------------

  /** `items.filter(keep)`: the items `keep` accepts, in their order. */
  function Filter<T(!new)>(keep: T -> bool, items: seq<T>): (kept: seq<T>)
    ensures |kept| <= |items|
    ensures forall x :: x in kept <==> x in items && keep(x)
    decreases |items|
  {
    if |items| == 0 then []
    else
      var rest := Filter(keep, items[1..]);
      assert forall x :: x in items <==> x == items[0] || x in items[1..];
      (if keep(items[0]) then [items[0]] else []) + rest
  }

  /** Filtering works item by item: the filter of a concatenation is the
      concatenation of the filters. */
  lemma {:induction false} FilterAppend<T(!new)>(keep: T -> bool, a: seq<T>, b: seq<T>)
    ensures Filter(keep, a + b) == Filter(keep, a) + Filter(keep, b)
    decreases |a|
  {
    if |a| == 0 {
      assert a + b == b;
    } else {
      assert (a + b)[0] == a[0];
      assert (a + b)[1..] == a[1..] + b;
      FilterAppend(keep, a[1..], b);
    }
  }
}
