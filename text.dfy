/**
  The handful of Python `str` operations the two maintenance scripts rely on,
  written over `string` (a sequence of Unicode scalar values, as Python's `str`
  is a sequence of code points): `strip()`, the `in` operator, a forward search,
  `replace`, `join`, decimal formatting of integers and the code-point order
  that `sorted()` uses on strings.
 */
module Text {

  datatype Option<T> = None | Some(value: T)

  // ---------------------------------------------------------------------------
  // Whitespace and str.strip()
  // ---------------------------------------------------------------------------

  /** The characters Python's `str.isspace()` accepts. */
  predicate IsSpace(c: char) {
    || c == ' ' || c == '\t' || c == '\n' || c == '\r'
    || c == '\U{B}' || c == '\U{C}'
    || ('\U{1C}' <= c <= '\U{1F}')
    || c == '\U{85}' || c == '\U{A0}' || c == '\U{1680}'
    || ('\U{2000}' <= c <= '\U{200A}')
    || c == '\U{2028}' || c == '\U{2029}' || c == '\U{202F}' || c == '\U{205F}' || c == '\U{3000}'
  }

  function TrimStart(s: string): string {
    if s != [] && IsSpace(s[0]) then TrimStart(s[1..]) else s
  }

  function TrimEnd(s: string): string {
    if s != [] && IsSpace(s[|s| - 1]) then TrimEnd(s[..|s| - 1]) else s
  }

  /** `TrimStart` drops the leading whitespace run, and only that. */
  lemma {:induction false} TrimStartMeaning(s: string)
    ensures var r := TrimStart(s);
      && |r| <= |s| && r == s[|s| - |r|..]
      && (forall i :: 0 <= i < |s| - |r| ==> IsSpace(s[i]))
      && (r == [] || !IsSpace(r[0]))
  {
    if s != [] && IsSpace(s[0]) {
      var t := s[1..];
      TrimStartMeaning(t);
      var r := TrimStart(t);
      assert TrimStart(s) == r;
      assert t[|t| - |r|..] == s[|s| - |r|..];
      forall i | 0 <= i < |s| - |r| ensures IsSpace(s[i]) {
        if i > 0 {
          assert s[i] == t[i - 1];
        }
      }
    }
  }

  /** `TrimEnd` drops the trailing whitespace run, and only that. */
  lemma {:induction false} TrimEndMeaning(s: string)
    ensures var r := TrimEnd(s);
      && |r| <= |s| && r == s[..|r|]
      && (forall i :: |r| <= i < |s| ==> IsSpace(s[i]))
      && (r == [] || !IsSpace(r[|r| - 1]))
  {
    if s != [] && IsSpace(s[|s| - 1]) {
      var t := s[..|s| - 1];
      TrimEndMeaning(t);
      var r := TrimEnd(t);
      assert TrimEnd(s) == r;
      assert t[..|r|] == s[..|r|];
      forall i | |r| <= i < |s| ensures IsSpace(s[i]) {
        if i < |s| - 1 {
          assert s[i] == t[i];
        }
      }
    }
  }

  /** `r` is `s` with the whitespace run `s[..i]` in front and whitespace behind it. */
  ghost predicate StrippedAt(s: string, r: string, i: int) {
    && 0 <= i && i + |r| <= |s| && s[i..i + |r|] == r
    && (forall j :: 0 <= j < i ==> IsSpace(s[j]))
    && (forall j :: i + |r| <= j < |s| ==> IsSpace(s[j]))
  }

  /** Python's `s.strip()`: drop whitespace at both ends and nothing else. */
  function Strip(s: string): string {
    TrimEnd(TrimStart(s))
  }

  /** The stripped text is a whitespace-free-at-both-ends slice of `s` with only whitespace around it. */
  lemma StripMeaning(s: string)
    ensures var r := Strip(s);
      && (r == [] || (!IsSpace(r[0]) && !IsSpace(r[|r| - 1])))
      && StrippedAt(s, r, |s| - |TrimStart(s)|)
  {
    TrimStartMeaning(s);
    TrimEndMeaning(TrimStart(s));
  }

  /** Stripping yields the empty string exactly when every character is whitespace. */
  lemma StripEmptyIff(s: string)
    ensures Strip(s) == [] <==> forall j :: 0 <= j < |s| ==> IsSpace(s[j])
  {
    StripMeaning(s);
    var i := |s| - |TrimStart(s)|;
    if Strip(s) != [] {
      assert s[i] == Strip(s)[0];
      assert !IsSpace(s[i]);
    }
  }

  // ---------------------------------------------------------------------------
  // Substring search: the `in` operator and a forward scan
  // ---------------------------------------------------------------------------

  ghost predicate OccursAt(t: string, p: string, i: int) {
    0 <= i && i + |p| <= |t| && t[i..i + |p|] == p
  }

  /** Python's `p in t` for strings. */
  function Contains(t: string, p: string): bool
    decreases |t|
  {
    if |p| > |t| then false
    else if t[..|p|] == p then true
    else |t| > 0 && Contains(t[1..], p)
  }

  lemma {:induction false} ContainsIff(t: string, p: string)
    ensures Contains(t, p) <==> exists i :: OccursAt(t, p, i)
    decreases |t|
  {
    if |p| > |t| {
    } else if t[..|p|] == p {
      assert OccursAt(t, p, 0);
    } else {
      assert |t| > 0;
      ContainsIff(t[1..], p);
      if Contains(t[1..], p) {
        var i :| OccursAt(t[1..], p, i);
        assert t[i + 1..i + 1 + |p|] == t[1..][i..i + |p|];
        assert OccursAt(t, p, i + 1);
      } else {
        forall i | OccursAt(t, p, i) ensures false {
          assert i != 0;
          assert t[1..][i - 1..i - 1 + |p|] == t[i..i + |p|];
          assert OccursAt(t[1..], p, i - 1);
        }
      }
    }
  }

  /** An occurrence inside `t` is an occurrence inside any text that embeds `t`. */
  lemma ContainsWithin(a: string, t: string, b: string, p: string)
    requires Contains(t, p)
    ensures Contains(a + t + b, p)
  {
    ContainsIff(t, p);
    var i :| OccursAt(t, p, i);
    assert (a + t + b)[|a| + i..|a| + i + |p|] == t[i..i + |p|];
    assert OccursAt(a + t + b, p, |a| + i);
    ContainsIff(a + t + b, p);
  }

  /** `in` is transitive: a substring of a substring is a substring. */
  lemma ContainsTrans(t: string, m: string, p: string)
    requires Contains(t, m) && Contains(m, p)
    ensures Contains(t, p)
  {
    ContainsIff(t, m);
    ContainsIff(m, p);
    var i :| OccursAt(t, m, i);
    var j :| OccursAt(m, p, j);
    assert forall k | 0 <= k < |p| :: t[i + j + k] == m[j + k] == p[k];
    assert t[i + j..i + j + |p|] == p;
    assert OccursAt(t, p, i + j);
    ContainsIff(t, p);
  }

  lemma OccursAtContains(t: string, p: string, i: int)
    requires OccursAt(t, p, i)
    ensures Contains(t, p)
  {
    ContainsIff(t, p);
  }

  /** First occurrence of `p` in `t` at or after `from` (Python's `t.find(p, from)`). */
  function FindFrom(t: string, p: string, from: nat): (r: Option<nat>)
    ensures r.Some? ==> from <= r.value && OccursAt(t, p, r.value)
    ensures r.Some? ==> forall j :: from <= j < r.value ==> !OccursAt(t, p, j)
    ensures r.None? ==> forall j :: from <= j ==> !OccursAt(t, p, j)
    decreases |t| - from
  {
    if from + |p| > |t| then None
    else if t[from..from + |p|] == p then Some(from)
    else FindFrom(t, p, from + 1)
  }

  // ---------------------------------------------------------------------------
  // str.replace(p, rep): left to right, non-overlapping, every occurrence
  // ---------------------------------------------------------------------------

  function ReplaceAll(t: string, p: string, rep: string): string
    requires p != []
    decreases |t|
  {
    if |t| < |p| then t
    else if t[..|p|] == p then rep + ReplaceAll(t[|p|..], p, rep)
    else [t[0]] + ReplaceAll(t[1..], p, rep)
  }

  /** Replacing a pattern that does not occur leaves the text as it was. */
  lemma {:induction false} ReplaceAllAbsent(t: string, p: string, rep: string)
    requires p != [] && !Contains(t, p)
    ensures ReplaceAll(t, p, rep) == t
    decreases |t|
  {
    if |t| >= |p| {
      assert t[..|p|] != p;
      ReplaceAllAbsent(t[1..], p, rep);
      assert [t[0]] + t[1..] == t;
    }
  }

  /** Once the pattern occurs, its replacement occurs in the result. */
  lemma {:induction false} ReplaceAllPresent(t: string, p: string, rep: string)
    requires p != [] && Contains(t, p)
    ensures Contains(ReplaceAll(t, p, rep), rep)
    decreases |t|
  {
    if t[..|p|] == p {
      var r := ReplaceAll(t, p, rep);
      assert r[..|rep|] == rep;
      assert OccursAt(r, rep, 0);
      OccursAtContains(r, rep, 0);
    } else {
      ReplaceAllPresent(t[1..], p, rep);
      ContainsWithin([t[0]], ReplaceAll(t[1..], p, rep), [], rep);
      assert [t[0]] + ReplaceAll(t[1..], p, rep) + [] == ReplaceAll(t, p, rep);
    }
  }

  /** A text shorter than the pattern is left as it is. */
  lemma ReplaceShort(b: string, p: string, rep: string)
    requires |b| < |p|
    ensures ReplaceAll(b, p, rep) == b
  {
  }

  /** When no occurrence of `p` starts inside `a`, `replace` keeps `a` and replaces the `p` after it. */
  lemma {:induction false} ReplaceAllFirst(a: string, p: string, b: string, rep: string)
    requires p != []
    requires forall j :: 0 <= j < |a| ==> !OccursAt(a + p + b, p, j)
    ensures ReplaceAll(a + p + b, p, rep) == a + rep + ReplaceAll(b, p, rep)
    decreases |a|
  {
    var t := a + p + b;
    if a == [] {
      assert t == p + b;
      assert t[..|p|] == p && t[|p|..] == b;
    } else {
      assert !OccursAt(t, p, 0);
      assert t[1..] == a[1..] + p + b;
      forall j | 0 <= j < |a[1..]| ensures !OccursAt(a[1..] + p + b, p, j) {
        assert !OccursAt(t, p, j + 1);
        assert t[j + 1..j + 1 + |p|] == t[1..][j..j + |p|];
      }
      ReplaceAllFirst(a[1..], p, b, rep);
      assert [t[0]] + (a[1..] + rep + ReplaceAll(b, p, rep)) == a + rep + ReplaceAll(b, p, rep);
    }
  }

  // ---------------------------------------------------------------------------
  // sep.join(parts)
  // ---------------------------------------------------------------------------

  function Join(parts: seq<string>, sep: string): string {
    if |parts| == 0 then ""
    else if |parts| == 1 then parts[0]
    else parts[0] + sep + Join(parts[1..], sep)
  }

  // ---------------------------------------------------------------------------
  // Decimal formatting: f"{n}" for a non-negative int
  // ---------------------------------------------------------------------------

  predicate IsDigit(c: char) {
    '0' <= c <= '9'
  }

  function DigitChar(d: nat): (c: char)
    requires d < 10
    ensures IsDigit(c)
  {
    ['0', '1', '2', '3', '4', '5', '6', '7', '8', '9'][d]
  }

  /** The number a string of decimal digits denotes, most significant digit first. */
  function DecimalValue(s: string): int {
    if s == [] then 0 else 10 * DecimalValue(s[..|s| - 1]) + (s[|s| - 1] as int - '0' as int)
  }

  /** `f"{n}"`: the decimal digits of `n`, without leading zeros. */
  function NatToString(n: nat): (s: string)
    ensures s != [] && forall i :: 0 <= i < |s| ==> IsDigit(s[i])
    ensures |s| > 1 ==> s[0] != '0'
    ensures DecimalValue(s) == n
  {
    if n < 10 then
      assert DecimalValue([DigitChar(n)]) == DecimalValue([]) * 10 + n;
      [DigitChar(n)]
    else
      var s := NatToString(n / 10) + [DigitChar(n % 10)];
      assert s[..|s| - 1] == NatToString(n / 10);
      s
  }

  // ---------------------------------------------------------------------------
  // The order `sorted()` puts strings in: lexicographic by code point
  // ---------------------------------------------------------------------------

  predicate Less(a: string, b: string) {
    if a == [] then b != []
    else if b == [] then false
    else if a[0] < b[0] then true
    else if a[0] == b[0] then Less(a[1..], b[1..])
    else false
  }

  lemma {:induction false} LessIrreflexive(a: string)
    ensures !Less(a, a)
  {
    if a != [] {
      LessIrreflexive(a[1..]);
    }
  }

  lemma {:induction false} LessTransitive(a: string, b: string, c: string)
    requires Less(a, b) && Less(b, c)
    ensures Less(a, c)
  {
    if a != [] && b != [] && c != [] && a[0] == b[0] == c[0] {
      LessTransitive(a[1..], b[1..], c[1..]);
    }
  }

  lemma {:induction false} LessTotal(a: string, b: string)
    requires a != b
    ensures Less(a, b) || Less(b, a)
  {
    if a != [] && b != [] && a[0] == b[0] {
      assert a == [a[0]] + a[1..] && b == [b[0]] + b[1..];
      LessTotal(a[1..], b[1..]);
    }
  }

  lemma LessAsymmetric(a: string, b: string)
    requires Less(a, b)
    ensures !Less(b, a)
  {
    if Less(b, a) {
      LessTransitive(a, b, a);
      LessIrreflexive(a);
    }
  }
}
