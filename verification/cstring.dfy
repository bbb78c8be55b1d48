/**
 * The C library string routines the proxy's parsers are built from, as pure
 * functions. A C string is modelled by its contents without the terminating
 * NUL, so every sequence here stands for a NUL-free C string.
 */
module CString {
  import opened Wrappers

  /** Space and horizontal tab: what the proxy's `while (*p == ' ' || *p == '\t')` loops skip. */
  const Blanks: set<char> := {' ', '\t'}

  /** The characters `isspace` accepts in the C locale (skipped by `atoi`). */
  const Spaces: set<char> := {' ', '\t', '\n', '\r', '\U{000B}', '\U{000C}'}

  const Digits: set<char> := set c: char | '0' <= c <= '9'

  /** `tolower` in the C locale: only ASCII letters change. */
  function Lower(c: char): char {
    if 'A' <= c <= 'Z' then (c as int + 32) as char else c
  }

  /** Character equality, exact or ignoring ASCII case. */
  predicate CharEq(a: char, b: char, caseless: bool) {
    if caseless then Lower(a) == Lower(b) else a == b
  }

  /** `pat` occurs in `s` starting at index `i`. */
  predicate MatchesAt(s: string, i: nat, pat: string, caseless: bool) {
    i + |pat| <= |s| && forall k :: 0 <= k < |pat| ==> CharEq(s[i + k], pat[k], caseless)
  }

  /** `pat` occurs somewhere in `s` (exactly). */
  predicate Contains(s: string, pat: string) {
    exists i: nat :: i <= |s| && MatchesAt(s, i, pat, false)
  }

  /** The scan shared by `strstr` and `strcasestr`: first occurrence at or after `i`. */
  function FindFrom(s: string, pat: string, i: nat, caseless: bool): (r: Option<nat>)
    decreases |s| - i
    ensures r.Some? ==> i <= r.value && MatchesAt(s, r.value, pat, caseless)
    ensures r.Some? ==> forall j :: i <= j < r.value ==> !MatchesAt(s, j, pat, caseless)
    ensures r.None? ==> forall j: nat :: i <= j ==> !MatchesAt(s, j, pat, caseless)
  {
    if i + |pat| > |s| then None
    else if MatchesAt(s, i, pat, caseless) then Some(i)
    else FindFrom(s, pat, i + 1, caseless)
  }

  /** `strstr`: the index of the first occurrence of `pat`, if any. */
  function Find(s: string, pat: string): (r: Option<nat>)
    ensures r.Some? ==> MatchesAt(s, r.value, pat, false)
    ensures r.Some? ==> forall j :: 0 <= j < r.value ==> !MatchesAt(s, j, pat, false)
    ensures r.None? <==> !Contains(s, pat)
  {
    FindFrom(s, pat, 0, false)
  }

  /** `strcasestr`: the index of the first occurrence of `pat`, ignoring ASCII case. */
  function FindCaseless(s: string, pat: string): (r: Option<nat>)
    ensures r.Some? ==> MatchesAt(s, r.value, pat, true)
    ensures r.Some? ==> forall j :: 0 <= j < r.value ==> !MatchesAt(s, j, pat, true)
    ensures r.None? <==> forall j: nat :: !MatchesAt(s, j, pat, true)
  {
    FindFrom(s, pat, 0, true)
  }

  /** There is only one first occurrence. */
  lemma FirstMatchUnique(s: string, pat: string, p: nat, caseless: bool)
    requires MatchesAt(s, p, pat, caseless) && forall j :: 0 <= j < p ==> !MatchesAt(s, j, pat, caseless)
    ensures forall q: nat :: MatchesAt(s, q, pat, caseless) && (forall j :: 0 <= j < q ==> !MatchesAt(s, j, pat, caseless)) ==> q == p
  {
  }

  /** A first occurrence is what `strstr` finds. */
  lemma FindIs(s: string, pat: string, e: nat)
    requires MatchesAt(s, e, pat, false)
    requires forall j :: 0 <= j < e ==> !MatchesAt(s, j, pat, false)
    ensures Find(s, pat) == Some(e)
  {
  }

  /** A first caseless occurrence is what `strcasestr` finds. */
  lemma FindCaselessIs(s: string, pat: string, e: nat)
    requires MatchesAt(s, e, pat, true)
    requires forall j :: 0 <= j < e ==> !MatchesAt(s, j, pat, true)
    ensures FindCaseless(s, pat) == Some(e)
  {
  }

  /** The text before the first occurrence of `pat` does not contain `pat`. */
  lemma NoMatchBeforeFirst(s: string, pat: string, e: nat)
    requires |pat| > 0 && Find(s, pat) == Some(e)
    ensures !Contains(s[..e], pat)
  {
    forall j: nat | j <= e && MatchesAt(s[..e], j, pat, false) ensures false {
      assert s[..e] + s[e..] == s;
      MatchesAtExtend(s[..e], s[e..], j, pat, false);
    }
  }

  /** Every slice occurs where it was cut from. */
  lemma MatchesAtSlice(s: string, i: nat, j: nat)
    requires i <= j <= |s|
    ensures MatchesAt(s, i, s[i..j], false)
  {
  }

  /** A match in a suffix is a match in the whole text, shifted. */
  lemma MatchesAtInSuffix(s: string, q: nat, j: nat, pat: string, caseless: bool)
    requires q <= |s| && MatchesAt(s[q..], j, pat, caseless)
    ensures MatchesAt(s, q + j, pat, caseless)
  {
    forall k | 0 <= k < |pat| ensures CharEq(s[q + j + k], pat[k], caseless) {
      assert s[q..][j + k] == s[q + j + k];
    }
  }

  /** An exact match is a slice equality. */
  lemma MatchesAtExact(s: string, i: nat, pat: string)
    ensures MatchesAt(s, i, pat, false) <==> i + |pat| <= |s| && s[i..i + |pat|] == pat
  {
    if i + |pat| <= |s| && s[i..i + |pat|] == pat {
      forall k | 0 <= k < |pat| ensures s[i + k] == pat[k] {
        assert s[i..i + |pat|][k] == s[i + k];
      }
    }
  }

  /** A match inside a prefix is a match in the whole string. */
  lemma MatchesAtOfPrefix(s: string, k: nat, i: nat, pat: string, caseless: bool)
    requires k <= |s| && MatchesAt(s[..k], i, pat, caseless)
    ensures MatchesAt(s, i, pat, caseless)
  {
    forall m | 0 <= m < |pat| ensures CharEq(s[i + m], pat[m], caseless) {
      assert s[..k][i + m] == s[i + m];
    }
  }

  lemma MatchesAtExtend(s: string, t: string, i: nat, pat: string, caseless: bool)
    requires MatchesAt(s, i, pat, caseless)
    ensures MatchesAt(s + t, i, pat, caseless)
  {
    forall k | 0 <= k < |pat| ensures CharEq((s + t)[i + k], pat[k], caseless) {
      assert (s + t)[i + k] == s[i + k];
    }
  }

  /** A match in the extended text that ends inside `s` was already a match in `s`. */
  lemma MatchesAtShrink(s: string, t: string, i: nat, pat: string, caseless: bool)
    requires MatchesAt(s + t, i, pat, caseless) && i + |pat| <= |s|
    ensures MatchesAt(s, i, pat, caseless)
  {
    forall k | 0 <= k < |pat| ensures CharEq(s[i + k], pat[k], caseless) {
      assert (s + t)[i + k] == s[i + k];
    }
  }

  /** Containment survives appending. */
  lemma ContainsExtend(s: string, t: string, pat: string)
    requires Contains(s, pat)
    ensures Contains(s + t, pat)
  {
    var i: nat :| MatchesAt(s, i, pat, false);
    MatchesAtExtend(s, t, i, pat, false);
  }

  /** First index at or after `i` whose character is in `cs`, or |s| if none is. */
  function FirstIn(s: string, i: nat, cs: set<char>): (r: nat)
    requires i <= |s|
    decreases |s| - i
    ensures i <= r <= |s|
    ensures forall k :: i <= k < r ==> s[k] !in cs
    ensures r < |s| ==> s[r] in cs
  {
    if i == |s| || s[i] in cs then i else FirstIn(s, i + 1, cs)
  }

  /** First index at or after `i` whose character is NOT in `cs`, or |s|. */
  function FirstNotIn(s: string, i: nat, cs: set<char>): (r: nat)
    requires i <= |s|
    decreases |s| - i
    ensures i <= r <= |s|
    ensures forall k :: i <= k < r ==> s[k] in cs
    ensures r < |s| ==> s[r] !in cs
  {
    if i == |s| || s[i] !in cs then i else FirstNotIn(s, i + 1, cs)
  }

  /** The first-index scan is pinned down by its two defining facts. */
  lemma FirstInIs(s: string, i: nat, cs: set<char>, r: nat)
    requires i <= r <= |s|
    requires forall k :: i <= k < r ==> s[k] !in cs
    requires r < |s| ==> s[r] in cs
    ensures FirstIn(s, i, cs) == r
  {
  }

  lemma FirstNotInIs(s: string, i: nat, cs: set<char>, r: nat)
    requires i <= r <= |s|
    requires forall k :: i <= k < r ==> s[k] in cs
    requires r < |s| ==> s[r] !in cs
    ensures FirstNotIn(s, i, cs) == r
  {
  }

  /** `strrchr`: the index of the last occurrence of `c`, if any. */
  function LastIndexOf(s: string, c: char): (r: Option<nat>)
    decreases |s|
    ensures r.Some? ==> r.value < |s| && s[r.value] == c
    ensures r.Some? ==> forall k :: r.value < k < |s| ==> s[k] != c
    ensures r.None? <==> c !in s
  {
    if s == [] then None
    else if s[|s| - 1] == c then Some(|s| - 1)
    else
      assert s == s[..|s| - 1] + [s[|s| - 1]];
      LastIndexOf(s[..|s| - 1], c)
  }

  /** The last occurrence is what `strrchr` finds. */
  lemma LastIndexOfIs(s: string, c: char, k: nat)
    requires k < |s| && s[k] == c
    requires forall m :: k < m < |s| ==> s[m] != c
    ensures LastIndexOf(s, c) == Some(k)
  {
  }

  /** `strcasecmp(a, b) == 0`. */
  predicate CaseEq(a: string, b: string) {
    |a| == |b| && MatchesAt(a, 0, b, true)
  }

  /** `strncasecmp(s, p, strlen(p)) == 0`: `s` starts with `p`, ignoring ASCII case. */
  predicate HasPrefixCaseless(s: string, p: string) {
    MatchesAt(s, 0, p, true)
  }

  /** The string with every ASCII capital lowered, one character at a time. */
  function LowerAll(s: string): (r: string)
    decreases |s|
    ensures |r| == |s| && forall k :: 0 <= k < |s| ==> r[k] == Lower(s[k])
  {
    if s == [] then [] else [Lower(s[0])] + LowerAll(s[1..])
  }

  /** `strcasecmp` compares the two strings lowered: equal exactly when the lowered strings are. */
  lemma CaseEqLowered(a: string, b: string)
    ensures CaseEq(a, b) <==> LowerAll(a) == LowerAll(b)
  {
    if LowerAll(a) == LowerAll(b) {
      forall k | 0 <= k < |b| ensures CharEq(a[k], b[k], true) {
        assert LowerAll(a)[k] == LowerAll(b)[k];
      }
    }
  }

  /** `strncasecmp(s, p, strlen(p))` compares the first `strlen(p)` characters lowered. */
  lemma HasPrefixCaselessLowered(s: string, p: string)
    ensures HasPrefixCaseless(s, p) <==> |p| <= |s| && LowerAll(s[..|p|]) == LowerAll(p)
  {
    if |p| <= |s| {
      if LowerAll(s[..|p|]) == LowerAll(p) {
        forall k | 0 <= k < |p| ensures CharEq(s[k], p[k], true) {
          assert LowerAll(s[..|p|])[k] == LowerAll(p)[k];
        }
      }
    }
  }

  /** What `strtok` can hand out: a non-empty run free of delimiters. */
  predicate IsToken(t: string, delims: set<char>) {
    |t| > 0 && forall k :: 0 <= k < |t| ==> t[k] !in delims
  }

  /**
   * The successive results of `strtok(s, delims)` followed by `strtok(NULL, delims)`:
   * delimiter runs separate tokens and never yield an empty token.
   */
  function Tokens(s: string, delims: set<char>): (ts: seq<string>)
    decreases |s|
    ensures forall i :: 0 <= i < |ts| ==> IsToken(ts[i], delims)
  {
    if s == [] then []
    else if s[0] in delims then Tokens(s[1..], delims)
    else
      var n := FirstIn(s, 0, delims);
      [s[..n]] + Tokens(s[n..], delims)
  }

  /** Tokens glued together with a separator. */
  function Join(ts: seq<string>, sep: string): string
  {
    if |ts| == 0 then []
    else if |ts| == 1 then ts[0]
    else ts[0] + sep + Join(ts[1..], sep)
  }

  /** Leading delimiters produce no token. */
  lemma {:induction false} TokensSkipDelims(pre: string, s: string, delims: set<char>)
    requires forall k :: 0 <= k < |pre| ==> pre[k] in delims
    ensures Tokens(pre + s, delims) == Tokens(s, delims)
    decreases |pre|
  {
    if pre != [] {
      assert (pre + s)[1..] == pre[1..] + s;
      TokensSkipDelims(pre[1..], s, delims);
    } else {
      assert pre + s == s;
    }
  }

  /** A token followed by a delimiter (or by nothing) is handed out whole. */
  lemma TokenRunEnds(t: string, rest: string, delims: set<char>)
    requires IsToken(t, delims)
    requires rest == [] || rest[0] in delims
    ensures FirstIn(t + rest, 0, delims) == |t|
  {
    var s := t + rest;
    forall k | 0 <= k < |t| ensures s[k] !in delims {
      assert s[k] == t[k];
    }
    if |t| < |s| {
      assert s[|t|] == rest[0];
    }
    FirstInIs(s, 0, delims, |t|);
  }

  /** `strtok` undoes `Join`: splitting joined tokens on a delimiter separator gives them back. */
  lemma {:induction false} TokensOfJoin(ts: seq<string>, sep: string, delims: set<char>)
    requires forall i :: 0 <= i < |ts| ==> IsToken(ts[i], delims)
    requires |sep| > 0 && forall k :: 0 <= k < |sep| ==> sep[k] in delims
    ensures Tokens(Join(ts, sep), delims) == ts
    decreases |ts|
  {
    if |ts| == 1 {
      var t := ts[0];
      TokenRunEnds(t, [], delims);
      assert t + [] == t;
      assert t[..|t|] == t && t[|t|..] == [];
    } else if |ts| > 1 {
      var t := ts[0];
      var rest := sep + Join(ts[1..], sep);
      assert Join(ts, sep) == t + rest;
      TokenRunEnds(t, rest, delims);
      assert (t + rest)[..|t|] == t;
      assert (t + rest)[|t|..] == rest;
      TokensSkipDelims(sep, Join(ts[1..], sep), delims);
      TokensOfJoin(ts[1..], sep, delims);
      assert ts == [t] + ts[1..];
    }
  }

  /** The text with its trailing blanks removed. */
  function TrimEnd(t: string): (r: string)
    decreases |t|
    ensures r <= t
    ensures forall k :: |r| <= k < |t| ==> t[k] in Blanks
    ensures r == [] || r[|r| - 1] !in Blanks
  {
    if t != [] && t[|t| - 1] in Blanks then TrimEnd(t[..|t| - 1]) else t
  }

  /**
   * A `strtok` token with its leading and trailing spaces and tabs removed, as
   * check_no_cache trims each Cache-Control directive.
   */
  function Trim(t: string): (r: string)
    ensures r == [] || (r[0] !in Blanks && r[|r| - 1] !in Blanks)
  {
    var a := FirstNotIn(t, 0, Blanks);
    var r := TrimEnd(t[a..]);
    assert r != [] ==> r[0] == t[a];
    r
  }

  /** Trimming recovers the directive from around any blank padding. */
  lemma TrimOfPadded(lead: string, core: string, trail: string)
    requires forall k :: 0 <= k < |lead| ==> lead[k] in Blanks
    requires forall k :: 0 <= k < |trail| ==> trail[k] in Blanks
    requires core == [] || (core[0] !in Blanks && core[|core| - 1] !in Blanks)
    ensures Trim(lead + core + trail) == core
  {
    var t := lead + core + trail;
    forall k | 0 <= k < |lead| ensures t[k] in Blanks {
      assert t[k] == lead[k];
    }
    if core == [] {
      assert t == lead + trail;
      forall k | |lead| <= k < |t| ensures t[k] in Blanks {
        assert t[k] == trail[k - |lead|];
      }
      FirstNotInIs(t, 0, Blanks, |t|);
      assert t[|t|..] == [];
    } else {
      assert t[|lead|] == core[0];
      FirstNotInIs(t, 0, Blanks, |lead|);
      assert t[|lead|..] == core + trail;
      TrimEndOfPadded(core, trail);
    }
  }

  lemma {:induction false} TrimEndOfPadded(core: string, trail: string)
    requires forall k :: 0 <= k < |trail| ==> trail[k] in Blanks
    requires core == [] || core[|core| - 1] !in Blanks
    ensures TrimEnd(core + trail) == core
    decreases |trail|
  {
    if trail == [] {
      assert core + trail == core;
    } else {
      var s := core + trail;
      assert s[|s| - 1] == trail[|trail| - 1];
      assert s[..|s| - 1] == core + trail[..|trail| - 1];
      TrimEndOfPadded(core, trail[..|trail| - 1]);
    }
  }

  /** Decimal value of a digit string, most significant digit first. */
  function DigitsValue(ds: string): nat
    requires forall k :: 0 <= k < |ds| ==> ds[k] in Digits
    decreases |ds|
  {
    if ds == [] then 0
    else 10 * DigitsValue(ds[..|ds| - 1]) + (ds[|ds| - 1] as int - '0' as int)
  }

  /**
   * `atoi`: skip `isspace` characters, read an optional sign, then the longest
   * run of decimal digits; no digits gives 0. Overflow is not modelled.
   */
  function Atoi(s: string): (r: int)
    ensures r != 0 ==> exists k :: 0 <= k < |s| && s[k] in Digits
  {
    SignedValue(s, FirstNotIn(s, 0, Spaces))
  }

  /** What `atoi` reads from index `i` on, once the leading white space is behind it. */
  function SignedValue(s: string, i: nat): (r: int)
    requires i <= |s|
    ensures r != 0 ==> exists k :: i <= k < |s| && s[k] in Digits
  {
    var j := if i < |s| && (s[i] == '+' || s[i] == '-') then i + 1 else i;
    var k := FirstNotIn(s, j, Digits);
    var v: int := DigitsValue(s[j..k]);
    if i < |s| && s[i] == '-' then -v else v
  }

  /** The decimal rendering of a natural number, without leading zeros. */
  function NatToString(n: nat): (s: string)
    ensures |s| > 0 && forall k :: 0 <= k < |s| ==> s[k] in Digits
  {
    var d := ('0' as int + n % 10) as char;
    if n < 10 then [d] else NatToString(n / 10) + [d]
  }

  lemma {:induction false} DigitsValueOfNatToString(n: nat)
    ensures DigitsValue(NatToString(n)) == n
  {
    var s := NatToString(n);
    if n >= 10 {
      assert s[..|s| - 1] == NatToString(n / 10);
      DigitsValueOfNatToString(n / 10);
    }
  }

  /** A digit is neither an `isspace` character nor a sign. */
  lemma DigitIsNoSpace(c: char)
    requires c in Digits
    ensures c !in Spaces && c != '+' && c != '-'
  {
  }

  /** Regrouping a chain of four concatenations to the right. */
  lemma Regroup(a: string, b: string, c: string, d: string)
    ensures a + b + c + d == a + (b + (c + d))
  {
  }

  /** Regrouping a chain of five concatenations around the middle three. */
  lemma Regroup5(a: string, b: string, c: string, d: string, e: string)
    ensures a + b + c + d + e == a + (b + (c + d + e))
  {
  }

  /** Regrouping a chain of seven concatenations to the right after the second. */
  lemma Regroup7Right(a: string, b: string, c: string, d: string, e: string, f: string, g: string)
    ensures a + b + c + d + e + f + g == a + b + (c + (d + (e + (f + g))))
  {
  }

  /** Regrouping a chain of seven concatenations around the middle three. */
  lemma Regroup7Middle(a: string, b: string, c: string, d: string, e: string, f: string, g: string)
    ensures a + b + c + d + e + f + g == a + b + (c + d + e) + f + g
  {
  }

  /** A scan in the tail of `p + t` is the scan in `t`, shifted by `|p|`. */
  lemma FirstNotInShift(p: string, t: string, i: nat, cs: set<char>)
    requires i <= |t|
    ensures FirstNotIn(p + t, |p| + i, cs) == |p| + FirstNotIn(t, i, cs)
  {
    var r := FirstNotIn(t, i, cs);
    var s := p + t;
    forall k | |p| + i <= k < |p| + r ensures s[k] in cs {
      assert s[k] == t[k - |p|];
    }
    if |p| + r < |s| {
      assert s[|p| + r] == t[r];
    }
    FirstNotInIs(s, |p| + i, cs, |p| + r);
  }

  /** A sign is not an `isspace` character. */
  lemma SignIsNoSpace(c: char)
    requires c == '+' || c == '-'
    ensures c !in Spaces
  {
  }

  /** `atoi` skips leading `isspace` characters. */
  lemma AtoiSkipsSpaces(sp: string, t: string)
    requires forall k :: 0 <= k < |sp| ==> sp[k] in Spaces
    requires t == [] || t[0] !in Spaces
    ensures Atoi(sp + t) == Atoi(t)
  {
    var s := sp + t;
    var i := |sp|;
    forall k | 0 <= k < i ensures s[k] in Spaces {
      assert s[k] == sp[k];
    }
    if t != [] {
      assert s[i] == t[0];
    }
    FirstNotInIs(s, 0, Spaces, i);
    FirstNotInIs(t, 0, Spaces, 0);
    SignedValueShift(sp, t);
  }

  /** Reading a number does not depend on what came before it. */
  lemma SignedValueShift(sp: string, t: string)
    ensures SignedValue(sp + t, |sp|) == SignedValue(t, 0)
  {
    var s := sp + t;
    var i := |sp|;
    if t != [] {
      assert s[i] == t[0];
    }
    var j' := if 0 < |t| && (t[0] == '+' || t[0] == '-') then 1 else 0;
    FirstNotInShift(sp, t, j', Digits);
    var k' := FirstNotIn(t, j', Digits);
    assert s[i + j'..i + k'] == t[j'..k'];
  }

  /** `atoi` of an unsigned digit run: its decimal value. */
  lemma AtoiOfDigits(ds: string, rest: string)
    requires forall k :: 0 <= k < |ds| ==> ds[k] in Digits
    requires rest == [] || rest[0] !in Digits
    requires ds == [] && rest != [] ==> rest[0] !in Spaces && rest[0] != '+' && rest[0] != '-'
    ensures Atoi(ds + rest) == DigitsValue(ds)
  {
    var s := ds + rest;
    if ds != [] {
      assert s[0] == ds[0];
      DigitIsNoSpace(ds[0]);
    } else if rest != [] {
      assert s[0] == rest[0];
    }
    FirstNotInIs(s, 0, Spaces, 0);
    forall k | 0 <= k < |ds| ensures s[k] in Digits {
      assert s[k] == ds[k];
    }
    if |ds| < |s| {
      assert s[|ds|] == rest[0];
    }
    FirstNotInIs(s, 0, Digits, |ds|);
    assert s[0..|ds|] == ds;
  }

  /** `atoi` after a sign character: the digits' value, negated after `-`. */
  lemma AtoiOfSignChar(c: char, ds: string, rest: string)
    requires c == '+' || c == '-'
    requires forall k :: 0 <= k < |ds| ==> ds[k] in Digits
    requires rest == [] || rest[0] !in Digits
    ensures Atoi([c] + (ds + rest)) == if c == '-' then -(DigitsValue(ds) as int) else DigitsValue(ds)
  {
    var s := [c] + (ds + rest);
    SignIsNoSpace(c);
    FirstNotInIs(s, 0, Spaces, 0);
    SignedValueOfSignChar(c, ds, rest);
  }

  /** Read from a sign character on: the digits' value, negated after `-`. */
  lemma SignedValueOfSignChar(c: char, ds: string, rest: string)
    requires c == '+' || c == '-'
    requires forall k :: 0 <= k < |ds| ==> ds[k] in Digits
    requires rest == [] || rest[0] !in Digits
    ensures SignedValue([c] + (ds + rest), 0) == if c == '-' then -(DigitsValue(ds) as int) else DigitsValue(ds)
  {
    var s := [c] + (ds + rest);
    assert s[0] == c;
    AtoiDigitsAfter(c, ds, rest);
    assert DigitsValue(s[1..FirstNotIn(s, 1, Digits)]) == DigitsValue(ds);
  }

  /** After a leading character, the digit scan stops where `ds` ends. */
  lemma AtoiDigitsAfter(c: char, ds: string, rest: string)
    requires forall k :: 0 <= k < |ds| ==> ds[k] in Digits
    requires rest == [] || rest[0] !in Digits
    ensures FirstNotIn([c] + (ds + rest), 1, Digits) == 1 + |ds|
    ensures ([c] + (ds + rest))[1..1 + |ds|] == ds
  {
    var t := ds + rest;
    forall k | 0 <= k < |ds| ensures t[k] in Digits {
      assert t[k] == ds[k];
    }
    if |ds| < |t| {
      assert t[|ds|] == rest[0];
    }
    FirstNotInIs(t, 0, Digits, |ds|);
    FirstNotInShift([c], t, 0, Digits);
    assert ([c] + t)[1..1 + |ds|] == t[..|ds|];
  }

  /**
   * The reading of `atoi` on every input, cut into its parts: leading
   * `isspace` characters, an optional sign, the longest run of digits, and
   * the rest. The value is the digits' decimal value, negated after `-`.
   */
  lemma AtoiOfParts(sp: string, sign: string, ds: string, rest: string)
    requires forall k :: 0 <= k < |sp| ==> sp[k] in Spaces
    requires sign == [] || sign == "+" || sign == "-"
    requires forall k :: 0 <= k < |ds| ==> ds[k] in Digits
    requires rest == [] || rest[0] !in Digits
    requires sign == [] && ds == [] && rest != [] ==> rest[0] !in Spaces && rest[0] != '+' && rest[0] != '-'
    ensures Atoi(sp + sign + ds + rest) == if sign == "-" then -(DigitsValue(ds) as int) else DigitsValue(ds)
  {
    Regroup(sp, sign, ds, rest);
    var t := sign + (ds + rest);
    if sign == [] {
      assert t == ds + rest;
      if ds != [] {
        assert t[0] == ds[0];
        DigitIsNoSpace(ds[0]);
      } else if rest != [] {
        assert t[0] == rest[0];
      }
      AtoiSkipsSpaces(sp, t);
      AtoiOfDigits(ds, rest);
    } else {
      assert t == [sign[0]] + (ds + rest);
      SignIsNoSpace(sign[0]);
      AtoiSkipsSpaces(sp, t);
      AtoiOfSignChar(sign[0], ds, rest);
    }
  }

  /** `atoi` reads back a rendered number, stopping at the first non-digit after it. */
  lemma AtoiOfNatToString(n: nat, rest: string)
    requires rest == [] || rest[0] !in Digits
    ensures Atoi(NatToString(n) + rest) == n
  {
    var ds := NatToString(n);
    var s := ds + rest;
    assert s[0] == ds[0];
    FirstNotInIs(s, 0, Spaces, 0);
    forall k | 0 <= k < |ds| ensures s[k] in Digits {
      assert s[k] == ds[k];
    }
    if |ds| < |s| {
      assert s[|ds|] == rest[0];
    }
    FirstNotInIs(s, 0, Digits, |ds|);
    assert s[0..|ds|] == ds;
    DigitsValueOfNatToString(n);
  }

  /** A leading zero does not change the value of a digit string. */
  lemma {:induction false} DigitsValueLeadingZero(ds: string)
    requires forall k :: 0 <= k < |ds| ==> ds[k] in Digits
    ensures DigitsValue("0" + ds) == DigitsValue(ds)
    decreases |ds|
  {
    if ds != [] {
      var s := "0" + ds;
      assert s[..|s| - 1] == "0" + ds[..|ds| - 1];
      assert s[|s| - 1] == ds[|ds| - 1];
      DigitsValueLeadingZero(ds[..|ds| - 1]);
    }
  }

  /** `atoi` reads a zero-padded rendered number as that number. */
  lemma AtoiOfZeroPadded(n: nat, rest: string)
    requires rest == [] || rest[0] !in Digits
    ensures Atoi("0" + NatToString(n) + rest) == n
  {
    var ds := "0" + NatToString(n);
    var s := ds + rest;
    assert s[0] == '0';
    FirstNotInIs(s, 0, Spaces, 0);
    forall k | 0 <= k < |ds| ensures s[k] in Digits {
      assert s[k] == ds[k];
    }
    if |ds| < |s| {
      assert s[|ds|] == rest[0];
    }
    FirstNotInIs(s, 0, Digits, |ds|);
    assert s[0..|ds|] == ds;
    DigitsValueLeadingZero(NatToString(n));
    DigitsValueOfNatToString(n);
  }

  /** `atoi` reads back a negative rendered number. */
  lemma AtoiOfNegative(n: nat, rest: string)
    requires rest == [] || rest[0] !in Digits
    ensures Atoi("-" + NatToString(n) + rest) == -(n as int)
  {
    var ds := NatToString(n);
    var s := "-" + ds + rest;
    FirstNotInIs(s, 0, Spaces, 0);
    forall k | 1 <= k < 1 + |ds| ensures s[k] in Digits {
      assert s[k] == ds[k - 1];
    }
    if 1 + |ds| < |s| {
      assert s[1 + |ds|] == rest[0];
    }
    FirstNotInIs(s, 1, Digits, 1 + |ds|);
    assert s[1..1 + |ds|] == ds;
    DigitsValueOfNatToString(n);
  }
}
