/**
 * The Cache-Control policy of src/cache.c: finding the first Cache-Control
 * header of a response (parse_cache_control), the non-cacheable directive
 * deny list (check_no_cache) and the max-age value (get_max_age). This is a
 * subset of the response directives of section 5.2.2 of RFC 9111.
 */
module CacheControl {
  import opened Wrappers
  import opened CString
  import opened HttpText

  const HeaderName := "Cache-Control:"
  const MaxAgePrefix := "max-age="

  /** Directives that make a response non-cacheable, matched case-insensitively against a whole directive. */
  const NoCacheKeywords: seq<string> :=
    ["private", "no-store", "no-cache", "max-age=0", "must-revalidate", "proxy-revalidate"]

  /** Directives are split on commas (`strtok(value, ",")`). */
  const DirectiveDelims: set<char> := {','}

  predicate IsCacheControlLine(line: string) {
    HasPrefixCaseless(line, HeaderName)
  }

  /** The first Cache-Control line at or after `i`. */
  function FirstCacheControlLine(lines: seq<string>, i: nat): (r: Option<nat>)
    requires i <= |lines|
    decreases |lines| - i
    ensures r.Some? ==> i <= r.value < |lines| && IsCacheControlLine(lines[r.value])
    ensures r.Some? ==> forall j :: i <= j < r.value ==> !IsCacheControlLine(lines[j])
    ensures r.None? ==> forall j :: i <= j < |lines| ==> !IsCacheControlLine(lines[j])
  {
    if i == |lines| then None
    else if IsCacheControlLine(lines[i]) then Some(i)
    else FirstCacheControlLine(lines, i + 1)
  }

  /** The first Cache-Control line is the one no earlier line beats. */
  lemma {:induction false} FirstCacheControlLineIs(lines: seq<string>, i: nat, k: nat)
    requires i <= k < |lines| && IsCacheControlLine(lines[k])
    requires forall j :: i <= j < k ==> !IsCacheControlLine(lines[j])
    ensures FirstCacheControlLine(lines, i) == Some(k)
    decreases k - i
  {
    if i < k {
      FirstCacheControlLineIs(lines, i + 1, k);
    }
  }

  /** A Cache-Control line's value: what follows the name and the blanks after it. */
  function LineValue(line: string): (v: string)
    requires IsCacheControlLine(line)
    ensures |v| <= |line| - |HeaderName| && v == line[|line| - |v|..]
    ensures forall m :: |HeaderName| <= m < |line| - |v| ==> line[m] in Blanks
    ensures v == [] || v[0] !in Blanks
  {
    line[FirstNotIn(line, |HeaderName|, Blanks)..]
  }

  /**
   * parse_cache_control: the value of the first header line (within the
   * header block, split on CR and LF) that starts with `Cache-Control:` in
   * any case; None without a header block or without such a line.
   */
  function ParseCacheControl(response: string): (r: Option<string>)
    ensures HeaderBlock(response).None? ==> r.None?
    ensures HeaderBlock(response).Some? ==>
              var lines := Tokens(HeaderBlock(response).value, LineDelims);
              (r.None? <==> forall j :: 0 <= j < |lines| ==> !IsCacheControlLine(lines[j]))
    ensures HeaderBlock(response).Some? && r.Some? ==>
              var lines := Tokens(HeaderBlock(response).value, LineDelims);
              exists k :: 0 <= k < |lines| && IsCacheControlLine(lines[k])
                          && (forall j :: 0 <= j < k ==> !IsCacheControlLine(lines[j]))
                          && r.value == LineValue(lines[k])
    ensures r.Some? ==> r.value == [] || r.value[0] !in Blanks
  {
    match HeaderBlock(response)
    case None => None
    case Some(h) =>
      var lines := Tokens(h, LineDelims);
      match FirstCacheControlLine(lines, 0)
      case None => None
      case Some(k) => Some(LineValue(lines[k]))
  }

  /** A line spelled `Cache-Control:` in any case, then blanks, then a value: the value is what is taken. */
  lemma LineValueOf(name: string, blanks: string, value: string)
    requires CaseEq(name, HeaderName)
    requires forall m :: 0 <= m < |blanks| ==> blanks[m] in Blanks
    requires value == [] || value[0] !in Blanks
    ensures IsCacheControlLine(name + blanks + value)
    ensures LineValue(name + blanks + value) == value
  {
    var line := name + blanks + value;
    forall m | 0 <= m < |HeaderName| ensures CharEq(line[m], HeaderName[m], true) {
      assert line[m] == name[m];
    }
    forall m | |name| <= m < |name| + |blanks| ensures line[m] in Blanks {
      assert line[m] == blanks[m - |name|];
    }
    if value != [] {
      assert line[|name| + |blanks|] == value[0];
    }
    FirstNotInIs(line, |HeaderName|, Blanks, |name| + |blanks|);
    assert line[|name| + |blanks|..] == value;
  }

  /** The first Cache-Control line at index `k` decides the parsed value. */
  lemma FirstLineValue(lines: seq<string>, k: nat, name: string, blanks: string, value: string)
    requires k < |lines| && forall j :: 0 <= j < k ==> !IsCacheControlLine(lines[j])
    requires CaseEq(name, HeaderName)
    requires forall m :: 0 <= m < |blanks| ==> blanks[m] in Blanks
    requires value == [] || value[0] !in Blanks
    requires lines[k] == name + blanks + value
    ensures FirstCacheControlLine(lines, 0) == Some(k) && LineValue(lines[k]) == value
  {
    LineValueOf(name, blanks, value);
    FirstCacheControlLineIs(lines, 0, k);
  }

  /** A response whose header lines are given: the first Cache-Control line's value is what is parsed. */
  lemma ParseCacheControlOfLines(lines: seq<string>, body: string, k: nat, name: string, blanks: string, value: string)
    requires |lines| > 0 && forall i :: 0 <= i < |lines| ==> IsToken(lines[i], LineDelims)
    requires k < |lines| && forall j :: 0 <= j < k ==> !IsCacheControlLine(lines[j])
    requires CaseEq(name, HeaderName)
    requires forall m :: 0 <= m < |blanks| ==> blanks[m] in Blanks
    requires value == [] || value[0] !in Blanks
    requires lines[k] == name + blanks + value
    ensures ParseCacheControl(Join(lines, Crlf) + Terminator + body) == Some(value)
  {
    HeaderBlockOfJoin(lines, body);
    TokensOfJoin(lines, Crlf, LineDelims);
    FirstLineValue(lines, k, name, blanks, value);
  }

  /** A trimmed directive equals one of the deny-list keywords, ignoring case. */
  predicate IsNoCacheDirective(token: string) {
    exists k :: 0 <= k < |NoCacheKeywords| && CaseEq(Trim(token), NoCacheKeywords[k])
  }

  /** The keyword loop of check_no_cache, from keyword `k` on. */
  function MatchesKeywordFrom(t: string, k: nat): (r: bool)
    requires k <= |NoCacheKeywords|
    decreases |NoCacheKeywords| - k
    ensures r <==> exists m :: k <= m < |NoCacheKeywords| && CaseEq(t, NoCacheKeywords[m])
  {
    if k == |NoCacheKeywords| then false
    else CaseEq(t, NoCacheKeywords[k]) || MatchesKeywordFrom(t, k + 1)
  }

  /** The token loop of check_no_cache, from token `i` on. */
  function AnyNoCacheFrom(tokens: seq<string>, i: nat): (r: bool)
    requires i <= |tokens|
    decreases |tokens| - i
    ensures r <==> exists j :: i <= j < |tokens| && IsNoCacheDirective(tokens[j])
  {
    if i == |tokens| then false
    else MatchesKeywordFrom(Trim(tokens[i]), 0) || AnyNoCacheFrom(tokens, i + 1)
  }

  /** Whether a Cache-Control value holds a deny-list directive. */
  function NoCacheValue(value: string): (r: bool)
    ensures r <==> exists j :: 0 <= j < |Tokens(value, DirectiveDelims)| && IsNoCacheDirective(Tokens(value, DirectiveDelims)[j])
  {
    AnyNoCacheFrom(Tokens(value, DirectiveDelims), 0)
  }

  /**
   * check_no_cache: true exactly when the first Cache-Control header has a
   * comma-separated directive that, trimmed of blanks, is one of the six
   * deny-list keywords (any case).
   */
  function CheckNoCache(response: string): (r: bool)
    ensures r <==> ParseCacheControl(response).Some? &&
                   var ts := Tokens(ParseCacheControl(response).value, DirectiveDelims);
                   exists j :: 0 <= j < |ts| && IsNoCacheDirective(ts[j])
  {
    match ParseCacheControl(response)
    case None => false
    case Some(v) => NoCacheValue(v)
  }

  /** A deny-list keyword in any case, padded with blanks, is recognised as a no-cache directive. */
  lemma NoCacheDirectiveOf(lead: string, word: string, trail: string, j: nat)
    requires forall i :: 0 <= i < |lead| ==> lead[i] in Blanks
    requires forall i :: 0 <= i < |trail| ==> trail[i] in Blanks
    requires j < |NoCacheKeywords| && CaseEq(word, NoCacheKeywords[j])
    ensures IsNoCacheDirective(lead + word + trail)
  {
    var kw := NoCacheKeywords[j];
    assert kw[0] !in Blanks && kw[|kw| - 1] !in Blanks;
    assert CharEq(word[0], kw[0], true) && CharEq(word[|word| - 1], kw[|kw| - 1], true);
    TrimOfPadded(lead, word, trail);
  }

  /** A comma-separated value with a deny-list directive anywhere in it is non-cacheable. */
  lemma NoCacheOfDirectives(ds: seq<string>, m: nat, lead: string, word: string, trail: string, j: nat)
    requires forall i :: 0 <= i < |ds| ==> IsToken(ds[i], DirectiveDelims)
    requires m < |ds| && ds[m] == lead + word + trail
    requires forall i :: 0 <= i < |lead| ==> lead[i] in Blanks
    requires forall i :: 0 <= i < |trail| ==> trail[i] in Blanks
    requires j < |NoCacheKeywords| && CaseEq(word, NoCacheKeywords[j])
    ensures NoCacheValue(Join(ds, ","))
  {
    TokensOfJoin(ds, ",", DirectiveDelims);
    NoCacheDirectiveOf(lead, word, trail, j);
  }

  /** A comma-joined value is non-cacheable exactly when one of its directives is on the deny list. */
  lemma NoCacheOfDirectiveList(ds: seq<string>)
    requires forall i :: 0 <= i < |ds| ==> IsToken(ds[i], DirectiveDelims)
    ensures NoCacheValue(Join(ds, ",")) <==> exists i :: 0 <= i < |ds| && IsNoCacheDirective(ds[i])
  {
    TokensOfJoin(ds, ",", DirectiveDelims);
  }

  /** `max-age=` in any case followed by digits other than a lone `0` is none of the deny-list keywords. */
  lemma MaxAgeNotKeyword(name: string, ds: string)
    requires CaseEq(name, MaxAgePrefix)
    requires |ds| > 0 && forall i :: 0 <= i < |ds| ==> ds[i] in Digits
    requires ds != "0"
    ensures forall k :: 0 <= k < |NoCacheKeywords| ==> !CaseEq(name + ds, NoCacheKeywords[k])
  {
    var core := name + ds;
    assert CharEq(name[0], MaxAgePrefix[0], true) && CharEq(name[1], MaxAgePrefix[1], true);
    assert core[0] == name[0] && core[1] == name[1];
    forall k | 0 <= k < |NoCacheKeywords| ensures !CaseEq(core, NoCacheKeywords[k]) {
      var kw := NoCacheKeywords[k];
      if k == 3 && |core| == |kw| {
        assert core[8] == ds[0] && ds == [ds[0]];
        assert ds[0] != '0' && Lower(ds[0]) == ds[0];
        assert !CharEq(core[8], kw[8], true);
      } else if k == 4 {
        assert !CharEq(core[1], kw[1], true);
      } else if k == 5 {
        assert !CharEq(core[0], kw[0], true);
      }
    }
  }

  /**
   * Of the max-age directives only `max-age=0` itself is on the deny list:
   * `max-age=00` or `max-age=5`, in any case and padded with blanks, is not.
   */
  lemma OnlyZeroMaxAgeDenied(lead: string, name: string, ds: string, trail: string)
    requires forall i :: 0 <= i < |lead| ==> lead[i] in Blanks
    requires forall i :: 0 <= i < |trail| ==> trail[i] in Blanks
    requires CaseEq(name, MaxAgePrefix)
    requires |ds| > 0 && forall i :: 0 <= i < |ds| ==> ds[i] in Digits
    requires ds != "0"
    ensures !IsNoCacheDirective(lead + name + ds + trail)
  {
    var core := name + ds;
    assert CharEq(name[0], MaxAgePrefix[0], true);
    assert core[0] == name[0] && core[|core| - 1] == ds[|ds| - 1];
    assert lead + name + ds + trail == lead + core + trail;
    TrimOfPadded(lead, core, trail);
    MaxAgeNotKeyword(name, ds);
  }

  /** A directive that starts with `max-age=` (any case) once its leading blanks are skipped. */
  predicate IsMaxAgeDirective(token: string) {
    HasPrefixCaseless(token[FirstNotIn(token, 0, Blanks)..], MaxAgePrefix)
  }

  /** The first max-age directive at or after token `i`. */
  function FirstMaxAge(tokens: seq<string>, i: nat): (r: Option<nat>)
    requires i <= |tokens|
    decreases |tokens| - i
    ensures r.Some? ==> i <= r.value < |tokens| && IsMaxAgeDirective(tokens[r.value])
    ensures r.Some? ==> forall j :: i <= j < r.value ==> !IsMaxAgeDirective(tokens[j])
    ensures r.None? ==> forall j :: i <= j < |tokens| ==> !IsMaxAgeDirective(tokens[j])
  {
    if i == |tokens| then None
    else if IsMaxAgeDirective(tokens[i]) then Some(i)
    else FirstMaxAge(tokens, i + 1)
  }

  /** The number after `max-age=` in a max-age directive, read by `atoi`. */
  function DirectiveSeconds(token: string): int
    requires IsMaxAgeDirective(token)
  {
    Atoi(token[FirstNotIn(token, 0, Blanks) + |MaxAgePrefix|..])
  }

  /** No token of `ts` is a max-age directive. */
  predicate NoMaxAge(ts: seq<string>) {
    forall j :: 0 <= j < |ts| ==> !IsMaxAgeDirective(ts[j])
  }

  /** Token `k` is the first max-age directive of `ts`. */
  predicate IsFirstMaxAge(ts: seq<string>, k: nat) {
    k < |ts| && IsMaxAgeDirective(ts[k]) && forall j :: 0 <= j < k ==> !IsMaxAgeDirective(ts[j])
  }

  /**
   * The max-age a Cache-Control value carries: the seconds of its first
   * max-age directive, or -1 without one.
   */
  function MaxAgeValue(value: string): (r: int)
    ensures NoMaxAge(Tokens(value, DirectiveDelims)) ==> r == -1
    ensures var ts := Tokens(value, DirectiveDelims);
            forall k: nat :: IsFirstMaxAge(ts, k) ==> r == DirectiveSeconds(ts[k])
  {
    var ts := Tokens(value, DirectiveDelims);
    match FirstMaxAge(ts, 0)
    case None => -1
    case Some(k) => DirectiveSeconds(ts[k])
  }

  /**
   * get_max_age: the `atoi` of what follows `max-age=` in the first max-age
   * directive of the first Cache-Control header; -1 without a header block,
   * without a Cache-Control line or without a max-age directive.
   */
  function GetMaxAge(response: string): (r: int)
    ensures ParseCacheControl(response).None? ==> r == -1
    ensures ParseCacheControl(response).Some? ==>
              var ts := Tokens(ParseCacheControl(response).value, DirectiveDelims);
              && (NoMaxAge(ts) ==> r == -1)
              && (forall k: nat :: IsFirstMaxAge(ts, k) ==> r == DirectiveSeconds(ts[k]))
  {
    match ParseCacheControl(response)
    case None => -1
    case Some(v) => MaxAgeValue(v)
  }

  /** Leading blanks are skipped up to the first character that is not one. */
  lemma SkipLeadingBlanks(lead: string, rest: string)
    requires forall i :: 0 <= i < |lead| ==> lead[i] in Blanks
    requires rest == [] || rest[0] !in Blanks
    ensures FirstNotIn(lead + rest, 0, Blanks) == |lead| && (lead + rest)[|lead|..] == rest
  {
    var d := lead + rest;
    forall i | 0 <= i < |lead| ensures d[i] in Blanks {
      assert d[i] == lead[i];
    }
    if rest != [] {
      assert d[|lead|] == rest[0];
    }
    FirstNotInIs(d, 0, Blanks, |lead|);
  }

  /** `max-age=` in any case, then anything: what follows the prefix is that text. */
  lemma MaxAgeRest(name: string, after: string)
    requires CaseEq(name, MaxAgePrefix)
    ensures HasPrefixCaseless(name + after, MaxAgePrefix)
    ensures (name + after)[|MaxAgePrefix|..] == after
    ensures name[0] !in Blanks
  {
    var rest := name + after;
    forall i | 0 <= i < |MaxAgePrefix| ensures CharEq(rest[i], MaxAgePrefix[i], true) {
      assert rest[i] == name[i];
    }
    assert CharEq(name[0], MaxAgePrefix[0], true);
  }

  /** Blanks, `max-age=` in any case, then `after`: a max-age directive whose seconds are `atoi(after)`. */
  lemma DirectiveSecondsAfter(lead: string, name: string, after: string)
    requires forall i :: 0 <= i < |lead| ==> lead[i] in Blanks
    requires CaseEq(name, MaxAgePrefix)
    ensures IsMaxAgeDirective(lead + (name + after))
    ensures DirectiveSeconds(lead + (name + after)) == Atoi(after)
  {
    MaxAgeRest(name, after);
    SkipLeadingBlanks(lead, name + after);
  }

  /** A directive of blanks, `max-age=` in any case and a rendered number carries that number. */
  lemma DirectiveSecondsOf(lead: string, name: string, n: nat, tail: string)
    requires forall i :: 0 <= i < |lead| ==> lead[i] in Blanks
    requires CaseEq(name, MaxAgePrefix)
    requires tail == [] || tail[0] !in Digits
    ensures IsMaxAgeDirective(lead + name + NatToString(n) + tail)
    ensures DirectiveSeconds(lead + name + NatToString(n) + tail) == n
  {
    var after := NatToString(n) + tail;
    Regroup(lead, name, NatToString(n), tail);
    DirectiveSecondsAfter(lead, name, after);
    AtoiOfNatToString(n, tail);
  }

  /** A negative number after `max-age=` is read with its sign; `max-age=-1` thus gives the "no max-age" value. */
  lemma NegativeDirectiveSeconds(lead: string, name: string, n: nat, tail: string)
    requires forall i :: 0 <= i < |lead| ==> lead[i] in Blanks
    requires CaseEq(name, MaxAgePrefix)
    requires tail == [] || tail[0] !in Digits
    ensures IsMaxAgeDirective(lead + name + "-" + NatToString(n) + tail)
    ensures DirectiveSeconds(lead + name + "-" + NatToString(n) + tail) == -(n as int)
  {
    var after := "-" + NatToString(n) + tail;
    Regroup5(lead, name, "-", NatToString(n), tail);
    DirectiveSecondsAfter(lead, name, after);
    AtoiOfNegative(n, tail);
  }

  /**
   * A zero-padded number after `max-age=`, such as `max-age=00`: the
   * directive is not on the deny list, and its number is read as if unpadded.
   * So `max-age=00` is cached with 0 seconds and is stale as soon as it is stored.
   */
  lemma ZeroPaddedMaxAge(lead: string, name: string, n: nat, trail: string)
    requires forall i :: 0 <= i < |lead| ==> lead[i] in Blanks
    requires forall i :: 0 <= i < |trail| ==> trail[i] in Blanks
    requires CaseEq(name, MaxAgePrefix)
    ensures !IsNoCacheDirective(lead + name + ("0" + NatToString(n)) + trail)
    ensures IsMaxAgeDirective(lead + name + ("0" + NatToString(n)) + trail)
    ensures DirectiveSeconds(lead + name + ("0" + NatToString(n)) + trail) == n
  {
    var ds := "0" + NatToString(n);
    assert ds != "0" by {
      assert |ds| >= 2;
    }
    forall i | 0 <= i < |ds| ensures ds[i] in Digits {
      assert i > 0 ==> ds[i] == NatToString(n)[i - 1];
    }
    OnlyZeroMaxAgeDenied(lead, name, ds, trail);
    Regroup(lead, name, ds, trail);
    DirectiveSecondsAfter(lead, name, ds + trail);
    assert ds + trail == "0" + NatToString(n) + trail;
    AtoiOfZeroPadded(n, trail);
  }

  /**
   * Directives joined by commas: the first max-age directive decides, and a
   * rendered number after `max-age=` is read back.
   */
  lemma MaxAgeOfDirectives(ds: seq<string>, m: nat, lead: string, name: string, n: nat, tail: string)
    requires forall i :: 0 <= i < |ds| ==> IsToken(ds[i], DirectiveDelims)
    requires m < |ds| && forall j :: 0 <= j < m ==> !IsMaxAgeDirective(ds[j])
    requires forall i :: 0 <= i < |lead| ==> lead[i] in Blanks
    requires CaseEq(name, MaxAgePrefix)
    requires tail == [] || tail[0] !in Digits
    requires ds[m] == lead + name + NatToString(n) + tail
    ensures MaxAgeValue(Join(ds, ",")) == n
  {
    TokensOfJoin(ds, ",", DirectiveDelims);
    DirectiveSecondsOf(lead, name, n, tail);
    assert FirstMaxAge(ds, 0) == Some(m);
  }

  /**
   * A whole response: header lines whose first Cache-Control line carries
   * the comma-joined directives `ds`, with a max-age directive first at `m`.
   * get_max_age reads that directive's number.
   */
  lemma GetMaxAgeOfResponse(lines: seq<string>, body: string, k: nat, hname: string, blanks: string,
                            ds: seq<string>, m: nat, lead: string, name: string, n: nat, tail: string)
    requires |lines| > 0 && forall i :: 0 <= i < |lines| ==> IsToken(lines[i], LineDelims)
    requires k < |lines| && forall j :: 0 <= j < k ==> !IsCacheControlLine(lines[j])
    requires CaseEq(hname, HeaderName) && forall i :: 0 <= i < |blanks| ==> blanks[i] in Blanks
    requires Join(ds, ",") == [] || Join(ds, ",")[0] !in Blanks
    requires lines[k] == hname + blanks + Join(ds, ",")
    requires forall i :: 0 <= i < |ds| ==> IsToken(ds[i], DirectiveDelims)
    requires m < |ds| && forall j :: 0 <= j < m ==> !IsMaxAgeDirective(ds[j])
    requires forall i :: 0 <= i < |lead| ==> lead[i] in Blanks
    requires CaseEq(name, MaxAgePrefix) && (tail == [] || tail[0] !in Digits)
    requires ds[m] == lead + name + NatToString(n) + tail
    ensures GetMaxAge(Join(lines, Crlf) + Terminator + body) == n
  {
    ParseCacheControlOfLines(lines, body, k, hname, blanks, Join(ds, ","));
    MaxAgeOfDirectives(ds, m, lead, name, n, tail);
  }

  /**
   * A whole response: header lines whose first Cache-Control line carries
   * the comma-joined directives `ds`. check_no_cache holds exactly when one
   * of those directives is on the deny list.
   */
  lemma CheckNoCacheOfResponse(lines: seq<string>, body: string, k: nat, hname: string, blanks: string, ds: seq<string>)
    requires |lines| > 0 && forall i :: 0 <= i < |lines| ==> IsToken(lines[i], LineDelims)
    requires k < |lines| && forall j :: 0 <= j < k ==> !IsCacheControlLine(lines[j])
    requires CaseEq(hname, HeaderName) && forall i :: 0 <= i < |blanks| ==> blanks[i] in Blanks
    requires Join(ds, ",") == [] || Join(ds, ",")[0] !in Blanks
    requires lines[k] == hname + blanks + Join(ds, ",")
    requires forall i :: 0 <= i < |ds| ==> IsToken(ds[i], DirectiveDelims)
    ensures CheckNoCache(Join(lines, Crlf) + Terminator + body) <==> exists i :: 0 <= i < |ds| && IsNoCacheDirective(ds[i])
  {
    ParseCacheControlOfLines(lines, body, k, hname, blanks, Join(ds, ","));
    NoCacheOfDirectiveList(ds);
  }
}
