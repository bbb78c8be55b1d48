/**
 * Text-level HTTP helpers of the proxy (src/proxy.c): the header block, and
 * the request metadata extracted for routing and logging: the Host value,
 * the request URI and the last header line.
 */
module HttpText {
  import opened Wrappers
  import opened CString

  const Crlf := "\r\n"

  /** The empty line that ends a header block (section 2.1 of RFC 9112). */
  const Terminator := "\r\n\r\n"

  /** What extract_host searches for, case-insensitively. */
  const HostPrefix := "\r\nHost:"

  /** A GET request for `/x` on `example.com` with no other header, read by the worked examples. */
  const ExampleRequest := "GET /x HTTP/1.1\r\nHost: example.com\r\n\r\n"

  /** Header lines are split on these (`strtok(headers, "\r\n")`). */
  const LineDelims: set<char> := {'\r', '\n'}

  /** The text before the first header terminator, if there is one (`strstr(msg, "\r\n\r\n")`). */
  function HeaderBlock(msg: string): (r: Option<string>)
    ensures r.None? <==> !Contains(msg, Terminator)
    ensures r.Some? ==> r.value <= msg && MatchesAt(msg, |r.value|, Terminator, false)
    ensures r.Some? ==> forall j :: 0 <= j < |r.value| ==> !MatchesAt(msg, j, Terminator, false)
  {
    match Find(msg, Terminator)
    case None => None
    case Some(e) => Some(msg[..e])
  }

  /** The text from `q` up to the next CRLF (`strstr(p, "\r\n")`); None when no CRLF follows. */
  function LineFrom(req: string, q: nat): (r: Option<string>)
    requires q <= |req|
    ensures r.Some? ==> !Contains(r.value, Crlf)
    ensures r.Some? ==> MatchesAt(req, q, r.value, false) && MatchesAt(req, q + |r.value|, Crlf, false)
  {
    match Find(req[q..], Crlf)
    case None => None
    case Some(e) =>
      var h := req[q..q + e];
      assert req[q..][..e] == h;
      NoMatchBeforeFirst(req[q..], Crlf, e);
      MatchesAtSlice(req, q, q + e);
      MatchesAtInSuffix(req, q, e, Crlf, false);
      Some(h)
  }

  /**
   * extract_host: the value of the first `\r\nHost:` match (any case), with
   * leading blanks skipped, up to the next CRLF; None when either is missing.
   * Trailing blanks are kept.
   */
  function ExtractHost(req: string): (r: Option<string>)
    ensures FindCaseless(req, HostPrefix).None? ==> r.None?
    ensures r.Some? ==> !Contains(r.value, Crlf)
    ensures r.Some? ==> r.value == [] || r.value[0] !in Blanks
    ensures r.Some? ==> exists q: nat :: MatchesAt(req, q, r.value, false) && MatchesAt(req, q + |r.value|, Crlf, false)
  {
    match FindCaseless(req, HostPrefix)
    case None => None
    case Some(i) =>
      var q := FirstNotIn(req, i + |HostPrefix|, Blanks);
      var v := LineFrom(req, q);
      assert v.Some? && v.value != [] ==> v.value[0] == req[q];
      v
  }

  /** Without a CR in the request line, the first `\r\nHost:` match is the one right after it. */
  lemma HostMatchAfterLine(requestLine: string, name: string, after: string)
    requires '\r' !in requestLine
    requires CaseEq(name, "Host:")
    ensures FindCaseless(requestLine + Crlf + name + after, HostPrefix) == Some(|requestLine|)
  {
    var req := requestLine + Crlf + name + after;
    var i := |requestLine|;
    forall k | 0 <= k < |HostPrefix| ensures CharEq(req[i + k], HostPrefix[k], true) {
      if k >= 2 {
        assert req[i + k] == name[k - 2];
        assert CharEq(name[k - 2], "Host:"[k - 2], true);
      }
    }
    forall j | 0 <= j < i ensures !MatchesAt(req, j, HostPrefix, true) {
      assert req[j] == requestLine[j];
      assert !CharEq(req[j], HostPrefix[0], true);
    }
    FindCaselessIs(req, HostPrefix, i);
  }

  /** Skipping blanks from the start of a blank run lands just past it. */
  lemma SkipBlankRun(pre: string, blanks: string, post: string)
    requires forall k :: 0 <= k < |blanks| ==> blanks[k] in Blanks
    requires post == [] || post[0] !in Blanks
    ensures FirstNotIn(pre + blanks + post, |pre|, Blanks) == |pre| + |blanks|
  {
    var s := pre + blanks + post;
    forall k | |pre| <= k < |pre| + |blanks| ensures s[k] in Blanks {
      assert s[k] == blanks[k - |pre|];
    }
    if post != [] {
      assert s[|pre| + |blanks|] == post[0];
    }
    FirstNotInIs(s, |pre|, Blanks, |pre| + |blanks|);
  }

  /** Without a CR in `text`, the first CRLF of `text + CRLF + rest` is the appended one. */
  lemma FirstCrlfAfter(text: string, rest: string)
    requires '\r' !in text
    ensures Find(text + Crlf + rest, Crlf) == Some(|text|)
  {
    var s := text + Crlf + rest;
    forall j | 0 <= j < |text| ensures !MatchesAt(s, j, Crlf, false) {
      assert s[j] == text[j];
      assert !CharEq(s[j], Crlf[0], false);
    }
    assert MatchesAt(s, |text|, Crlf, false) by {
      assert s[|text|] == '\r' && s[|text| + 1] == '\n';
    }
    FindIs(s, Crlf, |text|);
  }

  /** The value and its CRLF pinned down give LineFrom's result. */
  lemma LineFromIs(req: string, q: nat, value: string)
    requires q + |value| <= |req| && req[q..q + |value|] == value
    requires Find(req[q..], Crlf) == Some(|value|)
    ensures LineFrom(req, q) == Some(value)
  {
  }

  /** extract_host's three steps, each pinned down, determine its result. */
  lemma ExtractHostSteps(req: string, i: nat, q: nat, host: string)
    requires FindCaseless(req, HostPrefix) == Some(i)
    requires i + |HostPrefix| <= q <= |req| && FirstNotIn(req, i + |HostPrefix|, Blanks) == q
    requires LineFrom(req, q) == Some(host)
    ensures ExtractHost(req) == Some(host)
  {
  }

  /** In a request whose first header is `Host`, the `\r\nHost:` match is the CRLF ending the request line. */
  lemma HostFoundIn(requestLine: string, name: string, blanks: string, host: string, rest: string)
    requires '\r' !in requestLine && CaseEq(name, "Host:")
    ensures FindCaseless(requestLine + Crlf + name + blanks + (host + Crlf + rest), HostPrefix) == Some(|requestLine|)
  {
    var after := blanks + host + Crlf + rest;
    assert requestLine + Crlf + name + blanks + (host + Crlf + rest) == requestLine + Crlf + name + after;
    HostMatchAfterLine(requestLine, name, after);
  }

  /** Whatever precedes it, a value without CR followed by CRLF is the line read from its start. */
  lemma LineAfterHead(head: string, host: string, rest: string)
    requires '\r' !in host
    ensures LineFrom(head + (host + Crlf + rest), |head|) == Some(host)
  {
    var tail := host + Crlf + rest;
    assert (head + tail)[|head|..] == tail;
    FirstCrlfAfter(host, rest);
    assert (head + tail)[|head|..|head| + |host|] == host;
    LineFromIs(head + tail, |head|, host);
  }

  /** A request whose first header is `Host` (any case) yields that header's value. */
  lemma ExtractHostOfRequest(requestLine: string, name: string, blanks: string, host: string, rest: string)
    requires '\r' !in requestLine
    requires CaseEq(name, "Host:")
    requires forall k :: 0 <= k < |blanks| ==> blanks[k] in Blanks
    requires '\r' !in host && (host == [] || host[0] !in Blanks)
    ensures ExtractHost(requestLine + Crlf + name + blanks + (host + Crlf + rest)) == Some(host)
  {
    var pre := requestLine + Crlf + name;
    var head := pre + blanks;
    HostFoundIn(requestLine, name, blanks, host, rest);
    SkipBlankRun(pre, blanks, host + Crlf + rest);
    LineAfterHead(head, host, rest);
    assert |pre| == |requestLine| + |HostPrefix|;
    ExtractHostSteps(head + (host + Crlf + rest), |requestLine|, |head|, host);
  }

  /**
   * extract_request_uri walks past the method, the blanks after it, and the
   * URI, stopping only at a blank: the walk stays inside the string exactly
   * when a blank follows the method and another follows the URI.
   */
  predicate UriDelimited(req: string) {
    var a := FirstIn(req, 0, Blanks);
    a < |req| && FirstIn(req, FirstNotIn(req, a, Blanks), Blanks) < |req|
  }

  /** extract_request_uri: the token after the first run of spaces/tabs, up to the next space/tab. */
  function ExtractRequestUri(req: string): (r: string)
    requires UriDelimited(req)
    ensures |r| > 0 && forall k :: 0 <= k < |r| ==> r[k] !in Blanks
    ensures exists s: nat :: 0 < s && MatchesAt(req, s, r, false) && s + |r| < |req|
                             && req[s - 1] in Blanks && req[s + |r|] in Blanks
  {
    var a := FirstIn(req, 0, Blanks);
    var s := FirstNotIn(req, a, Blanks);
    var e := FirstIn(req, s, Blanks);
    MatchesAtSlice(req, s, e);
    req[s..e]
  }

  /**
   * extract_request_uri as its comment describes it, with each of the three
   * scans also stopping at the end of the string: the token after the first
   * run of spaces/tabs, up to the next space/tab or the end. Wherever the
   * code as written stays inside the string, both give the same URI.
   */
  function RequestUri(req: string): (r: string)
    ensures forall k :: 0 <= k < |r| ==> r[k] !in Blanks
    ensures exists s: nat :: MatchesAt(req, s, r, false) && (s + |r| == |req| || req[s + |r|] in Blanks)
    ensures UriDelimited(req) ==> r == ExtractRequestUri(req)
  {
    var a := FirstIn(req, 0, Blanks);
    var s := FirstNotIn(req, a, Blanks);
    var e := FirstIn(req, s, Blanks);
    MatchesAtSlice(req, s, e);
    req[s..e]
  }

  /** A request line `METHOD<blanks>URI<blank>…` yields URI. */
  lemma ExtractRequestUriOfLine(verb: string, sp: string, uri: string, rest: string)
    requires forall k :: 0 <= k < |verb| ==> verb[k] !in Blanks
    requires |sp| > 0 && forall k :: 0 <= k < |sp| ==> sp[k] in Blanks
    requires IsToken(uri, Blanks)
    requires |rest| > 0 && rest[0] in Blanks
    ensures UriDelimited(verb + sp + uri + rest)
    ensures ExtractRequestUri(verb + sp + uri + rest) == uri
  {
    var req := verb + sp + uri + rest;
    var a := |verb|;
    var s := a + |sp|;
    var e := s + |uri|;
    forall k | 0 <= k < a ensures req[k] !in Blanks {
      assert req[k] == verb[k];
    }
    assert req[a] == sp[0];
    FirstInIs(req, 0, Blanks, a);
    forall k | a <= k < s ensures req[k] in Blanks {
      assert req[k] == sp[k - a];
    }
    assert req[s] == uri[0];
    FirstNotInIs(req, a, Blanks, s);
    forall k | s <= k < e ensures req[k] !in Blanks {
      assert req[k] == uri[k - s];
    }
    assert req[e] == rest[0];
    FirstInIs(req, s, Blanks, e);
    assert req[s..e] == uri;
  }

  /**
   * extract_last_header_line: the text strictly between the last `\n` of the
   * header block and the terminator; None without a terminator or without a
   * `\n` before it.
   */
  function ExtractLastHeaderLine(req: string): (r: Option<string>)
    ensures r.None? <==> HeaderBlock(req).None? || '\n' !in HeaderBlock(req).value
    ensures r.Some? ==> '\n' !in r.value
    ensures r.Some? ==> var h := HeaderBlock(req).value;
                        |r.value| < |h| && h[|h| - |r.value| - 1] == '\n' && h[|h| - |r.value|..] == r.value
  {
    match HeaderBlock(req)
    case None => None
    case Some(h) =>
      match LastIndexOf(h, '\n')
      case None => None
      case Some(k) =>
        var line := h[k + 1..];
        assert '\n' !in line by {
          forall m | 0 <= m < |line| ensures line[m] != '\n' {
            assert line[m] == h[k + 1 + m];
          }
        }
        Some(line)
  }

  /**
   * The shape of header lines joined with CRLF: it starts and ends inside a
   * line, and every CR begins a CRLF that is followed by another line.
   */
  predicate LinesShaped(h: string) {
    && |h| > 0 && h[0] !in LineDelims && h[|h| - 1] !in LineDelims
    && forall j :: 0 <= j < |h| && h[j] == '\r' ==> j + 2 < |h| && h[j + 1] == '\n' && h[j + 2] !in LineDelims
  }

  lemma ShapedCons(l: string, rest: string)
    requires IsToken(l, LineDelims) && LinesShaped(rest)
    ensures LinesShaped(l + Crlf + rest)
  {
    var h := l + Crlf + rest;
    assert h[0] == l[0];
    assert h[|h| - 1] == rest[|rest| - 1];
    forall j | 0 <= j < |h| && h[j] == '\r'
      ensures j + 2 < |h| && h[j + 1] == '\n' && h[j + 2] !in LineDelims
    {
      if j == |l| {
        assert h[j + 2] == rest[0];
      } else if j > |l| + 1 {
        assert h[j] == rest[j - |l| - 2];
        assert h[j + 1] == rest[j - |l| - 1];
        assert h[j + 2] == rest[j - |l|];
      }
    }
  }

  lemma {:induction false} JoinedLinesShaped(lines: seq<string>)
    requires |lines| > 0 && forall i :: 0 <= i < |lines| ==> IsToken(lines[i], LineDelims)
    ensures LinesShaped(Join(lines, Crlf))
    decreases |lines|
  {
    var l := lines[0];
    assert IsToken(l, LineDelims);
    if |lines| == 1 {
      assert Join(lines, Crlf) == l;
      forall j | 0 <= j < |l| ensures l[j] != '\r' {
        assert l[j] !in LineDelims;
      }
    } else {
      JoinedLinesShaped(lines[1..]);
      assert Join(lines, Crlf) == l + Crlf + Join(lines[1..], Crlf);
      ShapedCons(l, Join(lines[1..], Crlf));
    }
  }

  /** In a shaped head followed by the terminator, the first terminator is the appended one. */
  lemma HeaderBlockOfShaped(h: string, body: string)
    requires LinesShaped(h)
    ensures HeaderBlock(h + Terminator + body) == Some(h)
  {
    var m := h + Terminator + body;
    assert MatchesAt(m, |h|, Terminator, false) by {
      forall k | 0 <= k < 4 ensures m[|h| + k] == Terminator[k] {
      }
    }
    forall j | 0 <= j < |h| ensures !MatchesAt(m, j, Terminator, false) {
      assert m[j] == h[j];
      if h[j] == '\r' {
        assert m[j + 2] == h[j + 2];
        assert !CharEq(m[j + 2], Terminator[2], false);
      } else {
        assert !CharEq(m[j], Terminator[0], false);
      }
    }
    FindIs(m, Terminator, |h|);
    assert m[..|h|] == h;
  }

  /** A message made of header lines, the terminator and a body has those lines, joined, as its header block. */
  lemma HeaderBlockOfJoin(lines: seq<string>, body: string)
    requires |lines| > 0 && forall i :: 0 <= i < |lines| ==> IsToken(lines[i], LineDelims)
    ensures HeaderBlock(Join(lines, Crlf) + Terminator + body) == Some(Join(lines, Crlf))
  {
    JoinedLinesShaped(lines);
    HeaderBlockOfShaped(Join(lines, Crlf), body);
  }

  /** ... and splitting that block into lines gives the lines back. */
  lemma HeaderBlockOfLines(lines: seq<string>, body: string)
    requires |lines| > 0 && forall i :: 0 <= i < |lines| ==> IsToken(lines[i], LineDelims)
    ensures HeaderBlock(Join(lines, Crlf) + Terminator + body) == Some(Join(lines, Crlf))
    ensures Tokens(Join(lines, Crlf), LineDelims) == lines
  {
    HeaderBlockOfJoin(lines, body);
    TokensOfJoin(lines, Crlf, LineDelims);
  }

  /** The last line of a joined sequence is what follows the last separator. */
  lemma {:induction false} JoinSplitLast(lines: seq<string>, sep: string)
    requires |lines| >= 2
    ensures Join(lines, sep) == Join(lines[..|lines| - 1], sep) + sep + lines[|lines| - 1]
    decreases |lines|
  {
    if |lines| > 2 {
      JoinSplitLast(lines[1..], sep);
      assert lines[1..][..|lines| - 2] == lines[..|lines| - 1][1..];
    }
  }

  /** No `\n` follows the separator before a final line. */
  lemma NoNewlineInLast(front: string, last: string)
    requires IsToken(last, LineDelims)
    ensures var h := front + Crlf + last; forall m | |front| + 1 < m < |h| :: h[m] != '\n'
  {
    var h := front + Crlf + last;
    var k := |front| + 1;
    forall m | k < m < |h| ensures h[m] != '\n' {
      assert h[m] == last[m - k - 1];
    }
  }

  /** The last `\n` of `front + CRLF + last` is the one just before `last`. */
  lemma LastNewlineBeforeLast(front: string, last: string)
    requires IsToken(last, LineDelims)
    ensures LastIndexOf(front + Crlf + last, '\n') == Some(|front| + 1)
  {
    var h := front + Crlf + last;
    var k := |front| + 1;
    assert h[k] == '\n';
    NoNewlineInLast(front, last);
    LastIndexOfIs(h, '\n', k);
  }

  /** The text after the last `\n` of `front + CRLF + last` is `last`. */
  lemma TextAfterLastNewline(front: string, last: string)
    requires IsToken(last, LineDelims)
    ensures var h := front + Crlf + last;
            LastIndexOf(h, '\n') == Some(|front| + 1) && h[|front| + 2..] == last
  {
    LastNewlineBeforeLast(front, last);
    var h := front + Crlf + last;
    assert h[|front| + 2..] == last;
  }

  /** With two or more header lines, extract_last_header_line returns the last one. */
  lemma ExtractLastHeaderLineOfLines(lines: seq<string>, body: string)
    requires |lines| >= 2 && forall i :: 0 <= i < |lines| ==> IsToken(lines[i], LineDelims)
    ensures ExtractLastHeaderLine(Join(lines, Crlf) + Terminator + body) == Some(lines[|lines| - 1])
  {
    var last := lines[|lines| - 1];
    var front := Join(lines[..|lines| - 1], Crlf);
    HeaderBlockOfJoin(lines, body);
    JoinSplitLast(lines, Crlf);
    TextAfterLastNewline(front, last);
  }
}
