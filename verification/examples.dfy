/**
 * Worked examples: the general properties of the parsers applied to a
 * concrete request.
 */
module Examples {
  import opened Wrappers
  import opened CString
  import opened HttpText
  import Framing

  /** extract_host of the example request is `example.com`. */
  lemma ExtractHostExample()
    ensures ExtractHost(ExampleRequest) == Some("example.com")
  {
    var req := "GET /x HTTP/1.1" + Crlf + "Host:" + " " + ("example.com" + Crlf + "\r\n");
    assert req == ExampleRequest;
    ExtractHostOfRequest("GET /x HTTP/1.1", "Host:", " ", "example.com", "\r\n");
  }

  /** extract_request_uri of the example request line is `/x`. */
  lemma ExtractRequestUriExample()
    ensures UriDelimited("GET /x HTTP/1.1") && ExtractRequestUri("GET /x HTTP/1.1") == "/x"
  {
    var req := "GET" + " " + "/x" + " HTTP/1.1";
    assert req == "GET /x HTTP/1.1";
    ExtractRequestUriOfLine("GET", " ", "/x", " HTTP/1.1");
  }

  /** extract_last_header_line of the example request is its Host line. */
  lemma ExtractLastHeaderLineExample()
    ensures ExtractLastHeaderLine(ExampleRequest) == Some("Host: example.com")
  {
    var lines := ["GET /x HTTP/1.1", "Host: example.com"];
    var head := "GET /x HTTP/1.1\r\nHost: example.com";
    assert Join(lines, Crlf) == head;
    assert head + Terminator + "" == ExampleRequest;
    ExtractLastHeaderLineOfLines(lines, "");
  }

  /**
   * read_http_request fails on a client whose first `recv` errors, even
   * after a whole header block was sent, and on one that closes before its
   * header block ends.
   */
  lemma RequestFailureExamples()
    ensures Framing.RequestFails("\r\n\r\n", [Framing.RecvError])
    ensures Framing.RequestFails("GET", [Framing.UpTo(3), Framing.UpTo(5)])
  {
    var calls := [Framing.UpTo(3), Framing.UpTo(5)];
    assert Framing.RequestRecv("\r\n\r\n", [Framing.RecvError], 0) <= 0;
    assert Framing.RequestRecv("GET", calls, 0) == 3;
    assert !Framing.RequestComplete("GET") by {
      assert !CString.MatchesAt("GET", 0, Terminator, false);
    }
    assert "GET"[..3] == "GET";
    assert Framing.RequestReadsOn("GET", calls, 0);
    assert Framing.RequestRecv("GET", calls, 1) == 0;
  }
}
