/** How the tracker classifies a TCP payload and assembles the URL of an HTTP request from it. */
module HttpUrls {
  import opened Splitting
  import opened Trackers

  const CRLF := "\r\n"
  const HEADER_END := "\r\n\r\n"
  const HOST := "Host: "
  const GET := "GET "
  const POST := "POST "
  const VERSION_LENGTH := 9  // strlen(" HTTP/1.1")

  /** memcmp(data + at, key, strlen(key)) == 0 */
  predicate Matches(data: string, at: nat, key: string) {
    at + |key| <= |data| && data[at..at + |key|] == key
  }

  lemma MatchAt(data: string, at: nat, key: string, k: nat)
    requires Matches(data, at, key) && k < |key|
    ensures data[at + k] == key[k]
  {
    assert data[at..at + |key|][k] == data[at + k];
  }

  predicate Absent(data: string, from: nat, to: nat, key: string) {
    forall i :: from <= i < to ==> !Matches(data, i, key)
  }

  /** get_domain_and_url: the first position from offset on, below size, at which key stands; else size. */
  function Search(data: string, offset: nat, size: nat, key: string): (r: nat)
    requires offset <= size
    ensures offset <= r <= size
    ensures Absent(data, offset, r, key)
    ensures r < size ==> Matches(data, r, key)
    decreases size - offset
  {
    if offset == size || Matches(data, offset, key) then offset else Search(data, offset + 1, size, key)
  }

  lemma SearchFinds(data: string, offset: nat, size: nat, key: string, at: nat)
    requires offset <= at < size && Matches(data, at, key) && Absent(data, offset, at, key)
    ensures Search(data, offset, size, key) == at
  {
  }

  predicate IsGet(data: string) { Matches(data, 0, "GET /") }

  predicate IsPost(data: string) { !IsGet(data) && Matches(data, 0, "POST /") }

  function HostLength(data: string, size: nat): int {
    var start := Search(data, 0, size, HOST);
    Search(data, start, size, CRLF) - start - |HOST|
  }

  function PathLength(data: string, size: nat, verb: string): int {
    var start := Search(data, 0, size, verb);
    Search(data, start, size, CRLF) - start - |GET| - VERSION_LENGTH
  }

  function HostPart(data: string, size: nat): string
    requires size <= |data| && HostLength(data, size) >= 0
  {
    var host := Search(data, 0, size, HOST) + |HOST|;
    data[host..host + HostLength(data, size)]
  }

  function PathPart(data: string, size: nat, verb: string): string
    requires size + 6 <= |data| && |verb| <= 5 && PathLength(data, size, verb) >= 0
  {
    var line := Search(data, 0, size, verb) + |verb|;
    data[line..line + PathLength(data, size, verb)]
  }

  /** The octets of the URL buffer before its final NUL; data is readable for six octets past size. */
  function Url(data: string, size: nat, verb: string): string
    requires size + 6 <= |data| && |verb| <= 5
    requires HostLength(data, size) >= 0 && PathLength(data, size, verb) >= 0
  {
    HostPart(data, size) + PathPart(data, size, verb)
  }

  function Verb(data: string): string {
    if IsGet(data) then GET else POST
  }

  /** What becomes of a TCP payload that is not DNS. */
  function Classify(data: string, size: nat): Http
    requires size + 6 <= |data|
  {
    if IsGet(data) || IsPost(data) then
      if Search(data, 0, size, HEADER_END) == size then Truncated
      else if HostLength(data, size) < 0 || PathLength(data, size, Verb(data)) < 0 then NegativeLength
      else HttpRequest(Url(data, size, Verb(data)))
    else if Matches(data, 0, "HTTP/") then HttpResponse
    else OtherPayload
  }

  // ----- the loops and the buffer -----

  method GetDomainAndUrl(data: string, start: nat, size: nat, key: string) returns (offset: nat)
    requires start <= size
    ensures offset == Search(data, start, size, key)
  {
    offset := start;
    while offset < size && !Matches(data, offset, key)
      invariant offset <= size
      invariant Search(data, offset, size, key) == Search(data, start, size, key)
    {
      offset := offset + 1;
    }
  }

  /** The classification in handle_packet. */
  method ClassifyPayload(data: string, size: nat) returns (http: Http)
    requires size + 6 <= |data|
    ensures http == Classify(data, size)
  {
    hide Url, HostLength, PathLength, Search;
    var get := Matches(data, 0, "GET /");
    if !get && !Matches(data, 0, "POST /") {
      return if Matches(data, 0, "HTTP/") then HttpResponse else OtherPayload;
    }
    var end := GetDomainAndUrl(data, 0, size, HEADER_END);
    if end == size {
      return Truncated;
    }
    var url := AssembleUrl(data, size, get);
    http := if url == null then NegativeLength else HttpRequest(url[..url.Length - 1]);
  }

  /** The part of handle_packet that builds the URL: malloc and fill for the host, realloc and fill for the path.
      null stands for the copy of a negative number of octets. */
  method AssembleUrl(data: string, size: nat, get: bool) returns (url: array?<char>)
    requires size + 6 <= |data|
    ensures var verb := if get then GET else POST;
            if HostLength(data, size) < 0 || PathLength(data, size, verb) < 0 then url == null
            else url != null && fresh(url) && url[..] == Url(data, size, verb) + ['\0']
  {
    hide HostPart, PathPart, HostLength, PathLength;
    url := HostBuffer(data, size);
    if url != null {
      var length := url.Length - 1;
      assert url[..length] == HostPart(data, size);
      url := PathBuffer(url[..length], data, size, if get then GET else POST);
    }
  }

  method HostBuffer(data: string, size: nat) returns (url: array?<char>)
    requires size + 6 <= |data|
    ensures if HostLength(data, size) < 0 then url == null
            else url != null && fresh(url) && url[..] == HostPart(data, size) + ['\0']
  {
    hide Search;
    var start := GetDomainAndUrl(data, 0, size, HOST);
    var end := GetDomainAndUrl(data, start, size, CRLF);
    var length := end - start - |HOST|;
    if length < 0 {
      return null;
    }
    url := Grown([], length, data, start + |HOST|);
  }

  method PathBuffer(host: string, data: string, size: nat, verb: string) returns (url: array?<char>)
    requires size + 6 <= |data| && |verb| <= 5
    ensures if PathLength(data, size, verb) < 0 then url == null
            else url != null && fresh(url) && url[..] == host + PathPart(data, size, verb) + ['\0']
  {
    hide Search;
    var start := GetDomainAndUrl(data, 0, size, verb);
    var end := GetDomainAndUrl(data, start, size, CRLF);
    var urlLength := end - start - |GET| - VERSION_LENGTH;
    if urlLength < 0 {
      return null;
    }
    url := Grown(host, urlLength, data, start + |verb|);
  }

  /** A zeroed buffer that holds kept, then n octets of data from start, and one octet more. */
  method Grown(kept: string, n: nat, data: string, start: nat) returns (buffer: array<char>)
    requires start + n <= |data|
    ensures fresh(buffer) && buffer[..] == kept + data[start..start + n] + ['\0']
  {
    buffer := new char[|kept| + n + 1](_ => '\0');
    Fill(buffer, 0, kept, 0, |kept|);
    Fill(buffer, |kept|, data, start, n);
  }

  // memcpy(to + at, from + start, n)
  method Fill(to: array<char>, at: nat, from: string, start: nat, n: nat)
    requires at + n <= to.Length && start + n <= |from|
    modifies to
    ensures forall j :: 0 <= j < to.Length ==>
              to[j] == if at <= j < at + n then from[start + j - at] else old(to[j])
  {
    for i := 0 to n
      invariant forall j :: 0 <= j < to.Length ==>
                  to[j] == if at <= j < at + i then from[start + j - at] else old(to[j])
    {
      to[at + i] := from[start + i];
    }
  }

  // ----- how a payload is classified -----

  /** The first octets tell responses and other payloads, and a blank line inside the payload whole requests from
      truncated ones. */
  lemma ClassifiedExactly(data: string, size: nat)
    requires size + 6 <= |data|
    ensures Classify(data, size) == HttpResponse <==> "HTTP/" <= data
    ensures Classify(data, size) == Truncated
       <==> ("GET /" <= data || "POST /" <= data) && forall i :: 0 <= i < size ==> !("\r\n\r\n" <= data[i..])
    ensures Classify(data, size) == OtherPayload
       <==> !("GET /" <= data) && !("POST /" <= data) && !("HTTP/" <= data)
  {
    hide Url, HostLength, PathLength, Search;
    var end := Search(data, 0, size, HEADER_END);
    assert "HTTP/" <= data ==> data[0] == 'H';
    assert "GET /" <= data ==> data[0] == 'G';
    assert "POST /" <= data ==> data[0] == 'P';
    assert end == size <==> Absent(data, 0, size, "\r\n\r\n");
    forall i | 0 <= i < size ensures Matches(data, i, "\r\n\r\n") <==> "\r\n\r\n" <= data[i..] {
      MatchesIsPrefix(data, i, "\r\n\r\n");
    }
  }

  lemma MatchesIsPrefix(data: string, at: nat, key: string)
    requires at <= |data|
    ensures Matches(data, at, key) <==> key <= data[at..]
  {
    assert at + |key| <= |data| ==> data[at..][..|key|] == data[at..at + |key|];
  }

  // ----- when a copy length is negative -----

  /** "Host: " stands wholly inside the payload. */
  ghost predicate HasHost(data: string, size: nat) {
    exists i: nat :: i + 6 <= size && Matches(data, i, "Host: ")
  }

  /** The first line is shorter than a verb, a blank and a version are taken to be. */
  ghost predicate ShortLine(data: string) {
    exists i :: 0 <= i < 13 && Matches(data, i, "\r\n")
  }

  /** A request whose header section ends inside the payload faults exactly when that holds no whole "Host: ", or
      when its first line has fewer than 13 octets. */
  lemma NegativeLengthExactly(data: string, size: nat)
    requires size + 6 <= |data|
    ensures Classify(data, size) == NegativeLength
       <==> && ("GET /" <= data || "POST /" <= data)
            && (exists i :: 0 <= i < size && Matches(data, i, "\r\n\r\n"))
            && (!HasHost(data, size) || ShortLine(data))
  {
    hide Url;
    HostLengthExactly(data, size);
    var end := Search(data, 0, size, HEADER_END);
    if IsGet(data) || IsPost(data) {
      if end < size {
        assert Matches(data, end, HEADER_END);
        VerbStandsFirst(data);
        PathLengthExactly(data, size, Verb(data), end);
      } else {
        assert Absent(data, 0, size, HEADER_END);
      }
    }
  }

  lemma VerbStandsFirst(data: string)
    requires IsGet(data) || IsPost(data)
    ensures Matches(data, 0, Verb(data))
  {
    if IsGet(data) {
      assert "GET /"[..4] == GET && data[0..4] == data[0..5][..4];
    } else {
      assert "POST /"[..5] == POST && data[0..5] == data[0..6][..5];
    }
  }

  lemma HostLengthExactly(data: string, size: nat)
    requires size + 6 <= |data|
    ensures HostLength(data, size) >= 0 <==> HasHost(data, size)
  {
    var start := Search(data, 0, size, HOST);
    var end := Search(data, start, size, CRLF);
    if start < size {
      assert Matches(data, start, HOST);
      NoLineEndInHost(data, start);
      assert end == size || Matches(data, end, CRLF);
    }
    if HasHost(data, size) {
      var i: nat :| i + |HOST| <= size && Matches(data, i, HOST);
      assert start <= i;
    }
  }

  lemma NoLineEndInHost(data: string, start: nat)
    requires Matches(data, start, HOST)
    ensures Absent(data, start, start + |HOST|, CRLF)
  {
    hide Matches;
    forall i | start <= i < start + |HOST| ensures !Matches(data, i, CRLF) {
      MatchAt(data, start, HOST, i - start);
      if Matches(data, i, CRLF) {
        MatchAt(data, i, CRLF, 0);
      }
    }
  }

  lemma PathLengthExactly(data: string, size: nat, verb: string, end: nat)
    requires size + 6 <= |data| && Matches(data, 0, verb) && end < size && Matches(data, end, HEADER_END)
    ensures PathLength(data, size, verb) < 0 <==> ShortLine(data)
  {
    SearchFinds(data, 0, size, verb, 0);
    assert data[end..end + 2] == data[end..end + 4][..2] == CRLF;
    assert Matches(data, end, CRLF);
    var first := Search(data, 0, size, CRLF);
    assert first <= end;
    assert Matches(data, first, CRLF);
  }

  /** A request without a Host header faults, whatever octets follow it in memory. */
  lemma NoHostFaults(behind: string)
    requires |behind| >= 6
    ensures Classify("GET / HTTP/1.0\r\n\r\n" + behind, 18) == NegativeLength
  {
    var request := "GET / HTTP/1.0\r\n\r\n";
    var data := request + behind;
    assert forall i :: 0 <= i < 18 ==> data[i] == request[i];
    assert Matches(data, 14, HEADER_END);
    forall i: nat | i + |HOST| <= 18 ensures !Matches(data, i, HOST) {
      if Matches(data, i, HOST) {
        MatchAt(data, i, HOST, 0);
        MatchAt(data, i, HOST, 1);
      }
    }
    assert data[0..5] == "GET /";
    NegativeLengthExactly(data, 18);
  }

  // ----- what the URL of a well-formed request is -----

  /** verb path version CRLF middle "Host: " host CRLF rest */
  function RequestText(verb: string, path: string, version: string, middle: string, host: string, rest: string): string
  {
    verb + path + version + "\r\n" + middle + "Host: " + host + "\r\n" + rest
  }

  function HostAt(verb: string, path: string, version: string, middle: string): nat {
    |verb + path + version + "\r\n" + middle|
  }

  /** The request line and the host value contain no CRLF of their own, the Host header is the first place that
      reads "Host: ", and the header section ends inside the payload. */
  ghost predicate Plain(data: string, size: nat, verb: string, path: string, version: string, middle: string,
                        host: string)
  {
    var h := HostAt(verb, path, version, middle);
    && path != "" && path[0] == '/' && |version| == |" HTTP/1.1"|
    && Absent(data, 0, |verb + path + version|, "\r\n")
    && Absent(data, 0, h, "Host: ")
    && Absent(data, h, h + 6 + |host|, "\r\n")
    && exists i :: 0 <= i < size && Matches(data, i, "\r\n\r\n")
  }

  lemma MatchInside(data: string, before: string, key: string, after: string)
    requires before + key + after <= data
    ensures Matches(data, |before|, key)
  {
    assert data[..|before + key|] == before + key;
  }

  /** The URL is the host followed by the path; behind the path of a POST request stands one octet more, the
      blank in front of the version. */
  lemma UrlOfRequest(data: string, size: nat, verb: string, path: string, version: string, middle: string,
                     host: string, rest: string)
    requires verb == "GET " || verb == "POST "
    requires size + 6 <= |data| && data[..size] == RequestText(verb, path, version, middle, host, rest)
    requires Plain(data, size, verb, path, version, middle, host)
    ensures Classify(data, size)
         == HttpRequest(host + path + if verb == "GET " then "" else [version[0]])
  {
    hide Search, Absent, Url, HostLength, PathLength, IsGet, IsPost, RequestText;
    UrlIsRead(data, size, verb, path, version, middle, host, rest);
    EndIsFound(data, size, verb, path, version, middle, host);
  }

  lemma UrlIsRead(data: string, size: nat, verb: string, path: string, version: string, middle: string,
                  host: string, rest: string)
    requires verb == GET || verb == POST
    requires size + 6 <= |data| && data[..size] == RequestText(verb, path, version, middle, host, rest)
    requires Plain(data, size, verb, path, version, middle, host)
    ensures (IsGet(data) || IsPost(data)) && Verb(data) == verb
    ensures HostLength(data, size) >= 0 && PathLength(data, size, verb) >= 0
    ensures Url(data, size, verb) == host + path + if verb == GET then "" else [version[0]]
  {
    hide Search, Matches, Absent;
    var line, tail := verb + path + version + CRLF, middle + HOST + host + CRLF + rest;
    assert RequestText(verb, path, version, middle, host, rest) == line + tail;
    VerbIsRead(data, size, verb, path, version, tail);
    HostIsRead(data, size, line + middle, host, rest);
    Reassociate(host, path, if verb == GET then "" else [version[0]]);
  }

  lemma EndIsFound(data: string, size: nat, verb: string, path: string, version: string, middle: string, host: string)
    requires Plain(data, size, verb, path, version, middle, host)
    ensures Search(data, 0, size, HEADER_END) < size
  {
    var i :| 0 <= i < size && Matches(data, i, HEADER_END);
    assert Search(data, 0, size, HEADER_END) <= i;
  }

  lemma VerbIsRead(data: string, size: nat, verb: string, path: string, version: string, tail: string)
    requires verb == GET || verb == POST
    requires size <= |data| && data[..size] == verb + path + version + CRLF + tail
    requires path != "" && path[0] == '/' && |version| == VERSION_LENGTH
    requires Absent(data, 0, |verb + path + version|, CRLF)
    ensures (IsGet(data) <==> verb == GET) && (IsPost(data) <==> verb == POST)
    ensures Search(data, 0, size, verb) == 0
    ensures PathLength(data, size, verb) == |path| + if verb == GET then 0 else 1
    ensures data[|verb|..|verb| + PathLength(data, size, verb)] == path + if verb == GET then "" else [version[0]]
  {
    var line := verb + path + version;
    assert data[..size] == line + CRLF + tail;
    assert "" + verb + (path + version + CRLF + tail) == data[..size];
    MatchInside(data, line, CRLF, tail);
    MatchInside(data, "", verb, path + version + CRLF + tail);
    assert line + (CRLF + tail) <= data;
    hide Matches, Search, IsGet, IsPost;
    SearchFinds(data, 0, size, verb, 0);
    SearchFinds(data, 0, size, CRLF, |line|);
    LineIsRead(data, verb, path, version, CRLF + tail);
  }

  lemma LineIsRead(data: string, verb: string, path: string, version: string, tail: string)
    requires verb == GET || verb == POST
    requires verb + path + version + tail <= data
    requires path != "" && path[0] == '/' && |version| == VERSION_LENGTH
    ensures (IsGet(data) <==> verb == GET) && (IsPost(data) <==> verb == POST)
    ensures var n := |path| + if verb == GET then 0 else 1;
            data[|verb|..|verb| + n] == path + if verb == GET then "" else [version[0]]
  {
    var line := verb + path + version;
    assert forall i :: 0 <= i < |line| ==> data[i] == line[i];
    assert data[|verb|] == '/';
    assert verb == GET ==> data[0..5] == "GET /";
    assert verb == POST ==> data[0..6] == "POST /" && data[0..5][0] == 'P';
  }

  lemma HostIsRead(data: string, size: nat, before: string, host: string, rest: string)
    requires size <= |data| && data[..size] == before + HOST + host + CRLF + rest
    requires Absent(data, 0, |before|, HOST)
    requires Absent(data, |before|, |before| + |HOST| + |host|, CRLF)
    ensures Search(data, 0, size, HOST) == |before| && HostLength(data, size) == |host|
    ensures data[|before| + |HOST|..|before| + |HOST| + |host|] == host
  {
    hide Matches, Search, Absent;
    Reassociate(before + HOST, host, CRLF + rest);
    Reassociate(before + HOST + host, CRLF, rest);
    Reassociate(host, CRLF, rest);
    MatchInside(data, before, HOST, host + CRLF + rest);
    MatchInside(data, before + HOST + host, CRLF, rest);
    assert data[|before + HOST|..|before + HOST + host|] == host by {
      assert before + HOST + host + (CRLF + rest) <= data;
    }
    SearchFinds(data, 0, size, HOST, |before|);
    SearchFinds(data, |before|, size, CRLF, |before| + |HOST| + |host|);
  }

  /** The URL is exactly host and path if and only if the request is a GET. */
  lemma UrlIsExactForGet(data: string, size: nat, verb: string, path: string, version: string, middle: string,
                         host: string, rest: string)
    requires verb == "GET " || verb == "POST "
    requires size + 6 <= |data| && data[..size] == RequestText(verb, path, version, middle, host, rest)
    requires Plain(data, size, verb, path, version, middle, host)
    ensures Classify(data, size) == HttpRequest(host + path) <==> verb == "GET "
  {
    UrlOfRequest(data, size, verb, path, version, middle, host, rest);
    hide Classify, Plain, RequestText;
    var tail := if verb == GET then "" else [version[0]];
    assert |host + path + tail| == |host + path| + |tail|;
    assert host + path + "" == host + path;
  }

  /** Two requests from end to end, whatever follows them in memory. */
  lemma UrlOfA(behind: string)
    requires |behind| >= 6
    ensures Classify("GET /a HTTP/1.1\r\nHost: b\r\n\r\n" + behind, 28) == HttpRequest("b/a")
    ensures Classify("POST /a HTTP/1.1\r\nHost: b\r\n\r\n" + behind, 29) == HttpRequest("b/a ")
  {
    hide Classify;
    var tail := "/a HTTP/1.1\r\nHost: b\r\n\r\n";
    VerbInFront("GET ", tail);
    VerbInFront("POST ", tail);
    RequestForA("GET ", tail, behind);
    RequestForA("POST ", tail, behind);
  }

  lemma VerbInFront(verb: string, tail: string)
    requires tail == "/a HTTP/1.1\r\nHost: b\r\n\r\n"
    ensures verb == "GET " ==> verb + tail == "GET /a HTTP/1.1\r\nHost: b\r\n\r\n"
    ensures verb == "POST " ==> verb + tail == "POST /a HTTP/1.1\r\nHost: b\r\n\r\n"
  {
  }

  lemma RequestForA(verb: string, tail: string, behind: string)
    requires |behind| >= 6 && (verb == "GET " || verb == "POST ")
    requires tail == "/a HTTP/1.1\r\nHost: b\r\n\r\n"
    ensures Classify(verb + tail + behind, |verb| + 24) == HttpRequest(if verb == "GET " then "b/a" else "b/a ")
  {
    hide Classify, Plain, RequestText;
    TailOctets(tail);
    TailInParts(tail);
    RequestInParts(verb, "/a", " HTTP/1.1", "b", "\r\n", tail);
    PlainRequest(verb, tail, behind);
    assert (verb + tail + behind)[..|verb| + 24] == verb + tail;
    UrlOfRequest(verb + tail + behind, |verb| + 24, verb, "/a", " HTTP/1.1", "", "b", "\r\n");
  }

  lemma RequestInParts(verb: string, path: string, version: string, host: string, rest: string, tail: string)
    requires tail == path + version + "\r\n" + "Host: " + host + "\r\n" + rest
    ensures RequestText(verb, path, version, "", host, rest) == verb + tail
  {
    assert verb + path + version + "\r\n" + "" == verb + (path + version + "\r\n");
    assert verb + (path + version + "\r\n") + ("Host: " + host + "\r\n" + rest)
        == verb + (path + version + "\r\n" + ("Host: " + host + "\r\n" + rest));
  }

  lemma PlainRequest(verb: string, tail: string, behind: string)
    requires verb == "GET " || verb == "POST "
    requires |tail| == 24 && tail[20..] == "\r\n\r\n"
    requires forall i :: 0 <= i < 20 && i != 11 ==> tail[i] != '\r'
    requires forall i :: 0 <= i < 13 ==> tail[i] != 'H' || tail[i + 1] != 'o'
    ensures Plain(verb + tail + behind, |verb| + 24, verb, "/a", " HTTP/1.1", "", "b")
  {
    hide Matches, Absent;
    assert |"/a"| == 2 && "/a"[0] == '/' && |" HTTP/1.1"| == 9 && |"\r\n"| == 2;
    NothingEarly(verb, tail, behind);
  }

  lemma TailInParts(tail: string)
    requires tail == "/a HTTP/1.1\r\nHost: b\r\n\r\n"
    ensures tail == "/a" + " HTTP/1.1" + "\r\n" + "Host: " + "b" + "\r\n" + "\r\n"
  {
    var line := "/a" + " HTTP/1.1" + "\r\n";
    assert line == "/a HTTP/1.1\r\n";
    assert tail == line + "Host: " + "b" + "\r\n" + "\r\n";
  }

  lemma TailOctets(tail: string)
    requires tail == "/a HTTP/1.1\r\nHost: b\r\n\r\n"
    ensures |tail| == 24 && tail[20..] == "\r\n\r\n"
    ensures forall i :: 0 <= i < 20 && i != 11 ==> tail[i] != '\r'
    ensures forall i :: 0 <= i < 13 ==> tail[i] != 'H' || tail[i + 1] != 'o'
  {
  }

  lemma NothingEarly(verb: string, tail: string, behind: string)
    requires verb == "GET " || verb == "POST "
    requires |tail| == 24 && tail[20..] == "\r\n\r\n"
    requires forall i :: 0 <= i < 20 && i != 11 ==> tail[i] != '\r'
    requires forall i :: 0 <= i < 13 ==> tail[i] != 'H' || tail[i + 1] != 'o'
    ensures var data, n := verb + tail + behind, |verb|;
            && Absent(data, 0, n + 11, "\r\n") && Absent(data, 0, n + 13, "Host: ")
            && Absent(data, n + 13, n + 20, "\r\n") && Matches(data, n + 20, "\r\n\r\n")
  {
    var data, n := verb + tail + behind, |verb|;
    assert forall i :: 0 <= i < n ==> data[i] == verb[i] && verb[i] != '\r' && verb[i] != 'H';
    assert forall i :: n <= i < n + 24 ==> data[i] == tail[i - n];
    assert data[n + 20..n + 24] == tail[20..];
    NotThere(data, 0, n + 11, "\r\n");
    NotThere(data, 0, n + 13, "Host: ");
    NotThere(data, n + 13, n + 20, "\r\n");
  }

  lemma NotThere(data: string, from: nat, to: nat, key: string)
    requires |key| >= 2 && from <= to < |data|
    requires forall i :: from <= i < to ==> data[i] != key[0] || data[i + 1] != key[1]
    ensures Absent(data, from, to, key)
  {
    forall i | from <= i < to ensures !Matches(data, i, key) {
      if Matches(data, i, key) {
        MatchAt(data, i, key, 0);
        MatchAt(data, i, key, 1);
      }
    }
  }
}
