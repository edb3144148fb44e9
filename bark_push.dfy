/**
 * The `BarkPush` client: the request `send` builds from its server, device
 * token, title and message, the decision `send` takes on what the transfer
 * reports, and the callback that collects the response into a buffer.
 * libcurl itself is not modelled: what it reports is an input.
 */
module BarkPush {
  import opened Text
  import opened JsonEscape

  /** The server used when the constructor is given none. */
  const DefaultServer: ByteString := "https://api.day.app/"

  /** The one header `send` attaches. */
  const ContentTypeHeader: ByteString := "Content-Type: application/json"

  // The fixed parts of the request body around the two escaped values.
  const BodyOpen: ByteString := "{\"title\":\""
  const BodyMiddle: ByteString := "\",\"body\":\""
  const BodyClose: ByteString := "\"}"

  /** A client: its device token and its server. Neither changes after construction. */
  datatype Client = Client(token: ByteString, server: ByteString)

  /** The constructor, with its default server. */
  function NewClient(token: ByteString, server: ByteString := DefaultServer): (c: Client)
    ensures c.token == token && c.server == server
  {
    Client(token, server)
  }

  /** The URL `send` posts to: the server followed by the token, nothing in between. */
  function RequestUrl(c: Client): (url: ByteString)
    ensures |url| == |c.server| + |c.token|
    ensures url[..|c.server|] == c.server && url[|c.server|..] == c.token
  {
    c.server + c.token
  }

  /** With the default server, the URL is the public relay's address followed by the token. */
  lemma DefaultServerUrl(token: ByteString)
    ensures RequestUrl(NewClient(token)) == "https://api.day.app/" + token
  {
  }

  /** The JSON object `send` builds, with both values escaped: 22 fixed bytes around them. */
  function RequestBody(title: ByteString, message: ByteString): (body: ByteString)
    ensures 22 + |title| + |message| <= |body| <= 22 + 2 * (|title| + |message|)
  {
    BodyOpen + Escape(title) + BodyMiddle + Escape(message) + BodyClose
  }

  /** `s` without the leading `p`, or None when `s` does not start with `p`. */
  function DropPrefix(p: ByteString, s: ByteString): Option<ByteString> {
    if |p| <= |s| && s[..|p|] == p then Some(s[|p|..]) else None
  }

  lemma DropPrefixOf(p: ByteString, x: ByteString)
    ensures DropPrefix(p, p + x) == Some(x)
  {
  }

  /**
   * Reads `open`, a JSON string, `key`, a JSON string and `close`, in that
   * order, and gives the two strings; None for anything else.
   */
  function ParseObject(open: ByteString, key: ByteString, close: ByteString, body: ByteString): Option<(ByteString, ByteString)> {
    match DropPrefix(open, body)
    case None => None
    case Some(r0) =>
      match ReadString(r0)
      case None => None
      case Some((first, r1)) =>
        match DropPrefix(key, r1)
        case None => None
        case Some(r2) =>
          match ReadString(r2)
          case None => None
          case Some((second, tail)) => if tail == close then Some((first, second)) else None
  }

  /**
   * Reads a body of the shape `{"title":"…","body":"…"}` back into its
   * title and message; None for anything else.
   */
  function ParseBody(body: ByteString): Option<(ByteString, ByteString)> {
    ParseObject(BodyOpen, BodyMiddle[1..], BodyClose[1..], body)
  }

  /** The fixed parts hold no NUL, and the middle and the closing part start with the closing quote. */
  lemma FixedParts()
    ensures BodyMiddle == ['"'] + BodyMiddle[1..] && BodyClose == ['"'] + BodyClose[1..]
    ensures Nul !in BodyOpen && Nul !in BodyMiddle && Nul !in BodyClose
  {
  }

  lemma {:induction false} ParseObjectOf(open: ByteString, key: ByteString, close: ByteString, t: ByteString, m: ByteString)
    ensures ParseObject(open, key, close, open + (Escape(t) + ['"'] + (key + (Escape(m) + ['"'] + close)))) == Some((t, m))
  {
    var r1 := key + (Escape(m) + ['"'] + close);
    DropPrefixOf(open, Escape(t) + ['"'] + r1);
    ReadEscaped(t, r1);
    DropPrefixOf(key, Escape(m) + ['"'] + close);
    ReadEscaped(m, close);
  }

  lemma {:induction false} ParseObjectCutFirst(open: ByteString, key: ByteString, close: ByteString, t: ByteString)
    ensures ParseObject(open, key, close, open + Escape(t)) == None
  {
    DropPrefixOf(open, Escape(t));
    ReadEscapedUnclosed(t);
  }

  lemma {:induction false} ParseObjectCutSecond(open: ByteString, key: ByteString, close: ByteString, t: ByteString, m: ByteString)
    ensures ParseObject(open, key, close, open + (Escape(t) + ['"'] + (key + Escape(m)))) == None
  {
    var r1 := key + Escape(m);
    DropPrefixOf(open, Escape(t) + ['"'] + r1);
    ReadEscaped(t, r1);
    DropPrefixOf(key, Escape(m));
    ReadEscapedUnclosed(m);
  }

  /** The body regrouped around its two closing quotes. */
  lemma Regroup(p: ByteString, a: ByteString, key: ByteString, b: ByteString, close: ByteString)
    ensures p + a + (['"'] + key) + b + (['"'] + close) == p + (a + ['"'] + (key + (b + ['"'] + close)))
  {
  }

  /** Five parts regrouped to the right. */
  lemma RegroupRight(p: ByteString, a: ByteString, q: ByteString, b: ByteString, z: ByteString)
    ensures p + a + q + b + z == p + (a + (q + (b + z)))
  {
  }

  /** The body cut inside the message, regrouped around the title's closing quote. */
  lemma RegroupCut(p: ByteString, a: ByteString, key: ByteString, b: ByteString)
    ensures p + (a + ((['"'] + key) + b)) == p + (a + ['"'] + (key + b))
  {
  }

  /** The built body carries the title and the message intact: reading it back gives both. */
  lemma {:induction false} ParseRequestBody(title: ByteString, message: ByteString)
    ensures ParseBody(RequestBody(title, message)) == Some((title, message))
  {
    FixedParts();
    var key, close := BodyMiddle[1..], BodyClose[1..];
    Regroup(BodyOpen, Escape(title), key, Escape(message), close);
    ParseObjectOf(BodyOpen, key, close, title, message);
  }

  /** Different (title, message) pairs build different bodies. */
  lemma RequestBodyInjective(t1: ByteString, m1: ByteString, t2: ByteString, m2: ByteString)
    requires RequestBody(t1, m1) == RequestBody(t2, m2)
    ensures t1 == t2 && m1 == m2
  {
    ParseRequestBody(t1, m1);
    ParseRequestBody(t2, m2);
  }

  /** The C string of `p + a + q + b + z` when only `a` and `b` may hold a NUL. */
  lemma {:induction false} CStringFrame(p: ByteString, a: ByteString, q: ByteString, b: ByteString, z: ByteString)
    requires Nul !in p && Nul !in q && Nul !in z
    ensures CString(p + (a + (q + (b + z)))) ==
      if Nul in a then p + CString(a)
      else if Nul in b then p + (a + (q + CString(b)))
      else p + (a + (q + (b + z)))
  {
    CStringAppend(p, a + (q + (b + z)));
    CStringAppend(a, q + (b + z));
    CStringAppend(q, b + z);
    CStringAppend(b, z);
    CStringAppend(z, []);
    assert z + [] == z;
  }

  /**
   * The body libcurl posts. `send` hands it `json_data.c_str()` without a
   * length, so libcurl reads it up to the first NUL: a NUL in the title
   * (escaped as itself) cuts the body inside the title, a NUL in the
   * message cuts it inside the message.
   */
  lemma {:induction false} PostedBody(title: ByteString, message: ByteString)
    ensures CString(RequestBody(title, message)) ==
      if Nul in title then BodyOpen + Escape(CString(title))
      else if Nul in message then BodyOpen + (Escape(title) + (BodyMiddle + Escape(CString(message))))
      else RequestBody(title, message)
  {
    FixedParts();
    EscapeCString(title);
    EscapeCString(message);
    EscapeNul(title);
    EscapeNul(message);
    var et, em := Escape(title), Escape(message);
    RegroupRight(BodyOpen, et, BodyMiddle, em, BodyClose);
    CStringFrame(BodyOpen, et, BodyMiddle, em, BodyClose);
  }

  /**
   * The posted body reads back as the title and the message exactly when
   * neither holds a NUL; otherwise it is a truncated object that does not
   * read at all.
   */
  lemma {:induction false} ParsePostedBody(title: ByteString, message: ByteString)
    ensures ParseBody(CString(RequestBody(title, message))) ==
      if Nul !in title && Nul !in message then Some((title, message)) else None
  {
    PostedBody(title, message);
    FixedParts();
    var key, close := BodyMiddle[1..], BodyClose[1..];
    if Nul in title {
      ParseObjectCutFirst(BodyOpen, key, close, CString(title));
    } else if Nul in message {
      RegroupCut(BodyOpen, Escape(title), key, Escape(CString(message)));
      ParseObjectCutSecond(BodyOpen, key, close, title, CString(message));
    } else {
      ParseRequestBody(title, message);
    }
  }

  /** For example, the title "a", NUL, "b" is posted as `{"title":"a` and nothing more. */
  lemma NulCutsTitle(message: ByteString)
    ensures CString(RequestBody(['a', Nul, 'b'], message)) == "{\"title\":\"a"
  {
    PostedBody(['a', Nul, 'b'], message);
    assert CString(['a', Nul, 'b']) == ['a'];
  }

  /**
   * What libcurl is given: the URL and the body as the C strings it reads
   * from `c_str()`, and the one header.
   */
  datatype Request = Request(url: ByteString, header: ByteString, body: ByteString)

  /**
   * The request `send` hands to libcurl for a title and a message. The
   * URL and the body are exactly the built strings when the server, the
   * token, the title and the message hold no NUL.
   */
  function BuildRequest(c: Client, title: ByteString, message: ByteString): (req: Request)
    ensures req.url == CString(RequestUrl(c)) && req.header == ContentTypeHeader
    ensures req.body == CString(RequestBody(title, message))
    ensures Nul !in c.server && Nul !in c.token ==> req.url == RequestUrl(c)
    ensures Nul !in title && Nul !in message ==> req.body == RequestBody(title, message)
    ensures ParseBody(req.body) == if Nul !in title && Nul !in message then Some((title, message)) else None
  {
    PostedBody(title, message);
    ParsePostedBody(title, message);
    assert Nul !in c.server && Nul !in c.token ==> Nul !in RequestUrl(c);
    Request(CString(RequestUrl(c)), ContentTypeHeader, CString(RequestBody(title, message)))
  }

  /** A libcurl result code; 0 is CURLE_OK. */
  type CurlCode = int
  const CURLE_OK: CurlCode := 0

  /**
   * What the transfer reports: the result of `curl_easy_perform`, the HTTP
   * status from `curl_easy_getinfo` (read only when the result is
   * CURLE_OK) and the response bytes the write callback collected.
   */
  datatype Reply = Reply(result: CurlCode, status: int, response: ByteString)

  /**
   * libcurl as `send` sees it: whether `curl_easy_init` gave a handle, and
   * the reply a transfer of a given request would produce.
   */
  datatype Transport = Transport(handleCreated: bool, perform: Request -> Reply)

  /** The decision at the end of a transfer: a success is a completed transfer with status 200. */
  function Succeeded(result: CurlCode, status: int): (success: bool)
    ensures success ==> result == CURLE_OK
    ensures result == CURLE_OK ==> (success <==> status == 200)
  {
    if result != CURLE_OK then false else status == 200
  }

  /** `send`: false without a handle, otherwise the decision on the reply to the built request. */
  function Send(c: Client, title: ByteString, message: ByteString, t: Transport): (success: bool)
    ensures success <==>
      t.handleCreated &&
      var reply := t.perform(BuildRequest(c, title, message));
      reply.result == CURLE_OK && reply.status == 200
  {
    if !t.handleCreated then false
    else
      var reply := t.perform(BuildRequest(c, title, message));
      Succeeded(reply.result, reply.status)
  }

  /** A transport failure is a failure whatever status code accompanies it. */
  lemma TransportFailureFails(result: CurlCode, s1: int, s2: int)
    requires result != CURLE_OK
    ensures !Succeeded(result, s1) && Succeeded(result, s1) == Succeeded(result, s2)
  {
  }

  /** The response body plays no part in the outcome: only the result code and the status do. */
  lemma ResponseIgnored(c: Client, title: ByteString, message: ByteString, t1: Transport, t2: Transport)
    requires t1.handleCreated == t2.handleCreated
    requires t1.perform(BuildRequest(c, title, message)).result == t2.perform(BuildRequest(c, title, message)).result
    requires t1.perform(BuildRequest(c, title, message)).status == t2.perform(BuildRequest(c, title, message)).status
    ensures Send(c, title, message, t1) == Send(c, title, message, t2)
  {
  }

  /** A `size_t`, taking the target to be a 64-bit one. */
  const SIZE_T_MODULUS: nat := 0x1_0000_0000_0000_0000
  type SizeT = n: nat | n < SIZE_T_MODULUS

  /** `size * nmemb` in `size_t` arithmetic, which wraps around. */
  function ChunkLength(size: SizeT, nmemb: SizeT): (n: SizeT)
    ensures size * nmemb < SIZE_T_MODULUS ==> n == size * nmemb
    ensures size == 0 || nmemb == 0 ==> n == 0
  {
    (size * nmemb) % SIZE_T_MODULUS
  }

  /** The `std::string` the write callback appends the response to. */
  class ResponseBuffer {
    var data: ByteString

    constructor ()
      ensures data == []
    {
      data := [];
    }
  }

  /**
   * `WriteCallback`: appends the `size * nmemb` bytes libcurl delivers at
   * `contents` to the buffer and reports them all as taken.
   */
  method WriteCallback(contents: array<Byte>, size: SizeT, nmemb: SizeT, s: ResponseBuffer) returns (taken: SizeT)
    requires ChunkLength(size, nmemb) <= contents.Length
    modifies s
    ensures taken == ChunkLength(size, nmemb)
    ensures s.data == old(s.data) + contents[..taken]
  {
    var newLength := ChunkLength(size, nmemb);
    s.data := s.data + contents[..newLength];
    taken := newLength;
  }
}
