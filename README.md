# BarkPush request logic in Dafny

A model of the single-header C++ client `BarkPush` (`bark_push.hpp`), which
sends one push notification to a Bark relay with one libcurl POST. The model
covers everything in that file that is not libcurl:

- `escapeJson`: the per-byte escaping of the title and the message
  (module `JsonEscape`). The method `EscapeJson` keeps the source's loop. It
  is proved equal to the function `Escape`, and the laws are proved about
  `Escape`. These laws are the seven-entry table, distribution over
  concatenation, exact length and bounds, no raw short control characters,
  and a decoder that reads the output back (round trip and injectivity).
- the request that `send` builds (module `BarkPush`): the URL
  `server_ + token_`, the default server `https://api.day.app/`, the
  `Content-Type: application/json` header, and the body
  `{"title":"…","body":"…"}`. The built body is proved to read back as the
  title and the message it was built from.
- what libcurl is actually given. `send` passes the URL and the body as
  `c_str()` pointers with no length, so libcurl reads each only up to its
  first NUL byte (`Text.CString`). `escapeJson` copies a NUL unchanged. So a
  NUL in the title or the message cuts the posted body short, and a NUL in the
  server or the token cuts the URL short. The posted body reads back as the
  title and the message if and only if neither holds a NUL; otherwise it is a
  truncated object that does not parse (`BarkPush.ParsePostedBody`).
- the decision `send` takes on what libcurl reports: no handle, or a transfer
  that did not complete, means false. Otherwise the result is true exactly
  when the HTTP status is 200.
- `WriteCallback`: it appends `size * nmemb` bytes to the response buffer and
  returns that count. The buffer is a class whose field the method updates.
  The product is taken modulo 2^64, as in `size_t` on a 64-bit target, which
  the model assumes.

A `std::string` is a sequence of bytes. The model writes a byte as `Text.Byte`,
a character whose code is below 256, so that the source's string literals can
be written as they are.

`bark_push.hpp` is the simple single-key client. The upstream's later
multi-key version does more, and the model follows `bark_push.hpp`:

- The URL is `server_ + token_`, not the server plus `push`.
- The body has no `device_keys` array and no parameter map.
- The code does not check parameter values for booleans or numbers.
- The code does not normalise URLs.
- The code does NOT turn control characters other than the five with a short
  escape into `\u00XX`. They are copied raw, so such a body is not strictly
  valid RFC 8259 JSON. `JsonEscape.UnlistedControlStaysRaw` and
  `JsonEscape.EscapeIdentity` state this.
- There is no error taxonomy. `send` returns a bool, and a 200 reply with an
  empty body is a success.

## Model

| member | source | states |
|---|---|---|
| `JsonEscape.EscapeChar` | bark_push.hpp:113-139 | the switch: each of `"`, `\`, backspace, form feed, newline, carriage return and tab becomes a backslash and a letter that decodes back to it; every other byte, other control characters included, is copied as it is; the replacement holds none of the five short control characters |
| `JsonEscape.Escape` | bark_push.hpp:106-143 | the output is at least as long as the input and at most twice as long (so the empty string escapes to the empty string), and holds no raw backspace, form feed, newline, carriage return or tab |
| `JsonEscape.EscapeJson` | bark_push.hpp:106-143 | the loop that appends each byte's replacement produces exactly `Escape(input)` |
| `JsonEscape.EscapeAppend` | bark_push.hpp:108-142 | escaping distributes over concatenation: `Escape(a + b) == Escape(a) + Escape(b)` |
| `JsonEscape.EscapeLength` | bark_push.hpp:113-138 | the output length is the input length plus the number of bytes that need an escape |
| `JsonEscape.EscapeIdentity` | bark_push.hpp:136-138 | escaping leaves a string unchanged if and only if it contains none of the seven escaped bytes |
| `JsonEscape.UnlistedControlStaysRaw` | bark_push.hpp:136-138 | a control character outside the five (0x01, say) is emitted raw, with no `\u00XX` escape |
| `JsonEscape.ReadEscaped` | bark_push.hpp:113-138 | a lenient reader of the seven escapes, given the escaped string and a closing quote, returns the original string and what follows the quote, so the first unescaped quote is the closing one |
| `JsonEscape.EscapeNul` | bark_push.hpp:136-137 | the escaped string holds a NUL byte if and only if the input does |
| `JsonEscape.EscapeCString` | bark_push.hpp:136-137 | reading the escaped string up to its first NUL gives the escape of the input up to its first NUL |
| `JsonEscape.EscapeInjective` | bark_push.hpp:113-138 | different inputs escape to different outputs |
| `BarkPush.NewClient` | bark_push.hpp:29-31 | the constructor stores the token and the server, which defaults to `https://api.day.app/` |
| `BarkPush.RequestUrl` | bark_push.hpp:54 | the URL is the server followed by the token, with nothing added or removed between them |
| `BarkPush.DefaultServerUrl` | bark_push.hpp:30 | with the default server, the URL is `https://api.day.app/` followed by the token |
| `BarkPush.RequestBody` | bark_push.hpp:57-59 | the built body is 22 fixed bytes plus the escaped title and message, so its length lies between 22 + the input lengths and 22 + twice the input lengths |
| `BarkPush.ParseRequestBody` | bark_push.hpp:57-59 | reading the body back as `{"title":"…","body":"…"}` gives exactly the title and message it was built from |
| `BarkPush.RequestBodyInjective` | bark_push.hpp:57-59 | two different (title, message) pairs never give the same body |
| `Text.CString` | bark_push.hpp:62-64 | what libcurl reads from a `c_str()` pointer with no length: the longest prefix without a NUL, which ends where the first NUL stands |
| `BarkPush.PostedBody` | bark_push.hpp:59-64 | the posted body is cut inside the title when the title holds a NUL, inside the message when only the message does, and is the whole built body otherwise |
| `BarkPush.ParsePostedBody` | bark_push.hpp:57-64 | the posted body reads back as the title and the message if and only if neither holds a NUL; otherwise it does not read at all |
| `BarkPush.NulCutsTitle` | bark_push.hpp:64 | the title "a", NUL, "b" is posted as `{"title":"a` whatever the message |
| `BarkPush.BuildRequest` | bark_push.hpp:53-69 | libcurl is given the server-plus-token URL and the built body as C strings, with the JSON content-type header; with no NUL in the server, the token, the title or the message they are exactly the built strings, and the body reads back as the title and message if and only if neither holds a NUL |
| `BarkPush.Succeeded` | bark_push.hpp:78-95 | success implies the transfer completed, and a completed transfer succeeds if and only if the status is 200 |
| `BarkPush.Send` | bark_push.hpp:44-101 | `send` is true if and only if a handle was created and the transfer of the built request completed with status 200 |
| `BarkPush.TransportFailureFails` | bark_push.hpp:80-83 | a transfer that did not complete is a failure whatever status code goes with it |
| `BarkPush.ResponseIgnored` | bark_push.hpp:86-95 | the response body has no effect on the result; only the result code and the status do |
| `BarkPush.ChunkLength` | bark_push.hpp:10 | `size * nmemb` in `size_t`, taken to be 64 bits: equal to the product when that fits, 0 when either factor is 0 |
| `BarkPush.WriteCallback` | bark_push.hpp:8-20 | the buffer becomes its old contents followed by the `size * nmemb` delivered bytes, and that count is returned |

## Left out

- The libcurl calls are foreign I/O and are left out. These are `curl_global_init` and `curl_global_cleanup` in the constructor and destructor, `curl_easy_init`, the `setopt` calls, `curl_easy_perform`, `curl_easy_getinfo`, the header list handling and the cleanups. Whether a handle was created, and the reply to a request, are inputs (`BarkPush.Transport`).
- The `std::cerr` diagnostics are output only and are left out.
- BarkPush.WriteCallback: the `std::bad_alloc` branch, which returns 0 and leaves the buffer unspecified, is not modelled. Allocation failure has no counterpart in the model.
- BarkPush.Send: the reply to a request is a function of the request. Whatever the network does between two calls is therefore fixed inside one `Transport` value.
- JsonEscape.ReadString: the reader used to state the round trip is lenient. It decodes only the seven escapes that `escapeJson` produces, not `\/` or `\uXXXX`, which `escapeJson` never emits. It also accepts raw bytes 0x00 to 0x1F, which RFC 8259 forbids inside a string. `ReadEscaped` holds for every input only because of this leniency: an input with a raw control byte such as 0x01 escapes to text a strict JSON parser rejects.
- BarkPush.ChunkLength: `size_t` is taken to be 64 bits; on a 32-bit target the product wraps at 2^32 instead.
