/**
 * The string escaping that `BarkPush::escapeJson` applies to the title and
 * the message before they are placed between double quotes in the request
 * body. It is the two-character part of the string escapes of section 7 of
 * RFC 8259: the quote, the backslash and five control characters get a
 * backslash escape; every other byte, including the other control
 * characters, is copied as it is.
 */
module JsonEscape {
  import opened Text

  /** The seven bytes that `escapeJson` replaces by a two-byte escape. */
  predicate NeedsEscape(c: Byte) {
    c == '"' || c == '\\' || IsShortControl(c)
  }

  /** The five control characters that have a one-letter escape. */
  predicate IsShortControl(c: Byte) {
    c == Backspace || c == FormFeed || c == LineFeed || c == CarriageReturn || c == Tab
  }

  /**
   * The byte that the escape `\e` stands for, for the seven escapes
   * `escapeJson` produces; None for any other letter.
   */
  function UnescapeLetter(e: Byte): Option<Byte> {
    match e
    case '"' => Some('"')
    case '\\' => Some('\\')
    case 'b' => Some(Backspace)
    case 'f' => Some(FormFeed)
    case 'n' => Some(LineFeed)
    case 'r' => Some(CarriageReturn)
    case 't' => Some(Tab)
    case _ => None
  }

  /** The replacement of one input byte: one case of the switch in `escapeJson`. */
  function EscapeChar(c: Byte): (r: ByteString)
    ensures NeedsEscape(c) ==> |r| == 2 && r[0] == '\\' && UnescapeLetter(r[1]) == Some(c)
    ensures !NeedsEscape(c) ==> r == [c]
    ensures forall j :: 0 <= j < |r| ==> !IsShortControl(r[j])
  {
    match c
    case '"' => "\\\""
    case '\\' => "\\\\"
    case '\U{8}' => "\\b"
    case '\U{C}' => "\\f"
    case '\n' => "\\n"
    case '\r' => "\\r"
    case '\t' => "\\t"
    case _ => [c]
  }

  /**
   * The output of `escapeJson`: the replacements of the input bytes, in
   * order. It is never shorter than the input, at most twice as long, and
   * holds none of the five control characters that have a short escape.
   */
  function Escape(s: ByteString): (r: ByteString)
    ensures |s| <= |r| <= 2 * |s|
    ensures forall j :: 0 <= j < |r| ==> !IsShortControl(r[j])
  {
    if s == [] then [] else EscapeChar(s[0]) + Escape(s[1..])
  }

  /** The number of bytes of `s` that get a two-byte escape. */
  function CountEscaped(s: ByteString): nat {
    if s == [] then 0 else (if NeedsEscape(s[0]) then 1 else 0) + CountEscaped(s[1..])
  }

  /**
   * `escapeJson` as the source writes it: a loop over the input that
   * appends each byte's replacement to the output.
   */
  method EscapeJson(input: ByteString) returns (output: ByteString)
    ensures output == Escape(input)
  {
    output := [];
    var i := 0;
    while i < |input|
      invariant 0 <= i <= |input|
      invariant output == Escape(input[..i])
    {
      EscapeAppend(input[..i], [input[i]]);
      assert input[..i + 1] == input[..i] + [input[i]];
      output := output + EscapeChar(input[i]);
      i := i + 1;
    }
    assert input[..i] == input;
  }

  /** Escaping distributes over concatenation. */
  lemma {:induction false} EscapeAppend(a: ByteString, b: ByteString)
    ensures Escape(a + b) == Escape(a) + Escape(b)
  {
    if a == [] {
      assert a + b == b;
    } else {
      assert (a + b)[0] == a[0];
      assert (a + b)[1..] == a[1..] + b;
      EscapeAppend(a[1..], b);
    }
  }

  /** The output is the input plus one byte per byte that needs an escape. */
  lemma {:induction false} EscapeLength(s: ByteString)
    ensures |Escape(s)| == |s| + CountEscaped(s)
    ensures CountEscaped(s) <= |s|
  {
    if s != [] {
      EscapeLength(s[1..]);
    }
  }

  /** No byte needs an escape exactly when none is counted. */
  lemma {:induction false} CountEscapedZero(s: ByteString)
    ensures CountEscaped(s) == 0 <==> forall i :: 0 <= i < |s| ==> !NeedsEscape(s[i])
  {
    if s != [] {
      CountEscapedZero(s[1..]);
      if CountEscaped(s) == 0 {
        forall i | 0 <= i < |s| ensures !NeedsEscape(s[i]) {
          if i > 0 {
            assert s[i] == s[1..][i - 1];
          }
        }
      } else if !NeedsEscape(s[0]) {
        var i :| 0 <= i < |s[1..]| && NeedsEscape(s[1..][i]);
        assert s[i + 1] == s[1..][i];
      }
    }
  }

  /**
   * Escaping leaves a string unchanged exactly when it holds none of the
   * seven bytes that need an escape; the other control characters are
   * among the bytes it leaves alone.
   */
  lemma {:induction false} EscapeIdentity(s: ByteString)
    ensures Escape(s) == s <==> forall i :: 0 <= i < |s| ==> !NeedsEscape(s[i])
  {
    EscapeLength(s);
    CountEscapedZero(s);
    if forall i :: 0 <= i < |s| ==> !NeedsEscape(s[i]) {
      PlainPassesThrough(s);
    }
  }

  lemma {:induction false} PlainPassesThrough(s: ByteString)
    requires forall i :: 0 <= i < |s| ==> !NeedsEscape(s[i])
    ensures Escape(s) == s
  {
    if s != [] {
      assert !NeedsEscape(s[0]);
      forall i | 0 <= i < |s[1..]| ensures !NeedsEscape(s[1..][i]) {
        assert s[1..][i] == s[i + 1];
      }
      PlainPassesThrough(s[1..]);
    }
  }

  /** A control character other than the five, such as 0x01, is emitted raw. */
  lemma UnlistedControlStaysRaw(c: Byte)
    requires IsControl(c) && !IsShortControl(c)
    ensures Escape([c]) == [c]
  {
  }

  /**
   * Reads the contents of a JSON string up to its closing quote, decoding
   * the seven escapes `escapeJson` produces. Returns the decoded bytes and
   * what follows the closing quote, or None when there is no closing quote
   * or an escape is not one of the seven.
   */
  function ReadString(s: ByteString): Option<(ByteString, ByteString)>
    decreases |s|
  {
    if s == [] then None
    else if s[0] == '"' then Some(([], s[1..]))
    else if s[0] == '\\' then
      if |s| < 2 then None
      else match UnescapeLetter(s[1])
        case None => None
        case Some(c) =>
          match ReadString(s[2..])
          case None => None
          case Some((d, rest)) => Some(([c] + d, rest))
    else
      match ReadString(s[1..])
      case None => None
      case Some((d, rest)) => Some(([s[0]] + d, rest))
  }

  /**
   * The escaped string, closed by a quote, reads back as the original:
   * the quote that ends it is the first unescaped quote.
   */
  lemma {:induction false} ReadEscaped(s: ByteString, rest: ByteString)
    ensures ReadString(Escape(s) + ['"'] + rest) == Some((s, rest))
  {
    var t := Escape(s) + ['"'] + rest;
    if s == [] {
      assert t == ['"'] + rest;
      assert t[1..] == rest;
    } else {
      var u := Escape(s[1..]) + ['"'] + rest;
      ReadEscaped(s[1..], rest);
      var e := EscapeChar(s[0]);
      assert t == e + u;
      assert s == [s[0]] + s[1..];
      if NeedsEscape(s[0]) {
        assert t[0] == '\\' && t[1] == e[1];
        assert t[2..] == u;
      } else {
        assert t[0] == s[0];
        assert t[1..] == u;
      }
    }
  }

  /** An escaped string with no closing quote does not read as a string. */
  lemma {:induction false} ReadEscapedUnclosed(s: ByteString)
    ensures ReadString(Escape(s)) == None
  {
    if s != [] {
      var t, u, e := Escape(s), Escape(s[1..]), EscapeChar(s[0]);
      ReadEscapedUnclosed(s[1..]);
      assert t == e + u;
      if NeedsEscape(s[0]) {
        assert t[0] == '\\' && t[1] == e[1];
        assert t[2..] == u;
      } else {
        assert t[0] == s[0];
        assert t[1..] == u;
      }
    }
  }

  /** The escaped string holds a NUL exactly when the input does. */
  lemma {:induction false} EscapeNul(s: ByteString)
    ensures Nul in Escape(s) <==> Nul in s
  {
    if s != [] {
      var e := EscapeChar(s[0]);
      EscapeNul(s[1..]);
      assert Escape(s) == e + Escape(s[1..]);
      assert Nul in e <==> s[0] == Nul by {
        if NeedsEscape(s[0]) {
          assert e == [e[0], e[1]];
        }
      }
      assert s == [s[0]] + s[1..];
    }
  }

  /**
   * A NUL byte is copied unchanged, so reading the escaped string as a C
   * string is the same as escaping the part before the first NUL.
   */
  lemma {:induction false} EscapeCString(s: ByteString)
    ensures CString(Escape(s)) == Escape(CString(s))
  {
    if s != [] {
      var e := EscapeChar(s[0]);
      if s[0] == Nul {
        assert CString(Escape(s)) == CString(e + Escape(s[1..]));
        assert (e + Escape(s[1..]))[0] == Nul;
      } else {
        assert Nul !in e by {
          if NeedsEscape(s[0]) {
            assert e == [e[0], e[1]];
          }
        }
        CStringAppend(e, Escape(s[1..]));
        EscapeCString(s[1..]);
        EscapeAppend([s[0]], CString(s[1..]));
        assert CString(s) == [s[0]] + CString(s[1..]);
        assert Escape([s[0]]) == e;
      }
    }
  }

  /** Different inputs give different escaped strings. */
  lemma EscapeInjective(a: ByteString, b: ByteString)
    requires Escape(a) == Escape(b)
    ensures a == b
  {
    ReadEscaped(a, []);
    ReadEscaped(b, []);
  }
}
