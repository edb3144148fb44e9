/** Byte strings, as the C++ `std::string` holds them, and an optional value. */
module Text {

  /** One byte of a `std::string`: a character whose code is below 256. */
  type Byte = c: char | c < '\U{100}' witness 'a'

  /** The contents of a `std::string`. */
  type ByteString = seq<Byte>

  datatype Option<T> = None | Some(value: T)

  // The five control characters that have a one-letter JSON escape.
  const Backspace: Byte := '\U{8}'
  const FormFeed: Byte := '\U{C}'
  const LineFeed: Byte := '\n'
  const CarriageReturn: Byte := '\r'
  const Tab: Byte := '\t'

  /** True for a control character (code below 0x20). */
  predicate IsControl(c: Byte) {
    c < '\U{20}'
  }

  /** The byte that ends a C string. */
  const Nul: Byte := '\0'

  /**
   * What a C API reads from `s.c_str()`: the bytes before the first NUL,
   * or all of `s` when it holds none.
   */
  function CString(s: ByteString): (r: ByteString)
    ensures |r| <= |s| && r == s[..|r|]
    ensures Nul !in r
    ensures |r| < |s| ==> s[|r|] == Nul
  {
    if s == [] || s[0] == Nul then [] else [s[0]] + CString(s[1..])
  }

  /** Reading a concatenation as a C string stops inside `a` when `a` holds a NUL. */
  lemma {:induction false} CStringAppend(a: ByteString, b: ByteString)
    ensures CString(a + b) == if Nul in a then CString(a) else a + CString(b)
  {
    if a == [] {
      assert a + b == b;
    } else {
      assert (a + b)[0] == a[0];
      assert (a + b)[1..] == a[1..] + b;
      if a[0] != Nul {
        CStringAppend(a[1..], b);
        assert Nul in a <==> Nul in a[1..];
      }
    }
  }
}
