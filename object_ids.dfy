/**
 * Store identifiers. `ObjectId(s)` accepts a string of 24 hexadecimal digits
 * in either case, and raises for any other length and for non-hexadecimal
 * text; the identifier it denotes is written back by `str()` as 24 lower-case
 * hexadecimal digits. Hexadecimal text with embedded whitespace is not
 * modelled (see "Left out" in the README).
 */
module ObjectIds {
  import opened Options

  /** An identifier in its canonical (`str(ObjectId(...))`) spelling. */
  type ObjectId = string

  predicate IsHexDigit(c: char)
  {
    '0' <= c <= '9' || 'a' <= c <= 'f' || 'A' <= c <= 'F'
  }

  predicate IsLowerHexDigit(c: char)
  {
    '0' <= c <= '9' || 'a' <= c <= 'f'
  }

  /** True of the canonical spelling of an identifier. */
  predicate IsObjectId(s: string)
  {
    |s| == 24 && forall i | 0 <= i < |s| :: IsLowerHexDigit(s[i])
  }

  function LowerHex(c: char): char
    requires IsHexDigit(c)
  {
    if 'A' <= c <= 'F' then (c as int - 'A' as int + 'a' as int) as char else c
  }

  /**
   * `ObjectId(s)`: the identifier a request's path segment names, or `None`
   * where the constructor raises. Upper and lower case name the same identifier.
   */
  function ParseId(s: string): (r: Option<ObjectId>)
    ensures r.Some? <==> |s| == 24 && forall i | 0 <= i < |s| :: IsHexDigit(s[i])
    ensures r.Some? ==> IsObjectId(r.value)
    ensures IsObjectId(s) ==> r == Some(s)
  {
    if |s| == 24 && forall i | 0 <= i < |s| :: IsHexDigit(s[i]) then
      var id := seq(24, i requires 0 <= i < 24 => LowerHex(s[i]));
      assert IsObjectId(s) ==> id == s by {
        if IsObjectId(s) {
          assert forall i | 0 <= i < 24 :: id[i] == s[i];
        }
      }
      Some(id)
    else
      None
  }
}
