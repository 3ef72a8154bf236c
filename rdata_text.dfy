/** The TXT record payload `DNSRdataText`: one character string. */
module RdataText {

  /** Java's `String.length()`: the number of UTF-16 code units, so a
      character outside the Basic Multilingual Plane counts twice. */
  function Utf16Length(s: string): (n: nat)
    ensures |s| <= n <= 2 * |s|
  {
    if s == [] then 0 else (if s[0] as int >= 0x10000 then 2 else 1) + Utf16Length(s[1..])
  }

  /** Every character of `s` is in the Basic Multilingual Plane. */
  predicate AllBmp(s: string)
  {
    forall i :: 0 <= i < |s| ==> s[i] as int < 0x10000
  }

  /** For text made of Basic Multilingual Plane characters, the Java length
      is the number of characters. */
  lemma {:induction false} Utf16LengthOfBmp(s: string)
    ensures AllBmp(s) ==> Utf16Length(s) == |s|
  {
    if s != [] && AllBmp(s) {
      assert AllBmp(s[1..]) by {
        forall i | 0 <= i < |s[1..]| ensures s[1..][i] as int < 0x10000 {
          assert s[1..][i] == s[i + 1];
        }
      }
      Utf16LengthOfBmp(s[1..]);
    }
  }

  class DnsRdataText {
    var text: string

    /** `new DNSRdataText()`: the empty string. */
    constructor Empty()
      ensures text == "" && GetLength() == 1
    {
      text := "";
    }

    /** `new DNSRdataText(text)`. */
    constructor (t: string)
      ensures text == t && GetText() == t && ToString() == t
    {
      text := t;
    }

    function GetText(): (r: string)
      reads this
      ensures r == text
    {
      text
    }

    method SetText(t: string)
      modifies this
      ensures text == t && GetText() == t && GetLength() == Utf16Length(t) + 1
    {
      text := t;
    }

    /** The declared payload length: the text preceded by its one-byte
        length count, a character-string in the sense of section 3.3 of
        RFC 1035, counted in Java string units. */
    function GetLength(): (n: int)
      reads this
      ensures n >= |text| + 1
      ensures AllBmp(text) ==> n == |text| + 1
    {
      Utf16LengthOfBmp(text);
      Utf16Length(text) + 1
    }

    function ToString(): (r: string)
      reads this
      ensures r == GetText()
    {
      text
    }
  }
}
