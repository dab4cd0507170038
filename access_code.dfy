/** The access code issued on approval: `os.urandom(3).hex().upper()`.

    The random bytes are a parameter; `Make` is the pure part, bytes to
    upper-case hexadecimal text. `Parse` reads such text back and is the
    partner that shows no information is lost. */
module AccessCode {

  type Byte = b: int | 0 <= b < 256

  /** The number of random bytes the admin action draws. */
  const ENTROPY_BYTES := 3

  const LOWER_HEX := "0123456789abcdef"

  function HexDigit(n: nat): char
    requires n < 16
  {
    LOWER_HEX[n]
  }

  /** `bytes.hex()`: two lower-case hexadecimal digits per byte, high nibble first. */
  function Hex(bytes: seq<Byte>): (s: string)
    ensures |s| == 2 * |bytes|
  {
    if bytes == [] then []
    else [HexDigit(bytes[0] / 16), HexDigit(bytes[0] % 16)] + Hex(bytes[1..])
  }

  /** `str.upper()` on one character; hexadecimal text only ever holds ASCII. */
  function UpperChar(c: char): char
  {
    if 'a' <= c <= 'z' then (c as int - 32) as char else c
  }

  function Upper(s: string): (u: string)
    ensures |u| == |s|
  {
    if s == [] then [] else [UpperChar(s[0])] + Upper(s[1..])
  }

  /** The code handed to the user: `entropy.hex().upper()`. */
  function Make(entropy: seq<Byte>): (code: string)
    ensures |code| == 2 * |entropy|
  {
    Upper(Hex(entropy))
  }

  predicate IsUpperHexDigit(c: char)
  {
    '0' <= c <= '9' || 'A' <= c <= 'F'
  }

  /** A well-formed access code: six upper-case hexadecimal digits. */
  predicate IsAccessCode(s: string)
  {
    |s| == 2 * ENTROPY_BYTES && forall i :: 0 <= i < |s| ==> IsUpperHexDigit(s[i])
  }

  predicate IsUpperHex(s: string)
  {
    |s| % 2 == 0 && forall i :: 0 <= i < |s| ==> IsUpperHexDigit(s[i])
  }

  function NibbleValue(c: char): (n: nat)
    requires IsUpperHexDigit(c)
    ensures n < 16
  {
    if c <= '9' then c as int - '0' as int else c as int - 'A' as int + 10
  }

  /** Reads upper-case hexadecimal text back into bytes. */
  function Parse(s: string): (bytes: seq<Byte>)
    requires IsUpperHex(s)
    ensures |bytes| == |s| / 2
  {
    if s == [] then []
    else [NibbleValue(s[0]) * 16 + NibbleValue(s[1])] + Parse(s[2..])
  }

  lemma NibbleRoundTrip(n: nat)
    requires n < 16
    ensures IsUpperHexDigit(UpperChar(HexDigit(n)))
    ensures NibbleValue(UpperChar(HexDigit(n))) == n
  {
    assert LOWER_HEX == ['0', '1', '2', '3', '4', '5', '6', '7', '8', '9', 'a', 'b', 'c', 'd', 'e', 'f'];
  }

  /** The first byte of the input is written by the first two characters of
      the code, and the rest of the code is the code of the rest. */
  lemma {:induction false} MakeCons(entropy: seq<Byte>)
    requires entropy != []
    ensures Make(entropy) == [UpperChar(HexDigit(entropy[0] / 16)), UpperChar(HexDigit(entropy[0] % 16))] + Make(entropy[1..])
  {
    var h := Hex(entropy);
    var rest := Hex(entropy[1..]);
    assert h == [HexDigit(entropy[0] / 16), HexDigit(entropy[0] % 16)] + rest;
    assert h[1..] == [HexDigit(entropy[0] % 16)] + rest;
    assert h[1..][1..] == rest;
    assert Upper(h) == [UpperChar(h[0])] + Upper(h[1..]);
    assert Upper(h[1..]) == [UpperChar(h[1..][0])] + Upper(rest);
  }

  /** Every character of a made code is an upper-case hexadecimal digit. */
  lemma {:induction false} MakeIsUpperHex(entropy: seq<Byte>)
    ensures IsUpperHex(Make(entropy)) && |Make(entropy)| == 2 * |entropy|
  {
    if entropy != [] {
      MakeCons(entropy);
      MakeIsUpperHex(entropy[1..]);
      NibbleRoundTrip(entropy[0] / 16);
      NibbleRoundTrip(entropy[0] % 16);
      var code := Make(entropy);
      var tail := Make(entropy[1..]);
      forall i | 0 <= i < |code|
        ensures IsUpperHexDigit(code[i])
      {
        if i >= 2 {
          assert code[i] == tail[i - 2];
        }
      }
    }
  }

  /** Three random bytes always give a well-formed six-digit code. */
  lemma MakeIsAccessCode(entropy: seq<Byte>)
    requires |entropy| == ENTROPY_BYTES
    ensures IsAccessCode(Make(entropy))
  {
    MakeIsUpperHex(entropy);
  }

  /** Reading a code back yields the bytes it was made from, so distinct
      draws give distinct codes. */
  lemma {:induction false} ParseMake(entropy: seq<Byte>)
    ensures IsUpperHex(Make(entropy)) && Parse(Make(entropy)) == entropy
  {
    MakeIsUpperHex(entropy);
    if entropy != [] {
      MakeCons(entropy);
      ParseMake(entropy[1..]);
      NibbleRoundTrip(entropy[0] / 16);
      NibbleRoundTrip(entropy[0] % 16);
      var code := Make(entropy);
      assert code[2..] == Make(entropy[1..]);
    }
  }

  lemma MakeInjective(x: seq<Byte>, y: seq<Byte>)
    requires Make(x) == Make(y)
    ensures x == y
  {
    ParseMake(x);
    ParseMake(y);
  }
}
