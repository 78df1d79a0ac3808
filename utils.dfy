/**
 * Lowercase hex rendering (main/utils.c): `hex2char` turns one nibble into a
 * digit, `bin2hex` renders a byte buffer into a bounded, NUL-terminated
 * character buffer.
 */
module Utils {
  import opened Params

  /** The digit table the renderer follows: index n holds the digit of n. */
  const HEX_DIGITS: string := "0123456789abcdef"

  /** The errno value `hex2char` negates when the nibble is out of range. */
  const EINVAL: int := 22

  /** What `hex2char` produces: the digit it stores through `c`, or nothing. */
  datatype HexChar = Digit(c: char) | Invalid {
    /** The C return value: 0 on success, -EINVAL otherwise. */
    function Status(): int {
      if Digit? then 0 else -EINVAL
    }
  }

  function HexDigit(n: nat): (c: char)
    requires n < 16
  {
    HEX_DIGITS[n]
  }

  predicate IsHexDigit(c: char) {
    '0' <= c <= '9' || 'a' <= c <= 'f'
  }

  /** The value of a lowercase hex digit, the inverse of HexDigit; 0 for any other character. */
  function HexValue(c: char): (n: nat)
    ensures n < 16
    ensures IsHexDigit(c) ==> HexDigit(n) == c
  {
    if '0' <= c <= '9' then c as nat - '0' as nat
    else if 'a' <= c <= 'f' then c as nat - 'a' as nat + 10
    else 0
  }

  lemma HexValueOfDigit(n: nat)
    requires n < 16
    ensures IsHexDigit(HexDigit(n)) && HexValue(HexDigit(n)) == n
  {
  }

  /** `hex2char`: digits 0..9 and a..f for 0..15; anything larger is refused. */
  function Hex2Char(x: byte): (r: HexChar)
    ensures x <= 15 ==> r == Digit(HexDigit(x as nat)) && r.Status() == 0
    ensures x > 15 ==> r == Invalid && r.Status() == -EINVAL
  {
    if x <= 9 then Digit((x as int + '0' as int) as char)
    else if x <= 15 then Digit((x as int - 10 + 'a' as int) as char)
    else Invalid
  }

  /** The high and low nibble of a byte, as `b >> 4` and `b & 0xf` give them. */
  function High(b: byte): (n: nat)
    ensures n < 16
  {
    b as nat / 16
  }

  function Low(b: byte): (n: nat)
    ensures n < 16
  {
    b as nat % 16
  }

  /** The hex text of a buffer: two digits per byte, high nibble first. */
  function HexOf(buf: seq<byte>): (h: seq<char>)
    ensures |h| == 2 * |buf|
  {
    if buf == [] then []
    else [HexDigit(High(buf[0])), HexDigit(Low(buf[0]))] + HexOf(buf[1..])
  }

  /** Reads hex text back into bytes, one digit pair per byte. */
  function FromHex(h: seq<char>): (buf: seq<byte>)
    requires |h| % 2 == 0
    ensures |buf| == |h| / 2
  {
    if h == [] then []
    else [(16 * HexValue(h[0]) + HexValue(h[1])) as byte] + FromHex(h[2..])
  }

  /** Position 2i holds the high-nibble digit of byte i, position 2i+1 the low one. */
  lemma {:induction false} HexOfAt(buf: seq<byte>, i: nat)
    requires i < |buf|
    ensures HexOf(buf)[2 * i] == HexDigit(High(buf[i]))
    ensures HexOf(buf)[2 * i + 1] == HexDigit(Low(buf[i]))
  {
    if i > 0 {
      HexOfAt(buf[1..], i - 1);
    }
  }

  /** Every character of the rendering is one of 0-9a-f. */
  lemma {:induction false} HexOfDigits(buf: seq<byte>)
    ensures forall i :: 0 <= i < |HexOf(buf)| ==> IsHexDigit(HexOf(buf)[i])
  {
    if buf != [] {
      HexOfDigits(buf[1..]);
      var h := HexOf(buf);
      assert h == [HexDigit(High(buf[0])), HexDigit(Low(buf[0]))] + HexOf(buf[1..]);
      forall i | 0 <= i < |h| ensures IsHexDigit(h[i]) {
        if i >= 2 {
          assert h[i] == HexOf(buf[1..])[i - 2];
        }
      }
    }
  }

  /** Decoding the digit pairs gives the buffer back. */
  lemma {:induction false} HexRoundTrip(buf: seq<byte>)
    ensures FromHex(HexOf(buf)) == buf
  {
    if buf != [] {
      var h := HexOf(buf);
      var b := buf[0];
      HexOfAt(buf, 0);
      assert h[2..] == HexOf(buf[1..]);
      HexValueOfDigit(High(b));
      HexValueOfDigit(Low(b));
      HexRoundTrip(buf[1..]);
      var v := 16 * HexValue(h[0]) + HexValue(h[1]);
      assert v == 16 * High(b) + Low(b) == b as nat;
      assert FromHex(h) == [v as byte] + FromHex(h[2..]);
      assert buf == [b] + buf[1..];
    }
  }

  /** Equal renderings come from equal buffers. */
  lemma HexOfInjective(a: seq<byte>, b: seq<byte>)
    requires HexOf(a) == HexOf(b)
    ensures a == b
  {
    HexRoundTrip(a);
    HexRoundTrip(b);
  }

  /**
   * `bin2hex`: when `hexlen` leaves room for 2*|buf| digits and the NUL it
   * writes `HexOf(buf)` and the terminator and returns the digit count;
   * otherwise it returns 0 and writes nothing. `hexlen` is the capacity the
   * caller declares for `hex`.
   */
  method Bin2Hex(buf: seq<byte>, hex: array<char>, hexlen: nat) returns (n: nat)
    requires hexlen <= hex.Length
    modifies hex
    ensures hexlen < 2 * |buf| + 1 ==> n == 0 && hex[..] == old(hex[..])
    ensures hexlen >= 2 * |buf| + 1 ==>
      && n == 2 * |buf|
      && hex[..n] == HexOf(buf)
      && hex[n] == '\0'
      && hex[n + 1..] == old(hex[n + 1..])
  {
    if hexlen < 2 * |buf| + 1 {
      return 0;
    }
    for i := 0 to |buf|
      invariant forall j :: 0 <= j < i ==> hex[2 * j] == HexDigit(High(buf[j]))
      invariant forall j :: 0 <= j < i ==> hex[2 * j + 1] == HexDigit(Low(buf[j]))
      invariant forall k :: 2 * i <= k < hex.Length ==> hex[k] == old(hex[k])
    {
      // Both nibbles are at most 15, so neither call can report -EINVAL.
      var hi := Hex2Char(buf[i] / 16);
      if hi.Status() < 0 {
        assert false;
      }
      hex[2 * i] := hi.c;
      var lo := Hex2Char(buf[i] % 16);
      if lo.Status() < 0 {
        assert false;
      }
      hex[2 * i + 1] := lo.c;
    }
    hex[2 * |buf|] := '\0';
    n := 2 * |buf|;
    forall k | 0 <= k < n ensures hex[k] == HexOf(buf)[k] {
      HexOfAt(buf, k / 2);
    }
  }
}
