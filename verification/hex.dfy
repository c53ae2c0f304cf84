/**
  Lower-case hexadecimal encoding of byte sequences, as Node's
  `Buffer.prototype.toString('hex')` produces it: two digits per byte,
  high nibble first, digits `0-9a-f`. `FromHex` is the matching decoder;
  it accepts exactly the strings `ToHex` can produce.
*/
module Hex {
  import opened Wrappers

  /** An octet of a Node `Buffer`. */
  newtype Byte = x: int | 0 <= x < 256

  const Digits: string := "0123456789abcdef"

  /** The lower-case digit for a nibble. */
  function Digit(n: nat): (c: char)
    requires n < 16
    ensures c in Digits
  {
    Digits[n]
  }

  /** The value of a lower-case hex digit; None for every other character. */
  function DigitValue(c: char): (r: Option<nat>)
    ensures r.Some? <==> c in Digits
    ensures r.Some? ==> r.value < 16 && Digit(r.value) == c
  {
    if '0' <= c <= '9' then Some(c as nat - '0' as nat)
    else if 'a' <= c <= 'f' then Some(c as nat - 'a' as nat + 10)
    else None
  }

  /** A digit reads back as the nibble it was written for. */
  lemma DigitRoundTrip(n: nat)
    requires n < 16
    ensures DigitValue(Digit(n)) == Some(n)
  {
  }

  /** The two digits of one byte, high nibble first. */
  function ByteHex(b: Byte): string
  {
    [Digit(b as nat / 16), Digit(b as nat % 16)]
  }

  /** A byte is recovered from its two nibbles. */
  lemma NibbleSplit(hi: nat, lo: nat)
    requires hi < 16 && lo < 16
    ensures (hi * 16 + lo) / 16 == hi && (hi * 16 + lo) % 16 == lo
    ensures 0 <= hi * 16 + lo < 256
  {
  }

  /** The hex text of `bytes`: two digits per byte, in byte order. */
  function ToHex(bytes: seq<Byte>): (r: string)
    ensures |r| == 2 * |bytes|
  {
    if |bytes| == 0 then [] else ByteHex(bytes[0]) + ToHex(bytes[1..])
  }

  /** Byte `i` becomes digits `2i` (high nibble) and `2i + 1` (low nibble). */
  lemma {:induction false} ToHexAt(bytes: seq<Byte>, i: nat)
    requires i < |bytes|
    ensures ToHex(bytes)[2 * i] == Digit(bytes[i] as nat / 16)
    ensures ToHex(bytes)[2 * i + 1] == Digit(bytes[i] as nat % 16)
  {
    var tail := ToHex(bytes[1..]);
    assert ToHex(bytes) == ByteHex(bytes[0]) + tail;
    if i > 0 {
      ToHexAt(bytes[1..], i - 1);
      assert bytes[1..][i - 1] == bytes[i];
      assert ToHex(bytes)[2 * i] == tail[2 * (i - 1)];
      assert ToHex(bytes)[2 * i + 1] == tail[2 * (i - 1) + 1];
    }
  }

  /** Every character of hex text is a lower-case hex digit. */
  lemma {:induction false} ToHexLowerCase(bytes: seq<Byte>)
    ensures forall j :: 0 <= j < |ToHex(bytes)| ==> ToHex(bytes)[j] in Digits
  {
    if |bytes| > 0 {
      ToHexLowerCase(bytes[1..]);
      var tail := ToHex(bytes[1..]);
      var r := ToHex(bytes);
      assert r == ByteHex(bytes[0]) + tail;
      forall j | 0 <= j < |r| ensures r[j] in Digits {
        if j >= 2 {
          assert r[j] == tail[j - 2];
        }
      }
    }
  }

  /** The byte spelled by two lower-case hex digits, high nibble first. */
  function ByteOf(hi: char, lo: char): Option<Byte>
  {
    match (DigitValue(hi), DigitValue(lo))
    case (Some(h), Some(l)) => Some((h * 16 + l) as Byte)
    case _ => None
  }

  /** A byte's two digits spell that byte. */
  lemma ByteOfDigits(b: Byte)
    ensures ByteOf(Digit(b as nat / 16), Digit(b as nat % 16)) == Some(b)
  {
    DigitRoundTrip(b as nat / 16);
    DigitRoundTrip(b as nat % 16);
    NibbleSplit(b as nat / 16, b as nat % 16);
  }

  /** Two digits that spell a byte are that byte's digits. */
  lemma DigitsOfByte(hi: char, lo: char)
    requires ByteOf(hi, lo).Some?
    ensures ByteHex(ByteOf(hi, lo).value) == [hi, lo]
  {
    var h := DigitValue(hi).value;
    var l := DigitValue(lo).value;
    var v := ByteOf(hi, lo).value;
    assert v as nat == h * 16 + l;
    NibbleSplit(h, l);
    assert v as nat / 16 == h && v as nat % 16 == l;
  }

  /** Decodes lower-case hex text of even length; None for anything else. */
  function FromHex(s: string): Option<seq<Byte>>
  {
    if |s| == 0 then Some([])
    else if |s| == 1 then None
    else
      match ByteOf(s[0], s[1])
      case None => None
      case Some(b) =>
        match FromHex(s[2..])
        case None => None
        case Some(tail) => Some([b] + tail)
  }

  /** Decoding the hex text of any byte sequence gives back those bytes. */
  lemma {:induction false} FromHexToHex(bytes: seq<Byte>)
    ensures FromHex(ToHex(bytes)) == Some(bytes)
  {
    if |bytes| > 0 {
      var s := ToHex(bytes);
      var b := bytes[0];
      ByteOfDigits(b);
      assert s == ByteHex(b) + ToHex(bytes[1..]);
      assert s[2..] == ToHex(bytes[1..]);
      FromHexToHex(bytes[1..]);
      assert bytes == [b] + bytes[1..];
    }
  }

  /** Every string the decoder accepts is the hex text of what it decodes to. */
  lemma {:induction false} ToHexFromHex(s: string)
    requires FromHex(s).Some?
    ensures ToHex(FromHex(s).value) == s
    ensures |s| == 2 * |FromHex(s).value|
  {
    if |s| >= 2 {
      var b := ByteOf(s[0], s[1]).value;
      assert FromHex(s[2..]).Some?;
      ToHexFromHex(s[2..]);
      var tail := FromHex(s[2..]).value;
      assert FromHex(s).value == [b] + tail;
      DigitsOfByte(s[0], s[1]);
      assert ByteHex(b) == [s[0], s[1]];
      assert ToHex([b] + tail) == ByteHex(b) + ToHex(tail) by {
        assert ([b] + tail)[1..] == tail;
      }
      assert s == [s[0], s[1]] + s[2..];
    }
  }

  /** Hex text is decodable exactly when it is the text of some bytes. */
  lemma HexTextCharacterisation(s: string)
    ensures FromHex(s).Some? <==> exists bytes: seq<Byte> :: ToHex(bytes) == s
  {
    if FromHex(s).Some? {
      ToHexFromHex(s);
    }
    if bytes: seq<Byte> :| ToHex(bytes) == s {
      FromHexToHex(bytes);
    }
  }
}
