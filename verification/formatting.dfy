/**
  Shaping of the aggregate result before it is returned
  (apis/src/index.ts lines 56-61): a swapper that is a byte buffer is
  replaced by `0x` and its lower-case hex digits; every other swapper
  value, and every other column of the row, is passed through.
*/
module Formatting {
  import opened Wrappers
  import opened Swaps
  import Hex

  const Prefix: string := "0x"

  /** The rendered form of a buffer address. */
  function RenderAddress(bytes: seq<Hex.Byte>): (r: string)
    ensures |r| == 2 + 2 * |bytes|
    ensures r[..2] == Prefix
    ensures forall j :: 2 <= j < |r| ==> r[j] in Hex.Digits
  {
    var hex := Hex.ToHex(bytes);
    Hex.ToHexLowerCase(bytes);
    var r := Prefix + hex;
    assert forall j :: 2 <= j < |r| ==> r[j] == hex[j - 2];
    r
  }

  /** Reads a rendered address back to its bytes; None for text not of that form. */
  function ParseAddress(s: string): Option<seq<Hex.Byte>>
  {
    if |s| < 2 || s[..2] != Prefix then None else Hex.FromHex(s[2..])
  }

  /** The swapper column after formatting. */
  function FormatSwapper(v: SwapperValue): (r: SwapperValue)
    ensures !v.Buffer? ==> r == v
    ensures v.Buffer? ==> r.Text? && ParseAddress(r.text) == Some(v.bytes)
    ensures v.Buffer? ==> |r.text| == 2 + 2 * |v.bytes|
  {
    if Truthy(v) && v.Buffer? then
      var r := Text(RenderAddress(v.bytes));
      AddressRoundTrip(v.bytes);
      r
    else v
  }

  /** One result row after formatting: only the swapper column may change. */
  function FormatRow(row: VolumeRow): (r: VolumeRow)
    ensures r.swapper == FormatSwapper(row.swapper)
    ensures r.buyUsd == row.buyUsd && r.sellUsd == row.sellUsd && r.totalUsd == row.totalUsd
  {
    row.(swapper := FormatSwapper(row.swapper))
  }

  /** All result rows after formatting: same rows, same order, each formatted. */
  function FormatRows(rows: seq<VolumeRow>): (r: seq<VolumeRow>)
    ensures |r| == |rows|
    ensures forall i :: 0 <= i < |rows| ==> r[i] == FormatRow(rows[i])
  {
    if |rows| == 0 then []
    else [FormatRow(rows[0])] + FormatRows(rows[1..])
  }

  /** A rendered address reads back as the bytes it was rendered from. */
  lemma AddressRoundTrip(bytes: seq<Hex.Byte>)
    ensures ParseAddress(RenderAddress(bytes)) == Some(bytes)
  {
    var r := RenderAddress(bytes);
    assert r[2..] == Hex.ToHex(bytes);
    Hex.FromHexToHex(bytes);
  }

  /** Every text the address reader accepts is the rendering of what it reads. */
  lemma ParseAddressExact(s: string)
    requires ParseAddress(s).Some?
    ensures RenderAddress(ParseAddress(s).value) == s
  {
    Hex.ToHexFromHex(s[2..]);
    assert s == s[..2] + s[2..];
  }

  /** The rendering of byte `i` sits at offsets `2 + 2i` and `3 + 2i`, high nibble first. */
  lemma RenderAddressDigits(bytes: seq<Hex.Byte>, i: nat)
    requires i < |bytes|
    ensures RenderAddress(bytes)[2 + 2 * i] == Hex.Digit(bytes[i] as nat / 16)
    ensures RenderAddress(bytes)[3 + 2 * i] == Hex.Digit(bytes[i] as nat % 16)
  {
    Hex.ToHexAt(bytes, i);
    var hex := Hex.ToHex(bytes);
    assert RenderAddress(bytes) == Prefix + hex;
    assert RenderAddress(bytes)[2 + 2 * i] == hex[2 * i];
    assert RenderAddress(bytes)[3 + 2 * i] == hex[2 * i + 1];
  }

  /** Formatting tells apart every two swappers that are not strings. */
  lemma FormatSwapperInjective(a: SwapperValue, b: SwapperValue)
    requires !a.Text? && !b.Text?
    requires FormatSwapper(a) == FormatSwapper(b)
    ensures a == b
  {
    if a.Buffer? && b.Buffer? {
      assert Some(a.bytes) == ParseAddress(FormatSwapper(a).text) == Some(b.bytes);
    }
  }

  /** Formatting twice is formatting once: rendered text is left alone. */
  lemma FormatSwapperIdempotent(v: SwapperValue)
    ensures FormatSwapper(FormatSwapper(v)) == FormatSwapper(v)
  {
  }

  /** The example of bytes `0xAB 0xCD`, which render as `0xabcd`. */
  lemma RenderExample()
    ensures FormatSwapper(Buffer([0xAB, 0xCD])) == Text("0xabcd")
  {
    var bytes: seq<Hex.Byte> := [0xAB, 0xCD];
    assert bytes[1..] == [0xCD] && bytes[1..][1..] == [];
    assert Hex.ByteHex(0xCD) == "cd";
    assert Hex.ByteHex(0xAB) == "ab";
    assert Hex.ToHex([0xCD]) == "cd";
    assert Hex.ToHex(bytes) == "abcd";
  }

  /** An empty buffer is still an object, hence truthy, and renders as the bare prefix. */
  lemma EmptyBufferRenders()
    ensures FormatSwapper(Buffer([])) == Text("0x")
  {
  }
}
