/**
 * The text form the codec uses to embed byte strings in the tree:
 * `bytes.hex()` (two lower-case digits per byte) and `bytes.fromhex(s)`
 * (two digits of either case per byte, ASCII whitespace allowed between
 * byte pairs, anything else is a ValueError).
 */
module Hex {
  import opened Values

  predicate IsHexDigit(c: char) {
    '0' <= c <= '9' || 'a' <= c <= 'f' || 'A' <= c <= 'F'
  }

  predicate IsAsciiSpace(c: char) {
    c == ' ' || c == '\t' || c == '\n' || c == '\r' || c == '\U{B}' || c == '\U{C}'
  }

  function DigitValue(c: char): (d: nat)
    requires IsHexDigit(c)
    ensures d < 16
  {
    if '0' <= c <= '9' then (c - '0') as nat
    else if 'a' <= c <= 'f' then (c - 'a') as nat + 10
    else (c - 'A') as nat + 10
  }

  function Digit(d: nat): (c: char)
    requires d < 16
    ensures IsHexDigit(c) && !IsAsciiSpace(c) && DigitValue(c) == d
  {
    if d < 10 then '0' + d as char else 'a' + (d - 10) as char
  }

  /** `bytes.hex()`. */
  function ToHex(bs: seq<Byte>): (s: string)
    ensures |s| == 2 * |bs|
    ensures forall j :: 0 <= j < |s| ==> IsHexDigit(s[j])
  {
    if bs == [] then []
    else [Digit(bs[0] as nat / 16), Digit(bs[0] as nat % 16)] + ToHex(bs[1..])
  }

  /** `bytes.fromhex(s)`; None where Python raises ValueError. */
  function FromHex(s: string): Option<seq<Byte>> {
    if s == [] then Some([])
    else if IsAsciiSpace(s[0]) then FromHex(s[1..])
    else if |s| >= 2 && IsHexDigit(s[0]) && IsHexDigit(s[1]) then
      match FromHex(s[2..])
      case Some(rest) => Some([(DigitValue(s[0]) * 16 + DigitValue(s[1])) as Byte] + rest)
      case None => None
    else None
  }

  /** Hex text produced by the encoder decodes back to the same bytes. */
  lemma {:induction false} FromHexToHex(bs: seq<Byte>)
    ensures FromHex(ToHex(bs)) == Some(bs)
  {
    if bs != [] {
      var s := ToHex(bs);
      assert s[2..] == ToHex(bs[1..]);
      FromHexToHex(bs[1..]);
      var b := bs[0] as nat;
      assert (b / 16 * 16 + b % 16) as Byte == bs[0];
      assert [bs[0]] + bs[1..] == bs;
    }
  }

  /** A string holding a character that is neither a hex digit nor whitespace is rejected. */
  lemma {:induction false} FromHexRejects(s: string, k: nat)
    requires k < |s| && !IsHexDigit(s[k]) && !IsAsciiSpace(s[k])
    ensures FromHex(s) == None
  {
    if k == 0 {
    } else if IsAsciiSpace(s[0]) {
      FromHexRejects(s[1..], k - 1);
    } else if |s| >= 2 && IsHexDigit(s[0]) && IsHexDigit(s[1]) {
      assert k >= 2;
      FromHexRejects(s[2..], k - 2);
    }
  }
}
