/**
 * Block numbers from block ids (steem/utils.py, `block_num_from_hash` and
 * `block_num_from_previous`). A block id is a hex string whose first four
 * bytes, i.e. its first eight hex digits, are the block number in
 * big-endian order.
 */
module BlockNumbers {

  /** The ASCII hex digits, upper or lower case. */
  predicate IsHexDigit(c: char) {
    '0' <= c <= '9' || 'a' <= c <= 'f' || 'A' <= c <= 'F'
  }

  predicate AllHexDigits(s: string) {
    forall i :: 0 <= i < |s| ==> IsHexDigit(s[i])
  }

  function DigitValue(c: char): (d: nat)
    requires IsHexDigit(c)
    ensures d < 16
  {
    if '0' <= c <= '9' then c as int - '0' as int
    else if 'a' <= c <= 'f' then c as int - 'a' as int + 10
    else c as int - 'A' as int + 10
  }

  /** The lower-case digit for `d < 16` (the inverse of DigitValue). */
  function HexChar(d: nat): (c: char)
    requires d < 16
    ensures IsHexDigit(c) && DigitValue(c) == d
  {
    if d < 10 then ('0' as int + d) as char else ('a' as int + d - 10) as char
  }

  function Pow16(k: nat): (p: nat)
    ensures p >= 1
  {
    if k == 0 then 1 else 16 * Pow16(k - 1)
  }

  lemma Pow16Of8()
    ensures Pow16(8) == 0x1_0000_0000
  {
  }

  /** The base-16 value of a digit string, most significant digit first. */
  function HexValue(s: string): (n: nat)
    requires AllHexDigits(s)
    ensures n < Pow16(|s|)
  {
    if s == [] then 0
    else HexValue(s[..|s| - 1]) * 16 + DigitValue(s[|s| - 1])
  }

  /** The first eight characters of the id, or the whole id when it is shorter. */
  function IdPrefix(blockHash: string): (p: string)
    ensures |p| == if |blockHash| < 8 then |blockHash| else 8
    ensures p <= blockHash
  {
    if |blockHash| < 8 then blockHash else blockHash[..8]
  }

  /** The id's prefix is non-empty and consists of ASCII hex digits only. */
  predicate ReadableId(blockHash: string) {
    IdPrefix(blockHash) != [] && AllHexDigits(IdPrefix(blockHash))
  }

  /** `block_num_from_hash` (steem/utils.py:25-34). */
  function BlockNumFromHash(blockHash: string): (n: nat)
    requires ReadableId(blockHash)
    ensures n < 0x1_0000_0000
    ensures |blockHash| >= 8 ==> n == HexValue(blockHash[..8])
    ensures |blockHash| < 8 ==> n == HexValue(blockHash)
  {
    Pow16Monotone(|IdPrefix(blockHash)|, 8);
    Pow16Of8();
    HexValue(IdPrefix(blockHash))
  }

  /** `block_num_from_previous` (steem/utils.py:37-46): the block after the one the hash names. */
  function BlockNumFromPrevious(previousBlockHash: string): (n: nat)
    requires ReadableId(previousBlockHash)
    ensures n == BlockNumFromHash(previousBlockHash) + 1
    ensures 1 <= n <= 0x1_0000_0000
  {
    BlockNumFromHash(previousBlockHash) + 1
  }

  lemma {:induction false} Pow16Monotone(j: nat, k: nat)
    requires j <= k
    ensures Pow16(j) <= Pow16(k)
  {
    if j < k {
      Pow16Monotone(j, k - 1);
    }
  }

  /** The `width` lower-case hex digits of `n`, most significant first. */
  function ToHex(n: nat, width: nat): (s: string)
    ensures |s| == width && AllHexDigits(s)
  {
    if width == 0 then ""
    else ToHex(n / 16, width - 1) + [HexChar(n % 16)]
  }

  /** Reading back `width` digits written for `n` gives `n` when it fits. */
  lemma {:induction false} HexRoundTrip(n: nat, width: nat)
    requires n < Pow16(width)
    ensures HexValue(ToHex(n, width)) == n
  {
    if width > 0 {
      var s := ToHex(n, width);
      assert s[..|s| - 1] == ToHex(n / 16, width - 1);
      assert s[|s| - 1] == HexChar(n % 16);
      HexRoundTrip(n / 16, width - 1);
    }
  }

  /** Writing the value of a lower-case digit string back gives that string. */
  lemma {:induction false} HexValueDeterminesDigits(s: string)
    requires AllHexDigits(s)
    requires forall i :: 0 <= i < |s| ==> !('A' <= s[i] <= 'F')
    ensures ToHex(HexValue(s), |s|) == s
  {
    if s != [] {
      var init := s[..|s| - 1];
      var d := DigitValue(s[|s| - 1]);
      var n := HexValue(s);
      assert n / 16 == HexValue(init) && n % 16 == d;
      HexValueDeterminesDigits(init);
      assert HexChar(d) == s[|s| - 1];
      assert s == init + [s[|s| - 1]];
    }
  }

  /** A block id that starts with the eight digits of `num` names block `num`. */
  lemma BlockIdRoundTrip(num: nat, rest: string)
    requires num < 0x1_0000_0000
    ensures ReadableId(ToHex(num, 8) + rest)
    ensures BlockNumFromHash(ToHex(num, 8) + rest) == num
    ensures BlockNumFromPrevious(ToHex(num, 8) + rest) == num + 1
  {
    var id := ToHex(num, 8) + rest;
    assert IdPrefix(id) == ToHex(num, 8);
    Pow16Of8();
    HexRoundTrip(num, 8);
  }
}
