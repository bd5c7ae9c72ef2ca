/**
 * The PHP string built-ins that Merkle.php relies on, over PHP's byte strings:
 * trim() with its default character list, hex2bin(), bin2hex(), strtoupper()
 * and (for stating round trips) strtolower().
 */
module PhpStrings {
  import opened Wrappers

  /** One byte of a PHP binary string. */
  type Byte = b: int | 0 <= b < 256

  /** The code points trim() strips by default: NUL, tab, newline, vertical tab, carriage return, space. */
  predicate IsTrimCode(code: int)
  {
    code == 0 || code == 9 || code == 10 || code == 11 || code == 13 || code == 32
  }

  predicate IsTrimChar(c: char)
  {
    IsTrimCode(c as int)
  }

  predicate IsTrimByte(b: Byte)
  {
    IsTrimCode(b)
  }

  /** True when trim() leaves `s` as it is: it neither starts nor ends with a stripped element. */
  predicate Untrimmable<T>(s: seq<T>, stripped: T -> bool)
  {
    s == [] || (!stripped(s[0]) && !stripped(s[|s| - 1]))
  }

  /** ltrim(): drops the stripped elements at the front, and only those. */
  function TrimLeft<T>(s: seq<T>, stripped: T -> bool): (r: seq<T>)
    ensures |r| <= |s|
    ensures forall k :: 0 <= k < |s| - |r| ==> stripped(s[k])
    ensures r != [] ==> !stripped(r[0]) && r[|r| - 1] == s[|s| - 1]
  {
    if s != [] && stripped(s[0]) then TrimLeft(s[1..], stripped) else s
  }

  /** rtrim(): drops the stripped elements at the back, and only those. */
  function TrimRight<T>(s: seq<T>, stripped: T -> bool): (r: seq<T>)
    ensures |r| <= |s|
    ensures forall k :: |r| <= k < |s| ==> stripped(s[k])
    ensures r != [] ==> !stripped(r[|r| - 1]) && r[0] == s[0]
  {
    if s != [] && stripped(s[|s| - 1]) then TrimRight(s[..|s| - 1], stripped) else s
  }

  /** trim(): strips both ends; a string already free of stripped ends is returned unchanged. */
  function Trim<T>(s: seq<T>, stripped: T -> bool): (r: seq<T>)
    ensures |r| <= |s|
    ensures Untrimmable(r, stripped)
    ensures Untrimmable(s, stripped) ==> r == s
  {
    TrimLeft(TrimRight(s, stripped), stripped)
  }

  /** What ltrim() keeps is a suffix of its input. */
  lemma {:induction false} TrimLeftIsSuffix<T>(s: seq<T>, stripped: T -> bool)
    ensures TrimLeft(s, stripped) == s[|s| - |TrimLeft(s, stripped)|..]
  {
    if s != [] && stripped(s[0]) {
      TrimLeftIsSuffix(s[1..], stripped);
    }
  }

  /** What rtrim() keeps is a prefix of its input. */
  lemma {:induction false} TrimRightIsPrefix<T>(s: seq<T>, stripped: T -> bool)
    ensures TrimRight(s, stripped) == s[..|TrimRight(s, stripped)|]
  {
    if s != [] && stripped(s[|s| - 1]) {
      TrimRightIsPrefix(s[..|s| - 1], stripped);
    }
  }

  predicate IsHexDigit(c: char)
  {
    '0' <= c <= '9' || 'a' <= c <= 'f' || 'A' <= c <= 'F'
  }

  /** What bin2hex() writes: a digit or a lower-case letter a to f. */
  predicate IsLowerHexDigit(c: char)
  {
    '0' <= c <= '9' || 'a' <= c <= 'f'
  }

  predicate IsUpperHexDigit(c: char)
  {
    '0' <= c <= '9' || 'A' <= c <= 'F'
  }

  function DigitValue(c: char): (v: nat)
    requires IsHexDigit(c)
    ensures v < 16
  {
    if '0' <= c <= '9' then c as int - '0' as int
    else if 'a' <= c <= 'f' then c as int - 'a' as int + 10
    else c as int - 'A' as int + 10
  }

  function LowerDigit(v: nat): (c: char)
    requires v < 16
    ensures IsLowerHexDigit(c) && DigitValue(c) == v
  {
    if v < 10 then ('0' as int + v) as char else ('a' as int + v - 10) as char
  }

  /**
   * hex2bin(): two hex digits (either case) per byte, high nibble first.
   * PHP returns false, with a warning, for an odd length or a non-hex character.
   */
  function Hex2Bin(s: string): (r: Option<seq<Byte>>)
    ensures r.Some? <==> |s| % 2 == 0 && forall k :: 0 <= k < |s| ==> IsHexDigit(s[k])
    ensures r.Some? ==> |r.value| == |s| / 2
    decreases |s|
  {
    if |s| % 2 == 1 then None
    else if s == [] then Some([])
    else if !IsHexDigit(s[0]) || !IsHexDigit(s[1]) then None
    else
      match Hex2Bin(s[2..])
      case None => None
      case Some(rest) => Some([16 * DigitValue(s[0]) + DigitValue(s[1])] + rest)
  }

  /** Byte `i` of hex2bin(s) is the value of the digit pair at positions 2 * i and 2 * i + 1. */
  lemma {:induction false} Hex2BinAt(s: string, i: nat)
    requires Hex2Bin(s).Some? && i < |s| / 2
    ensures |Hex2Bin(s).value| == |s| / 2
    ensures Hex2Bin(s).value[i] == 16 * DigitValue(s[2 * i]) + DigitValue(s[2 * i + 1])
    decreases i
  {
    if i > 0 {
      Hex2BinAt(s[2..], i - 1);
      assert s[2..][2 * (i - 1)] == s[2 * i] && s[2..][2 * (i - 1) + 1] == s[2 * i + 1];
    }
  }

  /** bin2hex(): two lower-case hex digits per byte, high nibble first. */
  function Bin2Hex(b: seq<Byte>): (s: string)
    ensures |s| == 2 * |b|
    ensures forall k :: 0 <= k < |s| ==> IsLowerHexDigit(s[k])
    ensures forall i :: 0 <= i < |b| ==>
              s[2 * i] == LowerDigit(b[i] / 16) && s[2 * i + 1] == LowerDigit(b[i] % 16)
  {
    if b == [] then [] else [LowerDigit(b[0] / 16), LowerDigit(b[0] % 16)] + Bin2Hex(b[1..])
  }

  function LowerChar(c: char): char
  {
    if 'A' <= c <= 'Z' then (c as int + 32) as char else c
  }

  function UpperChar(c: char): char
  {
    if 'a' <= c <= 'z' then (c as int - 32) as char else c
  }

  /** strtolower() on ASCII letters. */
  function ToLower(s: string): (r: string)
    ensures |r| == |s|
    ensures forall i :: 0 <= i < |s| ==> !('A' <= r[i] <= 'Z')
  {
    seq(|s|, i requires 0 <= i < |s| => LowerChar(s[i]))
  }

  /** strtoupper(): upper-cases the ASCII letters a to z and leaves every other character alone. */
  function ToUpper(s: string): (r: string)
    ensures |r| == |s|
    ensures forall i :: 0 <= i < |s| ==> !('a' <= r[i] <= 'z')
    ensures forall i :: 0 <= i < |s| && !('a' <= s[i] <= 'z') ==> r[i] == s[i]
    ensures forall i :: 0 <= i < |s| && 'a' <= s[i] <= 'z' ==> r[i] as int == s[i] as int - 32
  {
    seq(|s|, i requires 0 <= i < |s| => UpperChar(s[i]))
  }

  /** bin2hex() undoes hex2bin(): decoding an encoding gives the bytes back. */
  lemma {:induction false} Hex2BinOfBin2Hex(b: seq<Byte>)
    ensures Hex2Bin(Bin2Hex(b)) == Some(b)
  {
    var s := Bin2Hex(b);
    var d := Hex2Bin(s);
    assert d.Some? && |d.value| == |b|;
    forall i | 0 <= i < |b|
      ensures d.value[i] == b[i]
    {
      assert s[2 * i] == LowerDigit(b[i] / 16) && s[2 * i + 1] == LowerDigit(b[i] % 16);
      Hex2BinAt(s, i);
    }
    assert d.value == b;
  }

  /** hex2bin() undoes bin2hex() up to case: re-encoding decoded hex gives its lower-case form. */
  lemma {:induction false} Bin2HexOfHex2Bin(s: string)
    requires Hex2Bin(s).Some?
    ensures Bin2Hex(Hex2Bin(s).value) == ToLower(s)
  {
    var t, l := Bin2Hex(Hex2Bin(s).value), ToLower(s);
    assert |t| == |s| == |l|;
    forall k | 0 <= k < |s|
      ensures t[k] == l[k]
    {
      var i := k / 2;
      assert i < |s| / 2 && (k == 2 * i || k == 2 * i + 1);
      Bin2HexOfHex2BinAt(s, i);
    }
    assert t == l;
  }

  /** The pair of characters that byte `i` of hex2bin(s) re-encodes to. */
  lemma Bin2HexOfHex2BinAt(s: string, i: nat)
    requires Hex2Bin(s).Some? && i < |s| / 2
    ensures |Bin2Hex(Hex2Bin(s).value)| == |s|
    ensures Bin2Hex(Hex2Bin(s).value)[2 * i] == LowerChar(s[2 * i])
    ensures Bin2Hex(Hex2Bin(s).value)[2 * i + 1] == LowerChar(s[2 * i + 1])
  {
    var b := Hex2Bin(s).value;
    var hi, lo := DigitValue(s[2 * i]), DigitValue(s[2 * i + 1]);
    Hex2BinAt(s, i);
    assert b[i] == 16 * hi + lo;
    assert b[i] / 16 == hi && b[i] % 16 == lo;
    LowerDigitOfValue(s[2 * i]);
    LowerDigitOfValue(s[2 * i + 1]);
  }

  /** Re-encoding the value of a hex digit gives the digit in lower case. */
  lemma LowerDigitOfValue(c: char)
    requires IsHexDigit(c)
    ensures LowerDigit(DigitValue(c)) == LowerChar(c)
  {
  }
}
