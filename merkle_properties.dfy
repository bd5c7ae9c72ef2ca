/**
 * What Merkle.php promises about the pieces of the root computation and about
 * root() and verify(), proved for every SHA-256 function.
 */
module MerkleProperties {
  import opened Wrappers
  import opened PhpStrings
  import opened Merkle

  // ---- flip(), bin(), hex() ----

  /** flip() is its own inverse. */
  lemma FlipInvolutive(s: seq<Byte>)
    ensures Flip(Flip(s)) == s
  {
  }

  /**
   * bin() fails exactly when the trimmed leaf has an odd length or a character
   * that is not a hex digit of either case.
   */
  lemma BinFails(hex: string)
    ensures Bin(hex).Some? <==> (var t := Trim(hex, IsTrimChar);
              |t| % 2 == 0 && forall k :: 0 <= k < |t| ==> IsHexDigit(t[k]))
  {
  }

  /** flip() swaps the first and the last byte, so it keeps a string free of stripped ends. */
  lemma FlipUntrimmable(s: seq<Byte>)
    requires Untrimmable(s, IsTrimByte)
    ensures Untrimmable(Flip(s), IsTrimByte)
  {
  }

  /** Hex digits are never stripped by trim(). */
  lemma HexTextUntrimmable(h: string)
    requires forall k :: 0 <= k < |h| ==> IsHexDigit(h[k])
    ensures Untrimmable(h, IsTrimChar)
  {
  }

  /**
   * hex() undoes bin() up to case and surrounding whitespace, as long as the
   * decoded digest has no byte at either end that trim() would strip.
   */
  lemma HexOfBin(hex: string)
    requires Bin(hex).Some? && Untrimmable(Bin(hex).value, IsTrimByte)
    ensures Hex(Bin(hex).value) == ToLower(Trim(hex, IsTrimChar))
  {
    var t := Trim(hex, IsTrimChar);
    var b := Hex2Bin(t).value;
    assert Bin(hex).value == Flip(b);
    FlipInvolutive(b);
    FlipUntrimmable(Flip(b));
    Bin2HexOfHex2Bin(t);
  }

  /** bin() undoes hex() when the digest has no byte at either end that trim() would strip. */
  lemma BinOfHex(bin: seq<Byte>)
    requires Untrimmable(bin, IsTrimByte)
    ensures Bin(Hex(bin)) == Some(bin)
  {
    var h := Hex(bin);
    FlipUntrimmable(bin);
    assert h == Bin2Hex(Flip(bin));
    HexTextUntrimmable(h);
    Hex2BinOfBin2Hex(Flip(bin));
    FlipInvolutive(bin);
  }

  /**
   * The trim() in hex() loses bytes: the display form has two digits for every
   * byte exactly when the digest has no NUL or whitespace byte at either end.
   */
  lemma HexFullLength(bin: seq<Byte>)
    ensures |Hex(bin)| == 2 * |bin| <==> Untrimmable(bin, IsTrimByte)
  {
    var f := Flip(bin);
    var right := TrimRight(f, IsTrimByte);
    var t := TrimLeft(right, IsTrimByte);
    if |t| == |f| {
      TrimRightIsPrefix(f, IsTrimByte);
      TrimLeftIsSuffix(right, IsTrimByte);
      assert t == f;
      if bin != [] {
        assert f[0] == bin[|bin| - 1] && f[|f| - 1] == bin[0];
      }
    }
  }

  /**
   * Byte i of an internal digest is the i-th digit pair counted from the END of
   * the trimmed leaf text: bin() reverses the display byte order.
   */
  lemma BinAt(hex: string, i: nat)
    requires Bin(hex).Some? && i < |Bin(hex).value|
    ensures var t := Trim(hex, IsTrimChar);
            |t| == 2 * |Bin(hex).value| &&
            Bin(hex).value[i] == 16 * DigitValue(t[|t| - 2 - 2 * i]) + DigitValue(t[|t| - 1 - 2 * i])
  {
    var t := Trim(hex, IsTrimChar);
    var j := |t| / 2 - 1 - i;
    Hex2BinAt(t, j);
    assert 2 * j == |t| - 2 - 2 * i;
  }

  /**
   * The display form starts with the LAST byte of the internal digest: hex()
   * writes the bytes in reverse order, when no end byte is trimmed.
   */
  lemma HexAt(bin: seq<Byte>, i: nat)
    requires Untrimmable(bin, IsTrimByte) && i < |bin|
    ensures |Hex(bin)| == 2 * |bin|
    ensures Hex(bin)[2 * i] == LowerDigit(bin[|bin| - 1 - i] / 16)
    ensures Hex(bin)[2 * i + 1] == LowerDigit(bin[|bin| - 1 - i] % 16)
  {
    FlipUntrimmable(bin);
    assert Hex(bin) == Bin2Hex(Flip(bin));
  }

  /**
   * A concrete instance: the internal digest 00 01 AB is displayed as "ab01",
   * reversed and with its NUL byte gone, not as "ab0100".
   */
  lemma HexDropsNulExample()
    ensures Hex([0x00, 0x01, 0xAB]) == "ab01"
  {
    var internal: seq<Byte> := [0x00, 0x01, 0xAB];
    var display: seq<Byte> := [0xAB, 0x01, 0x00];
    assert Flip(internal) == display;
    assert display[..2] == [0xAB, 0x01];
    assert TrimRight(display, IsTrimByte) == [0xAB, 0x01];
    assert Trim(display, IsTrimByte) == [0xAB, 0x01];
    var b: seq<Byte> := [0xAB, 0x01];
    assert Bin2Hex(b[1..]) == "01";
  }

  // ---- merkle(): one round, and the whole reduction ----

  /** Digest i of the next row hashes the pair at 2 * i, or the last digest with itself. */
  lemma {:induction false} RoundAt(sha256: Sha256, row: seq<seq<Byte>>, i: nat)
    requires 2 * i < |row|
    ensures i < |Round(sha256, row)|
    ensures Round(sha256, row)[i] == PairHash(sha256, row, i)
    decreases i
  {
    if i > 0 {
      RoundAt(sha256, row[2..], i - 1);
      assert row[2..][2 * (i - 1)] == row[2 * i];
      if 2 * i + 1 < |row| {
        assert row[2..][2 * (i - 1) + 1] == row[2 * i + 1];
      }
    }
  }

  /** A row of two or more digests shrinks in every round, so merkle() terminates. */
  lemma RoundShrinks(sha256: Sha256, row: seq<seq<Byte>>)
    requires |row| >= 2
    ensures 0 < |Round(sha256, row)| < |row|
  {
  }

  /** Three leaves: the odd third digest is paired with itself, with no flip between levels. */
  lemma ThreeLeaves(sha256: Sha256, a: seq<Byte>, b: seq<Byte>, c: seq<Byte>)
    ensures TreeRoot(sha256, [a, b, c])
         == Hash(sha256, Hash(sha256, a + b) + Hash(sha256, c + c))
  {
    var row := [a, b, c];
    RoundAt(sha256, row, 0);
    RoundAt(sha256, row, 1);
    var next := Round(sha256, row);
    assert next == [Hash(sha256, a + b), Hash(sha256, c + c)];
    RoundAt(sha256, next, 0);
    assert Round(sha256, next) == [Hash(sha256, next[0] + next[1])];
  }

  /** Number of rounds merkle() runs on n digests. */
  function Height(n: nat): nat
  {
    if n <= 1 then 0 else 1 + Height((n + 1) / 2)
  }

  function Pow2(k: nat): nat
  {
    if k == 0 then 1 else 2 * Pow2(k - 1)
  }

  /** `k` rounds applied one after the other. */
  function Rounds(sha256: Sha256, row: seq<seq<Byte>>, k: nat): seq<seq<Byte>>
    decreases k
  {
    if k == 0 then row else Rounds(sha256, Round(sha256, row), k - 1)
  }

  /** The tree over n >= 2 digests has height ceil(log2 n). */
  lemma {:induction false} HeightBounds(n: nat)
    requires n >= 2
    ensures Pow2(Height(n) - 1) < n <= Pow2(Height(n))
  {
    var m := (n + 1) / 2;
    if m >= 2 {
      HeightBounds(m);
    }
  }

  /** The root is the only digest left after exactly Height(n) rounds. */
  lemma {:induction false} TreeRootAfterHeight(sha256: Sha256, row: seq<seq<Byte>>)
    requires row != []
    ensures |Rounds(sha256, row, Height(|row|))| == 1
    ensures TreeRoot(sha256, row) == Rounds(sha256, row, Height(|row|))[0]
    decreases |row|
  {
    if |row| >= 2 {
      TreeRootAfterHeight(sha256, Round(sha256, row));
    }
  }

  // ---- root() and verify() ----

  /** root() fails exactly on an empty list or a leaf hex2bin() rejects, naming the first such leaf. */
  lemma RootOfFails(sha256: Sha256, data: seq<string>)
    ensures RootOf(sha256, data).Ok? <==> data != [] && forall k :: 0 <= k < |data| ==> Bin(data[k]).Some?
    ensures data == [] ==> RootOf(sha256, data) == Err(EmptyInput)
    ensures RootOf(sha256, data).Err? && data != [] ==>
              (var key := RootOf(sha256, data).error.key;
               RootOf(sha256, data).error.InvalidHex? && key < |data| && Bin(data[key]).None? &&
               forall k :: 0 <= k < key ==> Bin(data[k]).Some?)
  {
    RootOfConversion(sha256, data);
    DuplicatedDigests(data);
  }

  /** How root() turns the outcome of the conversion into its own. */
  lemma RootOfConversion(sha256: Sha256, data: seq<string>)
    ensures Digests(Duplicated(data)).Err? ==> RootOf(sha256, data) == Err(Digests(Duplicated(data)).error)
    ensures Digests(Duplicated(data)).Ok? ==>
              (RootOf(sha256, data).Ok? <==> Digests(Duplicated(data)).value != [])
    ensures Digests(Duplicated(data)).Ok? && Digests(Duplicated(data)).value == [] ==>
              RootOf(sha256, data) == Err(EmptyInput)
  {
  }

  /** Converting the duplicated list succeeds or fails as converting the list itself would. */
  lemma DuplicatedDigests(data: seq<string>)
    ensures Digests(Duplicated(data)).Ok? <==> forall k :: 0 <= k < |data| ==> Bin(data[k]).Some?
    ensures Digests(Duplicated(data)).Ok? ==> (Digests(Duplicated(data)).value == [] <==> data == [])
    ensures Digests(Duplicated(data)).Err? ==>
              (var e := Digests(Duplicated(data)).error;
               e.key < |data| && Bin(data[e.key]).None? && forall k :: 0 <= k < e.key ==> Bin(data[k]).Some?)
  {
    if |data| == 1 {
      assert data == [data[0]];
      assert Duplicated(data) == [data[0], data[0]];
      DigestsOfPair(data[0]);
    } else {
      assert Duplicated(data) == data;
      DigestsOkIff(data);
    }
  }

  /** The conversion succeeds exactly when bin() accepts every leaf. */
  lemma DigestsOkIff(leaves: seq<string>)
    ensures Digests(leaves).Ok? <==> forall k :: 0 <= k < |leaves| ==> Bin(leaves[k]).Some?
  {
    if Digests(leaves).Err? {
      var key := Digests(leaves).error.key;
      assert Bin(leaves[key]).None?;
    }
  }

  /** The leaf list a single leaf is duplicated into converts as that one leaf does. */
  lemma DigestsOfPair(x: string)
    ensures Digests([x, x]) == match Bin(x)
                               case None => Err(InvalidHex(0))
                               case Some(d) => Ok([d, d])
  {
    var none: seq<string> := [];
    assert [x, x][..1] == [x] && [x][..0] == none;
    assert Digests(none) == Ok([]);
    if Bin(x).None? {
      assert Digests([x]) == Err(InvalidHex(0));
    } else {
      var d := Bin(x).value;
      assert Digests([x]) == Ok([] + [d]);
      assert [] + [d] == [d] && [d] + [d] == [d, d];
      assert Digests([x, x]) == Ok([d] + [d]);
    }
  }

  /** A single leaf is hashed with itself: root([x]) == root([x, x]). */
  lemma SingleLeafDuplicated(sha256: Sha256, x: string)
    ensures RootOf(sha256, [x]) == RootOf(sha256, [x, x])
  {
  }

  /** root() of three leaves, in terms of their internal digests. */
  lemma RootOfThreeLeaves(sha256: Sha256, a: string, b: string, c: string)
    requires Bin(a).Some? && Bin(b).Some? && Bin(c).Some?
    ensures (var a', b', c' := Bin(a).value, Bin(b).value, Bin(c).value;
             RootOf(sha256, [a, b, c])
             == Ok(ToUpper(Hex(Hash(sha256, Hash(sha256, a' + b') + Hash(sha256, c' + c'))))))
  {
    var a', b', c' := Bin(a).value, Bin(b).value, Bin(c).value;
    assert [a, b, c][..2] == [a, b] && [a, b][..1] == [a] && [a][..0] == [];
    var none: seq<string> := [];
    assert Digests(none) == Ok([]);
    assert Digests([a]) == Ok([] + [a']);
    assert [] + [a'] == [a'];
    assert Bin([a, b][1]) == Some(b');
    assert Digests([a, b]) == Ok([a'] + [b']);
    assert [a'] + [b'] == [a', b'];
    assert Bin([a, b, c][2]) == Some(c');
    assert Digests([a, b, c]) == Ok([a', b'] + [c']);
    assert [a', b'] + [c'] == [a', b', c'];
    ThreeLeaves(sha256, a', b', c');
  }

  /** Upper-casing lower-case hex and lower-casing it again gives it back. */
  lemma LowerOfUpperHex(h: string)
    requires forall k :: 0 <= k < |h| ==> IsLowerHexDigit(h[k])
    ensures ToLower(ToUpper(h)) == h
  {
  }

  /**
   * The display form decodes back to the binary root: fed to bin() as a leaf,
   * root(data) gives the internal tree root again, and it is 64 hex digits
   * long, when that root has no byte at either end that trim() would strip.
   */
  lemma RootDecodesToTreeRoot(sha256: Sha256, data: seq<string>)
    ensures RootOf(sha256, data).Ok? ==>
              Digests(Duplicated(data)).Ok? && Digests(Duplicated(data)).value != []
    ensures RootOf(sha256, data).Ok? ==>
              (var bin := TreeRoot(sha256, Digests(Duplicated(data)).value);
               Untrimmable(bin, IsTrimByte) ==>
                 |RootOf(sha256, data).value| == 64 && Bin(RootOf(sha256, data).value) == Some(bin))
  {
    if RootOf(sha256, data).Err? {
      return;
    }
    var ds := Digests(Duplicated(data)).value;
    var bin := TreeRoot(sha256, ds);
    assert |ds| >= 2;
    if Untrimmable(bin, IsTrimByte) {
      var root := RootOf(sha256, data).value;
      var h := Hex(bin);
      assert root == ToUpper(h);
      FlipUntrimmable(bin);
      assert h == Bin2Hex(Flip(bin));
      HexTextUntrimmable(root);
      var d := Hex2Bin(root);
      Bin2HexOfHex2Bin(root);
      LowerOfUpperHex(h);
      assert Bin2Hex(d.value) == Bin2Hex(Flip(bin));
      Hex2BinOfBin2Hex(d.value);
      Hex2BinOfBin2Hex(Flip(bin));
      FlipInvolutive(bin);
    }
  }

  /** verify() accepts the root that root() computes. */
  lemma VerifyAcceptsRoot(sha256: Sha256, data: seq<string>)
    ensures RootOf(sha256, data).Ok? ==> Verify(sha256, RootOf(sha256, data).value, data) == Ok(true)
  {
  }

  /**
   * verify() compares case-sensitively: a claimed root holding any lower-case
   * letter is refused; so is a lower-case hex SHA-256 of the real root
   * whenever that hex holds at least one of the letters a to f.
   */
  lemma VerifyRejectsLowerCase(sha256: Sha256, claimed: string, data: seq<string>, k: nat)
    requires k < |claimed| && 'a' <= claimed[k] <= 'z'
    ensures RootOf(sha256, data).Ok? ==> Verify(sha256, claimed, data) == Ok(false)
  {
    if RootOf(sha256, data).Ok? {
      var root := RootOf(sha256, data).value;
      if k < |root| {
        assert IsUpperHexDigit(root[k]);
      }
    }
  }
}
