/**
 * The stateless class Merkle of Merkle.php: Bitcoin's block Merkle root over
 * hex-encoded hashes, and verification of a claimed root against it.
 *
 * Leaves are decoded from hex and byte-reversed into the internal order; the
 * row of digests is reduced pairwise by double SHA-256, an odd trailing digest
 * being paired with itself, until one digest remains; that digest is reversed
 * back, hex-encoded and upper-cased. SHA-256 itself is a parameter.
 */
module Merkle {
  import opened Wrappers
  import opened PhpStrings

  /** A SHA-256 output: 32 bytes. */
  type Digest = d: seq<Byte> | |d| == 32 witness seq(32, i => 0)

  /** SHA-256 as a black box: any function from byte strings to 32-byte digests. */
  type Sha256 = seq<Byte> -> Digest

  /** Why root() produces no value: PHP ends the call with a TypeError in both cases. */
  datatype Error =
    | EmptyInput            // merkle() is reached with no digests and `$row` is never assigned
    | InvalidHex(key: nat)  // hex2bin() rejected the leaf at this position, and flip() refused `false`

  /** flip(): reverses the bytes of a string. */
  function Flip(s: seq<Byte>): (r: seq<Byte>)
    ensures |r| == |s|
    ensures forall i :: 0 <= i < |s| ==> r[i] == s[|s| - 1 - i]
  {
    if s == [] then [] else Flip(s[1..]) + [s[0]]
  }

  /** bin(): the internal (byte-reversed) digest of a hex leaf, or nothing when hex2bin() fails. */
  function Bin(hex: string): (r: Option<seq<Byte>>)
    ensures r.Some? ==> 2 * |r.value| == |Trim(hex, IsTrimChar)|
  {
    match Hex2Bin(Trim(hex, IsTrimChar))
    case None => None
    case Some(b) => Some(Flip(b))
  }

  /**
   * hex(): the display form of an internal digest. The bytes are reversed back,
   * then trim() strips NUL and whitespace bytes from both ends before encoding.
   */
  function Hex(bin: seq<Byte>): (h: string)
    ensures |h| % 2 == 0 && |h| <= 2 * |bin|
    ensures forall k :: 0 <= k < |h| ==> IsLowerHexDigit(h[k])
    ensures Untrimmable(bin, IsTrimByte) ==> |h| == 2 * |bin|
  {
    Bin2Hex(Trim(Flip(bin), IsTrimByte))
  }

  /** hash(): SHA-256 applied twice to the raw bytes. */
  function Hash(sha256: Sha256, input: seq<Byte>): (d: seq<Byte>)
    ensures |d| == 32
  {
    sha256(sha256(input))
  }

  /** The digest that the pair starting at position 2 * i of `row` hashes to. */
  function PairHash(sha256: Sha256, row: seq<seq<Byte>>, i: nat): seq<Byte>
    requires 2 * i < |row|
  {
    Hash(sha256, row[2 * i] + (if 2 * i + 1 < |row| then row[2 * i + 1] else row[2 * i]))
  }

  /**
   * One pass of the while loop in merkle(): the row above `row`. It has
   * ceil(n / 2) digests for n digests, each of them 32 bytes.
   */
  function Round(sha256: Sha256, row: seq<seq<Byte>>): (next: seq<seq<Byte>>)
    ensures |next| == (|row| + 1) / 2
    ensures forall i :: 0 <= i < |next| ==> |next[i]| == 32
  {
    if row == [] then []
    else if |row| == 1 then [Hash(sha256, row[0] + row[0])]
    else [Hash(sha256, row[0] + row[1])] + Round(sha256, row[2..])
  }

  /**
   * merkle(): rounds until one digest remains. A single digest is its own
   * root; a row of two or more digests ends in a 32-byte digest.
   */
  function TreeRoot(sha256: Sha256, row: seq<seq<Byte>>): (d: seq<Byte>)
    requires row != []
    ensures |row| == 1 ==> d == row[0]
    ensures |row| >= 2 ==> |d| == 32
    decreases |row|
  {
    if |row| == 1 then row[0] else TreeRoot(sha256, Round(sha256, row))
  }

  /** The foreach in root(): every leaf through bin(), stopping at the first that fails. */
  function Digests(leaves: seq<string>): (r: Result<seq<seq<Byte>>, Error>)
    ensures r.Ok? ==> |r.value| == |leaves|
    ensures r.Ok? ==> forall k :: 0 <= k < |leaves| ==> Bin(leaves[k]) == Some(r.value[k])
    ensures r.Err? ==> r.error.InvalidHex? && r.error.key < |leaves| && Bin(leaves[r.error.key]).None?
    ensures r.Err? ==> forall k :: 0 <= k < r.error.key ==> Bin(leaves[k]).Some?
  {
    if leaves == [] then Ok([])
    else
      var last := |leaves| - 1;
      match Digests(leaves[..last])
      case Err(e) => Err(e)
      case Ok(ds) =>
        match Bin(leaves[last])
        case None => Err(InvalidHex(last))
        case Some(d) => Ok(ds + [d])
  }

  /** Digests() succeeds with exactly the digests bin() gives leaf by leaf. */
  lemma DigestsOk(leaves: seq<string>, ds: seq<seq<Byte>>)
    requires |ds| == |leaves| && forall k :: 0 <= k < |leaves| ==> Bin(leaves[k]) == Some(ds[k])
    ensures Digests(leaves) == Ok(ds)
  {
    var r := Digests(leaves);
    assert r.value == ds;
  }

  /** Digests() reports the first leaf bin() rejects. */
  lemma DigestsErr(leaves: seq<string>, key: nat)
    requires key < |leaves| && Bin(leaves[key]).None?
    requires forall k :: 0 <= k < key ==> Bin(leaves[k]).Some?
    ensures Digests(leaves) == Err(InvalidHex(key))
  {
    var r := Digests(leaves);
    if r.Err? {
      var e := r.error.key;
      assert !(e < key) && !(key < e);
    }
  }

  /**
   * A single leaf is treated as a pair of that leaf with itself; any other
   * list is left as it is.
   */
  function Duplicated(data: seq<string>): (r: seq<string>)
    ensures |r| == if |data| == 1 then 2 else |data|
    ensures forall k :: 0 <= k < |r| ==> r[k] == data[k % |data|]
  {
    if |data| == 1 then [data[0], data[0]] else data
  }

  /**
   * root() as a value: the upper-case display form of the tree root, or why there is none.
   */
  function RootOf(sha256: Sha256, data: seq<string>): (r: Result<string, Error>)
    ensures r.Ok? ==> |r.value| % 2 == 0 && |r.value| <= 64
    ensures r.Ok? ==> forall k :: 0 <= k < |r.value| ==> IsUpperHexDigit(r.value[k])
  {
    match Digests(Duplicated(data))
    case Err(e) => Err(e)
    case Ok(ds) => if ds == [] then Err(EmptyInput) else Ok(ToUpper(Hex(TreeRoot(sha256, ds))))
  }

  /** verify(): root(data) === root; a failing root() fails verify() the same way. */
  function Verify(sha256: Sha256, root: string, data: seq<string>): (r: Result<bool, Error>)
    ensures r.Err? <==> RootOf(sha256, data).Err?
    ensures r.Ok? ==> (r.value <==> RootOf(sha256, data).Ok? && RootOf(sha256, data).value == root)
  {
    match RootOf(sha256, data)
    case Err(e) => Err(e)
    case Ok(computed) => Ok(computed == root)
  }

  /**
   * merkle(): drains `data` two digests at a time into the next row, then
   * recurses on that row. With no digests the loop never runs, `$row` is never
   * assigned and PHP fails.
   */
  method Reduce(sha256: Sha256, data: seq<seq<Byte>>) returns (r: Option<seq<Byte>>)
    ensures r == if data == [] then None else Some(TreeRoot(sha256, data))
    decreases |data|
  {
    if |data| == 1 {
      return Some(data[0]);
    }
    var queue := data;
    var row: seq<seq<Byte>> := [];
    while |queue| > 0
      invariant row + Round(sha256, queue) == Round(sha256, data)
      decreases |queue|
    {
      var one := queue[0];
      queue := queue[1..];
      var two := one;
      if |queue| > 0 {
        two := queue[0];
        queue := queue[1..];
      }
      row := row + [Hash(sha256, one + two)];
    }
    assert row == Round(sha256, data);
    if row == [] {
      return None;
    }
    r := Reduce(sha256, row);
  }

  /**
   * root(): duplicates a single leaf, overwrites every leaf with its internal
   * digest (the first leaf hex2bin() rejects ends the call), reduces, and
   * returns the upper-cased display form.
   */
  method Root(sha256: Sha256, data: seq<string>) returns (r: Result<string, Error>)
    ensures r == RootOf(sha256, data)
  {
    var items := data;
    if |items| == 1 {
      items := items + [items[0]];
    }
    var digests: seq<seq<Byte>> := [];
    for key := 0 to |items|
      invariant |digests| == key
      invariant forall k :: 0 <= k < key ==> Bin(items[k]) == Some(digests[k])
    {
      var bin := Bin(items[key]);
      if bin.None? {
        DigestsErr(items, key);
        return Err(InvalidHex(key));
      }
      digests := digests + [bin.value];
    }
    DigestsOk(items, digests);
    var bin := Reduce(sha256, digests);
    if bin.None? {
      return Err(EmptyInput);
    }
    r := Ok(ToUpper(Hex(bin.value)));
  }
}
