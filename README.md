# Bitcoin-style Merkle root, modelled in Dafny

This project models the PHP class `Merkle` (Merkle.php). The class computes the Merkle
root that Bitcoin puts in a block header, over a list of hex-encoded transaction hashes, and
checks a claimed root against it. It has two public operations, `root` and `verify`, and five
private helpers: `bin`, `hex`, `flip`, `merkle` and `hash`.

- `bin` trims the leaf text, decodes it with `hex2bin` and reverses its bytes. This gives the
  internal digest order. `hex` does the reverse: it flips the bytes back, `trim`s the bytes and
  hex-encodes them with `bin2hex`.
- `merkle` drains the row of digests two at a time and double-hashes each concatenated pair.
  A lone trailing digest is paired with itself. It repeats until one digest is left.
- `root` duplicates a single leaf, converts every leaf in place with `bin`, reduces, and
  returns the upper-cased display form. `verify` is strict string equality against `root`.

Files:

- `wrappers.dfy`: module `Wrappers`, with `Option` and `Result`.
- `php_strings.dfy`: module `PhpStrings`, the PHP built-ins the class uses, over byte strings:
  `trim` with its default character list (NUL, tab, newline, vertical tab, carriage return,
  space), `hex2bin`, `bin2hex`, `strtoupper` and, for stating round trips, `strtolower`.
- `merkle.dfy`: module `Merkle`, the class. Pure helpers are functions. The two loops of the
  source are methods proved against those functions. `Reduce` is the `while` loop of `merkle`
  plus its recursion. `Root` is the `foreach` of `root`.
- `merkle_properties.dfy`: module `MerkleProperties`, lemmas about the functions.

SHA-256 is a parameter of type `Sha256`: any function from byte strings to 32-byte digests.
Every structural property is therefore proved for every such function. The PHP failures
become `Result` values with an `Error`:

- `InvalidHex(key)`: `hex2bin` returned `false` for the leaf at position `key`, and `flip`
  then raised a `TypeError` under strict types. The `foreach` stops at the first such leaf.
- `EmptyInput`: `merkle` received no digests, so `$row` was never assigned.

`verify` passes these failures on unchanged.

Three behaviours of the code that a reader might not expect, all modelled as written:

- The code never checks that leaves decode to the same length. Leaves here are arbitrary
  byte strings, and there is no length-mismatch error.
- Display roots are not always 64 characters. The `trim` in `hex` (Merkle.php:80) strips NUL
  and whitespace bytes from both ends of the flipped binary root. Such a root comes out
  shorter and no longer decodes to the binary root (`HexFullLength`,
  `HexDropsNulExample`). The round trips are proved only for digests free of such end bytes.
- Leaf text is trimmed of surrounding whitespace before decoding, and upper-case hex is
  accepted (`hex2bin` takes either case).

## Model

| member | source | states |
|---|---|---|
| `PhpStrings.TrimLeft` | Merkle.php:64 | drops only stripped characters, and only from the front; the result does not start with one |
| `PhpStrings.TrimRight` | Merkle.php:80 | drops only stripped bytes, and only from the back; the result does not end with one |
| `PhpStrings.Trim` | Merkle.php:64 | never lengthens its input; the result has no stripped element at either end; a string already free of them is returned unchanged |
| `PhpStrings.TrimLeftIsSuffix` | Merkle.php:64 | what ltrim keeps is a suffix of the input |
| `PhpStrings.TrimRightIsPrefix` | Merkle.php:80 | what rtrim keeps is a prefix of the input |
| `PhpStrings.Hex2Bin` | Merkle.php:64 | hex2bin succeeds exactly when the text has even length and only hex digits (either case); it then yields half as many bytes |
| `PhpStrings.Hex2BinAt` | Merkle.php:64 | byte i of the decoded string is 16 times the value of digit 2i plus the value of digit 2i+1 |
| `PhpStrings.Bin2Hex` | Merkle.php:80 | bin2hex writes two lower-case hex digits per byte, high nibble first |
| `PhpStrings.Hex2BinOfBin2Hex` | Merkle.php:64-80 | decoding an encoding returns the original bytes |
| `PhpStrings.Bin2HexOfHex2Bin` | Merkle.php:64-80 | re-encoding decoded hex returns its lower-case form |
| `PhpStrings.ToUpper` | Merkle.php:40 | strtoupper keeps the length, maps each lower-case letter to its upper-case counterpart (code minus 32), and changes nothing else |
| `Merkle.Flip` | Merkle.php:91-94 | flip keeps the length and puts byte i at position n-1-i |
| `MerkleProperties.FlipInvolutive` | Merkle.php:91-94 | flip is its own inverse |
| `Merkle.Bin` | Merkle.php:61-68 | a decoded leaf has half as many bytes as its trimmed hex text |
| `MerkleProperties.BinFails` | Merkle.php:61-68 | bin fails exactly when the trimmed leaf has an odd length or a non-hex character |
| `Merkle.Hex` | Merkle.php:76-83 | the display form is even-length lower-case hex, at most two characters per byte, exactly two when no end byte is trimmed |
| `MerkleProperties.HexOfBin` | Merkle.php:61-83 | hex(bin(h)) is h trimmed and lower-cased, when the decoded digest has no trimmable end byte |
| `MerkleProperties.BinOfHex` | Merkle.php:61-83 | bin(hex(d)) gives d back, when d has no trimmable end byte |
| `MerkleProperties.HexFullLength` | Merkle.php:78-80 | the display form has two digits per byte exactly when no NUL or whitespace byte sits at either end of the digest |
| `MerkleProperties.BinAt` | Merkle.php:61-68 | byte i of a decoded leaf is the i-th digit pair counted from the end of the trimmed text: bin reverses the display byte order |
| `MerkleProperties.HexAt` | Merkle.php:76-83 | hex writes the bytes last first: digits 2i and 2i+1 encode byte n-1-i, when no end byte is trimmed |
| `MerkleProperties.HexDropsNulExample` | Merkle.php:78-80 | the internal digest 00 01 AB is displayed as "ab01": reversed, and without its NUL byte |
| `Merkle.Hash` | Merkle.php:129-132 | the double hash is 32 bytes |
| `Merkle.Round` | Merkle.php:108-117 | one pass over n digests yields ceil(n/2) digests, each 32 bytes |
| `MerkleProperties.RoundAt` | Merkle.php:110-115 | element i of the next row hashes row[2i] ++ row[2i+1], or row[n-1] ++ row[n-1] for a lone last digest |
| `MerkleProperties.RoundShrinks` | Merkle.php:108-120 | a row of two or more digests strictly shrinks and never empties, so the recursion ends |
| `Merkle.TreeRoot` | Merkle.php:102-121 | a single digest is returned unchanged; two or more reduce to a 32-byte digest |
| `Merkle.Reduce` | Merkle.php:102-121 | the draining loop and recursion compute TreeRoot, and fail on an empty row |
| `MerkleProperties.ThreeLeaves` | Merkle.php:108-120 | three digests reduce to H(H(a++b) ++ H(c++c)), with no flip between levels |
| `MerkleProperties.HeightBounds` | Merkle.php:119-120 | the number of rounds for n >= 2 digests is ceil(log2 n) |
| `MerkleProperties.TreeRootAfterHeight` | Merkle.php:102-121 | after exactly that many rounds one digest is left, and it is the root |
| `Merkle.Digests` | Merkle.php:29-31 | every leaf is converted in order; success yields bin of each leaf; failure names the first leaf bin rejects |
| `Merkle.DigestsOk` | Merkle.php:29-31 | when every leaf decodes, the conversion yields exactly those digests |
| `Merkle.DigestsErr` | Merkle.php:29-31 | the conversion fails at the first leaf bin rejects |
| `Merkle.Duplicated` | Merkle.php:23-26 | a single leaf becomes the pair [x, x]; any other list is unchanged (entry k is data[k mod n]) |
| `Merkle.RootOf` | Merkle.php:21-41 | a successful root is even-length upper-case hex of at most 64 characters |
| `Merkle.Root` | Merkle.php:21-41 | the method with its conversion loop computes RootOf |
| `MerkleProperties.RootOfFails` | Merkle.php:21-41 | root fails exactly on an empty list or a bad leaf; empty gives EmptyInput, otherwise the first bad leaf is named |
| `MerkleProperties.RootOfConversion` | Merkle.php:28-40 | a failed conversion is root's failure; a successful one gives a root exactly when it is non-empty, and EmptyInput otherwise |
| `MerkleProperties.DuplicatedDigests` | Merkle.php:23-31 | converting the duplicated list succeeds exactly when every leaf decodes, is empty only for no leaves, and otherwise names the first bad leaf of the list itself |
| `MerkleProperties.DigestsOkIff` | Merkle.php:29-31 | the conversion succeeds exactly when bin accepts every leaf |
| `MerkleProperties.DigestsOfPair` | Merkle.php:24-31 | converting [x, x] gives [d, d] when bin(x) = d, and fails at key 0 otherwise |
| `MerkleProperties.SingleLeafDuplicated` | Merkle.php:23-26 | root([x]) == root([x, x]) |
| `MerkleProperties.RootOfThreeLeaves` | Merkle.php:28-40 | root of three leaves is the upper-case display form of H(H(a'++b') ++ H(c'++c')) over their internal digests |
| `MerkleProperties.LowerOfUpperHex` | Merkle.php:40 | upper-casing lower-case hex loses nothing: lower-casing it again gives it back |
| `MerkleProperties.RootDecodesToTreeRoot` | Merkle.php:36-40 | when the binary root has no trimmable end byte, the root is 64 characters and bin of it gives back the binary root |
| `Merkle.Verify` | Merkle.php:50-53 | verify fails exactly when root fails; otherwise it is true exactly when the claimed string equals root(data) |
| `MerkleProperties.VerifyAcceptsRoot` | Merkle.php:50-53 | verify(root(data), data) is true |
| `MerkleProperties.VerifyRejectsLowerCase` | MerkleTest.php:28-29 | a claimed root containing any lower-case letter is refused; so is the lower-case hex SHA-256 of the real root whenever that hex contains a letter a-f |

## Left out

- SHA-256 internals (Merkle.php:131): SHA-256 is a parameter. The known-vector checks of
  MerkleTest.php need real SHA-256 output and MerkleTestData.php, which is not part of this
  model.
- Order sensitivity: a different leaf order giving a different root cannot hold for every
  hash function (a constant function is one), so it is not stated.
- PHP warnings and `TypeError`s become `Error` values. Exceptions and the warning text are not
  modelled.
- PHP array keys: inputs are plain sequences. A single-element array whose key is not 0, and
  the key renumbering done by `array_shift`, are not modelled.
- Root: the PHP `foreach` writes each digest back into `$data` over the hex text. The model
  appends the digests to a fresh sequence instead, since `$data` is a local copy in PHP.
- `strtoupper` and `strtolower` are modelled for ASCII letters only. They are applied only to
  hex text here.
- The PHPUnit harness and fixture loading (MerkleTest.php:11-14) are test plumbing.
