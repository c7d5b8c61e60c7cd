/** `dto/Block`: a block's hash is the lower-case hexadecimal rendering of the
    SHA-256 digest of the operation's text followed by the previous hash. The
    digest, the UTF-8 encoding and `Transaction.toString` are library or
    floating-point code and enter as uninterpreted function parameters; the
    hexadecimal rendering loop is modelled exactly. */
module Blocks {
  import opened JavaLang
  import opened Wrappers

  /** A SHA-256 digest: 32 bytes. */
  type Digest = d: seq<JByte> | |d| == 32 witness seq(32, _ => 0)

  /** The lower-case hexadecimal digit of `v`, as `Integer.toHexString`
      writes it. */
  function HexDigit(v: int): CodeUnit
    requires 0 <= v < 16
  {
    if v < 10 then '0' as int + v else 'a' as int + (v - 10)
  }

  /** The value of a lower-case hexadecimal digit; `None` for any other
      code unit. */
  function DigitValue(c: CodeUnit): (r: Option<int>)
    ensures r.Some? ==> 0 <= r.value < 16
  {
    if '0' as int <= c <= '9' as int then Some(c - '0' as int)
    else if 'a' as int <= c <= 'f' as int then Some(c - 'a' as int + 10)
    else None
  }

  /** Digits and their values correspond one to one. */
  lemma DigitRoundTrip(v: int, c: CodeUnit)
    requires 0 <= v < 16
    ensures DigitValue(HexDigit(v)) == Some(v)
    ensures DigitValue(c) == Some(v) <==> c == HexDigit(v)
  {
  }

  predicate IsHexDigits(s: JString)
  {
    forall i | 0 <= i < |s| :: DigitValue(s[i]).Some?
  }

  /** The number a string of hexadecimal digits denotes, most significant
      digit first. */
  function HexValue(s: JString): nat
    requires IsHexDigits(s)
  {
    if s == [] then 0
    else 16 * HexValue(s[..|s| - 1]) + DigitValue(s[|s| - 1]).value
  }

  /** `Integer.toHexString(v)` for a non-negative `v`: lower-case digits
      without leading zeros. */
  function ToHexString(v: nat): (r: JString)
    ensures |r| >= 1 && IsHexDigits(r)
    ensures HexValue(r) == v
    ensures |r| == 1 || r[0] != '0' as int
    ensures |r| == 1 <==> v < 16
    ensures v < 256 ==> |r| <= 2
  {
    if v < 16 then
      DigitRoundTrip(v, '0' as int);
      [HexDigit(v)]
    else
      var high := ToHexString(v / 16);
      var low := HexDigit(v % 16);
      DigitRoundTrip(v % 16, low);
      var r := high + [low];
      assert r[..|r| - 1] == high;
      assert v == 16 * (v / 16) + v % 16;
      assert HexValue(r) == 16 * HexValue(high) + DigitValue(low).value;
      assert r[0] == high[0];
      r
  }

  /** The two characters one digest byte contributes: the hexadecimal form
      of `0xff & b`, with a '0' in front when it has a single digit. */
  function ByteHex(b: JByte): (r: JString)
    ensures |r| == 2 && IsHexDigits(r)
    ensures 16 * DigitValue(r[0]).value + DigitValue(r[1]).value == ToUnsigned(b)
  {
    var hex := ToHexString(ToUnsigned(b));
    var r := if |hex| == 1 then ['0' as int] + hex else hex;
    assert r[..1][..0] == [];
    r
  }

  /** The loop of `calculateHash`: each byte's two characters, appended in
      order. */
  function HexEncode(bytes: seq<JByte>): (r: JString)
    ensures |r| == 2 * |bytes|
    ensures IsHexDigits(r)
  {
    if bytes == [] then []
    else HexEncode(bytes[..|bytes| - 1]) + ByteHex(bytes[|bytes| - 1])
  }

  /** Character pair `i` of the encoding is byte `i`'s pair, so reading the
      output two characters at a time gives back the bytes in order. */
  lemma {:induction false} HexEncodePairs(bytes: seq<JByte>, i: int)
    requires 0 <= i < |bytes|
    ensures HexEncode(bytes)[2 * i..2 * i + 2] == ByteHex(bytes[i])
    decreases |bytes|
  {
    var init := bytes[..|bytes| - 1];
    var e, pair := HexEncode(init), ByteHex(bytes[|bytes| - 1]);
    assert HexEncode(bytes) == e + pair;
    if i < |bytes| - 1 {
      HexEncodePairs(init, i);
    }
    PairOfConcat(e, pair, 2 * i);
  }

  /** Two adjacent elements of a concatenation, taken from its left part or
      as the whole right part. */
  lemma PairOfConcat<T>(e: seq<T>, pair: seq<T>, k: int)
    requires 0 <= k && k + 2 <= |e| + |pair| && |pair| == 2
    requires k + 2 <= |e| || k == |e|
    ensures k + 2 <= |e| ==> (e + pair)[k..k + 2] == e[k..k + 2]
    ensures k == |e| ==> (e + pair)[k..k + 2] == pair
  {
  }

  /** Reads a hexadecimal string back two digits per byte; `None` when the
      length is odd or a character is not a lower-case hexadecimal digit. */
  function HexDecode(s: JString): Option<seq<JByte>>
    decreases |s|
  {
    if s == [] then Some([])
    else if |s| == 1 then None
    else
      var hi, lo := DigitValue(s[|s| - 2]), DigitValue(s[|s| - 1]);
      match HexDecode(s[..|s| - 2])
      case None => None
      case Some(init) =>
        if hi.Some? && lo.Some? then Some(init + [FromUnsigned(16 * hi.value + lo.value)])
        else None
  }

  /** Decoding the rendering recovers the digest bytes. */
  lemma {:induction false} HexRoundTrip(bytes: seq<JByte>)
    ensures HexDecode(HexEncode(bytes)) == Some(bytes)
    decreases |bytes|
  {
    if bytes != [] {
      var init, last := bytes[..|bytes| - 1], bytes[|bytes| - 1];
      assert init + [last] == bytes by { SplitLast(bytes); }
      HexRoundTrip(init);
      HexDecodeAppend(HexEncode(init), last);
    }
  }

  lemma SplitLast(bytes: seq<JByte>)
    requires bytes != []
    ensures bytes[..|bytes| - 1] + [bytes[|bytes| - 1]] == bytes
  {
  }

  /** Decoding a rendering extended by one byte's pair extends the decoded
      bytes by that byte. */
  lemma HexDecodeAppend(s: JString, b: JByte)
    ensures HexDecode(s + ByteHex(b))
            == match HexDecode(s) case None => None case Some(init) => Some(init + [b])
  {
  }

  /** Different byte strings never render to the same text. */
  lemma HexEncodeInjective(a: seq<JByte>, b: seq<JByte>)
    requires HexEncode(a) == HexEncode(b)
    ensures a == b
  {
    HexRoundTrip(a);
    HexRoundTrip(b);
  }

  /** The loop of `calculateHash` with its `StringBuilder`. */
  method HexEncodeLoop(bytes: seq<JByte>) returns (hex: JString)
    ensures hex == HexEncode(bytes)
  {
    hex := [];
    var i := 0;
    while i < |bytes|
      invariant 0 <= i <= |bytes|
      invariant hex == HexEncode(bytes[..i])
    {
      var h := ToHexString(ToUnsigned(bytes[i]));
      if |h| == 1 {
        hex := hex + ['0' as int];
      }
      hex := hex + h;
      assert bytes[..i + 1][..i] == bytes[..i];
      i := i + 1;
    }
    assert bytes[..i] == bytes;
  }

  /** The library code a hash goes through, left uninterpreted:
      `operation.toString()`, `String.getBytes(UTF_8)` and
      `MessageDigest.getInstance("SHA-256").digest`. */
  datatype Hashing<!Op> = Hashing(
    render: Op -> JString,
    utf8: JString -> seq<JByte>,
    sha256: seq<JByte> -> Digest)

  /** `dto/Block`. `previousHash` is a Java reference; `None` is `null`. */
  datatype Block<Op> = Block(operation: Op, previousHash: Option<JString>, currentHash: JString)

  /** What string concatenation appends for `previousHash`: the string, or
      the four characters "null" for a null reference, so a null reference
      and the text "null" append the same. */
  function PreviousText(previousHash: Option<JString>): (r: JString)
    ensures previousHash.Some? ==> r == previousHash.value
    ensures r == Units("null") <==> previousHash == None || previousHash == Some(Units("null"))
  {
    match previousHash
    case None => Units("null")
    case Some(h) => h
  }

  /** The text that is hashed: `operation.toString() + previousHash`. */
  function HashContent<Op>(operation: Op, previousHash: Option<JString>, h: Hashing<Op>): JString
  {
    h.render(operation) + PreviousText(previousHash)
  }

  /** `calculateHash`. */
  function CalculateHash<Op>(operation: Op, previousHash: Option<JString>, h: Hashing<Op>): (hash: JString)
    ensures |hash| == 64 && IsHexDigits(hash)
    ensures HexDecode(hash) == Some(h.sha256(h.utf8(HashContent(operation, previousHash, h))))
  {
    var digest := h.sha256(h.utf8(HashContent(operation, previousHash, h)));
    HexRoundTrip(digest);
    HexEncode(digest)
  }

  /** The constructor: stores its arguments and the hash computed from them. */
  function NewBlock<Op>(operation: Op, previousHash: Option<JString>, h: Hashing<Op>): (b: Block<Op>)
    ensures b.operation == operation && b.previousHash == previousHash
    ensures |b.currentHash| == 64 && IsHexDigits(b.currentHash)
    ensures HexDecode(b.currentHash) == Some(h.sha256(h.utf8(HashContent(operation, previousHash, h))))
  {
    Block(operation, previousHash, CalculateHash(operation, previousHash, h))
  }

  /** The hash depends on the hashed text alone: two blocks whose operation
      text and previous hash concatenate to the same string get the same
      hash. */
  lemma HashDependsOnContentOnly<Op>(o1: Op, p1: Option<JString>, o2: Op, p2: Option<JString>, h: Hashing<Op>)
    requires HashContent(o1, p1, h) == HashContent(o2, p2, h)
    ensures NewBlock(o1, p1, h).currentHash == NewBlock(o2, p2, h).currentHash
  {
  }

  /** Two blocks have the same hash exactly when their digests agree. */
  lemma HashMatchesIffDigestsMatch<Op>(o1: Op, p1: Option<JString>, o2: Op, p2: Option<JString>, h: Hashing<Op>)
    ensures NewBlock(o1, p1, h).currentHash == NewBlock(o2, p2, h).currentHash
            <==> h.sha256(h.utf8(HashContent(o1, p1, h))) == h.sha256(h.utf8(HashContent(o2, p2, h)))
  {
  }

  /** A null previous hash hashes like the literal text "null". */
  lemma NullPreviousHashIsTextNull<Op>(operation: Op, h: Hashing<Op>)
    ensures NewBlock(operation, None, h).currentHash
            == NewBlock(operation, Some(Units("null")), h).currentHash
  {
  }
}
