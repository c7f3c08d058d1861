/** RSAES-OAEP as `PKCS1OAepCipher` computes it: EME-OAEP encoding (section 7.1
    of RFC 3447) around textbook RSA. The digest and the mask generation function
    are the ones the cipher object was built with; nothing is assumed of the mask
    but its length. */
module Oaep {
  import opened Bytes
  import opened NumberTheory
  import opened Wrappers

  /** The exceptions `encrypt` and `decrypt` raise, all of them a ValueError. */
  datatype Error = PlaintextTooLong | CiphertextLength | UnequalXor | IncorrectDecryption

  /** The fields of the cipher object. `lHash` is the SHA-1 digest of the label
      whatever the hash object is, while `hLen` is the digest size of that object. */
  datatype Cipher = Cipher(n: nat, e: nat, d: nat, hLen: nat, lHash: bytes, mgf: (bytes, nat) -> bytes)

  ghost predicate Valid(c: Cipher) {
    c.n > 0 && forall seed: bytes, len: nat :: |c.mgf(seed, len)| == len
  }

  // ---------- size of the modulus ----------

  function BitLength(n: nat): nat {
    if n == 0 then 0 else 1 + BitLength(n / 2)
  }

  /** `ceil_div(size(n), 8)` */
  function Size(n: nat): nat {
    (BitLength(n) + 7) / 8
  }

  lemma {:induction false} BitLengthBounds(n: nat)
    requires n > 0
    ensures BitLength(n) >= 1
    ensures Pow(2, BitLength(n) - 1) <= n < Pow(2, BitLength(n))
  {
    if n > 1 {
      BitLengthBounds(n / 2);
    }
  }

  lemma {:induction false} PowMonotone(b: nat, x: nat, y: nat)
    requires b > 0 && x <= y
    ensures Pow(b, x) <= Pow(b, y)
  {
    if x < y {
      PowMonotone(b, x, y - 1);
      MultipleBound(b, Pow(b, y - 1));
    }
  }

  /** The modulus needs exactly Size(n) octets. */
  lemma ModulusOctets(n: nat)
    requires n > 0
    ensures Size(n) >= 1
    ensures Pow(256, Size(n) - 1) <= n < Pow(256, Size(n))
  {
    var bits, k := BitLength(n), Size(n);
    BitLengthBounds(n);
    EightBits();
    PowMul(2, 8, k - 1);
    PowMul(2, 8, k);
    PowMonotone(2, 8 * (k - 1), bits - 1);
    PowMonotone(2, bits, 8 * k);
  }

  // ---------- encryption ----------

  /** The data block: digest, zero padding, a one, and the message. */
  function DataBlock(lHash: bytes, padding: nat, message: bytes): (db: bytes)
    ensures |db| == |lHash| + padding + 1 + |message|
  {
    lHash + Zeros(padding) + [1] + message
  }

  function Encode(c: Cipher, message: bytes, seed: bytes, k: nat): (r: Result<bytes, Error>)
    requires Valid(c) && |seed| == c.hLen
    ensures r.Ok? ==> |r.value| == k >= 1 && r.value[0] == 0
    ensures |c.lHash| == c.hLen ==> (r.Ok? <==> |message| + 2 * c.hLen + 2 <= k)
  {
    if |message| + 2 * c.hLen + 2 > k then
      Err(PlaintextTooLong)
    else
      var db := DataBlock(c.lHash, k - |message| - 2 * c.hLen - 2, message);
      var dbMask := c.mgf(seed, k - c.hLen - 1);
      if |db| != |dbMask| then
        Err(UnequalXor)
      else
        var maskedDb := Xor(db, dbMask);
        Ok([0] + Xor(seed, c.mgf(maskedDb, c.hLen)) + maskedDb)
  }

  /** `encrypt`; the random octets are a parameter. */
  function Encrypt(c: Cipher, message: bytes, seed: bytes): (r: Result<bytes, Error>)
    requires Valid(c) && |seed| == c.hLen
    ensures r.Ok? ==> |r.value| == Size(c.n)
  {
    match Encode(c, message, seed, Size(c.n))
    case Err(error) => Err(error)
    case Ok(em) => Ok(I2osp(PowMod(Os2ip(em), c.e, c.n), Size(c.n)))
  }

  // ---------- decryption ----------

  /** `bytes.find` of one octet. */
  function Find(s: bytes, b: byte): (pos: int)
    ensures -1 <= pos < |s|
    ensures pos >= 0 ==> s[pos] == b && b !in s[..pos]
    ensures pos == -1 ==> b !in s
  {
    if s == [] then -1
    else if s[0] == b then 0
    else
      var rest := Find(s[1..], b);
      if rest == -1 then -1 else rest + 1
  }

  predicate AllZero(s: bytes) {
    forall i :: 0 <= i < |s| ==> s[i] == 0
  }

  lemma AllZeroNext(s: bytes, i: nat)
    requires i < |s|
    ensures AllZero(s[..i + 1]) <==> AllZero(s[..i]) && s[i] == 0
  {
  }

  lemma AllZeroEmpty()
    ensures AllZero([])
  {
  }

  lemma AllZeroIsZeros(s: bytes)
    ensures AllZero(s) <==> s == Zeros(|s|)
  {
  }

  /** Python's s[:n] and s[n:], which never fail. */
  function Take(s: bytes, n: nat): bytes {
    if n <= |s| then s[..n] else s
  }

  function Drop(s: bytes, n: nat): bytes {
    if n <= |s| then s[n..] else []
  }

  lemma DropSlice(s: bytes, i: nat, j: nat)
    requires i <= j <= |s|
    ensures s[i..j] == Drop(s, i)[..j - i]
  {
  }

  function Unmask(c: Cipher, em: bytes): (r: (bytes, bytes))
    requires Valid(c) && |em| >= c.hLen + 2
    ensures |r.0| == c.hLen && |r.1| == |em| - c.hLen - 1
  {
    var maskedSeed, maskedDb := em[1..c.hLen + 1], em[c.hLen + 1..];
    var seed := Xor(maskedSeed, c.mgf(maskedDb, c.hLen));
    (seed, Xor(maskedDb, c.mgf(seed, |em| - c.hLen - 1)))
  }

  /** EME-OAEP decoding, said without the accumulator of the code: the block is
      accepted when every part has the value encoding gives it. */
  function Decode(c: Cipher, em: bytes): Result<bytes, Error>
    requires Valid(c) && |em| >= c.hLen + 2
  {
    var db := Unmask(c, em).1;
    var head, rest := Take(db, c.hLen), Drop(db, c.hLen);
    var pos := Find(rest, 1);
    if |head| != |c.lHash| then Err(UnequalXor)
    else if em[0] == 0 && head == c.lHash && pos >= 0 && AllZero(rest[..pos]) then Ok(rest[pos + 1..])
    else Err(IncorrectDecryption)
  }

  function Decryption(c: Cipher, ciphertext: bytes): Result<bytes, Error>
    requires Valid(c)
  {
    var k := Size(c.n);
    if |ciphertext| != k || k < c.hLen + 2 then Err(CiphertextLength)
    else Decode(c, I2osp(PowMod(Os2ip(ciphertext), c.d, c.n), k))
  }

  /** `decrypt`: the checks of step 3g are all accumulated in one octet, and only
      its final value decides. */
  method Decrypt(c: Cipher, ciphertext: bytes) returns (r: Result<bytes, Error>)
    requires Valid(c)
    ensures r == Decryption(c, ciphertext)
  {
    hide OrByte, Xor, Pow, PowMod, I2osp, Os2ip, Find, Size, AllZero;
    var k := Size(c.n);
    if |ciphertext| != k || k < c.hLen + 2 {
      return Err(CiphertextLength);
    }
    var em := I2osp(PowMod(Os2ip(ciphertext), c.d, c.n), k);
    var y := em[0];
    var maskedSeed := em[1..c.hLen + 1];
    var maskedDb := em[c.hLen + 1..];
    var seedMask := c.mgf(maskedDb, c.hLen);
    var seed := Xor(maskedSeed, seedMask);
    var dbMask := c.mgf(seed, k - c.hLen - 1);
    var db := Xor(maskedDb, dbMask);
    var rest := Drop(db, c.hLen);
    var onePos := c.hLen + Find(rest, 1);
    var lHash1 := Take(db, c.hLen);
    var invalid := OrByte(y, if onePos < c.hLen then 1 else 0);
    if |lHash1| != |c.lHash| {
      return Err(UnequalXor);
    }
    var hashCompare := Xor(lHash1, c.lHash);
    AllZeroEmpty();
    for i := 0 to |hashCompare|
      invariant invalid == 0 <==> y == 0 && onePos >= c.hLen && AllZero(hashCompare[..i])
    {
      invalid := OrByte(invalid, hashCompare[i]);
      AllZeroNext(hashCompare, i);
    }
    XorZero(lHash1, c.lHash);
    assert hashCompare[..|hashCompare|] == hashCompare;
    AllZeroIsZeros(hashCompare);
    var padding := if onePos < c.hLen then [] else db[c.hLen..onePos];
    for i := 0 to |padding|
      invariant invalid == 0 <==> y == 0 && onePos >= c.hLen && lHash1 == c.lHash && AllZero(padding[..i])
    {
      invalid := OrByte(invalid, padding[i]);
      AllZeroNext(padding, i);
    }
    assert padding[..|padding|] == padding;
    if onePos >= c.hLen {
      DropSlice(db, c.hLen, onePos);
    }
    if invalid != 0 {
      return Err(IncorrectDecryption);
    }
    return Ok(db[onePos + 1..]);
  }

  // ---------- encoding and decoding undo each other ----------

  lemma {:induction false} FindAfterZeros(n: nat, message: bytes)
    ensures Find(Zeros(n) + [1] + message, 1) == n
  {
    var s := Zeros(n) + [1] + message;
    if n > 0 {
      assert s[1..] == Zeros(n - 1) + [1] + message;
      FindAfterZeros(n - 1, message);
    }
  }

  lemma SplitDataBlock(lHash: bytes, padding: nat, message: bytes)
    ensures var db := DataBlock(lHash, padding, message);
            var rest := Drop(db, |lHash|);
            && Take(db, |lHash|) == lHash
            && Find(rest, 1) == padding
            && AllZero(rest[..padding])
            && rest[padding + 1..] == message
  {
    FindAfterZeros(padding, message);
    var rest := Drop(DataBlock(lHash, padding, message), |lHash|);
    assert rest == Zeros(padding) + [1] + message;
    assert rest[..padding] == Zeros(padding);
  }

  lemma JoinAt(s: bytes, pos: nat)
    requires pos < |s| && s[pos] == 1
    ensures s == s[..pos] + [1] + s[pos + 1..]
  {
  }

  lemma JoinParts(a: bytes, b: bytes, c: bytes)
    ensures a + (b + [1] + c) == a + b + [1] + c
  {
  }

  lemma JoinDataBlock(db: bytes, lHash: bytes)
    requires Take(db, |lHash|) == lHash
    requires var rest := Drop(db, |lHash|); Find(rest, 1) >= 0 && AllZero(rest[..Find(rest, 1)])
    ensures var rest := Drop(db, |lHash|);
            db == DataBlock(lHash, Find(rest, 1), rest[Find(rest, 1) + 1..])
  {
    var rest := Drop(db, |lHash|);
    var pos := Find(rest, 1);
    AllZeroIsZeros(rest[..pos]);
    hide AllZero, Find;
    JoinAt(rest, pos);
    assert db == lHash + rest;
    JoinParts(lHash, Zeros(pos), rest[pos + 1..]);
  }

  /** Masking is undone by unmasking. */
  lemma UnmaskMask(c: Cipher, seed: bytes, db: bytes)
    requires Valid(c) && |seed| == c.hLen && |db| >= 1
    ensures var maskedDb := Xor(db, c.mgf(seed, |db|));
            Unmask(c, [0] + Xor(seed, c.mgf(maskedDb, c.hLen)) + maskedDb) == (seed, db)
  {
    var maskedDb := Xor(db, c.mgf(seed, |db|));
    var maskedSeed := Xor(seed, c.mgf(maskedDb, c.hLen));
    var em := [0] + maskedSeed + maskedDb;
    assert em[1..c.hLen + 1] == maskedSeed && em[c.hLen + 1..] == maskedDb;
    XorUndo(seed, c.mgf(maskedDb, c.hLen));
    XorUndo(db, c.mgf(seed, |db|));
  }

  lemma MaskUnmask(c: Cipher, em: bytes)
    requires Valid(c) && |em| >= c.hLen + 2 && em[0] == 0
    ensures var (seed, db) := Unmask(c, em);
            var maskedDb := Xor(db, c.mgf(seed, |db|));
            em == [0] + Xor(seed, c.mgf(maskedDb, c.hLen)) + maskedDb
  {
    var maskedSeed, maskedDb := em[1..c.hLen + 1], em[c.hLen + 1..];
    var (seed, db) := Unmask(c, em);
    XorUndo(maskedSeed, c.mgf(maskedDb, c.hLen));
    XorUndo(maskedDb, c.mgf(seed, |db|));
    assert em == [0] + maskedSeed + maskedDb;
  }

  lemma DecodeEncode(c: Cipher, message: bytes, seed: bytes, k: nat)
    requires Valid(c) && |seed| == c.hLen == |c.lHash|
    requires |message| + 2 * c.hLen + 2 <= k
    ensures Decode(c, Encode(c, message, seed, k).value) == Ok(message)
  {
    hide Xor, Unmask;
    var padding := k - |message| - 2 * c.hLen - 2;
    UnmaskMask(c, seed, DataBlock(c.lHash, padding, message));
    SplitDataBlock(c.lHash, padding, message);
  }

  /** Whatever decoding accepts is the encoding of its answer under the seed it
      uncovered: nothing else is let through. */
  lemma EncodeDecode(c: Cipher, em: bytes, message: bytes)
    requires Valid(c) && |c.lHash| == c.hLen && |em| >= c.hLen + 2
    requires Decode(c, em) == Ok(message)
    ensures Encode(c, message, Unmask(c, em).0, |em|) == Ok(em)
  {
    hide Xor, Unmask;
    MaskUnmask(c, em);
    JoinDataBlock(Unmask(c, em).1, c.lHash);
  }

  // ---------- the cipher ----------

  /** The encoded block is an integer below the modulus: its leading octet is zero. */
  lemma EncodedBelowModulus(em: bytes, n: nat)
    requires n > 0 && |em| == Size(n) && em[0] == 0
    ensures Os2ip(em) < n
  {
    ModulusOctets(n);
    assert em == [0] + em[1..];
    Os2ipLeadingZero(em[1..]);
    Os2ipBound(em[1..]);
  }

  lemma EncryptedInteger(c: Cipher, em: bytes)
    requires Valid(c)
    ensures Os2ip(I2osp(PowMod(Os2ip(em), c.e, c.n), Size(c.n))) == PowMod(Os2ip(em), c.e, c.n)
    ensures Os2ip(I2osp(PowMod(Os2ip(em), c.d, c.n), Size(c.n))) == PowMod(Os2ip(em), c.d, c.n)
  {
    ModulusOctets(c.n);
    Os2ipI2osp(PowMod(Os2ip(em), c.e, c.n), Size(c.n));
    Os2ipI2osp(PowMod(Os2ip(em), c.d, c.n), Size(c.n));
  }

  /** Encryption fails exactly on messages that are too long, and whatever it
      produces decrypts to the message it was given. */
  lemma RoundTrip(c: Cipher, message: bytes, seed: bytes)
    requires Valid(c) && KeyPair(c.n, c.e, c.d)
    requires |seed| == c.hLen == |c.lHash|
    ensures Encrypt(c, message, seed).Ok? <==> |message| + 2 * c.hLen + 2 <= Size(c.n)
    ensures var r := Encrypt(c, message, seed);
            r.Ok? ==> Os2ip(r.value) < c.n && Decryption(c, r.value) == Ok(message)
  {
    var k := Size(c.n);
    if |message| + 2 * c.hLen + 2 <= k {
      var em := Encode(c, message, seed, k).value;
      EncodedBelowModulus(em, c.n);
      EncryptedInteger(c, em);
      RsaInverse(Os2ip(em), c.n, c.e, c.d);
      I2ospOs2ip(em);
      DecodeEncode(c, message, seed, k);
    }
  }

  /** The accumulated test accepts precisely the ciphertexts encryption makes: a
      ciphertext below the modulus decrypts to a message if and only if some seed
      encrypts that message to it. */
  lemma AcceptsExactly(c: Cipher, ciphertext: bytes, message: bytes)
    requires Valid(c) && KeyPair(c.n, c.e, c.d) && |c.lHash| == c.hLen
    ensures (Decryption(c, ciphertext) == Ok(message) && Os2ip(ciphertext) < c.n)
       <==> exists seed: bytes :: |seed| == c.hLen && Encrypt(c, message, seed) == Ok(ciphertext)
  {
    if exists seed: bytes :: |seed| == c.hLen && Encrypt(c, message, seed) == Ok(ciphertext) {
      var seed: bytes :| |seed| == c.hLen && Encrypt(c, message, seed) == Ok(ciphertext);
      RoundTrip(c, message, seed);
    }
    if Decryption(c, ciphertext) == Ok(message) && Os2ip(ciphertext) < c.n {
      var em := I2osp(PowMod(Os2ip(ciphertext), c.d, c.n), Size(c.n));
      EncodeDecode(c, em, message);
      EncryptedInteger(c, ciphertext);
      RsaInverse(Os2ip(ciphertext), c.n, c.e, c.d);
      I2ospOs2ip(ciphertext);
      assert Encrypt(c, message, Unmask(c, em).0) == Ok(ciphertext);
    }
  }

  /** The code never compares the ciphertext with the modulus, so a ciphertext
      from the modulus up gives the answer of its remainder. */
  lemma DecryptsTheRemainder(c: Cipher, ciphertext: bytes)
    requires Valid(c) && |ciphertext| == Size(c.n)
    ensures Decryption(c, ciphertext) == Decryption(c, I2osp(Os2ip(ciphertext) % c.n, Size(c.n)))
  {
    ModulusOctets(c.n);
    Os2ipI2osp(Os2ip(ciphertext) % c.n, Size(c.n));
    PowModBase(Os2ip(ciphertext), c.d, c.n);
  }

  /** With a digest size other than that of the label's digest nothing encrypts and
      nothing decrypts: a mask or the digest comparison no longer fits. */
  lemma OtherDigestSize(c: Cipher, message: bytes, seed: bytes, ciphertext: bytes)
    requires Valid(c) && |seed| == c.hLen && |c.lHash| != c.hLen
    ensures Encrypt(c, message, seed).Err?
    ensures Decryption(c, ciphertext).Err?
  {
  }

  // ---------- the block and the errors, said once more in the words of the standard ----------

  /** The block is the digest, zeros, a one and the message. */
  ghost predicate BlockOf(db: bytes, lHash: bytes, message: bytes) {
    var one := |db| - |message| - 1;
    && one >= |lHash| && db[..|lHash|] == lHash
    && (forall i :: |lHash| <= i < one ==> db[i] == 0)
    && db[one] == 1 && db[one + 1..] == message
  }

  /** The encoded message is a zero octet, the seed and the block, the block under the mask
      of the seed and then the seed under the mask of the masked block. */
  ghost predicate WellFormed(c: Cipher, em: bytes, seed: bytes, message: bytes)
    requires Valid(c) && |em| >= c.hLen + 2
  {
    var maskedSeed, maskedDb := em[1..c.hLen + 1], em[c.hLen + 1..];
    && em[0] == 0
    && seed == Xor(maskedSeed, c.mgf(maskedDb, c.hLen))
    && BlockOf(Xor(maskedDb, c.mgf(seed, |em| - c.hLen - 1)), c.lHash, message)
  }

  lemma {:induction false} FirstOne(s: bytes, pos: nat)
    requires pos < |s| && s[pos] == 1 && forall i :: 0 <= i < pos ==> s[i] == 0
    ensures Find(s, 1) == pos
    decreases pos
  {
    if pos > 0 {
      FirstOne(s[1..], pos - 1);
    }
  }

  lemma BlockFound(db: bytes, lHash: bytes, message: bytes)
    requires BlockOf(db, lHash, message)
    ensures var rest := Drop(db, |lHash|);
            && Take(db, |lHash|) == lHash && Find(rest, 1) >= 0 && AllZero(rest[..Find(rest, 1)])
            && rest[Find(rest, 1) + 1..] == message
  {
    hide Find;
    var rest, pos := db[|lHash|..], |db| - |message| - 1 - |lHash|;
    assert forall i :: 0 <= i < pos ==> rest[i] == db[i + |lHash|];
    FirstOne(rest, pos);
    assert rest[pos + 1..] == db[|lHash| + pos + 1..];
  }

  lemma FoundIsBlock(db: bytes, lHash: bytes, message: bytes, pos: nat)
    requires |db| >= |lHash| && db[..|lHash|] == lHash && pos < |db| - |lHash|
    requires db[|lHash|..][pos] == 1 && AllZero(db[|lHash|..][..pos]) && db[|lHash|..][pos + 1..] == message
    ensures BlockOf(db, lHash, message)
  {
    var rest := db[|lHash|..];
    assert |lHash| + pos == |db| - |message| - 1;
    forall i | |lHash| <= i < |lHash| + pos ensures db[i] == 0 {
      assert db[i] == rest[..pos][i - |lHash|];
    }
    assert db[|lHash| + pos + 1..] == rest[pos + 1..];
  }

  lemma FoundBlock(db: bytes, lHash: bytes, message: bytes)
    ensures var rest := Drop(db, |lHash|);
            (Take(db, |lHash|) == lHash && Find(rest, 1) >= 0 && AllZero(rest[..Find(rest, 1)])
             && rest[Find(rest, 1) + 1..] == message)
            <==> BlockOf(db, lHash, message)
  {
    hide Find, AllZero, BlockOf;
    if BlockOf(db, lHash, message) {
      BlockFound(db, lHash, message);
    }
    var rest := Drop(db, |lHash|);
    var pos := Find(rest, 1);
    if Take(db, |lHash|) == lHash && pos >= 0 && AllZero(rest[..pos]) && rest[pos + 1..] == message {
      FoundIsBlock(db, lHash, message, pos);
    }
  }

  /** What decoding accepts. */
  lemma DecodeMeans(c: Cipher, em: bytes, message: bytes)
    requires Valid(c) && |em| >= c.hLen + 2 && |c.lHash| == c.hLen
    ensures Decode(c, em) == Ok(message) <==> WellFormed(c, em, Unmask(c, em).0, message)
  {
    FoundBlock(Unmask(c, em).1, c.lHash, message);
    hide Find, AllZero, BlockOf, Xor;
  }

  /** A ciphertext decrypts to a message exactly when it has the length of the modulus and,
      raised to the private exponent, is a well-formed block with that message. */
  lemma DecryptionMeans(c: Cipher, ciphertext: bytes, message: bytes)
    requires Valid(c) && |c.lHash| == c.hLen
    ensures Decryption(c, ciphertext) == Ok(message)
       <==> && |ciphertext| == Size(c.n) >= c.hLen + 2
            && exists seed: bytes ::
                 WellFormed(c, I2osp(Pow(Os2ip(ciphertext), c.d) % c.n, Size(c.n)), seed, message)
  {
    hide Find, AllZero, BlockOf, Xor, Decode, Size, Pow, Os2ip, I2osp;
    if |ciphertext| == Size(c.n) >= c.hLen + 2 {
      var em := I2osp(PowMod(Os2ip(ciphertext), c.d, c.n), Size(c.n));
      DecodeMeans(c, em, message);
    }
  }

  /** What encryption makes is such a block under the given seed, raised to the public exponent. */
  lemma EncryptionMeans(c: Cipher, message: bytes, seed: bytes) returns (em: bytes)
    requires Valid(c) && |seed| == c.hLen == |c.lHash| && |message| + 2 * c.hLen + 2 <= Size(c.n)
    ensures |em| == Size(c.n) && WellFormed(c, em, seed, message)
    ensures Encrypt(c, message, seed) == Ok(I2osp(Pow(Os2ip(em), c.e) % c.n, Size(c.n)))
  {
    var k := Size(c.n);
    em := Encode(c, message, seed, k).value;
    DecodeEncode(c, message, seed, k);
    DecodeMeans(c, em, message);
    var padding := k - |message| - 2 * c.hLen - 2;
    UnmaskMask(c, seed, DataBlock(c.lHash, padding, message));
  }

  /** When encryption fails, and how. */
  lemma EncryptionErrors(c: Cipher, message: bytes, seed: bytes)
    requires Valid(c) && |seed| == c.hLen
    ensures var r, fits := Encrypt(c, message, seed), |message| + 2 * c.hLen + 2 <= Size(c.n);
            && (r == Err(PlaintextTooLong) <==> !fits)
            && (r == Err(UnequalXor) <==> fits && |c.lHash| != c.hLen)
            && (r.Err? ==> r.error == PlaintextTooLong || r.error == UnequalXor)
  {
  }

  /** When decryption fails, and how; digests of two lengths cannot be compared. */
  lemma DecryptionErrors(c: Cipher, ciphertext: bytes)
    requires Valid(c)
    ensures var r, k := Decryption(c, ciphertext), Size(c.n);
            var whole := |ciphertext| == k && k >= c.hLen + 2;
            var head := if k >= 2 * c.hLen + 1 then c.hLen else k - c.hLen - 1;
            && (r == Err(CiphertextLength) <==> !whole)
            && (r == Err(UnequalXor) <==> whole && |c.lHash| != head)
            && (r.Err? && r.error != CiphertextLength && r.error != UnequalXor ==> r.error == IncorrectDecryption)
  {
    hide Size, Find, AllZero, PowMod, I2osp, Os2ip;
  }
}
