/** The envelope of `libs/rsa.py`: a prefix, an RSA-OAEP encrypted AES key, nonce,
    tag and ciphertext, and the parser that takes them apart by position. */
module HybridEnvelope {
  import opened Bytes
  import opened NumberTheory
  import opened Wrappers
  import Oaep

  /** AES in EAX mode and the text encoding, known by their laws only. */
  datatype Primitives = Primitives(
    seal: (bytes, bytes, bytes) -> (bytes, bytes),
    open: (bytes, bytes, bytes, bytes) -> Option<bytes>,
    encode: string -> bytes,
    decode: bytes -> Option<string>
  )

  predicate AesKeySize(size: nat) {
    size == 16 || size == 24 || size == 32
  }

  ghost predicate OpensExactlySealed(p: Primitives) {
    forall key: bytes, nonce: bytes, text: bytes, tag: bytes, plain: bytes ::
      p.open(key, nonce, text, tag) == Some(plain)
      <==> AesKeySize(|key|) && |nonce| > 0 && p.seal(key, nonce, plain) == (text, tag)
  }

  ghost predicate Laws(p: Primitives) {
    && OpensExactlySealed(p)
    && (forall key: bytes, nonce: bytes, plain: bytes :: |p.seal(key, nonce, plain).1| == 16)
    && (forall b: bytes, t: string :: p.decode(b) == Some(t) <==> p.encode(t) == b)
  }

  datatype Outcome = Text(text: string) | OaepError(error: Oaep.Error) | AeadError | EncodingError

  /** `b"HYBRID:"` */
  const PREFIX_HYBRID: bytes := [72, 89, 66, 82, 73, 68, 58]

  /** `RsaKey.size_in_bytes` */
  function SizeInBytes(n: nat): nat
    requires n > 0
  {
    (Oaep.BitLength(n) - 1) / 8 + 1
  }

  /** The two ways the code counts the octets of the modulus agree. */
  lemma SizesAgree(n: nat)
    requires n > 0
    ensures SizeInBytes(n) == Oaep.Size(n)
  {
  }

  /** `encrypt`; the AES key, the nonce and the OAEP seed are random octets. */
  function Encrypt(c: Oaep.Cipher, p: Primitives, text: string, aesKey: bytes, nonce: bytes, seed: bytes)
      : (r: Result<bytes, Oaep.Error>)
    requires Oaep.Valid(c) && |seed| == c.hLen
  {
    var (ciphertext, tag) := p.seal(aesKey, nonce, p.encode(text));
    match Oaep.Encrypt(c, aesKey, seed)
    case Err(error) => Err(error)
    case Ok(encAesKey) => Ok(PREFIX_HYBRID + (encAesKey + nonce + tag + ciphertext))
  }

  /** Python's s[i:j] for 0 <= i <= j. */
  function Slice(s: bytes, i: nat, j: nat): bytes
    requires i <= j
  {
    Oaep.Drop(Oaep.Take(s, j), i)
  }

  datatype Parts = Parts(encAesKey: bytes, nonce: bytes, tag: bytes, ciphertext: bytes)

  function Parse(body: bytes, k: nat): Parts {
    Parts(Slice(body, 0, k), Slice(body, k, k + 16), Slice(body, k + 16, k + 32), Oaep.Drop(body, k + 32))
  }

  function Decoded(p: Primitives, plain: Option<bytes>): Outcome {
    if plain.None? then AeadError
    else
      match p.decode(plain.value)
      case None => EncodingError
      case Some(text) => Text(text)
  }

  /** `decrypt_token_with_decoding` */
  function Decrypt(c: Oaep.Cipher, p: Primitives, data: bytes): Outcome
    requires Oaep.Valid(c)
  {
    if PREFIX_HYBRID <= data then
      var parts := Parse(data[|PREFIX_HYBRID|..], SizeInBytes(c.n));
      match Oaep.Decryption(c, parts.encAesKey)
      case Err(error) => OaepError(error)
      case Ok(aesKey) => Decoded(p, p.open(aesKey, parts.nonce, parts.ciphertext, parts.tag))
    else
      match Oaep.Decryption(c, data)
      case Err(error) => OaepError(error)
      case Ok(plain) => Decoded(p, Some(plain))
  }

  /** The slices of the parser fall exactly on the seams of the printer. */
  lemma ParseJoined(encAesKey: bytes, nonce: bytes, tag: bytes, ciphertext: bytes)
    requires |nonce| == |tag| == 16
    ensures Parse(encAesKey + nonce + tag + ciphertext, |encAesKey|) == Parts(encAesKey, nonce, tag, ciphertext)
  {
  }

  /** A body with a whole tag is the concatenation of its parts. */
  lemma JoinParsed(body: bytes, k: nat)
    requires |Parse(body, k).tag| == 16
    ensures var parts := Parse(body, k);
            && |parts.encAesKey| == k && |parts.nonce| == 16
            && body == parts.encAesKey + parts.nonce + parts.tag + parts.ciphertext
  {
  }

  /** Encryption fails exactly when the modulus has no room for the AES key, and
      every envelope it makes decrypts to its text. */
  lemma EnvelopeRoundTrip(c: Oaep.Cipher, p: Primitives, text: string, aesKey: bytes, nonce: bytes, seed: bytes)
    requires Oaep.Valid(c) && KeyPair(c.n, c.e, c.d) && Laws(p)
    requires |seed| == c.hLen == |c.lHash| && |aesKey| == |nonce| == 16
    ensures Encrypt(c, p, text, aesKey, nonce, seed).Ok? <==> 2 * c.hLen + 18 <= Oaep.Size(c.n)
    ensures var r := Encrypt(c, p, text, aesKey, nonce, seed);
            r.Ok? ==> Decrypt(c, p, r.value) == Text(text)
  {
    hide KeyPair;
    Oaep.RoundTrip(c, aesKey, seed);
    var r := Encrypt(c, p, text, aesKey, nonce, seed);
    if r.Ok? {
      var (ciphertext, tag) := p.seal(aesKey, nonce, p.encode(text));
      var encAesKey := Oaep.Encrypt(c, aesKey, seed).value;
      hide Oaep.Decryption, Oaep.Encrypt;
      SizesAgree(c.n);
      assert r.value[|PREFIX_HYBRID|..] == encAesKey + nonce + tag + ciphertext;
      ParseJoined(encAesKey, nonce, tag, ciphertext);
      assert p.open(aesKey, nonce, ciphertext, tag) == Some(p.encode(text));
      assert p.decode(p.encode(text)) == Some(text);
    }
  }

  /** The AES key the parser recovers, when it gets that far. */
  function RecoveredKey(c: Oaep.Cipher, data: bytes): Result<bytes, Oaep.Error>
    requires Oaep.Valid(c)
    requires PREFIX_HYBRID <= data
  {
    Oaep.Decryption(c, Parse(data[|PREFIX_HYBRID|..], SizeInBytes(c.n)).encAesKey)
  }

  ghost predicate MadeFrom(c: Oaep.Cipher, p: Primitives, text: string, data: bytes,
                           aesKey: bytes, nonce: bytes, seed: bytes)
    requires Oaep.Valid(c)
  {
    && |aesKey| == |nonce| == 16 && |seed| == c.hLen
    && Encrypt(c, p, text, aesKey, nonce, seed) == Ok(data)
  }

  /** The hybrid branch accepts precisely what `encrypt` makes: prefixed data with
      an RSA block below the modulus and a 16-octet AES key in it decrypts to a text
      if and only if some key, nonce and seed encrypt that text to that data. */
  lemma EnvelopeAcceptsExactly(c: Oaep.Cipher, p: Primitives, text: string, data: bytes)
    requires Oaep.Valid(c) && KeyPair(c.n, c.e, c.d) && Laws(p) && |c.lHash| == c.hLen
    requires PREFIX_HYBRID <= data
    ensures var block := Parse(data[|PREFIX_HYBRID|..], SizeInBytes(c.n)).encAesKey;
            (&& Decrypt(c, p, data) == Text(text)
             && Os2ip(block) < c.n
             && RecoveredKey(c, data).Ok? && |RecoveredKey(c, data).value| == 16)
            <==> exists aesKey: bytes, nonce: bytes, seed: bytes :: MadeFrom(c, p, text, data, aesKey, nonce, seed)
  {
    if exists aesKey: bytes, nonce: bytes, seed: bytes :: MadeFrom(c, p, text, data, aesKey, nonce, seed) {
      var aesKey: bytes, nonce: bytes, seed: bytes :| MadeFrom(c, p, text, data, aesKey, nonce, seed);
      MadeIsAccepted(c, p, text, data, aesKey, nonce, seed);
    }
    var parts := Parse(data[|PREFIX_HYBRID|..], SizeInBytes(c.n));
    if && Decrypt(c, p, data) == Text(text) && Os2ip(parts.encAesKey) < c.n
       && RecoveredKey(c, data).Ok? && |RecoveredKey(c, data).value| == 16 {
      AcceptedIsMade(c, p, text, data);
    }
  }

  lemma MadeIsAccepted(c: Oaep.Cipher, p: Primitives, text: string, data: bytes,
                       aesKey: bytes, nonce: bytes, seed: bytes)
    requires Oaep.Valid(c) && KeyPair(c.n, c.e, c.d) && Laws(p) && |c.lHash| == c.hLen
    requires MadeFrom(c, p, text, data, aesKey, nonce, seed)
    ensures PREFIX_HYBRID <= data && Decrypt(c, p, data) == Text(text)
    ensures Os2ip(Parse(data[|PREFIX_HYBRID|..], SizeInBytes(c.n)).encAesKey) < c.n
    ensures RecoveredKey(c, data) == Ok(aesKey)
  {
    hide KeyPair;
    EnvelopeRoundTrip(c, p, text, aesKey, nonce, seed);
    Oaep.RoundTrip(c, aesKey, seed);
    var (ciphertext, tag) := p.seal(aesKey, nonce, p.encode(text));
    var encAesKey := Oaep.Encrypt(c, aesKey, seed).value;
    hide Oaep.Decryption, Oaep.Encrypt;
    SizesAgree(c.n);
    assert data[|PREFIX_HYBRID|..] == encAesKey + nonce + tag + ciphertext;
    ParseJoined(encAesKey, nonce, tag, ciphertext);
  }

  lemma AcceptedIsMade(c: Oaep.Cipher, p: Primitives, text: string, data: bytes)
    requires Oaep.Valid(c) && KeyPair(c.n, c.e, c.d) && Laws(p) && |c.lHash| == c.hLen
    requires PREFIX_HYBRID <= data && Decrypt(c, p, data) == Text(text)
    requires Os2ip(Parse(data[|PREFIX_HYBRID|..], SizeInBytes(c.n)).encAesKey) < c.n
    requires RecoveredKey(c, data).Ok? && |RecoveredKey(c, data).value| == 16
    ensures exists aesKey: bytes, nonce: bytes, seed: bytes :: MadeFrom(c, p, text, data, aesKey, nonce, seed)
  {
    hide KeyPair, Oaep.Decryption, Oaep.Encrypt;
    var body := data[|PREFIX_HYBRID|..];
    var parts := Parse(body, SizeInBytes(c.n));
    var aesKey := RecoveredKey(c, data).value;
    var plain := p.open(aesKey, parts.nonce, parts.ciphertext, parts.tag).value;
    assert p.seal(aesKey, parts.nonce, plain) == (parts.ciphertext, parts.tag);
    assert p.encode(text) == plain;
    JoinParsed(body, SizeInBytes(c.n));
    Oaep.AcceptsExactly(c, parts.encAesKey, aesKey);
    var seed: bytes :| |seed| == c.hLen && Oaep.Encrypt(c, aesKey, seed) == Ok(parts.encAesKey);
    assert data == PREFIX_HYBRID + body;
    assert MadeFrom(c, p, text, data, aesKey, parts.nonce, seed);
  }

  /** Data from before the envelope is a bare RSA block. It still decrypts, unless
      the block happens to start with the prefix: then, and only then, it is lost. */
  lemma BareBlock(c: Oaep.Cipher, p: Primitives, text: string, seed: bytes)
    requires Oaep.Valid(c) && KeyPair(c.n, c.e, c.d) && Laws(p)
    requires |seed| == c.hLen == |c.lHash|
    requires Oaep.Encrypt(c, p.encode(text), seed).Ok?
    ensures var block := Oaep.Encrypt(c, p.encode(text), seed).value;
            Decrypt(c, p, block) == Text(text) <==> !(PREFIX_HYBRID <= block)
  {
    hide KeyPair;
    Oaep.RoundTrip(c, p.encode(text), seed);
    SizesAgree(c.n);
    assert p.decode(p.encode(text)) == Some(text);
  }

  /** Bare data decrypts to a text if and only if some seed encrypts the text to it; anything
      else raises. */
  lemma BareAcceptsExactly(c: Oaep.Cipher, p: Primitives, text: string, data: bytes)
    requires Oaep.Valid(c) && KeyPair(c.n, c.e, c.d) && Laws(p) && |c.lHash| == c.hLen
    requires !(PREFIX_HYBRID <= data) && Os2ip(data) < c.n
    ensures Decrypt(c, p, data) == Text(text)
       <==> exists seed: bytes :: |seed| == c.hLen && Oaep.Encrypt(c, p.encode(text), seed) == Ok(data)
  {
    hide KeyPair;
    Oaep.AcceptsExactly(c, data, p.encode(text));
    BareOutcome(c, p, data);
    hide Decrypt, Oaep.Encrypt, Oaep.Decryption;
    if Decrypt(c, p, data) == Text(text) {
      assert p.decode(Oaep.Decryption(c, data).value) == Some(text);
    }
    assert p.decode(p.encode(text)) == Some(text);
  }

  /** How bare data ends: with the cipher's error, or decoded. */
  lemma BareOutcome(c: Oaep.Cipher, p: Primitives, data: bytes)
    requires Oaep.Valid(c) && !(PREFIX_HYBRID <= data)
    ensures match Oaep.Decryption(c, data)
            case Err(error) => Decrypt(c, p, data) == OaepError(error)
            case Ok(plain) =>
              if p.decode(plain).Some? then Decrypt(c, p, data) == Text(p.decode(plain).value)
              else Decrypt(c, p, data) == EncodingError
  {
  }

  /** Bare data of any other length than the modulus never gives a text. */
  lemma BareLength(c: Oaep.Cipher, p: Primitives, data: bytes)
    requires Oaep.Valid(c) && !(PREFIX_HYBRID <= data) && |data| != Oaep.Size(c.n)
    ensures Decrypt(c, p, data) == OaepError(Oaep.CiphertextLength)
  {
    BareOutcome(c, p, data);
  }

  /** How an envelope with all its parts ends: the cipher's error for the block after the
      seven octets of the prefix; an AEAD error if what follows does not open; and otherwise
      decoded. */
  lemma EnvelopeOutcome(c: Oaep.Cipher, p: Primitives, data: bytes)
    requires Oaep.Valid(c) && [72, 89, 66, 82, 73, 68, 58] <= data
    requires |data| >= 7 + Oaep.Size(c.n) + 32
    ensures var k := Oaep.Size(c.n);
            match Oaep.Decryption(c, data[7..7 + k])
            case Err(error) => Decrypt(c, p, data) == OaepError(error)
            case Ok(aesKey) =>
              match p.open(aesKey, data[7 + k..7 + k + 16], data[7 + k + 32..], data[7 + k + 16..7 + k + 32])
              case None => Decrypt(c, p, data) == AeadError
              case Some(plain) =>
                if p.decode(plain).Some? then Decrypt(c, p, data) == Text(p.decode(plain).value)
                else Decrypt(c, p, data) == EncodingError
  {
    var k, body := Oaep.Size(c.n), data[7..];
    SizesAgree(c.n);
    assert body[..k] == data[7..7 + k];
    assert body[..k + 16][k..] == data[7 + k..7 + k + 16];
    assert body[..k + 32][k + 16..] == data[7 + k + 16..7 + k + 32];
    assert body[k + 32..] == data[7 + k + 32..];
    hide Oaep.Decryption, Oaep.Size, SizeInBytes;
  }

  /** An envelope cut short ends in an error, never in a text. */
  lemma CutShort(c: Oaep.Cipher, p: Primitives, data: bytes)
    requires Oaep.Valid(c) && Laws(p) && [72, 89, 66, 82, 73, 68, 58] <= data && |data| < 7 + Oaep.Size(c.n) + 32
    ensures if |data| < 7 + Oaep.Size(c.n) then Decrypt(c, p, data) == OaepError(Oaep.CiphertextLength)
            else Decrypt(c, p, data).OaepError? || Decrypt(c, p, data).AeadError?
  {
    hide Oaep.Size, SizeInBytes, Laws;
    SizesAgree(c.n);
    var body, k := data[7..], Oaep.Size(c.n);
    var parts := Parse(body, k);
    if |data| < 7 + k {
      assert |parts.encAesKey| < k;
      BlockLength(c, parts.encAesKey);
      hide Oaep.Decryption;
    } else {
      assert |parts.tag| < 16;
      hide Oaep.Decryption;
      if Oaep.Decryption(c, parts.encAesKey).Ok? {
        ShortTag(p, Oaep.Decryption(c, parts.encAesKey).value, parts.nonce, parts.ciphertext, parts.tag);
      }
    }
  }

  lemma BlockLength(c: Oaep.Cipher, block: bytes)
    requires Oaep.Valid(c) && |block| != Oaep.Size(c.n)
    ensures Oaep.Decryption(c, block) == Err(Oaep.CiphertextLength)
  {
  }

  lemma ShortTag(p: Primitives, key: bytes, nonce: bytes, text: bytes, tag: bytes)
    requires Laws(p)
    ensures p.open(key, nonce, text, tag).Some? ==> |tag| == 16
  {
    if p.open(key, nonce, text, tag).Some? {
      var plain := p.open(key, nonce, text, tag).value;
      assert |p.seal(key, nonce, plain).1| == 16;
    }
  }

  lemma Seams(prefix: bytes, block: bytes, nonce: bytes, tag: bytes, ciphertext: bytes)
    requires |prefix| == 7 && |nonce| == |tag| == 16
    ensures var data, k := prefix + (block + nonce + tag + ciphertext), |block|;
            && data[..7] == prefix && data[7..7 + k] == block && data[7 + k..7 + k + 16] == nonce
            && data[7 + k + 16..7 + k + 32] == tag && data[7 + k + 32..] == ciphertext
  {
  }

  /** What an envelope consists of, octet by octet. */
  lemma EnvelopeLayout(c: Oaep.Cipher, p: Primitives, text: string, aesKey: bytes, nonce: bytes, seed: bytes)
    requires Oaep.Valid(c) && Laws(p) && |seed| == c.hLen && |nonce| == 16
    ensures Encrypt(c, p, text, aesKey, nonce, seed).Err? <==> Oaep.Encrypt(c, aesKey, seed).Err?
    ensures var r, k := Encrypt(c, p, text, aesKey, nonce, seed), Oaep.Size(c.n);
            var sealed := p.seal(aesKey, nonce, p.encode(text));
            r.Ok? ==>
              && |r.value| == 7 + k + 32 + |sealed.0|
              && r.value[..7] == [72, 89, 66, 82, 73, 68, 58]
              && Oaep.Encrypt(c, aesKey, seed) == Ok(r.value[7..7 + k])
              && r.value[7 + k..7 + k + 16] == nonce
              && r.value[7 + k + 16..7 + k + 32] == sealed.1
              && r.value[7 + k + 32..] == sealed.0
  {
    hide Oaep.Encrypt, Oaep.Size;
    var block := Oaep.Encrypt(c, aesKey, seed);
    var (ciphertext, tag) := p.seal(aesKey, nonce, p.encode(text));
    if block.Ok? {
      assert |p.seal(aesKey, nonce, p.encode(text)).1| == 16;
      Seams(PREFIX_HYBRID, block.value, nonce, tag, ciphertext);
    }
  }
}
