/** Decrypting a provider password: CBC mode (section 6.2 of NIST SP 800-38A) over an abstract block cipher,
    then removing PKCS#7 padding (section 6.3 of RFC 5652). */
module Padding {
  import opened Wrappers

  type Byte = x: int | 0 <= x < 256

  type Bytes = seq<Byte>

  const BLOCK_SIZE := 16

  datatype Result =
    Plain(bytes: Bytes) | TooShort | BadKey | NotAligned | BadPaddingSize | BadPadding | BadPaddingContent

  // ---------- Padding ----------

  lemma MultipleIsFar(k: int, blockSize: int)
    requires blockSize > 0 && k != 0
    ensures k * blockSize >= blockSize || k * blockSize <= -blockSize
  {
  }

  /** The only padding length from 1 to the block size that aligns a message of this length. */
  lemma AlignedExactly(length: nat, n: int, blockSize: int)
    requires 1 <= n <= blockSize
    ensures (length + n) % blockSize == 0 <==> n == blockSize - length % blockSize
  {
    var q, r := length / blockSize, length % blockSize;
    var t, m := (length + n) / blockSize, (length + n) % blockSize;
    assert length == q * blockSize + r && length + n == t * blockSize + m;
    assert (t - q - 1) * blockSize == t * blockSize - q * blockSize - blockSize;
    if (m == 0 || n == blockSize - r) && t - q - 1 != 0 {
      MultipleIsFar(t - q - 1, blockSize);
      assert false;
    }
  }

  /** How many bytes pad the message to a multiple of the block size. */
  function PadLength(message: Bytes, blockSize: int): (n: int)
    requires 1 <= blockSize <= 255
    ensures 1 <= n <= blockSize && (|message| + n) % blockSize == 0
  {
    AlignedExactly(|message|, blockSize - |message| % blockSize, blockSize);
    blockSize - |message| % blockSize
  }

  function Repeat(b: Byte, n: nat): (r: Bytes)
    ensures |r| == n && forall i :: 0 <= i < n ==> r[i] == b
  {
    seq(n, i => b)
  }

  /** The message followed by n bytes of value n. */
  function Padded(message: Bytes, blockSize: int): Bytes
    requires 1 <= blockSize <= 255
  {
    var n := PadLength(message, blockSize);
    message + Repeat(n, n)
  }

  function Unpadded(data: Bytes, blockSize: int): Result
    requires blockSize > 0
  {
    if |data| == 0 || |data| % blockSize != 0 then BadPaddingSize
    else
      var pad := data[|data| - 1];
      if pad == 0 || pad > blockSize || pad > |data| then BadPadding
      else if exists i :: |data| - pad <= i < |data| && data[i] != pad then BadPaddingContent
      else Plain(data[..|data| - pad])
  }

  method PKCS7Unpad(data: Bytes, blockSize: int) returns (r: Result)
    requires blockSize > 0
    ensures r == Unpadded(data, blockSize)
  {
    if |data| == 0 || |data| % blockSize != 0 {
      return BadPaddingSize;
    }
    var pad := data[|data| - 1];
    if pad == 0 || pad > blockSize || pad > |data| {
      return BadPadding;
    }
    for i := |data| - pad to |data|
      invariant forall k :: |data| - pad <= k < i ==> data[k] == pad
    {
      if data[i] != pad {
        return BadPaddingContent;
      }
    }
    r := Plain(data[..|data| - pad]);
  }

  /** Unpadding inverts padding. */
  lemma UnpadPadded(message: Bytes, blockSize: int)
    requires 1 <= blockSize <= 255
    ensures Unpadded(Padded(message, blockSize), blockSize) == Plain(message)
  {
  }

  /** What unpadding accepts is the padding of what it returns. */
  lemma PadUnpadded(data: Bytes, blockSize: int)
    requires 1 <= blockSize <= 255 && Unpadded(data, blockSize).Plain?
    ensures Padded(Unpadded(data, blockSize).bytes, blockSize) == data
  {
    var pad := data[|data| - 1];
    var message := Unpadded(data, blockSize).bytes;
    AlignedExactly(|message|, pad, blockSize);
    assert PadLength(message, blockSize) == pad;
    assert Repeat(pad, pad) == data[|message|..];
    assert data == message + data[|message|..];
  }

  /** Unpadding succeeds exactly on the paddings of messages, and returns the message. */
  lemma UnpadMeaning(data: Bytes, blockSize: int, message: Bytes)
    requires 1 <= blockSize <= 255
    ensures Unpadded(data, blockSize) == Plain(message) <==> data == Padded(message, blockSize)
  {
    UnpadPadded(message, blockSize);
    if Unpadded(data, blockSize) == Plain(message) {
      PadUnpadded(data, blockSize);
    }
  }

  /** Which check fails: no positive number of whole blocks; a last byte that is no padding length; or padding bytes
      that differ from it. The comparison of the padding length with the data's length never decides. */
  lemma UnpadErrors(data: Bytes, blockSize: int)
    requires blockSize > 0
    ensures var r := Unpadded(data, blockSize);
            && (r == BadPaddingSize <==> data == [] || |data| % blockSize != 0)
            && (r == BadPadding <==>
                  data != [] && |data| % blockSize == 0 && !(1 <= data[|data| - 1] <= blockSize))
            && (r == BadPaddingContent <==>
                  data != [] && |data| % blockSize == 0 && 1 <= data[|data| - 1] <= blockSize <= |data|
                  && exists i :: |data| - data[|data| - 1] <= i < |data| && data[i] != data[|data| - 1])
  {
    if data != [] && |data| % blockSize == 0 {
      WholeBlocks(|data|, blockSize);
    }
  }

  lemma WholeBlocks(length: nat, blockSize: int)
    requires blockSize > 0 && length > 0 && length % blockSize == 0
    ensures length >= blockSize
  {
  }

  // ---------- CBC ----------

  /** A block cipher under one key. */
  datatype Cipher = Cipher(encrypt: Bytes -> Bytes, decrypt: Bytes -> Bytes)
  {
    ghost predicate Valid() {
      && (forall b {:trigger encrypt(b)} :: |b| == BLOCK_SIZE ==>
            |encrypt(b)| == BLOCK_SIZE && decrypt(encrypt(b)) == b)
      && (forall b {:trigger decrypt(b)} :: |b| == BLOCK_SIZE ==> |decrypt(b)| == BLOCK_SIZE)
    }
  }

  function Pow2(n: nat): (p: nat)
    ensures p >= 1
  {
    if n == 0 then 1 else 2 * Pow2(n - 1)
  }

  /** Bitwise exclusive or of the low `n` bits. */
  function XorBits(n: nat, a: nat, b: nat): (r: nat)
    ensures r < Pow2(n)
  {
    if n == 0 then 0 else 2 * XorBits(n - 1, a / 2, b / 2) + (a + b) % 2
  }

  lemma BitTwice(a: nat, b: nat, h: nat)
    ensures (2 * h + (a + b) % 2) / 2 == h
    ensures (2 * h + (a + b) % 2 + b) % 2 == a % 2
  {
  }

  lemma {:induction false} XorBitsTwice(n: nat, a: nat, b: nat)
    requires a < Pow2(n)
    ensures XorBits(n, XorBits(n, a, b), b) == a
  {
    if n == 0 {
    } else {
      XorBitsTwice(n - 1, a / 2, b / 2);
      BitTwice(a, b, XorBits(n - 1, a / 2, b / 2));
    }
  }

  lemma EightBits()
    ensures Pow2(8) == 256
  {
  }

  function XorByte(a: Byte, b: Byte): Byte {
    EightBits();
    XorBits(8, a, b)
  }

  lemma XorByteTwice(a: Byte, b: Byte)
    ensures XorByte(XorByte(a, b), b) == a
  {
    EightBits();
    XorBitsTwice(8, a, b);
  }

  /** Bit `k`, counted from the lowest. */
  function Bit(x: nat, k: nat): nat {
    (x / Pow2(k)) % 2
  }

  lemma NextBit(x: nat, k: nat)
    requires k > 0
    ensures Bit(x, k) == Bit(x / 2, k - 1)
  {
    HalfThenDivide(x, Pow2(k - 1));
  }

  lemma HalfThenDivide(x: nat, d: nat)
    requires d > 0
    ensures x / (2 * d) == (x / 2) / d
  {
    var q, r := (x / 2) / d, (x / 2) % d;
    assert x / 2 == q * d + r;
    var rest := 2 * r + x % 2;
    assert x == q * (2 * d) + rest && 0 <= rest < 2 * d;
    QuotientIs(x, 2 * d, q, rest);
  }

  lemma QuotientIs(x: nat, d: nat, q: nat, r: nat)
    requires r < d && x == q * d + r
    ensures x / d == q
  {
    var t := x / d;
    assert x == t * d + x % d;
    assert (t - q) * d == r - x % d;
    if t != q {
      MultipleIsFar(t - q, d);
      assert false;
    }
  }

  lemma {:induction false} XorBitsMeaning(n: nat, a: nat, b: nat, k: nat)
    requires k < n
    ensures Bit(XorBits(n, a, b), k) == (Bit(a, k) + Bit(b, k)) % 2
  {
    var h := XorBits(n - 1, a / 2, b / 2);
    BitTwice(a, b, h);
    if k == 0 {
    } else {
      XorBitsMeaning(n - 1, a / 2, b / 2, k - 1);
      NextBit(XorBits(n, a, b), k);
      NextBit(a, k);
      NextBit(b, k);
    }
  }

  /** Each bit of the result is set exactly when one of the two bits is set and the other is not. */
  lemma XorByteMeaning(a: Byte, b: Byte, k: nat)
    requires k < 8
    ensures Bit(XorByte(a, b), k) == 1 <==> Bit(a, k) != Bit(b, k)
  {
    XorBitsMeaning(8, a, b, k);
  }

  function Xor(a: Bytes, b: Bytes): (r: Bytes)
    ensures |r| == |a| && forall i :: 0 <= i < |a| ==> r[i] == if i < |b| then XorByte(a[i], b[i]) else a[i]
  {
    seq(|a|, i requires 0 <= i < |a| => if i < |b| then XorByte(a[i], b[i]) else a[i])
  }

  lemma XorTwice(a: Bytes, b: Bytes)
    requires |a| == |b|
    ensures Xor(Xor(a, b), b) == a
  {
    forall i | 0 <= i < |a| ensures Xor(Xor(a, b), b)[i] == a[i] {
      XorByteTwice(a[i], b[i]);
    }
  }

  predicate AlignedLength(k: int) {
    k % BLOCK_SIZE == 0
  }

  lemma OneBlockLess(k: int)
    requires AlignedLength(k) && k > 0
    ensures k >= BLOCK_SIZE && AlignedLength(k - BLOCK_SIZE)
  {
  }

  /** The plaintext of an IV followed by ciphertext blocks. */
  function Decrypted(cipher: Cipher, raw: Bytes): Bytes {
    if |raw| < 2 * BLOCK_SIZE then []
    else
      var k := |raw| - BLOCK_SIZE;
      Decrypted(cipher, raw[..k]) + Xor(cipher.decrypt(raw[k..]), raw[k - BLOCK_SIZE..k])
  }

  /** The IV followed by the ciphertext blocks of an aligned plaintext. */
  function Encrypted(cipher: Cipher, iv: Bytes, plain: Bytes): Bytes
    requires |iv| == BLOCK_SIZE && AlignedLength(|plain|)
  {
    if plain == [] then iv
    else
      OneBlockLess(|plain|);
      var k := |plain| - BLOCK_SIZE;
      var raw := Encrypted(cipher, iv, plain[..k]);
      var previous := if |raw| >= BLOCK_SIZE then raw[|raw| - BLOCK_SIZE..] else raw;
      raw + cipher.encrypt(Xor(plain[k..], previous))
  }

  lemma {:induction false} EncryptedLength(cipher: Cipher, iv: Bytes, plain: Bytes)
    requires cipher.Valid() && |iv| == BLOCK_SIZE && AlignedLength(|plain|)
    ensures |Encrypted(cipher, iv, plain)| == |plain| + BLOCK_SIZE
  {
    if plain == [] {
    } else {
      OneBlockLess(|plain|);
      EncryptedLength(cipher, iv, plain[..|plain| - BLOCK_SIZE]);
    }
  }

  lemma DecryptAppended(cipher: Cipher, raw: Bytes, block: Bytes)
    requires |raw| >= BLOCK_SIZE && |block| == BLOCK_SIZE
    ensures Decrypted(cipher, raw + block) ==
            Decrypted(cipher, raw) + Xor(cipher.decrypt(block), raw[|raw| - BLOCK_SIZE..])
  {
  }

  /** CBC decryption inverts CBC encryption. */
  lemma {:induction false} DecryptEncrypted(cipher: Cipher, iv: Bytes, plain: Bytes)
    requires cipher.Valid() && |iv| == BLOCK_SIZE && AlignedLength(|plain|)
    ensures Decrypted(cipher, Encrypted(cipher, iv, plain)) == plain
  {
    if plain == [] {
    } else {
      OneBlockLess(|plain|);
      var k := |plain| - BLOCK_SIZE;
      var init, last := plain[..k], plain[k..];
      EncryptedLength(cipher, iv, init);
      DecryptEncrypted(cipher, iv, init);
      var raw := Encrypted(cipher, iv, init);
      var previous := raw[|raw| - BLOCK_SIZE..];
      DecryptAppended(cipher, raw, cipher.encrypt(Xor(last, previous)));
      XorTwice(last, previous);
      assert plain == init + last;
    }
  }

  lemma DecryptedBlock(cipher: Cipher, was: Bytes, k: int)
    requires 2 * BLOCK_SIZE <= k <= |was|
    ensures Decrypted(cipher, was[..k]) == Decrypted(cipher, was[..k - BLOCK_SIZE])
              + Xor(cipher.decrypt(was[k - BLOCK_SIZE..k]), was[k - 2 * BLOCK_SIZE..k - BLOCK_SIZE])
  {
    var raw := was[..k];
    assert raw[..k - BLOCK_SIZE] == was[..k - BLOCK_SIZE];
    assert raw[k - BLOCK_SIZE..] == was[k - BLOCK_SIZE..k];
    assert raw[k - 2 * BLOCK_SIZE..k - BLOCK_SIZE] == was[k - 2 * BLOCK_SIZE..k - BLOCK_SIZE];
  }

  lemma FullBlock(i: nat, length: nat)
    requires i < length && AlignedLength(length + BLOCK_SIZE)
    ensures i - i % BLOCK_SIZE + BLOCK_SIZE <= length
  {
  }

  lemma {:induction false} DecryptedLength(cipher: Cipher, raw: Bytes)
    requires cipher.Valid() && |raw| >= BLOCK_SIZE && AlignedLength(|raw|)
    ensures |Decrypted(cipher, raw)| == |raw| - BLOCK_SIZE
  {
    if |raw| < 2 * BLOCK_SIZE {
    } else {
      DecryptedLength(cipher, raw[..|raw| - BLOCK_SIZE]);
    }
  }

  /** The ciphertext block that holds the plaintext byte `i`, decrypted. */
  function DecryptedAround(cipher: Cipher, raw: Bytes, i: nat): (r: Bytes)
    requires cipher.Valid() && AlignedLength(|raw|) && i + BLOCK_SIZE < |raw|
    ensures |r| == BLOCK_SIZE
  {
    var at := i - i % BLOCK_SIZE + BLOCK_SIZE;
    FullBlock(i, |raw| - BLOCK_SIZE);
    cipher.decrypt(raw[at..at + BLOCK_SIZE])
  }

  lemma AroundPrefix(cipher: Cipher, raw: Bytes, k: nat, i: nat)
    requires cipher.Valid() && AlignedLength(|raw|) && AlignedLength(k) && i + BLOCK_SIZE < k <= |raw|
    ensures DecryptedAround(cipher, raw[..k], i) == DecryptedAround(cipher, raw, i)
  {
    var at := i - i % BLOCK_SIZE + BLOCK_SIZE;
    FullBlock(i, k - BLOCK_SIZE);
    assert raw[..k][at..at + BLOCK_SIZE] == raw[at..at + BLOCK_SIZE];
  }

  lemma LastBlock(i: nat, k: nat)
    requires AlignedLength(k) && k <= i + BLOCK_SIZE < k + BLOCK_SIZE
    ensures i - i % BLOCK_SIZE + BLOCK_SIZE == k && i % BLOCK_SIZE == i + BLOCK_SIZE - k
  {
  }

  lemma ByteOfLast(cipher: Cipher, raw: Bytes, i: nat)
    requires cipher.Valid() && AlignedLength(|raw|) && |raw| - BLOCK_SIZE <= i + BLOCK_SIZE < |raw|
    ensures |Decrypted(cipher, raw)| == |raw| - BLOCK_SIZE
    ensures Decrypted(cipher, raw)[i] == XorByte(DecryptedAround(cipher, raw, i)[i % BLOCK_SIZE], raw[i])
  {
    var k := |raw| - BLOCK_SIZE;
    OneBlockLess(|raw|);
    DecryptedLength(cipher, raw[..k]);
    LastBlock(i, k);
    assert raw[k..k + BLOCK_SIZE] == raw[k..];
    var block := Xor(cipher.decrypt(raw[k..]), raw[k - BLOCK_SIZE..k]);
    assert Decrypted(cipher, raw) == Decrypted(cipher, raw[..k]) + block;
    assert Decrypted(cipher, raw)[i] == block[i + BLOCK_SIZE - k];
  }

  lemma ByteBeforeLast(cipher: Cipher, raw: Bytes, i: nat)
    requires cipher.Valid() && AlignedLength(|raw|) && i + BLOCK_SIZE < |raw| - BLOCK_SIZE
    ensures var init := raw[..|raw| - BLOCK_SIZE];
            && AlignedLength(|init|) && i < |Decrypted(cipher, init)| <= |Decrypted(cipher, raw)|
            && Decrypted(cipher, raw)[i] == Decrypted(cipher, init)[i]
            && DecryptedAround(cipher, init, i) == DecryptedAround(cipher, raw, i)
  {
    var k := |raw| - BLOCK_SIZE;
    OneBlockLess(|raw|);
    DecryptedLength(cipher, raw[..k]);
    AroundPrefix(cipher, raw, k, i);
  }

  lemma {:induction false} PlainByte(cipher: Cipher, raw: Bytes, i: nat)
    requires cipher.Valid() && AlignedLength(|raw|) && i + BLOCK_SIZE < |raw|
    ensures i < |Decrypted(cipher, raw)|
    ensures Decrypted(cipher, raw)[i] == XorByte(DecryptedAround(cipher, raw, i)[i % BLOCK_SIZE], raw[i])
  {
    if i + BLOCK_SIZE >= |raw| - BLOCK_SIZE {
      ByteOfLast(cipher, raw, i);
    } else {
      ByteBeforeLast(cipher, raw, i);
      PlainByte(cipher, raw[..|raw| - BLOCK_SIZE], i);
    }
  }

  /** Plaintext byte `i`, bit by bit: set exactly when the bit of the decrypted ciphertext block differs from the bit
      one block earlier, which for the first block is the IV. */
  ghost predicate PlainBits(cipher: Cipher, raw: Bytes, plain: Bytes, i: nat)
    requires cipher.Valid() && AlignedLength(|raw|) && i < |plain| && |plain| + BLOCK_SIZE == |raw|
  {
    forall bit: nat :: bit < 8 ==>
      (Bit(plain[i], bit) == 1 <==> Bit(DecryptedAround(cipher, raw, i)[i % BLOCK_SIZE], bit) != Bit(raw[i], bit))
  }

  lemma DecryptedBits(cipher: Cipher, raw: Bytes, i: nat)
    requires cipher.Valid() && AlignedLength(|raw|) && i + BLOCK_SIZE < |raw|
    ensures |Decrypted(cipher, raw)| + BLOCK_SIZE == |raw| && PlainBits(cipher, raw, Decrypted(cipher, raw), i)
  {
    DecryptedLength(cipher, raw);
    PlainByte(cipher, raw, i);
    forall bit: nat | bit < 8
      ensures Bit(Decrypted(cipher, raw)[i], bit) == 1 <==>
              Bit(DecryptedAround(cipher, raw, i)[i % BLOCK_SIZE], bit) != Bit(raw[i], bit)
    {
      XorByteMeaning(DecryptedAround(cipher, raw, i)[i % BLOCK_SIZE], raw[i], bit);
    }
  }

  method Overwrite(raw: array<Byte>, at: nat, bytes: Bytes)
    requires at + |bytes| <= raw.Length
    modifies raw
    ensures raw[..at] == old(raw[..at]) && raw[at..at + |bytes|] == bytes
    ensures raw[at + |bytes|..] == old(raw[at + |bytes|..])
  {
    forall j | 0 <= j < |bytes| {
      raw[at + j] := bytes[j];
    }
  }

  /** How far an in-place decryption has come: the first `k` bytes are untouched, the rest is plaintext. */
  ghost predicate DecryptedDownTo(cipher: Cipher, was: Bytes, now: Bytes, k: int) {
    && BLOCK_SIZE <= k <= |was| == |now| && now[..k] == was[..k]
    && Decrypted(cipher, was) == Decrypted(cipher, was[..k]) + now[k..]
  }

  lemma Regroup(whole: Bytes, front: Bytes, front': Bytes, block: Bytes, back: Bytes)
    requires whole == front + back && front == front' + block
    ensures whole == front' + (block + back)
  {
  }

  lemma DecryptedFurther(cipher: Cipher, was: Bytes, now: Bytes, next: Bytes, k: int)
    requires DecryptedDownTo(cipher, was, now, k) && k >= 2 * BLOCK_SIZE && |next| == |now|
    requires next[..k - BLOCK_SIZE] == was[..k - BLOCK_SIZE]
    requires next[k - BLOCK_SIZE..] ==
             Xor(cipher.decrypt(was[k - BLOCK_SIZE..k]), was[k - 2 * BLOCK_SIZE..k - BLOCK_SIZE]) + now[k..]
    ensures DecryptedDownTo(cipher, was, next, k - BLOCK_SIZE)
  {
    DecryptedBlock(cipher, was, k);
    Regroup(Decrypted(cipher, was), Decrypted(cipher, was[..k]), Decrypted(cipher, was[..k - BLOCK_SIZE]),
            Xor(cipher.decrypt(was[k - BLOCK_SIZE..k]), was[k - 2 * BLOCK_SIZE..k - BLOCK_SIZE]), now[k..]);
  }

  lemma DecryptedAll(cipher: Cipher, was: Bytes, now: Bytes)
    requires DecryptedDownTo(cipher, was, now, BLOCK_SIZE)
    ensures now == was[..BLOCK_SIZE] + Decrypted(cipher, was)
  {
  }

  lemma DecryptedNone(cipher: Cipher, was: Bytes)
    requires |was| >= BLOCK_SIZE
    ensures DecryptedDownTo(cipher, was, was, |was|)
  {
    assert was[..|was|] == was && was[|was|..] == [];
  }

  /** Decrypts the blocks after the IV in place, last block first. */
  method CryptBlocks(cipher: Cipher, raw: array<Byte>)
    requires cipher.Valid() && raw.Length >= BLOCK_SIZE && AlignedLength(raw.Length)
    modifies raw
    ensures raw[..] == old(raw[..])[..BLOCK_SIZE] + Decrypted(cipher, old(raw[..]))
    ensures forall i: nat :: i + BLOCK_SIZE < raw.Length ==>
              PlainBits(cipher, old(raw[..]), raw[BLOCK_SIZE..], i)
  {
    ghost var was := raw[..];
    var k := raw.Length;
    DecryptedNone(cipher, was);
    while k > BLOCK_SIZE
      invariant AlignedLength(k) && DecryptedDownTo(cipher, was, raw[..], k)
    {
      OneBlockLess(k);
      OneBlockLess(k - BLOCK_SIZE);
      PreviousBlock(cipher, raw, k, was);
      k := k - BLOCK_SIZE;
    }
    DecryptedAll(cipher, was, raw[..]);
    DecryptedLength(cipher, was);
    assert raw[BLOCK_SIZE..] == raw[..][BLOCK_SIZE..] == Decrypted(cipher, was);
    forall i: nat | i + BLOCK_SIZE < raw.Length ensures PlainBits(cipher, was, raw[BLOCK_SIZE..], i) {
      DecryptedBits(cipher, was, i);
    }
  }

  lemma SamePiece(a: Bytes, b: Bytes, k: nat, i: nat, j: nat)
    requires i <= j <= k <= |a| == |b| && a[..k] == b[..k]
    ensures a[i..j] == b[i..j]
  {
    assert a[i..j] == a[..k][i..j] && b[i..j] == b[..k][i..j];
  }

  method PreviousBlock(cipher: Cipher, raw: array<Byte>, k: nat, ghost was: Bytes)
    requires cipher.Valid() && k >= 2 * BLOCK_SIZE && DecryptedDownTo(cipher, was, raw[..], k)
    modifies raw
    ensures DecryptedDownTo(cipher, was, raw[..], k - BLOCK_SIZE)
  {
    ghost var now := raw[..];
    var lo := k - BLOCK_SIZE;
    SamePiece(now, was, k, lo, k);
    SamePiece(now, was, k, lo - BLOCK_SIZE, lo);
    SamePiece(now, was, k, 0, lo);
    var plain := Xor(cipher.decrypt(raw[lo..k]), raw[lo - BLOCK_SIZE..lo]);
    Overwrite(raw, lo, plain);
    assert raw[..][..lo] == now[..lo] && raw[..][lo..] == plain + now[k..];
    DecryptedFurther(cipher, was, now, raw[..], k);
  }

  // ---------- The whole decryption ----------

  /** What decrypting IV + ciphertext gives; `None` stands for a key the cipher rejects. */
  function DecryptResult(raw: Bytes, cipher: Option<Cipher>): Result {
    if |raw| < BLOCK_SIZE then TooShort
    else if cipher.None? then BadKey
    else if !AlignedLength(|raw| - BLOCK_SIZE) then NotAligned
    else Unpadded(Decrypted(cipher.value, raw), BLOCK_SIZE)
  }

  method DecryptAESCBC(raw: array<Byte>, cipher: Option<Cipher>) returns (r: Result)
    requires cipher.Some? ==> cipher.value.Valid()
    modifies raw
    ensures r == DecryptResult(old(raw[..]), cipher)
  {
    if raw.Length < BLOCK_SIZE {
      return TooShort;
    }
    if cipher.None? {
      return BadKey;
    }
    if !AlignedLength(raw.Length - BLOCK_SIZE) {
      return NotAligned;
    }
    WithoutIV(raw.Length);
    CryptBlocks(cipher.value, raw);
    assert raw[BLOCK_SIZE..] == raw[..][BLOCK_SIZE..];
    r := PKCS7Unpad(raw[BLOCK_SIZE..], BLOCK_SIZE);
  }

  lemma WithoutIV(k: int)
    ensures AlignedLength(k) <==> AlignedLength(k - BLOCK_SIZE)
  {
  }

  lemma UnpaddedKinds(data: Bytes, blockSize: int)
    requires blockSize > 0
    ensures var r := Unpadded(data, blockSize); r != TooShort && r != BadKey && r != NotAligned
  {
  }

  /** Which errors the decryption looks for before the padding, and in which order. */
  lemma DecryptErrors(raw: Bytes, cipher: Option<Cipher>)
    requires cipher.Some? ==> cipher.value.Valid()
    ensures var r := DecryptResult(raw, cipher);
            && (r == TooShort <==> |raw| < BLOCK_SIZE)
            && (r == BadKey <==> |raw| >= BLOCK_SIZE && cipher.None?)
            && (r == NotAligned <==> |raw| >= BLOCK_SIZE && cipher.Some? && !AlignedLength(|raw|))
  {
    WithoutIV(|raw|);
    if cipher.Some? {
      UnpaddedKinds(Decrypted(cipher.value, raw), BLOCK_SIZE);
    }
  }

  lemma DecryptUnpads(raw: Bytes, cipher: Cipher)
    requires |raw| >= BLOCK_SIZE && AlignedLength(|raw| - BLOCK_SIZE)
    ensures DecryptResult(raw, Some(cipher)) == Unpadded(Decrypted(cipher, raw), BLOCK_SIZE)
  {
  }

  /** Past these a message comes out exactly when the plaintext is its padding. */
  lemma DecryptMeaning(raw: Bytes, cipher: Cipher, message: Bytes)
    requires cipher.Valid() && |raw| >= BLOCK_SIZE && AlignedLength(|raw|)
    ensures DecryptResult(raw, Some(cipher)) == Plain(message) <==>
            Decrypted(cipher, raw) == Padded(message, BLOCK_SIZE)
  {
    WithoutIV(|raw|);
    DecryptUnpads(raw, cipher);
    UnpadMeaning(Decrypted(cipher, raw), BLOCK_SIZE, message);
  }

  lemma DecryptsToUnpadded(cipher: Cipher, iv: Bytes, plain: Bytes)
    requires cipher.Valid() && |iv| == BLOCK_SIZE && AlignedLength(|plain|)
    ensures DecryptResult(Encrypted(cipher, iv, plain), Some(cipher)) == Unpadded(plain, BLOCK_SIZE)
  {
    WithoutIV(|plain| + BLOCK_SIZE);
    EncryptedLength(cipher, iv, plain);
    DecryptEncrypted(cipher, iv, plain);
  }

  /** Decryption recovers every message that was padded and encrypted, under any key and IV. */
  lemma DecryptRecovers(cipher: Cipher, iv: Bytes, message: Bytes)
    requires cipher.Valid() && |iv| == BLOCK_SIZE
    ensures AlignedLength(|Padded(message, BLOCK_SIZE)|)
    ensures DecryptResult(Encrypted(cipher, iv, Padded(message, BLOCK_SIZE)), Some(cipher)) == Plain(message)
  {
    DecryptsToUnpadded(cipher, iv, Padded(message, BLOCK_SIZE));
    UnpadPadded(message, BLOCK_SIZE);
  }
}
