/**
  The symmetric encryption of a token: padded by the client in C (lib/src/encrypt/aes.c,
  misc/pam-module/auth/utils.c), unpadded by the daemon in Go (service/encrypt/aes.go) and
  the other way round. The padding is that of section 6.3 of RFC 5652 and the chaining is
  section 6.2 of NIST SP 800-38A; the block cipher is any pair of inverse functions.
 */
module TokenEncryption {
  newtype Byte = x: int | 0 <= x < 256

  const BLOCK := 16

  /** What a Go call comes to. */
  datatype Outcome = Ok(data: seq<Byte>) | Err | Panics

  // ---------- padding in Go ----------

  function Truncate(n: nat): Byte {
    (n % 256) as Byte
  }

  function Repeat(b: Byte, n: nat): (s: seq<Byte>)
    ensures |s| == n && forall i | 0 <= i < n :: s[i] == b
  {
    if n == 0 then [] else Repeat(b, n - 1) + [b]
  }

  /** A negative block size makes the repeat count negative. */
  function PKCS5Padding(text: seq<Byte>, blockSize: int): Outcome {
    if blockSize == 0 then Ok([])
    else if blockSize < 0 then Panics
    else
      var padding := blockSize - |text| % blockSize;
      Ok(text + Repeat(Truncate(padding), padding))
  }

  /** The last byte says how many bytes to drop; dropping more than there are panics. */
  function PKCS5UnPadding(data: seq<Byte>): Outcome {
    if |data| == 0 then Panics
    else
      var padding := data[|data| - 1] as int;
      if padding > |data| then Panics else Ok(data[..|data| - padding])
  }

  lemma PaddedShape(text: seq<Byte>, blockSize: int)
    requires blockSize > 0
    ensures var p := PKCS5Padding(text, blockSize);
            && p.Ok? && |p.data| % blockSize == 0 && |text| < |p.data| <= |text| + blockSize
            && p.data[..|text|] == text
            && (forall i | |text| <= i < |p.data| :: p.data[i] == Truncate(blockSize - |text| % blockSize))
            && forall i | |text| <= i < |p.data| :: p.data[i] as int == (|p.data| - |text|) % 256
  {
    var padding := blockSize - |text| % blockSize;
    FillsBlock(|text|, blockSize);
    assert PKCS5Padding(text, blockSize).data == text + Repeat(Truncate(padding), padding);
  }

  lemma FillsBlock(n: nat, blockSize: int)
    requires blockSize > 0
    ensures (n + (blockSize - n % blockSize)) % blockSize == 0
  {
    var q, r := n / blockSize, n % blockSize;
    assert n + (blockSize - r) == (q + 1) * blockSize;
    MultipleHasNoRemainder(q + 1, blockSize);
  }

  lemma MultipleHasNoRemainder(k: int, m: int)
    requires m > 0
    ensures (k * m) % m == 0
  {
    var q, r := (k * m) / m, (k * m) % m;
    assert k * m == q * m + r;
    assert (k - q) * m == r;
    assert k - q >= 1 ==> (k - q) * m >= m;
    assert k - q <= -1 ==> (k - q) * m <= -m;
  }

  /**
    Unpadding undoes padding exactly when the number of padding bytes fits into one byte; for
    a block size of zero the padded text is empty and unpadding it panics.
   */
  lemma PaddingRoundTripExactly(text: seq<Byte>, blockSize: int)
    requires blockSize >= 0
    ensures PKCS5UnPadding(PKCS5Padding(text, blockSize).data) == Ok(text)
            <==> blockSize > 0 && blockSize - |text| % blockSize <= 255
  {
    if blockSize > 0 {
      var padding, padded := blockSize - |text| % blockSize, PKCS5Padding(text, blockSize).data;
      PaddedShape(text, blockSize);
      assert padded[|padded| - 1] as int == padding % 256;
      assert |padded| == |text| + padding;
      if padding <= 255 {
        assert padded[..|padded| - padding] == text;
      }
    }
  }

  // ---------- padding in C ----------

  /** The client's buffer: filled with the padding byte, then overwritten by the text. */
  method PadBuffer(src: seq<Byte>) returns (buffer: array<Byte>)
    ensures fresh(buffer) && Ok(buffer[..]) == PKCS5Padding(src, BLOCK)
  {
    var quotient := |src| / BLOCK;
    var mod := |src| % BLOCK;
    var blockCount := quotient + 1;
    var padding := BLOCK - mod;
    buffer := new Byte[BLOCK * blockCount];
    for i := 0 to buffer.Length
      invariant forall j | 0 <= j < i :: buffer[j] == Truncate(padding)
    {
      buffer[i] := Truncate(padding);
    }
    for i := 0 to |src|
      invariant forall j | 0 <= j < i :: buffer[j] == src[j]
      invariant forall j | i <= j < buffer.Length :: buffer[j] == Truncate(padding)
    {
      buffer[i] := src[i];
    }
    PaddedShape(src, BLOCK);
    assert buffer[..] == src + Repeat(Truncate(padding), padding);
  }

  /** A char is signed, so a last byte of 128 or more reads as negative. */
  function SignedValue(b: Byte): int {
    if b as int < 128 then b as int else b as int - 256
  }

  /** The C library's unpadding; a length that is negative or beyond the buffer is undefined behaviour. */
  function UnPadC(data: seq<Byte>): Outcome {
    if |data| == 0 then Panics
    else
      var outLen := |data| - SignedValue(data[|data| - 1]);
      if 0 <= outLen <= |data| then Ok(data[..outLen]) else Panics
  }

  method UnPadBuffer(tmp: array<Byte>) returns (orig: array<Byte>)
    requires UnPadC(tmp[..]).Ok?
    ensures fresh(orig) && UnPadC(tmp[..]) == Ok(orig[..])
  {
    var unpadding := SignedValue(tmp[tmp.Length - 1]);
    var outLen := tmp.Length - unpadding;
    orig := new Byte[outLen];
    for i := 0 to outLen
      invariant forall j | 0 <= j < i :: orig[j] == tmp[j]
    {
      orig[i] := tmp[i];
    }
    assert orig[..] == tmp[..outLen];
  }

  /** Both sides take off what either side has put on, whatever the text. */
  lemma BothUnpaddingsInvert(text: seq<Byte>)
    ensures PKCS5UnPadding(PKCS5Padding(text, BLOCK).data) == Ok(text)
    ensures UnPadC(PKCS5Padding(text, BLOCK).data) == Ok(text)
  {
    PaddingRoundTripExactly(text, BLOCK);
    PaddedShape(text, BLOCK);
  }

  /**
    The two unpaddings agree on the empty buffer, on a last byte below 128, and on one beyond
    the length; they differ on a last byte of 128 or more within it, which is negative in C.
   */
  lemma UnpaddingsAgree(data: seq<Byte>)
    ensures PKCS5UnPadding(data) == UnPadC(data)
            <==> |data| == 0 || data[|data| - 1] as int < 128 || data[|data| - 1] as int > |data|
  {
  }

  /**
    What the unpaddings do to any buffer at all: Go drops as many bytes as the last one says,
    C the same below 128; a count beyond the length is a panic in Go and, like any count of 128
    or more, undefined in C.
   */
  lemma UnpaddingsExactly(data: seq<Byte>)
    ensures |data| == 0 ==> PKCS5UnPadding(data).Panics? && UnPadC(data).Panics?
    ensures |data| > 0 ==>
              var n := data[|data| - 1] as int;
              && PKCS5UnPadding(data) == (if n <= |data| then Ok(data[..|data| - n]) else Panics)
              && UnPadC(data) == (if n <= |data| && n < 128 then Ok(data[..|data| - n]) else Panics)
  {
  }

  /** A block size of zero loses the text; a negative one panics. */
  lemma NoBlockSize(text: seq<Byte>, blockSize: int)
    requires blockSize <= 0
    ensures PKCS5Padding(text, blockSize) == if blockSize == 0 then Ok([]) else Panics
  {
  }

  // ---------- chaining ----------

  /** A keyed block cipher. */
  datatype Cipher = Cipher(encrypt: seq<Byte> -> seq<Byte>, decrypt: seq<Byte> -> seq<Byte>)

  /** It permutes the blocks, and decrypting inverts encrypting. */
  ghost predicate Invertible(c: Cipher) {
    forall b: seq<Byte> | |b| == BLOCK :: |c.encrypt(b)| == BLOCK && c.decrypt(c.encrypt(b)) == b
  }

  ghost predicate KeepsLength(c: Cipher) {
    forall b: seq<Byte> | |b| == BLOCK :: |c.encrypt(b)| == BLOCK && |c.decrypt(b)| == BLOCK
  }

  function Power(bits: nat): nat {
    if bits == 0 then 1 else 2 * Power(bits - 1)
  }

  lemma EightBits()
    ensures Power(8) == 256
  {
    assert Power(4) == 16;
  }

  /** Exclusive or, bit by bit from the lowest. */
  function XorBits(a: nat, b: nat, bits: nat): (r: nat)
    requires a < Power(bits) && b < Power(bits)
    ensures r < Power(bits)
  {
    if bits == 0 then 0 else 2 * XorBits(a / 2, b / 2, bits - 1) + (a % 2 + b % 2) % 2
  }

  lemma Halves(high: nat, low: nat)
    requires low < 2
    ensures (2 * high + low) / 2 == high && (2 * high + low) % 2 == low
  {
  }

  lemma LowBitTwice(a: nat, b: nat)
    ensures ((a % 2 + b % 2) % 2 + b % 2) % 2 == a % 2
    ensures a == 2 * (a / 2) + a % 2
  {
  }

  lemma {:induction false} XorBitsTwice(a: nat, b: nat, bits: nat)
    requires a < Power(bits) && b < Power(bits)
    ensures XorBits(XorBits(a, b, bits), b, bits) == a
  {
    if bits > 0 {
      var high, low := XorBits(a / 2, b / 2, bits - 1), (a % 2 + b % 2) % 2;
      XorBitsTwice(a / 2, b / 2, bits - 1);
      Halves(high, low);
      LowBitTwice(a, b);
    }
  }

  /** Bit k of a number, counted from the lowest. */
  function Bit(a: nat, k: nat): nat {
    if k == 0 then a % 2 else Bit(a / 2, k - 1)
  }

  /** A bit of the result is set exactly if it is set in one of the two numbers alone. */
  lemma {:induction false} BitOfXor(a: nat, b: nat, bits: nat, k: nat)
    requires a < Power(bits) && b < Power(bits) && k < bits
    ensures Bit(XorBits(a, b, bits), k) == 1 <==> Bit(a, k) != Bit(b, k)
    ensures Bit(a, k) in {0, 1} && Bit(b, k) in {0, 1} && Bit(XorBits(a, b, bits), k) in {0, 1}
  {
    Halves(XorBits(a / 2, b / 2, bits - 1), (a % 2 + b % 2) % 2);
    if k > 0 {
      BitOfXor(a / 2, b / 2, bits - 1, k - 1);
    }
  }

  lemma {:induction false} XorBitsZero(a: nat, bits: nat)
    requires a < Power(bits)
    ensures XorBits(a, 0, bits) == a
  {
    if bits > 0 {
      XorBitsZero(a / 2, bits - 1);
    }
  }

  function XorByte(a: Byte, b: Byte): Byte {
    EightBits();
    XorBits(a as int, b as int, 8) as Byte
  }

  function Xor(a: seq<Byte>, b: seq<Byte>): (r: seq<Byte>)
    requires |a| == |b|
    ensures |r| == |a| && forall i | 0 <= i < |a| :: r[i] == XorByte(a[i], b[i])
  {
    if a == [] then [] else Xor(a[..|a| - 1], b[..|b| - 1]) + [XorByte(a[|a| - 1], b[|b| - 1])]
  }

  lemma XorTwice(a: Byte, b: Byte)
    ensures XorByte(XorByte(a, b), b) == a
  {
    EightBits();
    XorBitsTwice(a as int, b as int, 8);
  }

  lemma XorUndone(a: seq<Byte>, b: seq<Byte>)
    requires |a| == |b|
    ensures Xor(Xor(a, b), b) == a
  {
    forall i | 0 <= i < |a| ensures Xor(Xor(a, b), b)[i] == a[i] {
      XorTwice(a[i], b[i]);
    }
  }

  lemma XorZeros(a: seq<Byte>)
    ensures Xor(a, seq(|a|, _ => 0 as Byte)) == a
  {
    EightBits();
    forall i | 0 <= i < |a| ensures Xor(a, seq(|a|, _ => 0 as Byte))[i] == a[i] {
      XorBitsZero(a[i] as int, 8);
    }
  }

  function CbcEncrypt(c: Cipher, iv: seq<Byte>, data: seq<Byte>): seq<Byte>
    requires KeepsLength(c) && |iv| == BLOCK && |data| % BLOCK == 0
    decreases |data|
  {
    if data == [] then []
    else
      var block := c.encrypt(Xor(data[..BLOCK], iv));
      block + CbcEncrypt(c, block, data[BLOCK..])
  }

  function CbcDecrypt(c: Cipher, iv: seq<Byte>, data: seq<Byte>): seq<Byte>
    requires KeepsLength(c) && |iv| == BLOCK && |data| % BLOCK == 0
    decreases |data|
  {
    if data == [] then []
    else Xor(c.decrypt(data[..BLOCK]), iv) + CbcDecrypt(c, data[..BLOCK], data[BLOCK..])
  }

  lemma {:induction false} CbcRoundTrip(c: Cipher, iv: seq<Byte>, data: seq<Byte>)
    requires KeepsLength(c) && Invertible(c) && |iv| == BLOCK && |data| % BLOCK == 0
    ensures |CbcEncrypt(c, iv, data)| == |data|
    ensures CbcDecrypt(c, iv, CbcEncrypt(c, iv, data)) == data
    decreases |data|
  {
    if data != [] {
      var mixed := Xor(data[..BLOCK], iv);
      var block := c.encrypt(mixed);
      var rest := CbcEncrypt(c, block, data[BLOCK..]);
      CbcRoundTrip(c, block, data[BLOCK..]);
      assert (block + rest)[..BLOCK] == block && (block + rest)[BLOCK..] == rest;
      XorUndone(data[..BLOCK], iv);
      assert data[..BLOCK] + data[BLOCK..] == data;
    }
  }

  lemma {:induction false} CbcDecryptLength(c: Cipher, iv: seq<Byte>, data: seq<Byte>)
    requires KeepsLength(c) && |iv| == BLOCK && |data| % BLOCK == 0
    ensures |CbcDecrypt(c, iv, data)| == |data|
    decreases |data|
  {
    if data != [] {
      CbcDecryptLength(c, data[..BLOCK], data[BLOCK..]);
    }
  }

  /** The block the next one is mixed with. */
  function Previous(c: Cipher, iv: seq<Byte>, data: seq<Byte>): seq<Byte>
    requires KeepsLength(c) && |iv| == BLOCK && |data| % BLOCK == 0
    decreases |data|
  {
    if data == [] then iv else Previous(c, c.encrypt(Xor(data[..BLOCK], iv)), data[BLOCK..])
  }

  /** One more block of text is one more block of ciphertext, which is mixed with the one before. */
  lemma {:induction false} CbcAppend(c: Cipher, iv: seq<Byte>, data: seq<Byte>, block: seq<Byte>)
    requires KeepsLength(c) && |iv| == BLOCK && |data| % BLOCK == 0 && |block| == BLOCK
    ensures |Previous(c, iv, data)| == BLOCK
    ensures var next := c.encrypt(Xor(block, Previous(c, iv, data)));
            && CbcEncrypt(c, iv, data + block) == CbcEncrypt(c, iv, data) + next
            && Previous(c, iv, data + block) == next
    decreases |data|
  {
    if data != [] {
      var first := c.encrypt(Xor(data[..BLOCK], iv));
      CbcAppend(c, first, data[BLOCK..], block);
      assert (data + block)[..BLOCK] == data[..BLOCK] && (data + block)[BLOCK..] == data[BLOCK..] + block;
    } else {
      var next := c.encrypt(Xor(block, iv));
      assert data + block == block && block[..BLOCK] == block && block[BLOCK..] == [];
      assert CbcEncrypt(c, next, []) == [] && next + [] == next;
    }
  }

  // ---------- the two calls of the daemon ----------

  /** The chaining starts from a block of zeros on both sides. */
  function ZeroBlock(): (iv: seq<Byte>)
    ensures |iv| == BLOCK
  {
    Repeat(0, BLOCK)
  }

  /** cipher is None when the key does not have a length the cipher supports. */
  function Encrypt(cipher: Cipher, keyFits: bool, src: seq<Byte>): Outcome
    requires KeepsLength(cipher)
  {
    if !keyFits then Err
    else
      var padded := PKCS5Padding(src, BLOCK).data;
      if |padded| % BLOCK != 0 then Err else Ok(CbcEncrypt(cipher, ZeroBlock(), padded))
  }

  function Decrypt(cipher: Cipher, keyFits: bool, text: seq<Byte>): Outcome
    requires KeepsLength(cipher)
  {
    if !keyFits then Err
    else if |text| % BLOCK != 0 then Err
    else PKCS5UnPadding(CbcDecrypt(cipher, ZeroBlock(), text))
  }

  /** Under any invertible cipher the daemon decrypts what it encrypts, whatever the message. */
  lemma DecryptUndoesEncrypt(cipher: Cipher, src: seq<Byte>)
    requires KeepsLength(cipher) && Invertible(cipher)
    ensures Encrypt(cipher, true, src).Ok?
    ensures Decrypt(cipher, true, Encrypt(cipher, true, src).data) == Ok(src)
  {
    var padded := PKCS5Padding(src, BLOCK).data;
    PaddedShape(src, BLOCK);
    CbcRoundTrip(cipher, ZeroBlock(), padded);
    BothUnpaddingsInvert(src);
  }

  lemma CbcFirst(c: Cipher, iv: seq<Byte>, data: seq<Byte>)
    requires KeepsLength(c) && |iv| == 16 && |data| % 16 == 0 && 16 <= |data|
    ensures var block := c.encrypt(Xor(data[..16], iv));
            && CbcEncrypt(c, iv, data) == block + CbcEncrypt(c, block, data[16..])
            && |CbcEncrypt(c, iv, data)| == |data| && CbcEncrypt(c, iv, data)[..16] == block
  {
    CbcEncryptLength(c, iv, data);
  }

  /** Each block of ciphertext is that of its block of text, mixed with the ciphertext before it. */
  lemma {:induction false} CbcBlock(c: Cipher, iv: seq<Byte>, data: seq<Byte>, at: nat)
    requires KeepsLength(c) && |iv| == 16 && |data| % 16 == 0 && at % 16 == 0 && at + 16 <= |data|
    ensures |CbcEncrypt(c, iv, data)| == |data|
    ensures var out := CbcEncrypt(c, iv, data);
            out[at..at + 16] == c.encrypt(Xor(data[at..at + 16], if at == 0 then iv else out[at - 16..at]))
    decreases |data|
  {
    CbcFirst(c, iv, data);
    if at > 0 {
      var block := c.encrypt(Xor(data[..16], iv));
      CbcBlock(c, block, data[16..], at - 16);
      CbcLater(block, CbcEncrypt(c, block, data[16..]), data, at);
    }
  }

  /** Where the later blocks lie in the whole. */
  lemma CbcLater(block: seq<Byte>, rest: seq<Byte>, data: seq<Byte>, at: nat)
    requires |block| == 16 && 16 <= at && at + 16 <= |data| && |rest| == |data| - 16 && at % 16 == 0
    ensures data[16..][at - 16..at] == data[at..at + 16]
    ensures (block + rest)[at..at + 16] == rest[at - 16..at]
    ensures (block + rest)[at - 16..at] == if at == 16 then block else rest[at - 32..at - 16]
  {
    SliceBehind(block, rest, at);
    SliceBehind(data[..16], data[16..], at);
    assert data[..16] + data[16..] == data;
    if at > 16 {
      SliceBehind(block, rest, at - 16);
    }
  }

  lemma SliceBehind(first: seq<Byte>, rest: seq<Byte>, at: nat)
    requires |first| == 16 && 16 <= at && at <= |rest|
    ensures (first + rest)[at..at + 16] == rest[at - 16..at]
  {
  }

  lemma {:induction false} CbcEncryptLength(c: Cipher, iv: seq<Byte>, data: seq<Byte>)
    requires KeepsLength(c) && |iv| == 16 && |data| % 16 == 0
    ensures |CbcEncrypt(c, iv, data)| == |data|
    decreases |data|
  {
    if data != [] {
      CbcEncryptLength(c, c.encrypt(Xor(data[..16], iv)), data[16..]);
    }
  }

  /**
    What goes over the wire, block by block: the first is the plain encryption of the first 16
    bytes of the padded text, each later one that of its bytes mixed with the block before.
   */
  lemma BlocksOnTheWire(cipher: Cipher, src: seq<Byte>, at: nat)
    requires KeepsLength(cipher) && at % 16 == 0 && at <= |src|
    ensures Encrypt(cipher, true, src).Ok?
    ensures var padded, out := PKCS5Padding(src, 16).data, Encrypt(cipher, true, src).data;
            && |out| == |padded| && at + 16 <= |out|
            && (at == 0 ==> out[..16] == cipher.encrypt(padded[..16]))
            && (at > 0 ==> out[at..at + 16] == cipher.encrypt(Xor(padded[at..at + 16], out[at - 16..at])))
  {
    var padded := PKCS5Padding(src, 16).data;
    PaddedShape(src, 16);
    NextBlockFits(|padded|, at);
    CbcBlock(cipher, ZeroBlock(), padded, at);
    assert ZeroBlock() == seq(16, _ => 0 as Byte);
    XorZeros(padded[..16]);
  }

  /**
    Decrypting panics exactly on a ciphertext of whole blocks that is empty, or whose text
    ends in a byte that asks for more bytes than there are.
   */
  lemma DecryptPanicsExactly(cipher: Cipher, keyFits: bool, text: seq<Byte>)
    requires KeepsLength(cipher)
    ensures Decrypt(cipher, keyFits, text).Panics? <==>
            && keyFits && |text| % BLOCK == 0
            && var plain := CbcDecrypt(cipher, ZeroBlock(), text);
               |plain| == 0 || plain[|plain| - 1] as int > |text|
    ensures Decrypt(cipher, true, []).Panics?
    ensures Decrypt(cipher, keyFits, text).Err? <==> !keyFits || |text| % 16 != 0
  {
    if |text| % BLOCK == 0 {
      CbcDecryptLength(cipher, ZeroBlock(), text);
    }
  }

  // ---------- the client ----------

  method EncryptBlock(cipher: Cipher, input: array<Byte>, output: array<Byte>, at: nat, iv: seq<Byte>)
    returns (block: seq<Byte>)
    requires KeepsLength(cipher) && |iv| == BLOCK && input != output && input.Length == output.Length
    requires at + BLOCK <= input.Length
    modifies output
    ensures block == cipher.encrypt(Xor(input[at..at + BLOCK], iv)) && |block| == BLOCK
    ensures output[..at + BLOCK] == old(output[..at]) + block
  {
    block := cipher.encrypt(Xor(input[at..at + BLOCK], iv));
    for i := 0 to BLOCK
      invariant output[..at] == old(output[..at]) && output[at..at + i] == block[..i]
    {
      output[at + i] := block[i];
    }
    assert block[..BLOCK] == block;
  }

  /** The first at bytes are encrypted, and iv is what the next block is mixed with. */
  ghost predicate Chained(c: Cipher, data: seq<Byte>, at: nat, done: seq<Byte>, iv: seq<Byte>)
    requires KeepsLength(c)
  {
    && at <= |data| && at % BLOCK == 0
    && done == CbcEncrypt(c, ZeroBlock(), data[..at])
    && iv == Previous(c, ZeroBlock(), data[..at]) && |iv| == BLOCK
  }

  lemma ChainedStep(c: Cipher, data: seq<Byte>, at: nat, done: seq<Byte>, iv: seq<Byte>)
    requires KeepsLength(c) && Chained(c, data, at, done, iv) && at + BLOCK <= |data|
    ensures var block := c.encrypt(Xor(data[at..at + BLOCK], iv));
            Chained(c, data, at + BLOCK, done + block, block)
  {
    var text, block := data[..at], data[at..at + BLOCK];
    BlockBoundary(at);
    assert data[..at + BLOCK] == text + block;
    CbcAppend(c, ZeroBlock(), text, block);
  }

  lemma BlockBoundary(at: nat)
    requires at % BLOCK == 0
    ensures (at + BLOCK) % BLOCK == 0
  {
  }

  lemma NextBlockFits(length: nat, at: nat)
    requires at < length && length % BLOCK == 0 && at % BLOCK == 0
    ensures at + BLOCK <= length
  {
  }

  /** The library's chaining, one block after another, starting from a block of zeros. */
  method EncryptBlocks(cipher: Cipher, input: array<Byte>) returns (output: array<Byte>)
    requires KeepsLength(cipher) && input.Length % BLOCK == 0
    ensures fresh(output) && output[..] == CbcEncrypt(cipher, ZeroBlock(), input[..])
  {
    ghost var data := input[..];
    output := new Byte[input.Length];
    var iv := ZeroBlock();
    var at := 0;
    while at < input.Length
      invariant 0 <= at <= input.Length && input[..] == data
      invariant Chained(cipher, data, at, output[..at], iv)
      decreases input.Length - at
    {
      NextBlockFits(input.Length, at);
      ChainedStep(cipher, data, at, output[..at], iv);
      assert input[at..at + BLOCK] == data[at..at + BLOCK];
      iv := EncryptBlock(cipher, input, output, at, iv);
      at := at + BLOCK;
    }
    assert data[..at] == data && output[..at] == output[..];
  }

  /** What the client encrypts is what the daemon would have sent; it fails exactly when the key does not fit. */
  method EncryptClient(cipher: Cipher, keyFits: bool, src: seq<Byte>) returns (ok: bool, out: seq<Byte>)
    requires KeepsLength(cipher)
    ensures ok == keyFits
    ensures Encrypt(cipher, keyFits, src) == if ok then Ok(out) else Err
  {
    var buffer := PadBuffer(src);
    PaddedShape(src, BLOCK);
    if !keyFits {
      return false, [];
    }
    var output := EncryptBlocks(cipher, buffer);
    return true, output[..];
  }

  /** Two messages never have the same ciphertext under one key. */
  lemma CiphertextDeterminesMessage(cipher: Cipher, a: seq<Byte>, b: seq<Byte>)
    requires KeepsLength(cipher) && Invertible(cipher)
    requires Encrypt(cipher, true, a) == Encrypt(cipher, true, b)
    ensures a == b
  {
    DecryptUndoesEncrypt(cipher, a);
    DecryptUndoesEncrypt(cipher, b);
  }
}
