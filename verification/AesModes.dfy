/** ECB and CBC over the block cipher, PKCS7 padding, and the padded 128-bit ECB pair that packets use. */
module AesModes {
  import opened Bits
  import opened AesTables
  import opened AesSpec
  import opened AesCipher

  datatype Mode = Encrypting | Decrypting

  const ERR_INVALID_INPUT_LENGTH := -0x0022
  const OPRT_OK := 0
  const OPRT_INVALID_PARM := -0x0002

  // ---------- the modes on byte strings

  function CryptBlock(mode: Mode, keys: seq<State>, block: seq<bv8>): (r: seq<bv8>)
    requires |keys| >= 2 && |block| == 16
    ensures |r| == 16
  {
    StateBlock(match mode
               case Encrypting => Cipher(BlockState(block), keys)
               case Decrypting => EqInvCipher(BlockState(block), keys))
  }

  lemma BlockIsUndone(keys: seq<State>, block: seq<bv8>)
    requires |keys| >= 2 && |block| == 16
    ensures CryptBlock(Decrypting, DecKeys(keys), CryptBlock(Encrypting, keys, block)) == block
  {
    hide Cipher, EqInvCipher, DecKeys, BlockState, StateBlock;
    DecryptionUndoesEncryption(BlockState(block), keys);
    BlockStateInjective(StateBlock(BlockState(block)), block);
  }

  function XorBlock(a: seq<bv8>, b: seq<bv8>): (r: seq<bv8>)
    requires |a| == |b| == 16
    ensures |r| == 16 && forall i :: 0 <= i < 16 ==> r[i] == Xor(a[i], b[i])
  {
    seq(16, i requires 0 <= i < 16 => Xor(a[i], b[i]))
  }

  lemma XorBlockTwice(a: seq<bv8>, b: seq<bv8>)
    requires |a| == |b| == 16
    ensures XorBlock(XorBlock(a, b), b) == a
  {
    hide Xor, XorBlock;
    forall i | 0 <= i < 16 ensures XorBlock(XorBlock(a, b), b)[i] == a[i] {
      XorTwice(a[i], b[i]);
    }
  }

  /** Each block on its own. */
  function Ecb(mode: Mode, keys: seq<State>, data: seq<bv8>): (r: seq<bv8>)
    requires |keys| >= 2 && |data| % 16 == 0
    ensures |r| == |data|
  {
    if data == [] then [] else CryptBlock(mode, keys, data[..16]) + Ecb(mode, keys, data[16..])
  }

  lemma {:induction false} EcbAppend(mode: Mode, keys: seq<State>, a: seq<bv8>, b: seq<bv8>)
    requires |keys| >= 2 && |a| % 16 == 0 && |b| % 16 == 0
    ensures Ecb(mode, keys, a + b) == Ecb(mode, keys, a) + Ecb(mode, keys, b)
  {
    hide CryptBlock;
    if a == [] {
      assert a + b == b;
    } else {
      assert (a + b)[..16] == a[..16] && (a + b)[16..] == a[16..] + b;
      EcbAppend(mode, keys, a[16..], b);
    }
  }

  lemma EcbOfBlock(mode: Mode, keys: seq<State>, block: seq<bv8>)
    requires |keys| >= 2 && |block| == 16
    ensures Ecb(mode, keys, block) == CryptBlock(mode, keys, block)
  {
    hide CryptBlock;
    assert block[..16] == block && block[16..] == [];
  }

  lemma {:induction false} EcbIsUndone(keys: seq<State>, data: seq<bv8>)
    requires |keys| >= 2 && |data| % 16 == 0
    ensures Ecb(Decrypting, DecKeys(keys), Ecb(Encrypting, keys, data)) == data
  {
    hide CryptBlock, DecKeys;
    if data != [] {
      BlockIsUndone(keys, data[..16]);
      EcbIsUndone(keys, data[16..]);
      var c := CryptBlock(Encrypting, keys, data[..16]);
      var rest := Ecb(Encrypting, keys, data[16..]);
      assert (c + rest)[..16] == c && (c + rest)[16..] == rest;
      assert data == data[..16] + data[16..];
    }
  }

  lemma AtLeastOneBlock(n: nat)
    requires n % 16 == 0 && n > 0
    ensures n >= 16 && (n - 16) % 16 == 0
  {
  }

  lemma SixteenMore(at: nat, length: nat)
    requires at % 16 == 0 && length % 16 == 0 && at < length
    ensures at + 16 <= length && (at + 16) % 16 == 0
  {
  }

  /** Section 6.2 of NIST SP 800-38A. */
  function CbcEncrypt(keys: seq<State>, iv: seq<bv8>, data: seq<bv8>): (r: seq<bv8>)
    requires |keys| >= 2 && |iv| == 16 && |data| % 16 == 0
    ensures |r| == |data|
    decreases |data|
  {
    if data == [] then []
    else
      AtLeastOneBlock(|data|);
      var c := CryptBlock(Encrypting, keys, XorBlock(data[..16], iv));
      c + CbcEncrypt(keys, c, data[16..])
  }

  function CbcDecrypt(keys: seq<State>, iv: seq<bv8>, data: seq<bv8>): (r: seq<bv8>)
    requires |keys| >= 2 && |iv| == 16 && |data| % 16 == 0
    ensures |r| == |data|
    decreases |data|
  {
    if data == [] then []
    else
      AtLeastOneBlock(|data|);
      var c, rest := data[..16], data[16..];
      XorBlock(CryptBlock(Decrypting, keys, c), iv) + CbcDecrypt(keys, c, rest)
  }

  /** The IV that a call leaves behind: the last ciphertext block. */
  function NextIv(iv: seq<bv8>, cipher: seq<bv8>): (r: seq<bv8>)
    requires |iv| == 16 && |cipher| % 16 == 0
    ensures |r| == 16
  {
    if cipher == [] then iv else cipher[|cipher| - 16..]
  }

  /** Decryption undoes encryption from the same IV, for any number of blocks. */
  lemma {:induction false} CbcIsUndone(keys: seq<State>, iv: seq<bv8>, data: seq<bv8>)
    requires |keys| >= 2 && |iv| == 16 && |data| % 16 == 0
    ensures CbcDecrypt(DecKeys(keys), iv, CbcEncrypt(keys, iv, data)) == data
    decreases |data|
  {
    hide CryptBlock, DecKeys, XorBlock;
    if data != [] {
      var x := XorBlock(data[..16], iv);
      var c := CryptBlock(Encrypting, keys, x);
      var rest := CbcEncrypt(keys, c, data[16..]);
      BlockIsUndone(keys, x);
      XorBlockTwice(data[..16], iv);
      CbcIsUndone(keys, c, data[16..]);
      assert (c + rest)[..16] == c && (c + rest)[16..] == rest;
      assert data == data[..16] + data[16..];
    }
  }

  /** One call equals two calls that carry the IV. */
  lemma {:induction false} CbcEncryptSplits(keys: seq<State>, iv: seq<bv8>, a: seq<bv8>, b: seq<bv8>)
    requires |keys| >= 2 && |iv| == 16 && |a| % 16 == 0 && |b| % 16 == 0
    ensures CbcEncrypt(keys, iv, a + b) == CbcEncrypt(keys, iv, a) + CbcEncrypt(keys, NextIv(iv, CbcEncrypt(keys, iv, a)), b)
    decreases |a|
  {
    hide CryptBlock, XorBlock;
    if a == [] {
      assert a + b == b;
    } else {
      assert (a + b)[..16] == a[..16] && (a + b)[16..] == a[16..] + b;
      var c := CryptBlock(Encrypting, keys, XorBlock(a[..16], iv));
      CbcEncryptSplits(keys, c, a[16..], b);
      NextIvOfRest(iv, c, CbcEncrypt(keys, c, a[16..]));
    }
  }

  lemma {:induction false} CbcDecryptSplits(keys: seq<State>, iv: seq<bv8>, a: seq<bv8>, b: seq<bv8>)
    requires |keys| >= 2 && |iv| == 16 && |a| % 16 == 0 && |b| % 16 == 0
    ensures CbcDecrypt(keys, iv, a + b) == CbcDecrypt(keys, iv, a) + CbcDecrypt(keys, NextIv(iv, a), b)
    decreases |a|
  {
    hide CryptBlock, XorBlock;
    if a == [] {
      assert a + b == b;
    } else {
      assert (a + b)[..16] == a[..16] && (a + b)[16..] == a[16..] + b;
      CbcDecryptSplits(keys, a[..16], a[16..], b);
      NextIvOfRest(iv, a[..16], a[16..]);
      assert a == a[..16] + a[16..];
    }
  }

  lemma NextIvOfRest(iv: seq<bv8>, first: seq<bv8>, rest: seq<bv8>)
    requires |iv| == 16 && |first| == 16 && |rest| % 16 == 0
    ensures NextIv(iv, first + rest) == NextIv(first, rest)
  {
    if rest == [] {
      assert first + rest == first;
    } else {
      AtLeastOneBlock(|rest|);
      assert (first + rest)[|rest|..] == rest[|rest| - 16..];
    }
  }

  // ---------- what each block is made of

  /** Block j of a text of whole blocks. */
  function BlockAt(data: seq<bv8>, j: nat): (b: seq<bv8>)
    requires 16 * j + 16 <= |data|
    ensures |b| == 16
  {
    data[16 * j..16 * j + 16]
  }

  /** The block before it in `data`, or the IV. */
  function BlockBefore(iv: seq<bv8>, data: seq<bv8>, j: nat): (b: seq<bv8>)
    requires |iv| == 16 && 16 * j <= |data|
    ensures |b| == 16
  {
    if j == 0 then iv else BlockAt(data, j - 1)
  }

  lemma BlockOfRest(first: seq<bv8>, rest: seq<bv8>, j: nat)
    requires |first| == 16 && 16 * j + 16 <= |first| + |rest|
    ensures BlockAt(first + rest, j) == if j == 0 then first else BlockAt(rest, j - 1)
  {
  }

  /** Section 6.1 of NIST SP 800-38A: each block is the cipher of the block in its place. */
  lemma {:induction false} EcbBlocks(mode: Mode, keys: seq<State>, data: seq<bv8>, j: nat)
    requires |keys| >= 2 && |data| % 16 == 0 && 16 * j + 16 <= |data|
    ensures BlockAt(Ecb(mode, keys, data), j) == CryptBlock(mode, keys, BlockAt(data, j))
    decreases |data|
  {
    hide CryptBlock;
    var first, rest := data[..16], data[16..];
    assert data == first + rest;
    BlockOfRest(first, rest, j);
    BlockOfRest(CryptBlock(mode, keys, first), Ecb(mode, keys, rest), j);
    if j > 0 {
      EcbBlocks(mode, keys, rest, j - 1);
    }
  }

  /** Section 6.2 of NIST SP 800-38A: each block goes under the ciphertext block before it, the first under the IV, and
      through the cipher. */
  lemma {:induction false} CbcEncryptBlocks(keys: seq<State>, iv: seq<bv8>, data: seq<bv8>, j: nat)
    requires |keys| >= 2 && |iv| == 16 && |data| % 16 == 0 && 16 * j + 16 <= |data|
    ensures var c := CbcEncrypt(keys, iv, data);
      BlockAt(c, j) == CryptBlock(Encrypting, keys, XorBlock(BlockAt(data, j), BlockBefore(iv, c, j)))
    decreases |data|
  {
    hide CryptBlock, XorBlock;
    var first, rest := data[..16], data[16..];
    assert data == first + rest;
    var c := CryptBlock(Encrypting, keys, XorBlock(first, iv));
    var after := CbcEncrypt(keys, c, rest);
    assert CbcEncrypt(keys, iv, data) == c + after;
    hide BlockAt, CbcEncrypt;
    BlockOfRest(first, rest, j);
    BlockOfRest(c, after, j);
    if j > 0 {
      BlockOfRest(c, after, j - 1);
      CbcEncryptBlocks(keys, c, rest, j - 1);
    }
  }

  /** And back: through the inverse cipher, and under the ciphertext block before it. */
  lemma {:induction false} CbcDecryptBlocks(keys: seq<State>, iv: seq<bv8>, data: seq<bv8>, j: nat)
    requires |keys| >= 2 && |iv| == 16 && |data| % 16 == 0 && 16 * j + 16 <= |data|
    ensures BlockAt(CbcDecrypt(keys, iv, data), j)
      == XorBlock(CryptBlock(Decrypting, keys, BlockAt(data, j)), BlockBefore(iv, data, j))
    decreases |data|
  {
    hide CryptBlock, XorBlock;
    var first, rest := data[..16], data[16..];
    assert data == first + rest;
    var p := XorBlock(CryptBlock(Decrypting, keys, first), iv);
    var after := CbcDecrypt(keys, first, rest);
    assert CbcDecrypt(keys, iv, data) == p + after;
    hide BlockAt, CbcDecrypt;
    BlockOfRest(first, rest, j);
    BlockOfRest(p, after, j);
    if j > 0 {
      BlockOfRest(first, rest, j - 1);
      CbcDecryptBlocks(keys, first, rest, j - 1);
    }
  }

  // ---------- the modes in place

  /** ty_mbedtls_aes_crypt_ecb */
  method CryptEcb(ctx: AesContext, mode: Mode, input: array<bv8>, from: nat, output: array<bv8>, to: nat, ghost keys: seq<State>)
    requires ctx.Holds(keys) && from + 16 <= input.Length && to + 16 <= output.Length
    requires output !in {ctx.tables.fsb, ctx.tables.rsb}
    modifies output
    ensures output[to..to + 16] == CryptBlock(mode, keys, old(input[from..from + 16]))
    ensures forall k :: 0 <= k < output.Length && !(to <= k < to + 16) ==> output[k] == old(output[k])
    ensures ctx.Holds(keys)
  {
    hide Cipher, EqInvCipher, BlockState, StateBlock, KeyStates, Sub, InvSub, MixWord, InvMixWord;
    match mode {
      case Encrypting => ctx.Encrypt(input, from, output, to, keys);
      case Decrypting => ctx.Decrypt(input, from, output, to, keys);
    }
  }

  /** output[at..] := source[at..] ^ iv, sixteen bytes. */
  method XorInto(source: array<bv8>, iv: array<bv8>, output: array<bv8>, at: nat)
    requires at + 16 <= source.Length && at + 16 <= output.Length && iv.Length == 16 && iv != output
    modifies output
    ensures output[at..at + 16] == XorBlock(old(source[at..at + 16]), iv[..])
    ensures forall k :: 0 <= k < output.Length && !(at <= k < at + 16) ==> output[k] == old(output[k])
  {
    hide Xor;
    for i := 0 to 16
      invariant forall k :: at <= k < at + i ==> output[k] == Xor(old(source[k]), iv[k - at])
      invariant forall k :: at + i <= k < at + 16 ==> source[k] == old(source[k])
      invariant forall k :: 0 <= k < output.Length && !(at <= k < at + i) ==> output[k] == old(output[k])
    {
      output[at + i] := Xor(source[at + i], iv[i]);
    }
  }

  method CopyBlock(source: array<bv8>, at: nat, dest: array<bv8>)
    requires at + 16 <= source.Length && dest.Length == 16 && source != dest
    modifies dest
    ensures dest[..] == source[at..at + 16]
  {
    forall i | 0 <= i < 16 {
      dest[i] := source[at + i];
    }
  }

  /** The arrays of a call: the IV stands apart, and nothing is one of the tables. */
  ghost predicate Apart(ctx: AesContext, iv: array<bv8>, input: array<bv8>, output: array<bv8>) {
    && iv.Length == 16 && iv != input && iv != output
    && {iv, output} !! {ctx.tables.fsb, ctx.tables.rsb}
  }

  method DecryptStep(ctx: AesContext, iv: array<bv8>, input: array<bv8>, output: array<bv8>, at: nat, ghost keys: seq<State>)
    requires ctx.Holds(keys) && Apart(ctx, iv, input, output) && at + 16 <= input.Length && at + 16 <= output.Length
    modifies iv, output
    ensures output[at..at + 16] == XorBlock(CryptBlock(Decrypting, keys, old(input[at..at + 16])), old(iv[..]))
    ensures iv[..] == old(input[at..at + 16])
    ensures forall k :: 0 <= k < output.Length && !(at <= k < at + 16) ==> output[k] == old(output[k])
    ensures ctx.Holds(keys)
  {
    hide CryptBlock, XorBlock, KeyStates, Sub, InvSub, MixWord, InvMixWord, RoundConstant;
    var temp := new bv8[16];
    ghost var block := input[at..at + 16];
    CopyBlock(input, at, temp);
    CryptEcb(ctx, Decrypting, input, at, output, at, keys);
    assert temp[0..16] == temp[..] == block;
    Chain(ctx, iv, output, at, temp, keys);
  }

  /** The block goes under the IV, and the ciphertext block in `temp` is the next IV. */
  method Chain(ghost ctx: AesContext, iv: array<bv8>, output: array<bv8>, at: nat, temp: array<bv8>, ghost keys: seq<State>)
    requires ctx.Holds(keys) && Apart(ctx, iv, temp, output) && at + 16 <= output.Length && temp.Length == 16 && temp != output
    modifies iv, output
    ensures output[at..at + 16] == XorBlock(old(output[at..at + 16]), old(iv[..])) && iv[..] == old(temp[0..16])
    ensures forall k :: 0 <= k < output.Length && !(at <= k < at + 16) ==> output[k] == old(output[k])
    ensures ctx.Holds(keys)
  {
    hide XorBlock, KeyStates, Sub, InvSub, MixWord, InvMixWord, RoundConstant;
    XorInto(output, iv, output, at);
    CopyBlock(temp, 0, iv);
  }

  method EncryptStep(ctx: AesContext, iv: array<bv8>, input: array<bv8>, output: array<bv8>, at: nat, ghost keys: seq<State>)
    requires ctx.Holds(keys) && Apart(ctx, iv, input, output) && at + 16 <= input.Length && at + 16 <= output.Length
    modifies iv, output
    ensures output[at..at + 16] == CryptBlock(Encrypting, keys, XorBlock(old(input[at..at + 16]), old(iv[..])))
    ensures iv[..] == output[at..at + 16]
    ensures forall k :: 0 <= k < output.Length && !(at <= k < at + 16) ==> output[k] == old(output[k])
    ensures ctx.Holds(keys)
  {
    hide CryptBlock, XorBlock, KeyStates, Sub, InvSub, MixWord, InvMixWord;
    XorInto(input, iv, output, at);
    CryptEcb(ctx, Encrypting, output, at, output, at, keys);
    CopyBlock(output, at, iv);
  }

  /** ty_mbedtls_aes_crypt_cbc; the input may be the output. */
  method CryptCbc(ctx: AesContext, mode: Mode, length: nat, iv: array<bv8>, input: array<bv8>, output: array<bv8>, ghost keys: seq<State>)
    returns (ret: int)
    requires ctx.Holds(keys) && Apart(ctx, iv, input, output) && length <= input.Length && length <= output.Length
    modifies iv, output
    ensures ctx.Holds(keys)
    ensures ret == if length % 16 != 0 then ERR_INVALID_INPUT_LENGTH else 0
    ensures ret != 0 ==> iv[..] == old(iv[..]) && output[..] == old(output[..])
    ensures ret == 0 && mode.Encrypting? ==>
      && output[..length] == CbcEncrypt(keys, old(iv[..]), old(input[..length]))
      && iv[..] == NextIv(old(iv[..]), output[..length])
    ensures ret == 0 && mode.Decrypting? ==>
      && output[..length] == CbcDecrypt(keys, old(iv[..]), old(input[..length]))
      && iv[..] == NextIv(old(iv[..]), old(input[..length]))
    ensures output[length..] == old(output[length..])
  {
    if length % 16 != 0 {
      return ERR_INVALID_INPUT_LENGTH;
    }
    match mode {
      case Decrypting => DecryptBlocks(ctx, length, iv, input, output, keys);
      case Encrypting => EncryptBlocks(ctx, length, iv, input, output, keys);
    }
    ret := 0;
  }

  method DecryptBlocks(ctx: AesContext, length: nat, iv: array<bv8>, input: array<bv8>, output: array<bv8>, ghost keys: seq<State>)
    requires ctx.Holds(keys) && Apart(ctx, iv, input, output) && length <= input.Length && length <= output.Length
    requires length % 16 == 0
    modifies iv, output
    ensures ctx.Holds(keys)
    ensures output[..length] == CbcDecrypt(keys, old(iv[..]), old(input[..length]))
    ensures iv[..] == NextIv(old(iv[..]), old(input[..length]))
    ensures output[length..] == old(output[length..])
  {
    hide CryptBlock, XorBlock, CbcDecrypt, NextIv, KeyStates, Sub, InvSub, MixWord, InvMixWord, RoundConstant;
    ghost var in0, iv0 := input[..length], iv[..];
    var at := 0;
    NothingDecrypted(keys, iv0);
    while at < length
      invariant at <= length && at % 16 == 0 && ctx.Holds(keys)
      invariant output[..at] == CbcDecrypt(keys, iv0, in0[..at]) && iv[..] == NextIv(iv0, in0[..at])
      invariant forall k :: at <= k < length ==> input[k] == in0[k]
      invariant forall k :: at <= k < output.Length ==> output[k] == old(output[k])
    {
      ghost var done := output[..at];
      SixteenMore(at, length);
      assert input[at..at + 16] == in0[at..at + 16];
      DecryptStep(ctx, iv, input, output, at, keys);
      OneMoreDecrypted(keys, iv0, in0, at);
      Grown(output[..], done, at);
      at := at + 16;
    }
    assert in0[..at] == in0;
  }

  lemma Grown(all: seq<bv8>, done: seq<bv8>, at: nat)
    requires at + 16 <= |all| && |done| == at && forall k :: 0 <= k < at ==> all[k] == done[k]
    ensures all[..at] == done && all[..at + 16] == done + all[at..at + 16]
  {
  }

  lemma NothingDecrypted(keys: seq<State>, iv: seq<bv8>)
    requires |keys| >= 2 && |iv| == 16
    ensures CbcDecrypt(keys, iv, []) == [] && CbcEncrypt(keys, iv, []) == [] && NextIv(iv, []) == iv
  {
  }

  lemma OneMoreDecrypted(keys: seq<State>, iv: seq<bv8>, data: seq<bv8>, at: nat)
    requires |keys| >= 2 && |iv| == 16 && at % 16 == 0 && at + 16 <= |data|
    ensures CbcDecrypt(keys, iv, data[..at + 16])
      == CbcDecrypt(keys, iv, data[..at]) + XorBlock(CryptBlock(Decrypting, keys, data[at..at + 16]), NextIv(iv, data[..at]))
    ensures NextIv(iv, data[..at + 16]) == data[at..at + 16]
  {
    hide CryptBlock, XorBlock;
    var b := data[at..at + 16];
    assert data[..at + 16] == data[..at] + b && b[..16] == b && b[16..] == [];
    CbcDecryptSplits(keys, iv, data[..at], b);
  }

  method EncryptBlocks(ctx: AesContext, length: nat, iv: array<bv8>, input: array<bv8>, output: array<bv8>, ghost keys: seq<State>)
    requires ctx.Holds(keys) && Apart(ctx, iv, input, output) && length <= input.Length && length <= output.Length
    requires length % 16 == 0
    modifies iv, output
    ensures ctx.Holds(keys)
    ensures output[..length] == CbcEncrypt(keys, old(iv[..]), old(input[..length]))
    ensures iv[..] == NextIv(old(iv[..]), output[..length])
    ensures output[length..] == old(output[length..])
  {
    hide CryptBlock, XorBlock, CbcEncrypt, NextIv, KeyStates, Sub, InvSub, MixWord, InvMixWord, RoundConstant;
    ghost var in0, iv0 := input[..length], iv[..];
    var at := 0;
    NothingDecrypted(keys, iv0);
    while at < length
      invariant at <= length && at % 16 == 0 && ctx.Holds(keys)
      invariant output[..at] == CbcEncrypt(keys, iv0, in0[..at]) && iv[..] == NextIv(iv0, output[..at])
      invariant forall k :: at <= k < length ==> input[k] == in0[k]
      invariant forall k :: at <= k < output.Length ==> output[k] == old(output[k])
    {
      ghost var done := output[..at];
      SixteenMore(at, length);
      assert input[at..at + 16] == in0[at..at + 16];
      EncryptStep(ctx, iv, input, output, at, keys);
      OneMoreEncrypted(keys, iv0, in0, at);
      Grown(output[..], done, at);
      at := at + 16;
    }
    assert in0[..at] == in0;
  }

  lemma OneMoreEncrypted(keys: seq<State>, iv: seq<bv8>, data: seq<bv8>, at: nat)
    requires |keys| >= 2 && |iv| == 16 && at % 16 == 0 && at + 16 <= |data|
    ensures var done := CbcEncrypt(keys, iv, data[..at]);
      var c := CryptBlock(Encrypting, keys, XorBlock(data[at..at + 16], NextIv(iv, done)));
      CbcEncrypt(keys, iv, data[..at + 16]) == done + c && NextIv(iv, done + c) == c
  {
    hide CryptBlock, XorBlock;
    var b := data[at..at + 16];
    assert data[..at + 16] == data[..at] + b && b[..16] == b && b[16..] == [];
    CbcEncryptSplits(keys, iv, data[..at], b);
  }

  // ---------- PKCS7, section 6.3 of RFC 5652

  function PadLength(n: nat): (p: nat)
    ensures 1 <= p <= 16 && (n + p) % 16 == 0
  {
    16 - n % 16
  }

  function Padded(data: seq<bv8>): (r: seq<bv8>)
    ensures |r| == |data| + PadLength(|data|)
  {
    data + seq(PadLength(|data|), i requires 0 <= i < PadLength(|data|) => ToByte(PadLength(|data|)))
  }

  /** What the decoder takes the payload's length to be, in 32 bits: it trusts the last byte. */
  function UnpaddedLength(buffer: seq<bv8>): nat
    requires 0 < |buffer| < 0x1_0000_0000
  {
    (|buffer| - buffer[|buffer| - 1] as nat) % 0x1_0000_0000
  }

  lemma UnpaddingRecovers(data: seq<bv8>)
    requires |data| + 16 < 0x1_0000_0000
    ensures UnpaddedLength(Padded(data)) == |data| && Padded(data)[..|data|] == data
  {
    hide ToByte;
    ToByteValue(PadLength(|data|));
  }

  /** Section 6.3 of RFC 5652: 16 less the remainder many bytes are added, and each of them is that number. */
  lemma EachPaddingByte(data: seq<bv8>, i: nat)
    requires |data| <= i < |Padded(data)|
    ensures Padded(data)[i] as nat == 16 - |data| % 16 == |Padded(data)| - |data|
  {
    hide ToByte;
    ToByteValue(PadLength(|data|));
  }

  /** __Add_Pkcs: pads in place and returns the new length. */
  method AddPkcs(p: array<bv8>, len: nat) returns (n: nat)
    requires len + PadLength(len) <= p.Length
    modifies p
    ensures n == len + PadLength(len) && p[..n] == Padded(old(p[..len])) && p[n..] == old(p[n..])
  {
    hide ToByte;
    var cz := 16 - len % 16;
    for i := 0 to cz
      invariant forall k :: len <= k < len + i ==> p[k] == ToByte(cz)
      invariant forall k :: 0 <= k < p.Length && !(len <= k < len + i) ==> p[k] == old(p[k])
    {
      p[len + i] := ToByte(cz);
    }
    n := len + cz;
    assert p[..len] == old(p[..len]);
  }

  // ---------- the padded ECB pair with a 128-bit key

  /** The loop of aes128_ecb_encode_raw and aes128_ecb_decode_raw, in place. */
  method EcbInPlace(ctx: AesContext, mode: Mode, buffer: array<bv8>, len: nat, ghost keys: seq<State>)
    requires ctx.Holds(keys) && len <= buffer.Length && len % 16 == 0 && buffer !in {ctx.tables.fsb, ctx.tables.rsb}
    modifies buffer
    ensures buffer[..len] == Ecb(mode, keys, old(buffer[..len])) && buffer[len..] == old(buffer[len..])
    ensures ctx.Holds(keys)
  {
    hide Tables.Filled, CryptBlock, Ecb, KeyStates, Sub, InvSub, MixWord, InvMixWord, RoundConstant;
    ghost var in0 := buffer[..len];
    var index := 0;
    EcbOfNothing(mode, keys);
    ghost var g := 0;
    while index < len
      invariant index <= len && index == 16 * g && ctx.Holds(keys)
      invariant buffer[..index] == Ecb(mode, keys, in0[..index])
      invariant forall k :: index <= k < len ==> buffer[k] == in0[k]
      invariant buffer[len..] == old(buffer[len..])
    {
      ghost var done := buffer[..index];
      assert buffer[index..index + 16] == in0[index..index + 16];
      CryptEcb(ctx, mode, buffer, index, buffer, index, keys);
      OneMoreBlock(mode, keys, in0, index);
      Grown(buffer[..], done, index);
      index, g := index + 16, g + 1;
    }
    assert in0[..index] == in0;
  }

  lemma OneMoreBlock(mode: Mode, keys: seq<State>, data: seq<bv8>, at: nat)
    requires |keys| >= 2 && at % 16 == 0 && at + 16 <= |data|
    ensures Ecb(mode, keys, data[..at + 16]) == Ecb(mode, keys, data[..at]) + CryptBlock(mode, keys, data[at..at + 16])
  {
    hide CryptBlock, Ecb;
    assert data[..at + 16] == data[..at] + data[at..at + 16];
    EcbAppend(mode, keys, data[..at], data[at..at + 16]);
    EcbOfBlock(mode, keys, data[at..at + 16]);
  }

  lemma EcbOfNothing(mode: Mode, keys: seq<State>)
    requires |keys| >= 2
    ensures Ecb(mode, keys, []) == []
  {
  }

  /** The ciphertext of a payload under a 128-bit key. */
  function Encoded(key: seq<bv8>, data: seq<bv8>): seq<bv8>
    requires |key| == 16
  {
    Ecb(Encrypting, RoundKeys(key), Padded(data))
  }

  /** What decryption of whole blocks gives, padding and all. */
  function Decoded(key: seq<bv8>, data: seq<bv8>): (r: seq<bv8>)
    requires |key| == 16 && |data| % 16 == 0
    ensures |r| == |data|
  {
    Ecb(Decrypting, DecKeys(RoundKeys(key)), data)
  }

  /** Decoding an encoded payload gives the payload and its length, for every key and payload. */
  lemma DecodingUndoesEncoding(key: seq<bv8>, data: seq<bv8>)
    requires |key| == 16 && |data| + 16 < 0x1_0000_0000
    ensures |Encoded(key, data)| % 16 == 0 && |Encoded(key, data)| > |data|
    ensures var d := Decoded(key, Encoded(key, data)); UnpaddedLength(d) == |data| && d[..|data|] == data
  {
    hide Ecb, RoundKeys, DecKeys, Padded, UnpaddedLength;
    EcbIsUndone(RoundKeys(key), Padded(data));
    UnpaddingRecovers(data);
  }

  /** A fresh buffer of `size` bytes that starts with the data. */
  method Copied(data: seq<bv8>, size: nat) returns (buffer: array<bv8>)
    requires |data| <= size
    ensures fresh(buffer) && buffer.Length == size && buffer[..|data|] == data
  {
    buffer := new bv8[size];
    forall i | 0 <= i < |data| { buffer[i] := data[i]; }
  }

  ghost predicate Ready(tables: Tables)
    reads tables, tables.Arrays()
  {
    tables.Shaped() && (tables.initDone ==> tables.Filled())
  }

  /** aes128_ecb_encode_raw, in place. */
  method EncodeRaw(tables: Tables, buffer: array<bv8>, len: nat, key: seq<bv8>) returns (rt: int)
    requires Ready(tables) && |key| == 16 && len <= buffer.Length && buffer !in tables.Arrays()
    modifies tables, tables.Arrays(), buffer
    ensures rt == if len == 0 || len % 16 != 0 then OPRT_INVALID_PARM else OPRT_OK
    ensures rt == OPRT_OK ==> buffer[..len] == Ecb(Encrypting, RoundKeys(key), old(buffer[..len]))
    ensures rt != OPRT_OK ==> buffer[..len] == old(buffer[..len])
    ensures buffer[len..] == old(buffer[len..]) && Ready(tables)
  {
    hide Ecb, RoundKeys, KeyStates, Sub, InvSub, MixWord, InvMixWord, RoundConstant;
    if len == 0 || len % 16 != 0 {
      return OPRT_INVALID_PARM;
    }
    var ctx := new AesContext(tables);
    var ret := ctx.SetkeyEnc(key, 128);
    EcbInPlace(ctx, Encrypting, buffer, len, RoundKeys(key));
    rt := OPRT_OK;
  }

  /** aes128_ecb_decode_raw, in place. */
  method DecodeRaw(tables: Tables, buffer: array<bv8>, len: nat, key: seq<bv8>) returns (rt: int)
    requires Ready(tables) && |key| == 16 && len <= buffer.Length && buffer !in tables.Arrays()
    modifies tables, tables.Arrays(), buffer
    ensures rt == if len == 0 || len % 16 != 0 then OPRT_INVALID_PARM else OPRT_OK
    ensures rt == OPRT_OK ==> buffer[..len] == Ecb(Decrypting, DecKeys(RoundKeys(key)), old(buffer[..len]))
    ensures rt != OPRT_OK ==> buffer[..len] == old(buffer[..len])
    ensures buffer[len..] == old(buffer[len..]) && Ready(tables)
  {
    hide Ecb, RoundKeys, DecKeys, KeyStates, Sub, InvSub, MixWord, InvMixWord, RoundConstant;
    if len == 0 || len % 16 != 0 {
      return OPRT_INVALID_PARM;
    }
    var ctx := new AesContext(tables);
    var ret := ctx.SetkeyDec(key, 128);
    EcbInPlace(ctx, Decrypting, buffer, len, DecKeys(RoundKeys(key)));
    rt := OPRT_OK;
  }

  /** aes128_ecb_encode: a fresh buffer with the padded, encrypted data; an empty payload is refused. */
  method Ecb128Encode(tables: Tables, data: seq<bv8>, key: seq<bv8>) returns (rt: int, ecData: array?<bv8>, ecLen: nat)
    requires Ready(tables) && |key| == 16
    modifies tables, tables.Arrays()
    ensures rt == if data == [] then OPRT_INVALID_PARM else OPRT_OK
    ensures rt != OPRT_OK ==> ecData == null
    ensures rt == OPRT_OK ==> ecData != null && fresh(ecData) && ecLen <= ecData.Length && ecData[..ecLen] == Encoded(key, data)
    ensures Ready(tables)
  {
    hide Ready, Ecb, RoundKeys, Padded;
    if |data| == 0 {
      return OPRT_INVALID_PARM, null, 0;
    }
    var buffer := Copied(data, |data| + 16);
    ecLen := AddPkcs(buffer, |data|);
    rt := EncodeRaw(tables, buffer, ecLen, key);
    ecData := buffer;
  }

  /** aes128_ecb_decode: the decrypted blocks with a zero after them, and the length the last byte leaves. */
  method Ecb128Decode(tables: Tables, data: seq<bv8>, key: seq<bv8>) returns (rt: int, decData: array?<bv8>, decLen: nat)
    requires Ready(tables) && |key| == 16 && |data| < 0x1_0000_0000
    modifies tables, tables.Arrays()
    ensures rt == if data == [] || |data| % 16 != 0 then OPRT_INVALID_PARM else OPRT_OK
    ensures rt != OPRT_OK ==> decData == null
    ensures rt == OPRT_OK ==> (
      && decData != null && fresh(decData) && decData.Length == |data| + 1
      && decData[..|data|] == Decoded(key, data) && decData[|data|] == 0 && decLen == UnpaddedLength(Decoded(key, data)))
    ensures Ready(tables)
  {
    hide Ready, Ecb, RoundKeys, DecKeys;
    if |data| == 0 {
      return OPRT_INVALID_PARM, null, 0;
    }
    var buffer := Copied(data, |data| + 1);
    buffer[|data|] := 0;
    assert buffer[..|data|] == data;
    rt := DecodeRaw(tables, buffer, |data|, key);
    if rt != OPRT_OK {
      return rt, null, |data|;
    }
    buffer[|data|] := 0;
    assert buffer[|data| - 1] == buffer[..|data|][|data| - 1];
    decData, decLen := buffer, (|data| - buffer[|data| - 1] as nat) % 0x1_0000_0000;
  }
}
