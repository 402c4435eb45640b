/** The version 2.2 message packet: "2.2", a CRC, a sequence number, a source and the encrypted payload. */
module Pv22 {
  import opened Bits
  import opened AesTables
  import opened AesSpec
  import opened AesCipher
  import opened AesModes
  import opened Crc32

  const OPRT_COM_ERROR := -0x0001

  const CRC32_OFFSET := 3
  const SEQUENCE_OFFSET := 7
  const SOURCE_OFFSET := 11
  const FIXED_HEADER_LENGTH := 15

  // ---------- words in memory

  /** DWORD_SWAP */
  function Swap(x: bv32): bv32 {
    ((x & 0xFF) << 24) + ((x & 0xFF00) << 8) + ((x & 0xFF_0000) >> 8) + ((x & 0xFF00_0000) >> 24)
  }

  /** A word's bytes as a little-endian machine copies them. */
  function WordBytesLe(x: bv32): (b: seq<bv8>)
    ensures |b| == 4
  {
    [Byte0(x), Byte1(x), Byte2(x), Byte3(x)]
  }

  lemma SwapTwice(x: bv32)
    ensures Swap(Swap(x)) == x
  {
  }

  lemma WordReadBack(x: bv32)
    ensures GetLe(WordBytesLe(x), 0) == x
  {
  }

  /** The byte-swapped word has the same value only if its bytes read the same both ways. */
  lemma SwapFixes(x: bv32)
    ensures Swap(x) == x <==> Byte0(x) == Byte3(x) && Byte1(x) == Byte2(x)
  {
    hide Swap, Byte0, Byte1, Byte2, Byte3;
    SwapBytes(x);
    if Byte0(x) == Byte3(x) && Byte1(x) == Byte2(x) {
      SameWord(Swap(x), x);
    }
  }

  lemma SameWord(x: bv32, y: bv32)
    requires Byte0(x) == Byte0(y) && Byte1(x) == Byte1(y) && Byte2(x) == Byte2(y) && Byte3(x) == Byte3(y)
    ensures x == y
  {
  }

  /** Swapped and copied, a word stands in big-endian order. */
  lemma SwapIsBigEndian(x: bv32)
    ensures WordBytesLe(Swap(x)) == [Byte3(x), Byte2(x), Byte1(x), Byte0(x)]
  {
    SwapBytes(x);
  }

  lemma SwapBytes(x: bv32)
    ensures Byte0(Swap(x)) == Byte3(x) && Byte1(Swap(x)) == Byte2(x) && Byte2(Swap(x)) == Byte1(x) && Byte3(Swap(x)) == Byte0(x)
  {
  }

  // ---------- the packet as bytes

  const VERSION: seq<bv8> := [0x32, 0x2E, 0x32]

  /** What the CRC covers: the sequence number, swapped; the source, as it is; and the ciphertext. */
  function Body(key: seq<bv8>, sequence: bv32, source: bv32, data: seq<bv8>): seq<bv8>
    requires |key| == 16
  {
    WordBytesLe(Swap(sequence)) + (WordBytesLe(source) + Encoded(key, data))
  }

  function PacketText(key: seq<bv8>, sequence: bv32, source: bv32, data: seq<bv8>): seq<bv8>
    requires |key| == 16
  {
    var body := Body(key, sequence, source, data);
    VERSION + (WordBytesLe(Swap(BitwiseCrc(body))) + body)
  }

  /** What decoding makes of a packet. `CopiesTooMuch` is a padding byte larger than the payload: the length
      wraps below zero and the copy into the packet leaves the decrypted buffer. */
  datatype Parsed =
    | TooShort
    | WrongVersion
    | NoPayload(sequence: bv32, source: bv32)
    | CopiesTooMuch(sequence: bv32, source: bv32)
    | Full(sequence: bv32, source: bv32, data: seq<bv8>)
  {
    function Rt(): int {
      match this
      case TooShort => OPRT_INVALID_PARM
      case WrongVersion => OPRT_COM_ERROR
      case NoPayload(_, _) => OPRT_COM_ERROR
      case CopiesTooMuch(_, _) => OPRT_OK
      case Full(_, _, _) => OPRT_OK
    }
  }

  function Parse(key: seq<bv8>, input: seq<bv8>): Parsed
    requires |key| == 16 && |input| < 0x1_0000_0000
  {
    if |input| < FIXED_HEADER_LENGTH then TooShort
    else if input[..CRC32_OFFSET] != VERSION then WrongVersion
    else
      var sequence, source := Swap(GetLe(input, SEQUENCE_OFFSET)), Swap(GetLe(input, SOURCE_OFFSET));
      var payload := input[FIXED_HEADER_LENGTH..];
      if payload == [] || |payload| % 16 != 0 then NoPayload(sequence, source)
      else
        var plain := Decoded(key, payload);
        var length := UnpaddedLength(plain);
        if length > |plain| then CopiesTooMuch(sequence, source) else Full(sequence, source, plain[..length])
  }

  lemma GetLeWithin(b: seq<bv8>, i: nat, w: seq<bv8>)
    requires i + 4 <= |b| && |w| == 4 && b[i..i + 4] == w
    ensures GetLe(b, i) == GetLe(w, 0)
  {
    assert b[i] == b[i..i + 4][0] && b[i + 1] == b[i..i + 4][1] && b[i + 2] == b[i..i + 4][2] && b[i + 3] == b[i..i + 4][3];
  }

  /** The fields of a packet, found again at their offsets. */
  lemma PacketFields(version: seq<bv8>, crc: seq<bv8>, sequence: seq<bv8>, source: seq<bv8>, payload: seq<bv8>)
    requires |version| == 3 && |crc| == |sequence| == |source| == 4
    ensures var p := version + (crc + (sequence + (source + payload)));
      && |p| == 15 + |payload| && p[..3] == version && p[3..7] == crc && p[7..11] == sequence && p[11..15] == source && p[15..] == payload
  {
  }

  /** A packet of a nonempty payload is decoded to its sequence number and its payload; its source comes out
      byte-swapped. */
  lemma DecodingUndoesPacking(key: seq<bv8>, sequence: bv32, source: bv32, data: seq<bv8>)
    requires |key| == 16 && |data| + 31 < 0x1_0000_0000
    ensures Parse(key, PacketText(key, sequence, source, data)) == Full(sequence, Swap(source), data)
  {
    hide Swap, BitwiseCrc, Encoded, Decoded, GetLe, UnpaddedLength, WordBytesLe;
    var c := Encoded(key, data);
    var p := PacketText(key, sequence, source, data);
    EncodedLength(key, data);
    PacketFields(VERSION, WordBytesLe(Swap(BitwiseCrc(Body(key, sequence, source, data)))), WordBytesLe(Swap(sequence)),
                 WordBytesLe(source), c);
    GetLeWithin(p, SEQUENCE_OFFSET, WordBytesLe(Swap(sequence)));
    GetLeWithin(p, SOURCE_OFFSET, WordBytesLe(source));
    WordReadBack(Swap(sequence));
    WordReadBack(source);
    SwapTwice(sequence);
    AesModes.DecodingUndoesEncoding(key, data);
  }

  lemma EncodedLength(key: seq<bv8>, data: seq<bv8>)
    requires |key| == 16
    ensures |Encoded(key, data)| == |data| + PadLength(|data|)
  {
    hide RoundKeys;
  }

  /** The source survives exactly when its bytes read the same both ways. */
  lemma SourceSurvives(key: seq<bv8>, sequence: bv32, source: bv32, data: seq<bv8>)
    requires |key| == 16 && |data| + 31 < 0x1_0000_0000
    ensures Parse(key, PacketText(key, sequence, source, data)) == Full(sequence, source, data)
      <==> Byte0(source) == Byte3(source) && Byte1(source) == Byte2(source)
  {
    hide Swap, Parse, PacketText, Byte0, Byte1, Byte2, Byte3;
    DecodingUndoesPacking(key, sequence, source, data);
    SwapFixes(source);
  }

  /** Source 1, which reports carry, is decoded as 0x01000000. */
  lemma ReportSourceIsChanged(key: seq<bv8>, sequence: bv32, data: seq<bv8>)
    requires |key| == 16 && |data| + 31 < 0x1_0000_0000
    ensures Parse(key, PacketText(key, sequence, 1, data)) == Full(sequence, 0x0100_0000, data)
  {
    assert Swap(1) == 0x0100_0000;
    hide Swap, Parse, PacketText;
    DecodingUndoesPacking(key, sequence, 1, data);
  }

  /** The sequence number is sent big-endian, the source little-endian. */
  lemma WordsOnTheWire(key: seq<bv8>, sequence: bv32, source: bv32, data: seq<bv8>)
    requires |key| == 16
    ensures var p := PacketText(key, sequence, source, data);
      && |p| == FIXED_HEADER_LENGTH + |data| + PadLength(|data|)
      && p[SEQUENCE_OFFSET..SOURCE_OFFSET] == [Byte3(sequence), Byte2(sequence), Byte1(sequence), Byte0(sequence)]
      && p[SOURCE_OFFSET..FIXED_HEADER_LENGTH] == [Byte0(source), Byte1(source), Byte2(source), Byte3(source)]
  {
    hide Swap, BitwiseCrc, Encoded, WordBytesLe;
    EncodedLength(key, data);
    SwapIsBigEndian(sequence);
    WordIsLittleEndian(source);
    PacketFields(VERSION, WordBytesLe(Swap(BitwiseCrc(Body(key, sequence, source, data)))), WordBytesLe(Swap(sequence)),
                 WordBytesLe(source), Encoded(key, data));
  }

  /** The rest of a packet: "2.2" in front, behind it the CRC of all that follows it, big-endian, and at the end the payload,
      padded and encrypted. */
  lemma PacketLayout(key: seq<bv8>, sequence: bv32, source: bv32, data: seq<bv8>)
    requires |key| == 16
    ensures var p := PacketText(key, sequence, source, data);
      && |p| > 15 && p[..3] == [0x32, 0x2E, 0x32] && p[15..] == Encoded(key, data)
      && var crc := BitwiseCrc(p[7..]); p[3..7] == [Byte3(crc), Byte2(crc), Byte1(crc), Byte0(crc)]
  {
    hide Swap, BitwiseCrc, Encoded, WordBytesLe;
    EncodedLength(key, data);
    var body := Body(key, sequence, source, data);
    SwapIsBigEndian(BitwiseCrc(body));
    PacketFields(VERSION, WordBytesLe(Swap(BitwiseCrc(body))), WordBytesLe(Swap(sequence)), WordBytesLe(source), Encoded(key, data));
    assert PacketText(key, sequence, source, data)[7..] == body;
  }

  lemma WordIsLittleEndian(x: bv32)
    ensures WordBytesLe(x) == [Byte0(x), Byte1(x), Byte2(x), Byte3(x)]
  {
  }

  // ---------- a padding byte that is larger than the payload

  /** A packet that gets as far as unpadding: the version, the two words, and whole blocks. */
  predicate Decryptable(input: seq<bv8>) {
    && FIXED_HEADER_LENGTH < |input| < 0x1_0000_0000 && input[..CRC32_OFFSET] == VERSION
    && (|input| - FIXED_HEADER_LENGTH) % 16 == 0
  }

  /** Exactly when the payload's copy leaves the decrypted buffer: the last decrypted byte is larger than the number
      of decrypted bytes. Packets that do not get as far never do. */
  lemma CopiesTooMuchExactly(key: seq<bv8>, input: seq<bv8>)
    requires |key| == 16 && |input| < 0x1_0000_0000
    ensures Parse(key, input).CopiesTooMuch? <==>
      Decryptable(input) && (
        var plain := Decoded(key, input[FIXED_HEADER_LENGTH..]); plain[|plain| - 1] as nat > |input| - FIXED_HEADER_LENGTH)
  {
    hide Swap, Decoded, GetLe;
    if |input| > FIXED_HEADER_LENGTH && (|input| - FIXED_HEADER_LENGTH) % 16 == 0 {
      var plain := Decoded(key, input[FIXED_HEADER_LENGTH..]);
      LengthWraps(|plain|, plain[|plain| - 1] as nat);
    }
  }

  lemma LengthWraps(n: nat, pad: nat)
    requires 0 < n < 0x1_0000_0000 && pad < 256
    ensures (n - pad) % 0x1_0000_0000 > n <==> pad > n
  {
    if pad > n {
      assert (n - pad) % 0x1_0000_0000 == n - pad + 0x1_0000_0000;
    }
  }

  function Zeros(n: nat): (z: seq<bv8>)
    ensures |z| == n
  {
    seq(n, _ => 0)
  }

  /** `n` bytes that decrypt to zeros and a last byte of 255, behind a header. */
  function OverlongPacket(key: seq<bv8>, n: nat): (p: seq<bv8>)
    requires |key| == 16 && n > 0 && n % 16 == 0
    ensures |p| == FIXED_HEADER_LENGTH + n
  {
    VERSION + Zeros(12) + Ecb(Encrypting, RoundKeys(key), Zeros(n - 1) + [0xFF])
  }

  /** For every key there are such packets of exactly the payload sizes below 256: a longer payload holds any byte. */
  lemma OverlongPacketsExist(key: seq<bv8>, n: nat)
    requires |key| == 16 && n > 0 && n % 16 == 0 && FIXED_HEADER_LENGTH + n < 0x1_0000_0000
    ensures n < 256 ==> Parse(key, OverlongPacket(key, n)).CopiesTooMuch?
    ensures n >= 256 ==> forall input :: |input| == FIXED_HEADER_LENGTH + n ==> !Parse(key, input).CopiesTooMuch?
  {
    hide Ecb, RoundKeys, DecKeys, Parse, Zeros;
    forall input | |input| == FIXED_HEADER_LENGTH + n && n >= 256 ensures !Parse(key, input).CopiesTooMuch? {
      CopiesTooMuchExactly(key, input);
    }
    var plain := Zeros(n - 1) + [0xFF];
    var p := OverlongPacket(key, n);
    EcbIsUndone(RoundKeys(key), plain);
    assert p[FIXED_HEADER_LENGTH..] == Ecb(Encrypting, RoundKeys(key), plain) && p[..CRC32_OFFSET] == VERSION;
    CopiesTooMuchExactly(key, p);
  }

  /** Decoding does not look at the CRC: packets that differ there alone are decoded alike. */
  lemma CrcIsNotChecked(key: seq<bv8>, input: seq<bv8>, crc: seq<bv8>)
    requires |key| == 16 && FIXED_HEADER_LENGTH <= |input| < 0x1_0000_0000 && |crc| == 4
    ensures Parse(key, input[..3] + crc + input[7..]) == Parse(key, input)
  {
    hide Swap, Decoded, GetLe, UnpaddedLength;
    var other := input[..3] + crc + input[7..];
    assert other[15..] == input[15..] && other[..3] == input[..3];
    GetLeWithin(other, 7, input[7..11]);
    GetLeWithin(input, 7, input[7..11]);
    GetLeWithin(other, 11, input[11..15]);
    GetLeWithin(input, 11, input[11..15]);
  }

  // ---------- the packet object and the codec

  class PacketObject {
    var sequence: bv32
    var source: bv32
    var datalen: nat
    const data: array<bv8>

    constructor (capacity: nat)
      ensures fresh(data) && data.Length == capacity && datalen == 0
    {
      data := new bv8[capacity];
      sequence, source, datalen := 0, 0, 0;
    }
  }

  /** memcpy of a few bytes into a buffer. */
  method Put(output: array<bv8>, at: nat, bytes: seq<bv8>)
    requires at + |bytes| <= output.Length
    modifies output
    ensures output[at..at + |bytes|] == bytes
    ensures forall k :: 0 <= k < output.Length && !(at <= k < at + |bytes|) ==> output[k] == old(output[k])
  {
    forall i | 0 <= i < |bytes| { output[at + i] := bytes[i]; }
  }

  /** The version and the two words before the payload, which is in place. */
  method PutFields(output: array<bv8>, sequence: bv32, source: bv32, ghost payload: seq<bv8>)
    requires FIXED_HEADER_LENGTH + |payload| <= output.Length
    requires output[FIXED_HEADER_LENGTH..FIXED_HEADER_LENGTH + |payload|] == payload
    modifies output
    ensures output[..CRC32_OFFSET] == VERSION
    ensures output[SEQUENCE_OFFSET..SEQUENCE_OFFSET + (8 + |payload|)] == WordBytesLe(Swap(sequence)) + (WordBytesLe(source) + payload)
  {
    hide Swap, WordBytesLe;
    Put(output, 0, VERSION);
    Put(output, SEQUENCE_OFFSET, WordBytesLe(Swap(sequence)));
    Put(output, SOURCE_OFFSET, WordBytesLe(source));
    assert output[FIXED_HEADER_LENGTH..FIXED_HEADER_LENGTH + |payload|] == payload;
  }

  lemma Assembled(all: seq<bv8>, crc: seq<bv8>, body: seq<bv8>)
    requires |crc| == 4 && 7 + |body| <= |all| && all[..3] == VERSION && all[3..7] == crc && all[7..7 + |body|] == body
    ensures all[..7 + |body|] == VERSION + (crc + body)
  {
    assert all[..7 + |body|] == all[..3] + (all[3..7] + all[7..7 + |body|]);
  }

  /** All of a packet around the ciphertext `c`. */
  method Assemble(output: array<bv8>, sequence: bv32, source: bv32, c: seq<bv8>)
    requires FIXED_HEADER_LENGTH + |c| <= output.Length
    modifies output
    ensures var body := WordBytesLe(Swap(sequence)) + (WordBytesLe(source) + c);
      output[..FIXED_HEADER_LENGTH + |c|] == VERSION + (WordBytesLe(Swap(BitwiseCrc(body))) + body)
  {
    hide Swap, BitwiseCrc, WordBytesLe;
    Put(output, FIXED_HEADER_LENGTH, c);
    PutFields(output, sequence, source, c);
    ghost var body := WordBytesLe(Swap(sequence)) + (WordBytesLe(source) + c);
    var crc := Crc(output, SEQUENCE_OFFSET, 8 + |c|);
    Put(output, CRC32_OFFSET, WordBytesLe(Swap(crc)));
    ghost var all := output[..];
    assert all[..3] == VERSION && all[3..7] == WordBytesLe(Swap(crc)) && all[7..7 + |body|] == body;
    Assembled(all, WordBytesLe(Swap(crc)), body);
    assert output[..FIXED_HEADER_LENGTH + |c|] == all[..7 + |body|];
  }

  /** pv22_packet_encode; an empty payload is refused. */
  method Encode(tables: Tables, key: seq<bv8>, input: PacketObject, output: array<bv8>) returns (rt: int, olen: nat)
    requires Ready(tables) && |key| == 16 && input.datalen <= input.data.Length
    requires output.Length >= FIXED_HEADER_LENGTH + input.datalen + PadLength(input.datalen) && output !in tables.Arrays()
    modifies tables, tables.Arrays(), output
    ensures rt == if old(input.datalen) == 0 then OPRT_COM_ERROR else OPRT_OK
    ensures rt != OPRT_OK ==> output[..] == old(output[..])
    ensures rt == OPRT_OK ==>
      olen <= output.Length && output[..olen] == PacketText(key, old(input.sequence), old(input.source), old(input.data[..input.datalen]))
    ensures Ready(tables)
  {
    hide Ready, Encoded, Swap, BitwiseCrc, WordBytesLe;
    ghost var payload := input.data[..input.datalen];
    var ret, ecData, ecLen := Ecb128Encode(tables, input.data[..input.datalen], key);
    if ret != OPRT_OK {
      return OPRT_COM_ERROR, 0;
    }
    EncodedLength(key, payload);
    Assemble(output, input.sequence, input.source, ecData[..ecLen]);
    olen := FIXED_HEADER_LENGTH + ecLen;
    rt := OPRT_OK;
  }

  /** pv22_packet_decode. `copied` says whether the copy of the payload stayed inside the decrypted buffer; where
      it does not, nothing is claimed of the packet but its header. */
  method Decode(tables: Tables, key: seq<bv8>, input: seq<bv8>, output: PacketObject) returns (rt: int, copied: bool)
    requires Ready(tables) && |key| == 16 && |input| < 0x1_0000_0000 && output.data !in tables.Arrays()
    requires output.data.Length + FIXED_HEADER_LENGTH >= |input|
    modifies tables, tables.Arrays(), output, output.data
    ensures Ready(tables)
    ensures var p := Parse(key, input);
      && rt == p.Rt() && (copied <==> !p.CopiesTooMuch?)
      && (p.TooShort? || p.WrongVersion? ==> output.sequence == old(output.sequence) && output.source == old(output.source))
      && (p.NoPayload? || p.CopiesTooMuch? || p.Full? ==> output.sequence == p.sequence && output.source == p.source)
      && (!p.Full? ==> output.datalen == old(output.datalen) && output.data[..] == old(output.data[..]))
      && (p.Full? ==> output.datalen == |p.data| && output.datalen <= output.data.Length && output.data[..output.datalen] == p.data)
  {
    hide Ready, Decoded, Swap, GetLe, UnpaddedLength;
    copied := true;
    if |input| < FIXED_HEADER_LENGTH {
      return OPRT_INVALID_PARM, true;
    }
    if input[..CRC32_OFFSET] != VERSION {
      return OPRT_COM_ERROR, true;
    }
    output.sequence := Swap(GetLe(input, SEQUENCE_OFFSET));
    output.source := Swap(GetLe(input, SOURCE_OFFSET));
    var payload := input[FIXED_HEADER_LENGTH..];
    var ret, decData, decLen := Ecb128Decode(tables, payload, key);
    if ret != OPRT_OK {
      return OPRT_COM_ERROR, true;
    }
    if decLen > |payload| {
      return OPRT_OK, false;
    }
    assert decData[..decLen] == decData[..|payload|][..decLen];
    Put(output.data, 0, decData[..decLen]);
    output.datalen := decLen;
    rt := OPRT_OK;
  }
}
