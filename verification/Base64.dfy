/** Base64: the encoder, the two-pass decoder, and how they fit together. */
module Base64 {

  type byte = x: int | 0 <= x < 256

  const SIZE_MAX: nat := 0xFFFF_FFFF

  datatype Status = Ok | BufferTooSmall | InvalidCharacter

  const PAD: byte := 61
  const SPACE: byte := 32
  const CR: byte := 13
  const LF: byte := 10

  // ---------- tables

  /** base64_enc_map, ten entries a row. */
  function EncRow(r: nat): seq<char>
    requires r < 7
  {
    match r
    case 0 => ['A', 'B', 'C', 'D', 'E', 'F', 'G', 'H', 'I', 'J']
    case 1 => ['K', 'L', 'M', 'N', 'O', 'P', 'Q', 'R', 'S', 'T']
    case 2 => ['U', 'V', 'W', 'X', 'Y', 'Z', 'a', 'b', 'c', 'd']
    case 3 => ['e', 'f', 'g', 'h', 'i', 'j', 'k', 'l', 'm', 'n']
    case 4 => ['o', 'p', 'q', 'r', 's', 't', 'u', 'v', 'w', 'x']
    case 5 => ['y', 'z', '0', '1', '2', '3', '4', '5', '6', '7']
    case _ => ['8', '9', '+', '/']
  }

  function EncMap(i: nat): (c: byte)
    requires i < 64
    ensures c == Symbol(i)
  {
    EncSymbol(i);
    EncRow(i / 10)[i % 10] as int
  }

  /** base64_dec_map, ten entries a row: 64 marks the pad, 127 what is no Base64 character. */
  function DecRow(r: nat): seq<nat>
    requires r < 13
  {
    match r
    case 0 => [127, 127, 127, 127, 127, 127, 127, 127, 127, 127]
    case 1 => [127, 127, 127, 127, 127, 127, 127, 127, 127, 127]
    case 2 => [127, 127, 127, 127, 127, 127, 127, 127, 127, 127]
    case 3 => [127, 127, 127, 127, 127, 127, 127, 127, 127, 127]
    case 4 => [127, 127, 127, 62, 127, 127, 127, 63, 52, 53]
    case 5 => [54, 55, 56, 57, 58, 59, 60, 61, 127, 127]
    case 6 => [127, 64, 127, 127, 127, 0, 1, 2, 3, 4]
    case 7 => [5, 6, 7, 8, 9, 10, 11, 12, 13, 14]
    case 8 => [15, 16, 17, 18, 19, 20, 21, 22, 23, 24]
    case 9 => [25, 127, 127, 127, 127, 127, 127, 26, 27, 28]
    case 10 => [29, 30, 31, 32, 33, 34, 35, 36, 37, 38]
    case 11 => [39, 40, 41, 42, 43, 44, 45, 46, 47, 48]
    case _ => [49, 50, 51, 127, 127, 127, 127, 127]
  }

  function DecMap(c: byte): (v: nat)
    requires c < 128
    ensures v == Value(c)
  {
    if c < 64 then DecValueLow(c); DecRow(c / 10)[c % 10] else DecValueHigh(c); DecRow(c / 10)[c % 10]
  }

  /** The alphabet, table 1 of RFC 4648. */
  function Symbol(v: nat): (c: byte)
    requires v < 64
  {
    if v < 26 then 65 + v else if v < 52 then 97 + (v - 26) else if v < 62 then 48 + (v - 52) else if v == 62 then 43 else 47
  }

  function Value(c: byte): (v: nat)
    ensures v < 64 || v == 64 || v == 127
  {
    if 65 <= c <= 90 then c - 65
    else if 97 <= c <= 122 then c - 97 + 26
    else if 48 <= c <= 57 then c - 48 + 52
    else if c == 43 then 62
    else if c == 47 then 63
    else if c == PAD then 64
    else 127
  }

  /** The encoder's table is the alphabet. */
  lemma EncSymbol(i: nat)
    requires i < 64
    ensures |EncRow(i / 10)| > i % 10 && EncRow(i / 10)[i % 10] as int == Symbol(i)
  {
  }

  /** The decoder's table inverts the alphabet and knows nothing else but the pad. */
  lemma DecValueLow(c: byte)
    requires c < 64
    ensures |DecRow(c / 10)| > c % 10 && DecRow(c / 10)[c % 10] == Value(c)
  {
  }

  lemma DecValueHigh(c: byte)
    requires 64 <= c < 128
    ensures |DecRow(c / 10)| > c % 10 && DecRow(c / 10)[c % 10] == Value(c)
  {
  }

  lemma ValueOfSymbol(v: nat)
    requires v < 64
    ensures Value(Symbol(v)) == v && Symbol(v) < 128
  {
  }

  // ---------- encoding

  /** Section 4 of RFC 4648: three bytes are a 24-bit number, written as four six-bit groups. */
  function Quad(b0: byte, b1: byte, b2: byte): (q: seq<byte>)
    ensures |q| == 4
  {
    var n := (b0 * 0x100 + b1) * 0x100 + b2;
    [Symbol(n / 0x40000), Symbol(n / 0x1000 % 0x40), Symbol(n / 0x40 % 0x40), Symbol(n % 0x40)]
  }

  function Encoded(s: seq<byte>): (r: seq<byte>)
    ensures |r| == (|s| + 2) / 3 * 4
  {
    if s == [] then []
    else if |s| == 1 then Quad(s[0], 0, 0)[..2] + [PAD, PAD]
    else if |s| == 2 then Quad(s[0], s[1], 0)[..3] + [PAD]
    else
      assert (|s| + 2) / 3 == (|s| - 1) / 3 + 1;
      Quad(s[0], s[1], s[2]) + Encoded(s[3..])
  }

  /** Table 1 of RFC 4648, sixteen characters a row. */
  lemma Alphabet(v: nat)
    requires v < 16
    ensures Symbol(v) == "ABCDEFGHIJKLMNOP"[v] as int && Symbol(16 + v) == "QRSTUVWXYZabcdef"[v] as int
    ensures Symbol(32 + v) == "ghijklmnopqrstuv"[v] as int && Symbol(48 + v) == "wxyz0123456789+/"[v] as int
  {
  }

  /** Section 10 of RFC 4648: the encodings of "", "f", "fo", "foo", and of "foob", "fooba" and "foobar". */
  lemma TestVectors()
    ensures Encoded([]) == [] && Encoded([102]) == [90, 103, 61, 61] && Encoded([102, 111]) == [90, 109, 56, 61]
    ensures Encoded([102, 111, 111]) == [90, 109, 57, 118]
    ensures Encoded([102, 111, 111, 98]) == [90, 109, 57, 118, 89, 103, 61, 61]
    ensures Encoded([102, 111, 111, 98, 97]) == [90, 109, 57, 118, 89, 109, 69, 61]
    ensures Encoded([102, 111, 111, 98, 97, 114]) == [90, 109, 57, 118, 89, 109, 70, 121]
  {
    ShortVectors();
    QuadVectors();
    hide Encoded, Quad;
    FirstThree([98]);
    FirstThree([98, 97]);
    FirstThree([98, 97, 114]);
    assert [102, 111, 111] + [98] == [102, 111, 111, 98];
    assert [102, 111, 111] + [98, 97] == [102, 111, 111, 98, 97];
    assert [102, 111, 111] + [98, 97, 114] == [102, 111, 111, 98, 97, 114];
  }

  lemma FirstThree(rest: seq<byte>)
    requires rest != []
    ensures Encoded([102, 111, 111] + rest) == Quad(102, 111, 111) + Encoded(rest)
  {
    hide Quad;
    assert ([102, 111, 111] + rest)[3..] == rest;
  }

  lemma QuadVectors()
    ensures Quad(102, 111, 111) == [90, 109, 57, 118] && Quad(98, 97, 114) == [89, 109, 70, 121]
    ensures Quad(102, 0, 0) == [90, 103, 65, 65] && Quad(102, 111, 0) == [90, 109, 56, 65]
    ensures Quad(98, 0, 0) == [89, 103, 65, 65] && Quad(98, 97, 0) == [89, 109, 69, 65]
  {
    SymbolVectors();
    hide Symbol;
    QuadOfParts(25, 2, 6, 15, 1, 47);
    QuadOfParts(24, 2, 6, 1, 1, 50);
    QuadOfParts(25, 2, 0, 0, 0, 0);
    QuadOfParts(25, 2, 6, 15, 0, 0);
    QuadOfParts(24, 2, 0, 0, 0, 0);
    QuadOfParts(24, 2, 6, 1, 0, 0);
    hide Quad;
  }

  lemma SymbolVectors()
    ensures Symbol(25) == 90 && Symbol(38) == 109 && Symbol(61) == 57 && Symbol(47) == 118
    ensures Symbol(24) == 89 && Symbol(5) == 70 && Symbol(50) == 121
    ensures Symbol(32) == 103 && Symbol(0) == 65 && Symbol(60) == 56 && Symbol(4) == 69
  {
  }

  lemma ShortVectors()
    ensures Encoded([]) == [] && Encoded([102]) == [90, 103, 61, 61] && Encoded([102, 111]) == [90, 109, 56, 61]
    ensures Encoded([102, 111, 111]) == [90, 109, 57, 118] && Encoded([98, 97, 114]) == [89, 109, 70, 121]
    ensures Encoded([98]) == [89, 103, 61, 61] && Encoded([98, 97]) == [89, 109, 69, 61]
  {
    QuadVectors();
    hide Quad;
    assert [102, 111, 111][3..] == [] && [98, 97, 114][3..] == [];
  }

  /** The digits of a number written with four sextets. */
  lemma SextetDigits(a: nat, b: nat, c: nat, d: nat)
    requires a < 64 && b < 64 && c < 64 && d < 64
    ensures var n := ((a * 64 + b) * 64 + c) * 64 + d;
      n / 0x40000 == a && n / 0x1000 % 0x40 == b && n / 0x40 % 0x40 == c && n % 0x40 == d
  {
    var n := ((a * 64 + b) * 64 + c) * 64 + d;
    assert n / 0x40 == (a * 64 + b) * 64 + c;
    assert n / 0x1000 == a * 64 + b;
  }

  lemma QuadOfParts(h0: nat, l0: nat, h1: nat, l1: nat, h2: nat, l2: nat)
    requires h0 < 64 && l0 < 4 && h1 < 16 && l1 < 16 && h2 < 4 && l2 < 64
    ensures Quad(h0 * 4 + l0, h1 * 16 + l1, h2 * 64 + l2)
         == [Symbol(h0), Symbol(l0 * 16 + h1), Symbol(l1 * 4 + h2), Symbol(l2)]
  {
    hide Symbol;
    assert ((h0 * 4 + l0) * 0x100 + (h1 * 16 + l1)) * 0x100 + (h2 * 64 + l2)
        == ((h0 * 64 + (l0 * 16 + h1)) * 64 + (l1 * 4 + h2)) * 64 + l2;
    SextetDigits(h0, l0 * 16 + h1, l1 * 4 + h2, l2);
  }

  /** The code's four sextets are those of the 24-bit number. */
  lemma Sextets(b0: byte, b1: byte, b2: byte)
    ensures Quad(b0, b1, b2)
         == [Symbol(b0 / 4 % 64), Symbol((b0 % 4 * 16 + b1 / 16) % 64), Symbol((b1 % 16 * 4 + b2 / 64) % 64), Symbol(b2 % 64)]
  {
    hide Symbol, Quad;
    QuadOfParts(b0 / 4, b0 % 4, b1 / 16, b1 % 16, b2 / 64, b2 % 64);
  }

  lemma EncodedSplit(done: seq<byte>, s: seq<byte>, i: nat)
    requires i + 3 <= |s|
    ensures done + Encoded(s[i..]) == done + Quad(s[i], s[i + 1], s[i + 2]) + Encoded(s[i + 3..])
  {
    var t := s[i..];
    assert t[0] == s[i] && t[1] == s[i + 1] && t[2] == s[i + 2] && t[3..] == s[i + 3..];
    hide Quad;
    assert t != [] && |t| >= 3;
  }

  ghost function Written(dst: array?<byte>): set<array<byte>> {
    if dst == null then {} else {dst}
  }

  /** mbedtls_base64_encode; the length of `dst` is the size its caller gives. */
  method Encode(dst: array?<byte>, src: seq<byte>) returns (status: Status, olen: nat)
    modifies Written(dst)
    ensures var n := (|src| + 2) / 3 * 4;
      && (status == Ok <==> src == [] || (n < SIZE_MAX && dst != null && n + 1 <= dst.Length))
      && (status != Ok ==> status == BufferTooSmall && olen == if n < SIZE_MAX then n + 1 else SIZE_MAX)
    ensures status == Ok ==> olen == |Encoded(src)|
    ensures status == Ok && src != [] ==> dst[..olen] == Encoded(src) && dst[olen] == 0
    ensures dst != null ==>
      forall k :: (if status == Ok && src != [] then olen + 1 else 0) <= k < dst.Length ==> dst[k] == old(dst[k])
  {
    if |src| == 0 {
      return Ok, 0;
    }
    var n := |src| / 3 + (if |src| % 3 != 0 then 1 else 0);
    RoundedUp(|src|);
    if n > (SIZE_MAX - 1) / 4 {
      return BufferTooSmall, SIZE_MAX;
    }
    n := n * 4;
    if dst == null || dst.Length < n + 1 {
      return BufferTooSmall, n + 1;
    }
    hide Encoded;
    olen := EncodeInto(dst, src);
    status := Ok;
  }

  /** The encoding loop, into a buffer that is large enough, and the NUL after the text. */
  method EncodeInto(dst: array<byte>, src: seq<byte>) returns (olen: nat)
    requires |Encoded(src)| < dst.Length
    modifies dst
    ensures olen == |Encoded(src)| && dst[..olen] == Encoded(src) && dst[olen] == 0
    ensures forall k :: olen < k < dst.Length ==> dst[k] == old(dst[k])
  {
    hide Quad, Encoded;
    var quads := |src| / 3;
    var n := quads * 3;
    var i, p := 0, 0;
    ghost var g := 0;
    assert src[0..] == src && dst[..0] == [];
    while i < n
      invariant 0 <= g <= quads && i == 3 * g && p == 4 * g
      invariant dst[..p] + Encoded(src[i..]) == Encoded(src)
      invariant forall k :: p <= k < dst.Length ==> dst[k] == old(dst[k])
    {
      EncodedSplit(dst[..p], src, i);
      StoreQuad(dst, p, src[i], src[i + 1], src[i + 2]);
      i, p, g := i + 3, p + 4, g + 1;
    }
    if i < |src| {
      StoreTail(dst, p, src[i..]);
      p := p + 4;
    } else {
      assert Encoded([]) == [] by { EncodedEmpty(); }
      assert src[i..] == [] && dst[..p] + [] == dst[..p];
    }
    olen := p;
    ghost var text := dst[..p];
    dst[p] := 0;
    assert dst[..p] == text;
  }

  lemma EncodedEmpty()
    ensures Encoded([]) == []
  {
  }

  lemma RoundedUp(n: nat)
    ensures n / 3 + (if n % 3 != 0 then 1 else 0) == (n + 2) / 3
  {
  }

  /** The last one or two bytes. */
  method StoreTail(dst: array<byte>, p: nat, tail: seq<byte>)
    requires 1 <= |tail| <= 2 && p + 4 <= dst.Length
    modifies dst
    ensures dst[..p + 4] == old(dst[..p]) + Encoded(tail)
    ensures forall k :: p + 4 <= k < dst.Length ==> dst[k] == old(dst[k])
  {
    TailText(tail);
    hide Encoded, Symbol;
    var c1 := tail[0];
    var c2 := if 1 < |tail| then tail[1] else 0;
    dst[p] := EncMap(c1 / 4 % 64);
    dst[p + 1] := EncMap((c1 % 4 * 16 + c2 / 16) % 64);
    if 1 < |tail| {
      dst[p + 2] := EncMap(c2 % 16 * 4 % 64);
    } else {
      dst[p + 2] := PAD;
    }
    dst[p + 3] := PAD;
    FourMore(dst[..], old(dst[..p]), Encoded(tail));
  }

  lemma FourMore(all: seq<byte>, before: seq<byte>, q: seq<byte>)
    requires |q| == 4 && |before| + 4 <= |all| && all[..|before|] == before
    requires var p := |before|; all[p] == q[0] && all[p + 1] == q[1] && all[p + 2] == q[2] && all[p + 3] == q[3]
    ensures all[..|before| + 4] == before + q
  {
    var p := |before|;
    assert all[p..p + 4] == q;
    assert all[..p + 4] == all[..p] + all[p..p + 4];
  }

  lemma TailText(tail: seq<byte>)
    requires 1 <= |tail| <= 2
    ensures var c1, c2 := tail[0], if 1 < |tail| then tail[1] else 0;
      Encoded(tail) == [Symbol(c1 / 4 % 64), Symbol((c1 % 4 * 16 + c2 / 16) % 64),
                        if 1 < |tail| then Symbol(c2 % 16 * 4 % 64) else PAD, PAD]
  {
    var c1, c2 := tail[0], if 1 < |tail| then tail[1] else 0;
    var q := Quad(c1, c2, 0);
    Sextets(c1, c2, 0);
    var a, b, c := Symbol(c1 / 4 % 64), Symbol((c1 % 4 * 16 + c2 / 16) % 64), Symbol(c2 % 16 * 4 % 64);
    assert q[0] == a && q[1] == b && q[2] == c;
    hide Symbol, Quad;
    if |tail| == 1 {
      FrontTwo(q);
      assert Encoded(tail) == q[..2] + [PAD, PAD];
    } else {
      FrontThree(q);
      assert Encoded(tail) == q[..3] + [PAD];
    }
  }

  lemma FrontTwo(q: seq<byte>)
    requires |q| == 4
    ensures q[..2] + [PAD, PAD] == [q[0], q[1], PAD, PAD]
  {
  }

  lemma FrontThree(q: seq<byte>)
    requires |q| == 4
    ensures q[..3] + [PAD] == [q[0], q[1], q[2], PAD]
  {
  }

  method StoreQuad(dst: array<byte>, p: nat, c1: byte, c2: byte, c3: byte)
    requires p + 4 <= dst.Length
    modifies dst
    ensures dst[..p + 4] == old(dst[..p]) + Quad(c1, c2, c3)
    ensures forall k :: p + 4 <= k < dst.Length ==> dst[k] == old(dst[k])
  {
    Sextets(c1, c2, c3);
    hide Quad, Symbol;
    dst[p] := EncMap(c1 / 4 % 64);
    dst[p + 1] := EncMap((c1 % 4 * 16 + c2 / 16) % 64);
    dst[p + 2] := EncMap((c2 % 16 * 4 + c3 / 64) % 64);
    dst[p + 3] := EncMap(c3 % 64);
    FourMore(dst[..], old(dst[..p]), Quad(c1, c2, c3));
  }

  // ---------- decoding, first pass

  datatype Checked = Rejected | Accepted(chars: nat, pads: nat)

  function SpacesEnd(src: seq<byte>, i: nat): (k: nat)
    requires i <= |src|
    ensures i <= k <= |src| && (k < |src| ==> src[k] != SPACE)
    ensures forall m :: i <= m < k ==> src[m] == SPACE
    decreases |src| - i
  {
    if i < |src| && src[i] == SPACE then SpacesEnd(src, i + 1) else i
  }

  /** The first pass from position `i`, with `n` characters and `j` pads seen so far. */
  function FirstPass(src: seq<byte>, i: nat, n: nat, j: nat): Checked
    requires i <= |src|
    decreases |src| - i
  {
    if i == |src| then Accepted(n, j)
    else
      var k := SpacesEnd(src, i);
      if k == |src| then Accepted(n, j)
      else if |src| - k >= 2 && src[k] == CR && src[k + 1] == LF then FirstPass(src, k + 1, n, j)
      else if src[k] == LF then FirstPass(src, k + 1, n, j)
      else if k > i then Rejected
      else CheckChar(src, k, n, j)
  }

  function CheckChar(src: seq<byte>, k: nat, n: nat, j: nat): Checked
    requires k < |src|
    decreases |src| - k, 0
  {
    var j' := if src[k] == PAD then j + 1 else j;
    if j' > 2 && src[k] == PAD then Rejected
    else if src[k] > 127 || Value(src[k]) == 127 then Rejected
    else if Value(src[k]) < 64 && j' != 0 then Rejected
    else FirstPass(src, k + 1, n + 1, j')
  }

  /** The characters that both passes look at: all but spaces, CR and LF. */
  function Strip(src: seq<byte>): (r: seq<byte>)
    ensures |r| <= |src|
  {
    if src == [] then []
    else if src[0] == SPACE || src[0] == CR || src[0] == LF then Strip(src[1..])
    else [src[0]] + Strip(src[1..])
  }

  lemma StripSplit(src: seq<byte>, i: nat)
    requires i < |src|
    ensures Strip(src[i..])
         == if src[i] == SPACE || src[i] == CR || src[i] == LF then Strip(src[i + 1..]) else [src[i]] + Strip(src[i + 1..])
  {
    assert src[i..][0] == src[i] && src[i..][1..] == src[i + 1..];
  }

  lemma {:induction false} StripSpaces(src: seq<byte>, i: nat, k: nat)
    requires i <= k <= |src| && forall m :: i <= m < k ==> src[m] == SPACE
    ensures Strip(src[i..]) == Strip(src[k..])
    decreases k - i
  {
    if i < k { StripSplit(src, i); StripSpaces(src, i + 1, k); }
  }

  /** Sextets and then `pads` pads; only pads when some were seen before. */
  ghost predicate Shape(c: seq<byte>, before: nat, pads: nat) {
    && pads <= |c| && before + pads <= 2
    && (before > 0 ==> pads == |c|)
    && (forall k :: 0 <= k < |c| - pads ==> Value(c[k]) < 64)
    && (forall k :: |c| - pads <= k < |c| ==> c[k] == PAD)
  }

  lemma ShapeCons(x: byte, tail: seq<byte>, before: nat, pads: nat)
    requires x == PAD || (Value(x) < 64 && before == 0)
    requires Shape(tail, if x == PAD then before + 1 else before, pads)
    ensures Shape([x] + tail, before, if x == PAD then pads + 1 else pads)
  {
    hide Value;
    var c := [x] + tail;
    assert forall m :: 1 <= m < |c| ==> c[m] == tail[m - 1];
  }

  lemma ValueMarks(c: byte)
    ensures Value(c) == 64 <==> c == PAD
    ensures c == CR || c == LF || c == SPACE ==> Value(c) == 127
  {
  }

  /** What the first pass accepts: at most two pads, all of them at the end, and nothing but alphabet
      characters before; the two counts are those of the stripped text. */
  lemma {:induction false} AcceptedShape(src: seq<byte>, i: nat, n: nat, j: nat)
    requires i <= |src| && j <= 2 && FirstPass(src, i, n, j).Accepted?
    ensures var r, c := FirstPass(src, i, n, j), Strip(src[i..]);
      r.chars == n + |c| && j <= r.pads && Shape(c, j, r.pads - j)
    decreases |src| - i
  {
    hide Shape, Value, Strip;
    if i < |src| {
      var k := SpacesEnd(src, i);
      StripSpaces(src, i, k);
      if k < |src| {
        StripSplit(src, k);
        if src[k] == LF || (|src| - k >= 2 && src[k] == CR && src[k + 1] == LF) {
          AcceptedShape(src, k + 1, n, j);
        } else {
          ValueMarks(src[k]);
          var j' := if src[k] == PAD then j + 1 else j;
          AcceptedShape(src, k + 1, n + 1, j');
          ShapeCons(src[k], Strip(src[k + 1..]), j, FirstPass(src, i, n, j).pads - j');
        }
      } else {
        assert src[k..] == [];
        NothingStripped(j);
      }
    } else {
      assert src[i..] == [];
      NothingStripped(j);
    }
  }

  lemma NothingStripped(j: nat)
    ensures Strip([]) == [] && (j <= 2 ==> Shape([], j, 0))
  {
  }

  // ---------- decoding, second pass

  function PadsIn(q: seq<byte>): (n: nat)
    ensures n <= |q|
  {
    if q == [] then 0 else (if q[0] == PAD then 1 else 0) + PadsIn(q[1..])
  }

  function Digit(c: byte): (d: nat)
    ensures d < 64
  {
    Value(c) % 64
  }

  /** The three bytes of four sextets. */
  function Triple(q: seq<byte>): (r: seq<byte>)
    requires |q| == 4
    ensures |r| == 3
  {
    ThreeBytesOf(((Digit(q[0]) * 64 + Digit(q[1])) * 64 + Digit(q[2])) * 64 + Digit(q[3]))
  }

  function ThreeBytesOf(n: nat): (r: seq<byte>)
    requires n < 0x1000000
    ensures |r| == 3
  {
    [n / 0x10000, n / 0x100 % 0x100, n % 0x100]
  }


  /** The bytes of the complete groups of `c`; of a group as many are kept as 3 minus the pads seen. */
  function Groups(c: seq<byte>, pads: nat): seq<byte> {
    if |c| < 4 then []
    else
      var p := pads + PadsIn(c[..4]);
      Triple(c[..4])[..if p <= 3 then 3 - p else 0] + Groups(c[4..], p)
  }

  /** What decoding means: the bytes of the stripped text, or a refusal. */
  datatype Decoding = Refused | Bytes(bytes: seq<byte>)

  function Decoded(src: seq<byte>): Decoding {
    if FirstPass(src, 0, 0, 0).Rejected? then Refused else Bytes(Groups(Strip(src), 0))
  }

  /** The first pass's estimate for `n` characters, `pads` of them pads. */
  function Estimate(n: nat, pads: nat): int {
    6 * (n / 8) + (6 * (n % 8) + 7) / 8 - pads
  }

  lemma {:induction false} PadsInShape(q: seq<byte>, pads: nat)
    requires pads <= |q|
    requires forall k :: 0 <= k < |q| - pads ==> Value(q[k]) < 64
    requires forall k :: |q| - pads <= k < |q| ==> q[k] == PAD
    ensures PadsIn(q) == pads
  {
    if q != [] {
      if pads == |q| { PadsInShape(q[1..], pads - 1); } else { PadsInShape(q[1..], pads); }
    }
  }

  lemma {:induction false} GroupsLength(c: seq<byte>, pads: nat)
    requires Shape(c, 0, pads)
    ensures |Groups(c, 0)| == |c| / 4 * 3 - (if pads > |c| % 4 then pads - |c| % 4 else 0)
    decreases |c|
  {
    hide Triple, Value;
    if |c| >= 4 {
      var q, rest := c[..4], c[4..];
      if |rest| >= pads {
        PadsInShape(q, 0);
        GroupsLength(rest, pads);
        assert |c| / 4 == |rest| / 4 + 1 && |c| % 4 == |rest| % 4;
      } else {
        PadsInShape(q, pads - |rest|);
      }
    }
  }

  lemma EstimateValue(n: nat, pads: nat)
    ensures Estimate(n, pads) == n / 4 * 3 + n % 4 - pads
  {
  }

  /** The two passes agree on the size: the estimate never goes below zero, the second pass never writes
      more, and it writes exactly so much less as a trailing partial group has sextets beyond the pads;
      for whole groups the two are equal and three quarters of the source length are enough. */
  lemma FirstPassBoundsSecond(src: seq<byte>)
    requires FirstPass(src, 0, 0, 0).Accepted?
    ensures var r, w := FirstPass(src, 0, 0, 0), |Groups(Strip(src), 0)|;
      && r.chars == |Strip(src)| && r.pads <= 2
      && Estimate(r.chars, r.pads) == w + (if r.chars % 4 > r.pads then r.chars % 4 - r.pads else 0)
      && (r.chars % 4 == 0 ==> w == Estimate(r.chars, r.pads) <= |src| * 3 / 4)
  {
    assert src[0..] == src;
    AcceptedShape(src, 0, 0, 0);
    var r := FirstPass(src, 0, 0, 0);
    GroupsLength(Strip(src), r.pads);
    EstimateValue(r.chars, r.pads);
  }

  // ---------- which texts are accepted

  /** Spaces stand before a line break or at the end, and a CR before an LF. */
  predicate BlankAt(src: seq<byte>, m: nat)
    requires m < |src|
  {
    && (src[m] == SPACE ==> m + 1 == |src| || src[m + 1] == SPACE || src[m + 1] == LF || src[m + 1] == CR)
    && (src[m] == CR ==> m + 1 < |src| && src[m + 1] == LF)
  }

  ghost predicate Blanks(src: seq<byte>, i: nat) {
    forall m :: i <= m < |src| ==> BlankAt(src, m)
  }

  lemma BlankRun(src: seq<byte>, i: nat, k: nat)
    requires i <= k <= |src| && forall m :: i <= m < k ==> src[m] == SPACE
    ensures Blanks(src, i) <==> Blanks(src, k) && (i < k < |src| ==> src[k] == LF || src[k] == CR || src[k] == SPACE)
  {
    if i < k < |src| && Blanks(src, i) {
      assert BlankAt(src, k - 1);
    }
    if Blanks(src, k) && (i < k < |src| ==> src[k] == LF || src[k] == CR || src[k] == SPACE) {
      forall m | i <= m < |src| ensures BlankAt(src, m) {
      }
    }
  }

  lemma BlankNext(src: seq<byte>, k: nat)
    requires k < |src|
    ensures Blanks(src, k) <==> BlankAt(src, k) && Blanks(src, k + 1)
  {
    hide BlankAt;
    if Blanks(src, k) {
      assert BlankAt(src, k);
    }
  }

  /** The characters make a Base64 text when `before` pads came before them. */
  ghost predicate Text(c: seq<byte>, before: nat) {
    Shape(c, before, PadsIn(c))
  }

  lemma TextCons(x: byte, tail: seq<byte>, before: nat)
    ensures Text([x] + tail, before) <==>
      if x == PAD then before < 2 && Text(tail, before + 1) else Value(x) < 64 && before == 0 && Text(tail, 0)
  {
    var c := [x] + tail;
    assert c[1..] == tail && PadsIn(c) == (if x == PAD then 1 else 0) + PadsIn(tail);
    assert forall m :: 0 <= m < |tail| ==> tail[m] == c[m + 1];
    hide Value, PadsIn;
    if Text(c, before) {
      if x == PAD && |c| > PadsIn(c) {
        assert Value(c[0]) < 64;
        ValueMarks(x);
      }
    }
    if (if x == PAD then before < 2 && Text(tail, before + 1) else Value(x) < 64 && before == 0 && Text(tail, 0)) {
      ShapeCons(x, tail, before, PadsIn(tail));
    }
  }

  /** Exactly which texts the first pass accepts: spaces only before a line break or at the end, every CR before an LF, and
      otherwise alphabet characters with at most two pads, all of them at the end. */
  lemma {:induction false} AcceptedExactly(src: seq<byte>, i: nat, n: nat, j: nat)
    requires i <= |src| && j <= 2
    ensures FirstPass(src, i, n, j).Accepted? <==> Blanks(src, i) && Text(Strip(src[i..]), j)
    decreases |src| - i
  {
    hide Text, Value, Strip, Blanks;
    var k := SpacesEnd(src, i);
    StripSpaces(src, i, k);
    BlankRun(src, i, k);
    if k == |src| {
      assert src[k..] == [];
      NoText(src, j);
    } else {
      BlankNext(src, k);
      StripSplit(src, k);
      ValueMarks(src[k]);
      if src[k] == LF || (|src| - k >= 2 && src[k] == CR && src[k + 1] == LF) {
        AcceptedExactly(src, k + 1, n, j);
      } else if k == i && src[k] != CR {
        CharAccepted(src, k, n, j);
      }
    }
  }

  lemma NoText(src: seq<byte>, j: nat)
    requires j <= 2
    ensures Strip([]) == [] && Text([], j) && Blanks(src, |src|)
  {
  }

  lemma {:induction false} CharAccepted(src: seq<byte>, k: nat, n: nat, j: nat)
    requires k < |src| && j <= 2 && src[k] != SPACE && src[k] != CR && src[k] != LF
    ensures CheckChar(src, k, n, j).Accepted? <==> Blanks(src, k) && Text(Strip(src[k..]), j)
    decreases |src| - k, 0
  {
    hide Text, Strip, Blanks;
    BlankNext(src, k);
    StripSplit(src, k);
    TextCons(src[k], Strip(src[k + 1..]), j);
    var j' := if src[k] == PAD then j + 1 else j;
    if j' <= 2 {
      AcceptedExactly(src, k + 1, n + 1, j');
    }
  }

  /** The decoder refuses exactly the other texts. */
  lemma RefusedExactly(src: seq<byte>)
    ensures Decoded(src) == Refused <==> !(Blanks(src, 0) && Text(Strip(src), 0))
  {
    assert src[0..] == src;
    hide FirstPass, Blanks, Text, Strip;
    AcceptedExactly(src, 0, 0, 0);
  }

  // ---------- the decoder

  lemma SpacesEndIs(src: seq<byte>, i: nat, k: nat)
    requires i <= k <= |src| && forall m :: i <= m < k ==> src[m] == SPACE
    requires k < |src| ==> src[k] != SPACE
    ensures SpacesEnd(src, i) == k
    decreases k - i
  {
    if i < k { SpacesEndIs(src, i + 1, k); }
  }

  lemma UnfoldPass(src: seq<byte>, i: nat, n: nat, j: nat)
    requires i <= |src|
    ensures var k := SpacesEnd(src, i);
      FirstPass(src, i, n, j) ==
        if k == |src| then Accepted(n, j)
        else if (|src| - k >= 2 && src[k] == CR && src[k + 1] == LF) || src[k] == LF then FirstPass(src, k + 1, n, j)
        else if k > i then Rejected
        else CheckChar(src, k, n, j)
  {
    hide CheckChar;
  }

  lemma UnfoldChar(src: seq<byte>, k: nat, n: nat, j: nat)
    requires k < |src|
    ensures var j' := if src[k] == PAD then j + 1 else j;
      CheckChar(src, k, n, j) ==
        if (j' > 2 && src[k] == PAD) || src[k] > 127 || Value(src[k]) == 127 || (Value(src[k]) < 64 && j' != 0) then Rejected
        else FirstPass(src, k + 1, n + 1, j')
  {
    hide FirstPass, Value;
  }

  method SkipSpaces(src: seq<byte>, start: nat) returns (i: nat, x: nat)
    requires start <= |src|
    ensures i == SpacesEnd(src, start) && x == i - start
  {
    i, x := start, 0;
    while i < |src| && src[i] == SPACE
      invariant start <= i <= |src| && x == i - start
      invariant forall m :: start <= m < i ==> src[m] == SPACE
    {
      i, x := i + 1, x + 1;
    }
    SpacesEndIs(src, start, i);
  }

  method CheckText(src: seq<byte>) returns (ok: bool, n: nat, j: nat)
    ensures ok == FirstPass(src, 0, 0, 0).Accepted?
    ensures ok ==> FirstPass(src, 0, 0, 0) == Accepted(n, j)
  {
    hide Value, FirstPass, CheckChar, SpacesEnd;
    var i := 0;
    n, j := 0, 0;
    while i < |src|
      invariant 0 <= i <= |src| && j <= 2
      invariant FirstPass(src, 0, 0, 0) == FirstPass(src, i, n, j)
      decreases |src| - i
    {
      UnfoldPass(src, i, n, j);
      var x;
      i, x := SkipSpaces(src, i);
      if i == |src| {
        return true, n, j;
      }
      if |src| - i >= 2 && src[i] == CR && src[i + 1] == LF {
        i := i + 1;
        continue;
      }
      if src[i] == LF {
        i := i + 1;
        continue;
      }
      if x != 0 {
        return false, n, j;
      }
      UnfoldChar(src, i, n, j);
      if src[i] == PAD {
        j := j + 1;
        if j > 2 {
          return false, n, j;
        }
      }
      if src[i] > 127 || DecMap(src[i]) == 127 {
        return false, n, j;
      }
      if DecMap(src[i]) < 64 && j != 0 {
        return false, n, j;
      }
      n := n + 1;
      i := i + 1;
    }
    AtTheEnd(src, n, j);
    ok := true;
  }

  lemma AtTheEnd(src: seq<byte>, n: nat, j: nat)
    ensures FirstPass(src, |src|, n, j) == Accepted(n, j)
  {
  }

  /** The number that the sextets of `q` write. */
  function Number(q: seq<byte>): nat {
    if q == [] then 0 else Number(q[..|q| - 1]) * 64 + Digit(q[|q| - 1])
  }

  function Pow64(n: nat): (m: nat)
    requires n <= 4
    ensures m > 0
  {
    if n == 0 then 1 else if n == 1 then 0x40 else if n == 2 then 0x1000 else if n == 3 then 0x40000 else 0x1000000
  }

  /** `x << 6 | d` in 32 bits keeps the sextets of the group in the low bits. */
  lemma ShiftIn(x: nat, n: nat, v: nat, d: nat)
    requires n < 4 && d < 64 && x % Pow64(n) == v
    ensures (x * 64 % 0x1_0000_0000 + d) % Pow64(n + 1) == v * 64 + d
  {
    if n == 0 {
      assert x * 64 % 0x1_0000_0000 + d == (x - x * 64 / 0x1_0000_0000 * 0x400_0000) * 64 + d;
    } else if n == 1 {
      ShiftInOne(x, v, d);
    } else if n == 2 {
      ShiftInTwo(x, v, d);
    } else {
      ShiftInThree(x, v, d);
    }
  }

  lemma ShiftInOne(x: nat, v: nat, d: nat)
    requires d < 64 && x % 0x40 == v
    ensures (x * 64 % 0x1_0000_0000 + d) % 0x1000 == v * 64 + d
  {
    assert x * 64 % 0x1_0000_0000 + d == (x / 0x40 - x * 64 / 0x1_0000_0000 * 0x10_0000) * 0x1000 + (v * 64 + d);
  }

  lemma ShiftInTwo(x: nat, v: nat, d: nat)
    requires d < 64 && x % 0x1000 == v
    ensures (x * 64 % 0x1_0000_0000 + d) % 0x40000 == v * 64 + d
  {
    assert x * 64 % 0x1_0000_0000 + d == (x / 0x1000 - x * 64 / 0x1_0000_0000 * 0x4000) * 0x40000 + (v * 64 + d);
  }

  lemma ShiftInThree(x: nat, v: nat, d: nat)
    requires d < 64 && x % 0x40000 == v
    ensures (x * 64 % 0x1_0000_0000 + d) % 0x1000000 == v * 64 + d
  {
    assert x * 64 % 0x1_0000_0000 + d == (x / 0x40000 - x * 64 / 0x1_0000_0000 * 0x100) * 0x1000000 + (v * 64 + d);
  }

  /** The bytes of a complete group, cut from the 32-bit accumulator. */
  lemma GroupBytes(q: seq<byte>, x: nat)
    requires |q| == 4 && x % 0x1000000 == Number(q)
    ensures Triple(q) == [x / 0x10000 % 0x100, x / 0x100 % 0x100, x % 0x100]
  {
    hide Digit;
    assert q[..3][..2] == q[..2] && q[..3][2] == q[2] && q[..2][..1] == q[..1] && q[..2][1] == q[1] && q[..1][..0] == [];
    assert Number(q[..1]) == Digit(q[0]);
    assert Number(q[..2]) == Digit(q[0]) * 64 + Digit(q[1]);
    assert Number(q[..3]) == (Digit(q[0]) * 64 + Digit(q[1])) * 64 + Digit(q[2]);
    ByteDigits(x);
  }

  lemma ByteDigits(x: nat)
    ensures var n := x % 0x1000000;
      n / 0x10000 == x / 0x10000 % 0x100 && n / 0x100 % 0x100 == x / 0x100 % 0x100 && n % 0x100 == x % 0x100
  {
    HighDigit(x);
    MiddleDigit(x);
    LowDigit(x);
  }

  lemma HighDigit(x: nat)
    ensures x % 0x1000000 / 0x10000 == x / 0x10000 % 0x100
  {
    var h, n := x / 0x1000000, x % 0x1000000;
    assert x == (0x100 * h + n / 0x10000) * 0x10000 + n % 0x10000;
    assert x / 0x10000 == 0x100 * h + n / 0x10000;
  }

  lemma MiddleDigit(x: nat)
    ensures x % 0x1000000 / 0x100 % 0x100 == x / 0x100 % 0x100
  {
    var h, n := x / 0x1000000, x % 0x1000000;
    assert x == (0x10000 * h + n / 0x100) * 0x100 + n % 0x100;
    assert x / 0x100 == 0x100 * (0x100 * h) + n / 0x100;
  }

  lemma LowDigit(x: nat)
    ensures x % 0x1000000 % 0x100 == x % 0x100
  {
    var h, n := x / 0x1000000, x % 0x1000000;
    assert x == 0x100 * (0x10000 * h) + n;
  }

  /** Stores as many bytes of the group as `j` allows. */
  method StoreGroup(dst: array<byte>, p: nat, x: nat, j: nat, ghost q: seq<byte>) returns (p': nat)
    requires |q| == 4 && x % 0x1000000 == Number(q) && j <= 3 && p + j <= dst.Length
    modifies dst
    ensures p' == p + j && dst[..p'] == old(dst[..p]) + Triple(q)[..j]
    ensures forall k :: p' <= k < dst.Length ==> dst[k] == old(dst[k])
  {
    hide Triple;
    GroupBytes(q, x);
    p' := p;
    if j > 0 { dst[p'] := x / 0x10000 % 0x100; p' := p' + 1; }
    if j > 1 { dst[p'] := x / 0x100 % 0x100; p' := p' + 1; }
    if j > 2 { dst[p'] := x % 0x100; p' := p' + 1; }
    Extended(dst[..], old(dst[..p]), Triple(q), j);
  }

  lemma Extended(all: seq<byte>, before: seq<byte>, t: seq<byte>, n: nat)
    requires n <= |t| && |before| + n <= |all| && all[..|before|] == before
    requires forall k :: 0 <= k < n ==> all[|before| + k] == t[k]
    ensures all[..|before| + n] == before + t[..n]
  {
    var w := all[..|before| + n];
    forall k | 0 <= k < |w| ensures w[k] == (before + t[..n])[k] {
      if k < |before| {
        assert all[..|before|][k] == all[k];
      } else {
        assert all[|before| + (k - |before|)] == t[k - |before|];
      }
    }
  }

  lemma {:induction false} PadsInConcat(a: seq<byte>, b: seq<byte>)
    ensures PadsIn(a + b) == PadsIn(a) + PadsIn(b)
  {
    if a == [] {
      assert a + b == b;
    } else {
      assert (a + b)[1..] == a[1..] + b;
      PadsInConcat(a[1..], b);
    }
  }

  /** One more character of a group. */
  lemma GroupGrows(c: seq<byte>, g: nat, m: nat)
    requires g <= m < |c|
    ensures Number(c[g..m + 1]) == Number(c[g..m]) * 64 + Digit(c[m])
    ensures PadsIn(c[g..m + 1]) == PadsIn(c[g..m]) + (if c[m] == PAD then 1 else 0)
  {
    var q := c[g..m + 1];
    assert q[..|q| - 1] == c[g..m] && q[|q| - 1] == c[m] && q == c[g..m] + [c[m]];
    PadsInConcat(c[g..m], [c[m]]);
  }

  /** A complete group leaves the rest of the text. */
  lemma GroupCloses(c: seq<byte>, g: nat, pads: nat)
    requires g + 4 <= |c| && pads + PadsIn(c[g..]) <= 2
    ensures var q := c[g..g + 4]; var p := pads + PadsIn(q);
      && p + PadsIn(c[g + 4..]) == pads + PadsIn(c[g..])
      && Groups(c[g..], pads) == Triple(q)[..3 - p] + Groups(c[g + 4..], p)
  {
    hide Triple;
    var rest := c[g..];
    assert rest[..4] == c[g..g + 4] && rest[4..] == c[g + 4..] && rest == c[g..g + 4] + c[g + 4..];
    PadsInConcat(c[g..g + 4], c[g + 4..]);
  }

  lemma ShapeIsAscii(c: seq<byte>, pads: nat, k: nat)
    requires Shape(c, 0, pads) && k < |c|
    ensures c[k] < 128 && c[k] != SPACE && c[k] != CR && c[k] != LF && (Value(c[k]) == 64 <==> c[k] == PAD)
  {
    ValueMarks(c[k]);
  }

  lemma NextChar(src: seq<byte>, s: nat, c: seq<byte>, g: nat, m: nat, pads: nat)
    requires s < |src| && g <= m <= |c| && Shape(c, 0, pads) && Strip(src[s..]) == c[m..]
    requires src[s] != SPACE && src[s] != CR && src[s] != LF
    ensures m < |c| && c[m] == src[s] < 128 && Strip(src[s + 1..]) == c[m + 1..]
    ensures Value(c[m]) == 64 <==> c[m] == PAD
    ensures Number(c[g..m + 1]) == Number(c[g..m]) * 64 + Digit(c[m])
    ensures PadsIn(c[g..m + 1]) == PadsIn(c[g..m]) + (if c[m] == PAD then 1 else 0) <= PadsIn(c[g..])
  {
    hide Strip, Value, Digit, Number, PadsIn, Shape;
    StripSplit(src, s);
    assert c[m..][0] == src[s] && c[m + 1..] == c[m..][1..];
    ShapeIsAscii(c, pads, m);
    GroupGrows(c, g, m);
    PadsInPart(c, g, m + 1);
  }

  /** Writes out the complete group that starts at `g`. */
  method FlushGroup(dst: array<byte>, p: nat, x: nat, j: nat, ghost c: seq<byte>, ghost g: nat, ghost seen: nat) returns (p': nat)
    requires g + 4 <= |c| && x % Pow64(4) == Number(c[g..g + 4])
    requires seen + PadsIn(c[g..]) <= 2 && j == 3 - seen - PadsIn(c[g..g + 4])
    requires p + |Groups(c[g..], seen)| <= dst.Length
    modifies dst
    ensures p <= p' <= dst.Length
    ensures var seen' := seen + PadsIn(c[g..g + 4]);
      && seen' + PadsIn(c[g + 4..]) <= 2
      && dst[..p'] + Groups(c[g + 4..], seen') == old(dst[..p]) + Groups(c[g..], seen)
    ensures forall k :: p' <= k < dst.Length ==> dst[k] == old(dst[k])
  {
    hide Groups, Triple, Number, PadsIn;
    GroupCloses(c, g, seen);
    p' := StoreGroup(dst, p, x, j, c[g..g + 4]);
  }

  /** Where the second pass stands: `m` characters of the stripped text are read, the open group starts at `g`,
      `seen` pads lie before it, and the accumulator holds the group's number. */
  ghost predicate Reading(src: seq<byte>, c: seq<byte>, s: nat, g: nat, m: nat, seen: nat, j: int, x: nat) {
    && s <= |src| && g <= m <= |c| && m - g <= 4
    && Strip(src[s..]) == c[m..]
    && seen + PadsIn(c[g..]) <= 2 && j == 3 - seen - PadsIn(c[g..m]) >= 0
    && x % Pow64(m - g) == Number(c[g..m])
  }

  lemma BlankSkipped(src: seq<byte>, c: seq<byte>, s: nat, g: nat, m: nat, seen: nat, j: int, x: nat)
    requires Reading(src, c, s, g, m, seen, j, x) && s < |src| && (src[s] == CR || src[s] == LF || src[s] == SPACE)
    ensures Reading(src, c, s + 1, g, m, seen, j, x)
  {
    hide Strip, PadsIn, Number, Pow64;
    StripSplit(src, s);
  }

  /** The accumulator: x << 6 | d, in 32 bits. */
  function Shifted(x: nat, d: nat): nat {
    x * 64 % 0x1_0000_0000 + d % 0x40
  }

  lemma CharTaken(src: seq<byte>, c: seq<byte>, s: nat, g: nat, m: nat, seen: nat, j: int, x: nat, pads: nat)
    requires Reading(src, c, s, g, m, seen, j, x) && m - g < 4 && Shape(c, 0, pads)
    requires s < |src| && src[s] != CR && src[s] != LF && src[s] != SPACE
    ensures src[s] < 128 && DecMap(src[s]) < 128
    ensures Reading(src, c, s + 1, g, m + 1, seen, if DecMap(src[s]) == 64 then j - 1 else j, Shifted(x, DecMap(src[s])))
  {
    hide Strip, Value, Number, PadsIn, Pow64, Shape;
    NextChar(src, s, c, g, m, pads);
    PadsInPart(c, g, m + 1);
    ShiftIn(x, m - g, Number(c[g..m]), Digit(src[s]));
  }

  lemma ReadingStarts(src: seq<byte>, pads: nat)
    requires Shape(Strip(src), 0, pads)
    ensures Reading(src, Strip(src), 0, 0, 0, 0, 3, 0)
  {
    var c := Strip(src);
    SecondPassStart(c, pads);
    GroupStart(0);
    assert src[0..] == src && c[0..] == c && c[0..0] == [];
    hide Strip, PadsIn, Number, Pow64;
  }

  lemma GroupFinished(src: seq<byte>, c: seq<byte>, s: nat, g: nat, m: nat, seen: nat, j: int, x: nat)
    requires Reading(src, c, s, g, m, seen, j, x) && m == g + 4
    ensures g + 4 <= |c| && x % Pow64(4) == Number(c[g..g + 4])
    ensures seen + PadsIn(c[g..]) <= 2 && j == 3 - seen - PadsIn(c[g..g + 4])
    ensures seen + PadsIn(c[g..m]) + PadsIn(c[m..]) <= 2 ==> Reading(src, c, s, m, m, seen + PadsIn(c[g..m]), j, x)
  {
    GroupStart(x);
    assert c[m..m] == [];
    hide Strip, PadsIn, Number, Pow64;
  }

  /** The second pass, into a buffer that holds what it writes. */
  method DecodeInto(dst: array<byte>, src: seq<byte>, ghost pads: nat) returns (olen: nat)
    requires Shape(Strip(src), 0, pads) && |Groups(Strip(src), 0)| <= dst.Length
    modifies dst
    ensures olen == |Groups(Strip(src), 0)| && dst[..olen] == Groups(Strip(src), 0)
    ensures forall k :: olen <= k < dst.Length ==> dst[k] == old(dst[k])
  {
    hide Groups, Triple, Strip, Value, Number, PadsIn, Pow64, Shape, Reading, DecMap, Shifted;
    ghost var c := Strip(src);
    ghost var all := Groups(c, 0);
    ReadingStarts(src, pads);
    var j: int, n: nat, x: nat, p: nat, s: nat := 3, 0, 0, 0, 0;
    ghost var m: nat, g: nat, seen: nat := 0, 0, 0;
    assert c[0..] == c && dst[..0] == [] && [] + all == all;
    while s < |src|
      invariant s <= |src| && g <= m <= |c| && n == m - g < 4 && p <= dst.Length
      invariant Reading(src, c, s, g, m, seen, j, x)
      invariant all == dst[..p] + Groups(c[g..], seen)
      invariant forall k :: p <= k < dst.Length ==> dst[k] == old(dst[k])
    {
      if src[s] == CR || src[s] == LF || src[s] == SPACE {
        BlankSkipped(src, c, s, g, m, seen, j, x);
        s := s + 1;
        continue;
      }
      CharTaken(src, c, s, g, m, seen, j, x, pads);
      ReadingBounds(src, c, s + 1, g, m + 1, seen, if DecMap(src[s]) == 64 then j - 1 else j, Shifted(x, DecMap(src[s])));
      if DecMap(src[s]) == 64 {
        j := j - 1;
      }
      x := Shifted(x, DecMap(src[s]));
      n, m, s := n + 1, m + 1, s + 1;
      if n == 4 {
        n := 0;
        GroupFinished(src, c, s, g, m, seen, j, x);
        p := FlushGroup(dst, p, x, j, c, g, seen);
        g, seen := m, seen + PadsIn(c[g..m]);
      }
    }
    AllRead(src, c, g, m, seen, j, x);
    assert dst[..p] + [] == dst[..p];
    olen := p;
  }

  lemma ReadingBounds(src: seq<byte>, c: seq<byte>, s: nat, g: nat, m: nat, seen: nat, j: int, x: nat)
    requires Reading(src, c, s, g, m, seen, j, x)
    ensures s <= |src| && g <= m <= |c| && j >= 0
  {
  }

  lemma AllRead(src: seq<byte>, c: seq<byte>, g: nat, m: nat, seen: nat, j: int, x: nat)
    requires Reading(src, c, |src|, g, m, seen, j, x) && m - g < 4
    ensures Groups(c[g..], seen) == []
  {
    hide Groups, PadsIn, Number, Pow64;
    assert src[|src|..] == [];
    NothingLeft();
    assert |c[m..]| == 0;
    NoGroup(c[g..], seen);
  }

  lemma NothingLeft()
    ensures Strip([]) == []
  {
  }

  lemma GroupStart(x: nat)
    ensures x % Pow64(0) == Number([]) && PadsIn([]) == 0
  {
  }

  lemma SecondPassStart(c: seq<byte>, pads: nat)
    requires Shape(c, 0, pads)
    ensures PadsIn(c) == pads <= 2 && PadsIn([]) == 0 && Number([]) == 0
  {
    PadsInShape(c, pads);
  }

  lemma PadsInPart(c: seq<byte>, g: nat, m: nat)
    requires g <= m <= |c|
    ensures PadsIn(c[g..m]) <= PadsIn(c[g..])
  {
    PadsInConcat(c[g..m], c[m..]);
    assert c[g..] == c[g..m] + c[m..];
  }

  lemma NoGroup(c: seq<byte>, pads: nat)
    ensures |c| < 4 ==> Groups(c, pads) == []
  {
  }

  /** mbedtls_base64_decode; the length of `dst` is the size its caller gives. A refused text leaves the
      output alone, and so does a buffer shorter than the first pass's estimate. */
  method Decode(dst: array?<byte>, src: seq<byte>) returns (status: Status, olen: nat)
    modifies Written(dst)
    ensures status == InvalidCharacter <==> Decoded(src) == Refused
    ensures status != InvalidCharacter ==>
      var r := FirstPass(src, 0, 0, 0);
      && (status == Ok <==> r.chars == 0 || (dst != null && Estimate(r.chars, r.pads) <= dst.Length))
      && (status == BufferTooSmall ==> olen == Estimate(r.chars, r.pads))
    ensures status == Ok ==> Decoded(src).Bytes? && olen == |Decoded(src).bytes|
    ensures status == Ok && olen > 0 ==> dst != null && olen <= dst.Length && dst[..olen] == Decoded(src).bytes
    ensures dst != null ==>
      forall k :: (if status == Ok then olen else 0) <= k < dst.Length ==> dst[k] == old(dst[k])
  {
    hide Groups, Shape, Strip;
    var ok, n, j := CheckText(src);
    if !ok {
      return InvalidCharacter, 0;
    }
    FirstPassBoundsSecond(src);
    assert src[0..] == src;
    AcceptedShape(src, 0, 0, 0);
    if n == 0 {
      NoGroup(Strip(src), 0);
      return Ok, 0;
    }
    n := 6 * (n / 8) + (6 * (n % 8) + 7) / 8;
    n := n - j;
    if dst == null || dst.Length < n {
      return BufferTooSmall, n;
    }
    olen := DecodeInto(dst, src, j);
    status := Ok;
  }

  // ---------- decoding undoes encoding

  /** `t` is `e` with line breaks, LF or CRLF, put in between its characters or at its ends. */
  ghost predicate WithLineBreaks(e: seq<byte>, t: seq<byte>)
    decreases |t|
  {
    || (t == [] && e == [])
    || (t != [] && t[0] == LF && WithLineBreaks(e, t[1..]))
    || (|t| >= 2 && t[0] == CR && t[1] == LF && WithLineBreaks(e, t[2..]))
    || (t != [] && e != [] && t[0] == e[0] && WithLineBreaks(e[1..], t[1..]))
  }

  lemma ShapeTail(e: seq<byte>, before: nat, pads: nat)
    requires e != [] && Shape(e, before, pads)
    ensures e[0] == PAD ==> pads > 0 && before < 2 && Shape(e[1..], before + 1, pads - 1)
    ensures e[0] != PAD ==> before == 0 && Value(e[0]) < 64 && Shape(e[1..], 0, pads)
    ensures e[0] < 128 && Value(e[0]) != 127 && e[0] != SPACE && e[0] != CR && e[0] != LF
  {
    ValueMarks(e[0]);
    hide Value;
    var r := e[1..];
    assert forall k :: 0 <= k < |r| ==> r[k] == e[k + 1];
  }

  /** Line breaks change neither what the first pass counts nor what the second pass reads. */
  lemma {:induction false} LineBreaksVanish(e: seq<byte>, t: seq<byte>, i: nat, j: nat, pads: nat, n: nat)
    requires i <= |t| && WithLineBreaks(e, t[i..]) && Shape(e, j, pads) && j <= 2
    ensures Strip(t[i..]) == e
    ensures FirstPass(t, i, n, j) == Accepted(n + |e|, j + pads)
    decreases |t| - i
  {
    hide Value, Shape, Strip;
    var u := t[i..];
    if i == |t| {
      NothingStripped(0);
      EmptyShape(j, pads);
    } else {
      assert u[0] == t[i] && u[1..] == t[i + 1..];
      StripSplit(t, i);
      var lf, crlf := u[0] == LF && WithLineBreaks(e, u[1..]), |u| >= 2 && u[0] == CR && u[1] == LF && WithLineBreaks(e, u[2..]);
      assert lf || crlf || (e != [] && u[0] == e[0] && WithLineBreaks(e[1..], u[1..]));
      hide WithLineBreaks;
      if lf {
        SpacesEndIs(t, i, i);
        LineBreaksVanish(e, t, i + 1, j, pads, n);
      } else if crlf {
        assert u[1] == t[i + 1] && u[2..] == t[i + 2..];
        StripSplit(t, i + 1);
        SpacesEndIs(t, i, i);
        SpacesEndIs(t, i + 1, i + 1);
        LineBreaksVanish(e, t, i + 2, j, pads, n);
      } else {
        ShapeTail(e, j, pads);
        SpacesEndIs(t, i, i);
        ValueMarks(e[0]);
        if e[0] == PAD {
          LineBreaksVanish(e[1..], t, i + 1, j + 1, pads - 1, n + 1);
        } else {
          LineBreaksVanish(e[1..], t, i + 1, j, pads, n + 1);
        }
        assert [e[0]] + e[1..] == e;
      }
    }
  }

  lemma EmptyShape(j: nat, pads: nat)
    requires Shape([], j, pads)
    ensures pads == 0
  {
  }

  lemma DigitOfSymbol(v: nat)
    requires v < 64
    ensures Value(Symbol(v)) == v == Digit(Symbol(v))
  {
    ValueOfSymbol(v);
  }

  lemma QuadDigits(b0: byte, b1: byte, b2: byte)
    ensures var q := Quad(b0, b1, b2);
      && (forall k :: 0 <= k < 4 ==> Value(q[k]) < 64)
      && Triple(q) == [b0, b1, b2]
  {
    hide Symbol, Value, Digit, ThreeBytesOf;
    var n := (b0 * 0x100 + b1) * 0x100 + b2;
    DigitOfSymbol(n / 0x40000);
    DigitOfSymbol(n / 0x1000 % 0x40);
    DigitOfSymbol(n / 0x40 % 0x40);
    DigitOfSymbol(n % 0x40);
    SextetNumber(n);
    ThreeBytes(b0, b1, b2);
  }

  lemma SextetNumber(n: nat)
    ensures n == ((n / 0x40000 * 64 + n / 0x1000 % 0x40) * 64 + n / 0x40 % 0x40) * 64 + n % 0x40
  {
    assert n / 0x40 == n / 0x1000 * 64 + n / 0x40 % 0x40;
    assert n / 0x1000 == n / 0x40000 * 64 + n / 0x1000 % 0x40;
  }

  lemma ThreeBytes(b0: byte, b1: byte, b2: byte)
    ensures ThreeBytesOf((b0 * 0x100 + b1) * 0x100 + b2) == [b0, b1, b2]
  {
    var n := (b0 * 0x100 + b1) * 0x100 + b2;
    assert n / 0x100 == b0 * 0x100 + b1;
  }

  /** A pad reads as the zero sextet, so a padded quad holds its leading bytes. */
  lemma PaddedQuad(b0: byte, b1: byte)
    ensures Triple(Quad(b0, 0, 0)[..2] + [PAD, PAD]) == Triple(Quad(b0, 0, 0))
    ensures Triple(Quad(b0, b1, 0)[..3] + [PAD]) == Triple(Quad(b0, b1, 0))
  {
    TwoPadsLikeZeros(b0, b1);
    OnePadLikeZeros(b0, b1);
    hide Triple, Quad;
  }

  lemma TwoPadsLikeZeros(b0: byte, b1: byte)
    ensures Triple(Quad(b0, 0, 0)[..2] + [PAD, PAD]) == Triple(Quad(b0, 0, 0))
  {
    assert Digit(PAD) == 0;
    DigitOfSymbol(0);
    hide Symbol, Value, Digit, ThreeBytesOf;
    LowSextets(b0, b1);
  }

  lemma OnePadLikeZeros(b0: byte, b1: byte)
    ensures Triple(Quad(b0, b1, 0)[..3] + [PAD]) == Triple(Quad(b0, b1, 0))
  {
    assert Digit(PAD) == 0;
    DigitOfSymbol(0);
    hide Symbol, Value, Digit, ThreeBytesOf;
    LowSextets(b0, b1);
  }

  lemma LowSextets(b0: byte, b1: byte)
    ensures ((b0 * 0x100 + 0) * 0x100 + 0) / 0x40 % 0x40 == 0 && ((b0 * 0x100 + 0) * 0x100 + 0) % 0x40 == 0
    ensures ((b0 * 0x100 + b1) * 0x100 + 0) % 0x40 == 0
  {
    assert (b0 * 0x100 * 0x100) == b0 * 16 * 64 * 64;
    assert (b0 * 0x100 + b1) * 0x100 == (b0 * 0x100 + b1) * 4 * 64;
  }

  function PadCount(s: seq<byte>): nat {
    if |s| % 3 == 0 then 0 else 3 - |s| % 3
  }

  lemma ShapeAfterQuad(q: seq<byte>, rest: seq<byte>, pads: nat)
    requires (forall k :: 0 <= k < |q| ==> Value(q[k]) < 64) && Shape(rest, 0, pads)
    ensures Shape(q + rest, 0, pads)
  {
    hide Value;
    var c := q + rest;
    assert forall k :: |q| <= k < |c| ==> c[k] == rest[k - |q|];
  }

  lemma ShapeOfOne(s: seq<byte>)
    requires |s| == 1
    ensures Shape(Encoded(s), 0, 2)
  {
    hide Shape, Symbol, Value, Encoded;
    TailText(s);
    ValueOfSymbol(s[0] / 4 % 64);
    ValueOfSymbol((s[0] % 4 * 16 + 0 / 16) % 64);
    ShapeTwoPads(Symbol(s[0] / 4 % 64), Symbol((s[0] % 4 * 16 + 0 / 16) % 64));
  }

  lemma ShapeOfTwo(s: seq<byte>)
    requires |s| == 2
    ensures Shape(Encoded(s), 0, 1)
  {
    hide Shape, Symbol, Value, Encoded;
    TailText(s);
    var x, y, z := s[0] / 4 % 64, (s[0] % 4 * 16 + s[1] / 16) % 64, s[1] % 16 * 4 % 64;
    ValueOfSymbol(x);
    ValueOfSymbol(y);
    ValueOfSymbol(z);
    ShapeOnePad(Symbol(x), Symbol(y), Symbol(z));
  }

  lemma NoShape()
    ensures Shape([], 0, 0)
  {
  }

  lemma ShapeTwoPads(a: byte, b: byte)
    requires Value(a) < 64 && Value(b) < 64
    ensures Shape([a, b, PAD, PAD], 0, 2)
  {
    hide Value;
  }

  lemma ShapeOnePad(a: byte, b: byte, c: byte)
    requires Value(a) < 64 && Value(b) < 64 && Value(c) < 64
    ensures Shape([a, b, c, PAD], 0, 1)
  {
    hide Value;
  }

  lemma {:induction false} EncodedShape(s: seq<byte>)
    ensures Shape(Encoded(s), 0, PadCount(s))
  {
    hide Value, Quad, Shape;
    if s == [] {
      NoShape();
    } else if |s| == 1 {
      ShapeOfOne(s);
    } else if |s| == 2 {
      ShapeOfTwo(s);
    } else {
      QuadDigits(s[0], s[1], s[2]);
      EncodedShape(s[3..]);
      EncodedUnfolds(s);
      SamePadCount(s);
      hide PadCount, Encoded;
      ShapeAfterQuad(Quad(s[0], s[1], s[2]), Encoded(s[3..]), PadCount(s));
    }
  }

  lemma {:induction false} EncodedUnfolds(s: seq<byte>)
    requires |s| >= 3
    ensures Encoded(s) == Quad(s[0], s[1], s[2]) + Encoded(s[3..])
  {
    hide Quad;
  }

  lemma SamePadCount(s: seq<byte>)
    requires |s| >= 3
    ensures PadCount(s[3..]) == PadCount(s)
  {
    assert (|s| - 3) % 3 == |s| % 3;
  }

  lemma {:induction false} GroupsOfEncoded(s: seq<byte>)
    ensures Groups(Encoded(s), 0) == s
  {
    hide Value, Quad, Triple;
    if s == [] {
    } else if |s| <= 2 {
      var c := Encoded(s);
      assert c[..4] == c && c[4..] == [];
      QuadDigits(s[0], if |s| == 2 then s[1] else 0, 0);
      PadsInShape(c, 3 - |s|);
      PaddedQuad(s[0], if |s| == 2 then s[1] else 0);
    } else {
      var q, rest := Quad(s[0], s[1], s[2]), Encoded(s[3..]);
      QuadDigits(s[0], s[1], s[2]);
      PadsInShape(q, 0);
      assert (q + rest)[..4] == q && (q + rest)[4..] == rest;
      GroupsOfEncoded(s[3..]);
      assert s == [s[0], s[1], s[2]] + s[3..];
    }
  }

  /** Decoding undoes encoding for every byte string, with line breaks put anywhere into the encoded
      text. */
  lemma DecodingUndoesEncoding(s: seq<byte>, t: seq<byte>)
    requires WithLineBreaks(Encoded(s), t)
    ensures Decoded(t) == Bytes(s)
  {
    hide Encoded, Groups, WithLineBreaks, FirstPass, Shape, Strip;
    assert t[0..] == t;
    EncodedShape(s);
    LineBreaksVanish(Encoded(s), t, 0, 0, PadCount(s), 0);
    GroupsOfEncoded(s);
  }

  lemma {:induction false} NoLineBreaks(e: seq<byte>)
    ensures WithLineBreaks(e, e)
  {
    if e != [] { NoLineBreaks(e[1..]); }
  }
}
