/** Sub-packets of the BLE service: a frame is cut into notifications, each with a sequence number in 7-bit groups,
    the first also with the frame's length and the protocol version; the receiver reads the headers back. */
module BleFraming {

  type Byte = b: int | 0 <= b < 256

  const VERSION: Byte := 0x40

  function Low(b: Byte): (r: nat)
    ensures r < 0x80
  {
    var x: int := b;
    x % 0x80
  }

  // ---------- numbers in 7-bit groups

  /** The sender's groups: low bits first, 0x80 on each byte that has more behind it, at most `left` bytes. */
  function Groups(n: nat, left: nat): (g: seq<Byte>)
    requires left > 0
    ensures 1 <= |g| <= left
    decreases left
  {
    var b: Byte := n % 0x80 + (if n >= 0x80 then 0x80 else 0);
    if n < 0x80 || left == 1 then [b] else [b] + Groups(n / 0x80, left - 1)
  }

  /** What the receiver multiplies group k by: 1, then 0x80 << (8 * (k - 1)). */
  function Weight(k: nat): nat {
    if k == 0 then 1 else if k == 1 then 0x80 else 0x100 * Weight(k - 1)
  }

  datatype Number = OffTheEnd | Number(value: nat, next: nat)

  /** The receiver's loop: the byte at `i` is group `k`; a set top bit asks for another byte. The value is kept
      in 32 bits. */
  function DecodeFrom(data: seq<Byte>, i: nat, k: nat, sum: nat): Number
    decreases |data| - i
  {
    if i >= |data| then OffTheEnd
    else
      var v := (sum + Low(data[i]) * Weight(k)) % 0x1_0000_0000;
      if data[i] >= 0x80 then DecodeFrom(data, i + 1, k + 1, v) else Number(v, i + 1)
  }

  function Decode(data: seq<Byte>, i: nat): Number {
    DecodeFrom(data, i, 0, 0)
  }

  /** What the receiver makes of the groups of n: the third and fourth group count double, and double again. */
  function Misread(n: nat): nat {
    n % 0x80 + n / 0x80 % 0x80 * 0x80 + n / 0x4000 % 0x80 * 0x8000 + n / 0x20_0000 * 0x80_0000
  }

  lemma GroupsAre(n: nat)
    requires n < 0x1000_0000
    ensures var a, b, c, d := n % 0x80, n / 0x80 % 0x80, n / 0x4000 % 0x80, n / 0x20_0000;
      Groups(n, 4) == if n < 0x80 then [a]
                      else if n < 0x4000 then [a + 0x80, b]
                      else if n < 0x20_0000 then [a + 0x80, b + 0x80, c]
                      else [a + 0x80, b + 0x80, c + 0x80, d]
  {
    assert n / 0x80 / 0x80 == n / 0x4000 && n / 0x80 / 0x80 / 0x80 == n / 0x20_0000;
    if n >= 0x80 {
      assert Groups(n, 4) == [n % 0x80 + 0x80] + Groups(n / 0x80, 3);
      if n / 0x80 >= 0x80 {
        assert Groups(n / 0x80, 3) == [n / 0x80 % 0x80 + 0x80] + Groups(n / 0x4000, 2);
        if n / 0x4000 >= 0x80 {
          assert Groups(n / 0x4000, 2) == [n / 0x4000 % 0x80 + 0x80] + Groups(n / 0x20_0000, 1);
        }
      }
    }
  }

  lemma Weights()
    ensures Weight(0) == 1 && Weight(1) == 0x80 && Weight(2) == 0x8000 && Weight(3) == 0x80_0000
  {
  }

  lemma DecodeStep(data: seq<Byte>, i: nat, k: nat, sum: nat, low: nat, more: bool)
    requires i < |data| && low < 0x80 && data[i] == low + (if more then 0x80 else 0) && sum + low * Weight(k) < 0x1_0000_0000
    ensures DecodeFrom(data, i, k, sum)
      == if more then DecodeFrom(data, i + 1, k + 1, sum + low * Weight(k)) else Number(sum + low * Weight(k), i + 1)
  {
    assert Low(data[i]) == low;
  }

  lemma TwoGroups(data: seq<Byte>, i: nat, a: nat, b: nat)
    requires i + 2 <= |data| && a < 0x80 && b < 0x80 && data[i] == a + 0x80 && data[i + 1] == b
    ensures Decode(data, i) == Number(a + b * 0x80, i + 2)
  {
    Weights();
    hide DecodeFrom, Weight;
    DecodeStep(data, i, 0, 0, a, true);
    DecodeStep(data, i + 1, 1, a, b, false);
  }

  lemma ThreeGroups(data: seq<Byte>, i: nat, a: nat, b: nat, c: nat)
    requires i + 3 <= |data| && a < 0x80 && b < 0x80 && c < 0x80
    requires data[i] == a + 0x80 && data[i + 1] == b + 0x80 && data[i + 2] == c
    ensures Decode(data, i) == Number(a + b * 0x80 + c * 0x8000, i + 3)
  {
    Weights();
    hide DecodeFrom, Weight;
    DecodeStep(data, i, 0, 0, a, true);
    DecodeStep(data, i + 1, 1, a, b, true);
    DecodeStep(data, i + 2, 2, a + b * 0x80, c, false);
  }

  lemma FourGroups(data: seq<Byte>, i: nat, a: nat, b: nat, c: nat, d: nat)
    requires i + 4 <= |data| && a < 0x80 && b < 0x80 && c < 0x80 && d < 0x80
    requires data[i] == a + 0x80 && data[i + 1] == b + 0x80 && data[i + 2] == c + 0x80 && data[i + 3] == d
    ensures Decode(data, i) == Number(a + b * 0x80 + c * 0x8000 + d * 0x80_0000, i + 4)
  {
    Weights();
    hide DecodeFrom, Weight;
    DecodeStep(data, i, 0, 0, a, true);
    DecodeStep(data, i + 1, 1, a, b, true);
    DecodeStep(data, i + 2, 2, a + b * 0x80, c, true);
    DecodeStep(data, i + 3, 3, a + b * 0x80 + c * 0x8000, d, false);
  }

  /** Reading a number's groups back, wherever they stand: the size is right, the value is the misread one. */
  lemma GroupsReadBack(n: nat, data: seq<Byte>, i: nat)
    requires n < 0x1000_0000 && i + |Groups(n, 4)| <= |data| && data[i..i + |Groups(n, 4)|] == Groups(n, 4)
    ensures Decode(data, i) == Number(Misread(n), i + |Groups(n, 4)|)
  {
    GroupsAre(n);
    var g := Groups(n, 4);
    var a, b, c, d := n % 0x80, n / 0x80 % 0x80, n / 0x4000 % 0x80, n / 0x20_0000;
    Digits(n);
    hide Groups, Decode;
    if n < 0x80 {
      StandsAt(data, i, g, 0);
      OneGroup(data, i, a);
    } else if n < 0x4000 {
      StandsAt(data, i, g, 0);
      StandsAt(data, i, g, 1);
      TwoGroups(data, i, a, b);
    } else if n < 0x20_0000 {
      StandsAt(data, i, g, 0);
      StandsAt(data, i, g, 1);
      StandsAt(data, i, g, 2);
      ThreeGroups(data, i, a, b, c);
    } else {
      StandsAt(data, i, g, 0);
      StandsAt(data, i, g, 1);
      StandsAt(data, i, g, 2);
      StandsAt(data, i, g, 3);
      FourGroups(data, i, a, b, c, d);
    }
  }

  lemma StandsAt(data: seq<Byte>, i: nat, g: seq<Byte>, k: nat)
    requires i + |g| <= |data| && data[i..i + |g|] == g && k < |g|
    ensures data[i + k] == g[k]
  {
    assert data[i..i + |g|][k] == data[i + k];
  }

  lemma OneGroup(data: seq<Byte>, i: nat, a: nat)
    requires i < |data| && a < 0x80 && data[i] == a
    ensures Decode(data, i) == Number(a, i + 1)
  {
    Weights();
    hide DecodeFrom, Weight;
    DecodeStep(data, i, 0, 0, a, false);
  }

  /** The receiver reads a number as it was meant exactly when it is below 16384. */
  lemma ReadAsMeant(n: nat)
    requires n < 0x1000_0000
    ensures Misread(n) == n <==> n < 0x4000
  {
    Digits(n);
    DoubledDigits(n % 0x80, n / 0x80 % 0x80, n / 0x4000 % 0x80, n / 0x20_0000);
  }

  lemma DoubledDigits(a: nat, b: nat, c: nat, d: nat)
    ensures a + b * 0x80 + c * 0x8000 + d * 0x80_0000 == a + b * 0x80 + c * 0x4000 + d * 0x20_0000 <==> c == 0 && d == 0
  {
  }

  lemma Digits(n: nat)
    ensures n == n % 0x80 + n / 0x80 % 0x80 * 0x80 + n / 0x4000 % 0x80 * 0x4000 + n / 0x20_0000 * 0x20_0000
    ensures n < 0x4000 <==> n / 0x4000 % 0x80 == 0 && n / 0x20_0000 == 0
  {
    var q := n / 0x80;
    assert n == 0x80 * q + n % 0x80;
    var r := n / 0x4000;
    assert q == 0x80 * r + q % 0x80;
    assert r == 0x80 * (n / 0x20_0000) + r % 0x80;
  }

  /** The smallest numbers of three and of four groups, 16384 and 2097152, are read as twice and four times what was sent. */
  lemma SmallestMisread()
    ensures Groups(16384, 4) == [0x80, 0x80, 1] && Decode([0x80, 0x80, 1], 0) == Number(32768, 3)
    ensures Groups(2097152, 4) == [0x80, 0x80, 0x80, 1] && Decode([0x80, 0x80, 0x80, 1], 0) == Number(8388608, 4)
  {
    GroupsAre(16384);
    GroupsAre(2097152);
    hide Groups, Decode;
    ThreeGroups([0x80, 0x80, 1], 0, 0, 0, 1);
    FourGroups([0x80, 0x80, 0x80, 1], 0, 0, 0, 0, 1);
  }

  /** From 2^28 on the fourth group still asks for another byte, which is not sent. */
  lemma FourthGroupAsksForMore(n: nat)
    requires n >= 0x1000_0000
    ensures |Groups(n, 4)| == 4 && forall i :: 0 <= i < 4 ==> Groups(n, 4)[i] >= 0x80
  {
    assert Groups(n, 4) == [n % 0x80 + 0x80] + Groups(n / 0x80, 3);
    assert Groups(n / 0x80, 3) == [n / 0x80 % 0x80 + 0x80] + Groups(n / 0x80 / 0x80, 2);
    assert Groups(n / 0x80 / 0x80, 2) == [n / 0x80 / 0x80 % 0x80 + 0x80] + Groups(n / 0x80 / 0x80 / 0x80, 1);
  }

  // ---------- the notifications of a frame

  /** A frame, the memory behind it, and the negotiated packet size. */
  datatype Job = Job(frame: seq<Byte>, behind: nat -> Byte, mtu: nat) {
    predicate Valid() {
      mtu >= 10 && |frame| < 0x7FFF_FFF0
    }

    /** The packet buffer: the packet size if the frame needs more than one packet, otherwise what it needs. */
    function PackLen(): nat {
      if |frame| + 9 > mtu then mtu else |frame| + 9
    }

    function Header(k: nat): (h: seq<Byte>)
      ensures 1 <= |h| <= 9 && (k == 0 ==> |h| <= 6) && (k > 0 ==> |h| <= 4)
    {
      if k == 0 then Groups(0, 4) + (Groups(|frame|, 4) + [VERSION]) else Groups(k, 4)
    }

    /** How much packet k copies: bounded by the room and by the whole frame, not by what is left of it. */
    function CopyLen(k: nat): nat
      requires Valid()
    {
      var room := PackLen() - |Header(k)|;
      if room > |frame| then |frame| else room
    }

    /** The memory from the frame's start on. */
    function ByteAt(i: nat): Byte {
      if i < |frame| then frame[i] else behind(i - |frame|)
    }

    function Stretch(from: nat, n: nat): (s: seq<Byte>)
      ensures |s| == n && forall i :: 0 <= i < n ==> s[i] == ByteAt(from + i)
    {
      seq<Byte>(n, i requires 0 <= i < n => ByteAt(from + i))
    }

    function Packet(k: nat, pos: nat): (p: seq<Byte>)
      requires Valid()
      ensures |p| <= PackLen() <= mtu
    {
      Header(k) + Stretch(pos, CopyLen(k))
    }

    lemma CopiesSomething(k: nat)
      requires Valid() && |frame| > 0
      ensures CopyLen(k) > 0
    {
    }

    /** The packets from number k on, when `pos` bytes are copied. */
    function PacketsFrom(k: nat, pos: nat): (r: seq<seq<Byte>>)
      requires Valid()
      decreases |frame| - pos
    {
      if pos + CopyLen(k) >= |frame| then [Packet(k, pos)]
      else
        CopiesSomething(k);
        [Packet(k, pos)] + PacketsFrom(k + 1, pos + CopyLen(k))
    }

    function Packets(): seq<seq<Byte>>
      requires Valid()
    {
      PacketsFrom(0, 0)
    }

    /** Where copying ends: at the frame's end, or behind it. */
    function End(k: nat, pos: nat): nat
      requires Valid()
      decreases |frame| - pos
    {
      if pos + CopyLen(k) >= |frame| then pos + CopyLen(k)
      else
        CopiesSomething(k);
        End(k + 1, pos + CopyLen(k))
    }
  }

  /** The header bytes: the first packet's are its number 0, the frame's length in one or two groups, low one first, and the
      version; each later packet's is its number. */
  lemma HeaderBytes(j: Job, k: nat)
    requires k < 0x80
    ensures k > 0 ==> j.Header(k) == [k]
    ensures |j.frame| < 0x80 ==> j.Header(0) == [0, |j.frame|, 0x40]
    ensures 0x80 <= |j.frame| < 0x4000 ==> j.Header(0) == [0, 0x80 + |j.frame| % 0x80, |j.frame| / 0x80, 0x40]
  {
    var n := |j.frame|;
    assert Groups(0, 4) == [0];
    if n >= 0x80 {
      assert n < 0x4000 ==> Groups(n / 0x80, 3) == [n / 0x80];
    }
  }

  /** A packet begins with the header of its number, and is no longer than the packet size. */
  predicate FramedAs(j: Job, k: nat, p: seq<Byte>) {
    |j.Header(k)| <= |p| <= j.mtu && p[..|j.Header(k)|] == j.Header(k)
  }

  predicate Framed(j: Job, k: nat, packets: seq<seq<Byte>>) {
    forall i :: 0 <= i < |packets| ==> FramedAs(j, k + i, packets[i])
  }

  lemma FramedCons(j: Job, k: nat, p: seq<Byte>, rest: seq<seq<Byte>>)
    requires FramedAs(j, k, p) && Framed(j, k + 1, rest)
    ensures Framed(j, k, [p] + rest)
  {
    hide FramedAs;
    var ps := [p] + rest;
    forall i | 0 <= i < |ps| ensures FramedAs(j, k + i, ps[i]) {
      if i > 0 {
        assert ps[i] == rest[i - 1] && k + i == k + 1 + (i - 1);
      }
    }
  }

  lemma FramedRest(j: Job, k: nat, packets: seq<seq<Byte>>)
    requires packets != [] && Framed(j, k, packets)
    ensures FramedAs(j, k, packets[0]) && Framed(j, k + 1, packets[1..])
  {
    hide FramedAs;
    var rest := packets[1..];
    assert FramedAs(j, k + 0, packets[0]);
    forall i | 0 <= i < |rest| ensures FramedAs(j, k + 1 + i, rest[i]) {
      assert rest[i] == packets[i + 1] && FramedAs(j, k + (i + 1), packets[i + 1]);
    }
  }

  /** The payloads behind the headers of packets k, k + 1, ... */
  function Payloads(j: Job, k: nat, packets: seq<seq<Byte>>): seq<Byte>
    requires Framed(j, k, packets)
    decreases |packets|
  {
    if packets == [] then []
    else
      FramedRest(j, k, packets);
      packets[0][|j.Header(k)|..] + Payloads(j, k + 1, packets[1..])
  }

  lemma StretchJoins(j: Job, from: nat, m: nat, n: nat)
    ensures j.Stretch(from, m) + j.Stretch(from + m, n) == j.Stretch(from, m + n)
  {
  }

  lemma PacketParts(j: Job, k: nat, pos: nat)
    requires j.Valid()
    ensures FramedAs(j, k, j.Packet(k, pos)) && j.Packet(k, pos)[|j.Header(k)|..] == j.Stretch(pos, j.CopyLen(k))
  {
  }

  /** Every packet from number k on has its header and fits; there is one at least, and no more than bytes left. */
  lemma {:induction false} PacketsAreFramed(j: Job, k: nat, pos: nat)
    requires j.Valid() && pos <= |j.frame|
    ensures var ps := j.PacketsFrom(k, pos);
      Framed(j, k, ps) && 1 <= |ps| && (|j.frame| > pos ==> |ps| <= |j.frame| - pos) && (|j.frame| == pos ==> |ps| == 1)
    decreases |j.frame| - pos
  {
    PacketParts(j, k, pos);
    hide Job.Packet, Job.Header, FramedAs;
    var n := j.CopyLen(k);
    FramedCons(j, k, j.Packet(k, pos), []);
    if pos + n < |j.frame| {
      j.CopiesSomething(k);
      PacketsAreFramed(j, k + 1, pos + n);
      FramedCons(j, k, j.Packet(k, pos), j.PacketsFrom(k + 1, pos + n));
    } else {
      assert [j.Packet(k, pos)] + [] == [j.Packet(k, pos)];
    }
  }

  lemma PayloadsCons(j: Job, k: nat, p: seq<Byte>, rest: seq<seq<Byte>>)
    requires FramedAs(j, k, p) && Framed(j, k + 1, rest)
    ensures Framed(j, k, [p] + rest) && Payloads(j, k, [p] + rest) == p[|j.Header(k)|..] + Payloads(j, k + 1, rest)
  {
    FramedCons(j, k, p, rest);
    assert ([p] + rest)[1..] == rest;
  }

  lemma NoPayloads(j: Job, k: nat)
    ensures Framed(j, k, []) && Payloads(j, k, []) == []
  {
  }

  lemma UnfoldPackets(j: Job, k: nat, pos: nat)
    requires j.Valid()
    ensures |j.frame| > 0 ==> j.CopyLen(k) > 0
    ensures j.End(k, pos) == if pos + j.CopyLen(k) >= |j.frame| then pos + j.CopyLen(k) else j.End(k + 1, pos + j.CopyLen(k))
    ensures j.PacketsFrom(k, pos) == [j.Packet(k, pos)] + (if pos + j.CopyLen(k) >= |j.frame| then [] else j.PacketsFrom(k + 1, pos + j.CopyLen(k)))
  {
    hide Job.Packet, Job.Header;
    assert [j.Packet(k, pos)] + [] == [j.Packet(k, pos)];
  }

  lemma Joined<T>(a: seq<T>, x: T, b: seq<T>)
    ensures (a + [x]) + b == a + ([x] + b) && (a + [x]) + [] == a + [x]
  {
  }

  lemma {:induction false} PayloadsJoin(j: Job, k: nat, pos: nat)
    requires j.Valid() && pos <= |j.frame|
    ensures Framed(j, k, j.PacketsFrom(k, pos)) && j.End(k, pos) >= |j.frame|
    ensures Payloads(j, k, j.PacketsFrom(k, pos)) == j.Stretch(pos, j.End(k, pos) - pos)
    decreases |j.frame| - pos
  {
    hide Job.Packet, Job.Header, Job.Stretch, Job.PacketsFrom, Job.End, Job.CopyLen, FramedAs, Framed, Payloads;
    var p, n := j.Packet(k, pos), j.CopyLen(k);
    PacketParts(j, k, pos);
    UnfoldPackets(j, k, pos);
    if pos + n < |j.frame| {
      PayloadsJoin(j, k + 1, pos + n);
      PayloadsCons(j, k, p, j.PacketsFrom(k + 1, pos + n));
      StretchJoins(j, pos, n, j.End(k, pos) - pos - n);
    } else {
      OnePayload(j, k, p);
      WithNothing(p);
    }
  }

  lemma OnePayload(j: Job, k: nat, p: seq<Byte>)
    requires FramedAs(j, k, p)
    ensures Framed(j, k, [p]) && Payloads(j, k, [p]) == p[|j.Header(k)|..]
  {
    NoPayloads(j, k + 1);
    PayloadsCons(j, k, p, []);
    hide Framed, Payloads;
    WithNothing(p);
    assert p[|j.Header(k)|..] + [] == p[|j.Header(k)|..];
  }

  lemma WithNothing(p: seq<Byte>)
    ensures [p] + [] == [p]
  {
  }

  lemma WholeFrame(j: Job, n: nat)
    requires n >= |j.frame|
    ensures j.Stretch(0, n)[..|j.frame|] == j.frame
  {
  }

  /** Every notification fits the packet size and carries its number; the payloads joined are the frame, followed
      by as many bytes from behind it as the last packet copies too many. */
  lemma FragmentationIsRight(j: Job)
    requires j.Valid()
    ensures var ps := j.Packets();
      && Framed(j, 0, ps)
      && Payloads(j, 0, ps) == j.Stretch(0, j.End(0, 0)) && j.End(0, 0) >= |j.frame|
      && Payloads(j, 0, ps)[..|j.frame|] == j.frame
  {
    hide Framed, Payloads, Job.Stretch, Job.End, Job.PacketsFrom;
    PayloadsJoin(j, 0, 0);
    WholeFrame(j, j.End(0, 0));
  }

  /** A frame that fits one packet is sent as it is. */
  lemma OnePacketIsExact(j: Job)
    requires j.Valid() && |j.frame| + 9 <= j.mtu
    ensures j.Packets() == [j.Header(0) + j.frame]
  {
    assert j.Stretch(0, |j.frame|) == j.frame;
  }

  /** Ten bytes at ten a packet: the first packet carries seven, the second nine, six of them from behind. */
  lemma LastPacketReadsBehind(behind: nat -> Byte)
    ensures var j := Job([1, 2, 3, 4, 5, 6, 7, 8, 9, 10], behind, 10);
      j.Packets() == [[0, 10, 0x40, 1, 2, 3, 4, 5, 6, 7],
                      [1, 8, 9, 10, behind(0), behind(1), behind(2), behind(3), behind(4), behind(5)]]
  {
    var j := Job([1, 2, 3, 4, 5, 6, 7, 8, 9, 10], behind, 10);
    TenBytes(j);
    UnfoldPackets(j, 0, 0);
    UnfoldPackets(j, 1, 7);
    FirstOfTen(j);
    SecondOfTen(j);
    hide Groups, Job.Stretch, Job.Header, Job.Packet, Job.PacketsFrom;
  }

  lemma FirstOfTen(j: Job)
    requires j.frame == [1, 2, 3, 4, 5, 6, 7, 8, 9, 10] && j.mtu == 10
    ensures j.Packet(0, 0) == [0, 10, 0x40, 1, 2, 3, 4, 5, 6, 7]
  {
    TenBytes(j);
    assert j.Stretch(0, 7) == [1, 2, 3, 4, 5, 6, 7];
    hide Groups, Job.Stretch, Job.Header;
  }

  lemma SecondOfTen(j: Job)
    requires j.frame == [1, 2, 3, 4, 5, 6, 7, 8, 9, 10] && j.mtu == 10
    ensures j.Packet(1, 7) == [1, 8, 9, 10, j.behind(0), j.behind(1), j.behind(2), j.behind(3), j.behind(4), j.behind(5)]
  {
    TenBytes(j);
    assert j.Stretch(7, 9) == [8, 9, 10, j.behind(0), j.behind(1), j.behind(2), j.behind(3), j.behind(4), j.behind(5)];
    hide Groups, Job.Stretch, Job.Header;
  }

  lemma TenBytes(j: Job)
    requires |j.frame| == j.mtu == 10
    ensures j.Header(0) == [0, 10, 0x40] && j.Header(1) == [1] && j.CopyLen(0) == 7 && j.CopyLen(1) == 9
  {
    assert Groups(0, 4) == [0] && Groups(10, 4) == [10] && Groups(1, 4) == [1];
    hide Groups;
  }

  // ---------- the receiver

  /** A packet's header as ble_recv_data_unpack reads it, and where the payload starts. */
  datatype Unpacked = Broken | First(frameLen: nat, version: nat, offset: nat) | Later(number: nat, offset: nat)

  function Unpack(data: seq<Byte>): Unpacked {
    match Decode(data, 0)
    case OffTheEnd => Broken
    case Number(k, i) =>
      if k != 0 then Later(k, i)
      else
        match Decode(data, i)
        case OffTheEnd => Broken
        case Number(n, v) => if v < |data| then First(n, data[v] / 0x10, v + 1) else Broken
  }

  lemma SliceWithin(data: seq<Byte>, h: seq<Byte>, a: nat, b: nat)
    requires a <= b <= |h| <= |data| && data[..|h|] == h
    ensures data[a..b] == h[a..b]
  {
    assert data[..|h|][a..b] == data[a..b];
  }

  lemma FirstHeaderReadBack(j: Job, p: seq<Byte>)
    requires j.Valid() && |j.frame| < 0x4000 && FramedAs(j, 0, p)
    ensures Unpack(p) == First(|j.frame|, 4, |j.Header(0)|)
  {
    var h, g := j.Header(0), Groups(|j.frame|, 4);
    FirstHeaderIs(j);
    SliceWithin(p, h, 0, 1);
    SliceWithin(p, h, 1, 1 + |g|);
    SliceWithin(p, h, 1 + |g|, 2 + |g|);
    hide Groups, Job.Header, Decode;
    GroupsReadBack(0, p, 0);
    GroupsReadBack(|j.frame|, p, 1);
    ReadAsMeant(|j.frame|);
    assert p[1 + |g|..2 + |g|][0] == p[1 + |g|];
  }

  lemma FirstHeaderIs(j: Job)
    ensures var h, g := j.Header(0), Groups(|j.frame|, 4);
      Groups(0, 4) == [0] && |h| == 2 + |g| && h[0..1] == [0] && h[1..1 + |g|] == g && h[1 + |g|..2 + |g|] == [VERSION]
  {
    var h, g := j.Header(0), Groups(|j.frame|, 4);
    assert Groups(0, 4) == [0];
    hide Groups;
    assert h == [0] + (g + [VERSION]);
  }

  lemma LaterHeaderReadBack(j: Job, k: nat, p: seq<Byte>)
    requires 0 < k < 0x4000 && FramedAs(j, k, p)
    ensures Unpack(p) == Later(k, |j.Header(k)|)
  {
    var h := j.Header(k);
    assert p[0..|h|] == p[..|h|];
    GroupsReadBack(k, p, 0);
    ReadAsMeant(k);
    hide Decode, Groups;
  }

  /** The receiver reads back the number, the frame length below 16384, the version, and exactly where the payload
      starts. */
  lemma HeaderReadBack(j: Job, k: nat, p: seq<Byte>)
    requires j.Valid() && |j.frame| < 0x4000 && k < 0x4000 && FramedAs(j, k, p)
    ensures Unpack(p) == if k == 0 then First(|j.frame|, 4, |j.Header(0)|) else Later(k, |j.Header(k)|)
  {
    hide Unpack, Job.Header, FramedAs;
    if k == 0 {
      FirstHeaderReadBack(j, p);
    } else {
      LaterHeaderReadBack(j, k, p);
    }
  }

  /** The frame length announced and the payload bytes gathered so far. */
  datatype Gathered = Gathered(frameLen: nat, data: seq<Byte>)

  function Receive(g: Gathered, p: seq<Byte>): Gathered {
    match Unpack(p)
    case Broken => g
    case First(n, _, i) => if i <= |p| then Gathered(n, p[i..]) else g
    case Later(_, i) => if i <= |p| then Gathered(g.frameLen, g.data + p[i..]) else g
  }

  function ReceiveAll(g: Gathered, packets: seq<seq<Byte>>): Gathered
    decreases |packets|
  {
    if packets == [] then g else ReceiveAll(Receive(g, packets[0]), packets[1..])
  }

  lemma {:induction false} LaterPacketsGather(j: Job, k: nat, packets: seq<seq<Byte>>, g: Gathered)
    requires j.Valid() && |j.frame| < 0x4000 && 0 < k && k + |packets| <= 0x4000 && Framed(j, k, packets)
    ensures ReceiveAll(g, packets) == Gathered(g.frameLen, g.data + Payloads(j, k, packets))
    decreases |packets|
  {
    if packets == [] {
      assert g.data + [] == g.data;
    } else {
      FramedRest(j, k, packets);
      HeaderReadBack(j, k, packets[0]);
      var payload := packets[0][|j.Header(k)|..];
      LaterPacketsGather(j, k + 1, packets[1..], Gathered(g.frameLen, g.data + payload));
      assert (g.data + payload) + Payloads(j, k + 1, packets[1..]) == g.data + (payload + Payloads(j, k + 1, packets[1..]));
    }
  }

  lemma PacketsGather(j: Job, packets: seq<seq<Byte>>, before: Gathered)
    requires j.Valid() && |j.frame| < 0x4000 && 1 <= |packets| <= 0x4000 && Framed(j, 0, packets)
    ensures ReceiveAll(before, packets) == Gathered(|j.frame|, Payloads(j, 0, packets))
  {
    FramedRest(j, 0, packets);
    HeaderReadBack(j, 0, packets[0]);
    assert |j.Header(0)| <= |packets[0]|;
    hide Unpack, FramedAs, Framed, Job.Header;
    LaterPacketsGather(j, 1, packets[1..], Receive(before, packets[0]));
  }

  lemma PacketCount(j: Job)
    requires j.Valid() && |j.frame| < 0x4000
    ensures 1 <= |j.Packets()| <= 0x4000
  {
    PacketsAreFramed(j, 0, 0);
    hide Framed, Job.PacketsFrom;
  }

  /** The receiver of every packet, in order, has the frame's length and the joined payloads, at the front of which
      is the frame, for every frame below 16384 bytes and every packet size from 10 on. */
  lemma FrameIsReassembled(j: Job, before: Gathered)
    requires j.Valid() && |j.frame| < 0x4000
    ensures ReceiveAll(before, j.Packets()) == Gathered(|j.frame|, j.Stretch(0, j.End(0, 0)))
    ensures j.End(0, 0) >= |j.frame| && j.Stretch(0, j.End(0, 0))[..|j.frame|] == j.frame
  {
    hide Framed, Payloads, Job.Stretch, Job.End, Job.PacketsFrom, Job.CopyLen, Job.Header, Job.PackLen, ReceiveAll;
    FragmentationIsRight(j);
    PacketCount(j);
    PacketsGather(j, j.Packets(), before);
  }

  // ---------- the sender's loop

  method PutByte(sendData: array<Byte>, ghost at: nat, offset: nat, b: Byte)
    requires at <= offset < sendData.Length
    modifies sendData
    ensures sendData[at..offset + 1] == old(sendData[at..offset]) + [b] && sendData[offset] == b
    ensures forall k :: 0 <= k < sendData.Length && k != offset ==> sendData[k] == old(sendData[k])
  {
    sendData[offset] := b;
    assert sendData[at..offset] == old(sendData[at..offset]);
    assert sendData[at..offset + 1] == sendData[at..offset] + [b];
  }

  /** The two group loops: at most four bytes, and the offset moves past them. */
  method PutGroups(sendData: array<Byte>, at: nat, number: nat) returns (offset: nat)
    requires at + 4 <= sendData.Length
    modifies sendData
    ensures offset == at + |Groups(number, 4)| && sendData[at..offset] == Groups(number, 4)
    ensures forall k :: 0 <= k < sendData.Length && !(at <= k < offset) ==> sendData[k] == old(sendData[k])
  {
    hide Groups;
    offset := at;
    var tmp, i := number, 0;
    assert [] + Groups(tmp, 4) == Groups(tmp, 4);
    while i < 4
      invariant i < 4 && offset == at + i
      invariant sendData[at..offset] + Groups(tmp, 4 - i) == Groups(number, 4)
      invariant forall k :: 0 <= k < sendData.Length && !(at <= k < offset) ==> sendData[k] == old(sendData[k])
      decreases 4 - i
    {
      ghost var done := sendData[at..offset];
      UnfoldGroups(tmp, 4 - i);
      PutByte(sendData, at, offset, tmp % 0x80 + (if tmp / 0x80 != 0 then 0x80 else 0));
      Joined(done, sendData[offset], if tmp / 0x80 == 0 || i == 3 then [] else Groups(tmp / 0x80, 3 - i));
      offset := offset + 1;
      tmp := tmp / 0x80;
      if tmp == 0 || i == 3 {
        break;
      }
      i := i + 1;
    }
  }

  lemma UnfoldGroups(n: nat, left: nat)
    requires left > 0
    ensures var b: Byte := n % 0x80 + (if n / 0x80 != 0 then 0x80 else 0);
      Groups(n, left) == [b] + (if n / 0x80 == 0 || left == 1 then [] else Groups(n / 0x80, left - 1))
  {
  }

  /** ble_rsp_data_pack_and_send. `refused` says which notifications fail; the first that does ends the loop, and what
      was notified before it are the packets up to it. */
  method PackAndSend(j: Job, refused: nat -> bool) returns (ok: bool, sent: seq<seq<Byte>>)
    requires j.Valid()
    ensures forall i :: 0 <= i < |sent| ==> !refused(i)
    ensures ok ==> sent == j.Packets()
    ensures !ok ==> |sent| < |j.Packets()| && sent == j.Packets()[..|sent|] && refused(|sent|)
  {
    hide Job.PacketsFrom, Job.Packet, Job.Header;
    var size := |j.frame|;
    var sendData := new Byte[if size + 9 > j.mtu then j.mtu else size + 9](_ => 0);
    var packSeq, remain := 0, size;
    sent := [];
    ghost var pos := 0;
    assert [] + j.Packets() == j.Packets();
    while true
      invariant remain == size - pos && (packSeq > 0 ==> pos < size) && (packSeq == 0 ==> pos == 0)
      invariant |sent| == packSeq && sent + j.PacketsFrom(packSeq, pos) == j.Packets()
      invariant forall i :: 0 <= i < |sent| ==> !refused(i)
      decreases size - pos, if packSeq == 0 then 1 else 0
    {
      var dataOffset, copyLen := FillPacket(j, sendData, packSeq, size - remain);
      UnfoldPackets(j, packSeq, pos);
      Joined(sent, j.Packet(packSeq, pos), j.PacketsFrom(packSeq + 1, pos + copyLen));
      if refused(packSeq) {
        return false, sent;
      }
      sent := sent + [sendData[..dataOffset]];
      remain := remain - copyLen;
      if remain <= 0 {
        break;
      }
      packSeq, pos := packSeq + 1, pos + copyLen;
    }
    ok := true;
  }

  /** The header and the frame bytes of one packet; the copy is bounded by the whole frame. */
  method FillPacket(j: Job, sendData: array<Byte>, packSeq: nat, from: nat) returns (dataOffset: nat, copyLen: nat)
    requires j.Valid() && sendData.Length == j.PackLen()
    modifies sendData
    ensures copyLen == j.CopyLen(packSeq) && dataOffset <= sendData.Length && sendData[..dataOffset] == j.Packet(packSeq, from)
  {
    dataOffset := PutHeader(j, sendData, packSeq);
    ghost var h := j.Header(packSeq);
    hide Job.Header, Job.Stretch;
    var room := sendData.Length - dataOffset;
    copyLen := if room > |j.frame| then |j.frame| else room;
    CopyFrame(j, sendData, dataOffset, from, copyLen);
    assert sendData[..dataOffset] == h;
    assert sendData[..dataOffset + copyLen] == sendData[..dataOffset] + sendData[dataOffset..dataOffset + copyLen];
    dataOffset := dataOffset + copyLen;
  }

  /** The memcpy of frame bytes, from `from` on, into the packet. */
  method CopyFrame(j: Job, sendData: array<Byte>, at: nat, from: nat, n: nat)
    requires at + n <= sendData.Length
    modifies sendData
    ensures sendData[at..at + n] == j.Stretch(from, n)
    ensures forall k :: 0 <= k < sendData.Length && !(at <= k < at + n) ==> sendData[k] == old(sendData[k])
  {
    ghost var t := j.Stretch(from, n);
    forall k | at <= k < at + n { sendData[k] := j.ByteAt(from + (k - at)); }
    forall k | at <= k < at + n ensures sendData[k] == t[k - at] { }
  }

  method PutHeader(j: Job, sendData: array<Byte>, packSeq: nat) returns (dataOffset: nat)
    requires j.Valid() && sendData.Length == j.PackLen()
    modifies sendData
    ensures dataOffset == |j.Header(packSeq)| <= sendData.Length && sendData[..dataOffset] == j.Header(packSeq)
  {
    dataOffset := PutGroups(sendData, 0, packSeq);
    if packSeq == 0 {
      var first := dataOffset;
      dataOffset := PutGroups(sendData, first, |j.frame|);
      sendData[dataOffset] := 0x40;
      dataOffset := dataOffset + 1;
    }
  }
}
