/** For which frame lengths and packet sizes the sub-packets of a frame end where the frame ends. */
module BleSizes {
  import opened BleFraming

  // ---------- header sizes

  /** How many bytes a number takes in 7-bit groups, at most four. */
  function GroupCount(n: nat): nat {
    if n < 0x80 then 1 else if n < 0x4000 then 2 else if n < 0x20_0000 then 3 else 4
  }

  lemma GroupsCounted(n: nat)
    ensures |Groups(n, 4)| == GroupCount(n)
  {
    if n < 0x1000_0000 {
      GroupsAre(n);
    } else {
      FourthGroupAsksForMore(n);
    }
  }

  lemma HeaderSizes(j: Job, k: nat)
    ensures |j.Header(k)| == if k == 0 then 2 + GroupCount(|j.frame|) else GroupCount(k)
  {
    GroupsCounted(0);
    GroupsCounted(|j.frame|);
    GroupsCounted(k);
    hide Groups;
  }

  // ---------- the sizes that are filled exactly

  /** What the first packet, and the first 128, 16384 and 2097152 packets, hold of a frame. */
  function HoldFirst(size: nat, mtu: nat): int {
    mtu - 2 - GroupCount(size)
  }

  function Hold128(size: nat, mtu: nat): int {
    HoldFirst(size, mtu) + 127 * (mtu - 1)
  }

  function Hold16384(size: nat, mtu: nat): int {
    Hold128(size, mtu) + 16256 * (mtu - 2)
  }

  function Hold2097152(size: nat, mtu: nat): int {
    Hold16384(size, mtu) + 2080768 * (mtu - 3)
  }

  /** `left` bytes are a number of packets with that much room. */
  predicate FullPackets(left: int, room: int)
    requires room > 0
  {
    left % room == 0
  }

  /** A frame of this size fits the first packet, or what is left of it behind the last change of the header size is a
      number of full packets. */
  predicate FillsItsPackets(size: nat, mtu: nat)
    requires mtu >= 10
  {
    if size <= HoldFirst(size, mtu) then true
    else if size <= Hold128(size, mtu) then FullPackets(size - HoldFirst(size, mtu), mtu - 1)
    else if size <= Hold16384(size, mtu) then FullPackets(size - Hold128(size, mtu), mtu - 2)
    else if size <= Hold2097152(size, mtu) then FullPackets(size - Hold16384(size, mtu), mtu - 3)
    else FullPackets(size - Hold2097152(size, mtu), mtu - 4)
  }

  // ---------- packets of one header size

  /** Packets `k` to `hi` have headers of `h` bytes. */
  predicate Uniform(k: nat, hi: nat, h: nat) {
    k > 0 && forall i :: k <= i < hi ==> GroupCount(i) == h
  }

  lemma PacketRoom(j: Job, k: nat)
    requires j.Valid() && |j.frame| + 9 > j.mtu && k > 0
    ensures var room := j.mtu - GroupCount(k); j.CopyLen(k) == if room > |j.frame| then |j.frame| else room
  {
    HeaderSizes(j, k);
    hide Job.Header;
  }

  lemma RemainderIs(q: nat, r: nat, room: nat)
    requires r < room
    ensures (q * room + r) % room == r
  {
    var n := q * room + r;
    var p := n / room;
    assert p * room + n % room == n;
    Distributes(p, q, room);
    Distributes(q, p, room);
    if p > q {
      AtLeastOne(p - q, room);
    } else if p < q {
      AtLeastOne(q - p, room);
    }
  }

  lemma Distributes(p: nat, q: nat, room: nat)
    ensures (p - q) * room == p * room - q * room
  {
  }

  lemma AtLeastOne(d: nat, room: nat)
    requires d > 0
    ensures d * room >= room
  {
  }

  lemma OneRoomLess(n: nat, room: nat)
    requires 0 < room <= n
    ensures FullPackets(n, room) <==> FullPackets(n - room, room)
  {
    var q, r := n / room, n % room;
    assert n == q * room + r;
    if q > 0 {
      OneLess(q, room);
      RemainderIs(q - 1, r, room);
    }
  }

  lemma LastRoom(n: nat, room: nat)
    requires 0 < n <= room
    ensures FullPackets(n, room) <==> n == room
  {
  }

  lemma OneLess(count: nat, room: nat)
    requires count > 0
    ensures count * room == room + (count - 1) * room
  {
  }

  /** Over packets of one header size, the frame's end is met exactly when it lies full packets ahead; otherwise the
      packets that follow go on from where these end. */
  lemma {:induction false} UniformPackets(j: Job, k: nat, hi: nat, h: nat, pos: nat, next: nat)
    requires j.Valid() && |j.frame| + 9 > j.mtu && k <= hi && h <= 4 && Uniform(k, hi, h) && 0 < pos < |j.frame|
    requires next == pos + (hi - k) * (j.mtu - h)
    ensures if |j.frame| <= next then (j.End(k, pos) == |j.frame| <==> FullPackets(|j.frame| - pos, j.mtu - h))
            else j.End(k, pos) == j.End(hi, next)
    decreases hi - k
  {
    var room, left := j.mtu - h, |j.frame| - pos;
    if k == hi {
      NoRoom(room);
    } else {
      assert GroupCount(k) == h;
      PacketRoom(j, k);
      UnfoldPackets(j, k, pos);
      OneLess(hi - k, room);
      NotNegative(hi - k - 1, room);
      hide Job.End, Job.CopyLen, GroupCount, FullPackets;
      if left <= room {
        LastRoom(left, room);
      } else {
        UniformPackets(j, k + 1, hi, h, pos + room, next);
        OneRoomLess(left, room);
      }
    }
  }

  lemma NoRoom(room: nat)
    ensures 0 * room == 0
  {
  }

  lemma NotNegative(count: nat, room: nat)
    ensures count * room >= 0
  {
  }

  lemma HeaderRanges(n: nat)
    ensures Uniform(1, 0x80, 1) && Uniform(0x80, 0x4000, 2) && Uniform(0x4000, 0x20_0000, 3) && Uniform(0x20_0000, 0x20_0000 + n, 4)
  {
  }

  lemma HoldMore(size: nat, mtu: nat)
    requires mtu >= 10
    ensures 0 < HoldFirst(size, mtu) < Hold128(size, mtu) < Hold16384(size, mtu) < Hold2097152(size, mtu)
    ensures Hold128(size, mtu) == HoldFirst(size, mtu) + (0x80 - 1) * (mtu - 1)
    ensures Hold16384(size, mtu) == Hold128(size, mtu) + (0x4000 - 0x80) * (mtu - 2)
    ensures Hold2097152(size, mtu) == Hold16384(size, mtu) + (0x20_0000 - 0x4000) * (mtu - 3)
  {
  }

  /** From packet 2097152 on headers have four bytes. */
  lemma LongestHeaders(j: Job, pos: nat)
    requires j.Valid() && |j.frame| + 9 > j.mtu && 0 < pos < |j.frame|
    ensures j.End(0x20_0000, pos) == |j.frame| <==> FullPackets(|j.frame| - pos, j.mtu - 4)
  {
    var n := |j.frame|;
    HeaderRanges(n);
    AtLeastEach(n, j.mtu - 4);
    hide Job.End, Uniform, FullPackets, GroupCount;
    UniformPackets(j, 0x20_0000, 0x20_0000 + n, 4, pos, pos + n * (j.mtu - 4));
  }

  lemma ThreeByteHeaders(j: Job, pos: nat, next: nat)
    requires j.Valid() && |j.frame| + 9 > j.mtu && 0 < pos < |j.frame| && next == pos + (0x20_0000 - 0x4000) * (j.mtu - 3)
    ensures var n := |j.frame|;
      j.End(0x4000, pos) == n <==> if n <= next then FullPackets(n - pos, j.mtu - 3) else FullPackets(n - next, j.mtu - 4)
  {
    HeaderRanges(0);
    hide Job.End, Uniform, FullPackets, GroupCount;
    UniformPackets(j, 0x4000, 0x20_0000, 3, pos, next);
    if |j.frame| > next {
      LongestHeaders(j, next);
    }
  }

  lemma TwoByteHeaders(j: Job, pos: nat, next: nat, last: nat)
    requires j.Valid() && |j.frame| + 9 > j.mtu && 0 < pos < |j.frame|
    requires next == pos + (0x4000 - 0x80) * (j.mtu - 2) && last == next + (0x20_0000 - 0x4000) * (j.mtu - 3)
    ensures var n := |j.frame|;
      j.End(0x80, pos) == n <==>
        if n <= next then FullPackets(n - pos, j.mtu - 2)
        else if n <= last then FullPackets(n - next, j.mtu - 3) else FullPackets(n - last, j.mtu - 4)
  {
    HeaderRanges(0);
    hide Job.End, Uniform, FullPackets, GroupCount;
    UniformPackets(j, 0x80, 0x4000, 2, pos, next);
    if |j.frame| > next {
      ThreeByteHeaders(j, next, last);
    }
  }

  /** The packets after the first. */
  lemma LaterPackets(j: Job)
    requires j.Valid() && |j.frame| + 9 > j.mtu && |j.frame| > HoldFirst(|j.frame|, j.mtu)
    ensures j.End(1, HoldFirst(|j.frame|, j.mtu)) == |j.frame| <==> FillsItsPackets(|j.frame|, j.mtu)
  {
    var n, mtu := |j.frame|, j.mtu;
    HeaderRanges(0);
    HoldMore(n, mtu);
    hide Job.End, Uniform, FullPackets, GroupCount, HoldFirst, Hold128, Hold16384, Hold2097152;
    UniformPackets(j, 1, 0x80, 1, HoldFirst(n, mtu), Hold128(n, mtu));
    if n > Hold128(n, mtu) {
      TwoByteHeaders(j, Hold128(n, mtu), Hold16384(n, mtu), Hold2097152(n, mtu));
    }
  }

  /** Exactly when the copying ends where the frame ends. */
  lemma EndIsExact(j: Job)
    requires j.Valid()
    ensures j.End(0, 0) == |j.frame| <==> FillsItsPackets(|j.frame|, j.mtu)
  {
    HeaderSizes(j, 0);
    UnfoldPackets(j, 0, 0);
    hide Job.End, Job.Header, Job.Packet, Job.PacketsFrom;
    if |j.frame| > HoldFirst(|j.frame|, j.mtu) {
      hide FillsItsPackets;
      LaterPackets(j);
    }
  }

  lemma AtLeastEach(count: nat, room: nat)
    requires room > 0
    ensures count * room >= count
  {
  }

  /** Nothing from behind the frame is sent exactly when the frame fills its packets, by its size and the packet size. */
  lemma NothingBehindIsSent(j: Job)
    requires j.Valid()
    ensures Framed(j, 0, j.Packets()) && (Payloads(j, 0, j.Packets()) == j.frame <==> FillsItsPackets(|j.frame|, j.mtu))
  {
    hide FillsItsPackets, Framed, Payloads, Job.End, Job.PacketsFrom;
    EndIsExact(j);
    PayloadsJoin(j, 0, 0);
    if j.End(0, 0) == |j.frame| {
      assert j.Stretch(0, |j.frame|) == j.frame;
    }
  }

  /** With an offset that counts bytes, as it is meant to, what the receiver gathers fits memory of the announced length
      exactly for those sizes. */
  lemma GatheredFits(j: Job, before: Gathered)
    requires j.Valid() && |j.frame| < 0x4000
    ensures var g := ReceiveAll(before, j.Packets()); |g.data| <= g.frameLen <==> FillsItsPackets(|j.frame|, j.mtu)
  {
    hide FillsItsPackets, ReceiveAll, Job.End, Job.PacketsFrom;
    EndIsExact(j);
    FrameIsReassembled(j, before);
  }

  // ---------- where the receiver writes

  /** The size of what the receiver's pointer points at: an encryption mode and an initialization vector, packed. */
  const UNIT := 17

  /** The receiver's memory: its length as announced, the offset, and whether every write so far was inside. The offset
      counts payload bytes, but indexes the pointer, so that the next write starts at byte UNIT * offset. */
  datatype Placed = Placed(length: nat, offset: nat, inside: bool) {
    function Write(n: nat): Placed {
      Placed(length, offset + n, inside && UNIT * offset + n <= length)
    }
  }

  /** ble_recv_data_unpack; a first packet gets fresh memory. */
  function Place(m: Placed, p: seq<Byte>): Placed {
    match Unpack(p)
    case Broken => m
    case First(n, _, i) => if i <= |p| then Placed(n, 0, true).Write(|p| - i) else m
    case Later(_, i) => if i <= |p| then m.Write(|p| - i) else m
  }

  function PlaceAll(m: Placed, packets: seq<seq<Byte>>): Placed
    decreases |packets|
  {
    if packets == [] then m else PlaceAll(Place(m, packets[0]), packets[1..])
  }

  lemma PlacePacket(j: Job, k: nat, pos: nat, m: Placed)
    requires j.Valid() && |j.frame| < 0x4000 && k < 0x4000
    ensures Place(m, j.Packet(k, pos)) == (if k == 0 then Placed(|j.frame|, 0, true) else m).Write(j.CopyLen(k))
  {
    PacketParts(j, k, pos);
    HeaderReadBack(j, k, j.Packet(k, pos));
    hide Job.Packet, Job.Header, Job.CopyLen, Unpack;
    assert |j.Packet(k, pos)| - |j.Header(k)| == |j.Packet(k, pos)[|j.Header(k)|..]|;
  }

  lemma PlaceCons(m: Placed, p: seq<Byte>, rest: seq<seq<Byte>>)
    ensures PlaceAll(m, [p] + rest) == PlaceAll(Place(m, p), rest)
  {
    assert ([p] + rest)[1..] == rest;
  }

  lemma PlaceNothing(m: Placed)
    ensures PlaceAll(m, []) == m
  {
  }

  /** The last packet behind the first writes outside: its place is counted in units. */
  lemma {:induction false} LaterPacketsWriteOutside(j: Job, k: nat, pos: nat, m: Placed)
    requires j.Valid() && 0 < pos < |j.frame| < 0x4000 && 0 < k && k + (|j.frame| - pos) <= 0x4000
    requires m.length == |j.frame| && m.offset == pos
    ensures !PlaceAll(m, j.PacketsFrom(k, pos)).inside
    decreases |j.frame| - pos
  {
    hide Job.Packet, Job.Header, Job.CopyLen, Job.PacketsFrom, Place, PlaceAll;
    UnfoldPackets(j, k, pos);
    PlacePacket(j, k, pos, m);
    var t := m.Write(j.CopyLen(k));
    var next := pos + j.CopyLen(k);
    if next >= |j.frame| {
      PlaceCons(m, j.Packet(k, pos), []);
      PlaceNothing(t);
    } else {
      PlaceCons(m, j.Packet(k, pos), j.PacketsFrom(k + 1, next));
      LaterPacketsWriteOutside(j, k + 1, next, t);
    }
  }

  /** Every write of the receiver stays inside its memory exactly when the frame fits the first packet. */
  lemma WritesStayInside(j: Job, before: Placed)
    requires j.Valid() && |j.frame| < 0x4000
    ensures PlaceAll(before, j.Packets()).inside <==> |j.frame| <= HoldFirst(|j.frame|, j.mtu)
  {
    HeaderSizes(j, 0);
    var m := Placed(|j.frame|, 0, true).Write(j.CopyLen(0));
    assert |j.frame| <= HoldFirst(|j.frame|, j.mtu) <==> j.CopyLen(0) >= |j.frame|;
    assert j.CopyLen(0) <= |j.frame|;
    hide Job.Packet, Job.Header, Job.CopyLen, Job.PacketsFrom, Place, PlaceAll;
    UnfoldPackets(j, 0, 0);
    PlacePacket(j, 0, 0, before);
    if j.CopyLen(0) >= |j.frame| {
      PlaceCons(before, j.Packet(0, 0), []);
      PlaceNothing(m);
    } else {
      PlaceCons(before, j.Packet(0, 0), j.PacketsFrom(1, j.CopyLen(0)));
      LaterPacketsWriteOutside(j, 1, j.CopyLen(0), m);
    }
  }

  /** Sixteen bytes at ten a packet fill two packets, and the second is written from byte 119 on of sixteen. */
  lemma SecondPacketIsWrittenOutside(j: Job, before: Placed)
    requires |j.frame| == 16 && j.mtu == 10
    ensures FillsItsPackets(16, 10) && j.PacketsFrom(0, 0) == [j.Packet(0, 0), j.Packet(1, 7)]
    ensures var m := Place(before, j.Packet(0, 0));
      m == Placed(16, 7, true) && UNIT * m.offset == 119 && Place(m, j.Packet(1, 7)) == Placed(16, 16, false)
  {
    HeaderSizes(j, 0);
    HeaderSizes(j, 1);
    assert j.CopyLen(0) == 7 && j.CopyLen(1) == 9;
    hide Job.Packet, Job.Header, Job.CopyLen, Job.PacketsFrom, Place;
    UnfoldPackets(j, 0, 0);
    UnfoldPackets(j, 1, 7);
    PlacePacket(j, 0, 0, before);
    PlacePacket(j, 1, 7, Placed(16, 7, true));
  }
}
