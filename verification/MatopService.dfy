/** The request table as the service keeps it: a singly linked list, appended at its end, walked by replies and
    timeouts, and edited through a pointer to a link. Each operation is proved to take the step of MatopRuns. */
module MatopService {
  import opened MatopRuns

  class Message {
    var next: Message?
    const id: nat
    const timeout: nat
    const notify: bool
    ghost const serial: nat

    constructor (id: nat, timeout: nat, notify: bool, ghost serial: nat)
      ensures next == null && this.id == id && this.timeout == timeout && this.notify == notify && this.serial == serial
    {
      next := null;
      this.id, this.timeout, this.notify, this.serial := id, timeout, notify, serial;
    }

    ghost function Entry(): Pending {
      Pending(serial, timeout, notify)
    }
  }

  class Matop {
    var idCnt: nat
    var list: Message?
    ghost var spine: seq<Message>
    ghost var state: State

    /** matop_serice_init */
    constructor ()
      ensures Valid() && state == EMPTY && spine == []
    {
      idCnt, list, spine, state := 0, null, [], EMPTY;
    }

    static ghost function At(s: seq<Message>, i: int): Message? {
      if 0 <= i < |s| then s[i] else null
    }

    /** The list from `list` on is `spine`, with no entry twice. */
    ghost predicate Linked()
      reads this, spine
    {
      && list == At(spine, 0)
      && (forall i {:trigger spine[i].next} :: 0 <= i < |spine| ==> spine[i].next == At(spine, i + 1))
      && (forall i, j :: 0 <= i < j < |spine| ==> spine[i] != spine[j])
    }

    /** The list holds the pending requests, in order; the counter and the ids are the request count cut to 32
        and 16 bits. */
    ghost predicate Valid()
      reads this, spine
    {
      && Linked()
      && |state.pending| == |spine|
      && (forall i :: 0 <= i < |spine| ==> spine[i].Entry() == state.pending[i] && spine[i].id == WireId(spine[i].serial))
      && idCnt == state.calls % TWO32
    }

    lemma NextId(calls: nat)
      ensures (calls % TWO32 + 1) % TWO32 == (calls + 1) % TWO32 && (calls + 1) % TWO32 % 0x1_0000 == WireId(calls + 1)
    {
      var r := (calls + 1) % TWO32;
      LowHalf((calls + 1) / TWO32, r / 0x1_0000, r % 0x1_0000);
      NextCount(calls / TWO32, calls % TWO32);
    }

    lemma LowHalf(q: nat, a: nat, b: nat)
      requires b < 0x1_0000
      ensures (TWO32 * q + (0x1_0000 * a + b)) % 0x1_0000 == b
    {
      var n := 0x1_0000 * q + a;
      assert TWO32 * q + (0x1_0000 * a + b) == 0x1_0000 * n + b;
    }

    lemma NextCount(q: nat, r: nat)
      requires r < TWO32
      ensures (r + 1) % TWO32 == (TWO32 * q + r + 1) % TWO32
    {
    }

    /** matop_service_request_async */
    method RequestAsync(r: Request) returns (rt: int)
      requires Valid()
      modifies this, spine`next
      ensures Valid() && state == Send(old(state), r)
      ensures rt == if r.published then OPRT_OK else OPRT_COM_ERROR
      ensures if r.published then |spine| == |old(spine)| + 1 && spine[..|old(spine)|] == old(spine) && fresh(spine[|old(spine)|])
              else spine == old(spine)
    {
      NextId(state.calls);
      idCnt := (idCnt + 1) % TWO32;
      var message := new Message(idCnt % 0x1_0000, r.Deadline(), r.notify, state.calls + 1);
      state := Send(state, r);
      if !r.published {
        return OPRT_COM_ERROR;
      }
      if list == null {
        list := message;
        spine := spine + [message];
        return OPRT_OK;
      }
      var target := list;
      ghost var k := 0;
      while target.next != null
        invariant 0 <= k < |spine| && target == spine[k]
        decreases |spine| - k
      {
        target, k := target.next, k + 1;
      }
      ghost var s := spine;
      target.next := message;
      spine := s + [message];
      Lengthened(s, message);
      rt := OPRT_OK;
    }

    /** The list `s` with one more message at its end. */
    lemma Lengthened(s: seq<Message>, m: Message)
      requires s != [] && spine == s + [m] && m !in s && m.next == null && list == s[0]
      requires forall i, j :: 0 <= i < j < |s| ==> s[i] != s[j]
      requires forall i {:trigger s[i].next} :: 0 <= i < |s| ==> s[i].next == if i + 1 < |s| then s[i + 1] else m
      ensures Linked()
    {
      forall i {:trigger spine[i].next} | 0 <= i < |spine| ensures spine[i].next == At(spine, i + 1) {
        assert i < |s| ==> spine[i] == s[i];
      }
    }

    /** The callback of entry `i`: it may send requests while its entry is still in the list. */
    method Notify(target: Message, ghost i: nat, ghost reason: Reason, script: seq<Request>)
      requires Valid() && i < |spine| && spine[i] == target
      modifies this, spine`next
      ensures Valid() && state == Noticed(old(state), i, reason, script)
      ensures |spine| >= |old(spine)| && spine[..|old(spine)|] == old(spine)
      ensures fresh(set m | m in spine[|old(spine)|..])
    {
      ghost var before := state.(notices := state.notices + [Notice(target.serial, target.notify, reason)]);
      state := before;
      if target.notify {
        var n := 0;
        while n < |script|
          invariant n <= |script| && Valid() && state == SendAll(before, script[..n])
          invariant |spine| >= |old(spine)| && spine[..|old(spine)|] == old(spine)
          invariant fresh(set m | m in spine[|old(spine)|..])
        {
          assert script[..n + 1][..n] == script[..n];
          var rt := RequestAsync(script[n]);
          n := n + 1;
        }
        assert script[..n] == script;
      }
    }

    /** The entry that holds an id, or null. */
    method FindMessage(id: nat) returns (target: Message?, ghost i: nat)
      requires Valid()
      ensures i == Find(state.pending, id) && target == At(spine, i)
    {
      target, i := list, 0;
      while target != null && target.id != id
        invariant i <= |spine| && target == At(spine, i)
        invariant forall j :: 0 <= j < i ==> state.pending[j].Id() != id
        decreases |spine| - i
      {
        target, i := target.next, i + 1;
      }
    }

    static ghost function Just(m: Message?): set<Message> {
      if m == null then {} else {m}
    }

    /** *current = entry->next, where `current` is the link of `prev`, or the list's own when that is null. */
    method Unlink(prev: Message?, entry: Message, ghost k: nat)
      requires Valid() && k < |spine| && entry == spine[k] && prev == At(spine, k - 1)
      modifies this`list, this`spine, this`state, Just(prev)`next
      ensures Valid() && spine == old(spine[..k] + spine[k + 1..])
      ensures state == old(state).(pending := old(state.pending[..k] + state.pending[k + 1..]))
    {
      if prev == null {
        list := entry.next;
      } else {
        prev.next := entry.next;
      }
      ghost var all, p := spine, state.pending;
      spine := all[..k] + all[k + 1..];
      state := state.(pending := p[..k] + p[k + 1..]);
      assert forall j {:trigger spine[j]} :: 0 <= j < |spine| ==> spine[j] == if j < k then all[j] else all[j + 1];
    }

    /** The removal loop of both receive callbacks: `current` is the link that points at `entry`, the list's own
        when `prev` is null. */
    method Remove(target: Message, ghost i: nat)
      requires Valid() && i < |spine| && spine[i] == target
      modifies this`list, this`spine, this`state, spine`next
      ensures Valid() && state == old(state).(pending := old(state.pending[..i] + state.pending[i + 1..]))
      ensures spine == old(spine[..i] + spine[i + 1..])
    {
      ghost var all, p := spine, state.pending;
      var prev: Message? := null;
      var entry := list;
      ghost var k := 0;
      while entry != null
        invariant k <= |all| && entry == At(all, k)
        invariant k <= i ==> Valid() && spine == all && state == old(state) && prev == At(all, k - 1)
        invariant k > i ==> Valid() && spine == all[..i] + all[i + 1..]
        invariant k > i ==> state == old(state).(pending := p[..i] + p[i + 1..])
        invariant forall j {:trigger all[j].next} :: k <= j < |all| ==> all[j].next == At(all, j + 1)
        decreases |all| - k
      {
        var next := entry.next;
        if entry == target {
          Unlink(prev, entry, i);
        } else {
          prev := entry;
        }
        entry, k := next, k + 1;
      }
    }

    /** matop_service_data_receive_cb; `reply` is what the JSON parser made of the input. */
    method DataReceived(reply: Reply, script: seq<Request>) returns (rt: int)
      requires Valid()
      modifies this, spine`next
      ensures Valid() && (state, rt) == ReceiveData(old(state), reply, script)
    {
      hide Find, SendAll;
      match reply {
        case NotJson => return OPRT_CJSON_PARSE_ERR;
        case FieldsMissing => return OPRT_CJSON_GET_ERR;
        case Reply(id, success) =>
          var id16 := id % 0x1_0000;
          var target, i := FindMessage(id16);
          if target == null {
            return OPRT_COM_ERROR;
          }
          Notify(target, i, Replied(id16, success), script);
          Remove(target, i);
          rt := OPRT_OK;
      }
    }

    /** matop_service_file_rawdata_receive_cb */
    method RawDataReceived(input: seq<bv8>, script: seq<Request>) returns (rt: int)
      requires Valid()
      modifies this, spine`next
      ensures Valid() && (state, rt) == ReceiveRaw(old(state), input, script)
    {
      hide Find, SendAll;
      if |input| < 4 {
        return OPRT_INVALID_PARM;
      }
      var id := RawId(input);
      var target, i := FindMessage(id);
      if target == null {
        return OPRT_COM_ERROR;
      }
      Notify(target, i, RawReplied(id), script);
      Remove(target, i);
      rt := OPRT_OK;
    }

    /** The expired branch of matop_serice_yield: the callback runs while the entry is in the list. */
    method Expire(prev: Message?, entry: Message, ghost k: nat, now: nat, script: seq<Request>)
      requires Valid() && k < |spine| && entry == spine[k] && prev == At(spine, k - 1)
      modifies this, spine`next
      ensures Valid() && state == Complete(old(state), k, TimedOut(now), script)
    {
      hide SendAll;
      Notify(entry, k, TimedOut(now), script);
      Unlink(prev, entry, k);
    }

    /** matop_serice_yield: the first expired entry is noticed, then unlinked through the link that pointed at
        it, whatever the callback has appended meanwhile. */
    method Yield(ticks: nat -> nat, script: seq<Request>) returns (rt: int)
      requires Valid()
      modifies this, spine`next
      ensures Valid() && (state, rt) == MatopRuns.Yield(old(state), ticks, script)
    {
      hide SendAll, Complete;
      var prev: Message? := null;
      var entry := list;
      var k := 0;
      while entry != null
        invariant k <= |spine| && entry == At(spine, k) && prev == At(spine, k - 1)
        invariant FirstExpired(state.pending, ticks, 0) == FirstExpired(state.pending, ticks, k)
        invariant Valid() && state == old(state) && spine == old(spine)
        decreases |spine| - k
      {
        if ticks(k) > entry.timeout {
          Expire(prev, entry, k, ticks(k), script);
          return OPRT_TIMEOUT;
        }
        prev, entry, k := entry, entry.next, k + 1;
      }
      rt := OPRT_OK;
    }
  }
}
