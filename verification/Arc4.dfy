/** ARC4: key setup and the cipher, over a state of 256 bytes that is swapped in place. */
module Arc4 {
  import opened Bits

  datatype State = State(x: bv8, y: bv8, m: seq<bv8>) {
    predicate Valid() {
      |m| == 256
    }
  }

  function Swap(m: seq<bv8>, i: bv8, j: bv8): (r: seq<bv8>)
    requires |m| == 256
    ensures |r| == 256
  {
    m[i as nat := m[j as nat]][j as nat := m[i as nat]]
  }

  // ---------- the state is a permutation

  function Identity(n: nat): (r: seq<bv8>)
    requires n <= 256
    ensures |r| == n && forall i :: 0 <= i < n ==> r[i] == ToByte(i)
  {
    seq(n, i requires 0 <= i < n => ToByte(i))
  }

  /** Every byte value stands at exactly one place. */
  ghost predicate Permutation(m: seq<bv8>) {
    && |m| == 256
    && (forall i, j :: 0 <= i < j < 256 ==> m[i] != m[j])
    && (forall v: bv8 :: v in m)
  }

  lemma SwapPermutes(m: seq<bv8>, i: bv8, j: bv8)
    requires Permutation(m)
    ensures Permutation(Swap(m, i, j))
  {
    var a, b := i as nat, j as nat;
    SwapAt(m, a, b);
  }

  lemma SwapAt(m: seq<bv8>, a: nat, b: nat)
    requires a < 256 && b < 256 && Permutation(m)
    ensures Permutation(m[a := m[b]][b := m[a]])
  {
    var r := m[a := m[b]][b := m[a]];
    forall v: bv8 ensures v in r {
      assert v in m;
      var k :| 0 <= k < 256 && m[k] == v;
      assert v == r[if k == a then b else if k == b then a else k];
    }
  }

  lemma IdentityPermutes()
    ensures Permutation(Identity(256))
  {
    hide ToByte;
    var m := Identity(256);
    forall i, j | 0 <= i < j < 256 ensures m[i] != m[j] {
      ToByteValue(i);
      ToByteValue(j);
    }
    forall v: bv8 ensures v in m {
      ToByteOf(v);
      assert m[v as nat] == v;
    }
  }

  // ---------- key setup

  /** The swaps for places below n; `j` is the running index. */
  function Mixed(key: seq<bv8>, n: nat): (r: (seq<bv8>, bv8))
    requires key != [] && n <= 256
    ensures |r.0| == 256
  {
    if n == 0 then (Identity(256), 0)
    else
      var (m, j) := Mixed(key, n - 1);
      var i := ToByte(n - 1);
      var j' := AddByte(AddByte(j, m[i as nat]), key[(n - 1) % |key|]);
      (Swap(m, i, j'), j')
  }

  /** mbedtls_arc4_setup */
  function Setup(key: seq<bv8>): (s: State)
    requires key != []
    ensures s.Valid()
  {
    State(0, 0, Mixed(key, 256).0)
  }

  lemma {:induction false} MixedPermutes(key: seq<bv8>, n: nat)
    requires key != [] && n <= 256
    ensures Permutation(Mixed(key, n).0)
  {
    hide Swap, Identity, ToByte, AddByte, Permutation;
    if n == 0 {
      IdentityPermutes();
    } else {
      MixedPermutes(key, n - 1);
      var (m, j) := Mixed(key, n - 1);
      var i := ToByte(n - 1);
      SwapPermutes(m, i, AddByte(AddByte(j, m[i as nat]), key[(n - 1) % |key|]));
    }
  }

  // ---------- the cipher

  /** One round: the state after it, and the key stream byte. */
  function Next(s: State): (r: (State, bv8))
    requires s.Valid()
    ensures r.0.Valid()
  {
    var x := AddByte(s.x, 1);
    var a := s.m[x as nat];
    var y := AddByte(s.y, a);
    var b := s.m[y as nat];
    var m := Swap(s.m, x, y);
    (State(x, y, m), m[AddByte(a, b) as nat])
  }

  function After(s: State, n: nat): (t: State)
    requires s.Valid()
    ensures t.Valid()
  {
    if n == 0 then s else Next(After(s, n - 1)).0
  }

  /** The text that a state makes of an input. */
  function Crypt(s: State, input: seq<bv8>): (r: seq<bv8>)
    requires s.Valid()
    ensures |r| == |input|
  {
    if input == [] then []
    else
      var n := |input| - 1;
      Crypt(s, input[..n]) + [Xor(input[n], Next(After(s, n)).1)]
  }

  /** The state stays a permutation through key setup and any run of the cipher. */
  lemma {:induction false} StateStaysAPermutation(key: seq<bv8>, n: nat)
    requires key != []
    ensures Permutation(After(Setup(key), n).m)
  {
    hide Swap, Identity, Mixed, AddByte, Permutation;
    if n == 0 {
      MixedPermutes(key, 256);
    } else {
      StateStaysAPermutation(key, n - 1);
      var s := After(Setup(key), n - 1);
      SwapPermutes(s.m, AddByte(s.x, 1), AddByte(s.y, s.m[AddByte(s.x, 1) as nat]));
    }
  }

  /** A second pass from the same state restores the input. */
  lemma {:induction false} CryptTwice(s: State, input: seq<bv8>)
    requires s.Valid()
    ensures Crypt(s, Crypt(s, input)) == input
  {
    hide Next, Xor;
    if input != [] {
      var n := |input| - 1;
      var k := Next(After(s, n)).1;
      CryptTwice(s, input[..n]);
      assert Crypt(s, input)[..n] == Crypt(s, input[..n]);
      XorTwice(input[n], k);
      assert input == input[..n] + [input[n]];
    }
  }

  lemma {:induction false} AfterAdds(s: State, m: nat, n: nat)
    requires s.Valid()
    ensures After(s, m + n) == After(After(s, m), n)
  {
    hide Next;
    if n > 0 {
      AfterAdds(s, m, n - 1);
    }
  }

  /** Two calls are one call on the joined input. */
  lemma {:induction false} CryptSplits(s: State, a: seq<bv8>, b: seq<bv8>)
    requires s.Valid()
    ensures Crypt(s, a + b) == Crypt(s, a) + Crypt(After(s, |a|), b)
    decreases |b|
  {
    hide Next, Xor;
    if b == [] {
      assert a + b == a;
    } else {
      var n := |b| - 1;
      assert (a + b)[..|a| + n] == a + b[..n];
      CryptSplits(s, a, b[..n]);
      AfterAdds(s, |a|, n);
    }
  }

  // ---------- rounds and key setup, place by place

  lemma SwapAtPlace(m: seq<bv8>, i: bv8, j: bv8, k: nat)
    requires |m| == 256 && k < 256
    ensures Swap(m, i, j)[k] == if k == j as nat then m[i as nat] else if k == i as nat then m[j as nat] else m[k]
  {
  }

  /** A round moves x one place up and y by what stands there, exchanges the two places, and gives the byte that then
      stands at their sum. */
  lemma RoundIs(s: State, x: bv8, y: bv8, i: nat)
    requires s.Valid() && i < 256 && x == AddByte(s.x, 1) && y == AddByte(s.y, s.m[x as nat])
    ensures var t := Next(s).0;
      t.x == x && t.y == y && t.m[i] == if i == y as nat then s.m[x as nat] else if i == x as nat then s.m[y as nat] else s.m[i]
    ensures Next(s).1 == Next(s).0.m[AddByte(s.m[x as nat], s.m[y as nat]) as nat]
  {
    hide Swap, AddByte;
    SwapAtPlace(s.m, x, y, i);
  }

  lemma IdentityAt(x: bv8)
    ensures Identity(256)[x as nat] == x
  {
    hide ToByte;
    ToByteOf(x);
  }

  lemma SwappedIdentity(x: bv8, y: bv8, k: bv8)
    ensures Swap(Identity(256), x, y)[k as nat] == if k == x then y else if k == y then x else k
  {
    hide Swap, Identity;
    IdentityAt(x);
    IdentityAt(y);
    IdentityAt(k);
    SwapAtPlace(Identity(256), x, y, k as nat);
    if k as nat == x as nat {
      SameByte(k, x);
    }
    if k as nat == y as nat {
      SameByte(k, y);
    }
  }

  /** A round on the permutation that leaves all in place, in closed form: the places x and y are exchanged, and the byte
      is their sum, unless that is one of the two. */
  lemma RoundOnIdentity(s: State, x: bv8, y: bv8)
    requires s.m == Identity(256) && x == AddByte(s.x, 1) && y == AddByte(s.y, x)
    ensures Next(s) == (State(x, y, Swap(Identity(256), x, y)),
                        if AddByte(x, y) == x then y else if AddByte(x, y) == y then x else AddByte(x, y))
  {
    IdentityAt(x);
    IdentityAt(y);
    SwappedIdentity(x, y, AddByte(x, y));
    hide Swap, AddByte, Identity;
  }

  /** The first two swaps of key setup, for every key: place 0 with that of the first key byte, then place 1 with that of
      the sum of the key bytes and the byte that stands there. */
  lemma FirstSwaps(key: seq<bv8>)
    requires key != []
    ensures var (m, j) := Mixed(key, 1); j == key[0] && m == Swap(Identity(256), 0, key[0])
    ensures var m := Swap(Identity(256), 0, key[0]); var j := AddByte(AddByte(key[0], m[1]), key[1 % |key|]);
      Mixed(key, 2) == (Swap(m, 1, j), j)
  {
    hide Swap;
    ToByteNext(0);
    ZeroByte(0);
    assert Mixed(key, 0) == (Identity(256), 0);
    assert AddByte(AddByte(0, 0), key[0]) == key[0];
  }

  lemma Doubled(key: seq<bv8>, i: nat)
    requires key != []
    ensures (key + key)[i % |key + key|] == key[i % |key|]
  {
    HalfOf(i, |key|, 2 * |key|);
  }

  lemma HalfOf(i: nat, n: nat, m: nat)
    requires n > 0 && m == 2 * n
    ensures var r := i % m; i % n == if r < n then r else r - n
  {
    Quotient(i, m);
    HalfRemainder(i, n, m, i / m, i % m);
  }

  lemma Quotient(i: nat, n: nat)
    requires n > 0
    ensures i == n * (i / n) + i % n && i / n >= 0
  {
  }

  lemma HalfRemainder(i: nat, n: nat, m: nat, q: nat, r: nat)
    requires m == 2 * n && r < m && i == m * q + r
    ensures i % n == if r < n then r else r - n
  {
    if r < n {
      assert i == n * (2 * q) + r;
      Quotients(i, n, 2 * q, r);
    } else {
      assert i == n * (2 * q + 1) + (r - n);
      Quotients(i, n, 2 * q + 1, r - n);
    }
  }

  lemma Quotients(i: nat, n: nat, q: nat, r: nat)
    requires r < n && i == n * q + r
    ensures i % n == r
  {
    Context.SameRemainder(n, i / n, i % n, q, r);
  }

  lemma {:induction false} RepeatedKeyMixes(key: seq<bv8>, n: nat)
    requires key != [] && n <= 256
    ensures Mixed(key + key, n) == Mixed(key, n)
  {
    hide Swap, AddByte, ToByte;
    if n > 0 {
      RepeatedKeyMixes(key, n - 1);
      Doubled(key, n - 1);
    }
  }

  /** The key is used round and round: written twice it gives the same state. */
  lemma RepeatedKey(key: seq<bv8>)
    requires key != []
    ensures Setup(key + key) == Setup(key)
  {
    RepeatedKeyMixes(key, 256);
  }

  // ---------- the context

  class Context {
    var x: bv8
    var y: bv8
    const m: array<bv8>

    constructor ()
      ensures m.Length == 256 && fresh(m)
    {
      x, y, m := 0, 0, new bv8[256];
    }

    ghost function Abstract(): State
      reads this, m
    {
      State(x, y, m[..])
    }

    /** m[i] and m[j] change places. */
    method SwapPlaces(i: bv8, j: bv8)
      requires m.Length == 256
      modifies m
      ensures m[..] == Swap(old(m[..]), i, j)
    {
      var a := m[i as nat];
      m[i as nat] := m[j as nat];
      m[j as nat] := a;
    }

    /** mbedtls_arc4_setup */
    method SetupKey(key: seq<bv8>)
      requires m.Length == 256 && key != []
      modifies this, m
      ensures Abstract() == Setup(key)
    {
      hide Mixed, ToByte, Swap, AddByte;
      for i := 0 to 256
        invariant forall k :: 0 <= k < i ==> m[k] == ToByte(k)
      {
        m[i] := ToByte(i);
      }
      assert m[..] == Identity(256);
      x, y := 0, 0;
      var j: bv8 := 0;
      var k := 0;
      MixedNone(key);
      for i := 0 to 256
        invariant (m[..], j) == Mixed(key, i)
        invariant k <= |key| && (if k == |key| then 0 else k) == i % |key|
        invariant x == 0 && y == 0
      {
        if k >= |key| {
          k := 0;
        }
        MixedMore(key, i);
        ToByteValue(i);
        j := AddByte(AddByte(j, m[i]), key[k]);
        SwapPlaces(ToByte(i), j);
        NextRemainder(i, |key|);
        k := k + 1;
      }
    }

    static lemma MixedNone(key: seq<bv8>)
      requires key != []
      ensures Mixed(key, 0) == (Identity(256), 0)
    {
    }

    static lemma MixedMore(key: seq<bv8>, i: nat)
      requires key != [] && i < 256
      ensures var (m, j) := Mixed(key, i); var j' := AddByte(AddByte(j, m[i]), key[i % |key|]);
        Mixed(key, i + 1) == (Swap(m, ToByte(i), j'), j')
    {
      hide ToByte, Swap, AddByte;
      ToByteValue(i);
    }

    static lemma NextRemainder(i: nat, n: nat)
      requires n > 0
      ensures (i + 1) % n == if i % n + 1 == n then 0 else i % n + 1
    {
      var q, p := i / n, (i + 1) / n;
      assert i == n * q + i % n && i + 1 == n * p + (i + 1) % n;
      if i % n + 1 == n {
        assert n * (q + 1) == n * q + n;
        SameRemainder(n, p, (i + 1) % n, q + 1, 0);
      } else {
        SameRemainder(n, p, (i + 1) % n, q, i % n + 1);
      }
    }

    static lemma SameRemainder(n: nat, p: nat, m: nat, q: nat, r: nat)
      requires m < n && r < n && n * p + m == n * q + r
      ensures m == r
    {
      assert n * p == n * q + n * (p - q) && n * q == n * p + n * (q - p);
      if p > q {
        AtLeast(n, p - q);
      } else if p < q {
        AtLeast(n, q - p);
      }
    }

    static lemma AtLeast(n: nat, d: nat)
      requires d >= 1
      ensures n * d >= n
    {
    }

    /** mbedtls_arc4_crypt; the output may be the input. */
    method CryptInto(length: nat, input: array<bv8>, output: array<bv8>) returns (r: int)
      requires m.Length == 256 && length <= input.Length && length <= output.Length && m != input && m != output
      modifies this, m, output
      ensures r == 0 && Abstract() == After(old(Abstract()), length)
      ensures output[..length] == Crypt(old(Abstract()), old(input[..length])) && output[length..] == old(output[length..])
    {
      hide Next, Xor, Crypt, After;
      ghost var s0, in0 := Abstract(), input[..length];
      CryptNone(s0);
      for i := 0 to length
        invariant Abstract() == After(s0, i) && output[..i] == Crypt(s0, in0[..i])
        invariant forall k :: i <= k < length ==> input[k] == in0[k]
        invariant forall k :: i <= k < output.Length ==> output[k] == old(output[k])
      {
        ghost var done := output[..i];
        CryptMore(s0, in0, i);
        var key := NextByteOfKey();
        output[i] := Xor(input[i], key);
        assert output[..i] == done;
        assert output[..i + 1] == done + [output[i]];
      }
      assert in0[..length] == in0;
      r := 0;
    }

    method NextByteOfKey() returns (key: bv8)
      requires m.Length == 256
      modifies this, m
      ensures (Abstract(), key) == Next(old(Abstract()))
    {
      hide Swap, AddByte;
      x := AddByte(x, 1);
      var a := m[x as nat];
      y := AddByte(y, a);
      var b := m[y as nat];
      SwapPlaces(x, y);
      key := m[AddByte(a, b) as nat];
    }

    static lemma CryptNone(s: State)
      requires s.Valid()
      ensures Crypt(s, []) == [] && After(s, 0) == s
    {
    }

    static lemma CryptMore(s: State, input: seq<bv8>, i: nat)
      requires s.Valid() && i < |input|
      ensures After(s, i + 1) == Next(After(s, i)).0
      ensures Crypt(s, input[..i + 1]) == Crypt(s, input[..i]) + [Xor(input[i], Next(After(s, i)).1)]
    {
      hide Next, Xor;
      assert input[..i + 1][..i] == input[..i];
    }
  }
}
