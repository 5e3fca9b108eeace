/**
 Index arithmetic of the ring and the two wrap-aware copies that
 `circularBufferPush` and `circularBufferPop` perform on the caller's
 storage region (Src/CircularBuffer.c).

 Indices range over `[0, cap]`, not `[0, cap)`: a copy that ends exactly at
 the end of storage leaves its index equal to `cap`, and the next copy then
 takes the wrapping branch with an empty first segment. Cell `k` of the ring
 seen from index `start` is `Slot(start, k, cap)`.
 */
module Ring {

  type byte = bv8

  /** `x` modulo `cap`, by subtracting `cap` until the value lies in the
      region: how an index that has run past the end of storage comes
      back to the beginning. It is the remainder of Euclidean division
      (`ModIsRemainder`); stating it by subtraction keeps every proof about
      it within linear arithmetic. */
  function Mod(x: nat, cap: nat): (r: nat)
    requires cap > 0
    ensures r < cap
    decreases x
  {
    if x < cap then x else Mod(x - cap, cap)
  }

  /** The storage cell `offset` bytes after `start`, going round the end of a
      region of `cap` bytes. */
  function Slot(start: nat, offset: nat, cap: nat): (k: nat)
    requires cap > 0
    ensures k < cap
  {
    Mod(start + offset, cap)
  }

  /** Seen from an index in `[0, cap]`, the first `cap` cells are the cells
      up to the end of storage followed by the cells from its beginning. */
  lemma SlotsFrom(start: nat, cap: nat)
    requires start <= cap
    ensures forall j :: 0 <= j < cap ==>
              Slot(start, j, cap) == (if start + j < cap then start + j else start + j - cap)
  {
    forall j | 0 <= j < cap
      ensures Slot(start, j, cap) == (if start + j < cap then start + j else start + j - cap)
    {
      if start + j >= cap {
        assert Mod(start + j, cap) == Mod(start + j - cap, cap);
      }
    }
  }

  /** Euclidean division has one remainder: any `q * m + r` with `r` in
      `[0, m)` leaves remainder `r`. */
  lemma ModUnique(x: int, m: int, q: int, r: int)
    requires m > 0 && 0 <= r < m && x == q * m + r
    ensures x % m == r
  {
    var q', r' := x / m, x % m;
    assert (q - q') * m == r' - r;
    if q > q' {
      MulAtLeast(q - q', m);
    } else if q < q' {
      MulAtLeast(q' - q, m);
    }
  }

  lemma MulAtLeast(k: int, m: int)
    requires k >= 1 && m > 0
    ensures k * m >= m
  {
  }

  /** `Mod` is the `%` of the language. */
  lemma {:induction false} ModIsRemainder(x: nat, cap: nat)
    requires cap > 0
    ensures Mod(x, cap) == x % cap
    decreases x
  {
    if x >= cap {
      ModIsRemainder(x - cap, cap);
      ModUnique(x, cap, (x - cap) / cap + 1, (x - cap) % cap);
    }
  }

  /** Indices that agree modulo `cap` name the same cells. */
  lemma {:induction false} SlotShift(a: nat, b: nat, d: nat, cap: nat)
    requires cap > 0 && Mod(a, cap) == Mod(b, cap)
    ensures Slot(a, d, cap) == Slot(b, d, cap)
    decreases a + b
  {
    if a >= cap {
      assert Mod(a + d, cap) == Mod(a - cap + d, cap);
      SlotShift(a - cap, b, d, cap);
    } else if b >= cap {
      assert Mod(b + d, cap) == Mod(b - cap + d, cap);
      SlotShift(a, b - cap, d, cap);
    }
  }

  /** Going once round the ring comes back to the same cell. */
  lemma SlotCycle(start: nat, offset: nat, cap: nat)
    requires cap > 0
    ensures Slot(start, offset + cap, cap) == Slot(start, offset, cap)
  {
    assert Mod(start + offset + cap, cap) == Mod(start + offset, cap);
  }

  /** A copy of `n` bytes at `index` crosses the end of storage: the test
      that chooses the split copy in both push and pop. */
  predicate Wraps(index: nat, n: nat, cap: nat)
  {
    index + n > cap
  }

  /** The index after a copy of `n` bytes at `index`: the length of the
      second segment when the copy wraps, `index + n` otherwise. It stays
      in `[0, cap]` and is `index + n` modulo `cap`; a straight copy that
      ends at the end of storage leaves it at `cap`, not 0. */
  function Advance(index: nat, n: nat, cap: nat): (r: nat)
    requires cap > 0 && index <= cap && n <= cap
    ensures r <= cap
    ensures Mod(r, cap) == Mod(index + n, cap)
    ensures index + n <= cap ==> r == index + n
    ensures index + n > cap ==> 0 < r
  {
    if Wraps(index, n, cap) then
      var next := n - (cap - index);
      assert Mod(index + n, cap) == Mod(next, cap);
      next
    else
      index + n
  }

  /** One `memcpy` into storage: `data` copied over `s` from `at` on. */
  function Write(s: seq<byte>, at: nat, data: seq<byte>): (r: seq<byte>)
    requires at + |data| <= |s|
    ensures |r| == |s|
  {
    s[..at] + data + s[at + |data|..]
  }

  /** What one `memcpy` does to each cell. */
  lemma WriteCells(s: seq<byte>, at: nat, data: seq<byte>)
    requires at + |data| <= |s|
    ensures forall k :: 0 <= k < |s| ==>
              Write(s, at, data)[k] == if at <= k < at + |data| then data[k - at] else s[k]
  {
  }

  /** The copy-in of push: `data` lands in the `|data|` cells starting at
      `at`, as one copy, or as a copy up to the end of storage followed by a
      copy of the rest to its beginning. Both copies stay inside the region
      and every other cell keeps its byte. */
  function RingWrite(s: seq<byte>, at: nat, data: seq<byte>): (r: seq<byte>)
    requires at <= |s| && |data| <= |s|
    ensures |r| == |s|
    ensures forall j :: 0 <= j < |data| ==> r[Slot(at, j, |s|)] == data[j]
    ensures forall j :: |data| <= j < |s| ==> r[Slot(at, j, |s|)] == s[Slot(at, j, |s|)]
  {
    SlotsFrom(at, |s|);
    if Wraps(at, |data|, |s|) then
      var first := |s| - at;
      var upToEnd := Write(s, at, data[..first]);
      WriteCells(s, at, data[..first]);
      WriteCells(upToEnd, 0, data[first..]);
      Write(upToEnd, 0, data[first..])
    else
      WriteCells(s, at, data);
      Write(s, at, data)
  }

  /** The copy-out of pop: the `n` cells starting at `at`, read as one copy,
      or as a copy up to the end of storage followed by a copy from its
      beginning. */
  function RingRead(s: seq<byte>, at: nat, n: nat): (r: seq<byte>)
    requires at <= |s| && n <= |s|
    ensures |r| == n
    ensures forall j :: 0 <= j < n ==> r[j] == s[Slot(at, j, |s|)]
  {
    SlotsFrom(at, |s|);
    if Wraps(at, n, |s|) then
      s[at..] + s[..n - (|s| - at)]
    else
      s[at..at + n]
  }
}
