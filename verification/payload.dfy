/** The writer's deterministic payload: a buffer of `count` blocks of `size`
    entries, where entry `i` holds `(i mod size) mod 255`. Entries are the
    integers the benchmark's C++ fill loop converts to `char`; the reader applies the same
    conversion to its expected values, so comparing the integers is the same
    comparison. */
module Payload {

  /** The value the reader expects at offset `i` of a block. */
  function Expected(i: nat): int {
    i % 255
  }

  /** One block of the pattern: offset `i` holds `Expected(i)`. */
  function PatternBlock(size: nat): seq<int> {
    seq(size, i requires 0 <= i < size => Expected(i))
  }

  /** `n` copies of `b`, one after the other. */
  function Repeat<T>(b: seq<T>, n: nat): seq<T>
    decreases n
  {
    if n == 0 then [] else Repeat(b, n - 1) + b
  }

  /** At least one copy of `b` starts with `b`. */
  lemma {:induction false} RepeatStartsWithBlock<T>(b: seq<T>, n: nat)
    requires n > 0
    ensures |b| <= |Repeat(b, n)|
    ensures Repeat(b, n)[..|b|] == b
    decreases n
  {
    if n == 1 {
      assert Repeat(b, n) == [] + b;
    } else {
      var prev := Repeat(b, n - 1);
      RepeatStartsWithBlock(b, n - 1);
      assert Repeat(b, n)[..|b|] == prev[..|b|];
    }
  }

  /** Copies of `b` are periodic with the length of `b`. */
  lemma {:induction false} RepeatPeriodic<T>(b: seq<T>, n: nat)
    ensures forall i :: 0 <= i && i + |b| < |Repeat(b, n)| ==> Repeat(b, n)[i + |b|] == Repeat(b, n)[i]
    decreases n
  {
    if n > 0 {
      var prev, r := Repeat(b, n - 1), Repeat(b, n);
      RepeatPeriodic(b, n - 1);
      forall i | 0 <= i && i + |b| < |r|
        ensures r[i + |b|] == r[i]
      {
        if i + |b| < |prev| {
          assert r[i + |b|] == prev[i + |b|] && r[i] == prev[i];
        } else {
          // `i + |b|` lies in the last copy, so `i` lies in the copy before it
          var before := Repeat(b, n - 2);
          assert prev == before + b;
          var k := i + |b| - |prev|;
          assert r[i + |b|] == b[k];
          assert r[i] == prev[|before| + k];
        }
      }
    }
  }

  /** What the fill loop leaves in the writer's buffer. */
  predicate IsPayload(buf: seq<int>, size: nat, count: nat) {
    && |buf| == size * count
    && forall i :: 0 <= i < |buf| ==> size > 0 && buf[i] == (i % size) % 255
  }

  /** The writer's fill loop: the buffer is sized for `count` blocks and
      entry `i` is set from its offset within its block. A zero size gives an
      empty buffer and the loop never divides. */
  method FillPayload(size: nat, count: nat) returns (buf: seq<int>)
    ensures IsPayload(buf, size, count)
    ensures forall i :: 0 <= i < |buf| ==> 0 <= buf[i] < 255
  {
    var n := size * count;
    var data := new int[n];
    var i := 0;
    while i < n
      invariant 0 <= i <= n
      invariant forall j :: 0 <= j < i ==> size > 0 && data[j] == (j % size) % 255
    {
      var num := i % size;
      data[i] := num % 255;
      i := i + 1;
    }
    buf := data[..];
  }

  lemma {:induction false} MulAtLeast(m: nat, d: nat)
    requires d >= 1
    ensures m * d >= m
  {
    if d > 1 {
      MulAtLeast(m, d - 1);
      assert m * d == m * (d - 1) + m;
    }
  }

  /** Euclidean remainder is determined by any quotient/remainder split. */
  lemma ModUnique(x: int, m: nat, q: int, r: int)
    requires 0 <= r < m
    requires x == m * q + r
    ensures x % m == r
  {
    var q', r' := x / m, x % m;
    assert x == m * q' + r';
    if q > q' {
      assert m * q == m * q' + m * (q - q');
      MulAtLeast(m, q - q');
    } else if q < q' {
      assert m * q' == m * q + m * (q' - q);
      MulAtLeast(m, q' - q);
    }
  }

  /** The buffer is `count` copies of the pattern block. */
  lemma {:induction false} PayloadIsRepeatedBlock(buf: seq<int>, size: nat, count: nat)
    requires IsPayload(buf, size, count)
    ensures buf == Repeat(PatternBlock(size), count)
    decreases count
  {
    if count > 0 {
      var m := size * (count - 1);
      assert |buf| == m + size;
      var front, back := buf[..m], buf[m..];
      assert IsPayload(front, size, count - 1);
      PayloadIsRepeatedBlock(front, size, count - 1);
      forall j | 0 <= j < size
        ensures back[j] == Expected(j)
      {
        ModUnique(m + j, size, count - 1, j);
      }
      assert back == PatternBlock(size);
      assert buf == front + back;
    }
  }

  /** The first block of the buffer, which is what every Put sends, is
      exactly the pattern block. */
  lemma FirstBlockIsPattern(buf: seq<int>, size: nat, count: nat)
    requires IsPayload(buf, size, count)
    requires count > 0
    ensures size <= |buf|
    ensures buf[..size] == PatternBlock(size)
  {
    PayloadIsRepeatedBlock(buf, size, count);
    RepeatStartsWithBlock(PatternBlock(size), count);
  }

  /** The buffer is block-periodic: moving forward by one block does not
      change the entry. */
  lemma PayloadPeriodic(buf: seq<int>, size: nat, count: nat)
    requires IsPayload(buf, size, count)
    ensures forall i :: 0 <= i && i + size < |buf| ==> buf[i + size] == buf[i]
  {
    PayloadIsRepeatedBlock(buf, size, count);
    RepeatPeriodic(PatternBlock(size), count);
  }
}
