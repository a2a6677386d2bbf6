/** The batch filters of the traversal fast path, with intrinsics as functions on lanes.

    Every backend returns the same sequence: the neighbours whose bit is in range and clear, in order. */
module Simd {
  import opened Words

  ghost predicate AllU32(ns: seq<nat>) { forall i :: 0 <= i < |ns| ==> ns[i] <= U32_MAX }

  /** The index is inside the bitset and not marked. */
  predicate IsUnvisited(n: nat, words: seq<u64>) {
    n / 64 < |words| && !Bit(words[n / 64], n % 64)
  }

  /** The reference filter. */
  function Unvisited(ns: seq<nat>, words: seq<u64>): seq<nat> {
    if ns == [] then []
    else
      var m := |ns| - 1;
      Unvisited(ns[..m], words) + if IsUnvisited(ns[m], words) then [ns[m]] else []
  }

  lemma {:induction false} UnvisitedAppend(ns: seq<nat>, ms: seq<nat>, words: seq<u64>)
    ensures Unvisited(ns + ms, words) == Unvisited(ns, words) + Unvisited(ms, words)
  {
    if ms == [] {
      assert ns + ms == ns;
    } else {
      UnvisitedAppend(ns, ms[..|ms| - 1], words);
      assert (ns + ms)[..|ns| + |ms| - 1] == ns + ms[..|ms| - 1];
    }
  }

  lemma {:induction false} UnvisitedMember(ns: seq<nat>, words: seq<u64>, n: nat)
    ensures n in Unvisited(ns, words) <==> n in ns && IsUnvisited(n, words)
  {
    if ns == [] {
    } else {
      UnvisitedMember(ns[..|ns| - 1], words, n);
    }
  }

  /** An unmarked index inside the bitset is kept as often as it is listed, any other is dropped. */
  lemma {:induction false} UnvisitedCount(ns: seq<nat>, words: seq<u64>, n: nat)
    ensures multiset(Unvisited(ns, words))[n] ==
            if n / 64 < |words| && !Bit(words[n / 64], n % 64) then multiset(ns)[n] else 0
  {
    if ns == [] {
    } else {
      var m := |ns| - 1;
      UnvisitedCount(ns[..m], words, n);
      assert ns == ns[..m] + [ns[m]];
    }
  }

  // ----- scalar

  /** `scalar_filter_into_no_clear`: appends to what `out` already holds. */
  method ScalarFilterNoClear(ns: seq<nat>, words: seq<u64>, out0: seq<nat>) returns (out: seq<nat>)
    ensures out == out0 + Unvisited(ns, words)
  {
    out := out0;
    for i := 0 to |ns|
      invariant out == out0 + Unvisited(ns[..i], words)
    {
      var n := ns[i];
      assert ns[..i + 1][..i] == ns[..i];
      var word, bit := n / 64, n % 64;
      if word < |words| {
        AndPow2(words[word], bit);
        if And(words[word], Pow2(bit)) == 0 { out := out + [n]; }
      }
    }
    assert ns[..|ns|] == ns;
  }

  /** The 32-bit length the vector kernels compare against. */
  function WordsLen(words: seq<u64>): nat { |words| % 0x1_0000_0000 }

  lemma AndOddStep(a: nat, b: nat)
    ensures And(a, 2 * b + 1) == a % 2 + 2 * And(a / 2, b)
  {
  }

  lemma ShiftSix(n: nat)
    ensures ShiftRight(n, 6) == n / 2 / 2 / 2 / 2 / 2 / 2
  {
    assert ShiftRight(n, 6) == ShiftRight(n / 2, 5) == ShiftRight(n / 2 / 2, 4);
    assert ShiftRight(n / 2 / 2, 4) == ShiftRight(n / 2 / 2 / 2, 3) == ShiftRight(n / 2 / 2 / 2 / 2, 2);
    assert ShiftRight(n / 2 / 2 / 2 / 2, 2) == ShiftRight(n / 2 / 2 / 2 / 2 / 2, 1);
  }

  /** `n >> 6` and `n & 63` address the bit. */
  lemma LowSix(n: nat)
    ensures ShiftRight(n, 6) == n / 64
    ensures And(n, 63) == n % 64
  {
    hide And, ShiftRight;
    ShiftSix(n);
    var n1 := n / 2;
    var n2 := n1 / 2;
    var n3 := n2 / 2;
    var n4 := n3 / 2;
    var n5 := n4 / 2;
    AndOddStep(n, 31);
    AndOddStep(n1, 15);
    AndOddStep(n2, 7);
    AndOddStep(n3, 3);
    AndOddStep(n4, 1);
    AndOne(n5);
  }

  /** One lane: gather the word, shift the bit down, keep it. */
  function Lane(n: nat, words: seq<u64>): (t: u64)
    requires ShiftRight(n, 6) < |words|
    ensures t == if IsUnvisited(n, words) then 0 else 1
  {
    LowSix(n);
    ShiftRightBit(words[n / 64], n % 64);
    And(ShiftRight(words[ShiftRight(n, 6)], And(n, 63)), 1)
  }

  // ----- NEON

  lemma NoneUnvisited(ns: seq<nat>, words: seq<u64>)
    ensures Unvisited(ns[..0], words) == []
  {
  }

  /** `NeonBackend::filter_unvisited_into`: four lanes at a time, a scalar fallback for a chunk with an
      out-of-range index, and the remainder. */
  method NeonFilter(ns: seq<nat>, words: seq<u64>) returns (out: seq<nat>)
    requires AllU32(ns)
    ensures out == Unvisited(ns, words)
  {
    NoneUnvisited(ns, words);
    hide Unvisited, ShiftRight, IsUnvisited, Lane;
    out := [];
    var i := 0;
    while i + 4 <= |ns|
      invariant 0 <= i <= |ns| && out == Unvisited(ns[..i], words)
    {
      var chunk := ns[i..i + 4];
      assert ns[..i + 4] == ns[..i] + chunk;
      UnvisitedAppend(ns[..i], chunk, words);
      if ShiftRight(chunk[0], 6) >= WordsLen(words) || ShiftRight(chunk[1], 6) >= WordsLen(words)
         || ShiftRight(chunk[2], 6) >= WordsLen(words) || ShiftRight(chunk[3], 6) >= WordsLen(words) {
        out := ScalarFilterNoClear(chunk, words, out);
      } else {
        out := NeonChunk(chunk, words, out);
      }
      i := i + 4;
    }
    UnvisitedAppend(ns[..i], ns[i..], words);
    assert ns == ns[..i] + ns[i..];
    out := ScalarFilterNoClear(ns[i..], words, out);
  }

  /** `if lane == 0 { out.push(n) }`. */
  function PushIfZero(out: seq<nat>, lane: u64, n: nat): seq<nat> { if lane == 0 then out + [n] else out }

  lemma PushLane(out: seq<nat>, n: nat, words: seq<u64>)
    requires ShiftRight(n, 6) < |words|
    ensures PushIfZero(out, Lane(n, words), n) == out + OneLane(n, words)
  {
    hide ShiftRight, IsUnvisited, Lane;
  }

  lemma JoinFour(o: seq<nat>, a: seq<nat>, b: seq<nat>, c: seq<nat>, d: seq<nat>)
    ensures o + a + b + c + d == o + (a + b + c + d)
  {
  }

  method NeonChunk(chunk: seq<nat>, words: seq<u64>, out0: seq<nat>) returns (out: seq<nat>)
    requires |chunk| == 4 && forall j :: 0 <= j < 4 ==> ShiftRight(chunk[j], 6) < |words|
    ensures out == out0 + Unvisited(chunk, words)
  {
    FourLanes(chunk, words);
    JoinFour(out0, OneLane(chunk[0], words), OneLane(chunk[1], words), OneLane(chunk[2], words),
             OneLane(chunk[3], words));
    hide *;
    var t0, t1, t2, t3 := Lane(chunk[0], words), Lane(chunk[1], words), Lane(chunk[2], words), Lane(chunk[3], words);
    PushLane(out0, chunk[0], words);
    out := PushIfZero(out0, t0, chunk[0]);
    PushLane(out, chunk[1], words);
    out := PushIfZero(out, t1, chunk[1]);
    PushLane(out, chunk[2], words);
    out := PushIfZero(out, t2, chunk[2]);
    PushLane(out, chunk[3], words);
    out := PushIfZero(out, t3, chunk[3]);
  }

  function OneLane(n: nat, words: seq<u64>): seq<nat> { if IsUnvisited(n, words) then [n] else [] }

  lemma FourLanes(chunk: seq<nat>, words: seq<u64>)
    requires |chunk| == 4
    ensures Unvisited(chunk, words) ==
            OneLane(chunk[0], words) + OneLane(chunk[1], words) + OneLane(chunk[2], words) + OneLane(chunk[3], words)
  {
    assert chunk[..3][..2] == chunk[..2] && chunk[..2][..1] == chunk[..1] && chunk[..1][..0] == [];
    assert Unvisited(chunk[..1], words) == OneLane(chunk[0], words);
    assert Unvisited(chunk[..2], words) == OneLane(chunk[0], words) + OneLane(chunk[1], words);
    assert Unvisited(chunk[..3], words) == Unvisited(chunk[..2], words) + OneLane(chunk[2], words);
  }

  // ----- AVX2

  /** `_mm256_movemask_pd`: the sign bits of four lanes. */
  function SignMask(a: u64, b: u64, c: u64, d: u64): nat {
    Digit(Negative(a)) + 2 * Digit(Negative(b)) + 4 * Digit(Negative(c)) + 8 * Digit(Negative(d))
  }

  predicate Negative(lane: u64) { lane >= 0x8000_0000_0000_0000 }

  lemma SignMaskBit(a: u64, b: u64, c: u64, d: u64)
    ensures var m := SignMask(a, b, c, d);
            && (Bit(m, 0) <==> Negative(a)) && (Bit(m, 1) <==> Negative(b))
            && (Bit(m, 2) <==> Negative(c)) && (Bit(m, 3) <==> Negative(d))
            && m < 16
  {
    var m := SignMask(a, b, c, d);
    assert Bit(m, 1) == Bit(m / 2, 0);
    assert Bit(m, 2) == Bit(m / 2, 1) == Bit(m / 4, 0);
    assert Bit(m, 3) == Bit(m / 2, 2) == Bit(m / 4, 1) == Bit(m / 8, 0);
  }

  lemma {:induction false} ShiftedBit(m: nat, k: nat)
    ensures Bit(16 * m, k) <==> k >= 4 && Bit(m, k - 4)
  {
    if k >= 4 {
      assert Bit(16 * m, k) == Bit(8 * m, k - 1) == Bit(4 * m, k - 2) == Bit(2 * m, k - 3);
    } else if k == 3 {
      assert Bit(16 * m, 3) == Bit(8 * m, 2) == Bit(4 * m, 1) == Bit(2 * m, 0);
    } else if k == 2 {
      assert Bit(16 * m, 2) == Bit(8 * m, 1) == Bit(4 * m, 0);
    }
  }

  /** Bit `lane` of `m_lo | (m_hi << 4)` is the sign of lane `lane`. */
  lemma EightSigns(signs: seq<u64>, lane: nat)
    requires |signs| == 8 && lane < 8
    ensures var lo, hi := SignMask(signs[0], signs[1], signs[2], signs[3]),
            SignMask(signs[4], signs[5], signs[6], signs[7]);
            Bit(Or(lo, 16 * hi), lane) <==> Negative(signs[lane])
  {
    var lo, hi := SignMask(signs[0], signs[1], signs[2], signs[3]), SignMask(signs[4], signs[5], signs[6], signs[7]);
    OrBit(lo, 16 * hi, lane);
    ShiftedBit(hi, lane);
    SignMaskBit(signs[0], signs[1], signs[2], signs[3]);
    SignMaskBit(signs[4], signs[5], signs[6], signs[7]);
    if lane >= 4 {
      if Bit(lo, lane) {
        assert Pow2(4) == 16 by { assert Pow2(2) == 4; }
        BitBelow(lo, 4, lane);
      }
    }
  }

  /** One lane after the subtraction: its sign bit says unvisited. */
  function SignLane(n: nat, words: seq<u64>): (s: u64)
    requires ShiftRight(n, 6) < |words|
    ensures Negative(s) <==> IsUnvisited(n, words)
  {
    SubWrapping(Lane(n, words), 1)
  }

  /** `Avx2Backend::filter_avx2`: eight lanes at a time. */
  method Avx2Filter(ns: seq<nat>, words: seq<u64>) returns (out: seq<nat>)
    requires AllU32(ns)
    ensures out == Unvisited(ns, words)
  {
    NoneUnvisited(ns, words);
    hide Unvisited, ShiftRight, IsUnvisited, Lane;
    out := [];
    var i := 0;
    while i + 8 <= |ns|
      invariant 0 <= i <= |ns| && out == Unvisited(ns[..i], words)
    {
      var chunk := ns[i..i + 8];
      assert ns[..i + 8] == ns[..i] + chunk;
      UnvisitedAppend(ns[..i], chunk, words);
      if exists j :: 0 <= j < 8 && ShiftRight(chunk[j], 6) >= WordsLen(words) {
        out := ScalarFilterNoClear(chunk, words, out);
      } else {
        out := Avx2Chunk(chunk, words, out);
      }
      i := i + 8;
    }
    UnvisitedAppend(ns[..i], ns[i..], words);
    assert ns == ns[..i] + ns[i..];
    out := ScalarFilterNoClear(ns[i..], words, out);
  }

  method Avx2Chunk(chunk: seq<nat>, words: seq<u64>, out0: seq<nat>) returns (out: seq<nat>)
    requires |chunk| == 8 && forall j :: 0 <= j < 8 ==> ShiftRight(chunk[j], 6) < |words|
    ensures out == out0 + Unvisited(chunk, words)
  {
    hide Or, And, Bit, SignMask, ShiftRight, SignLane, IsUnvisited, Pow2;
    var signs: seq<u64> := seq(8, j requires 0 <= j < 8 => SignLane(chunk[j], words));
    var lo := SignMask(signs[0], signs[1], signs[2], signs[3]);
    var hi := SignMask(signs[4], signs[5], signs[6], signs[7]);
    var unvisited := Or(lo, 16 * hi);
    out := out0;
    for lane := 0 to 8
      invariant out == out0 + Unvisited(chunk[..lane], words)
    {
      assert chunk[..lane + 1][..lane] == chunk[..lane];
      EightSigns(signs, lane);
      AndPow2(unvisited, lane);
      if And(unvisited, Pow2(lane)) != 0 { out := out + [chunk[lane]]; }
    }
    assert chunk[..8] == chunk;
  }

  // ----- dispatch

  /** The backends `select_backend` may return; the x86 ones carry whether AVX2 was detected. */
  datatype Backend = Scalar | Neon | Avx2(detected: bool) | Avx512(detected: bool)

  method FilterUnvisitedInto(backend: Backend, ns: seq<nat>, words: seq<u64>) returns (out: seq<nat>)
    requires AllU32(ns)
    ensures out == Unvisited(ns, words)
  {
    match backend
    case Scalar => out := ScalarFilterNoClear(ns, words, []);
    case Neon => out := NeonFilter(ns, words);
    case Avx2(detected) =>
      if detected { out := Avx2Filter(ns, words); } else { out := ScalarFilterNoClear(ns, words, []); }
    case Avx512(detected) =>
      if detected { out := Avx2Filter(ns, words); } else { out := ScalarFilterNoClear(ns, words, []); }
  }

  // ----- marking

  /** The set of marked indices a bitset stands for. */
  predicate Marked(words: seq<u64>, n: nat) {
    n / 64 < |words| && Bit(words[n / 64], n % 64)
  }

  /** `visited[n / 64] |= 1 << (n % 64)` marks n and nothing else. */
  method SetBit(words: array<u64>, n: nat)
    requires n / 64 < words.Length
    modifies words
    ensures forall m: nat :: Marked(words[..], m) <==> m == n || Marked(old(words[..]), m)
  {
    var w := words[n / 64];
    OrBelow(w, Pow2(n % 64), n % 64);
    words[n / 64] := Or(w, Pow2(n % 64));
    forall m: nat ensures Marked(words[..], m) <==> m == n || Marked(old(words[..]), m) {
      OrBit(w, Pow2(n % 64), m % 64);
      Pow2Bit(n % 64, m % 64);
    }
  }

  lemma OrBelow(a: u64, b: nat, k: nat)
    requires b == Pow2(k) && k < 64
    ensures Or(a, b) <= 0xFFFF_FFFF_FFFF_FFFF
  {
    Pow2Of64();
    Pow2Mono(k + 1, 64);
    OrBound(a, b, 64);
  }

  /** `words[n / 64] &= !(1 << (n % 64))` clears n and nothing else. */
  method ClearBit(words: array<u64>, n: nat)
    requires n / 64 < words.Length
    modifies words
    ensures forall m: nat :: Marked(words[..], m) <==> m != n && Marked(old(words[..]), m)
  {
    hide And, Not, Pow2;
    var w := words[n / 64];
    var mask := Not(Pow2(n % 64), 64);
    NotBound(Pow2(n % 64), 64);
    Pow2Of64();
    AndAtMost(w, mask);
    words[n / 64] := And(w, mask);
    forall m: nat ensures Marked(words[..], m) <==> m != n && Marked(old(words[..]), m) {
      AndBit(w, mask, m % 64);
      NotBit(Pow2(n % 64), 64, m % 64);
      Pow2Bit(n % 64, m % 64);
    }
  }

  /** `set_visited_batch`: indices past the end are ignored. */
  method SetVisitedBatch(nodes: seq<nat>, words: array<u64>)
    modifies words
    ensures forall m: nat :: Marked(words[..], m) <==>
            (m in nodes && m / 64 < words.Length) || Marked(old(words[..]), m)
  {
    for i := 0 to |nodes|
      invariant forall m: nat :: Marked(words[..], m) <==>
                (m in nodes[..i] && m / 64 < words.Length) || Marked(old(words[..]), m)
    {
      assert forall m: nat :: m in nodes[..i + 1] <==> m in nodes[..i] || m == nodes[i];
      if nodes[i] / 64 < words.Length { SetBit(words, nodes[i]); }
    }
    assert nodes[..|nodes|] == nodes;
  }
}
