/** Direction-optimizing breadth-first search: top-down over out-edges, bottom-up over the in-edges
    of unvisited nodes, switching per level by a heuristic on exact edge counts. */
module DoBfs {
  import opened BaseLaws
  import opened Bfs
  import opened Builder
  import opened Common
  import opened Csr
  import opened Delta
  import opened EdgeLists
  import opened Graph
  import opened Hops
  import opened Hybrid
  import opened Merge
  import opened Simd
  import opened Words

  // ----- bit arrays

  method TestBit(words: array<u64>, n: nat) returns (b: bool)
    requires n / 64 < words.Length
    ensures b == Marked(words[..], n)
  {
    AndPow2(words[n / 64], n % 64);
    b := And(words[n / 64], Pow2(n % 64)) != 0;
  }

  ghost predicate AllClear(words: seq<u64>) { forall n: nat :: !Marked(words, n) }

  /** Sets the bit of every listed node. */
  method MarkAll(words: array<u64>, ns: seq<nat>, nodeCount: nat)
    requires words.Length == DivCeil(nodeCount, 64) && AllBelow(ns, nodeCount)
    modifies words
    ensures forall n: nat :: Marked(words[..], n) <==> n in ns || Marked(old(words[..]), n)
  {
    hide Marked, DivCeil;
    for i := 0 to |ns|
      invariant forall n: nat :: Marked(words[..], n) <==> n in ns[..i] || Marked(old(words[..]), n)
    {
      assert forall n: nat :: n in ns[..i + 1] <==> n in ns[..i] || n == ns[i];
      InWords(ns[i], nodeCount);
      SetBit(words, ns[i]);
    }
    assert ns[..|ns|] == ns;
  }

  /** Clears the bit of every listed node. */
  method ClearAll(words: array<u64>, ns: seq<nat>, nodeCount: nat)
    requires words.Length == DivCeil(nodeCount, 64) && AllBelow(ns, nodeCount)
    modifies words
    ensures forall n: nat :: Marked(words[..], n) <==> n !in ns && Marked(old(words[..]), n)
  {
    hide Marked, DivCeil;
    for i := 0 to |ns|
      invariant forall n: nat :: Marked(words[..], n) <==> n !in ns[..i] && Marked(old(words[..]), n)
    {
      assert forall n: nat :: n in ns[..i + 1] <==> n in ns[..i] || n == ns[i];
      InWords(ns[i], nodeCount);
      ClearBit(words, ns[i]);
    }
    assert ns[..|ns|] == ns;
  }

  // ----- bottom-up

  /** Some in-neighbour is marked. */
  predicate HasParent(row: seq<nat>, frontier: seq<u64>) {
    exists i :: 0 <= i < |row| && Marked(frontier, row[i])
  }

  /** Scans the parents and stops at the first one in the frontier. */
  method FindParent(row: seq<nat>, frontierBits: array<u64>, nodeCount: nat) returns (found: bool)
    requires frontierBits.Length == DivCeil(nodeCount, 64) && AllBelow(row, nodeCount)
    ensures found == HasParent(row, frontierBits[..])
  {
    hide Marked, DivCeil;
    for i := 0 to |row|
      invariant forall j :: 0 <= j < i ==> !Marked(frontierBits[..], row[j])
    {
      InWords(row[i], nodeCount);
      var b := TestBit(frontierBits, row[i]);
      if b { return true; }
    }
    return false;
  }

  /** The unvisited bits of one word, without the padding beyond the last node. */
  function UnvisitedWord(word: u64, index: nat, nodeCount: nat): nat
    requires index * 64 < nodeCount
  {
    var unvisited := Not(word, 64);
    if (index + 1) * 64 > nodeCount then And(unvisited, Pow2(nodeCount - index * 64) - 1) else unvisited
  }

  /** Padding bits never escape, and every other clear bit does. */
  lemma UnvisitedWordBit(word: u64, index: nat, nodeCount: nat, b: nat)
    requires index * 64 < nodeCount
    ensures Bit(UnvisitedWord(word, index, nodeCount), b) <==> b < 64 && index * 64 + b < nodeCount && !Bit(word, b)
  {
    NotBit(word, 64, b);
    if (index + 1) * 64 > nodeCount {
      AndBit(Not(word, 64), Pow2(nodeCount - index * 64) - 1, b);
      LowOnesBit(nodeCount - index * 64, b);
    }
  }

  ghost predicate StrictlyAscending(s: seq<nat>) { forall i, j :: 0 <= i < j < |s| ==> s[i] < s[j] }

  lemma StrictlyAscendingSnoc(s: seq<nat>, x: nat)
    requires StrictlyAscending(s) && forall y :: y in s ==> y < x
    ensures StrictlyAscending(s + [x])
  {
    assert forall i :: 0 <= i < |s| ==> s[i] in s;
  }

  /** What a bottom-up step may read: rows whose ids are nodes, and a bitset that covers the nodes. */
  ghost predicate Scannable(rows: nat -> seq<nat>, frontierBits: array<u64>, nodeCount: nat)
    reads frontierBits
  {
    frontierBits.Length == DivCeil(nodeCount, 64) && forall n: nat :: AllBelow(rows(n), nodeCount)
  }

  /** What is left to scan: the bits of the word from `done` on. */
  ghost predicate BitsFrom(unvisited: nat, word0: nat, done: nat) {
    forall b: nat :: Bit(unvisited, b) <==> Bit(word0, b) && b >= done
  }

  /** What was found: the nodes of the bits below `done` that have a marked parent, in ascending order. */
  ghost predicate FoundUpTo(found: seq<nat>, word0: nat, index: nat, done: nat, rows: Adjacency, frontier: seq<u64>) {
    && StrictlyAscending(found)
    && forall u: nat :: u in found <==>
         u / 64 == index && u % 64 < done && Bit(word0, u % 64) && HasParent(rows(u), frontier)
  }

  /** The lowest bit left is the next one at or after `done`, and clearing it leaves those after it. */
  lemma LowestBit(word0: nat, unvisited: nat, done: nat, bit: nat)
    requires BitsFrom(unvisited, word0, done) && unvisited != 0 && bit == TrailingZeros(unvisited)
    ensures Bit(word0, bit) && bit >= done && forall b: nat :: done <= b < bit ==> !Bit(word0, b)
    ensures BitsFrom(And(unvisited, unvisited - 1), word0, bit + 1) && And(unvisited, unvisited - 1) < unvisited
  {
    assert Bit(unvisited, bit);
    forall b: nat ensures Bit(And(unvisited, unvisited - 1), b) <==> Bit(word0, b) && b >= bit + 1 {
      ClearLowest(unvisited, b);
    }
    AndAtMost(unvisited, unvisited - 1);
  }

  lemma FoundNext(found: seq<nat>, word0: nat, index: nat, done: nat, rows: Adjacency, frontier: seq<u64>, bit: nat)
    requires FoundUpTo(found, word0, index, done, rows, frontier) && done <= bit < 64 && Bit(word0, bit)
    requires forall b: nat :: done <= b < bit ==> !Bit(word0, b)
    ensures var u := index * 64 + bit;
            FoundUpTo(if HasParent(rows(u), frontier) then found + [u] else found, word0, index, bit + 1, rows,
                      frontier)
  {
    hide HasParent;
    var u := index * 64 + bit;
    assert u / 64 == index && u % 64 == bit;
    forall y | y in found ensures y < u { assert y / 64 == index && y % 64 < bit; }
    StrictlyAscendingSnoc(found, u);
    forall v: nat ensures v / 64 == index && v % 64 < bit + 1 && Bit(word0, v % 64) <==>
                          (v / 64 == index && v % 64 < done && Bit(word0, v % 64)) || v == u
    {
      if v / 64 == index && v % 64 == bit { assert v == u; }
    }
  }

  ghost predicate WithinWord(w: nat) { forall b: nat :: Bit(w, b) ==> b < 64 }

  /** One round of the scan. */
  lemma ScanStep(word0: nat, unvisited: nat, index: nat, done: nat, found: seq<nat>, rows: Adjacency,
                 frontier: seq<u64>, bit: nat, cleared: nat)
    requires WithinWord(word0) && BitsFrom(unvisited, word0, done) &&
             FoundUpTo(found, word0, index, done, rows, frontier)
    requires unvisited != 0 && bit == TrailingZeros(unvisited) && cleared == And(unvisited, unvisited - 1)
    ensures BitsFrom(cleared, word0, bit + 1) && cleared < unvisited
    ensures var u := index * 64 + bit;
            FoundUpTo(if HasParent(rows(u), frontier) then found + [u] else found, word0, index, bit + 1, rows,
                      frontier)
  {
    hide BitsFrom, FoundUpTo, HasParent;
    LowestBit(word0, unvisited, done, bit);
    FoundNext(found, word0, index, done, rows, frontier, bit);
  }

  /** The bit-clearing loop over one word: its set bits lowest first, keeping those with a parent. */
  method ScanWord(rev: Base, word0: nat, index: nat, frontierBits: array<u64>, nodeCount: nat) returns (found: seq<nat>)
    requires rev.Tiled() && Scannable(rev.Rows(), frontierBits, nodeCount) && WithinWord(word0)
    ensures StrictlyAscending(found)
    ensures forall u: nat :: u in found <==>
              u / 64 == index && Bit(word0, u % 64) && HasParent(rev.NeighborSlice(u), frontierBits[..])
  {
    hide Base.Tiled, Base.NeighborSlice, HasParent, DivCeil, BitsFrom, FoundUpTo, StrictlyAscending, WithinWord;
    found := [];
    var unvisited := word0;
    ghost var done := 0;
    NothingFound(word0, index, rev.Rows(), frontierBits[..]);
    while unvisited != 0
      invariant BitsFrom(unvisited, word0, done) && FoundUpTo(found, word0, index, done, rev.Rows(), frontierBits[..])
      decreases unvisited
    {
      var bit := TrailingZeros(unvisited);
      var cleared := And(unvisited, unvisited - 1);
      ScanStep(word0, unvisited, index, done, found, rev.Rows(), frontierBits[..], bit, cleared);
      unvisited := cleared;
      var u := index * 64 + bit;
      assert AllBelow(rev.Rows()(u), nodeCount);
      var hit := FindParent(rev.NeighborSlice(u), frontierBits, nodeCount);
      if hit { found := found + [u]; }
      done := bit + 1;
    }
    AllFound(found, word0, index, done, rev.Rows(), frontierBits[..]);
  }

  lemma NothingFound(word0: nat, index: nat, rows: Adjacency, frontier: seq<u64>)
    ensures BitsFrom(word0, word0, 0) && FoundUpTo([], word0, index, 0, rows, frontier)
  {
  }

  lemma AllFound(found: seq<nat>, word0: nat, index: nat, done: nat, rows: Adjacency, frontier: seq<u64>)
    requires BitsFrom(0, word0, done) && FoundUpTo(found, word0, index, done, rows, frontier)
    ensures StrictlyAscending(found)
    ensures forall u: nat :: u in found <==> u / 64 == index && Bit(word0, u % 64) && HasParent(rows(u), frontier)
  {
    hide HasParent, StrictlyAscending;
    ZeroBits();
  }

  lemma ZeroBits()
    ensures forall b: nat :: !Bit(0, b)
  {
    forall b: nat ensures !Bit(0, b) { ZeroBit(b); }
  }

  /** The scan over all words: the unvisited nodes with a parent in the frontier, in ascending order. */
  method ScanUnvisited(rev: Base, visitedBits: array<u64>, frontierBits: array<u64>, nodeCount: nat)
    returns (next: seq<nat>)
    requires rev.Tiled() && Scannable(rev.Rows(), frontierBits, nodeCount)
    requires visitedBits.Length == DivCeil(nodeCount, 64)
    ensures StrictlyAscending(next)
    ensures forall u: nat :: u in next <==>
              u < nodeCount && !Marked(visitedBits[..], u) && HasParent(rev.NeighborSlice(u), frontierBits[..])
  {
    hide Base.Tiled, Base.NeighborSlice, HasParent, Bit;
    next := [];
    for index := 0 to visitedBits.Length
      invariant StrictlyAscending(next)
      invariant forall u: nat :: u in next <==>
                  u / 64 < index && u < nodeCount && !Marked(visitedBits[..], u) &&
                  HasParent(rev.NeighborSlice(u), frontierBits[..])
    {
      var word := UnvisitedWord(visitedBits[index], index, nodeCount);
      forall b: nat
        ensures Bit(word, b) <==> b < 64 && index * 64 + b < nodeCount && !Bit(visitedBits[index], b)
      {
        UnvisitedWordBit(visitedBits[index], index, nodeCount, b);
      }
      var found := ScanWord(rev, word, index, frontierBits, nodeCount);
      ScanJoin(next, found, index);
      next := next + found;
    }
  }

  lemma ScanJoin(next: seq<nat>, found: seq<nat>, index: nat)
    requires StrictlyAscending(next) && StrictlyAscending(found)
    requires (forall u :: u in next ==> u / 64 < index) && (forall u :: u in found ==> u / 64 == index)
    ensures StrictlyAscending(next + found)
  {
    var all := next + found;
    forall i, j | 0 <= i < j < |all| ensures all[i] < all[j] {
      if i < |next| <= j {
        assert next[i] in next && found[j - |next|] in found;
        assert all[i] / 64 < index == all[j] / 64;
      }
    }
  }

  /** One bottom-up level. The frontier bitmap is all zero before and after. */
  method BottomUp(rev: Base, frontier: seq<nat>, visitedBits: array<u64>, frontierBits: array<u64>, nodeCount: nat)
    returns (next: seq<nat>)
    requires rev.Tiled() && Scannable(rev.Rows(), frontierBits, nodeCount)
    requires visitedBits.Length == DivCeil(nodeCount, 64) && visitedBits != frontierBits
    requires AllBelow(frontier, nodeCount) && AllClear(frontierBits[..])
    modifies visitedBits, frontierBits
    ensures StrictlyAscending(next)
    ensures forall u: nat :: u in next <==>
              u < nodeCount && !Marked(old(visitedBits[..]), u) &&
              exists p :: p in frontier && p in rev.NeighborSlice(u)
    ensures forall u: nat :: Marked(visitedBits[..], u) <==> u in next || Marked(old(visitedBits[..]), u)
    ensures AllClear(frontierBits[..])
  {
    hide Base.Tiled, Base.NeighborSlice, HasParent, DivCeil, Marked;
    MarkAll(frontierBits, frontier, nodeCount);
    next := ScanUnvisited(rev, visitedBits, frontierBits, nodeCount);
    forall u: nat
      ensures HasParent(rev.NeighborSlice(u), frontierBits[..]) <==>
              exists p :: p in frontier && p in rev.NeighborSlice(u)
    {
      ParentInFrontier(rev.NeighborSlice(u), frontierBits[..], frontier);
    }
    forall i | 0 <= i < |next| ensures next[i] < nodeCount { assert next[i] in next; }
    MarkAll(visitedBits, next, nodeCount);
    ClearAll(frontierBits, frontier, nodeCount);
  }

  lemma ParentInFrontier(row: seq<nat>, bits: seq<u64>, frontier: seq<nat>)
    requires forall n: nat :: Marked(bits, n) <==> n in frontier
    ensures HasParent(row, bits) <==> exists p :: p in frontier && p in row
  {
    hide Marked;
    if HasParent(row, bits) {
      var i :| 0 <= i < |row| && Marked(bits, row[i]);
      assert row[i] in frontier && row[i] in row;
    }
    if p: nat :| p in frontier && p in row {
      var i :| 0 <= i < |row| && row[i] == p;
      assert Marked(bits, row[i]);
    }
  }

  // ----- top-down

  /** The second check under mark: admits each unmarked candidate once. */
  method MarkNew(candidates: seq<nat>, visitedBits: array<u64>, nodeCount: nat) returns (added: seq<nat>)
    requires visitedBits.Length == DivCeil(nodeCount, 64) && AllBelow(candidates, nodeCount)
    modifies visitedBits
    ensures Distinct(added)
    ensures forall n: nat :: n in added <==> n in candidates && !Marked(old(visitedBits[..]), n)
    ensures forall n: nat :: Marked(visitedBits[..], n) <==> n in added || Marked(old(visitedBits[..]), n)
  {
    hide Marked, DivCeil;
    added := [];
    for i := 0 to |candidates|
      invariant Distinct(added)
      invariant forall n: nat :: n in added <==> n in candidates[..i] && !Marked(old(visitedBits[..]), n)
      invariant forall n: nat :: Marked(visitedBits[..], n) <==> n in added || Marked(old(visitedBits[..]), n)
    {
      var m := candidates[i];
      assert forall n: nat :: n in candidates[..i + 1] <==> n in candidates[..i] || n == m;
      InWords(m, nodeCount);
      var marked := TestBit(visitedBits, m);
      if !marked {
        SetBit(visitedBits, m);
        assert m !in added;
        added := added + [m];
      }
    }
    assert candidates[..|candidates|] == candidates;
  }

  /** One top-down level. */
  method TopDown(fwd: Base, frontier: seq<nat>, visitedBits: array<u64>, nodeCount: nat, backend: Backend)
    returns (next: seq<nat>)
    requires fwd.Tiled() && visitedBits.Length == DivCeil(nodeCount, 64) && nodeCount <= U32_MAX + 1
    requires forall n: nat :: AllBelow(fwd.NeighborSlice(n), nodeCount)
    modifies visitedBits
    ensures Distinct(next)
    ensures forall u: nat :: u in next <==>
              !Marked(old(visitedBits[..]), u) && exists p :: p in frontier && u in fwd.NeighborSlice(p)
    ensures forall u: nat :: Marked(visitedBits[..], u) <==> u in next || Marked(old(visitedBits[..]), u)
  {
    hide Base.Tiled, Base.NeighborSlice, Marked, DivCeil;
    next := [];
    for i := 0 to |frontier|
      invariant Distinct(next)
      invariant forall u: nat :: u in next <==>
                  !Marked(old(visitedBits[..]), u) && exists p :: p in frontier[..i] && u in fwd.NeighborSlice(p)
      invariant forall u: nat :: Marked(visitedBits[..], u) <==> u in next || Marked(old(visitedBits[..]), u)
    {
      var n := frontier[i];
      assert forall p: nat :: p in frontier[..i + 1] <==> p in frontier[..i] || p == n;
      var added := TopDownNode(fwd, n, visitedBits, nodeCount, backend);
      DistinctJoin(next, added);
      next := next + added;
    }
    assert frontier[..|frontier|] == frontier;
  }

  lemma DistinctJoin(s: seq<nat>, t: seq<nat>)
    requires Distinct(s) && Distinct(t) && forall x :: x in t ==> x !in s
    ensures Distinct(s + t)
  {
    forall i, j | 0 <= i < |s| && 0 <= j < |t| ensures s[i] != t[j] { assert t[j] in t && s[i] in s; }
  }

  method TopDownNode(fwd: Base, n: nat, visitedBits: array<u64>, nodeCount: nat, backend: Backend)
    returns (added: seq<nat>)
    requires fwd.Tiled() && visitedBits.Length == DivCeil(nodeCount, 64) && nodeCount <= U32_MAX + 1
    requires AllBelow(fwd.NeighborSlice(n), nodeCount)
    modifies visitedBits
    ensures Distinct(added)
    ensures forall u: nat :: u in added <==> !Marked(old(visitedBits[..]), u) && u in fwd.NeighborSlice(n)
    ensures forall u: nat :: Marked(visitedBits[..], u) <==> u in added || Marked(old(visitedBits[..]), u)
  {
    hide Base.Tiled, Base.NeighborSlice;
    var neighbors := fwd.NeighborSlice(n);
    var words := visitedBits[..];
    var filtered := FilterUnvisitedInto(backend, neighbors, words);
    forall u: nat ensures u in filtered <==> u in neighbors && !Marked(words, u) {
      UnvisitedMember(neighbors, words, u);
      if u in neighbors {
        var i :| 0 <= i < |neighbors| && neighbors[i] == u;
        InWords(u, nodeCount);
      }
    }
    forall i | 0 <= i < |filtered| ensures filtered[i] < nodeCount {
      assert filtered[i] in filtered;
      var j :| 0 <= j < |neighbors| && neighbors[j] == filtered[i];
    }
    added := MarkNew(filtered, visitedBits, nodeCount);
  }

  function SaturatingSub(a: nat, b: nat): nat { if a >= b then a - b else 0 }

  /** `frontier.iter().map(degree).sum()`. */
  method FrontierOutEdges(fwd: Base, frontier: seq<nat>) returns (total: nat)
    requires fwd.Tiled()
    ensures total == DegreeSum(fwd.Rows(), frontier)
  {
    hide Base.Tiled, Base.NeighborSlice;
    total := 0;
    for i := 0 to |frontier|
      invariant total == DegreeSum(fwd.Rows(), frontier[..i])
    {
      assert frontier[..i + 1][..i] == frontier[..i];
      total := total + |fwd.NeighborSlice(frontier[i])|;
    }
    assert frontier[..|frontier|] == frontier;
  }

  // ----- the level loop

  /** The visited bitset holds exactly the recorded nodes. */
  ghost predicate MarksListed(bits: seq<u64>, ns: seq<nat>) {
    forall v: nat :: Marked(bits, v) <==> v in ns
  }

  lemma RowsStayBelow(base: Base)
    requires base.Valid()
    ensures NodesBelow(base.Rows(), base.nodeCount)
    ensures forall n: nat :: AllBelow(base.NeighborSlice(n), base.nodeCount)
  {
    hide Base.Tiled, Base.NeighborSlice;
    forall u: nat, v: nat | v in base.NeighborSlice(u) ensures u < base.nodeCount && v < base.nodeCount {
      base.RowMember(u, v);
    }
    forall n: nat, i | 0 <= i < |base.NeighborSlice(n)| ensures base.NeighborSlice(n)[i] < base.nodeCount {
      assert base.NeighborSlice(n)[i] in base.NeighborSlice(n);
    }
  }

  lemma AscendingIsDistinct(s: seq<nat>)
    requires StrictlyAscending(s)
    ensures Distinct(s)
  {
  }

  lemma MarksGrow(bits: seq<u64>, before: seq<u64>, recorded: seq<nat>, next: seq<nat>)
    requires MarksListed(before, recorded) && forall u: nat :: Marked(bits, u) <==> u in next || Marked(before, u)
    ensures MarksListed(bits, recorded + next)
  {
    hide Marked;
  }

  lemma BelowGrows(ns: seq<nat>, next: seq<nat>, n: nat)
    requires AllBelow(ns, n) && forall u :: u in next ==> u < n
    ensures AllBelow(next, n) && AllBelow(ns + next, n)
  {
    forall i | 0 <= i < |next| ensures next[i] < n { assert next[i] in next; }
  }

  /** One level, in either direction, over any two graphs of as many nodes. */
  method Expand(fwd: Base, rev: Base, bottomUp: bool, frontier: seq<nat>, visitedBits: array<u64>,
                frontierBits: array<u64>, backend: Backend, ghost levels: seq<seq<nat>>) returns (next: seq<nat>)
    requires fwd.Valid() && rev.Valid() && rev.nodeCount == fwd.nodeCount
    requires visitedBits.Length == frontierBits.Length == DivCeil(fwd.nodeCount, 64) && visitedBits != frontierBits
    requires levels != [] && levels[|levels| - 1] == frontier
    requires AllBelow(frontier, fwd.nodeCount) && AllBelow(Flatten(levels), fwd.nodeCount)
    requires MarksListed(visitedBits[..], Flatten(levels)) && AllClear(frontierBits[..])
    modifies visitedBits, frontierBits
    ensures NextIs(fwd.Rows(), rev.Rows(), bottomUp, levels, next)
    ensures AllBelow(next, fwd.nodeCount) && AllBelow(Flatten(levels) + next, fwd.nodeCount)
    ensures MarksListed(visitedBits[..], Flatten(levels) + next) && AllClear(frontierBits[..])
  {
    hide Base.Tiled, Base.NeighborSlice, Marked, DivCeil, StrictlyAscending, Flatten;
    ghost var before := visitedBits[..];
    RowsStayBelow(fwd);
    RowsStayBelow(rev);
    if bottomUp {
      next := BottomUp(rev, frontier, visitedBits, frontierBits, fwd.nodeCount);
      AscendingIsDistinct(next);
    } else {
      next := TopDown(fwd, frontier, visitedBits, fwd.nodeCount, backend);
    }
    assert forall u: nat :: u in next ==> u < fwd.nodeCount;
    MarksGrow(visitedBits[..], before, Flatten(levels), next);
    BelowGrows(Flatten(levels), next, fwd.nodeCount);
  }

  /** The level loop of `bfs_direction_optimized` over any two graphs of as many nodes; `directions` records
      which levels went bottom-up. It returns what the run in those directions records. */
  method HybridSearch(fwd: Base, rev: Base, start: nat, maxDepth: nat, backend: Backend)
    returns (r: BfsResult, ghost directions: seq<bool>)
    requires fwd.Valid() && rev.Valid() && rev.nodeCount == fwd.nodeCount && start < fwd.nodeCount
    ensures Ran(fwd.Rows(), rev.Rows(), start, maxDepth, directions, r)
    ensures FollowsRule(fwd.Rows(), fwd.nodeCount, directions, r.levels)
    ensures Exact(fwd.Rows(), [start], maxDepth, r) <==>
            DirectionsMatch(fwd.Rows(), rev.Rows(), fwd.nodeCount, start, maxDepth)
  {
    hide Base.Tiled, Base.NeighborSlice, Marked, MarksListed, AllClear, Flatten, DepthTags, NextIs, Chained,
         Exact, DivCeil, Distinct, DegreeSum, RangeSum, GoesBottomUp, DirectionsMatch, NodesBelow, AllBelow, Ran,
         FollowsRule;
    ghost var adj: Adjacency, back: Adjacency := fwd.Rows(), rev.Rows();
    var nodeCount := fwd.nodeCount;
    var visitedBits := new u64[DivCeil(nodeCount, 64)](_ => 0);
    var frontierBits := new u64[DivCeil(nodeCount, 64)](_ => 0);
    StartMarks(visitedBits[..], frontierBits[..]);
    InWords(start, nodeCount);
    SetBit(visitedBits, start);
    var frontier: seq<nat> := [start];
    var visited: seq<nat>, depths: seq<nat>, levels: seq<seq<nat>> := [], [], [];
    var visitedOutEdges, depth := 0, 0;
    directions := [];
    NothingRecorded(adj, back, start, nodeCount, visitedBits[..]);
    NothingFollowed(adj, nodeCount);
    RowsStayBelow(fwd);
    while true
      invariant depth <= maxDepth && |directions| == depth == |levels| && frontier != []
      invariant visited == Flatten(levels) && depths == DepthTags(levels) && visitedOutEdges == DegreeSum(adj, visited)
      invariant Chained(adj, back, start, directions, levels + [frontier])
      invariant AllBelow(frontier, nodeCount) && AllBelow(visited + frontier, nodeCount)
      invariant MarksListed(visitedBits[..], visited + frontier) && AllClear(frontierBits[..])
      invariant FollowsRule(adj, nodeCount, directions, levels)
      decreases maxDepth - depth
    {
      FlattenSnoc(levels, frontier);
      RuleKept(adj, nodeCount, directions, levels, frontier);
      DegreeSumAppend(adj, visited, frontier);
      visited, depths, levels := visited + frontier, depths + seq(|frontier|, _ => depth), levels + [frontier];
      if depth >= maxDepth {
        r := BfsResult(visited, depths, levels, depth);
        RunEnds(adj, back, start, maxDepth, directions, r);
        RuleIsExactIff(adj, back, nodeCount, start, maxDepth, directions, r);
        return;
      }
      var frontierOutEdges := FrontierOutEdges(fwd, frontier);
      visitedOutEdges := visitedOutEdges + frontierOutEdges;
      LevelDirection(fwd, back, start, directions, levels);
      var unvisitedEdges := SaturatingSub(fwd.edgeCount, visitedOutEdges);
      var bottomUp := frontierOutEdges > unvisitedEdges / ALPHA && |frontier| >= nodeCount / BETA;
      RuleExtends(adj, nodeCount, directions, levels, bottomUp);
      var next := Expand(fwd, rev, bottomUp, frontier, visitedBits, frontierBits, backend, levels);
      if next == [] {
        r := BfsResult(visited, depths, levels, depth);
        directions := directions + [bottomUp];
        ChainIgnores(adj, back, start, directions, levels);
        RunEnds(adj, back, start, maxDepth, directions, r);
        RuleIsExactIff(adj, back, nodeCount, start, maxDepth, directions, r);
        return;
      }
      ChainGrows(adj, back, start, directions, levels, bottomUp, next);
      directions := directions + [bottomUp];
      frontier := next;
      depth := depth + 1;
    }
  }

  lemma RuleKept(adj: Adjacency, n: nat, directions: seq<bool>, levels: seq<seq<nat>>, frontier: seq<nat>)
    requires FollowsRule(adj, n, directions, levels)
    ensures FollowsRule(adj, n, directions, levels + [frontier])
  {
    hide GoesBottomUp;
    DirectionsKept(adj, n, levels, frontier);
  }

  lemma RuleExtends(adj: Adjacency, n: nat, directions: seq<bool>, levels: seq<seq<nat>>, bottomUp: bool)
    requires FollowsRule(adj, n, directions, levels) && |levels| == |directions| + 1
    requires bottomUp == GoesBottomUp(adj, n, levels, |directions|)
    ensures FollowsRule(adj, n, directions + [bottomUp], levels)
  {
    hide GoesBottomUp;
  }

  lemma NothingFollowed(adj: Adjacency, n: nat)
    ensures FollowsRule(adj, n, [], [])
  {
  }

  lemma FlattenSnoc(levels: seq<seq<nat>>, frontier: seq<nat>)
    ensures Flatten(levels + [frontier]) == Flatten(levels) + frontier
    ensures DepthTags(levels + [frontier]) == DepthTags(levels) + seq(|frontier|, _ => |levels|)
  {
    assert (levels + [frontier])[..|levels|] == levels;
  }

  /** A chain does not read directions beyond its levels. */
  lemma ChainIgnores(fwd: Adjacency, rev: Adjacency, start: nat, directions: seq<bool>, levels: seq<seq<nat>>)
    requires directions != [] && |directions| == |levels|
    requires Chained(fwd, rev, start, directions[..|directions| - 1], levels)
    ensures Chained(fwd, rev, start, directions, levels)
  {
    hide NextIs;
  }

  lemma RunEnds(fwd: Adjacency, rev: Adjacency, start: nat, maxDepth: nat, directions: seq<bool>, r: BfsResult)
    requires r.visited == Flatten(r.levels) && r.depths == DepthTags(r.levels) && r.maxDepthReached == |r.levels| - 1
    requires Chained(fwd, rev, start, directions, r.levels)
    requires || (|r.levels| == maxDepth + 1 && |directions| == maxDepth)
             || (|r.levels| == |directions| <= maxDepth && NextIs(fwd, rev, directions[|directions| - 1], r.levels, []))
    ensures Ran(fwd, rev, start, maxDepth, directions, r)
  {
    hide NextIs;
  }

  /** The switching test of the last recorded level, made on the running counters, is made on the true
      counts: recorded nodes are distinct, so the saturating subtraction never saturates. */
  lemma LevelDirection(fwd: Base, rev: Adjacency, start: nat, directions: seq<bool>, levels: seq<seq<nat>>)
    requires fwd.Valid() && Chained(fwd.Rows(), rev, start, directions, levels) &&
             AllBelow(Flatten(levels), fwd.nodeCount)
    ensures DegreeSum(fwd.Rows(), Flatten(levels)) <= fwd.edgeCount
    ensures var adj, last := fwd.Rows(), |levels| - 1;
            GoesBottomUp(adj, fwd.nodeCount, levels, last) <==>
            DegreeSum(adj, levels[last]) > (fwd.edgeCount - DegreeSum(adj, Flatten(levels))) / 14 &&
            |levels[last]| >= fwd.nodeCount / 24
  {
    hide Base.Tiled, Base.NeighborSlice, NextIs, DegreeSum, RangeSum, Flatten, AllBelow;
    ChainedDistinct(fwd.Rows(), rev, start, directions, levels);
    UnvisitedEdgesExact(fwd, Flatten(levels));
    assert levels[..|levels|] == levels;
  }

  lemma StartMarks(visitedBits: seq<u64>, frontierBits: seq<u64>)
    requires forall i :: 0 <= i < |visitedBits| ==> visitedBits[i] == 0
    requires forall i :: 0 <= i < |frontierBits| ==> frontierBits[i] == 0
    ensures AllClear(visitedBits) && AllClear(frontierBits)
  {
    ZeroBits();
  }

  lemma NothingRecorded(fwd: Adjacency, rev: Adjacency, start: nat, n: nat, bits: seq<u64>)
    requires start < n && forall v: nat :: Marked(bits, v) <==> v == start
    ensures Chained(fwd, rev, start, [], [] + [[start]]) && MarksListed(bits, [] + [start])
    ensures AllBelow([start], n) && AllBelow([] + [start], n)
    ensures Flatten<nat>([]) == [] && DepthTags<nat>([]) == [] && DegreeSum(fwd, []) == 0
  {
    assert [] + [start] == [start] && [] + [[start]] == [[start]];
  }

  /** Whether a traversal of an accepted pair answers exactly: with a delta on the forward graph, or a start
      it does not contain, always; otherwise when the two agree where the rule goes bottom-up. */
  ghost predicate SearchesExactly(forward: CsrGraph, reverse: CsrGraph, start: nat, maxDepth: nat)
    requires forward.base.Tiled() && reverse.base.Tiled()
    reads forward.delta
  {
    forward.delta.View() == EMPTY_OVERLAY && start < forward.base.nodeCount ==>
      DirectionsMatch(forward.base.Rows(), reverse.base.Rows(), forward.base.nodeCount, start, maxDepth)
  }

  /** `bfs_direction_optimized`. The guard compares counts only; what it then returns is exact if and only if
      the pair searches exactly, as a graph and its transpose always do. */
  method BfsDirectionOptimized(forward: CsrGraph, reverse: CsrGraph, start: nat, maxDepth: nat, backend: Backend)
    returns (r: Result<BfsResult>)
    requires forward.Valid() && reverse.Valid() && FitsMemory(forward)
    ensures r.Success? <==>
              && forward.base.nodeCount == reverse.base.nodeCount
              && forward.base.edgeCount == reverse.base.edgeCount
              && reverse.delta.View() == EMPTY_OVERLAY
    ensures r.Failure? ==> r.error == InvalidTraversal
    ensures r.Success? ==> Regular(r.value)
    ensures r.Success? ==>
              (Exact(forward.Adjacency(), Contained(forward.base, [start]), maxDepth, r.value) <==>
               SearchesExactly(forward, reverse, start, maxDepth))
  {
    hide Base.Tiled, Base.NeighborSlice, DirectionsMatch, Exact, Regular, Ran, FollowsRule, Searched;
    if forward.base.nodeCount != reverse.base.nodeCount || forward.base.edgeCount != reverse.base.edgeCount {
      return Failure(InvalidTraversal);
    }
    if !reverse.delta.IsEmpty() { return Failure(InvalidTraversal); }
    if !forward.delta.IsEmpty() {
      var result := BfsBounded(forward, [start], maxDepth, None, backend);
      ExactIsRegular(forward.Adjacency(), Contained(forward.base, [start]), maxDepth, result);
      return Success(result);
    }
    EnumeratesNothing(forward.delta.insertionOrder);
    CleanRows(forward.base);
    SingleStart(forward.base, start);
    if !forward.Contains(start) {
      NoStartIsExact(forward.Adjacency(), maxDepth);
      ExactIsRegular(forward.Adjacency(), [], maxDepth, EMPTY_RESULT);
      return Success(EMPTY_RESULT);
    }
    var result, directions := HybridSearch(forward.base, reverse.base, start, maxDepth, backend);
    RanIsRegular(forward.base.Rows(), reverse.base.Rows(), start, maxDepth, directions, result);
    ExactSameIff(forward.base.Rows(), forward.Adjacency(), [start], maxDepth, result);
    return Success(result);
  }

  lemma ExactIsRegular(adj: Adjacency, roots: seq<nat>, maxDepth: nat, r: BfsResult)
    requires Exact(adj, roots, maxDepth, r)
    ensures Regular(r)
  {
    hide Regular;
  }

  lemma RanIsRegular(fwd: Adjacency, rev: Adjacency, start: nat, maxDepth: nat, directions: seq<bool>, r: BfsResult)
    requires Ran(fwd, rev, start, maxDepth, directions, r)
    ensures Regular(r)
  {
    hide Regular, Chained, NextIs;
  }

  /** A graph and its transpose agree at every level. */
  lemma TransposeMatches(fwd: Base, rev: Base, start: nat, maxDepth: nat)
    requires fwd.Tiled() && rev.Tiled() && TransposeOf(fwd, rev)
    ensures DirectionsMatch(fwd.Rows(), rev.Rows(), fwd.nodeCount, start, maxDepth)
  {
    TransposeReverses(fwd, rev);
    hide Base.Tiled, Base.NeighborSlice;
    ReversedMatches(fwd.Rows(), rev.Rows(), fwd.nodeCount, start, maxDepth);
  }

  lemma ReversedMatches(fwd: Adjacency, rev: Adjacency, n: nat, start: nat, maxDepth: nat)
    requires ReversedOffLoops(fwd, rev)
    ensures DirectionsMatch(fwd, rev, n, start, maxDepth)
  {
    hide LevelAgrees, GoesBottomUp;
    forall d: nat ensures LevelAgrees(fwd, rev, start, d) { OffLoopsAgrees(fwd, rev, start, d); }
  }

  lemma SingleStart(base: Base, start: nat)
    ensures Contained(base, [start]) == if base.Contains(start) then [start] else []
  {
    assert Contained(base, [start][..0]) == [];
  }

  lemma NoStartIsExact(adj: Adjacency, maxDepth: nat)
    ensures Exact(adj, [], maxDepth, EMPTY_RESULT)
  {
    forall v: nat ensures !AtDist(adj, [], v, 0) { assert !ReachIn(adj, [], v, 0); }
  }

  lemma ExactSame(adj1: Adjacency, adj2: Adjacency, starts: seq<nat>, maxDepth: nat, r: BfsResult)
    requires SameNeighbours(adj1, adj2) && Exact(adj1, starts, maxDepth, r)
    ensures Exact(adj2, starts, maxDepth, r)
  {
    forall v: nat, d: nat ensures AtDist(adj1, starts, v, d) <==> AtDist(adj2, starts, v, d) {
      SameDist(adj1, adj2, starts, v, d);
    }
    forall d | 0 <= d < |r.levels| ensures IsLevel(adj2, starts, d, r.levels[d]) {
      assert IsLevel(adj1, starts, d, r.levels[d]);
    }
  }

  lemma ExactSameIff(adj1: Adjacency, adj2: Adjacency, starts: seq<nat>, maxDepth: nat, r: BfsResult)
    requires SameNeighbours(adj1, adj2)
    ensures Exact(adj1, starts, maxDepth, r) <==> Exact(adj2, starts, maxDepth, r)
  {
    if Exact(adj1, starts, maxDepth, r) { ExactSame(adj1, adj2, starts, maxDepth, r); }
    if Exact(adj2, starts, maxDepth, r) { ExactSame(adj2, adj1, starts, maxDepth, r); }
  }

  // ----- what the count guard does not check

  const ONE_EDGE := Base([CsrShard(0, 0, 2, [0, 1, 1], [1], None)], 2, 1)

  lemma OneEdgeRows()
    ensures ONE_EDGE.Tiled()
    ensures ONE_EDGE.NeighborSlice(0) == [1] && forall n: nat :: n > 0 ==> ONE_EDGE.NeighborSlice(n) == []
  {
    var b := ONE_EDGE;
    assert b.shards[0].Valid();
    b.Located(0, 0);
    b.Located(1, 0);
    forall n: nat | n > 1 ensures b.NeighborSlice(n) == [] { b.Unlocated(n); }
  }

  lemma OneEdgeValid()
    ensures ONE_EDGE.Valid()
  {
    OneEdgeRows();
    var b := ONE_EDGE;
    var es := [Edge(0, 1)];
    forall n: nat ensures b.NeighborSlice(n) == Targets(es, n) { TargetsOne(Edge(0, 1), n); }
    IndexEdges(b, es);
    assert es[..0] == [];
    assert Span(es) == 2;
  }

  lemma OneEdgeDistance()
    ensures ONE_EDGE.Tiled() && AtDist(ONE_EDGE.Rows(), [0], 1, 1)
  {
    OneEdgeRows();
    var b := ONE_EDGE;
    hide Base.Tiled, Base.NeighborSlice;
    var rows := b.Rows();
    assert ReachIn(rows, [0], 0, 0) && 1 in rows(0);
    assert !ReachIn(rows, [0], 1, 0);
  }

  lemma ZeroHops(adj: Adjacency, start: nat)
    ensures forall v: nat :: AtDist(adj, [start], v, 0) <==> v == start
    ensures forall v: nat :: Within(adj, [start], v, 0) <==> v == start
  {
    assert forall v: nat :: ReachIn(adj, [start], v, 0) <==> v == start;
    assert ReachIn(adj, [start], start, 0);
  }

  /** The one edge's first level goes bottom-up, where the rows of node 1 name no parent. */
  lemma OneEdgeDoesNotMatch(rows: Adjacency, maxDepth: nat)
    requires maxDepth > 0 && rows(0) == [1] && forall n: nat :: n > 0 ==> rows(n) == []
    ensures !DirectionsMatch(rows, rows, 2, 0, maxDepth)
  {
    ZeroHops(rows, 0);
    OneEdgeGoesBottomUp(rows);
    hide AtDist, Within, GoesBottomUp;
    OnlyStartSelected(rows);
    assert TrueLevels(rows, 0, 2, 1) == [[0]];
    assert 1 in rows(0) && !LevelAgrees(rows, rows, 0, 0);
  }

  lemma OnlyStartSelected(rows: Adjacency)
    requires forall v: nat :: AtDist(rows, [0], v, 0) <==> v == 0
    ensures Select((v: nat) => AtDist(rows, [0], v, 0), 2) == [0]
  {
    hide AtDist;
    var p := (v: nat) => AtDist(rows, [0], v, 0);
    assert Select(p, 0) == [];
    assert Select(p, 2) == Select(p, 1) + [];
  }

  lemma OneEdgeGoesBottomUp(rows: Adjacency)
    requires rows(0) == [1] && forall n: nat :: n > 0 ==> rows(n) == []
    ensures GoesBottomUp(rows, 2, [[0]], 0)
  {
    assert [0][..0] == [] && [[0]][..1] == [[0]] && [[0]][..0] == [];
    assert DegreeSum(rows, [0]) == DegreeSum(rows, []) + 1 == 1;
    assert Flatten([[0]]) == [0];
    assert RangeSum(rows, [0], false, 2) == RangeSum(rows, [0], false, 1) + 0 == 0;
  }

  /** The guard accepts a delta-free graph paired with itself, and what the search then returns is not
      exact, although node 1 is one hop away: equal counts do not make a transpose. */
  method CountsDoNotMakeATranspose(maxDepth: nat, backend: Backend) returns (r: Result<BfsResult>)
    requires maxDepth > 0
    ensures ONE_EDGE.Tiled() && AtDist(ONE_EDGE.Rows(), [0], 1, 1)
    ensures r.Success? && !Exact(ONE_EDGE.Rows(), [0], maxDepth, r.value)
  {
    hide Base.Tiled, Base.NeighborSlice, Base.Valid, CsrGraph.Adjacency, MergedRows, DirectionsMatch, Exact, AtDist;
    OneEdgeValid();
    OneEdgeDistance();
    OneEdgeRows();
    OneEdgeDoesNotMatch(ONE_EDGE.Rows(), maxDepth);
    var g := new CsrGraph(ONE_EDGE);
    r := BfsDirectionOptimized(g, g, 0, maxDepth, backend);
    CleanAdjacency(g);
    SingleStart(ONE_EDGE, 0);
    ExactSameIff(ONE_EDGE.Rows(), g.Adjacency(), [0], maxDepth, r.value);
  }
}
