/**
 `VerifiableLog` of python/demo/vdb/verifiable_log.py: a log whose tree hashes are computed with a stack and
 kept in a cache under the range that they were asked for.

 Nothing checks that a range lies within the log. The hash of one that does not is cached too, and is then
 still given when the log has grown past it.
 */
module VerifiableLog {
  import opened Options
  import opened TreeHashing
  import opened FullSubtrees
  import opened PythonCompactTree

  type Range = (nat, nat)

  // ---------- How many hashes to join ----------

  /** The digits of `bin(n)`, without the prefix, the last one first. */
  function Digits(n: nat): seq<bool> {
    if n < 2 then [n == 1] else [n % 2 == 1] + Digits(n / 2)
  }

  /** `index('0')`. */
  function FirstZero(digits: seq<bool>): (i: nat)
    requires false in digits
    ensures i < |digits|
  {
    if !digits[0] then 0 else 1 + FirstZero(digits[1..])
  }

  /** The zero of the prefix of `bin` stops the search at the latest. */
  function Carries(n: nat): nat {
    FirstZero(Digits(n) + [false])
  }

  lemma CarriesHalf(n: nat)
    ensures n % 2 == 0 ==> Carries(n) == 0
    ensures n % 2 == 1 ==> Carries(n) == 1 + Carries(n / 2)
  {
    var digits := Digits(n) + [false];
    if n == 1 {
      assert digits[1..] == [false];
      assert (Digits(0) + [false])[0] == false;
    } else if n % 2 == 1 {
      assert digits[1..] == Digits(n / 2) + [false];
    }
  }

  // ---------- The stack ----------

  /** The stack after its last two hashes have been replaced by their parent. */
  function JoinLast(h: TreeHasher, stack: seq<Bytes>): (joined: seq<Bytes>)
    requires |stack| >= 2
    ensures |joined| == |stack| - 1
  {
    stack[..|stack| - 2] + [h.HashChildren(stack[|stack| - 2], stack[|stack| - 1])]
  }

  function Joined(h: TreeHasher, stack: seq<Bytes>, times: nat): (joined: seq<Bytes>)
    requires times < |stack|
    ensures |joined| == |stack| - times
    decreases times
  {
    if times == 0 then stack else Joined(h, JoinLast(h, stack), times - 1)
  }

  lemma {:induction false} JoinedOnce(h: TreeHasher, stack: seq<Bytes>, times: nat)
    requires times + 1 < |stack|
    ensures Joined(h, stack, times + 1) == JoinLast(h, Joined(h, stack, times))
    decreases times
  {
    if times > 0 {
      JoinedOnce(h, JoinLast(h, stack), times - 1);
    }
  }

  /** As many joins as the number of leaves has one bits at its end keep the stack at the full subtrees. */
  lemma {:induction false} CarryIsAppend(h: TreeHasher, nodes: seq<Bytes>, x: Bytes)
    ensures Carries(|nodes|) <= |Descending(h, nodes)|
    ensures Joined(h, Descending(h, nodes) + [x], Carries(|nodes|)) == Descending(h, nodes + [x])
    decreases |nodes|
  {
    hide Carries, Pairs, Descending;
    CarriesHalf(|nodes|);
    PairsSnoc(h, nodes, x);
    DescendingUnfold(h, nodes + [x]);
    if nodes == [] {
      DescendingEmpty(h);
      NoPairs(h);
      assert Pairs(h, [] + [x]) == [];
    } else {
      DescendingUnfold(h, nodes);
      if |nodes| % 2 == 1 {
        var last := nodes[|nodes| - 1];
        var p := Pairs(h, nodes);
        CarryIsAppend(h, p, h.HashChildren(last, x));
        assert JoinLast(h, Descending(h, nodes) + [x]) == Descending(h, p) + [h.HashChildren(last, x)];
      }
    }
  }

  lemma NoPairs(h: TreeHasher)
    ensures Pairs(h, []) == []
  {
  }

  /** Joining does not change what the stack folds to. */
  lemma {:induction false} FoldJoinLast(h: TreeHasher, stack: seq<Bytes>)
    requires |stack| >= 2
    ensures FoldHashes(h, JoinLast(h, stack)) == FoldHashes(h, stack)
  {
    if |stack| > 2 {
      FoldJoinLast(h, stack[1..]);
      assert JoinLast(h, stack)[1..] == JoinLast(h, stack[1..]);
    }
  }

  lemma {:induction false} FoldJoined(h: TreeHasher, stack: seq<Bytes>, times: nat)
    requires times < |stack|
    ensures FoldHashes(h, Joined(h, stack, times)) == FoldHashes(h, stack)
    decreases times
  {
    if times > 0 {
      FoldJoinLast(h, stack);
      FoldJoined(h, JoinLast(h, stack), times - 1);
    }
  }

  /** Joining everything after the last leaf gives the tree hash, and nothing else. */
  lemma JoinAll(h: TreeHasher, nodes: seq<Bytes>, x: Bytes)
    ensures var stack := Descending(h, nodes) + [x];
      Joined(h, stack, |stack| - 1) == [Mth(h, nodes + [x])]
  {
    hide Mth, Descending, Joined, FoldHashes, Carries;
    var stack := Descending(h, nodes) + [x];
    var all := Joined(h, stack, |stack| - 1);
    CarryIsAppend(h, nodes, x);
    FoldJoined(h, stack, Carries(|nodes|));
    FoldJoined(h, stack, |stack| - 1);
    FoldIsRoot(h, nodes + [x]);
    FoldOne(h, all);
  }

  lemma FoldOne(h: TreeHasher, stack: seq<Bytes>)
    requires |stack| == 1
    ensures stack == [FoldHashes(h, stack)]
  {
  }

  // ---------- A range ----------

  /** What the stack leaves of the leaves that exist, out of `size` leaves that were asked for. */
  ghost function StackHash(h: TreeHasher, leaves: seq<Bytes>, size: nat): Option<Bytes> {
    if leaves == [] then None
    else if |leaves| == size then Some(Mth(h, leaves))
    else
      NonEmptyStack(h, leaves);
      Some(Descending(h, leaves)[0])
  }

  /** A slice of a list, as far as it exists. */
  function Slice(data: seq<Bytes>, range: Range): (s: seq<Bytes>)
    ensures |s| <= Width(range)
  {
    var hi := if range.1 <= |data| then range.1 else |data|;
    if range.0 <= hi then data[range.0..hi] else []
  }

  function Width(range: Range): nat {
    if range.0 <= range.1 then range.1 - range.0 else 0
  }

  ghost function Answer(h: TreeHasher, data: seq<Bytes>, range: Range): Option<Bytes> {
    StackHash(h, h.HashLeaves(Slice(data, range)), Width(range))
  }

  /** The loops of `_calc_mth`; `None` stands for the IndexError of an empty stack. */
  method HashStack(h: TreeHasher, data: seq<Bytes>, size: nat) returns (r: Option<Bytes>)
    requires |data| <= size
    ensures r == StackHash(h, h.HashLeaves(data), size)
  {
    hide Mth, Descending, Joined, Carries;
    ghost var d := h.HashLeaves(data);
    var stack, i := [], 0;
    DescendingEmpty(h);
    while i < |data|
      invariant i <= |data| && stack == if 0 < i == size then [Mth(h, d[..i])] else Descending(h, d[..i])
    {
      stack := stack + [h.HashLeaf(data[i])];
      ghost var pushed := stack;
      assert d[..i + 1] == d[..i] + [d[i]];
      CarryIsAppend(h, d[..i], d[i]);
      JoinAll(h, d[..i], d[i]);
      stack := Join(h, stack, if i + 1 < size then Carries(i) else |stack| - 1);
      i := i + 1;
    }
    assert d[..i] == d;
    if stack == [] {
      NonEmptyStack(h, d);
      return None;
    }
    NonEmptyStack(h, d);
    r := Some(stack[0]);
  }

  method Join(h: TreeHasher, stack0: seq<Bytes>, times: nat) returns (stack: seq<Bytes>)
    requires times < |stack0|
    ensures stack == Joined(h, stack0, times)
  {
    stack := stack0;
    for j := 0 to times
      invariant stack == Joined(h, stack0, j)
    {
      JoinedOnce(h, stack0, j);
      stack := stack[..|stack| - 2] + [h.HashChildren(stack[|stack| - 2], stack[|stack| - 1])];
    }
  }

  lemma NonEmptyStack(h: TreeHasher, nodes: seq<Bytes>)
    ensures nodes != [] ==> Descending(h, nodes) != []
    ensures nodes == [] ==> Descending(h, nodes) == []
  {
    if nodes != [] {
      FoldIsRoot(h, nodes);
    }
  }

  /** Within the log the answer is the tree hash of the range. */
  lemma AnswerWithin(h: TreeHasher, data: seq<Bytes>, n: nat, range: Range)
    requires range.0 < range.1 <= n <= |data|
    ensures Answer(h, data[..n], range) == Some(Mth(h, h.HashLeaves(data)[range.0..range.1]))
  {
    hide Mth;
    assert h.HashLeaves(Slice(data[..n], range)) == h.HashLeaves(data)[range.0..range.1];
  }

  // ---------- A range past the end ----------

  /** Everything that is hashed for the tree hash of the data. */
  ghost function HashInputs(h: TreeHasher, data: seq<Bytes>): set<Bytes>
    decreases |data|
  {
    if data == [] then {}
    else if |data| == 1 then {LeafInput(data[0])}
    else
      var k := Split(|data|);
      {NodeInput(Mth(h, h.HashLeaves(data[..k])), Mth(h, h.HashLeaves(data[k..])))}
      + HashInputs(h, data[..k]) + HashInputs(h, data[k..])
  }

  lemma MthOfData(h: TreeHasher, data: seq<Bytes>, k: nat)
    requires |data| >= 2 && k == Split(|data|)
    ensures Mth(h, h.HashLeaves(data))
         == h.HashChildren(Mth(h, h.HashLeaves(data[..k])), Mth(h, h.HashLeaves(data[k..])))
  {
    hide Mth;
    var d := h.HashLeaves(data);
    assert d[..k] == h.HashLeaves(data[..k]) && d[k..] == h.HashLeaves(data[k..]);
    MthUnfold(h, d, k);
  }

  lemma SplitMonotone(m: nat, n: nat)
    requires 2 <= m <= n
    ensures Split(m) <= Split(n)
  {
  }

  /** Lists of different sizes do not have the same tree hash, unless two hashed inputs collide. */
  lemma {:induction false} SizesDiffer(h: TreeHasher, a: seq<Bytes>, b: seq<Bytes>, inputs: set<Bytes>)
    requires h.Valid() && 0 < |a| < |b|
    requires HashInputs(h, a) + HashInputs(h, b) <= inputs && !CollisionAmong(h, inputs)
    ensures Mth(h, h.HashLeaves(a)) != Mth(h, h.HashLeaves(b))
    decreases |a|
  {
    hide Mth, Split;
    var k := Split(|b|);
    MthOfData(h, b, k);
    var left, right := Mth(h, h.HashLeaves(b[..k])), Mth(h, h.HashLeaves(b[k..]));
    assert NodeInput(left, right) in HashInputs(h, b);
    if |a| == 1 {
      MthOne(h, h.HashLeaves(a));
      assert LeafInput(a[0]) in HashInputs(h, a);
      assert LeafInput(a[0])[0] != NodeInput(left, right)[0];
    } else {
      var j := Split(|a|);
      MthOfData(h, a, j);
      SplitMonotone(|a|, |b|);
      var left', right' := Mth(h, h.HashLeaves(a[..j])), Mth(h, h.HashLeaves(a[j..]));
      assert NodeInput(left', right') in HashInputs(h, a);
      MthLength(h, a[..j]);
      MthLength(h, b[..k]);
      if h.HashChildren(left', right') == h.HashChildren(left, right) {
        ChildrenDetermined(h, left', right', left, right, inputs);
        if j < k {
          SizesDiffer(h, a[..j], b[..k], inputs);
        } else {
          SizesDiffer(h, a[j..], b[k..], inputs);
        }
      }
    }
  }

  lemma MthLength(h: TreeHasher, data: seq<Bytes>)
    requires h.Valid() && data != []
    ensures |Mth(h, h.HashLeaves(data))| == h.digestSize
  {
  }

  /** The first hash on the stack is that of a tree of at most the leaves that exist. */
  lemma FirstOnStack(h: TreeHasher, data: seq<Bytes>) returns (k: nat)
    requires data != []
    ensures 0 < k <= |data| && Descending(h, h.HashLeaves(data)) != []
    ensures Descending(h, h.HashLeaves(data))[0] == Mth(h, h.HashLeaves(data[..k]))
    ensures HashInputs(h, data[..k]) <= HashInputs(h, data)
  {
    hide Mth, Descending, Split;
    var d := h.HashLeaves(data);
    k := |data|;
    assert data[..k] == data;
    if |data| == 1 {
      DescendingFull(h, d, 0);
    } else {
      var s := Split(|data|);
      DescendingSplit(h, d, s);
      if |data| != 2 * s {
        k := s;
        assert d[..k] == h.HashLeaves(data[..k]);
      }
    }
  }

  /** What was cached when the log had n entries is right once the log has more exactly when the range ended within
      those n entries, or two hashed inputs collide. */
  lemma AnswerExactly(h: TreeHasher, data: seq<Bytes>, n: nat, range: Range)
    requires h.Valid() && range.0 < range.1 <= |data| && range.0 < n <= |data|
    ensures (Answer(h, data[..n], range) == Some(Mth(h, h.HashLeaves(data)[range.0..range.1])) <==> range.1 <= n)
         || CollisionAmong(h, HashInputs(h, data[range.0..n]) + HashInputs(h, data[range.0..range.1]))
  {
    hide Mth, Descending, HashInputs, CollisionAmong;
    if range.1 <= n {
      AnswerWithin(h, data, n, range);
    } else {
      var seen, all := data[range.0..n], data[range.0..range.1];
      assert Slice(data[..n], range) == seen;
      assert h.HashLeaves(data)[range.0..range.1] == h.HashLeaves(all);
      var k := FirstOnStack(h, seen);
      if !CollisionAmong(h, HashInputs(h, seen) + HashInputs(h, all)) {
        SizesDiffer(h, seen[..k], all, HashInputs(h, seen) + HashInputs(h, all));
      }
    }
  }

  // ---------- Proofs as lists of ranges ----------

  ghost function RangeHashes(h: TreeHasher, d: seq<Bytes>, ranges: seq<Range>): seq<Bytes>
    requires InLog(ranges, |d|)
  {
    seq(|ranges|, i requires 0 <= i < |ranges| => Mth(h, d[ranges[i].0..ranges[i].1]))
  }

  ghost predicate InLog(ranges: seq<Range>, size: nat) {
    forall i :: 0 <= i < |ranges| ==> ranges[i].0 < ranges[i].1 <= size
  }

  /** `len(bin(n))`: two characters before the digits, and one for a sign. */
  function BinLength(n: int): nat {
    if n < 0 then 3 + |Digits(-n)| else 2 + |Digits(n)|
  }

  lemma {:induction false} DigitsBound(n: nat)
    ensures |Digits(n)| > 0 && n < Pow2(|Digits(n)|)
    ensures n > 0 ==> Pow2(|Digits(n)| - 1) <= n
  {
    if n >= 2 {
      DigitsBound(n / 2);
    }
  }

  lemma {:induction false} PowerOfTwo(k: nat)
    ensures IsPowerOfTwo(Pow2(k))
  {
    if k > 0 {
      PowerOfTwo(k - 1);
    }
  }

  /** `1 << (len(bin(n - 1)) - 3)`: the split of a list of two or more, and past the end of a range of no entries. */
  function Half(n: int): (k: nat)
    ensures n >= 2 ==> k == Split(n)
    ensures n == 1 ==> k == 1
    ensures n <= 0 ==> k > 1 - n
  {
    DigitsBound(if n < 1 then 1 - n else n - 1);
    var k := Pow2(BinLength(n - 1) - 3);
    assert n >= 2 ==> k == Split(n) by {
      if n >= 2 {
        PowerOfTwo(BinLength(n - 1) - 3);
        SplitUnique(n, k);
      }
    }
    k
  }

  /** `_subproof`. An old size past the end leads to ranges past the end, and to one that ends before it starts. */
  function SubproofRanges(m: nat, start: nat, end: nat, complete: bool): (ranges: seq<Range>)
    requires m > 0
    ensures start + m <= end ==> InLog(ranges, end)
    decreases if start + m <= end then 0 else 1, if start + m <= end then end - start else m
  {
    hide Half, Split;
    if start + m == end then
      if complete then [] else [(start, end)]
    else
      var k := Half(end - start);
      if m <= k then SubproofRanges(m, start, start + k, complete) + [(start + k, end)]
      else SubproofRanges(m - k, start + k, end, false) + [(start, start + k)]
  }

  /** `_path`. */
  function PathRanges(m: nat, start: nat, end: nat): (ranges: seq<Range>)
    ensures start < end ==> InLog(ranges, end)
    decreases if start < end then 0 else 1, if start < end then end - start else m
  {
    hide Half, Split;
    if start + 1 == end then []
    else
      var k := Half(end - start);
      if m < k then PathRanges(m, start, start + k) + [(start + k, end)]
      else PathRanges(m - k, start + k, end) + [(start, start + k)]
  }

  ghost predicate Reversed(ranges: seq<Range>) {
    exists i :: 0 <= i < |ranges| && ranges[i].1 <= ranges[i].0
  }

  lemma ReversedSnoc(ranges: seq<Range>, last: Range)
    requires Reversed(ranges) || last.1 <= last.0
    ensures Reversed(ranges + [last])
  {
    if Reversed(ranges) {
      var i :| 0 <= i < |ranges| && ranges[i].1 <= ranges[i].0;
      assert (ranges + [last])[i].1 <= (ranges + [last])[i].0;
    } else {
      assert (ranges + [last])[|ranges|].1 <= (ranges + [last])[|ranges|].0;
    }
  }

  /** From a larger to a smaller size one of the ranges ends before it starts. */
  lemma {:induction false} SubproofReversed(m: nat, start: nat, end: nat, complete: bool)
    requires m > 0 && start + m > end
    ensures Reversed(SubproofRanges(m, start, end, complete))
    decreases m
  {
    hide Half, Split, Reversed;
    var k := Half(end - start);
    if m <= k {
      ReversedSnoc(SubproofRanges(m, start, start + k, complete), (start + k, end));
    } else {
      SubproofReversed(m - k, start + k, end, false);
      ReversedSnoc(SubproofRanges(m - k, start + k, end, false), (start, start + k));
    }
  }

  /** And so it is in a tree of no entries. */
  lemma {:induction false} PathReversed(m: nat, start: nat, end: nat)
    requires start >= end
    ensures Reversed(PathRanges(m, start, end))
    decreases m
  {
    hide Half, Split, Reversed;
    var k := Half(end - start);
    if m < k {
      ReversedSnoc(PathRanges(m, start, start + k), (start + k, end));
    } else {
      PathReversed(m - k, start + k, end);
      ReversedSnoc(PathRanges(m - k, start + k, end), (start, start + k));
    }
  }

  lemma HashesSnoc(h: TreeHasher, d: seq<Bytes>, ranges: seq<Range>, last: Range)
    requires InLog(ranges, |d|) && last.0 < last.1 <= |d|
    ensures InLog(ranges + [last], |d|)
    ensures RangeHashes(h, d, ranges + [last]) == RangeHashes(h, d, ranges) + [Mth(h, d[last.0..last.1])]
  {
    hide Mth;
  }

  lemma SubProofUnfold(h: TreeHasher, s: seq<Bytes>, m: nat, complete: bool, k: nat)
    requires 0 < m < |s| && k == Split(|s|)
    ensures m <= k ==> SubProof(h, m, s, complete) == SubProof(h, m, s[..k], complete) + [Mth(h, s[k..])]
    ensures m > k ==> SubProof(h, m, s, complete) == SubProof(h, m - k, s[k..], false) + [Mth(h, s[..k])]
  {
  }

  lemma SubProofWhole(h: TreeHasher, s: seq<Bytes>, complete: bool)
    requires s != []
    ensures SubProof(h, |s|, s, complete) == if complete then [] else [Mth(h, s)]
  {
  }

  lemma SubproofUnfold(m: nat, start: nat, end: nat, complete: bool, k: nat)
    requires m > 0 && start + m != end && k == Half(end - start)
    ensures m <= k ==>
      SubproofRanges(m, start, end, complete) == SubproofRanges(m, start, start + k, complete) + [(start + k, end)]
    ensures m > k ==>
      SubproofRanges(m, start, end, complete) == SubproofRanges(m - k, start + k, end, false) + [(start, start + k)]
  {
    hide Half;
  }

  lemma SubproofWhole(m: nat, start: nat, complete: bool)
    requires m > 0
    ensures SubproofRanges(m, start, start + m, complete) == if complete then [] else [(start, start + m)]
  {
  }

  /** The hashes of the ranges are the consistency proof of RFC 6962. */
  lemma {:induction false} SubproofIs(h: TreeHasher, d: seq<Bytes>, m: nat, start: nat, end: nat, complete: bool)
    requires start + m <= end <= |d| && m > 0
    ensures RangeHashes(h, d, SubproofRanges(m, start, end, complete)) == SubProof(h, m, d[start..end], complete)
    decreases end - start
  {
    hide Mth, RangeHashes, Split, SubProof, SubproofRanges;
    if m < end - start {
      var k := Split(end - start);
      var s := d[start..end];
      assert s[..k] == d[start..start + k] && s[k..] == d[start + k..end];
      SubProofUnfold(h, s, m, complete, k);
      SubproofUnfold(m, start, end, complete, k);
      if m <= k {
        SubproofIs(h, d, m, start, start + k, complete);
        HashesSnoc(h, d, SubproofRanges(m, start, start + k, complete), (start + k, end));
      } else {
        SubproofIs(h, d, m - k, start + k, end, false);
        HashesSnoc(h, d, SubproofRanges(m - k, start + k, end, false), (start, start + k));
      }
    } else {
      HashesSnoc(h, d, [], (start, end));
      NoHashes(h, d);
      SubProofWhole(h, d[start..end], complete);
      SubproofWhole(m, start, complete);
      assert [] + [(start, end)] == [(start, end)];
    }
  }

  lemma NoPath(h: TreeHasher, m: nat, s: seq<Bytes>)
    requires |s| == 1
    ensures Path(h, m, s) == []
  {
  }

  lemma PathUnfold(h: TreeHasher, s: seq<Bytes>, m: nat, k: nat)
    requires |s| > 1 && k == Split(|s|)
    ensures m < k ==> Path(h, m, s) == Path(h, m, s[..k]) + [Mth(h, s[k..])]
    ensures m >= k ==> Path(h, m, s) == Path(h, m - k, s[k..]) + [Mth(h, s[..k])]
  {
  }

  lemma PathRangesUnfold(m: nat, start: nat, end: nat, k: nat)
    requires start + 1 < end && k == Split(end - start)
    ensures m < k ==> PathRanges(m, start, end) == PathRanges(m, start, start + k) + [(start + k, end)]
    ensures m >= k ==> PathRanges(m, start, end) == PathRanges(m - k, start + k, end) + [(start, start + k)]
  {
    hide Split;
  }

  lemma NoPathRanges(m: nat, start: nat)
    ensures PathRanges(m, start, start + 1) == []
  {
  }

  /** The hashes of the ranges are the audit path of RFC 6962. */
  lemma {:induction false} PathIs(h: TreeHasher, d: seq<Bytes>, m: nat, start: nat, end: nat)
    requires start < end <= |d|
    ensures RangeHashes(h, d, PathRanges(m, start, end)) == Path(h, m, d[start..end])
    decreases end - start
  {
    hide Mth, RangeHashes, Split, Path, PathRanges;
    if end - start > 1 {
      var k := Split(end - start);
      var s := d[start..end];
      assert s[..k] == d[start..start + k] && s[k..] == d[start + k..end];
      PathUnfold(h, s, m, k);
      PathRangesUnfold(m, start, end, k);
      if m < k {
        PathIs(h, d, m, start, start + k);
        HashesSnoc(h, d, PathRanges(m, start, start + k), (start + k, end));
      } else {
        PathIs(h, d, m - k, start + k, end);
        HashesSnoc(h, d, PathRanges(m - k, start + k, end), (start, start + k));
      }
    } else {
      NoHashes(h, d);
      NoPath(h, m, d[start..end]);
      NoPathRanges(m, start);
    }
  }

  lemma NoHashes(h: TreeHasher, d: seq<Bytes>)
    ensures RangeHashes(h, d, []) == []
  {
  }

  // ---------- The log ----------

  /** How much of the log the hash of a range speaks of: what there was when it was cached, or all. */
  ghost function Seen(asked: map<Range, nat>, size: nat, range: Range): nat {
    if range in asked then asked[range] else size
  }

  /** The answers for some ranges, as the cache and the log have them. */
  ghost predicate AnswersAre(
      h: TreeHasher, entries: seq<Bytes>, asked: map<Range, nat>, ranges: seq<Range>, hashes: seq<Bytes>)
    requires forall k :: k in asked ==> asked[k] <= |entries|
  {
    && |hashes| == |ranges|
    && forall i :: 0 <= i < |ranges| ==>
        Answer(h, entries[..Seen(asked, |entries|, ranges[i])], ranges[i]) == Some(hashes[i])
  }

  ghost predicate Fails(h: TreeHasher, entries: seq<Bytes>, asked: map<Range, nat>, ranges: seq<Range>)
    requires forall k :: k in asked ==> asked[k] <= |entries|
  {
    exists i :: 0 <= i < |ranges| && Answer(h, entries[..Seen(asked, |entries|, ranges[i])], ranges[i]).None?
  }

  lemma SameAnswers(h: TreeHasher, entries: seq<Bytes>, asked: map<Range, nat>, ranges: seq<Range>)
    requires forall k :: k in asked ==> asked[k] <= |entries|
    ensures forall a, b ::
      AnswersAre(h, entries, asked, ranges, a) && AnswersAre(h, entries, asked, ranges, b) ==> a == b
    ensures forall a :: AnswersAre(h, entries, asked, ranges, a) ==> !Fails(h, entries, asked, ranges)
  {
    hide Answer;
    forall a, b | AnswersAre(h, entries, asked, ranges, a) && AnswersAre(h, entries, asked, ranges, b)
      ensures a == b
    {
      forall i | 0 <= i < |ranges|
        ensures a[i] == b[i]
      {
        assert Some(a[i]) == Some(b[i]);
      }
    }
  }

  /** There is no answer exactly for a range without an entry. */
  lemma NoAnswer(h: TreeHasher, data: seq<Bytes>, range: Range)
    ensures Answer(h, data, range).None? <==> range.1 <= range.0 || |data| <= range.0
  {
    hide Mth, Descending;
  }

  lemma ReversedFails(h: TreeHasher, entries: seq<Bytes>, asked: map<Range, nat>, ranges: seq<Range>)
    requires (forall k :: k in asked ==> asked[k] <= |entries|) && Reversed(ranges)
    ensures Fails(h, entries, asked, ranges)
  {
    hide Answer;
    var i :| 0 <= i < |ranges| && ranges[i].1 <= ranges[i].0;
    NoAnswer(h, entries[..Seen(asked, |entries|, ranges[i])], ranges[i]);
  }

  // ---------- What a list of ranges leaves in the cache ----------

  /** No range past the end of the log has been hashed. */
  ghost predicate AllWithin(asked: map<Range, nat>) {
    forall k :: k in asked ==> k.1 <= asked[k]
  }

  /** What is cached after the ranges have been hashed up to the first one that fails. */
  ghost function Noted(h: TreeHasher, entries: seq<Bytes>, asked: map<Range, nat>, ranges: seq<Range>): map<Range, nat>
    requires forall k :: k in asked ==> asked[k] <= |entries|
    decreases |ranges|
  {
    if ranges == [] then asked
    else
      var n := Seen(asked, |entries|, ranges[0]);
      if Answer(h, entries[..n], ranges[0]).None? then asked
      else Noted(h, entries, asked[ranges[0] := n], ranges[1..])
  }

  predicate Crosses(range: Range, size: nat) {
    range.0 < size < range.1
  }

  /** One of the ranges reaches across the end of the log, and all before it lie within. */
  predicate Straddles(ranges: seq<Range>, size: nat) {
    ranges != []
    && (Crosses(ranges[0], size)
        || (ranges[0].0 < ranges[0].1 <= size && Straddles(ranges[1..], size)))
  }

  lemma {:induction false} NotedKeeps(
      h: TreeHasher, entries: seq<Bytes>, asked: map<Range, nat>, ranges: seq<Range>, k: Range)
    requires (forall k :: k in asked ==> asked[k] <= |entries|) && k in asked
    ensures k in Noted(h, entries, asked, ranges) && Noted(h, entries, asked, ranges)[k] == asked[k]
    decreases |ranges|
  {
    hide Answer;
    if ranges != [] {
      NotedKeeps(h, entries, asked[ranges[0] := Seen(asked, |entries|, ranges[0])], ranges[1..], k);
    }
  }

  /** A list of ranges leaves a hash past the log in the cache exactly when a range across the end of the log comes
      before the first range without an entry. */
  lemma {:induction false} NotedExactly(
      h: TreeHasher, entries: seq<Bytes>, asked: map<Range, nat>, ranges: seq<Range>)
    requires (forall k :: k in asked ==> asked[k] <= |entries|) && AllWithin(asked)
    ensures AllWithin(Noted(h, entries, asked, ranges)) <==> !Straddles(ranges, |entries|)
    decreases |ranges|
  {
    hide Answer;
    if ranges != [] {
      var r, n := ranges[0], Seen(asked, |entries|, ranges[0]);
      NoAnswer(h, entries[..n], r);
      if Crosses(r, |entries|) {
        NotedKeeps(h, entries, asked[r := n], ranges[1..], r);
      } else if r.0 < r.1 <= |entries| {
        NotedExactly(h, entries, asked[r := n], ranges[1..]);
      }
    }
  }

  lemma ReversedRanges()
    ensures SubproofRanges(5, 0, 2, true) == [(4, 5), (5, 6), (6, 8), (8, 2), (2, 4), (1, 2), (0, 1)]
  {
    hide Half, SubproofRanges;
    Halves();
    SubproofWhole(1, 4, false);
    SubproofUnfold(1, 4, 6, false, 1);
    SubproofUnfold(1, 4, 8, false, 2);
    SubproofUnfold(1, 4, 2, false, 4);
    SubproofUnfold(3, 2, 2, false, 2);
    SubproofUnfold(4, 1, 2, false, 1);
    SubproofUnfold(5, 0, 2, true, 1);
  }

  lemma Halves()
    ensures Half(2) == 1 && Half(4) == 2 && Half(1) == 1 && Half(0) == 2 && Half(-2) == 4
  {
    assert Digits(1) == [true] && Digits(3) == [true] + Digits(1);
    assert Pow2(1) == 2 && Pow2(2) == 4;
  }

  /** A consistency proof from 5 to 2, both within a log of 7 entries, fails and leaves a hash of entry 6 alone in the
      cache for the range of entries 6 and 7. In the log of 8 entries that hash is part of the audit path of entry 4,
      and is wrong there, or two hashed inputs collide. */
  lemma ReversedSpoils(h: TreeHasher, data: seq<Bytes>)
    requires h.Valid() && |data| == 8
    ensures Straddles(SubproofRanges(5, 0, 2, true), 7) && (6, 8) in PathRanges(4, 0, 8)
    ensures var asked := Noted(h, data[..7], map[], SubproofRanges(5, 0, 2, true));
      && (6, 8) in asked && asked[(6, 8)] == 7
      && (Answer(h, data[..7], (6, 8)) != Some(Mth(h, h.HashLeaves(data)[6..8]))
          || CollisionAmong(h, HashInputs(h, data[6..7]) + HashInputs(h, data[6..8])))
  {
    hide Answer, Mth, HashInputs, CollisionAmong, SubproofRanges, PathRanges;
    ReversedRanges();
    AnswerExactly(h, data, 7, (6, 8));
    var entries, ranges := data[..7], SubproofRanges(5, 0, 2, true);
    NoAnswer(h, entries[..7], (4, 5));
    NoAnswer(h, entries[..7], (5, 6));
    NoAnswer(h, entries[..7], (6, 8));
    var two := map[(4, 5) := 7, (5, 6) := 7];
    assert ranges[1..][0] == (5, 6) && ranges[1..][1..] == ranges[2..] && ranges[2..][0] == (6, 8);
    assert Noted(h, entries, map[], ranges) == Noted(h, entries, map[(4, 5) := 7], ranges[1..]);
    assert Noted(h, entries, map[(4, 5) := 7], ranges[1..]) == Noted(h, entries, two, ranges[2..]);
    NotedKeeps(h, entries, two[(6, 8) := 7], ranges[2..][1..], (6, 8));
    LaterPath();
  }

  lemma LaterPath()
    ensures PathRanges(4, 0, 8) == [(5, 6), (6, 8), (0, 4)]
  {
    assert Split(8) == 4 && Split(4) == 2 && Split(2) == 1;
    assert PathRanges(0, 4, 6) == [(5, 6)];
    assert PathRanges(0, 4, 8) == [(5, 6), (6, 8)];
  }

  lemma {:induction false} WithinNotStraddles(ranges: seq<Range>, size: nat)
    requires InLog(ranges, size)
    ensures !Straddles(ranges, size)
    decreases |ranges|
  {
    if ranges != [] {
      WithinNotStraddles(ranges[1..], size);
    }
  }

  class VerifiableLog {
    const h: TreeHasher
    var entries: seq<Bytes>
    var cache: map<Range, Bytes>
    /** How many entries the log had when a cached range was hashed. */
    ghost var asked: map<Range, nat>

    ghost predicate Valid()
      reads this
    {
      && h.Valid() && cache.Keys == asked.Keys
      && forall k :: k in cache ==>
          asked[k] <= |entries| && Some(cache[k]) == Answer(h, entries[..asked[k]], k)
    }

    /** No range past the end of the log has been hashed. */
    ghost predicate Clean()
      reads this
    {
      AllWithin(asked)
    }

    ghost function Leaves(): (d: seq<Bytes>)
      reads this
      ensures |d| == |entries|
    {
      h.HashLeaves(entries)
    }

    constructor (h: TreeHasher)
      requires h.Valid()
      ensures Valid() && Clean() && entries == [] && this.h == h
    {
      this.h := h;
      this.entries, this.cache, this.asked := [], map[], map[];
    }

    /** `append`. */
    method Append(entry: Bytes)
      requires Valid()
      modifies this`entries
      ensures Valid() && entries == old(entries) + [entry] && (old(Clean()) ==> Clean())
    {
      hide Answer;
      entries := entries + [entry];
      assert forall k :: k in asked ==> entries[..asked[k]] == old(entries)[..asked[k]];
    }

    /** `get_entries`, with both ends included. */
    method GetEntries(start: nat, end: nat) returns (r: seq<Bytes>)
      ensures start <= end < |entries| ==> r == entries[start..end + 1]
      ensures start >= |entries| || end < start ==> r == []
      ensures start < |entries| <= end ==> r == entries[start..]
    {
      r := Slice(entries, (start, end + 1));
    }

    /** `_calc_mth`; `None` stands for an IndexError. */
    method CalcMth(range: Range) returns (r: Option<Bytes>)
      requires Valid()
      modifies this`cache, this`asked
      ensures Valid()
      ensures r == Answer(h, entries[..Seen(old(asked), |entries|, range)], range)
      ensures asked == if r.Some? then old(asked)[range := Seen(old(asked), |entries|, range)] else old(asked)
    {
      hide Answer;
      if range in cache && cache[range] != [] {
        return Some(cache[range]);
      }
      NotEmpty(h, entries[..Seen(asked, |entries|, range)], range);
      assert entries[..|entries|] == entries;
      r := HashSlice(range);
      if r.Some? {
        cache := cache[range := r.value];
        asked := asked[range := |entries|];
      }
    }

    /** The hash of a range within the log, when nothing past its end has been hashed. */
    lemma SeenWithin(range: Range)
      requires Clean() && Valid() && range.0 < range.1 <= |entries|
      ensures Answer(h, entries[..Seen(asked, |entries|, range)], range) == Some(Mth(h, Leaves()[range.0..range.1]))
    {
      hide Answer, Mth;
      AnswerWithin(h, entries, Seen(asked, |entries|, range), range);
    }

    /** `get_tree_head`; `None` stands for an exception. The empty log has no hash. */
    method TreeHead(size: Option<nat>) returns (r: Option<(nat, Option<Bytes>)>)
      requires Valid()
      modifies this`cache, this`asked
      ensures Valid() && (old(Clean()) ==> Clean())
      ensures r.Some? <==> size.None? || size.value <= |entries|
      ensures r.Some? ==> r.value.0 == if size.Some? then size.value else |entries|
      ensures r.Some? && r.value.0 == 0 ==> r.value.1 == None
      ensures r.Some? && r.value.0 > 0 ==>
        r.value.1 == Answer(h, entries[..Seen(old(asked), |entries|, (0, r.value.0))], (0, r.value.0))
      ensures r.Some? && r.value.0 > 0 && old(Clean()) ==> r.value.1 == Some(Mth(h, Leaves()[..r.value.0]))
    {
      hide Answer, Mth;
      var n := if size.Some? then size.value else |entries|;
      if n > |entries| {
        return None;
      }
      var root := None;
      if n > 0 {
        if Clean() {
          SeenWithin((0, n));
        }
        root := CalcMth((0, n));
      }
      r := Some((n, root));
    }

    /** The hashes of a list of ranges, or the first exception. */
    method HashAll(ranges: seq<Range>) returns (r: Option<seq<Bytes>>)
      requires Valid()
      modifies this`cache, this`asked
      ensures Valid() && asked == Noted(h, entries, old(asked), ranges)
      ensures r.None? <==> Fails(h, entries, old(asked), ranges)
      ensures r.Some? ==> AnswersAre(h, entries, old(asked), ranges, r.value)
    {
      hide Answer, Mth;
      var hashes, i := [], 0;
      assert ranges[0..] == ranges;
      while i < |ranges|
        invariant i <= |ranges| && Valid() && AnswersAre(h, entries, old(asked), ranges[..i], hashes)
        invariant forall k :: Seen(asked, |entries|, k) == Seen(old(asked), |entries|, k)
        invariant Noted(h, entries, asked, ranges[i..]) == Noted(h, entries, old(asked), ranges)
      {
        assert ranges[i..][1..] == ranges[i + 1..];
        var hash := CalcMth(ranges[i]);
        if hash.None? {
          return None;
        }
        hashes, i := hashes + [hash.value], i + 1;
      }
      assert ranges[..i] == ranges;
      r := Some(hashes);
    }

    /** The same within the log, when nothing past its end has been hashed. */
    lemma CleanHashes(ranges: seq<Range>)
      requires Valid() && Clean() && InLog(ranges, |entries|)
      ensures AnswersAre(h, entries, asked, ranges, RangeHashes(h, Leaves(), ranges))
    {
      hide Answer, Mth;
      forall i | 0 <= i < |ranges|
        ensures Answer(h, entries[..Seen(asked, |entries|, ranges[i])], ranges[i])
             == Some(RangeHashes(h, Leaves(), ranges)[i])
      {
        SeenWithin(ranges[i]);
      }
    }

    /** `consistency_proof`; `None` stands for an exception. From 0, `_subproof` goes on for ever. */
    method ConsistencyProof(first: nat, second: nat) returns (r: Option<seq<Bytes>>)
      requires Valid()
      modifies this`cache, this`asked
      ensures Valid()
      ensures first == 0 ==> asked == old(asked) && r == if second == 0 then Some([]) else None
      ensures first > 0 ==>
        var ranges := SubproofRanges(first, 0, second, true);
        && asked == Noted(h, entries, old(asked), ranges)
        && (r.None? <==> Fails(h, entries, old(asked), ranges))
        && (r.Some? ==> AnswersAre(h, entries, old(asked), ranges, r.value))
      ensures (first == second ==> r == Some([])) && (first > second ==> r == None)
      ensures old(Clean()) ==>
        (Clean() <==> first == 0 || !Straddles(SubproofRanges(first, 0, second, true), |entries|))
      ensures old(Clean()) && 0 < first <= second <= |entries| ==>
        Clean() && r == Some(Proof(h, first, Leaves()[..second]))
    {
      hide Answer, Mth, RangeHashes, SubproofRanges, Noted, AllWithin, Straddles;
      if first == 0 {
        return if second == 0 then Some([]) else None;
      }
      var ranges := SubproofRanges(first, 0, second, true);
      if Clean() {
        NotedExactly(h, entries, asked, ranges);
        if first <= second <= |entries| {
          WithinNotStraddles(ranges, |entries|);
          CleanHashes(ranges);
          SubproofIs(h, Leaves(), first, 0, second, true);
        }
      }
      if first > second {
        SubproofReversed(first, 0, second, true);
        ReversedFails(h, entries, asked, ranges);
      } else if first == second {
        NothingToProve(first);
      }
      r := HashAll(ranges);
      SameAnswers(h, entries, old(asked), ranges);
    }

    /** `inclusion_proof`; `None` stands for an IndexError. */
    method InclusionProof(m: nat, n: nat) returns (r: Option<seq<Bytes>>)
      requires Valid()
      modifies this`cache, this`asked
      ensures Valid() && asked == Noted(h, entries, old(asked), PathRanges(m, 0, n))
      ensures r.None? <==> Fails(h, entries, old(asked), PathRanges(m, 0, n))
      ensures r.Some? ==> AnswersAre(h, entries, old(asked), PathRanges(m, 0, n), r.value)
      ensures n == 0 ==> r == None
      ensures old(Clean()) ==> (Clean() <==> !Straddles(PathRanges(m, 0, n), |entries|))
      ensures old(Clean()) && 0 < n <= |entries| ==> Clean() && r == Some(Path(h, m, Leaves()[..n]))
    {
      hide Answer, Mth, RangeHashes, PathRanges, Noted, AllWithin, Straddles;
      var ranges := PathRanges(m, 0, n);
      if Clean() {
        NotedExactly(h, entries, asked, ranges);
        if 0 < n <= |entries| {
          WithinNotStraddles(ranges, |entries|);
          CleanHashes(ranges);
          PathIs(h, Leaves(), m, 0, n);
        }
      }
      if n == 0 {
        PathReversed(m, 0, 0);
        ReversedFails(h, entries, asked, ranges);
      }
      r := HashAll(ranges);
      SameAnswers(h, entries, old(asked), ranges);
    }

    method HashSlice(range: Range) returns (r: Option<Bytes>)
      ensures r == Answer(h, entries, range)
    {
      r := HashStack(h, Slice(entries, range), Width(range));
    }
  }

  lemma NothingToProve(m: nat)
    requires m > 0
    ensures SubproofRanges(m, 0, m, true) == []
  {
  }

  /** A hash is never the empty string, so the test for a cached value finds every one. */
  lemma NotEmpty(h: TreeHasher, data: seq<Bytes>, range: Range)
    requires h.Valid()
    ensures Answer(h, data, range).Some? ==> |Answer(h, data, range).value| == h.digestSize
  {
    hide Mth, Descending, HashInputs;
    var s := Slice(data, range);
    if s != [] {
      var k := FirstOnStack(h, s);
      MthLength(h, s[..k]);
      MthLength(h, s);
    }
  }
}
