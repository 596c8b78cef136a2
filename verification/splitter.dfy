/** Oversize handling before delivery: whether a file must be split, the part
    size handed to `split -b`, and what `split -b` produces (consecutive pieces
    of that many bytes, the last holding the rest). */
module Splitter {

  /** `max_file_size`: the largest file delivered in one piece (bytes). */
  const MaxFileSize: nat := 2097152000

  /** Splitting happens only strictly above the ceiling. */
  predicate NeedsSplit(size: nat) {
    size > MaxFileSize
  }

  /** Integer ceiling of `a / b`: the least `q` with `q * b >= a`. Python's
      `math.ceil(x / y)` on the file sizes is taken as exact. */
  function CeilDiv(a: nat, b: nat): (q: nat)
    requires b > 0
    ensures q * b >= a
    ensures q > 0 ==> (q - 1) * b < a
  {
    var q := (a + b - 1) / b;
    assert a + b - 1 == q * b + (a + b - 1) % b;
    assert (q - 1) * b == q * b - b;
    q
  }

  lemma MulLeft(x: nat, y: nat, b: nat)
    requires x <= y
    ensures x * b <= y * b
  {
  }

  /** `CeilDiv` is the least such quotient. */
  lemma CeilDivLeast(a: nat, b: nat, k: nat)
    requires b > 0 && k * b >= a
    ensures k >= CeilDiv(a, b)
  {
    var q := CeilDiv(a, b);
    if k < q {
      MulLeft(k, q - 1, b);
    }
  }

  /** The two defining properties determine the ceiling. */
  lemma CeilDivUnique(a: nat, b: nat, k: nat)
    requires b > 0 && k * b >= a && (k > 0 ==> (k - 1) * b < a)
    ensures k == CeilDiv(a, b)
  {
    var q := CeilDiv(a, b);
    CeilDivLeast(a, b, k);
    if k > q {
      MulLeft(q, k - 1, b);
    }
  }

  /** Another `b` units need exactly one more divisor. */
  lemma CeilDivStep(a: nat, b: nat)
    requires b > 0
    ensures CeilDiv(a + b, b) == CeilDiv(a, b) + 1
  {
    var q := CeilDiv(a, b);
    assert (q + 1) * b == q * b + b;
    if q > 0 {
      assert (q - 1) * b == q * b - b;
    }
    CeilDivUnique(a + b, b, q + 1);
  }

  /** `part_size`: the ceiling itself with fixed splitting; with equal
      splitting `ceil(S / ceil(S / C))`. In both modes no part exceeds the
      ceiling, and equal splitting yields exactly `ceil(S / C)` parts, the
      fewest possible, with all but the last of equal size. */
  function PartSize(size: nat, ceiling: nat, equal: bool): (p: nat)
    requires 0 < ceiling < size
    ensures 0 < p <= ceiling
    ensures !equal ==> p == ceiling
    ensures equal ==> CeilDiv(size, p) == CeilDiv(size, ceiling)
  {
    if equal then
      var n := CeilDiv(size, ceiling);
      var p := CeilDiv(size, n);
      CeilDivLeast(size, n, ceiling);
      var m := CeilDiv(size, p);
      CeilDivLeast(size, p, n);
      MulLeft(p, ceiling, m);
      CeilDivLeast(size, ceiling, m);
      p
    else ceiling
  }

  /** Sizes of the pieces `split -b p` writes for a file of `size` bytes. */
  function ChunkSizes(size: nat, p: nat): (r: seq<nat>)
    requires p > 0
    ensures forall i :: 0 <= i < |r| ==> 0 < r[i] <= p
    ensures forall i :: 0 <= i < |r| - 1 ==> r[i] == p
    ensures Sum(r) == size
    decreases size
  {
    if size == 0 then []
    else if size <= p then [size]
    else [p] + ChunkSizes(size - p, p)
  }

  function Sum(xs: seq<nat>): nat {
    if |xs| == 0 then 0 else xs[0] + Sum(xs[1..])
  }

  /** One piece more for every further `p` bytes: the count is `ceil(size / p)`. */
  lemma {:induction false} ChunkCount(size: nat, p: nat)
    requires p > 0
    ensures |ChunkSizes(size, p)| == CeilDiv(size, p)
    decreases size
  {
    if size == 0 {
      CeilDivUnique(size, p, 0);
    } else if size <= p {
      CeilDivUnique(size, p, 1);
    } else {
      ChunkCount(size - p, p);
      assert |ChunkSizes(size, p)| == |ChunkSizes(size - p, p)| + 1;
      CeilDivStep(size - p, p);
    }
  }

  /** The ceiling overshoots by less than one divisor. */
  lemma CeilDivSlack(a: nat, b: nat)
    requires b > 0
    ensures CeilDiv(a, b) * b < a + b
  {
  }

  /** Equal splitting is balanced: the last part falls short of the others by
      fewer bytes than there are parts. */
  lemma EqualSplitBalanced(size: nat, ceiling: nat)
    requires 0 < ceiling < size
    ensures var p := PartSize(size, ceiling, true);
      var parts := ChunkSizes(size, p);
      |parts| == CeilDiv(size, ceiling) && p - parts[|parts| - 1] < |parts|
  {
    var n := CeilDiv(size, ceiling);
    var p := PartSize(size, ceiling, true);
    assert p == CeilDiv(size, n);
    ChunkCount(size, p);
    LastChunk(size, p);
    CeilDivSlack(size, n);
    Overshoot(size, n, p);
  }

  lemma Overshoot(size: nat, n: nat, p: nat)
    requires n > 0 && p * n < size + n
    ensures p - (size - (n - 1) * p) < n
  {
  }

  lemma MulPred(n: nat, p: nat)
    requires n > 0
    ensures n * p == (n - 1) * p + p
  {
  }

  /** The last piece holds what the full pieces before it leave. */
  lemma {:induction false} LastChunk(size: nat, p: nat)
    requires p > 0 && size > 0
    ensures var parts := ChunkSizes(size, p);
      |parts| > 0 && parts[|parts| - 1] == size - (|parts| - 1) * p
    decreases size
  {
    if size > p {
      LastChunk(size - p, p);
      var rest := ChunkSizes(size - p, p);
      var parts := ChunkSizes(size, p);
      var n := |rest|;
      assert parts == [p] + rest;
      assert |parts| - 1 == n && parts[|parts| - 1] == rest[n - 1];
      assert rest[n - 1] == size - p - (n - 1) * p;
      MulPred(n, p);
    }
  }

  function Flatten<T>(parts: seq<seq<T>>): seq<T> {
    if |parts| == 0 then [] else parts[0] + Flatten(parts[1..])
  }

  /** `split -b p` on the file's bytes: concatenating the pieces in order
      gives the file back byte for byte, and the pieces have the sizes
      `ChunkSizes` gives. */
  function Chunk<T>(data: seq<T>, p: nat): (parts: seq<seq<T>>)
    requires p > 0
    ensures Flatten(parts) == data
    ensures |parts| == |ChunkSizes(|data|, p)|
    ensures forall i :: 0 <= i < |parts| ==> |parts[i]| == ChunkSizes(|data|, p)[i]
    decreases |data|
  {
    if |data| == 0 then []
    else if |data| <= p then [data]
    else
      var rest := Chunk(data[p..], p);
      assert data == data[..p] + data[p..];
      [data[..p]] + rest
  }

  /** The three parts of a 5,000,000,000-byte file under fixed splitting. */
  lemma FixedSplitExample()
    ensures NeedsSplit(5000000000)
    ensures ChunkSizes(5000000000, PartSize(5000000000, MaxFileSize, false))
      == [2097152000, 2097152000, 805696000]
  {
  }

  /** The same file under equal splitting: three parts of nearly equal size. */
  lemma EqualSplitExample()
    ensures PartSize(5000000000, MaxFileSize, true) == 1666666667
    ensures ChunkSizes(5000000000, 1666666667) == [1666666667, 1666666667, 1666666666]
  {
  }
}
