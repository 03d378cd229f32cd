/** The strided walk over a memory array that both forwarders use to put load on the cache. */
module StridedWalk {
  import opened Bytes
  import opened Arithmetic

  /** The index after k turns of index := (index + stride) % size. */
  function Index(start: nat, stride: nat, size: nat, k: nat): nat
    requires size > 0
  {
    if k == 0 then start else (Index(start, stride, size, k - 1) + stride) % size
  }

  /** Euclid's algorithm. */
  function Gcd(a: nat, b: nat): nat
    decreases b
  {
    if b == 0 then a else Gcd(b, a % b)
  }

  /** Number of turns after which the walk is back where it started. */
  function Period(stride: nat, size: nat): nat
    requires size > 0
  {
    GcdPositive(stride, size);
    size / Gcd(stride, size)
  }

  // ----- arithmetic

  lemma {:induction false} GcdPositive(a: nat, b: nat)
    requires b > 0
    ensures Gcd(a, b) > 0
    decreases b
  {
    if a % b > 0 {
      GcdPositive(b, a % b);
    }
  }

  /** Bezout's identity, with the quotients by the gcd. */
  lemma {:induction false} Bezout(a: nat, b: nat) returns (u: int, v: int, x: int, y: int)
    requires b > 0
    ensures var g := Gcd(a, b); g > 0 && a == g * x && b == g * y && u * a + v * b == g
    decreases b
  {
    var r := a % b;
    var q := a / b;
    assert a == b * q + r;
    assert Gcd(a, b) == Gcd(b, r) && (r == 0 ==> Gcd(b, r) == b);
    hide Gcd;
    if r == 0 {
      u, v, x, y := 0, 1, q, 1;
    } else {
      var u', v', x', y' := Bezout(b, r);
      u, v := v', u' - q * v';
      x, y := x' * q + y', x';
      BezoutStep(a, b, q, r, u', v', x', y', Gcd(b, r));
    }
  }

  lemma BezoutStep(a: int, b: int, q: int, r: int, u: int, v: int, x: int, y: int, g: int)
    requires a == b * q + r && b == g * x && r == g * y && u * b + v * r == g
    ensures a == g * (x * q + y) && v * a + (u - q * v) * b == g
  {
    calc {
      v * a + (u - q * v) * b;
      v * (b * q + r) + (u - q * v) * b;
      (v * (b * q) + v * r) + (u * b - q * v * b);
      { assert v * (b * q) == q * v * b; }
      v * r + u * b;
    }
    calc {
      g * (x * q + y);
      g * (x * q) + g * y;
      { assert g * (x * q) == (g * x) * q; }
      b * q + r;
    }
  }

  // ----- the walk

  lemma {:induction false} IndexClosed(start: nat, stride: nat, size: nat, k: nat)
    requires start < size
    ensures Index(start, stride, size, k) == (start + k * stride) % size
    ensures Index(start, stride, size, k) < size
  {
    hide Index;
    if k > 0 {
      IndexClosed(start, stride, size, k - 1);
      IndexStep(start, stride, size, k);
    } else {
      IndexStarts(start, stride, size);
    }
  }

  lemma IndexStarts(start: nat, stride: nat, size: nat)
    requires start < size
    ensures Index(start, stride, size, 0) == (start + 0 * stride) % size == start
  {
    DivModUnique(start, 0, start, size);
  }

  lemma IndexStep(start: nat, stride: nat, size: nat, k: nat)
    requires start < size && k > 0 && Index(start, stride, size, k - 1) == (start + (k - 1) * stride) % size
    ensures Index(start, stride, size, k) == (start + k * stride) % size < size
  {
    var a := start + (k - 1) * stride;
    assert Index(start, stride, size, k) == (a % size + stride) % size;
    hide Index;
    assert start + k * stride == a + stride;
    ModOfSum(a, stride, size);
    ModBounds(a + stride, size);
  }

  lemma ModBounds(a: int, n: nat)
    requires n > 0
    ensures 0 <= a % n < n
  {
  }

  lemma ModOfSum(a: int, b: int, n: nat)
    requires n > 0
    ensures (a % n + b) % n == (a + b) % n
  {
    var q, r := a / n, a % n;
    assert a == q * n + r;
    ModPlusMultiple(r + b, q, n);
  }

  /** A number of turns d brings the walk back exactly if it is a multiple of the period. */
  lemma ReturnsIffMultiple(stride: nat, size: nat, d: int)
    requires size > 0
    ensures Period(stride, size) > 0
    ensures (d * stride) % size == 0 <==> d % Period(stride, size) == 0
  {
    var u, v, x, y := Bezout(stride, size);
    var g := Gcd(stride, size);
    PeriodIs(stride, size, g, y);
    if (d * stride) % size == 0 {
      var q := (d * stride) / size;
      assert d * stride == q * size;
      BackMeansMultiple(g, x, y, u, v, d, q);
      MulMod(u * q + d * v, y);
    }
    if d % y == 0 {
      var e := d / y;
      assert d == e * y;
      MultipleMeansBack(g, x, y, e);
      MulMod(e * x, size);
    }
  }

  lemma PeriodIs(stride: nat, size: nat, g: nat, y: int)
    requires size > 0 && g == Gcd(stride, size) > 0 && size == g * y
    ensures Period(stride, size) == y > 0
  {
    DivModUnique(size, y, 0, g);
    var q := size / g;
    assert size == q * g;
    CancelFactor(g, q, y);
  }

  lemma BackMeansMultiple(g: nat, x: int, y: int, u: int, v: int, d: int, q: int)
    requires g > 0 && u * (g * x) + v * (g * y) == g && d * (g * x) == q * (g * y)
    ensures d == (u * q + d * v) * y
  {
    assert u * (g * x) == g * (u * x) && v * (g * y) == g * (v * y);
    CancelFactor(g, u * x + v * y, 1);
    assert d * (g * x) == g * (d * x) && q * (g * y) == g * (q * y);
    CancelFactor(g, d * x, q * y);
    UnitExpansion(x, y, u, v, d, q);
  }

  lemma UnitExpansion(x: int, y: int, u: int, v: int, d: int, q: int)
    requires u * x + v * y == 1 && d * x == q * y
    ensures d == (u * q + d * v) * y
  {
    calc {
      d;
      d * (u * x + v * y);
      d * (u * x) + d * (v * y);
      { assert d * (u * x) == u * (d * x); }
      u * (q * y) + d * (v * y);
      { assert u * (q * y) == (u * q) * y && d * (v * y) == (d * v) * y; }
      (u * q + d * v) * y;
    }
  }

  lemma MultipleMeansBack(g: int, x: int, y: int, e: int)
    ensures (e * y) * (g * x) == (e * x) * (g * y)
  {
    assert (e * y) * (g * x) == e * (y * (g * x));
    assert y * (g * x) == x * (g * y);
    assert e * (x * (g * y)) == (e * x) * (g * y);
  }

  /** Two turns of the walk land on the same cell exactly if their distance is a multiple of
      size / gcd(stride, size). */
  lemma SameCellIff(start: nat, stride: nat, size: nat, i: nat, j: nat)
    requires start < size
    ensures Period(stride, size) > 0
    ensures Index(start, stride, size, i) == Index(start, stride, size, j) <==> (j - i) % Period(stride, size) == 0
  {
    IndexClosed(start, stride, size, i);
    IndexClosed(start, stride, size, j);
    ModDifference(start + i * stride, start + j * stride, size);
    assert (start + j * stride) - (start + i * stride) == (j - i) * stride;
    ReturnsIffMultiple(stride, size, j - i);
  }

  // ----- which cells are touched

  /** The cells of the first count turns. */
  function Touched(start: nat, stride: nat, size: nat, count: nat): set<nat>
    requires size > 0
  {
    set k | 0 <= k < count :: Index(start, stride, size, k)
  }

  /** Every cell that is congruent to the start modulo the gcd is reached within one period. */
  lemma CellReached(start: nat, stride: nat, size: nat, c: nat) returns (k: nat)
    requires start < size && c < size
    requires Gcd(stride, size) > 0 && (c - start) % Gcd(stride, size) == 0
    ensures Period(stride, size) > 0 && k < Period(stride, size)
    ensures Index(start, stride, size, k) == c
  {
    var u, v, x, y := Bezout(stride, size);
    var g := Gcd(stride, size);
    PeriodIs(stride, size, g, y);
    var w := (c - start) / g;
    assert c - start == w * g;
    var z := (w * u) / y;
    k := (w * u) % y;
    assert w * u == z * y + k;
    ReachArithmetic(start, stride, size, c, g, x, y, u, v, w, z, k);
    ModPlusMultiple(c, -(w * v + z * x), size);
    IndexClosed(start, stride, size, k);
    DivModUnique(c, 0, c, size);
  }

  lemma ReachArithmetic(start: int, stride: int, size: int, c: int, g: int, x: int, y: int, u: int, v: int, w: int,
                        z: int, k: int)
    requires stride == g * x && size == g * y && u * stride + v * size == g
    requires c - start == w * g && w * u == z * y + k
    ensures start + k * stride == c + (-(w * v + z * x)) * size
  {
    calc {
      k * stride;
      (w * u - z * y) * stride;
      (w * u) * stride - (z * y) * stride;
      { assert (w * u) * stride == w * (u * stride); }
      w * (g - v * size) - (z * y) * stride;
      { assert w * (g - v * size) == w * g - (w * v) * size; }
      w * g - (w * v) * size - (z * y) * stride;
      { MultipleMeansBack(g, x, y, z); }
      w * g - (w * v) * size - (z * x) * size;
      w * g - (w * v + z * x) * size;
    }
    assert (-(w * v + z * x)) * size == -((w * v + z * x) * size);
  }

  predicate Congruent(c: int, start: int, g: nat)
    requires g > 0
  {
    (c - start) % g == 0
  }

  /** No other cell is ever reached. */
  lemma ReachedIsCongruent(start: nat, stride: nat, size: nat, k: nat)
    requires start < size
    ensures Gcd(stride, size) > 0 && Congruent(Index(start, stride, size, k), start, Gcd(stride, size))
  {
    hide Index, Gcd;
    var u, v, x, y := Bezout(stride, size);
    IndexClosed(start, stride, size, k);
    var a := start + k * stride;
    var q := a / size;
    assert a == q * size + a % size;
    CongruentArithmetic(start, stride, size, k, Gcd(stride, size), x, y, q, a % size);
  }

  lemma CongruentArithmetic(start: int, stride: int, size: int, k: int, g: nat, x: int, y: int, q: int, c: int)
    requires g > 0 && stride == g * x && size == g * y && start + k * stride == q * size + c
    ensures Congruent(c, start, g)
  {
    assert k * (g * x) == (k * x) * g && q * (g * y) == (q * y) * g;
    assert c - start == (k * x - q * y) * g;
    MulMod(k * x - q * y, g);
  }

  /** From one period on, exactly the cells congruent to the start modulo the gcd are touched. */
  lemma TouchedIsResidueClass(start: nat, stride: nat, size: nat, count: nat)
    requires start < size && count >= Period(stride, size)
    ensures Gcd(stride, size) > 0
    ensures Touched(start, stride, size, count)
            == set c | 0 <= c < size && Congruent(c, start, Gcd(stride, size))
  {
    GcdPositive(stride, size);
    var g := Gcd(stride, size);
    var all := set c | 0 <= c < size && Congruent(c, start, g);
    forall k | 0 <= k < count
      ensures Index(start, stride, size, k) in all
    {
      ReachedIsCongruent(start, stride, size, k);
      IndexClosed(start, stride, size, k);
    }
    forall c | c in all
      ensures c in Touched(start, stride, size, count)
    {
      var k := CellReached(start, stride, size, c);
    }
  }

  /** Within one period every turn touches a new cell. */
  lemma {:induction false} TouchedCount(start: nat, stride: nat, size: nat, count: nat)
    requires start < size && count <= Period(stride, size)
    ensures |Touched(start, stride, size, count)| == count
  {
    if count > 0 {
      var k := count - 1;
      TouchedCount(start, stride, size, k);
      var before, c := Touched(start, stride, size, k), Index(start, stride, size, k);
      forall i | 0 <= i < k
        ensures Index(start, stride, size, i) != c
      {
        SameCellIff(start, stride, size, i, k);
        SmallModIff(k - i, Period(stride, size));
      }
      assert Touched(start, stride, size, count) == before + {c};
    }
  }

  // ----- the walk in place

  /** The value written at turn k; a byte that wraps. */
  function Value(val: nat, k: nat): byte {
    (val + k) % 0x100
  }

  /** The array after count turns: turn k writes value Value(val, k) to the cell of index k. */
  function Written(mem: seq<byte>, start: nat, stride: nat, val: nat, count: nat): (r: seq<byte>)
    requires |mem| > 0 && start < |mem|
    ensures |r| == |mem|
  {
    if count == 0 then mem
    else
      IndexClosed(start, stride, |mem|, count - 1);
      Written(mem, start, stride, val, count - 1)[Index(start, stride, |mem|, count - 1) := Value(val, count - 1)]
  }

  lemma NextTurn(mem: seq<byte>, start: nat, stride: nat, val: nat, j: nat)
    requires |mem| > 0 && start < |mem|
    ensures Index(start, stride, |mem|, 0) == start && Written(mem, start, stride, val, 0) == mem
    ensures Index(start, stride, |mem|, j) < |mem|
    ensures Index(start, stride, |mem|, j + 1) == (Index(start, stride, |mem|, j) + stride) % |mem|
    ensures Written(mem, start, stride, val, j + 1)
            == Written(mem, start, stride, val, j)[Index(start, stride, |mem|, j) := Value(val, j)]
  {
    hide Value;
    IndexClosed(start, stride, |mem|, j);
  }

  lemma NextValue(val: nat, j: nat)
    ensures Value(val, j + 1) == (Value(val, j) as nat + 1) % 0x100
  {
  }

  /** One access: write, then advance value and index. */
  method AccessOnce(mem: array<byte>, memArrIndex: nat, nextMemVal: byte, stride: nat) returns (index: nat, val: byte)
    requires memArrIndex < mem.Length
    modifies mem
    ensures mem[..] == old(mem[..])[memArrIndex := nextMemVal]
    ensures index == (memArrIndex + stride) % mem.Length && val == (nextMemVal as nat + 1) % 0x100
  {
    mem[memArrIndex] := nextMemVal;
    val := (nextMemVal as nat + 1) % 0x100;
    index := (memArrIndex + stride) % mem.Length;
  }

  /** The accesses of `em_main_loop` for one received burst; index and next value live on between bursts. */
  method AccessMemory(mem: array<byte>, memArrIndex: nat, nextMemVal: byte, accesses: nat, stride: nat)
    returns (index: nat, val: byte)
    requires memArrIndex < mem.Length
    modifies mem
    ensures mem[..] == Written(old(mem[..]), memArrIndex, stride, nextMemVal, accesses)
    ensures index == Index(memArrIndex, stride, mem.Length, accesses) < mem.Length
    ensures val == Value(nextMemVal, accesses) == (nextMemVal + accesses) % 0x100
  {
    ghost var was := mem[..];
    assert Value(nextMemVal, 0) == nextMemVal;
    hide Index, Written, Value;
    index, val := memArrIndex, nextMemVal;
    NextTurn(was, memArrIndex, stride, nextMemVal, 0);
    for j := 0 to accesses
      invariant index == Index(memArrIndex, stride, mem.Length, j) < mem.Length
      invariant val == Value(nextMemVal, j)
      invariant mem[..] == Written(was, memArrIndex, stride, nextMemVal, j)
    {
      NextTurn(was, memArrIndex, stride, nextMemVal, j);
      NextTurn(was, memArrIndex, stride, nextMemVal, j + 1);
      NextValue(nextMemVal, j);
      index, val := AccessOnce(mem, index, val, stride);
    }
  }

  lemma {:induction false} IndexContinues(start: nat, stride: nat, size: nat, i: nat, j: nat)
    requires size > 0
    ensures Index(Index(start, stride, size, i), stride, size, j) == Index(start, stride, size, i + j)
  {
    if j > 0 {
      IndexContinues(start, stride, size, i, j - 1);
    }
  }

  lemma ValueContinues(val: nat, i: nat, j: nat)
    ensures Value(Value(val, i), j) == Value(val, i + j)
  {
  }

  /** Accesses made in several bursts form one walk. */
  lemma {:induction false} WalkContinues(mem: seq<byte>, start: nat, stride: nat, val: nat, i: nat, j: nat)
    requires |mem| > 0 && start < |mem|
    ensures Index(start, stride, |mem|, i) < |mem|
    ensures Written(Written(mem, start, stride, val, i), Index(start, stride, |mem|, i), stride, Value(val, i), j)
            == Written(mem, start, stride, val, i + j)
    decreases j
  {
    hide Index, Value;
    IndexClosed(start, stride, |mem|, i);
    if j > 0 {
      WalkContinues(mem, start, stride, val, i, j - 1);
      IndexContinues(start, stride, |mem|, i, j - 1);
      ValueContinues(val, i, j - 1);
      assert i + j - 1 == i + (j - 1);
    }
  }

  /** A cell holds what the last turn that hit it has written. */
  lemma {:induction false} WrittenLast(mem: seq<byte>, start: nat, stride: nat, val: nat, count: nat, k: nat)
    requires |mem| > 0 && start < |mem| && k < count
    requires forall j :: k < j < count ==> Index(start, stride, |mem|, j) != Index(start, stride, |mem|, k)
    ensures Index(start, stride, |mem|, k) < |mem|
    ensures Written(mem, start, stride, val, count)[Index(start, stride, |mem|, k)] == (val + k) % 0x100
  {
    hide Index;
    IndexClosed(start, stride, |mem|, k);
    if k < count - 1 {
      WrittenLast(mem, start, stride, val, count - 1, k);
      IndexClosed(start, stride, |mem|, count - 1);
    }
  }

  /** Within one period no turn overwrites what an earlier one wrote. */
  lemma WrittenOnce(mem: seq<byte>, start: nat, stride: nat, val: nat, count: nat, k: nat)
    requires |mem| > 0 && start < |mem| && k < count <= Period(stride, |mem|)
    ensures Index(start, stride, |mem|, k) < |mem|
    ensures Written(mem, start, stride, val, count)[Index(start, stride, |mem|, k)] == (val + k) % 0x100
  {
    hide Period, Index, Written;
    forall j | k < j < count
      ensures Index(start, stride, |mem|, j) != Index(start, stride, |mem|, k)
    {
      SameCellIff(start, stride, |mem|, k, j);
      SmallModIff(j - k, Period(stride, |mem|));
    }
    WrittenLast(mem, start, stride, val, count, k);
  }

  /** The last turn of a non-empty walk is visible, and the first one too if the walk is no longer than a period. */
  lemma WalkIsVisible(mem: seq<byte>, start: nat, stride: nat, val: nat, count: nat)
    requires |mem| > 0 && start < |mem| && count > 0
    ensures var last := Index(start, stride, |mem|, count - 1);
            last < |mem| && Written(mem, start, stride, val, count)[last] == (val + count - 1) % 0x100
    ensures count <= Period(stride, |mem|) ==> Written(mem, start, stride, val, count)[start] == val % 0x100
  {
    hide Period, Index, Written;
    StartCell(start, stride, |mem|);
    WrittenLast(mem, start, stride, val, count, count - 1);
    if count <= Period(stride, |mem|) {
      WrittenOnce(mem, start, stride, val, count, 0);
    }
  }

  lemma StartCell(start: nat, stride: nat, size: nat)
    requires size > 0
    ensures Index(start, stride, size, 0) == start
  {
  }

  /** Cells that are not touched keep their contents. */
  lemma {:induction false} WrittenElsewhere(mem: seq<byte>, start: nat, stride: nat, val: nat, count: nat, c: nat)
    requires |mem| > 0 && start < |mem| && c < |mem| && c !in Touched(start, stride, |mem|, count)
    ensures Written(mem, start, stride, val, count)[c] == mem[c]
  {
    if count > 0 {
      assert Index(start, stride, |mem|, count - 1) in Touched(start, stride, |mem|, count);
      assert Touched(start, stride, |mem|, count - 1) <= Touched(start, stride, |mem|, count);
      WrittenElsewhere(mem, start, stride, val, count - 1, c);
    }
  }

  // ----- the two configurations of the repository

  const EXP_MEM_STRIDE_SIZE := 1001 * 15
  const EXP_MEM_ARR_SIZE := 4194304

  /** l3fwd: the stride is coprime to the array size, so every byte is touched once per cycle. */
  lemma L3fwdWalkTouchesEveryByte(start: nat, count: nat)
    requires start < EXP_MEM_ARR_SIZE && count >= EXP_MEM_ARR_SIZE
    ensures Period(EXP_MEM_STRIDE_SIZE, EXP_MEM_ARR_SIZE) == EXP_MEM_ARR_SIZE
    ensures forall c :: 0 <= c < EXP_MEM_ARR_SIZE ==> c in Touched(start, EXP_MEM_STRIDE_SIZE, EXP_MEM_ARR_SIZE, count)
  {
    assert Gcd(15015, 4194304) == Gcd(4194304, 15015) == Gcd(15015, 5119) == Gcd(5119, 4777) == Gcd(4777, 342);
    assert Gcd(4777, 342) == Gcd(342, 331) == Gcd(331, 11) == Gcd(11, 1) == Gcd(1, 0) == 1;
    TouchedIsResidueClass(start, EXP_MEM_STRIDE_SIZE, EXP_MEM_ARR_SIZE, count);
  }

  const REFLECT_STRIDE := 1024 * 1024 * 1
  const REFLECT_MEM_SIZE := 1024 * 1024 * 1000

  /** reflect: the stride divides the array size, so only 1000 cells are ever touched. */
  lemma ReflectWalkTouchesThousandCells(count: nat)
    requires count >= 1000
    ensures |Touched(0, REFLECT_STRIDE, REFLECT_MEM_SIZE, count)| == 1000
  {
    assert Gcd(1048576, 1048576000) == Gcd(1048576000, 1048576) == Gcd(1048576, 0) == 1048576;
    TouchedIsResidueClass(0, REFLECT_STRIDE, REFLECT_MEM_SIZE, count);
    TouchedIsResidueClass(0, REFLECT_STRIDE, REFLECT_MEM_SIZE, 1000);
    TouchedCount(0, REFLECT_STRIDE, REFLECT_MEM_SIZE, 1000);
  }
}
