/** What the small language's words mean: memory that holds what is stored, sums that wrap, and guards read bit by bit. */
module Words {
  import opened Prelude
  import opened Cfg
  import opened Segments
  import opened GuardEval

  // ---- memory and arithmetic ----------------------------------------------------------------------------------------

  lemma {:induction false} WriteKeepsOthers(m: Mem, at: nat, w: nat, v: nat, k: nat)
    requires at + w <= |m| && k < |m| && !(at <= k < at + w)
    ensures WriteBytes(m, at, w, v)[k] == m[k]
    decreases w
  {
    if w > 0 { WriteKeepsOthers(m[at := v % 256], at + 1, w - 1, v / 256, k); }
  }

  lemma {:induction false} ReadLooksInside(m: Mem, n: Mem, at: nat, w: nat)
    requires at + w <= |m| && |m| == |n| && forall k | at <= k < at + w :: m[k] == n[k]
    ensures ReadBytes(m, at, w) == ReadBytes(n, at, w)
    decreases w
  {
    if w > 0 { ReadLooksInside(m, n, at + 1, w - 1); }
  }

  lemma LowByte(v: nat, p: nat)
    requires p > 0
    ensures v % 256 + 256 * ((v / 256) % p) == v % (256 * p)
  {
    var q, r := v / 256, v % 256;
    var d, e := q / p, q % p;
    assert v == 256 * (d * p + e) + r;
    assert v == d * (256 * p) + (256 * e + r);
    assert 0 <= 256 * e + r < 256 * p;
    Remainder(v, 256 * p, d, 256 * e + r);
  }

  lemma Remainder(v: int, p: nat, d: int, r: nat)
    requires v == d * p + r && r < p
    ensures v % p == r && v / p == d
  {
    var x, y := v / p, v % p;
    assert (x - d) * p == r - y;
    if x > d { Grows(x - d, p); }
    if x < d { Grows(d - x, p); }
  }

  lemma Grows(n: nat, p: nat)
    requires n > 0
    ensures n * p >= p
  {
  }

  /** A word that is written is read back, cut to its width, and every other byte stays. */
  lemma {:induction false} WriteThenRead(m: Mem, at: nat, w: nat, v: nat)
    requires at + w <= |m|
    ensures ReadBytes(WriteBytes(m, at, w, v), at, w) == v % Pow256(w)
    ensures forall k | 0 <= k < |m| && !(at <= k < at + w) :: WriteBytes(m, at, w, v)[k] == m[k]
    decreases w
  {
    forall k | 0 <= k < |m| && !(at <= k < at + w) ensures WriteBytes(m, at, w, v)[k] == m[k] {
      WriteKeepsOthers(m, at, w, v, k);
    }
    if w > 0 {
      var n := m[at := v % 256];
      WriteThenRead(n, at + 1, w - 1, v / 256);
      LowByte(v, Pow256(w - 1));
    }
  }

  lemma SameRemainder(x: int, y: int, q: int, p: nat)
    requires p > 0 && x == y + q * p
    ensures x % p == y % p
  {
    var d, r := y / p, y % p;
    assert x == (d + q) * p + r;
    Remainder(x, p, d + q, r);
  }

  /** A store that is in bounds is seen by the next load of the same address, and touches no byte outside its word. */
  lemma StoreThenLoad(hs: Helpers, p: Operand, v: Operand, w: nat, d: Reg, regs: Regs, m: Mem)
    requires Eval(p, regs).Some? && InBounds(Eval(p, regs).value, w, m) && Eval(v, regs).Some? && Eval(v, regs).value.Int?
    ensures var at, e := Eval(p, regs).value.offset, ExecAll(hs, [Store(p, v, w), Load(d, p, w)], regs, m);
            && e.Next? && e.regs == regs[d := Int(Eval(v, regs).value.n % Pow256(w))] && |e.mem| == |m|
            && forall k | 0 <= k < |m| && !(at <= k < at + w) :: e.mem[k] == m[k]
  {
    hide Pow256;
    var code := [Store(p, v, w), Load(d, p, w)];
    var at, n := Eval(p, regs).value.offset, Eval(v, regs).value.n;
    var m' := WriteBytes(m, at, w, n);
    WriteThenRead(m, at, w, n);
    assert ExecAll(hs, code, regs, m) == ExecAll(hs, code[1..], regs, m');
    assert code[1..][0] == code[1] && code[1..][1..] == [];
    var regs' := regs[d := Int(n % Pow256(w))];
    assert ExecInstr(hs, code[1], regs, m') == Next(regs', m');
    assert ExecAll(hs, code[1..], regs, m') == ExecAll(hs, [], regs', m');
  }

  /** Of two words exactly one is equal, smaller or greater, and inequality is the opposite of equality. */
  lemma ComparesExclude(a: nat, b: nat)
    ensures Compare(Eq, a, b) + Compare(Ult, a, b) + Compare(Ugt, a, b) == Compare(Eq, a, b) + Compare(Ne, a, b) == 1
    ensures Compare(Eq, a, a) == 1 && Compare(Ult, a, b) == Compare(Ugt, b, a) && Compare(Ult, a, a + b) == Compare(Ne, b, 0)
  {
  }

  /** Sums and differences wrap at the width: one undoes the other. */
  lemma ArithmeticWraps(a: nat, b: nat, w: nat)
    ensures Arith(Add, a, b, w) < Pow256(w) && (a + b < Pow256(w) ==> Arith(Add, a, b, w) == a + b)
    ensures Arith(Sub, Arith(Add, a, b, w), b, w) == a % Pow256(w)
  {
    hide Pow256;
    var p := Pow256(w);
    var s := (a + b) % p;
    SameRemainder(a, s - b, (a + b) / p, p);
    if a + b < p { Remainder(a + b, p, 0, a + b); }
  }

  // ---- the guard ------------------------------------------------------------------------------------------------------

  function Pow2(k: nat): nat
    ensures Pow2(k) > 0
  {
    if k == 0 then 1 else 2 * Pow2(k - 1)
  }

  predicate Bit(n: nat, k: nat) { (n / Pow2(k)) % 2 == 1 }

  lemma HalfBit(n: nat, k: nat)
    requires k > 0
    ensures Bit(n, k) <==> Bit(n / 2, k - 1)
  {
    var p := Pow2(k - 1);
    assert n / (2 * p) == (n / 2) / p by { Quotients(n, p); }
  }

  lemma Quotients(n: nat, p: nat)
    requires p > 0
    ensures n / (2 * p) == n / 2 / p
  {
    var h := n / 2;
    var q, r := h / p, h % p;
    assert n == q * (2 * p) + (2 * r + n % 2);
    assert 2 * r + n % 2 < 2 * p;
    Remainder(n, 2 * p, q, 2 * r + n % 2);
  }

  lemma ZeroHasNoBit(k: nat)
    ensures !Bit(0, k)
  {
    assert 0 / Pow2(k) == 0;
  }

  /** The bitwise conjunction, bit by bit. */
  lemma {:induction false} AndIsBitwise(a: nat, b: nat, k: nat)
    ensures Bit(BitAnd(a, b), k) <==> Bit(a, k) && Bit(b, k)
    decreases a
  {
    if a == 0 || b == 0 {
      ZeroHasNoBit(k);
    } else {
      var low, high := (a % 2) * (b % 2), BitAnd(a / 2, b / 2);
      assert 0 <= low <= 1;
      if k == 0 {
        assert Pow2(0) == 1 && a / 1 == a && b / 1 == b && BitAnd(a, b) / 1 == BitAnd(a, b);
      } else {
        HalfBit(a, k);
        HalfBit(b, k);
        HalfBit(BitAnd(a, b), k);
        assert BitAnd(a, b) / 2 == high;
        AndIsBitwise(a / 2, b / 2, k - 1);
      }
    }
  }

  lemma {:induction false} SomeBit(n: nat)
    requires n > 0
    ensures exists k: nat :: Bit(n, k)
    decreases n
  {
    if n % 2 == 1 {
      assert Pow2(0) == 1 && n / 1 == n;
      assert Bit(n, 0);
    } else {
      SomeBit(n / 2);
      var k: nat :| Bit(n / 2, k);
      HalfBit(n, k + 1);
    }
  }

  /** A guard holds exactly when some bit of its mask is set in the trigger word, or none is when it tests for equality. */
  lemma GuardReadsBits(g: TriggerMaskTest, m: Mem)
    requires g.triggerPtr.Gep? && g.triggerPtr.index.Const? && (g.pred == Eq || g.pred == Ne)
    requires InBounds(TriggerPtr(g), g.width, m)
    ensures var word := ReadBytes(m, g.triggerPtr.index.n, g.width);
            && GuardTest(g, m) <= 1
            && (GuardTest(g, m) == 1 <==> (g.pred == Ne <==> exists k: nat :: Bit(word, k) && Bit(g.mask, k)))
  {
    var word := ReadBytes(m, g.triggerPtr.index.n, g.width);
    var both := BitAnd(word, g.mask);
    if both > 0 {
      SomeBit(both);
      var k: nat :| Bit(both, k);
      AndIsBitwise(word, g.mask, k);
    }
    forall k: nat | Bit(word, k) && Bit(g.mask, k) ensures both > 0 {
      AndIsBitwise(word, g.mask, k);
      ZeroHasNoBit(k);
    }
  }
}
