/**
 The truth-table engine: a named boolean function is an ordered list of input
 cells and a set of minterms; it is true when the inputs, read as a binary
 number with the first input as the most significant bit, name a minterm.
 */
module Minterms {

  /** Identifies a boolean cell in the interpreter's cell arena. */
  type CellId = nat

  /** A truth-table entry (the `Logic` record): its input cells in order and its true rows. */
  datatype Logic = Logic(inputs: seq<CellId>, mins: set<nat>)

  /** The packed value lives in a signed 32-bit int and is built with `1 << shift`. */
  const MaxInputs: nat := 31
  const IntMax: int := 0x7FFF_FFFF

  function Pow2(n: nat): (r: nat)
    ensures r >= 1
  {
    if n == 0 then 1 else 2 * Pow2(n - 1)
  }

  function BitValue(b: bool): nat
  {
    if b then 1 else 0
  }

  /** Reference definition: the sum of bit_i * 2^(K-1-i) over the K bits. */
  function WeightedSum(bits: seq<bool>): nat
  {
    if bits == [] then 0 else BitValue(bits[0]) * Pow2(|bits| - 1) + WeightedSum(bits[1..])
  }

  /** The loop of isValueInMins: add `1 << (K-1-i)` for every set bit i. */
  function PackFrom(bits: seq<bool>, i: nat, acc: int): (r: int)
    requires i <= |bits|
    ensures r == acc + WeightedSum(bits[i..])
    decreases |bits| - i
  {
    if i == |bits| then
      assert bits[i..] == [];
      acc
    else
      assert bits[i..][1..] == bits[i + 1..];
      PackFrom(bits, i + 1, if bits[i] then acc + Pow2(|bits| - 1 - i) else acc)
  }

  /** The packed row number of the inputs. It stays within a signed 32-bit int. */
  function Pack(bits: seq<bool>): (r: nat)
    requires |bits| <= MaxInputs
    ensures r == WeightedSum(bits)
    ensures r < Pow2(|bits|) && r <= IntMax
  {
    assert bits[0..] == bits;
    WeightedSumBound(bits);
    Pow2Monotone(|bits|, MaxInputs);
    Pow2ThirtyOne();
    PackFrom(bits, 0, 0)
  }

  /** MSB-first binary digits of v, K of them (the row of the truth table numbered v). */
  function Decode(v: nat, k: nat): (bits: seq<bool>)
    ensures |bits| == k
  {
    if k == 0 then [] else [v / Pow2(k - 1) % 2 == 1] + Decode(v % Pow2(k - 1), k - 1)
  }

  // ---------------------------------------------------------------------------

  lemma {:induction false} WeightedSumBound(bits: seq<bool>)
    ensures WeightedSum(bits) < Pow2(|bits|)
    decreases |bits|
  {
    if bits != [] {
      WeightedSumBound(bits[1..]);
    }
  }

  lemma {:induction false} Pow2Monotone(a: nat, b: nat)
    requires a <= b
    ensures Pow2(a) <= Pow2(b)
    decreases b
  {
    if a < b {
      Pow2Monotone(a, b - 1);
    }
  }

  /** Decoding the packed value gives back the bits: distinct rows pack to distinct numbers. */
  lemma {:induction false} DecodePack(bits: seq<bool>)
    ensures Decode(WeightedSum(bits), |bits|) == bits
    decreases |bits|
  {
    if bits != [] {
      var k := |bits|;
      var p := Pow2(k - 1);
      var rest := WeightedSum(bits[1..]);
      WeightedSumBound(bits[1..]);
      var v := BitValue(bits[0]) * p + rest;
      assert v / p == BitValue(bits[0]) by {
        DivMulAdd(BitValue(bits[0]), p, rest);
      }
      assert v % p == rest by {
        DivMulAdd(BitValue(bits[0]), p, rest);
      }
      DecodePack(bits[1..]);
      assert Decode(v, k) == [bits[0]] + bits[1..];
    }
  }

  /** Packing the decoded bits of an in-range number gives the number back. */
  lemma {:induction false} PackDecode(v: nat, k: nat)
    requires v < Pow2(k)
    ensures WeightedSum(Decode(v, k)) == v
    decreases k
  {
    if k > 0 {
      var p := Pow2(k - 1);
      var q, r := v / p, v % p;
      QuotientBelowTwo(v, p);
      PackDecode(r, k - 1);
      var bits := Decode(v, k);
      assert bits == [q % 2 == 1] + Decode(r, k - 1);
      assert bits[1..] == Decode(r, k - 1);
      assert bits[0] == (q == 1);
    }
  }

  /** A number below 2p has quotient 0 or 1 by p. */
  lemma QuotientBelowTwo(v: nat, p: nat)
    requires 1 <= p && v < 2 * p
    ensures (v < p && v / p == 0 && v % p == v) || (p <= v && v / p == 1 && v % p == v - p)
  {
    if v < p {
      DivMulAdd(0, p, v);
      assert 0 * p + v == v;
    } else {
      DivMulAdd(1, p, v - p);
      assert 1 * p + (v - p) == v;
    }
  }

  lemma DivMulAdd(q: nat, p: nat, r: nat)
    requires 0 <= r < p
    ensures (q * p + r) / p == q && (q * p + r) % p == r
  {
    var a := q * p + r;
    var d := a / p;
    assert a == d * p + a % p;
    if d > q {
      assert (q + 1) * p == q * p + p;
      MulMonotone(q + 1, d, p);
    } else if d < q {
      assert (d + 1) * p == d * p + p;
      MulMonotone(d + 1, q, p);
    }
  }

  lemma MulMonotone(x: int, y: int, p: nat)
    requires x <= y
    ensures x * p <= y * p
  {
    assert y * p - x * p == (y - x) * p;
  }

  lemma {:induction false} Pow2Add(a: nat, b: nat)
    ensures Pow2(a + b) == Pow2(a) * Pow2(b)
    decreases a
  {
    if a > 0 {
      Pow2Add(a - 1, b);
    }
  }

  lemma Pow2ThirtyOne()
    ensures Pow2(MaxInputs) == IntMax + 1
  {
    assert Pow2(2) == 4;
    Pow2Add(2, 2);
    Pow2Add(4, 4);
    Pow2Add(8, 8);
    Pow2Add(16, 8);
    Pow2Add(24, 4);
    Pow2Add(28, 2);
    Pow2Add(30, 1);
  }

  // ---------------------------------------------------------------------------

  /** The current value of each input cell, in registration order. */
  function InputBits(cells: seq<bool>, ids: seq<CellId>): (bits: seq<bool>)
    requires forall k :: 0 <= k < |ids| ==> ids[k] < |cells|
    ensures |bits| == |ids|
    ensures forall k :: 0 <= k < |ids| ==> bits[k] == cells[ids[k]]
  {
    if ids == [] then [] else [cells[ids[0]]] + InputBits(cells, ids[1..])
  }

  /** Logic::isValueInMins: is the packed row of the current input values a minterm? */
  function IsValueInMins(cells: seq<bool>, logic: Logic): (r: bool)
    requires forall k :: 0 <= k < |logic.inputs| ==> logic.inputs[k] < |cells|
    requires |logic.inputs| <= MaxInputs
    ensures r <==> WeightedSum(InputBits(cells, logic.inputs)) in logic.mins
  {
    Pack(InputBits(cells, logic.inputs)) in logic.mins
  }

  /**
   Truth-table reading of an entry whose minterms are in range: it is true
   exactly when the input values are the row of one of its minterms.
   */
  lemma TrueExactlyOnListedRows(cells: seq<bool>, logic: Logic)
    requires forall k :: 0 <= k < |logic.inputs| ==> logic.inputs[k] < |cells|
    requires |logic.inputs| <= MaxInputs
    requires forall m :: m in logic.mins ==> m < Pow2(|logic.inputs|)
    ensures IsValueInMins(cells, logic) <==>
              exists m :: m in logic.mins && Decode(m, |logic.inputs|) == InputBits(cells, logic.inputs)
  {
    var bits := InputBits(cells, logic.inputs);
    if IsValueInMins(cells, logic) {
      DecodePack(bits);
      var m := WeightedSum(bits);
      assert m in logic.mins && Decode(m, |bits|) == bits;
    }
    if exists m :: m in logic.mins && Decode(m, |logic.inputs|) == bits {
      var m :| m in logic.mins && Decode(m, |logic.inputs|) == bits;
      PackDecode(m, |logic.inputs|);
    }
  }

  /** The packing is most-significant-bit first: inputs (1, 0, 1) name row 5. */
  lemma PackExample()
    ensures Pack([true, false, true]) == 5
  {
  }
}
