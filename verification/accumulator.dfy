/** The `Hash` accumulator: eight wrapping 32-bit lanes, seeded with fixed
    constants, into which each 32-bit block is added lane by lane. */
module Accumulator {
  import opened Words
  import opened Hex
  import opened Permutations

  /** The seed of `Hash::new`, in index order. */
  const Seed: Lanes := [0xe3b0c442, 0x98fc1c14, 0x9afbf4c8, 0x996fb924,
                        0x27ae41e4, 0x649b934c, 0xa495991b, 0x7852b855]

  /** The rendering of the seed: the fingerprint of a file that folds no block. */
  const SeedHex: string := "e3b0c442" + "98fc1c14" + "9afbf4c8" + "996fb924"
                         + "27ae41e4" + "649b934c" + "a495991b" + "7852b855"

  /** The value computed by `add`: lane i of the result is d[i] + a[i] modulo 2^32. */
  function AddLanes(d: Lanes, a: Lanes): Lanes
  {
    seq(8, i requires 0 <= i < 8 => WrapAdd(d[i], a[i]))
  }

  /** The state after `transform` is applied to each block in turn, starting from h. */
  function FoldBlocks(h: Lanes, blocks: seq<Lanes>): Lanes
  {
    if blocks == [] then h
    else AddLanes(blocks[|blocks| - 1], FoldBlocks(h, blocks[..|blocks| - 1]))
  }

  /** The plain (unreduced) sum of lane i over all blocks. */
  function LaneTotal(blocks: seq<Lanes>, i: nat): int
    requires i < HashSize
  {
    if blocks == [] then 0 else LaneTotal(blocks[..|blocks| - 1], i) + blocks[|blocks| - 1][i]
  }

  // ---- Properties of the accumulator ----

  /** Lane i after a transform depends on lane i of the old state and of the block only. */
  lemma TransformLane(h: Lanes, data: Lanes, i: nat)
    requires i < HashSize
    ensures AddLanes(data, h)[i] == (h[i] + data[i]) % Modulus
    ensures forall h': Lanes :: h'[i] == h[i] ==> AddLanes(data, h')[i] == AddLanes(data, h)[i]
  {
  }

  /** Folding two blocks in either order gives the same state. */
  lemma TransformCommutes(h: Lanes, a: Lanes, b: Lanes)
    ensures AddLanes(b, AddLanes(a, h)) == AddLanes(a, AddLanes(b, h))
  {
    forall i | 0 <= i < HashSize
      ensures AddLanes(b, AddLanes(a, h))[i] == AddLanes(a, AddLanes(b, h))[i]
    {
      ModAddMod(h[i] as int + a[i], b[i]);
      ModAddMod(h[i] as int + b[i], a[i]);
    }
  }

  lemma ModAddMod(x: nat, y: nat)
    ensures (x % Modulus + y) % Modulus == (x + y) % Modulus
  {
    var q := x / Modulus;
    assert x == Modulus * q + x % Modulus;
    var z := x % Modulus + y;
    DivModUnique(x + y, Modulus, (x + y) % Modulus, (x + y) / Modulus);
    DivModUnique(z, Modulus, z % Modulus, z / Modulus);
    DivModUnique(x + y, Modulus, z % Modulus, q + z / Modulus);
  }

  /** Closed form of the fold: each lane is its seed plus the lane's total, modulo 2^32. */
  lemma {:induction false} FoldBlocksLane(h: Lanes, blocks: seq<Lanes>, i: nat)
    requires i < HashSize
    ensures FoldBlocks(h, blocks)[i] == (h[i] + LaneTotal(blocks, i)) % Modulus
  {
    if blocks == [] {
    } else {
      var init := blocks[..|blocks| - 1];
      var last := blocks[|blocks| - 1];
      FoldBlocksLane(h, init, i);
      LaneTotalNonNegative(init, i);
      ModAddMod(h[i] + LaneTotal(init, i), last[i]);
    }
  }

  lemma {:induction false} LaneTotalNonNegative(blocks: seq<Lanes>, i: nat)
    requires i < HashSize
    ensures LaneTotal(blocks, i) >= 0
  {
    if blocks != [] {
      LaneTotalNonNegative(blocks[..|blocks| - 1], i);
    }
  }

  lemma {:induction false} LaneTotalAppend(xs: seq<Lanes>, ys: seq<Lanes>, i: nat)
    requires i < HashSize
    ensures LaneTotal(xs + ys, i) == LaneTotal(xs, i) + LaneTotal(ys, i)
  {
    if ys == [] {
      assert xs + ys == xs;
    } else {
      var init := ys[..|ys| - 1];
      assert (xs + ys)[..|xs + ys| - 1] == xs + init;
      LaneTotalAppend(xs, init, i);
    }
  }

  /** Removing block j from a sequence takes its lane value out of the total. */
  lemma LaneTotalRemove(ys: seq<Lanes>, j: nat, i: nat)
    requires i < HashSize && j < |ys|
    ensures LaneTotal(ys, i) == LaneTotal(Without(ys, j), i) + ys[j][i]
  {
    assert ys == ys[..j] + [ys[j]] + ys[j + 1..];
    LaneTotalAppend(ys[..j] + [ys[j]], ys[j + 1..], i);
    LaneTotalAppend(ys[..j], [ys[j]], i);
    LaneTotalAppend(ys[..j], ys[j + 1..], i);
    assert [ys[j]][..0] == [];
  }

  /** A lane total depends only on the multiset of blocks, not on their order. */
  lemma {:induction false} LaneTotalPermutation(xs: seq<Lanes>, ys: seq<Lanes>, i: nat)
    requires i < HashSize
    requires multiset(xs) == multiset(ys)
    ensures LaneTotal(xs, i) == LaneTotal(ys, i)
    decreases |xs|
  {
    if xs == [] {
      assert |ys| == |multiset(ys)| == 0;
    } else {
      var j := PermutationSplit(xs, ys);
      LaneTotalPermutation(xs[..|xs| - 1], Without(ys, j), i);
      LaneTotalRemove(ys, j, i);
    }
  }

  /** Reordering the blocks folded into a state does not change the final state. */
  lemma FoldBlocksPermutation(h: Lanes, xs: seq<Lanes>, ys: seq<Lanes>)
    requires multiset(xs) == multiset(ys)
    ensures FoldBlocks(h, xs) == FoldBlocks(h, ys)
  {
    forall i | 0 <= i < HashSize
      ensures FoldBlocks(h, xs)[i] == FoldBlocks(h, ys)[i]
    {
      FoldBlocksLane(h, xs, i);
      FoldBlocksLane(h, ys, i);
      LaneTotalPermutation(xs, ys, i);
    }
  }

  /** The seed renders to the fixed 64-character string. */
  lemma SeedRendering()
    ensures Render(Seed) == SeedHex
  {
    SeedWord0Hex();
    SeedWord1Hex();
    SeedWord2Hex();
    SeedWord3Hex();
    SeedWord4Hex();
    SeedWord5Hex();
    SeedWord6Hex();
    SeedWord7Hex();
    RenderEight(0xe3b0c442, 0x98fc1c14, 0x9afbf4c8, 0x996fb924, 0x27ae41e4, 0x649b934c, 0xa495991b, 0x7852b855);
  }

  // Each seed word written out with `{:08x}`.

  lemma SeedWord0Hex()
    ensures Hex8(0xe3b0c442) == "e3b0c442"
  {
    Hex8Digits(0xe, 0x3, 0xb, 0x0, 0xc, 0x4, 0x4, 0x2);
  }

  lemma SeedWord1Hex()
    ensures Hex8(0x98fc1c14) == "98fc1c14"
  {
    Hex8Digits(0x9, 0x8, 0xf, 0xc, 0x1, 0xc, 0x1, 0x4);
  }

  lemma SeedWord2Hex()
    ensures Hex8(0x9afbf4c8) == "9afbf4c8"
  {
    Hex8Digits(0x9, 0xa, 0xf, 0xb, 0xf, 0x4, 0xc, 0x8);
  }

  lemma SeedWord3Hex()
    ensures Hex8(0x996fb924) == "996fb924"
  {
    Hex8Digits(0x9, 0x9, 0x6, 0xf, 0xb, 0x9, 0x2, 0x4);
  }

  lemma SeedWord4Hex()
    ensures Hex8(0x27ae41e4) == "27ae41e4"
  {
    Hex8Digits(0x2, 0x7, 0xa, 0xe, 0x4, 0x1, 0xe, 0x4);
  }

  lemma SeedWord5Hex()
    ensures Hex8(0x649b934c) == "649b934c"
  {
    Hex8Digits(0x6, 0x4, 0x9, 0xb, 0x9, 0x3, 0x4, 0xc);
  }

  lemma SeedWord6Hex()
    ensures Hex8(0xa495991b) == "a495991b"
  {
    Hex8Digits(0xa, 0x4, 0x9, 0x5, 0x9, 0x9, 0x1, 0xb);
  }

  lemma SeedWord7Hex()
    ensures Hex8(0x7852b855) == "7852b855"
  {
    Hex8Digits(0x7, 0x8, 0x5, 0x2, 0xb, 0x8, 0x5, 0x5);
  }

  lemma RenderEight(a: U32, b: U32, c: U32, d: U32, e: U32, f: U32, g: U32, h: U32)
    ensures Render([a, b, c, d, e, f, g, h])
         == Hex8(a) + Hex8(b) + Hex8(c) + Hex8(d) + Hex8(e) + Hex8(f) + Hex8(g) + Hex8(h)
  {
    var w1 := [a];
    var w2 := w1 + [b];
    var w3 := w2 + [c];
    var w4 := w3 + [d];
    var w5 := w4 + [e];
    var w6 := w5 + [f];
    var w7 := w6 + [g];
    var w8 := w7 + [h];
    assert Render(w1) == Hex8(a) by { assert w1[..0] == []; }
    RenderSnoc(w1, b);
    RenderSnoc(w2, c);
    RenderSnoc(w3, d);
    RenderSnoc(w4, e);
    RenderSnoc(w5, f);
    RenderSnoc(w6, g);
    RenderSnoc(w7, h);
    assert w8 == [a, b, c, d, e, f, g, h];
  }

  // ---- The imperative accumulator ----

  /** The nested `conv`: copies the `u32` words into `Wrapping<u32>` lanes one by one. */
  method Conv(d: Lanes) returns (r: Lanes)
    ensures r == d
  {
    var a := new U32[HashSize](_ => 0);
    for i := 0 to HashSize
      invariant forall j :: 0 <= j < i ==> a[j] == d[j]
    {
      a[i] := d[i];
    }
    r := a[..];
  }

  /** The nested `add`: lane-wise wrapping addition into a fresh array. */
  method Add(d: Lanes, a: Lanes) returns (r: Lanes)
    ensures r == AddLanes(d, a)
  {
    var s := new U32[HashSize](_ => 0);
    for i := 0 to HashSize
      invariant forall j :: 0 <= j < i ==> s[j] == WrapAdd(d[j], a[j])
    {
      s[i] := WrapAdd(d[i], a[i]);
    }
    r := s[..];
  }

  /** `struct Hash`: the lanes, and (for the proofs) the blocks folded into them so far. */
  class Hash {
    var hash: Lanes
    ghost var Folded: seq<Lanes>

    /** The lanes are always the seed with every folded block added in. */
    ghost predicate Valid()
      reads this
    {
      hash == FoldBlocks(Seed, Folded)
    }

    /** `Hash::new`: the lanes are the seed, copied one by one. */
    constructor ()
      ensures Valid() && Folded == [] && hash == Seed
    {
      var h := new U32[HashSize](_ => 0);
      for i := 0 to |Seed|
        invariant forall j :: 0 <= j < i ==> h[j] == Seed[j]
      {
        h[i] := Seed[i];
      }
      hash := h[..];
      Folded := [];
    }

    /** `Hash::transform`: every lane gets the matching word of the block added, modulo 2^32. */
    method Transform(data: Lanes)
      requires Valid()
      modifies this
      ensures Valid()
      ensures hash == AddLanes(data, old(hash))
      ensures Folded == old(Folded) + [data]
    {
      var ca := Conv(data);
      hash := Add(ca, hash);
      Folded := Folded + [data];
      assert Folded[..|Folded| - 1] == old(Folded);
    }

    /** `Hash::to_string`: the lanes rendered in index order, eight digits each. */
    method ToString() returns (s: string)
      ensures s == Render(hash)
      ensures |s| == 64
    {
      s := [];
      for i := 0 to HashSize
        invariant s == Render(hash[..i])
      {
        assert hash[..i + 1][..i] == hash[..i];
        s := s + Hex8(hash[i]);
      }
      assert hash[..HashSize] == hash;
      FingerprintShape(hash);
    }
  }
}
