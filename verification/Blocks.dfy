/** Cutting byte strings into blocks, and lengths into whole write blocks. */
module Blocks {
  import opened Sequences

  lemma MulMono(a: nat, c: nat, b: nat)
    requires a <= c
    ensures a * b <= c * b
  {
    assert c * b == a * b + (c - a) * b;
  }

  lemma DivModUnique(x: nat, b: nat, q: nat, r: nat)
    requires r < b && x == q * b + r
    ensures x / b == q && x % b == r
  {
    var q', r' := x / b, x % b;
    assert x == q' * b + r';
    if q' < q {
      assert (q - q') * b == q * b - q' * b;
      MulMono(1, q - q', b);
      assert false;
    } else if q < q' {
      assert (q' - q) * b == q' * b - q * b;
      MulMono(1, q' - q, b);
      assert false;
    }
  }

  lemma WholeBlocks(n: nat, b: nat)
    requires b > 0
    ensures n % b < b && n % b <= n && n == n / b * b + n % b
    ensures (n - n % b) % b == 0 && (n - n % b + b) % b == 0
    ensures n >= b <==> n - n % b > 0
  {
    var q, r := n / b, n % b;
    assert n == q * b + r;
    DivModUnique(q * b, b, q, 0);
    assert (q + 1) * b == q * b + b;
    DivModUnique((q + 1) * b, b, q + 1, 0);
    if n >= b {
      assert q > 0;
      MulMono(1, q, b);
    }
  }

  /** The length on the flash of n bytes whose last block is padded. */
  function Padded(n: nat, block: nat): (r: nat)
    requires block > 0
    ensures n <= r < n + block
  {
    WholeBlocks(n, block);
    if n % block == 0 then n else n - n % block + block
  }

  /** Padding is the least whole number of blocks that holds the bytes. */
  lemma PaddedIsLeastMultiple(n: nat, block: nat, m: nat)
    requires block > 0 && n <= m && m % block == 0
    ensures Padded(n, block) % block == 0 && Padded(n, block) <= m
  {
    WholeBlocks(n, block);
    var p := Padded(n, block);
    if m < p {
      var q, k := n / block, m / block;
      assert m == k * block && n == q * block + n % block;
      if k <= q {
        MulMono(k, q, block);
        assert false;
      } else {
        assert (q + 1) * block == q * block + block;
        MulMono(q + 1, k, block);
        assert false;
      }
    }
  }

  /** Consecutive slices of the given length, the last one as long as what is left. */
  function Split<T>(data: seq<T>, length: nat): seq<seq<T>>
    requires length > 0
  {
    if data == [] then []
    else if |data| <= length then [data]
    else [data[..length]] + Split(data[length..], length)
  }

  /** The blocks are the data in order, none is empty or longer than the length, all but the last are full, and as
      many full blocks would cover the data with less than one to spare. */
  lemma {:induction false} SplitCovers<T>(data: seq<T>, length: nat)
    requires length > 0
    ensures var blocks := Split(data, length);
            && Concat(blocks) == data
            && (forall i :: 0 <= i < |blocks| ==> 0 < |blocks[i]| <= length)
            && (forall i :: 0 <= i < |blocks| - 1 ==> |blocks[i]| == length)
            && |data| <= |blocks| * length < |data| + length
    decreases |data|
  {
    if data == [] {
    } else if |data| <= length {
      assert Concat([data]) == data + Concat([]) == data;
    } else {
      var rest := data[length..];
      SplitCovers(rest, length);
      var tail := Split(rest, length);
      var blocks := [data[..length]] + tail;
      assert blocks[1..] == tail && data == data[..length] + rest;
      assert |tail| > 0;
      assert |blocks| * length == |tail| * length + length;
    }
  }
}
