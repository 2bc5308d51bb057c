/** Positions and lengths in the ring of src/atomic/one-to-one-queue.h, shared by the
    sequential class and by the interleaved step system. */
module CyclicRegion {
  import opened Basics

  /** Position of byte `i` of a region that starts at `off` in a ring of `m` bytes.
      The region is cut where the code cuts its two copies: `right_free == m - off`. */
  function At(off: nat, i: nat, m: nat): (p: nat)
    requires off < m && i < m
    ensures p < m
    ensures p == (off + i) % m
  {
    if i < m - off then off + i else i - (m - off)
  }

  /** Number of bytes from offset `r` up to offset `w`, going round the ring. */
  function Used(r: nat, w: nat, m: nat): (n: nat)
    requires r < m && w < m
    ensures n < m && At(r, n, m) == w
  {
    if r <= w then w - r else w + m - r
  }

  /** The `n` bytes that start at offset `off`. */
  function Bytes(memory: seq<byte>, off: nat, n: nat): (s: seq<byte>)
    requires off < |memory| && n < |memory|
    ensures |s| == n
    ensures forall i :: 0 <= i < n ==> s[i] == memory[At(off, i, |memory|)]
  {
    seq(n, i requires 0 <= i < n => memory[At(off, i, |memory|)])
  }

  function Wrap(x: int): (y: nat)
    ensures y < WORD && (0 <= x < WORD ==> y == x)
  {
    x % WORD
  }

  /** `(r_off + memory_size - 1 - w_off) % memory_size`, every operation in `size_t`. */
  function FreeSpace(r: nat, w: nat, m: nat): nat
    requires m > 0
  {
    Wrap(Wrap(Wrap(r + m) - 1) - w) % m
  }

  /** `(w_off + memory_size - r_off) % memory_size`, every operation in `size_t`. */
  function AvailableData(r: nat, w: nat, m: nat): nat
    requires m > 0
  {
    Wrap(Wrap(w + m) - r) % m
  }

  /** Wrapping at every operation is the same as wrapping once at the end. */
  lemma WrapOnce(r: nat, w: nat, m: nat)
    requires r < m && w < m < WORD
    ensures Wrap(Wrap(Wrap(r + m) - 1) - w) == Wrap(r + m - 1 - w)
    ensures Wrap(Wrap(w + m) - r) == Wrap(w + m - r)
  {
  }

  lemma FormulasAreExact(r: nat, w: nat, m: nat)
    requires r < m && w < m <= WORD / 2
    ensures AvailableData(r, w, m) == Used(r, w, m)
    ensures FreeSpace(r, w, m) == m - 1 - Used(r, w, m)
  {
    WrapOnce(r, w, m);
    ModSmall(w + m - r, m);
    ModSmall(r + m - 1 - w, m);
  }

  lemma ModSmall(x: nat, m: nat)
    requires 0 < m && x < 2 * m
    ensures x % m == if x < m then x else x - m
  {
  }

  /** The two `size_t` formulas are exact for every pair of offsets if and only if the
      ring takes at most half of the address range. */
  lemma FormulasExactIffHalfWord(m: nat)
    requires 0 < m < WORD
    ensures m <= WORD / 2 <==>
            forall r: nat, w: nat | r < m && w < m ::
              AvailableData(r, w, m) == Used(r, w, m) && FreeSpace(r, w, m) == m - 1 - Used(r, w, m)
  {
    if m <= WORD / 2 {
      forall r: nat, w: nat | r < m && w < m
        ensures AvailableData(r, w, m) == Used(r, w, m) && FreeSpace(r, w, m) == m - 1 - Used(r, w, m)
      {
        FormulasAreExact(r, w, m);
      }
    } else {
      WrapOnce(0, m - 1, m);
      ModSmall(2 * m - 1 - WORD, m);
      assert AvailableData(0, m - 1, m) == 2 * m - 1 - WORD;
      assert AvailableData(0, m - 1, m) != Used(0, m - 1, m);
    }
  }

  /** Reading past the first `n` bytes of a region leaves the rest of it. */
  lemma DropBytes(memory: seq<byte>, r: nat, w: nat, n: nat)
    requires r < |memory| && w < |memory| && n <= Used(r, w, |memory|)
    ensures var r' := At(r, n, |memory|);
            Used(r', w, |memory|) == Used(r, w, |memory|) - n &&
            Bytes(memory, r, Used(r, w, |memory|)) == Bytes(memory, r, n) + Bytes(memory, r', Used(r', w, |memory|))
  {
  }

  /** Writing `data` into the free space after a region extends the region by `data`. */
  lemma AppendBytes(memory: seq<byte>, memory': seq<byte>, r: nat, w: nat, data: seq<byte>)
    requires r < |memory| == |memory'| && w < |memory| && Used(r, w, |memory|) + |data| < |memory|
    requires forall i :: 0 <= i < |data| ==> memory'[At(w, i, |memory|)] == data[i]
    requires forall p :: 0 <= p < |memory| && memory'[p] != memory[p] ==>
               exists i :: 0 <= i < |data| && p == At(w, i, |memory|)
    ensures var w' := At(w, |data|, |memory|);
            Used(r, w', |memory|) == Used(r, w, |memory|) + |data| &&
            Bytes(memory', r, Used(r, w', |memory|)) == Bytes(memory, r, Used(r, w, |memory|)) + data
  {
    var m, u, w' := |memory|, Used(r, w, |memory|), At(w, |data|, |memory|);
    forall i | 0 <= i < u + |data|
      ensures memory'[At(r, i, m)] == if i < u then memory[At(r, i, m)] else data[i - u]
    {
      if i < u {
        UsedAndFreeAreDisjoint(r, w, m, i);
      } else {
        assert At(r, i, m) == At(w, i - u, m);
      }
    }
  }

  /** A position in use is not among the free positions that follow the region. */
  lemma UsedAndFreeAreDisjoint(r: nat, w: nat, m: nat, i: nat)
    requires r < m && w < m && i < Used(r, w, m)
    ensures forall j: nat :: j < m - Used(r, w, m) ==> At(w, j, m) != At(r, i, m)
  {
  }

  lemma PositionsDiffer(off: nat, m: nat, i: nat, j: nat)
    requires off < m && i < m && j < m && i != j
    ensures At(off, i, m) != At(off, j, m)
  {
  }
}
