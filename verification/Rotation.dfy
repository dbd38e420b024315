/** How often consecutive integers fall into a range of residues. */
module Rotation {
  /** The remainder of `k` by `m`, by repeated subtraction; `ResidueIsModulo`
      below relates it to the operator. */
  function Residue(k: nat, m: nat): (r: nat)
    requires m > 0
    ensures r < m
  {
    if k < m then k else Residue(k - m, m)
  }

  predicate InRange(k: nat, m: nat, lo: nat, hi: nat)
    requires m > 0
  {
    lo <= Residue(k, m) < hi
  }

  /** How many of `c, c + 1, ..., c + len - 1` have their residue in `lo..hi`. */
  function Hits(c: nat, len: nat, m: nat, lo: nat, hi: nat): nat
    requires m > 0
  {
    if len == 0 then 0
    else Hits(c, len - 1, m, lo, hi) + (if InRange(c + len - 1, m, lo, hi) then 1 else 0)
  }

  lemma {:induction false} HitsSplit(c: nat, a: nat, b: nat, m: nat, lo: nat, hi: nat)
    requires m > 0
    ensures Hits(c, a + b, m, lo, hi) == Hits(c, a, m, lo, hi) + Hits(c + a, b, m, lo, hi)
  {
    if b > 0 {
      HitsSplit(c, a, b - 1, m, lo, hi);
    }
  }

  lemma {:induction false} HitsFromZero(len: nat, m: nat, lo: nat, hi: nat)
    requires len <= m && m > 0 && lo <= hi
    ensures Hits(0, len, m, lo, hi) == if len <= lo then 0 else if len <= hi then len - lo else hi - lo
  {
    if len > 0 {
      HitsFromZero(len - 1, m, lo, hi);
    }
  }

  lemma Distributes(m: nat, a: int, b: int)
    ensures m * (a - b) == m * a - m * b
  {
  }

  lemma Grows(m: nat, k: int)
    requires k >= 1
    ensures m * k >= m
  {
  }

  lemma DivisionIsUnique(m: nat, a: int, b: int, r: int, s: int)
    requires m > 0 && m * a + r == m * b + s && 0 <= r < m && 0 <= s < m
    ensures a == b && r == s
  {
    Distributes(m, a, b);
    Distributes(m, b, a);
    if a > b {
      Grows(m, a - b);
    } else if a < b {
      Grows(m, b - a);
    }
  }

  lemma ResidueShift(c: nat, m: nat)
    requires m > 0
    ensures (c + m) % m == c % m
  {
    Distributes(m, c / m + 1, 1);
    DivisionIsUnique(m, (c + m) / m, c / m + 1, (c + m) % m, c % m);
  }

  lemma SmallResidue(k: nat, m: nat)
    requires k < m
    ensures k % m == k
  {
  }

  lemma {:induction false} ResidueIsModulo(k: nat, m: nat)
    requires m > 0
    ensures Residue(k, m) == k % m
  {
    if k < m {
      SmallResidue(k, m);
    } else {
      ResidueIsModulo(k - m, m);
      ResidueShift(k - m, m);
    }
  }

  lemma {:induction false} ResidueNext(k: nat, m: nat)
    requires m > 0
    ensures Residue(k + 1, m) == if Residue(k, m) + 1 < m then Residue(k, m) + 1 else 0
  {
    if k >= m {
      ResidueNext(k - m, m);
    }
  }

  /** `m` consecutive integers meet each residue once. */
  lemma {:induction false} FullTurn(c: nat, m: nat, lo: nat, hi: nat)
    requires m > 0 && lo <= hi <= m
    ensures Hits(c, m, m, lo, hi) == hi - lo
  {
    if c == 0 {
      HitsFromZero(m, m, lo, hi);
    } else {
      FullTurn(c - 1, m, lo, hi);
      HitsSplit(c - 1, 1, m - 1, m, lo, hi);
      assert Hits(c - 1, 1, m, lo, hi) == Hits(c - 1, 0, m, lo, hi) + (if InRange(c - 1, m, lo, hi) then 1 else 0);
    }
  }

  /** Over any stretch, two residues are met equally often up to one. */
  lemma {:induction false} Even(c: nat, len: nat, m: nat, r: nat, s: nat)
    requires m > 0 && r < m && s < m
    ensures Hits(c, len, m, r, r + 1) <= Hits(c, len, m, s, s + 1) + 1
    decreases len
  {
    if len <= m {
      HitsSplit(c, len, m - len, m, r, r + 1);
      FullTurn(c, m, r, r + 1);
    } else {
      Even(c + m, len - m, m, r, s);
      HitsSplit(c, m, len - m, m, r, r + 1);
      HitsSplit(c, m, len - m, m, s, s + 1);
      FullTurn(c, m, r, r + 1);
      FullTurn(c, m, s, s + 1);
    }
  }
}
