/** memmove: a copy within one memory, whose two ranges may overlap. */
module Memory {
  import opened ByteSeqs

  /** The memory after the `n` bytes at `s` have been copied to `d` all at once. */
  function Copied(m: seq<byte>, d: nat, s: nat, n: nat): (r: seq<byte>)
    requires d + n <= |m| && s + n <= |m|
    ensures |r| == |m|
  {
    m[..d] + m[s..s + n] + m[d + n..]
  }

  /** Copied up to, but without, `p`. */
  ghost predicate Upwards(was: seq<byte>, m: seq<byte>, d: nat, s: nat, p: nat) {
    && |m| == |was| && d <= p && s + (p - d) <= |m|
    && forall i {:trigger m[i]} | 0 <= i < |m| :: m[i] == if d <= i < p then was[s + (i - d)] else was[i]
  }

  /** Copied down to `p`. */
  ghost predicate Downwards(was: seq<byte>, m: seq<byte>, d: nat, s: nat, n: nat, p: nat) {
    && |m| == |was| && s + n <= |m| && d <= p
    && forall i {:trigger m[i]} | 0 <= i < |m| :: m[i] == if p <= i < d + n then was[s + (i - d)] else was[i]
  }

  method MoveUp(m: array<byte>, d: nat, s: nat, n: nat)
    requires d + n <= m.Length && s + n <= m.Length && d < s
    modifies m
    ensures Upwards(old(m[..]), m[..], d, s, d + n)
  {
    var k, p, q := n, d, s;
    while k != 0
      invariant 0 <= k <= n && p == d + (n - k) && q == s + (n - k) && Upwards(old(m[..]), m[..], d, s, p)
    {
      ghost var before := m[..];
      assert before[q] == old(m[..])[q];
      k := k - 1;
      m[p] := m[q];
      assert m[..] == before[p := before[q]];
      p, q := p + 1, q + 1;
    }
  }

  method MoveDown(m: array<byte>, d: nat, s: nat, n: nat)
    requires d + n <= m.Length && s + n <= m.Length && d >= s
    modifies m
    ensures Downwards(old(m[..]), m[..], d, s, n, d)
  {
    var k, p, q := n, d + n, s + n;
    while k != 0
      invariant 0 <= k <= n && p == d + k && q == s + k && Downwards(old(m[..]), m[..], d, s, n, p)
    {
      k := k - 1;
      p, q := p - 1, q - 1;
      ghost var before := m[..];
      assert before[q] == old(m[..])[q];
      m[p] := m[q];
      assert m[..] == before[p := before[q]];
    }
  }

  lemma IsCopied(was: seq<byte>, m: seq<byte>, d: nat, s: nat, n: nat)
    requires d + n <= |was| && s + n <= |was|
    requires Upwards(was, m, d, s, d + n) || Downwards(was, m, d, s, n, d)
    ensures m == Copied(was, d, s, n)
  {
    var c := Copied(was, d, s, n);
    forall i | 0 <= i < |m| ensures m[i] == c[i] {
      if d <= i < d + n { assert c[i] == was[s..s + n][i - d]; }
    }
  }

  /** Upwards when the destination is lower, else downwards: a byte is read before it is
      overwritten. */
  method MemMove(m: array<byte>, d: nat, s: nat, n: nat)
    requires d + n <= m.Length && s + n <= m.Length
    modifies m
    ensures m[..] == Copied(old(m[..]), d, s, n)
  {
    if d < s {
      MoveUp(m, d, s, n);
    } else {
      MoveDown(m, d, s, n);
    }
    IsCopied(old(m[..]), m[..], d, s, n);
  }

  /** Moving a block away and back restores it, whatever it overlapped on the way. */
  lemma MovedBack(m: seq<byte>, d: nat, s: nat, n: nat)
    requires d + n <= |m| && s + n <= |m|
    ensures Copied(Copied(m, d, s, n), s, d, n)[s..s + n] == m[s..s + n]
  {
    assert Copied(m, d, s, n)[d..d + n] == m[s..s + n];
  }
}
