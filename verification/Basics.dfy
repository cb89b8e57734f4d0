/** Types shared by all components: bytes, 64-bit values, optional values and errors. */
module Basics {

  datatype Option<+T> = None | Some(value: T)

  datatype Result<+T, +E> = Ok(value: T) | Err(error: E)

  /** One C++ std::byte. */
  type Byte = b: int | 0 <= b < 256

  type Bytes = seq<Byte>

  const U64_MODULUS: nat := 0x1_0000_0000_0000_0000

  /** A std::uint64_t. */
  type U64 = v: int | 0 <= v < U64_MODULUS

  const U32_MODULUS: nat := 0x1_0000_0000

  const MAX_PORT: nat := 65535

  function Min(a: int, b: int): int {
    if a < b then a else b
  }

  function Flatten<T>(ss: seq<seq<T>>): seq<T> {
    if ss == [] then [] else ss[0] + Flatten(ss[1..])
  }

  lemma {:induction false} FlattenSplit<T>(ss: seq<seq<T>>, k: nat)
    requires k <= |ss|
    ensures Flatten(ss) == Flatten(ss[..k]) + Flatten(ss[k..])
  {
    if k == 0 {
      assert ss[k..] == ss;
    } else {
      FlattenSplit(ss[1..], k - 1);
      assert ss[..k][1..] == ss[1..][..k - 1];
      assert ss[1..][k - 1..] == ss[k..];
    }
  }

  /** Element `k` occupies the positions after all the elements before it. */
  lemma {:induction false} FlattenAt<T>(ss: seq<seq<T>>, k: nat)
    requires k < |ss|
    ensures Flatten(ss[..k + 1]) == Flatten(ss[..k]) + ss[k]
    ensures Flatten(ss[..k]) + ss[k] <= Flatten(ss)
  {
    FlattenSplit(ss[..k + 1], k);
    assert ss[..k + 1][..k] == ss[..k];
    assert ss[..k + 1][k..] == [ss[k]];
    assert Flatten([ss[k]]) == ss[k];
    FlattenSplit(ss, k + 1);
  }

  function Sum(p: seq<nat>): nat {
    if |p| == 0 then 0 else Sum(p[..|p| - 1]) + p[|p| - 1]
  }

  /** Summands that stay below others have the same sum only if they are the same. */
  lemma {:induction false} SumBelow(p: seq<nat>, q: seq<nat>)
    requires |p| == |q| && forall i | 0 <= i < |p| :: p[i] <= q[i]
    ensures Sum(p) <= Sum(q)
    ensures Sum(p) == Sum(q) <==> p == q
  {
    if |p| > 0 {
      var n := |p| - 1;
      SumBelow(p[..n], q[..n]);
      assert p == p[..n] + [p[n]] && q == q[..n] + [q[n]];
    }
  }

  lemma {:induction false} SumAppend(p: seq<nat>, q: seq<nat>)
    ensures Sum(p + q) == Sum(p) + Sum(q)
  {
    if q == [] {
      assert p + q == p;
    } else {
      var n := |q| - 1;
      SumAppend(p, q[..n]);
      assert (p + q)[..|p + q| - 1] == p + q[..n];
    }
  }

  /** Replacing one part changes the whole by that part. */
  lemma {:induction false} FlattenUpdate<T>(ss: seq<seq<T>>, i: nat, t: seq<T>)
    requires i < |ss|
    ensures multiset(Flatten(ss[i := t])) == multiset(Flatten(ss)) - multiset(ss[i]) + multiset(t)
  {
    FlattenAround(ss, i);
    FlattenAround(ss[i := t], i);
    assert ss[i := t][..i] == ss[..i] && ss[i := t][i + 1..] == ss[i + 1..];
  }

  /** Extending one part adds to the whole what it adds to the part. */
  lemma {:induction false} FlattenExtend<T>(ss: seq<seq<T>>, i: nat, t: seq<T>, added: multiset<T>)
    requires i < |ss| && multiset(t) == multiset(ss[i]) + added
    ensures multiset(Flatten(ss[i := t])) == multiset(Flatten(ss)) + added
  {
    FlattenUpdate(ss, i, t);
    FlattenAround(ss, i);
    assert multiset(Flatten(ss)) == multiset(Flatten(ss[..i])) + multiset(ss[i]) + multiset(Flatten(ss[i + 1..]));
  }

  lemma {:induction false} FlattenAround<T>(ss: seq<seq<T>>, i: nat)
    requires i < |ss|
    ensures Flatten(ss) == Flatten(ss[..i]) + ss[i] + Flatten(ss[i + 1..])
  {
    FlattenSplit(ss, i);
    assert ss[i..][1..] == ss[i + 1..];
  }

  /** An element of the whole is in some part. */
  lemma {:induction false} FlattenFind<T>(ss: seq<seq<T>>, x: T) returns (i: nat, k: nat)
    requires x in Flatten(ss)
    ensures i < |ss| && k < |ss[i]| && ss[i][k] == x
  {
    if x in ss[0] {
      k :| 0 <= k < |ss[0]| && ss[0][k] == x;
      return 0, k;
    }
    var j;
    j, k := FlattenFind(ss[1..], x);
    return j + 1, k;
  }
}
