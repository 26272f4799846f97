/**
 * Element-wise operators over vectors (vector_operations, vector_ops.h).
 *
 * Vectors of `double` are modelled with exact `real` arithmetic; vectors of
 * `int` hold 32-bit two's-complement words (`bv32`), so `|` and `&` are the
 * machine's bitwise operators. Every operator that builds a fresh result
 * does so with a fill loop, as the source does.
 */
module VectorOps {
  import Sequences

  type Word = bv32

  function Min(a: nat, b: nat): nat { if a < b then a else b }

  /** `reverse(vector)`: swap the two halves in place. */
  method Reverse<T>(a: array<T>)
    modifies a
    ensures a[..] == Sequences.Reversed(old(a[..]))
  {
    var size := a.Length;
    var i := 0;
    while i < size / 2
      invariant 0 <= i <= size / 2
      invariant forall k :: 0 <= k < i ==> a[k] == old(a[size - 1 - k]) && a[size - 1 - k] == old(a[k])
      invariant forall k :: i <= k < size - i ==> a[k] == old(a[k])
    {
      a[i], a[size - i - 1] := a[size - i - 1], a[i];
      i := i + 1;
    }
    ghost var was := old(a[..]);
    forall k | 0 <= k < size ensures a[..][k] == Sequences.Reversed(was)[k] {
      Sequences.ReversedAt(was, k);
    }
  }

  /** `a | b`: as long as the shorter operand, element-wise bitwise OR. */
  method Or(a: seq<Word>, b: seq<Word>) returns (r: seq<Word>)
    ensures |r| == Min(|a|, |b|)
    ensures forall i :: 0 <= i < |r| ==> r[i] == a[i] | b[i]
  {
    var result := new Word[Min(|a|, |b|)];
    var i := 0;
    while i < result.Length
      invariant 0 <= i <= result.Length
      invariant forall k :: 0 <= k < i ==> result[k] == a[k] | b[k]
    {
      result[i] := a[i] | b[i];
      i := i + 1;
    }
    r := result[..];
  }

  /** `a & b`: as long as the shorter operand, element-wise bitwise AND. */
  method And(a: seq<Word>, b: seq<Word>) returns (r: seq<Word>)
    ensures |r| == Min(|a|, |b|)
    ensures forall i :: 0 <= i < |r| ==> r[i] == a[i] & b[i]
  {
    var result := new Word[Min(|a|, |b|)];
    var i := 0;
    while i < result.Length
      invariant 0 <= i <= result.Length
      invariant forall k :: 0 <= k < i ==> result[k] == Both(a[k], b[k])
    {
      result[i] := Both(a[i], b[i]);
      i := i + 1;
    }
    r := result[..];
  }

  /** The bits set in both words; the loop's invariant names the operator through it. */
  function Both(x: Word, y: Word): Word
  {
    x & y
  }

  /** Bitwise absorption: `a & (a | b)` is `a` cut to the shorter length. */
  lemma AndAbsorbsOr(a: seq<Word>, b: seq<Word>, o: seq<Word>, r: seq<Word>)
    requires |o| == Min(|a|, |b|) && forall i :: 0 <= i < |o| ==> o[i] == a[i] | b[i]
    requires |r| == Min(|a|, |o|) && forall i :: 0 <= i < |r| ==> r[i] == a[i] & o[i]
    ensures r == a[..Min(|a|, |b|)]
  {
  }

  /** Unary `+`: the argument itself. */
  function Plus(v: seq<real>): (r: seq<real>)
    ensures |r| == |v| && forall i :: 0 <= i < |v| ==> r[i] == v[i]
  {
    v
  }

  /** Binary `+`: as long as `a`; reads `b[i]` for every index of `a`. */
  method Add(a: seq<real>, b: seq<real>) returns (r: seq<real>)
    requires |b| >= |a|
    ensures |r| == |a|
    ensures forall i :: 0 <= i < |a| ==> r[i] == a[i] + b[i]
  {
    var result := new real[|a|];
    var i := 0;
    while i < result.Length
      invariant 0 <= i <= result.Length
      invariant forall k :: 0 <= k < i ==> result[k] == a[k] + b[k]
    {
      result[i] := a[i] + b[i];
      i := i + 1;
    }
    r := result[..];
  }

  /** Binary `-`: as long as `a`; reads `b[i]` for every index of `a`. */
  method Sub(a: seq<real>, b: seq<real>) returns (r: seq<real>)
    requires |b| >= |a|
    ensures |r| == |a|
    ensures forall i :: 0 <= i < |a| ==> r[i] == a[i] - b[i]
  {
    var result := new real[|a|];
    var i := 0;
    while i < result.Length
      invariant 0 <= i <= result.Length
      invariant forall k :: 0 <= k < i ==> result[k] == a[k] - b[k]
    {
      result[i] := a[i] - b[i];
      i := i + 1;
    }
    r := result[..];
  }

  /** Unary `-`: every element negated. */
  method Negate(v: seq<real>) returns (r: seq<real>)
    ensures |r| == |v|
    ensures forall i :: 0 <= i < |v| ==> r[i] == -v[i]
  {
    var result := new real[|v|];
    var i := 0;
    while i < result.Length
      invariant 0 <= i <= result.Length
      invariant forall k :: 0 <= k < i ==> result[k] == -v[k]
    {
      result[i] := -v[i];
      i := i + 1;
    }
    r := result[..];
  }

  /**
   * `a % b`: a copy of `a`, overwritten with the cross product when `a` has
   * exactly three components (reading the first three of `b`).
   */
  method Cross(a: seq<real>, b: seq<real>) returns (r: seq<real>)
    requires |a| == 3 ==> |b| >= 3
    ensures |r| == |a|
    ensures |a| != 3 ==> r == a
    ensures |a| == 3 ==> r == CrossProduct(a, b)
  {
    var result := new real[|a|];
    var i := 0;
    while i < result.Length
      invariant 0 <= i <= result.Length
      invariant result[..i] == a[..i]
    {
      result[i] := a[i];
      i := i + 1;
    }
    assert result[..] == a;
    if result.Length == 3 {
      result[0] := a[1] * b[2] - a[2] * b[1];
      result[1] := a[2] * b[0] - a[0] * b[2];
      result[2] := a[0] * b[1] - a[1] * b[0];
    }
    r := result[..];
  }

  /** The three-dimensional cross product. */
  function CrossProduct(a: seq<real>, b: seq<real>): seq<real>
    requires |a| >= 3 && |b| >= 3
  {
    [a[1] * b[2] - a[2] * b[1], a[2] * b[0] - a[0] * b[2], a[0] * b[1] - a[1] * b[0]]
  }

  /** In exact arithmetic the cross product is orthogonal to both operands. */
  lemma CrossOrthogonal(a: seq<real>, b: seq<real>)
    requires |a| == 3 && |b| == 3
    ensures var c := CrossProduct(a, b);
            a[0] * c[0] + a[1] * c[1] + a[2] * c[2] == 0.0 &&
            b[0] * c[0] + b[1] * c[1] + b[2] * c[2] == 0.0
  {
  }
}
