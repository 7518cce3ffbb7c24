/** The `Unit` enum of Networking/Unit.cs: byte multiples, each 1024 times
    the previous one, with `long` as the underlying type. */
module Units {
  import opened Int64

  datatype Unit = B | KB | MB | GB | TB | PB

  /** base to the power n; the units use base 1024. */
  function Pow(base: int, n: nat): int {
    if n == 0 then 1 else base * Pow(base, n - 1)
  }

  /** The position of the member in the declaration. */
  function Exponent(u: Unit): nat {
    match u
    case B => 0
    case KB => 1
    case MB => 2
    case GB => 3
    case TB => 4
    case PB => 5
  }

  /** The numeric value of each member, defined as the declaration does:
      each member from the previous one times 1024. */
  function Bytes(u: Unit): (r: int)
    ensures r == Pow(1024, Exponent(u))
    decreases Exponent(u)
  {
    match u
    case B => 1
    case KB => Bytes(B) * 1024
    case MB => Bytes(KB) * 1024
    case GB => Bytes(MB) * 1024
    case TB => Bytes(GB) * 1024
    case PB => Bytes(TB) * 1024
  }

  /** The members in declaration order. */
  function AllUnits(): (us: seq<Unit>)
    ensures |us| == 6 && forall u :: Exponent(u) < 6 && us[Exponent(u)] == u
    ensures forall i :: 0 <= i < 6 ==> Exponent(us[i]) == i
  {
    [B, KB, MB, GB, TB, PB]
  }

  function Name(u: Unit): string {
    match u
    case B => "B"
    case KB => "KB"
    case MB => "MB"
    case GB => "GB"
    case TB => "TB"
    case PB => "PB"
  }

  lemma {:induction false} PowPositive(base: int, n: nat)
    requires base > 1
    ensures Pow(base, n) >= 1
  {
    if n > 0 {
      PowPositive(base, n - 1);
    }
  }

  lemma {:induction false} PowMonotone(base: int, m: nat, n: nat)
    requires base > 1 && m < n
    ensures Pow(base, m) < Pow(base, n)
  {
    PowPositive(base, n - 1);
    if m < n - 1 {
      PowMonotone(base, m, n - 1);
    }
  }

  lemma {:induction false} PowAdd(base: int, m: nat, n: nat)
    ensures Pow(base, m + n) == Pow(base, m) * Pow(base, n)
  {
    if n > 0 {
      PowAdd(base, m, n - 1);
      assert Pow(base, m + n) == base * Pow(base, m + n - 1);
    }
  }

  /** 1024^k is 2^(10k). */
  lemma {:induction false} PowerOfTwo(k: nat)
    ensures Pow(1024, k) == Pow(2, 10 * k)
  {
    if k > 0 {
      PowerOfTwo(k - 1);
      PowAdd(2, 10 * (k - 1), 10);
      assert Pow(2, 10) == 1024;
    }
  }

  /** The units are strictly increasing in declaration order. */
  lemma UnitsIncrease(u: Unit, v: Unit)
    ensures Exponent(u) < Exponent(v) ==> Bytes(u) < Bytes(v)
    ensures Exponent(u) <= Exponent(v) ==> Bytes(u) <= Bytes(v)
  {
    if Exponent(u) < Exponent(v) {
      PowMonotone(1024, Exponent(u), Exponent(v));
    }
  }

  /** B is one byte, GB is 2^30 and PB is 2^50, which fits the long base type. */
  lemma UnitValues()
    ensures Bytes(B) == 1
    ensures Bytes(GB) == Pow(2, 30)
    ensures Bytes(PB) == Pow(2, 50)
    ensures Bytes(PB) <= MaxLong
  {
    PowerOfTwo(3);
    PowerOfTwo(5);
  }
}
