/** Values shared by the whole host driver: the object access record sent to
    the accelerator, a transaction's sixteen slots, and the two failure-carrying
    wrappers the loader and the generator use. */
module Base {

  datatype Option<+T> = None | Some(value: T)

  datatype Result<+T, +E> = Success(value: T) | Failure(error: E)

  /** Number of object slots in one transaction (`numObjects` in the driver). */
  const NumObjects: nat := 16

  /** Largest value of a 64-bit `unsigned long`. */
  const UlongMax: nat := 0xFFFF_FFFF_FFFF_FFFF

  /** Modulus of the 32-bit `unsigned` arithmetic used by the generator. */
  const U32Mod: nat := 0x1_0000_0000

  /** One object access as the accelerator receives it. The source's field
      `object` is called `obj` here, `object` being a reserved word. */
  datatype Object = Object(valid: bool, write: bool, obj: nat)

  /** A slot of a transaction's `std::array<Object, 16>`: `Some` once the
      driver has written it, `None` while it still holds indeterminate
      contents (the array is never value-initialised). */
  type Slot = Option<Object>

  /** A transaction: its sixteen slots, in order. */
  type Transaction = seq<Slot>

  /** Result of an unsigned 32-bit computation whose exact value is `x`: the
      value below 2^32 that is congruent to `x` modulo 2^32. */
  function Wrap32(x: nat): (r: nat)
    ensures r < U32Mod
    ensures x < U32Mod ==> r == x
    ensures (x - r) % U32Mod == 0
  {
    assert x == (x / U32Mod) * U32Mod + x % U32Mod;
    x % U32Mod
  }

  /** Reducing modulo 2^32 keeps the parity, so an even (odd) object number
      stays even (odd) however far the arithmetic wraps. */
  lemma Wrap32Parity(x: nat)
    ensures Wrap32(x) % 2 == x % 2
  {
    var q := x / U32Mod;
    assert x == q * U32Mod + Wrap32(x);
    assert q * U32Mod == 2 * (q * 0x8000_0000);
  }

  /** First failure wins: the failure of `a` if it failed, otherwise the
      failure of `b`, otherwise both successes concatenated. */
  function Then<T, E>(a: Result<seq<T>, E>, b: Result<seq<T>, E>): (r: Result<seq<T>, E>)
    ensures a.Failure? ==> r == a
    ensures a.Success? && b.Failure? ==> r == b
    ensures a.Success? && b.Success? ==> r == Success(a.value + b.value)
  {
    match a
    case Failure(e) => Failure(e)
    case Success(x) =>
      match b
      case Failure(e) => Failure(e)
      case Success(y) => Success(x + y)
  }

  lemma ThenAssociative<T, E>(a: Result<seq<T>, E>, b: Result<seq<T>, E>, c: Result<seq<T>, E>)
    ensures Then(Then(a, b), c) == Then(a, Then(b, c))
  {
    if a.Success? && b.Success? && c.Success? {
      assert (a.value + b.value) + c.value == a.value + (b.value + c.value);
    }
  }

  lemma ThenEmpty<T, E>(b: Result<seq<T>, E>)
    ensures Then(Success([]), b) == b
  {
    if b.Success? {
      assert [] + b.value == b.value;
    }
  }

  /** Each result in turn, collected into one: the successes' values in
      order, or the first failure. */
  function Collect<T, E>(rs: seq<Result<T, E>>): Result<seq<T>, E>
  {
    if rs == [] then Success([]) else Then(Single(rs[0]), Collect(rs[1..]))
  }

  /** A collection that succeeds holds every result's value, in order. */
  lemma {:induction false} CollectValues<T, E>(rs: seq<Result<T, E>>)
    requires Collect(rs).Success?
    ensures |Collect(rs).value| == |rs|
    ensures forall n :: 0 <= n < |rs| ==> rs[n].Success? && Collect(rs).value[n] == rs[n].value
  {
    if rs != [] {
      CollectValues(rs[1..]);
      var v := Collect(rs).value;
      assert v == [rs[0].value] + Collect(rs[1..]).value;
      forall n | 0 < n < |rs|
        ensures rs[n].Success? && v[n] == rs[n].value
      {
        assert rs[1..][n - 1] == rs[n];
      }
    }
  }

  /** A collection that fails, fails with its first failing result. */
  lemma {:induction false} CollectFirstFailure<T, E>(rs: seq<Result<T, E>>)
    requires Collect(rs).Failure?
    ensures exists n :: 0 <= n < |rs| && rs[n] == Failure(Collect(rs).error) &&
              forall m :: 0 <= m < n ==> rs[m].Success?
  {
    if rs[0].Success? {
      CollectFirstFailure(rs[1..]);
      var n :| 0 <= n < |rs[1..]| && rs[1..][n] == Failure(Collect(rs[1..]).error) &&
               forall m :: 0 <= m < n ==> rs[1..][m].Success?;
      assert rs[n + 1] == rs[1..][n];
      forall m | 0 <= m < n + 1
        ensures rs[m].Success?
      {
        if m > 0 {
          assert rs[m] == rs[1..][m - 1];
        }
      }
    }
  }

  /** A single success or failure as a one-element sequence result. */
  function Single<T, E>(a: Result<T, E>): (r: Result<seq<T>, E>)
    ensures a.Success? <==> r.Success?
    ensures a.Success? ==> r.value == [a.value]
    ensures a.Failure? ==> r.error == a.error
  {
    match a
    case Success(x) => Success([x])
    case Failure(e) => Failure(e)
  }
}
