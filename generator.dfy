/** The synthetic workload the driver builds when it is given no file: a
    series of transactions whose even slots read and whose odd slots write,
    with the write targets rotating through four conflict patterns. All
    object numbers are computed in 32-bit `unsigned` arithmetic. */
module Generator {
  import opened Base

  /** The driver's fixed parameters. */
  const DefaultNumTests: nat := 4
  const DefaultMaxScheduledObjects: nat := 8
  const DefaultObjSetSize: nat := NumObjects / 2

  /** Object read by slot `2j` of transaction `i`. */
  function ReadTarget(objSetSize: nat, i: nat, j: nat): nat
  {
    Wrap32(objSetSize * i * 2 + j * 2)
  }

  /** Object written by slot `2j + 1` of transaction `i`: the four-way
      rotation on `i % 4`. */
  function WriteTarget(objSetSize: nat, i: nat, j: nat): nat
  {
    Wrap32(
      if i % 4 == 0 then objSetSize * i * 2 + j * 2 + 1
      else if i % 4 == 1 then objSetSize * (i - i % 2) * 2 + j * 2 + 1
      else if i % 4 == 2 then objSetSize * (i % 2) * 2 + j * 2 + 1
      else objSetSize * 2 + j * 2 + 1)
  }

  /** Slot `k` of generated transaction `i`: pairs `j < objSetSize` fill
      slots `2j` (read) and `2j + 1` (write); the rest are never written. */
  function GeneratedSlot(objSetSize: nat, i: nat, k: nat): Slot
  {
    if k < 2 * objSetSize then
      if k % 2 == 0 then Some(Object(true, false, ReadTarget(objSetSize, i, k / 2)))
      else Some(Object(true, true, WriteTarget(objSetSize, i, k / 2)))
    else None
  }

  function GeneratedTransaction(objSetSize: nat, i: nat): (t: Transaction)
    ensures |t| == NumObjects
  {
    seq(NumObjects, k requires 0 <= k => GeneratedSlot(objSetSize, i, k))
  }

  /** The whole synthetic workload: one transaction per value of the 32-bit
      loop counter below `numTests * maxScheduledObjects`. */
  function Workload(numTests: nat, maxScheduledObjects: nat, objSetSize: nat): (ts: seq<Transaction>)
    ensures |ts| == Wrap32(numTests * maxScheduledObjects)
  {
    Generated(objSetSize, Wrap32(numTests * maxScheduledObjects))
  }

  /** Generated transactions `0` to `count - 1`, in order. */
  function Generated(objSetSize: nat, count: nat): (ts: seq<Transaction>)
    ensures |ts| == count
  {
    seq(count, i requires 0 <= i => GeneratedTransaction(objSetSize, i))
  }

  /** One more pass of the outer loop appends the next transaction. */
  lemma GeneratedStep(objSetSize: nat, count: nat)
    ensures Generated(objSetSize, count + 1) == Generated(objSetSize, count) + [GeneratedTransaction(objSetSize, count)]
  {
  }

  /** One pass of the generator's inner loop: a fresh sixteen-slot array
      filled pair by pair, slot `2j` with the read and `2j + 1` with the
      write; slots from `2 * objSetSize` on are never written. */
  method BuildTransaction(objSetSize: nat, i: nat) returns (t: Transaction)
    requires 2 * objSetSize <= NumObjects
    ensures t == GeneratedTransaction(objSetSize, i)
  {
    var objs := new Slot[NumObjects](_ => None);
    var j := 0;
    while j < objSetSize
      invariant 0 <= j <= objSetSize
      invariant forall k :: 0 <= k < 2 * j ==> objs[k] == GeneratedSlot(objSetSize, i, k)
      invariant forall k :: 2 * j <= k < NumObjects ==> objs[k] == None
    {
      ghost var before := objs[..];
      objs[2 * j] := Some(Object(true, false, ReadTarget(objSetSize, i, j)));
      objs[2 * j + 1] := Some(Object(true, true, WriteTarget(objSetSize, i, j)));
      PairSlots(objSetSize, i, j);
      forall k | 0 <= k < 2 * j + 2
        ensures objs[k] == GeneratedSlot(objSetSize, i, k)
      {
        if k < 2 * j {
          assert objs[k] == before[k];
        }
      }
      j := j + 1;
    }
    t := objs[..];
    forall k | 0 <= k < NumObjects
      ensures t[k] == GeneratedTransaction(objSetSize, i)[k]
    {
    }
  }

  /** The generator's outer loop: one transaction per value of the counter
      below `numTests * maxScheduledObjects`, appended in order. */
  method GenerateTests(numTests: nat, maxScheduledObjects: nat, objSetSize: nat)
    returns (tests: seq<Transaction>)
    requires numTests < U32Mod && maxScheduledObjects < U32Mod
    requires 2 * objSetSize <= NumObjects
    ensures tests == Workload(numTests, maxScheduledObjects, objSetSize)
  {
    tests := [];
    assert Generated(objSetSize, 0) == [];
    var n := Wrap32(numTests * maxScheduledObjects);
    var i := 0;
    while i < n
      invariant 0 <= i <= n
      invariant tests == Generated(objSetSize, i)
    {
      var objs := BuildTransaction(objSetSize, i);
      GeneratedStep(objSetSize, i);
      tests := tests + [objs];
      i := i + 1;
    }
  }

  /** The two slots of pair `j` as the generator loop writes them. */
  lemma PairSlots(objSetSize: nat, i: nat, j: nat)
    requires j < objSetSize
    ensures GeneratedSlot(objSetSize, i, 2 * j) == Some(Object(true, false, ReadTarget(objSetSize, i, j)))
    ensures GeneratedSlot(objSetSize, i, 2 * j + 1) == Some(Object(true, true, WriteTarget(objSetSize, i, j)))
  {
    assert (2 * j) % 2 == 0 && (2 * j) / 2 == j;
    assert (2 * j + 1) % 2 == 1 && (2 * j + 1) / 2 == j;
  }

  /** The default workload actually built by the driver. */
  method DefaultTests() returns (tests: seq<Transaction>)
    ensures tests == Workload(DefaultNumTests, DefaultMaxScheduledObjects, DefaultObjSetSize)
  {
    tests := GenerateTests(DefaultNumTests, DefaultMaxScheduledObjects, DefaultObjSetSize);
  }

  /** A generated transaction has exactly its first `2 * objSetSize` slots
      valid, reads on even slots and writes on odd ones. */
  lemma GeneratedShape(objSetSize: nat, i: nat, k: nat)
    requires 2 * objSetSize <= NumObjects && k < NumObjects
    ensures GeneratedTransaction(objSetSize, i)[k].Some? <==> k < 2 * objSetSize
    ensures GeneratedTransaction(objSetSize, i)[k].Some? ==>
              GeneratedTransaction(objSetSize, i)[k].value.valid &&
              GeneratedTransaction(objSetSize, i)[k].value.write == (k % 2 == 1)
  {
  }

  /** The default run: 32 transactions, every one of the sixteen slots valid,
      even slots reads and odd slots writes, and no 32-bit wrap-around. */
  lemma DefaultWorkloadShape(i: nat, k: nat)
    requires i < |Workload(DefaultNumTests, DefaultMaxScheduledObjects, DefaultObjSetSize)|
    requires k < NumObjects
    ensures |Workload(DefaultNumTests, DefaultMaxScheduledObjects, DefaultObjSetSize)| == 32
    ensures var slot := Workload(DefaultNumTests, DefaultMaxScheduledObjects, DefaultObjSetSize)[i][k];
            slot.Some? && slot.value.valid && slot.value.write == (k % 2 == 1) &&
            (k % 2 == 0 ==> slot.value.obj == 16 * i + k)
  {
    assert Wrap32(DefaultNumTests * DefaultMaxScheduledObjects) == 32;
    assert Workload(DefaultNumTests, DefaultMaxScheduledObjects, DefaultObjSetSize)[i] == GeneratedTransaction(DefaultObjSetSize, i);
    GeneratedShape(DefaultObjSetSize, i, k);
  }

  /** Every read target is even. */
  lemma ReadTargetEven(objSetSize: nat, i: nat, j: nat)
    ensures ReadTarget(objSetSize, i, j) % 2 == 0
  {
    Wrap32Parity(objSetSize * i * 2 + j * 2);
  }

  /** Every write target is odd, whichever branch of the rotation applies. */
  lemma WriteTargetOdd(objSetSize: nat, i: nat, j: nat)
    ensures WriteTarget(objSetSize, i, j) % 2 == 1
  {
    var x :=
      if i % 4 == 0 then objSetSize * i * 2 + j * 2 + 1
      else if i % 4 == 1 then objSetSize * (i - i % 2) * 2 + j * 2 + 1
      else if i % 4 == 2 then objSetSize * (i % 2) * 2 + j * 2 + 1
      else objSetSize * 2 + j * 2 + 1;
    assert x % 2 == 1;
    Wrap32Parity(x);
  }

  /** No object read by any generated transaction is written by any
      generated transaction: conflicts are write/write only. */
  lemma NoReadIsWritten(objSetSize: nat, i1: nat, j1: nat, i2: nat, j2: nat)
    ensures ReadTarget(objSetSize, i1, j1) != WriteTarget(objSetSize, i2, j2)
  {
    ReadTargetEven(objSetSize, i1, j1);
    WriteTargetOdd(objSetSize, i2, j2);
  }

  /** Rotation case 0: the write goes to the object right after the one the
      same pair reads. */
  lemma RotationSelf(objSetSize: nat, i: nat, j: nat)
    requires i % 4 == 0
    ensures WriteTarget(objSetSize, i, j) == Wrap32(objSetSize * i * 2 + j * 2 + 1)
    ensures WriteTarget(objSetSize, i, j) == ReadTarget(objSetSize, i, j) + 1
  {
    var x := objSetSize * i * 2 + j * 2;
    var q := x / U32Mod;
    assert x == q * U32Mod + Wrap32(x);
    ReadTargetEven(objSetSize, i, j);
    assert Wrap32(x) + 1 < U32Mod;
    assert x + 1 == q * U32Mod + (Wrap32(x) + 1);
  }

  /** Rotation case 1: the same write target as the preceding transaction. */
  lemma RotationNeighbour(objSetSize: nat, i: nat, j: nat)
    requires i % 4 == 1
    ensures WriteTarget(objSetSize, i, j) == WriteTarget(objSetSize, i - 1, j)
  {
    assert i % 2 == 1;
    assert (i - 1) % 4 == 0;
  }

  /** Rotation case 2: the same write target as transaction 0. */
  lemma RotationFirst(objSetSize: nat, i: nat, j: nat)
    requires i % 4 == 2 && j < NumObjects
    ensures WriteTarget(objSetSize, i, j) == WriteTarget(objSetSize, 0, j) == 2 * j + 1
  {
    assert i % 2 == 0;
  }

  /** Rotation case 3: one fixed target per pair, shared by every such
      transaction. */
  lemma RotationShared(objSetSize: nat, i: nat, j: nat)
    requires i % 4 == 3 && 2 * objSetSize <= NumObjects && j < NumObjects
    ensures WriteTarget(objSetSize, i, j) == 2 * objSetSize + 2 * j + 1
  {
  }
}
