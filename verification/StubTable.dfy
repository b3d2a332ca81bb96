/**
  The allocator's table as the stubs keep it, a counter and a 256-bit bitmap per
  type updated in place, proved to refine the abstract allocator on every run.
 */
module StubTable {
  import opened StubIds

  class Table {
    const lastIssueNumber: array<nat>
    const validBits: array2<bv8>
    ghost var model: State

    ghost predicate Shaped() {
      lastIssueNumber.Length == TYPE_USER && validBits.Length0 == TYPE_USER && validBits.Length1 == 32
    }

    /** Bit `k` of type `t`. */
    ghost predicate Live(t: nat, k: nat)
      requires Shaped() && t < TYPE_USER && k < BITS_PER_TYPE
      reads validBits
    {
      HasBit(validBits[t, k / 8], Mask(k))
    }

    ghost predicate Valid()
      reads this, lastIssueNumber, validBits
    {
      && Shaped() && Proper(model)
      && lastIssueNumber[..] == model.last
      && forall t: nat, k: nat :: t < TYPE_USER && k < BITS_PER_TYPE ==> (Live(t, k) <==> k in model.live[t])
    }

    constructor ()
      ensures Valid() && model == Initial()
      ensures fresh(lastIssueNumber) && fresh(validBits)
    {
      lastIssueNumber := new nat[TYPE_USER](_ => 0);
      validBits := new bv8[TYPE_USER, 32]((_, _) => 0);
      model := Initial();
    }

    method ClearAll()
      requires Valid()
      modifies this`model, lastIssueNumber, validBits
      ensures Valid() && model == Step(old(model), Clear)
    {
      forall t | 0 <= t < TYPE_USER {
        lastIssueNumber[t] := 0;
      }
      forall t, b | 0 <= t < TYPE_USER && 0 <= b < 32 {
        validBits[t, b] := 0;
      }
      model := Initial();
    }

    /** Setting a bit leaves every other bit of every type alone. */
    method SetBit(t: nat, k: nat)
      requires Shaped() && t < TYPE_USER && k < BITS_PER_TYPE
      modifies validBits
      ensures forall u: nat, j: nat :: u < TYPE_USER && j < BITS_PER_TYPE ==>
        (Live(u, j) <==> old(Live(u, j)) || (u == t && j == k))
    {
      hide Mask, HasBit;
      ghost var byte := validBits[t, k / 8];
      var mask := (1 as bv8) << (k % 8);
      MaskIsShift(k);
      validBits[t, k / 8] := validBits[t, k / 8] | mask;
      forall u: nat, j: nat | u < TYPE_USER && j < BITS_PER_TYPE
        ensures Live(u, j) <==> old(Live(u, j)) || (u == t && j == k)
      {
        if u == t && j / 8 == k / 8 {
          BitOfByte(byte, k, j);
        }
      }
    }

    /** So does clearing one. */
    method ClearBit(t: nat, k: nat)
      requires Shaped() && t < TYPE_USER && k < BITS_PER_TYPE
      modifies validBits
      ensures forall u: nat, j: nat :: u < TYPE_USER && j < BITS_PER_TYPE ==>
        (Live(u, j) <==> old(Live(u, j)) && !(u == t && j == k))
    {
      hide Mask, HasBit;
      ghost var byte := validBits[t, k / 8];
      var mask := (1 as bv8) << (k % 8);
      MaskIsShift(k);
      validBits[t, k / 8] := validBits[t, k / 8] & !mask;
      forall u: nat, j: nat | u < TYPE_USER && j < BITS_PER_TYPE
        ensures Live(u, j) <==> old(Live(u, j)) && !(u == t && j == k)
      {
        if u == t && j / 8 == k / 8 {
          BitOfByte(byte, k, j);
        }
      }
    }

    method TestBit(t: nat, k: nat) returns (b: bool)
      requires Shaped() && t < TYPE_USER && k < BITS_PER_TYPE
      ensures b <==> Live(t, k)
    {
      hide Mask;
      var mask := (1 as bv8) << (k % 8);
      MaskIsShift(k);
      b := validBits[t, k / 8] & mask != 0;
    }

    method AllocId(objType: nat) returns (outcome: Outcome)
      requires Valid()
      modifies this`model, lastIssueNumber, validBits
      ensures Valid() && model == Step(old(model), Alloc(objType))
      ensures outcome == Report(old(model), Alloc(objType))
    {
      hide Id, Live;
      if objType == 0 || objType >= TYPE_USER {
        return Abort;
      }
      if lastIssueNumber[objType] < BITS_PER_TYPE - 1 {
        lastIssueNumber[objType] := lastIssueNumber[objType] + 1;
      }
      var index := lastIssueNumber[objType];
      var overlap := TestBit(objType, index);
      SetBit(objType, index);
      model := Step(model, Alloc(objType));
      outcome := Issued(Id(index, objType), overlap);
    }

    /** All complaints are recorded; none stops the deletion. */
    method DeleteId(objType: nat, id: bv32) returns (outcome: Outcome)
      requires Valid() && InBounds(Delete(objType, id))
      modifies this`model, validBits
      ensures Valid() && model == Step(old(model), Delete(objType, id))
      ensures outcome == Report(old(model), Delete(objType, id))
    {
      hide DeletedIndex, DeletedType, Live;
      var index, wrongType := DeletedIndex(id), DeletedType(id) != objType;
      var wasValid := TestBit(objType, index);
      if wasValid {
        ClearBit(objType, index);
      }
      model := Step(model, Delete(objType, id));
      outcome := Deleted(wrongType, !wasValid);
    }

    method Call(e: Event) returns (outcome: Outcome)
      requires Valid() && InBounds(e)
      modifies this`model, lastIssueNumber, validBits
      ensures Valid() && model == Step(old(model), e) && outcome == Report(old(model), e)
    {
      hide Step, Report;
      match e
      case Clear =>
        ClearAll();
        outcome := Cleared;
        ClearReport(old(model));
      case Alloc(t) =>
        outcome := AllocId(t);
      case Delete(t, id) =>
        outcome := DeleteId(t, id);
    }
  }

  lemma ClearReport(s: State)
    requires Proper(s)
    ensures Report(s, Clear) == Cleared
  {}

  lemma BitOfByte(byte: bv8, k: nat, j: nat)
    requires j / 8 == k / 8
    ensures HasBit(byte | Mask(k), Mask(j)) <==> HasBit(byte, Mask(j)) || j == k
    ensures HasBit(byte & !Mask(k), Mask(j)) <==> HasBit(byte, Mask(j)) && j != k
  {
    hide Mask, HasBit;
    MasksApart(k, j);
    MasksApart(j, k);
    SetAndClear(byte, Mask(k), Mask(j));
    assert j == k <==> j % 8 == k % 8;
  }

  /** Every run of the table reports what the abstract allocator does. */
  method Replay(es: seq<Event>) returns (outcomes: seq<Outcome>)
    requires AllInBounds(es)
    ensures |outcomes| == |es|
    ensures forall i: nat :: i < |es| ==> outcomes[i] == ReportAt(Initial(), es, i)
  {
    hide Step, Report;
    var table := new Table();
    outcomes := [];
    var i := 0;
    while i < |es|
      invariant 0 <= i <= |es| == |es[..i]| + |es[i..]| && |outcomes| == i
      invariant table.Valid() && table.model == Run(Initial(), es[..i])
      invariant fresh(table) && fresh(table.lastIssueNumber) && fresh(table.validBits)
      invariant forall j: nat :: j < i ==> outcomes[j] == ReportAt(Initial(), es, j)
    {
      var outcome := table.Call(es[i]);
      assert es[..i + 1][..i] == es[..i];
      outcomes := outcomes + [outcome];
      i := i + 1;
    }
  }
}
