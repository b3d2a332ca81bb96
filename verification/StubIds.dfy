/**
  The fake object IDs of the OSAL unit-test stubs (osal/src/ut-stubs/utstub-helpers.c):
  their composition from an index and a type, and the table of issue counters and
  liveness bitmaps from which they are handed out.
 */
module StubIds {

  // ----- Composition

  /** `unsigned long` arithmetic, cut down to the 32 bits of an ID. */
  function Compose(index: bv32, objType: bv32): bv32 {
    (((index as bv64) | ((0x4000 | (objType as bv64)) << 16)) & 0xFFFFFFFF) as bv32
  }

  function IndexOf(id: bv32): bv32 {
    id & 0xFFFF
  }

  function TypeOf(id: bv32): bv32 {
    (id >> 16) ^ 0x4000
  }

  /** Decomposing gives back the parts exactly when both fit in 16 bits and the
      type leaves the marker bit alone. */
  lemma DecomposeOfCompose(index: bv32, objType: bv32)
    ensures IndexOf(Compose(index, objType)) == index && TypeOf(Compose(index, objType)) == objType
      <==> index < 0x10000 && objType < 0x10000 && objType & 0x4000 == 0
  {}

  /** Composing gives back the ID exactly when it carries the marker bit. */
  lemma ComposeOfDecompose(id: bv32)
    ensures Compose(IndexOf(id), TypeOf(id)) == id <==> id & 0x40000000 != 0
  {}

  /** An ID with its marker bit, written as a sum. */
  lemma ComposeIsSum(index: bv32, objType: bv32)
    requires index < 0x10000 && objType < 0x4000
    ensures Compose(index, objType) == 0x40000000 + (objType << 16) + index
  {}

  // ----- One byte of the bitmap

  /** `1 << (k & 7)`. */
  function Mask(k: nat): bv8 {
    if k % 8 == 0 then 1 else if k % 8 == 1 then 2 else if k % 8 == 2 then 4 else if k % 8 == 3 then 8
    else if k % 8 == 4 then 16 else if k % 8 == 5 then 32 else if k % 8 == 6 then 64 else 128
  }

  lemma MaskIsShift(k: nat)
    ensures Mask(k) == (1 as bv8) << (k % 8)
  {
    var j := k % 8;
    if j == 0 {} else if j == 1 {} else if j == 2 {} else if j == 3 {}
    else if j == 4 {} else if j == 5 {} else if j == 6 {} else { assert j == 7; }
  }

  predicate HasBit(b: bv8, m: bv8) {
    b & m != 0
  }

  lemma MasksApart(j: nat, k: nat)
    ensures Mask(j) & Mask(k) == if j % 8 == k % 8 then Mask(j) else 0
    ensures Mask(j) != 0
  {}

  lemma SetAndClear(b: bv8, m: bv8, n: bv8)
    requires m != 0 && n != 0 && m & n == if m == n then m else 0
    ensures HasBit(b | m, n) <==> HasBit(b, n) || m == n
    ensures HasBit(b & !m, n) <==> HasBit(b, n) && m != n
  {}

  // ----- Types and indices as numbers

  const TYPE_USER: nat := 0x10
  const BITS_PER_TYPE: nat := 8 * 32
  const LAST_INDEX: nat := BITS_PER_TYPE - 1

  predicate ValidType(t: nat) {
    0 < t < TYPE_USER
  }

  /** The number `k` as a C integer. */
  function Word(k: nat): bv32 {
    if k == 0 then 0 else Word(k - 1) + 1
  }

  function Id(index: nat, t: nat): bv32
    requires index < BITS_PER_TYPE && t < TYPE_USER
  {
    Compose(Word(index), Word(t))
  }

  lemma Successor(v: bv32, w: bv32)
    requires v < 256 && w == v + 1
    ensures w as nat == v as nat + 1
  {}

  lemma BelowByte(w: bv32)
    requires w as nat < 256
    ensures w < 256
  {}

  lemma SmallParts(i: bv32, t: bv32)
    requires i < 256 && t < 256
    ensures IndexOf(Compose(i, t)) == i && TypeOf(Compose(i, t)) == t
  {}

  lemma {:induction false} SmallWord(k: nat)
    requires k < 256
    ensures Word(k) < 256 && Word(k) as nat == k
    decreases k
  {
    if k > 0 {
      SmallWord(k - 1);
      Successor(Word(k - 1), Word(k));
    }
    BelowByte(Word(k));
  }

  /** An issued ID tells its index and its type. */
  lemma IdParts(index: nat, t: nat)
    requires index < BITS_PER_TYPE && t < TYPE_USER
    ensures IndexOf(Id(index, t)) as nat == index && TypeOf(Id(index, t)) as nat == t
  {
    hide Word, Compose, IndexOf, TypeOf;
    SmallWord(index);
    SmallWord(t);
    SmallParts(Word(index), Word(t));
  }

  /** IDs of different types never collide, nor do different indices of one. */
  lemma IdInjective(i: nat, t: nat, j: nat, u: nat)
    requires i < BITS_PER_TYPE && j < BITS_PER_TYPE && t < TYPE_USER && u < TYPE_USER
    ensures Id(i, t) == Id(j, u) <==> i == j && t == u
  {
    IdParts(i, t);
    IdParts(j, u);
  }

  // ----- The abstract allocator

  /** For each type, the last index issued and the indices now live. */
  datatype State = State(last: seq<nat>, live: seq<set<nat>>)

  ghost predicate Proper(s: State) {
    && |s.last| == |s.live| == TYPE_USER
    && forall t :: 0 <= t < TYPE_USER ==>
        s.last[t] <= LAST_INDEX && forall k :: k in s.live[t] ==> k < BITS_PER_TYPE
  }

  function Initial(): (s: State)
    ensures Proper(s)
  {
    State(seq(TYPE_USER, _ => 0), seq(TYPE_USER, _ => {}))
  }

  /** The counter stops at the last bit. */
  function NextIndex(s: State, t: nat): (r: nat)
    requires Proper(s) && t < TYPE_USER
    ensures 0 < r <= LAST_INDEX
  {
    if s.last[t] < LAST_INDEX then s.last[t] + 1 else LAST_INDEX
  }

  datatype Event = Clear | Alloc(objType: nat) | Delete(objType: nat, id: bv32)

  /** What a call reports: an aborted test, an ID and whether it overlaps a live
      one, or a deletion's two complaints. */
  datatype Outcome = Cleared | Abort | Issued(id: bv32, overlap: bool) | Deleted(wrongType: bool, neverCreated: bool)

  function DeletedIndex(id: bv32): nat {
    IndexOf(id) as nat
  }

  function DeletedType(id: bv32): nat {
    TypeOf(id) as nat
  }

  /** The calls whose effect the source defines: a deletion out of the table's
      bounds is reported, but then carried out. */
  predicate InBounds(e: Event) {
    e.Delete? ==> e.objType < TYPE_USER && DeletedIndex(e.id) < BITS_PER_TYPE
  }

  function Step(s: State, e: Event): (r: State)
    requires Proper(s) && InBounds(e)
    ensures Proper(r)
  {
    match e
    case Clear => Initial()
    case Alloc(t) =>
      if !ValidType(t) then s
      else s.(last := s.last[t := NextIndex(s, t)], live := s.live[t := s.live[t] + {NextIndex(s, t)}])
    case Delete(t, id) =>
      s.(live := s.live[t := s.live[t] - {DeletedIndex(id)}])
  }

  function Report(s: State, e: Event): Outcome
    requires Proper(s) && InBounds(e)
  {
    match e
    case Clear => Cleared
    case Alloc(t) =>
      if !ValidType(t) then Abort else Issued(Id(NextIndex(s, t), t), NextIndex(s, t) in s.live[t])
    case Delete(t, id) =>
      Deleted(DeletedType(id) != t, DeletedIndex(id) !in s.live[t])
  }

  predicate AllInBounds(es: seq<Event>) {
    forall i :: 0 <= i < |es| ==> InBounds(es[i])
  }

  ghost function Run(s: State, es: seq<Event>): (r: State)
    requires Proper(s) && AllInBounds(es)
    ensures Proper(r)
  {
    if es == [] then s else Step(Run(s, es[..|es| - 1]), es[|es| - 1])
  }

  /** What the `i`th call of a run reports. */
  ghost function ReportAt(s: State, es: seq<Event>, i: nat): Outcome
    requires Proper(s) && AllInBounds(es) && i < |es|
  {
    Report(Run(s, es[..i]), es[i])
  }

  // ----- Runs since the last clear

  predicate NoClear(es: seq<Event>) {
    forall i :: 0 <= i < |es| ==> es[i] != Clear
  }

  /** How many IDs of type `t` a run asks for since its last clear. */
  function Count(es: seq<Event>, t: nat): nat {
    if es == [] || es[|es| - 1] == Clear then 0
    else Count(es[..|es| - 1], t) + if es[|es| - 1] == Alloc(t) then 1 else 0
  }

  function Min(a: nat, b: nat): nat {
    if a <= b then a else b
  }

  lemma {:induction false} LastIsCount(es: seq<Event>, t: nat)
    requires AllInBounds(es) && ValidType(t)
    ensures Run(Initial(), es).last[t] == Min(Count(es, t), LAST_INDEX)
    decreases |es|
  {
    hide InBounds, DeletedIndex;
    if es != [] {
      LastIsCount(es[..|es| - 1], t);
    }
  }

  /** In every run, the `n`th request for a type since the last clear gets index
      `n`, whatever was deleted in between, and 255 from the 255th on. */
  lemma IssueNumber(es: seq<Event>, t: nat)
    requires AllInBounds(es) && ValidType(t)
    ensures NextIndex(Run(Initial(), es), t) == Min(Count(es, t) + 1, 255)
  {
    LastIsCount(es, t);
  }

  /** A request aborts the test exactly when its type is undefined or a user's. */
  lemma AbortIff(es: seq<Event>, t: nat)
    requires AllInBounds(es)
    ensures Report(Run(Initial(), es), Alloc(t)) == Abort <==> t == 0 || t >= 16
  {
    hide Run, Id, NextIndex;
  }

  lemma {:induction false} CountGrows(es: seq<Event>, i: nat, j: nat, t: nat)
    requires i < j <= |es| && NoClear(es[i..j])
    ensures Count(es[..i], t) + (if es[i] == Alloc(t) then 1 else 0) <= Count(es[..j], t)
    decreases j
  {
    assert es[..j][..j - 1] == es[..j - 1] && es[i..j][j - 1 - i] == es[j - 1];
    if i < j - 1 {
      assert es[i..j - 1] == es[i..j][..j - 1 - i];
      CountGrows(es, i, j - 1, t);
    }
  }

  /** Two requests of any run get the same ID exactly when they are of one type and
      stand at the same place since their last clears, or both from the 255th on. */
  lemma SameId(es: seq<Event>, i: nat, j: nat, t: nat, u: nat)
    requires AllInBounds(es) && i < |es| && j < |es|
    requires ValidType(t) && ValidType(u) && es[i] == Alloc(t) && es[j] == Alloc(u)
    ensures ReportAt(Initial(), es, i).Issued? && ReportAt(Initial(), es, j).Issued?
    ensures ReportAt(Initial(), es, i).id == ReportAt(Initial(), es, j).id
      <==> t == u && Min(Count(es[..i], t) + 1, 255) == Min(Count(es[..j], t) + 1, 255)
  {
    hide Id, Run, Count;
    IssueNumber(es[..i], t);
    IssueNumber(es[..j], u);
    IdInjective(NextIndex(Run(Initial(), es[..i]), t), t, NextIndex(Run(Initial(), es[..j]), u), u);
  }

  /** With no clear in between that is so exactly when they are of one type, the
      later one comes after 255 of that type and the earlier after 254.  So from
      each clear to the next the first 255 IDs of a type are distinct and are never
      issued again, deleted or not, except the 255th. */
  lemma IssuedTwice(es: seq<Event>, i: nat, j: nat, t: nat, u: nat)
    requires AllInBounds(es) && i < j < |es| && NoClear(es[i..j])
    requires ValidType(t) && ValidType(u) && es[i] == Alloc(t) && es[j] == Alloc(u)
    ensures ReportAt(Initial(), es, i).Issued? && ReportAt(Initial(), es, j).Issued?
    ensures ReportAt(Initial(), es, i).id == ReportAt(Initial(), es, j).id
      <==> t == u && Count(es[..i], t) >= 254 && Count(es[..j], t) >= 255
  {
    hide Run, Count, NoClear;
    SameId(es, i, j, t, u);
    CountGrows(es, i, j, t);
  }

  // ----- Liveness

  /** Call `i` of the run issues index `k` of type `t`. */
  ghost predicate Issues(es: seq<Event>, i: nat, t: nat, k: nat)
    requires AllInBounds(es)
  {
    i < |es| && es[i] == Alloc(t) && k == NextIndexAfter(es, i, t)
  }

  ghost function NextIndexAfter(es: seq<Event>, i: nat, t: nat): nat
    requires AllInBounds(es) && i <= |es|
  {
    if ValidType(t) then NextIndex(Run(Initial(), es[..i]), t) else 0
  }

  predicate Deletes(e: Event, t: nat, k: nat) {
    e.Delete? && e.objType == t && DeletedIndex(e.id) == k
  }

  /** Nothing after call `i` clears the table or deletes index `k` of type `t`. */
  predicate Stays(es: seq<Event>, i: nat, t: nat, k: nat) {
    forall j :: i < j < |es| ==> es[j] != Clear && !Deletes(es[j], t, k)
  }

  lemma InitialIsEmpty(t: nat)
    requires t < TYPE_USER
    ensures Initial().live[t] == {} && Run(Initial(), []) == Initial()
  {}

  lemma LiveStep(es: seq<Event>, t: nat, k: nat)
    requires AllInBounds(es) && ValidType(t) && es != []
    ensures var n := |es| - 1;
      k in Run(Initial(), es).live[t] <==>
        || Issues(es, n, t, k)
        || (k in Run(Initial(), es[..n]).live[t] && es[n] != Clear && !Deletes(es[n], t, k))
  {
    hide Id, NextIndex, DeletedIndex, Initial;
    var n := |es| - 1;
    assert es[..n] == es[..|es| - 1];
    match es[n]
    case Clear => InitialIsEmpty(t);
    case Alloc(u) =>
    case Delete(u, id) =>
  }

  lemma IssuesPrefix(es: seq<Event>, n: nat, i: nat, t: nat, k: nat)
    requires AllInBounds(es) && i < n <= |es|
    ensures Issues(es[..n], i, t, k) <==> Issues(es, i, t, k)
  {
    assert es[..n][..i] == es[..i];
  }

  /** An index is live exactly when some call issued it and no later call deleted
      it or cleared the table: the bitmap refines the history of the run. */
  lemma {:induction false} LiveIff(es: seq<Event>, t: nat, k: nat)
    requires AllInBounds(es) && ValidType(t)
    ensures k in Run(Initial(), es).live[t] <==> exists i: nat :: Issues(es, i, t, k) && Stays(es, i, t, k)
    decreases |es|
  {
    hide Run, Step, NextIndexAfter;
    if es == [] {
      InitialIsEmpty(t);
    } else {
      var n := |es| - 1;
      LiveIff(es[..n], t, k);
      LiveStep(es, t, k);
      forall i: nat | i < n
        ensures Issues(es[..n], i, t, k) <==> Issues(es, i, t, k)
      {
        IssuesPrefix(es, n, i, t, k);
      }
      assert Issues(es, n, t, k) ==> Stays(es, n, t, k);
      assert forall i: nat :: i < n ==>
        (Stays(es, i, t, k) <==> Stays(es[..n], i, t, k) && es[n] != Clear && !Deletes(es[n], t, k));
    }
  }

  /** So an overlap is reported exactly when the ID returned was issued before and
      has stayed; never for the first 255 of a type. */
  lemma OverlapIff(es: seq<Event>, t: nat)
    requires AllInBounds(es) && ValidType(t)
    ensures var k := NextIndexAfter(es, |es|, t);
      Report(Run(Initial(), es), Alloc(t)) ==
        Issued(Id(k, t), exists i: nat :: Issues(es, i, t, k) && Stays(es, i, t, k))
  {
    hide Run, Id, Issues, Stays;
    assert es[..|es|] == es;
    LiveIff(es, t, NextIndexAfter(es, |es|, t));
  }

  // An index not yet reached since the last clear has not been issued and left.
  lemma NotYetIssued(es: seq<Event>, i: nat, t: nat, k: nat)
    requires AllInBounds(es) && ValidType(t) && k == Count(es, t) + 1 <= LAST_INDEX
    requires Issues(es, i, t, k)
    ensures !Stays(es, i, t, k)
  {
    hide Run, NextIndex, InBounds, Deletes;
    IssueNumber(es[..i], t);
    if Stays(es, i, t, k) {
      assert NoClear(es[i..|es|]);
      assert es[..|es|] == es;
      CountGrows(es, i, |es|, t);
    }
  }

  /** The first 255 of a type since the last clear never overlap. */
  lemma NoEarlyOverlap(es: seq<Event>, t: nat)
    requires AllInBounds(es) && ValidType(t) && Count(es, t) < 255
    ensures ReportAt(Initial(), es + [Alloc(t)], |es|) == Issued(Id(Count(es, t) + 1, t), false)
  {
    hide Run, Id, Count, Issues, Stays, NextIndex, Report;
    assert (es + [Alloc(t)])[..|es|] == es && es[..|es|] == es;
    OverlapIff(es, t);
    IssueNumber(es, t);
    var k := Count(es, t) + 1;
    forall i: nat | Issues(es, i, t, k)
      ensures !Stays(es, i, t, k)
    {
      NotYetIssued(es, i, t, k);
    }
  }

  /** What a deletion complains of: the ID's type is not the one given, and no call
      has issued that index of the type given and left it there. */
  lemma DeletionIff(es: seq<Event>, t: nat, id: bv32)
    requires AllInBounds(es) && ValidType(t) && IndexOf(id) as nat < 256
    ensures var k := IndexOf(id) as nat;
      Report(Run(Initial(), es), Delete(t, id)) ==
        Deleted(TypeOf(id) as nat != t, !exists i: nat :: Issues(es, i, t, k) && Stays(es, i, t, k))
  {
    hide Run, Issues, Stays, IndexOf, TypeOf;
    LiveIff(es, t, IndexOf(id) as nat);
  }

  /** Of the undefined type nothing is ever created. */
  lemma {:induction false} NothingUndefined(es: seq<Event>)
    requires AllInBounds(es)
    ensures Run(Initial(), es).live[0] == {}
    decreases |es|
  {
    hide Id, NextIndex, DeletedIndex;
    if es != [] {
      NothingUndefined(es[..|es| - 1]);
    }
  }

  lemma DeletionOfUndefined(es: seq<Event>, id: bv32)
    requires AllInBounds(es) && IndexOf(id) as nat < 256
    ensures Report(Run(Initial(), es), Delete(0, id)) == Deleted(TypeOf(id) as nat != 0, true)
  {
    hide Run, IndexOf, TypeOf;
    NothingUndefined(es);
  }

  /** The ID just issued can be deleted without complaint, once: again it was never
      created. */
  lemma DeleteJustIssued(es: seq<Event>, t: nat)
    requires AllInBounds(es) && ValidType(t)
    ensures var id := Id(NextIndex(Run(Initial(), es), t), t);
      var s := Run(Initial(), es + [Alloc(t)]);
      && Report(Run(Initial(), es), Alloc(t)).Issued? && Report(Run(Initial(), es), Alloc(t)).id == id
      && InBounds(Delete(t, id))
      && Report(s, Delete(t, id)) == Deleted(false, false)
      && Report(Step(s, Delete(t, id)), Delete(t, id)) == Deleted(false, true)
  {
    hide Run, Id, IndexOf, TypeOf;
    var k := NextIndex(Run(Initial(), es), t);
    IdParts(k, t);
    RunSnoc(es, Alloc(t));
  }

  lemma RunSnoc(es: seq<Event>, e: Event)
    requires AllInBounds(es) && InBounds(e)
    ensures AllInBounds(es + [e]) && Run(Initial(), es + [e]) == Step(Run(Initial(), es), e)
  {
    hide Step;
    assert (es + [e])[..|es + [e]| - 1] == es;
  }

  // ----- From an issued ID to a table slot

  /** The configured limits, by type; types without a table have none. */
  function MaxObjects(t: nat): nat {
    if t == 1 || t == 2 then 64
    else if t == 3 || t == 4 || t == 5 then 20
    else if t == 6 then 50
    else if t == 7 then 4
    else if t == 8 then 5
    else if t == 9 then 10
    else if t == 10 then 20
    else if t == 11 then 14
    else 0
  }

  const BIZARRE: nat := 0xDEADBEEF

  predicate HasSlot(index: nat, t: nat) {
    ValidType(t) ==> MaxObjects(t) > 0
  }

  function SlotOf(index: nat, t: nat): nat
    requires HasSlot(index, t)
  {
    if ValidType(t) then index % MaxObjects(t) else index
  }

  /** OS_ConvertToArrayIndex's default handler.  The remainder is defined for
      the types with a limit. */
  function ArrayIndex(ok: bool, id: bv32): nat
    requires ok ==> HasSlot(IndexOf(id) as nat, TypeOf(id) as nat)
  {
    if !ok then BIZARRE else SlotOf(IndexOf(id) as nat, TypeOf(id) as nat)
  }

  /** The slots of tasks, queues, counting and binary semaphores, mutexes, streams,
      directories, timebases, timer callbacks, modules and file systems, with the
      default configuration's limits. */
  lemma DefaultSlots(k: nat, t: nat)
    requires k < 256 && 0 < t < 12
    ensures HasSlot(IndexOf(Id(k, t)) as nat, TypeOf(Id(k, t)) as nat)
    ensures ArrayIndex(true, Id(k, t)) == k % [64, 64, 20, 20, 20, 50, 4, 5, 10, 20, 14][t - 1]
  {
    hide Id, IndexOf, TypeOf, ArrayIndex;
    SlotOfId(k, t);
  }

  /** A failed conversion gives the bizarre index; an ID whose type has no table by
      its number, the undefined and the users' types, gives its own. */
  lemma OtherSlots(id: bv32)
    ensures ArrayIndex(false, id) == 0xDEADBEEF
    ensures TypeOf(id) as nat == 0 || TypeOf(id) as nat >= 16 ==> ArrayIndex(true, id) == IndexOf(id) as nat
  {
    hide IndexOf, TypeOf;
  }

  lemma DivMod(i: nat, m: nat)
    requires m > 0
    ensures i == (i / m) * m + i % m && 0 <= i % m < m
  {}

  lemma NoMultipleBetween(d: int, m: nat)
    ensures d * m <= 0 || d * m >= m
  {
    if d >= 1 {
      assert d * m == (d - 1) * m + m;
      assert (d - 1) * m >= 0;
    } else {
      assert (-d) * m >= 0;
    }
  }

  lemma Remainders(i: nat, j: nat, m: nat)
    requires i < j < i + m
    ensures i % m != j % m && i % m < m && j % m < m
  {
    DivMod(i, m);
    DivMod(j, m);
    var q, r := i / m, j / m;
    NoMultipleBetween(r - q, m);
    assert (r - q) * m == r * m - q * m;
  }

  lemma SlotOfId(index: nat, t: nat)
    requires index < BITS_PER_TYPE && ValidType(t) && MaxObjects(t) > 0
    ensures HasSlot(IndexOf(Id(index, t)) as nat, TypeOf(Id(index, t)) as nat)
    ensures TypeOf(Id(index, t)) as nat == t && ArrayIndex(true, Id(index, t)) == index % MaxObjects(t)
  {
    hide Id, IndexOf, TypeOf, MaxObjects;
    IdParts(index, t);
  }

  /** With no clear in between, two requests of a type no further apart than its
      table has slots get slots within the table, and different ones exactly when the
      earlier comes before the 255th.  So any run of that many consecutive IDs of a
      type that ends with its 255th has distinct slots. */
  lemma WindowSlots(es: seq<Event>, i: nat, j: nat, t: nat)
    requires AllInBounds(es) && i < j < |es| && NoClear(es[i..j]) && ValidType(t) && MaxObjects(t) > 0
    requires es[i] == Alloc(t) && es[j] == Alloc(t)
    requires Count(es[..j], t) - Count(es[..i], t) < MaxObjects(t)
    ensures var a, b := ReportAt(Initial(), es, i), ReportAt(Initial(), es, j);
      && a.Issued? && b.Issued?
      && HasSlot(IndexOf(a.id) as nat, TypeOf(a.id) as nat) && HasSlot(IndexOf(b.id) as nat, TypeOf(b.id) as nat)
      && ArrayIndex(true, a.id) < MaxObjects(t) && ArrayIndex(true, b.id) < MaxObjects(t)
      && (ArrayIndex(true, a.id) != ArrayIndex(true, b.id) <==> Count(es[..i], t) < 254)
  {
    hide Run, Count, Id, MaxObjects, IndexOf, TypeOf, HasSlot, ArrayIndex, NoClear;
    var m, n := Min(Count(es[..i], t) + 1, LAST_INDEX), Min(Count(es[..j], t) + 1, LAST_INDEX);
    IssueNumber(es[..i], t);
    IssueNumber(es[..j], t);
    CountGrows(es, i, j, t);
    SlotOfId(m, t);
    SlotOfId(n, t);
    DivMod(m, MaxObjects(t));
    DivMod(n, MaxObjects(t));
    if m < n {
      Remainders(m, n, MaxObjects(t));
    }
  }
}
