/** Whole runs of inserts and deletes, starting from any well-formed list. */
module ZiplistRuns {
  import opened Bytes
  import opened ZiplistCodec
  import opened ZiplistLayout
  import opened ZiplistOps
  import opened ZiplistBytes
  import opened ZiplistEdits
  import opened ZiplistShrink
  import Z = Ziplist

  /** Insert the string s in front of element k, or delete up to num elements from k on. */
  datatype Op = Ins(k: nat, s: seq<byte>) | Del(k: nat, num: nat)

  function Count(num: nat, k: nat, n: nat): (m: nat)
    requires k <= n
    ensures k + m <= n
  {
    if num <= n - k then num else n - k
  }

  /** What one operation does to a plain sequence. */
  function PlainStep(items: seq<Item>, op: Op, strtoll: seq<byte> -> Option<int>): (r: seq<Item>)
    requires op.k <= |items|
  {
    match op
    case Ins(k, s) => items[..k] + [ItemOf(strtoll, s)] + items[k..]
    case Del(k, num) => items[..k] + items[k + Count(num, k, |items|)..]
  }

  predicate PlainOk(items: seq<Item>, ops: seq<Op>, strtoll: seq<byte> -> Option<int>)
    decreases |ops|
  {
    ops == [] || (ops[0].k <= |items| && PlainOk(PlainStep(items, ops[0], strtoll), ops[1..], strtoll))
  }

  function PlainRun(items: seq<Item>, ops: seq<Op>, strtoll: seq<byte> -> Option<int>): (r: seq<Item>)
    requires PlainOk(items, ops, strtoll)
    decreases |ops|
  {
    if ops == [] then items else PlainRun(PlainStep(items, ops[0], strtoll), ops[1..], strtoll)
  }

  /** The operation fits, and an insert is one of those that are right. */
  predicate StepOk(es: seq<Entry>, op: Op, strtoll: seq<byte> -> Option<int>) {
    match op
    case Ins(k, s) =>
      var item := ItemOf(strtoll, s);
      k <= |es| && ItemOk(item) && Room(es, |Body(item)| + 9) && InsertRight(es, k, item)
    case Del(k, num) => k < |es| && Room(es, 0)
  }

  function Step(es: seq<Entry>, op: Op, strtoll: seq<byte> -> Option<int>): (r: seq<Entry>)
    requires StepOk(es, op, strtoll)
  {
    match op
    case Ins(k, s) => InsertEntry(es, k, ItemOf(strtoll, s))
    case Del(k, num) => DeleteEntries(es, k, Count(num, k, |es|))
  }

  predicate RunOk(es: seq<Entry>, ops: seq<Op>, strtoll: seq<byte> -> Option<int>)
    decreases |ops|
  {
    ops == [] || (StepOk(es, ops[0], strtoll) && RunOk(Step(es, ops[0], strtoll), ops[1..], strtoll))
  }

  function Run(es: seq<Entry>, ops: seq<Op>, strtoll: seq<byte> -> Option<int>): (r: seq<Entry>)
    requires RunOk(es, ops, strtoll)
    decreases |ops|
  {
    if ops == [] then es else Run(Step(es, ops[0], strtoll), ops[1..], strtoll)
  }

  lemma StepRefines(es: seq<Entry>, op: Op, strtoll: seq<byte> -> Option<int>)
    requires Fits(0, es) && StepOk(es, op, strtoll)
    ensures Fits(0, Step(es, op, strtoll))
    ensures Items(Step(es, op, strtoll)) == PlainStep(Items(es), op, strtoll)
  {
    hide Fits, Items, Body, Size, Room, InsertEntry, DeleteEntries, InsertRight, ItemOf;
    match op
    case Ins(k, s) => InsertRefines(es, k, ItemOf(strtoll, s));
    case Del(k, num) => DeleteRefines(es, k, Count(num, k, |es|));
  }

  /** Over any run, the items of the ziplist are those of the plain sequence. */
  lemma {:induction false} RunRefines(es: seq<Entry>, ops: seq<Op>, strtoll: seq<byte> -> Option<int>)
    requires Fits(0, es) && RunOk(es, ops, strtoll)
    ensures Fits(0, Run(es, ops, strtoll)) && PlainOk(Items(es), ops, strtoll)
    ensures Items(Run(es, ops, strtoll)) == PlainRun(Items(es), ops, strtoll)
    decreases |ops|
  {
    hide Fits, Items, Body, Size, Room, InsertEntry, DeleteEntries, InsertRight, ItemOf, PlainStep, Step;
    if ops != [] {
      StepRefines(es, ops[0], strtoll);
      RunRefines(Step(es, ops[0], strtoll), ops[1..], strtoll);
    }
  }

  /** The run on the bytes: positions come from ziplistIndex, or are the end. */
  method Execute(z: Z.Ziplist, ops: seq<Op>, strtoll: seq<byte> -> Option<int>)
    requires z.Valid() && RunOk(z.entries, ops, strtoll)
    requires forall i | 0 <= i < |ops| :: ops[i].k < 0x8000_0000
    modifies z, z.zl
    ensures z.Valid() && (z.zl == old(z.zl) || fresh(z.zl))
    ensures z.entries == Run(old(z.entries), ops, strtoll)
    ensures PlainOk(Items(old(z.entries)), ops, strtoll)
    ensures Items(z.entries) == PlainRun(Items(old(z.entries)), ops, strtoll)
  {
    hide Fits, Items, Body, Size, Room, InsertEntry, DeleteEntries, InsertRight, ItemOf, PlainStep, Layout, Offset,
         PlainRun, PlainOk, Inserted;
    RunRefines(z.entries, ops, strtoll);
    var i := 0;
    while i < |ops|
      invariant 0 <= i <= |ops|
      invariant z.Valid() && (z.zl == old(z.zl) || fresh(z.zl))
      invariant RunOk(z.entries, ops[i..], strtoll)
      invariant Run(z.entries, ops[i..], strtoll) == Run(old(z.entries), ops, strtoll)
    {
      assert ops[i..][0] == ops[i] && ops[i..][1..] == ops[i + 1..];
      var at := z.Index(ops[i].k);
      match ops[i] {
        case Ins(k, s) =>
          RightInside(z.entries, k, ItemOf(strtoll, s));
          if at.None? {
            EndPosition(z.zl[..], z.entries, StoredLen(z.zl[..]));
            z.Insert(z.zl.Length - 1, s, strtoll, k);
          } else {
            z.Insert(at.value, s, strtoll, k);
          }
        case Del(k, num) =>
          z.Delete(at.value, num, k);
      }
      i := i + 1;
    }
  }

  lemma RightInside(es: seq<Entry>, k: nat, item: Item)
    requires k <= |es| && Fits(0, es) && ItemOk(item) && Room(es, |Body(item)| + 9) && InsertRight(es, k, item)
    ensures InsertInside(es, k, item) && Inserted(es, k, item) == InsertEntry(es, k, item)
  {
    hide Fits, Body, Room, Inserted, InsertEntry, Growth, LastByte, ItemOk;
    RightIff(es, k, item, 0);
  }

  lemma EndPosition(s: seq<byte>, es: seq<Entry>, zllen: nat)
    requires s == Layout(es, zllen) && zllen <= UINT16_MAX
    ensures |s| >= 1 && Offset(es, |es|) == |s| - 1
  {
    hide Layout, Offset;
    OffsetEnd(es);
    StoredLenIs(es, zllen);
  }

  // ------------------------------------------- inserts that are not right

  function Text(n: nat): (s: seq<byte>)
    ensures |s| == n
  {
    seq(n, _ => 97)
  }

  function NoNumber(s: seq<byte>): (r: Option<int>) { None }

  /** Such inserts are reachable: push 250 bytes and 1 byte, insert 300 bytes in front
      (both pointers widen), delete them again (the second pointer stays wide). Inserting one
      character between the two then turns the last element into the byte 255, and for the
      empty string the move reads past the buffer. */
  lemma GuardCanFail()
    ensures var ops := [Ins(0, Text(250)), Ins(1, Text(1)), Ins(0, Text(300)), Del(0, 1)];
            RunOk([], ops, NoNumber) &&
            var es := Run([], ops, NoNumber);
            && |es| == 2 && es[1].item == Str(Text(1))
            && InsertInside(es, 1, Str(Text(1))) && !InsertRight(es, 1, Str(Text(1)))
            && Inserted(es, 1, Str(Text(1)))[2].item == Str([ZIP_END])
            && !InsertInside(es, 1, Str([]))
  {
    hide Text, Step, StepOk, InsertRight;
    var o1, o2, o3, o4 := Ins(0, Text(250)), Ins(1, Text(1)), Ins(0, Text(300)), Del(0, 1);
    var a, b, c := Str(Text(250)), Str(Text(1)), Str(Text(300));
    var es1, es2 := [Entry(false, a)], [Entry(false, a), Entry(false, b)];
    var es3, es4 := [Entry(false, c), Entry(true, a), Entry(true, b)], [Entry(false, a), Entry(true, b)];
    PushBoth();
    assert es1 + [Entry(false, b)] == es2;
    WidenBoth();
    NarrowFirst();
    LastOverwritten();
    assert [o4][1..] == [] && [o3, o4][1..] == [o4];
    assert [o2, o3, o4][1..] == [o3, o4] && [o1, o2, o3, o4][1..] == [o2, o3, o4];
    assert RunOk(es3, [o4], NoNumber) && Run(es3, [o4], NoNumber) == es4;
    assert RunOk(es2, [o3, o4], NoNumber) && Run(es2, [o3, o4], NoNumber) == es4;
    assert RunOk(es1, [o2, o3, o4], NoNumber) && Run(es1, [o2, o3, o4], NoNumber) == es4;
  }

  lemma PushBoth()
    ensures var o1, o2 := Ins(0, Text(250)), Ins(1, Text(1));
            var es1 := [Entry(false, Str(Text(250)))];
            && StepOk([], o1, NoNumber) && Step([], o1, NoNumber) == es1
            && StepOk(es1, o2, NoNumber) && Step(es1, o2, NoNumber) == es1 + [Entry(false, Str(Text(1)))]
  {
    var a := Entry(false, Str(Text(250)));
    assert |Body(a.item)| == 252;
    SizeOne(a);
    assert [a][..1] == [a] && [a][1..] == [];
  }

  lemma WidenBoth()
    ensures var a, b, c := Str(Text(250)), Str(Text(1)), Str(Text(300));
            var es2, o3 := [Entry(false, a), Entry(false, b)], Ins(0, Text(300));
            && StepOk(es2, o3, NoNumber)
            && Step(es2, o3, NoNumber) == [Entry(false, c), Entry(true, a), Entry(true, b)]
  {
    var a, b, c := Str(Text(250)), Str(Text(1)), Str(Text(300));
    assert |Body(a)| == 252 && |Body(b)| == 2 && |Body(c)| == 302;
    var es2 := [Entry(false, a), Entry(false, b)];
    SizeOne(Entry(false, b));
    assert es2[1..] == [Entry(false, b)] && es2[..0] == [] && es2[0..] == es2;
    assert Size(es2) == 253 + Size(es2[1..]);
    RelinkCons(303, Entry(false, a), [Entry(false, b)]);
    assert [Entry(false, a)] + [Entry(false, b)] == es2;
    assert Cascade(257, [Entry(false, b)]) == [Entry(true, b)] by { assert [Entry(false, b)][1..] == []; }
  }

  lemma NarrowFirst()
    ensures var a, b, c := Str(Text(250)), Str(Text(1)), Str(Text(300));
            var es3, o4 := [Entry(false, c), Entry(true, a), Entry(true, b)], Del(0, 1);
            var es4 := [Entry(false, a), Entry(true, b)];
            StepOk(es3, o4, NoNumber) && Step(es3, o4, NoNumber) == es4
  {
    var a, b, c := Str(Text(250)), Str(Text(1)), Str(Text(300));
    assert |Body(a)| == 252 && |Body(b)| == 2 && |Body(c)| == 302;
    var es3 := [Entry(false, c), Entry(true, a), Entry(true, b)];
    var es4 := [Entry(false, a), Entry(true, b)];
    SizeOne(Entry(true, b));
    assert es3[1..] == [Entry(true, a), Entry(true, b)] && es3[1..][1..] == [Entry(true, b)];
    assert Size(es3) == 303 + Size(es3[1..]) && Size(es3[1..]) == 257 + Size(es3[1..][1..]);
    RelinkCons(0, Entry(true, a), [Entry(true, b)]);
    assert [Entry(true, a)] + [Entry(true, b)] == es3[1..];
    assert es3[..0] == [];
  }

  lemma LastOverwritten()
    ensures var a, b := Str(Text(250)), Str(Text(1));
            var es4 := [Entry(false, a), Entry(true, b)];
            && InsertInside(es4, 1, b) && !InsertRight(es4, 1, b)
            && Inserted(es4, 1, b)[2].item == Str([ZIP_END])
            && !InsertInside(es4, 1, Str([]))
  {
    var a, b := Str(Text(250)), Str(Text(1));
    assert |Body(a)| == 252 && |Body(b)| == 2 && |Body(Str([]))| == 1;
    assert LastByte(b) == 97;
    var es4 := [Entry(false, a), Entry(true, b)];
    assert es4[..1] == [Entry(false, a)];
    InsertClobber(es4, 1, b);
    var r := InsertEntry(es4, 1, b);
    assert r == [Entry(false, a)] + [Entry(false, b)] + Relink(3, es4[1..]);
    assert r[2].item == b;
    assert Clobbered(b) == Str([ZIP_END]);
  }
}
