/** The intset of src/redis_intset.c: a sorted array of integers whose field width grows
    in place when a wider value arrives. The ghost field values says what it holds. */
module Intset {
  import opened Bytes
  import opened IntsetLayout

  /** The byte count of intsetResize is a 32-bit unsigned number, and min+max in the search
      is an int. */
  predicate Addressable(length: nat, encoding: nat) {
    At(length, encoding) < TWO32 && length <= 0x4000_0000
  }

  function Wider(a: nat, b: nat): (r: nat) { if a < b then b else a }

  lemma FewFit(length: nat, encoding: nat)
    requires length < 0x2000_0000 && encoding <= 8
    ensures Addressable(length, encoding)
  {
    AtOrder(length, length, encoding, 8);
  }

  class Intset {
    var encoding: nat
    var length: nat
    var contents: array<byte>
    ghost var values: seq<int>

    /** The array is strictly increasing, within its encoding, and exactly as long as needed. */
    ghost predicate Valid()
      reads this, contents
    {
      && IsEncoding(encoding) && length == |values| && Addressable(length, encoding)
      && AllFit(values, encoding) && Increasing(values)
      && contents[..] == Pack(values, encoding)
    }

    /** The set of integers held. */
    ghost function Elements(): (s: set<int>)
      reads this
    {
      set v | v in values
    }

    /** intsetNew */
    constructor ()
      ensures Valid() && fresh(contents) && Elements() == {}
    {
      encoding, length := ENC_INT16, 0;
      contents := new byte[0];
      values := [];
    }

    /** _intsetGet */
    method GetAt(pos: nat) returns (v: int)
      requires Valid() && pos < length
      ensures v == values[pos]
    {
      hide Pack, At, Load;
      PackLoads(values, pos, encoding);
      v := Load(contents[..], pos, encoding);
    }

    /** intsetSearch: where value is, or where it belongs. */
    method Search(value: int) returns (found: bool, pos: nat)
      requires Valid()
      ensures found <==> value in values
      ensures found ==> pos < |values| && values[pos] == value
      ensures !found ==> pos <= |values| && (forall i | 0 <= i < pos :: values[i] < value)
                         && (forall i | pos <= i < |values| :: values[i] > value)
    {
      hide Pack, At, AllFit;
      if length == 0 {
        return false, 0;
      }
      var last := GetAt(length - 1);
      var first := GetAt(0);
      if value > last {
        MemberAt(values, value, length);
        return false, length;
      } else if value < first {
        MemberAt(values, value, 0);
        return false, 0;
      }
      var min: int, max: int := 0, length - 1;
      var mid: int, cur: int := -1, -1;
      while max >= min
        invariant 0 <= min <= max + 1 <= length && -1 <= mid < length
        invariant forall i | 0 <= i < min :: values[i] < value
        invariant forall i | max < i < |values| :: values[i] > value
        invariant mid >= 0 ==> cur == values[mid] && cur != value
        invariant mid < 0 ==> min == 0 && max == length - 1
      {
        mid := (min + max) / 2;
        cur := GetAt(mid);
        if value > cur {
          min := mid + 1;
        } else if value < cur {
          max := mid - 1;
        } else {
          break;
        }
      }
      if value == cur {
        return true, mid;
      } else {
        MemberAt(values, value, min);
        return false, min;
      }
    }

    /** intsetResize: realloc to len fields of the current encoding. */
    method Resize(len: nat)
      modifies this`contents
      ensures fresh(contents) && contents.Length == At(len, encoding)
      ensures var m := if old(contents.Length) < contents.Length then old(contents.Length) else contents.Length;
              contents[..m] == old(contents[..m])
    {
      var n := len * encoding;
      var b := new byte[n];
      var m := if contents.Length < n then contents.Length else n;
      forall i | 0 <= i < m {
        b[i] := contents[i];
      }
      contents := b;
    }

    /** _intsetSet */
    method Set(pos: nat, value: int)
      requires At(pos, encoding) + encoding <= contents.Length
      modifies contents
      ensures contents[..] == Blit(old(contents[..]), At(pos, encoding), LE(value, encoding))
    {
      Memcpy(contents, At(pos, encoding), LE(value, encoding));
    }

    /** Lines 174-175: move every element into its wide field, last one first. */
    method WidenAll(curenc: nat, prepend: nat, ghost vs: seq<int>)
      requires IsEncoding(curenc) && AllFit(vs, curenc) && length == |vs|
      requires Widening(contents[..], vs, length, curenc, encoding, prepend)
      modifies contents
      ensures Widening(contents[..], vs, 0, curenc, encoding, prepend)
    {
      hide LE, At, Pack, Load, Widening, Blit;
      var len: nat := length;
      while len > 0
        invariant len <= |vs| && Widening(contents[..], vs, len, curenc, encoding, prepend)
      {
        WideningLoads(contents[..], vs, len, curenc, encoding, prepend);
        WideningStep(contents[..], vs, len, curenc, encoding, prepend);
        len := len - 1;
        var v := Load(contents[..], len, curenc);
        Set(len + prepend, v);
      }
    }

    /** intsetUpgradeAndAdd: widen every field, then put value at the end it belongs to. */
    method UpgradeAndAdd(value: int)
      requires Valid() && IsInt64(value) && ValueEncoding(value) > encoding
      requires Addressable(length + 1, ValueEncoding(value))
      modifies this
      ensures Valid() && fresh(contents) && encoding == ValueEncoding(value)
      ensures values == if value < 0 then [value] + old(values) else old(values) + [value]
    {
      hide LE, At, Pack, Load, Widening, Blit, ValueEncoding;
      ghost var vs := values;
      var curenc := encoding;
      var newenc := ValueEncoding(value);
      var prepend := if value < 0 then 1 else 0;
      PackSize(vs, curenc);
      encoding := newenc;
      Resize(length + 1);
      StartWidening(vs, contents[..], curenc, newenc, prepend);
      WidenAll(curenc, prepend, vs);
      FinishWidening(contents[..], vs, curenc, newenc, prepend, value);
      if prepend == 1 {
        Set(0, value);
      } else {
        Set(length, value);
      }
      length := length + 1;
      values := if value < 0 then [value] + vs else vs + [value];
      UpgradeSorted(vs, curenc, value);
    }

    /** intsetMoveTail: the elements from position from on, to position to (a memmove). */
    method MoveTail(from: nat, to: nat)
      requires from <= length && At(length, encoding) <= contents.Length
      requires At(to, encoding) + At(length - from, encoding) <= contents.Length
      modifies contents
      ensures contents[..] == Moved(old(contents[..]), At(to, encoding), At(from, encoding),
                                    At(length - from, encoding))
    {
      hide At;
      AtSum(from, length - from, encoding);
      Memmove(contents, At(to, encoding), At(from, encoding), At(length - from, encoding));
    }

    /** intsetAdd: a value that is not there yet needs one more field, perhaps a wider one. */
    method Add(value: int) returns (success: bool)
      requires Valid() && IsInt64(value)
      requires value !in values ==> Addressable(length + 1, Wider(encoding, ValueEncoding(value)))
      modifies this, contents
      ensures Valid() && (contents == old(contents) || fresh(contents))
      ensures Elements() == old(Elements()) + {value}
      ensures success <==> value !in old(Elements())
    {
      hide LE, At, Pack, Load, Blit, Moved, ValueEncoding;
      var valenc := ValueEncoding(value);
      if valenc > encoding {
        OutsideAll(values, encoding, value);
        UpgradeAndAdd(value);
        return true;
      }
      var found, pos := Search(value);
      if found {
        return false;
      }
      ghost var vs := values;
      PackSize(vs, encoding);
      AtStep(length, encoding);
      AtStep(pos, encoding);
      AtSum(pos, length - pos, encoding);
      Resize(length + 1);
      InsertedPacks(vs, pos, value, encoding, contents[..]);
      if pos < length {
        MoveTail(pos, pos + 1);
      }
      Set(pos, value);
      length := length + 1;
      values := vs[..pos] + [value] + vs[pos..];
      InsertSorted(vs, pos, value, encoding);
      return true;
    }

    /** intsetRemove */
    method Remove(value: int) returns (success: bool)
      requires Valid() && IsInt64(value)
      modifies this, contents
      ensures Valid() && (contents == old(contents) || fresh(contents))
      ensures Elements() == old(Elements()) - {value}
      ensures success <==> value in old(Elements())
    {
      hide LE, At, Pack, Load, Blit, Moved, ValueEncoding;
      var valenc := ValueEncoding(value);
      if valenc > encoding {
        OutsideAll(values, encoding, value);
        return false;
      }
      var found, pos := Search(value);
      if !found {
        return false;
      }
      ghost var vs := values;
      PackSize(vs, encoding);
      AtStep(pos, encoding);
      AtStep(length - 1, encoding);
      AtSum(pos, length - (pos + 1), encoding);
      AtSum(pos + 1, length - (pos + 1), encoding);
      RemovedPacks(vs, pos, encoding);
      if pos < length - 1 {
        MoveTail(pos + 1, pos);
      }
      Resize(length - 1);
      length := length - 1;
      values := vs[..pos] + vs[pos + 1..];
      RemoveSorted(vs, pos, encoding);
      return true;
    }

    /** intsetFind */
    method Find(value: int) returns (found: bool)
      requires Valid() && IsInt64(value)
      ensures found <==> value in Elements()
    {
      var valenc := ValueEncoding(value);
      if valenc > encoding {
        OutsideAll(values, encoding, value);
        return false;
      }
      var pos;
      found, pos := Search(value);
    }

    /** intsetGet: the elements by increasing rank. */
    method Get(pos: nat) returns (value: Option<int>)
      requires Valid()
      ensures value.Some? <==> pos < |values|
      ensures value.Some? ==> value.value == values[pos]
    {
      if pos < length {
        var v := GetAt(pos);
        return Some(v);
      }
      return None;
    }

    /** intsetLen: the number of distinct elements. */
    method Len() returns (n: nat)
      requires Valid()
      ensures n == |Elements()|
    {
      CountIncreasing(values);
      n := length;
    }
  }

  datatype Op = AddOp(value: int) | RemoveOp(value: int) | FindOp(value: int)

  /** What one operation does to a mathematical set of integers, and what it answers. */
  function SetAfter(s: set<int>, op: Op): (r: set<int>) {
    match op
    case AddOp(v) => s + {v}
    case RemoveOp(v) => s - {v}
    case FindOp(v) => s
  }

  function SetAnswer(s: set<int>, op: Op): (b: bool) {
    if op.AddOp? then op.value !in s else op.value in s
  }

  /** The set after the operations, and the answers they gave. */
  function SetRun(ops: seq<Op>): (r: (set<int>, seq<bool>)) {
    if ops == [] then ({}, [])
    else
      var (s, answers) := SetRun(ops[..|ops| - 1]);
      var op := ops[|ops| - 1];
      (SetAfter(s, op), answers + [SetAnswer(s, op)])
  }

  lemma {:induction false} SetRunSize(ops: seq<Op>)
    ensures |SetRun(ops).0| <= |ops|
  {
    if ops != [] {
      SetRunSize(ops[..|ops| - 1]);
    }
  }

  lemma SetRunNone(ops: seq<Op>)
    ensures SetRun(ops[..0]) == ({}, [])
  {
  }

  lemma SetRunStep(ops: seq<Op>, i: nat)
    requires i < |ops|
    ensures var (s, answers) := SetRun(ops[..i]);
            SetRun(ops[..i + 1]) == (SetAfter(s, ops[i]), answers + [SetAnswer(s, ops[i])])
  {
    assert ops[..i + 1][..i] == ops[..i];
  }

  lemma WiderOk(encoding: nat, v: int)
    requires IsEncoding(encoding)
    ensures Wider(encoding, ValueEncoding(v)) <= 8
  {
  }

  method Step(ints: Intset, op: Op) returns (answer: bool)
    requires ints.Valid() && IsInt64(op.value)
    requires op.AddOp? && op.value !in ints.values ==>
               Addressable(ints.length + 1, Wider(ints.encoding, ValueEncoding(op.value)))
    modifies ints, ints.contents
    ensures ints.Valid() && (ints.contents == old(ints.contents) || fresh(ints.contents))
    ensures ints.Elements() == SetAfter(old(ints.Elements()), op)
    ensures answer == SetAnswer(old(ints.Elements()), op)
  {
    match op
    case AddOp(v) => answer := ints.Add(v);
    case RemoveOp(v) => answer := ints.Remove(v);
    case FindOp(v) => answer := ints.Find(v);
  }

  /** Every run from an empty intset answers as a mathematical set would. */
  method Execute(ops: seq<Op>) returns (ints: Intset, answers: seq<bool>)
    requires |ops| < 0x2000_0000 && (forall i | 0 <= i < |ops| :: IsInt64(ops[i].value))
    ensures fresh(ints) && ints.Valid()
    ensures (ints.Elements(), answers) == SetRun(ops)
  {
    hide SetRun, SetAfter, SetAnswer, Addressable, AllFit, Increasing, Pack, ValueEncoding, Wider;
    ints := new Intset();
    answers := [];
    SetRunNone(ops);
    for i := 0 to |ops|
      invariant fresh(ints) && fresh(ints.contents) && ints.Valid()
      invariant (ints.Elements(), answers) == SetRun(ops[..i])
    {
      SetRunStep(ops, i);
      SetRunSize(ops[..i]);
      CountIncreasing(ints.values);
      WiderOk(ints.encoding, ops[i].value);
      FewFit(ints.length + 1, Wider(ints.encoding, ValueEncoding(ops[i].value)));
      var a := Step(ints, ops[i]);
      answers := answers + [a];
    }
    assert ops[..|ops|] == ops;
  }
}
