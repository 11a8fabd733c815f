/** PDBSaver and PDBLoader of src/db.cc over the bytes of an rdb file. */
module Rdb {
  import opened Bytes
  import opened Decimal
  import opened LzfFormat
  import opened LzfEncoder
  import opened LzfTrace
  import opened LzfDecoder
  import opened RdbFormat

  // ------------------------------------------------------------ numbers as text

  function Reversed(s: seq<byte>): (r: seq<byte>)
    ensures |r| == |s|
  {
    if s == [] then [] else [s[|s| - 1]] + Reversed(s[..|s| - 1])
  }

  /** Number2Str of src/common.h: digits from the last to the first, then reversed. */
  method Number2Str(value: int) returns (s: seq<byte>)
    ensures s == Text(value)
  {
    if value == 0 {
      return [ZERO];
    }
    hide Digits, Reversed;
    var val: nat := if value < 0 then -value else value;
    ghost var n := val;
    var tmp := [];
    assert Digits(n) == Digits(val) + Reversed([]) by { ReversedNone(); }
    while val > 0
      invariant Digits(n) == (if val > 0 then Digits(val) else []) + Reversed(tmp)
    {
      tmp := PutDigit(tmp, val, n);
      val := val / 10;
    }
    assert [] + Reversed(tmp) == Reversed(tmp);
    if value < 0 {
      ReversedMore(tmp, MINUS);
      tmp := tmp + [MINUS];
    }
    s := Reversed(tmp);
  }

  lemma ReversedNone()
    ensures Reversed([]) == []
  {
  }

  lemma ReversedMore(s: seq<byte>, c: byte)
    ensures Reversed(s + [c]) == [c] + Reversed(s)
  {
    assert (s + [c])[..|s|] == s;
  }

  method PutDigit(tmp: seq<byte>, val: nat, ghost n: nat) returns (r: seq<byte>)
    requires val > 0 && Digits(n) == Digits(val) + Reversed(tmp)
    ensures Digits(n) == (if val / 10 > 0 then Digits(val / 10) else []) + Reversed(r)
  {
    hide Reversed;
    r := tmp + [ZERO + val % 10];
    ReversedMore(tmp, ZERO + val % 10);
    assert Digits(val) == (if val / 10 > 0 then Digits(val / 10) else []) + [ZERO + val % 10];
    Assoc3(if val / 10 > 0 then Digits(val / 10) else [], [ZERO + val % 10], Reversed(tmp));
  }

  lemma GroupItem<T>(q: seq<T>, a: seq<T>, b: seq<T>, c: seq<T>, d: seq<T>)
    ensures q + a + b + c + d == q + (a + b + c + d)
  {
  }

  // ------------------------------------------------------------ saving

  class Saver {
    const strtol: Str -> Option<long>
    var qdb: seq<byte>

    constructor (strtol: Str -> Option<long>)
      ensures qdb == [] && this.strtol == strtol
    {
      this.strtol, qdb := strtol, [];
    }

    /** SaveLength */
    method SaveLength(len: nat)
      requires len < TWO32
      modifies this
      ensures qdb == old(qdb) + LengthBytes(len)
    {
      if len < 64 {
        qdb := qdb + [len];
      } else if len < 16384 {
        var encodeLen := 0x40 + len / 256 + len % 256 * 256;
        assert encodeLen % 256 == 0x40 + len / 256 && encodeLen / 256 % 256 == len % 256;
        qdb := qdb + [encodeLen % 256, encodeLen / 256 % 256];
      } else {
        qdb := qdb + [0x80];
        qdb := qdb + BE(len, 4);
      }
    }

    /** SaveString(int64_t) */
    method SaveInt(intVal: long) returns (ghost item: Item)
      modifies this
      ensures item == if 0 <= intVal < 0x8000_0000 then Small(intVal) else Plain(Text(intVal))
      ensures ItemOk(item) && qdb == old(qdb) + ItemBytes(item)
    {
      hide LE, LengthBytes, Text;
      if 0 <= intVal < 0x80 {
        qdb := qdb + [SPECIAL];
        qdb := qdb + LE(intVal, 1);
        item := Small(intVal);
      } else if 0 <= intVal < 0x8000 {
        qdb := qdb + [SPECIAL + 1];
        qdb := qdb + LE(intVal, 2);
        item := Small(intVal);
      } else if 0 <= intVal < 0x8000_0000 {
        qdb := qdb + [SPECIAL + 2];
        qdb := qdb + LE(intVal, 4);
        item := Small(intVal);
      } else {
        var buf := Number2Str(intVal);
        TextSize(intVal);
        SaveLength(|buf|);
        qdb := qdb + buf;
        item := Plain(Text(intVal));
      }
    }

    /** SaveLZFString: false if the string is short or does not compress by four bytes, which
        periodic ones do. */
    method SaveLZFString(str: Str) returns (saved: bool, ghost item: Item)
      requires |str| < TWO32
      modifies this
      ensures !saved ==> qdb == old(qdb)
      ensures saved ==> |str| >= 20 && item.Compressed? && ItemOk(item) && Meaning(item.data) == Some(str)
      ensures saved ==> qdb == old(qdb) + ItemBytes(item)
      ensures |str| >= 20 && Compressible(str, |str| - 4) ==> saved
    {
      hide Meaning, LengthBytes, Compressible, Trace, Units, Ones, Plan, Spent, TokensOk, EncodeAll, Enough, End;
      item := Plain([]);
      if |str| < 20 {
        return false, item;
      }
      var outlen := |str| - 4;
      var outBuf := new byte[outlen + 1];
      var htab := new int[HSIZE];
      var compressLen, _, _ := Compress(str, outBuf, outlen, htab);
      if compressLen == 0 {
        return false, item;
      }
      qdb := qdb + [SPECIAL + 3];
      SaveLength(compressLen);
      SaveLength(|str|);
      qdb := qdb + outBuf[..compressLen];
      item := Compressed(outBuf[..compressLen], |str|);
      GroupItem(old(qdb), [SPECIAL + 3], LengthBytes(compressLen), LengthBytes(|str|), outBuf[..compressLen]);
      saved := true;
    }

    /** SaveString */
    method SaveString(str: Str) returns (ghost item: Item)
      requires |str| < TWO32
      modifies this
      ensures Saves(strtol, str, item) && ItemOk(item) && qdb == old(qdb) + ItemBytes(item)
      ensures |str| >= 20 && Compressible(str, |str| - 4) ==> item.Compressed?
    {
      hide Meaning, LengthBytes, Text, Compressible;
      if |str| < 10 {
        var lVal := Strtol(strtol, str);
        if lVal.Some? {
          item := SaveInt(lVal.value);
          return;
        }
      }
      var saved;
      saved, item := SaveLZFString(str);
      if !saved {
        SaveLength(|str|);
        qdb := qdb + str;
        item := Plain(str);
      }
    }

    /** saveList */
    method SaveList(l: seq<Str>) returns (ghost items: seq<Item>)
      requires |l| < TWO32 && (forall i | 0 <= i < |l| :: |l[i]| < TWO32)
      modifies this
      ensures SavesAll(strtol, l, items) && qdb == old(qdb) + LengthBytes(|l|) + ItemsBytes(items)
    {
      hide Saves, ItemBytes, LengthBytes, ItemsBytes;
      SaveLength(|l|);
      items := [];
      ghost var start := qdb;
      NoItems();
      for i := 0 to |l|
        invariant SavesAll(strtol, l[..i], items) && qdb == start + ItemsBytes(items)
      {
        ghost var item := SaveString(l[i]);
        SavesMore(strtol, l[..i], items, l[i], item);
        Assoc3(start, ItemsBytes(items), ItemBytes(item));
        items := items + [item];
        assert l[..i + 1] == l[..i] + [l[i]];
      }
      assert l[..|l|] == l;
    }

    /** saveset, in any order. */
    method SaveSet(ss: set<Str>) returns (ghost order: seq<Str>, ghost items: seq<Item>)
      requires |ss| < TWO32 && (forall s | s in ss :: |s| < TWO32)
      modifies this
      ensures SavesAll(strtol, order, items) && |order| == |ss| && (forall s :: s in order <==> s in ss)
      ensures qdb == old(qdb) + LengthBytes(|ss|) + ItemsBytes(items)
    {
      hide Saves, ItemBytes, LengthBytes, ItemsBytes, ItemOk;
      SaveLength(|ss|);
      order, items := [], [];
      ghost var start := qdb;
      NoItems();
      var left := ss;
      while left != {}
        invariant left <= ss && |order| + |left| == |ss| && (forall s :: s in order <==> s in ss && s !in left)
        invariant SavesAll(strtol, order, items) && qdb == start + ItemsBytes(items)
        decreases left
      {
        var e :| e in left;
        ghost var item := SaveString(e);
        SavesMore(strtol, order, items, e, item);
        Assoc3(start, ItemsBytes(items), ItemBytes(item));
        order, items := order + [e], items + [item];
        left := left - {e};
      }
    }

    /** One pair of a hash. */
    method SavePair(key: Str, value: Str, ghost ss: seq<Str>, ghost items: seq<Item>, ghost start: seq<byte>)
      returns (ghost items': seq<Item>)
      requires |key| < TWO32 && |value| < TWO32 && SavesAll(strtol, ss, items) && qdb == start + ItemsBytes(items)
      modifies this
      ensures SavesAll(strtol, ss + [key, value], items') && qdb == start + ItemsBytes(items')
    {
      hide Saves, ItemBytes, LengthBytes, ItemsBytes, ItemOk;
      ghost var a := SaveString(key);
      SavesMore(strtol, ss, items, key, a);
      Assoc3(start, ItemsBytes(items), ItemBytes(a));
      ghost var b := SaveString(value);
      SavesMore(strtol, ss + [key], items + [a], value, b);
      Assoc3(start, ItemsBytes(items + [a]), ItemBytes(b));
      items' := items + [a] + [b];
      assert ss + [key] + [value] == ss + [key, value];
    }

    /** saveHash, in any order. */
    method SaveHash(m: map<Str, Str>) returns (ghost keys: seq<Str>, ghost items: seq<Item>)
      requires |m| < TWO32 && (forall k | k in m :: |k| < TWO32 && |m[k]| < TWO32)
      modifies this
      ensures AllDifferent(keys) && |keys| == |m| && (forall k :: k in keys <==> k in m)
      ensures SavesAll(strtol, Interleave(keys, m), items)
      ensures qdb == old(qdb) + LengthBytes(|m|) + ItemsBytes(items)
    {
      hide Saves, ItemBytes, LengthBytes, ItemsBytes, ItemOk;
      SaveLength(|m|);
      keys, items := [], [];
      ghost var start := qdb;
      NoItems();
      var left := m.Keys;
      while left != {}
        invariant left <= m.Keys && |keys| + |left| == |m| && (forall k :: k in keys <==> k in m && k !in left)
        invariant AllDifferent(keys) && (forall i | 0 <= i < |keys| :: keys[i] in m)
        invariant SavesAll(strtol, Interleave(keys, m), items) && qdb == start + ItemsBytes(items)
        decreases left
      {
        var k :| k in left;
        items := SavePair(k, m[k], Interleave(keys, m), items, start);
        assert (keys + [k])[..|keys|] == keys;
        keys, left := keys + [k], left - {k};
      }
    }
  }

  // ------------------------------------------------------------ loading

  class Loader {
    const strtol: Str -> Option<long>
    const qdb: seq<byte>
    var offset: nat

    constructor (strtol: Str -> Option<long>, qdb: seq<byte>)
      ensures offset == 0 && this.strtol == strtol && this.qdb == qdb
    {
      this.strtol, this.qdb, offset := strtol, qdb, 0;
    }

    /** The file continues with these bytes. */
    ghost predicate Next(s: seq<byte>)
      reads this
    {
      offset <= |qdb| && s <= qdb[offset..]
    }

    /** LoadLength */
    method LoadLength() returns (special: bool, len: nat)
      requires offset < |qdb| && offset + LengthSize(qdb[offset]) <= |qdb|
      modifies this
      ensures (special, len, offset - old(offset)) == LengthAt(qdb[old(offset)..])
    {
      var b := qdb[offset];
      ghost var s := qdb[offset..];
      offset := offset + 1;
      special := false;
      if b < 0x40 {
        len := b;
      } else if b < 0x80 {
        len := (b as int - 0x40) * 256 + qdb[offset];
        offset := offset + 1;
      } else if b < 0xC0 {
        len := FromBE(qdb[offset..offset + 4]);
        assert qdb[offset..offset + 4] == s[1..5];
        offset := offset + 4;
      } else {
        special, len := true, b - 0xC0;
      }
    }

    /** A length that SaveLength wrote. */
    method LoadPlainLength(ghost n: nat, ghost more: seq<byte>) returns (len: nat)
      requires n < TWO32 && Next(LengthBytes(n) + more)
      modifies this
      ensures len == n && offset == old(offset) + |LengthBytes(n)| && Next(more)
    {
      hide LengthBytes, LengthAt;
      var special;
      ghost var s := qdb[offset..];
      FrontOf(LengthBytes(n), more, s);
      LengthLoads(n, s);
      special, len := LoadLength();
      assert s[|LengthBytes(n)|..] == qdb[offset..];
    }

    /** LoadString */
    method LoadString(strLen: nat, ghost text: seq<byte>, ghost more: seq<byte>) returns (str: Str)
      requires strLen == |text| && Next(text + more)
      modifies this
      ensures str == text && offset == old(offset) + |text| && Next(more)
    {
      ghost var s := qdb[offset..];
      FrontOf(text, more, s);
      str := qdb[offset..offset + strLen];
      assert str == s[..strLen];
      offset := offset + strLen;
      assert s[strLen..] == qdb[offset..];
    }

    /** LoadLZFString: a stream that stands for fewer bytes than announced is filled up with
        zeros. One that cannot be decoded gives the empty string and is not skipped. */
    method LoadLZFString(ghost data: seq<byte>, ghost size: nat, ghost more: seq<byte>) returns (val: Str)
      requires data != [] && |data| < TWO32 && size < TWO32
      requires Next(LengthBytes(|data|) + (LengthBytes(size) + (data + more)))
      modifies this
      ensures if Decodable(data, size) then
                val == Meaning(data).value + seq(size - |Meaning(data).value|, _ => 0) && Next(more)
              else
                val == [] && Next(data + more)
      ensures offset == old(offset) + |LengthBytes(|data|)| + |LengthBytes(size)|
                        + if Decodable(data, size) then |data| else 0
    {
      hide LengthBytes, Meaning;
      var compressLen := LoadPlainLength(|data|, LengthBytes(size) + (data + more));
      var rawLen := LoadPlainLength(size, data + more);
      FrontOf(data, more, qdb[offset..]);
      var compressed := qdb[offset..offset + compressLen];
      assert compressed == qdb[offset..][..compressLen];
      var out := new byte[rawLen](_ => 0);
      assert out[..] == seq(size, _ => 0);
      var n := Decompress(compressed, out, rawLen);
      if n == 0 {
        return [];
      }
      val := out[..];
      assert out[n..] == seq(size - n, _ => 0);
      assert out[..] == out[..n] + out[n..];
      var _ := LoadString(compressLen, data, more);
    }

    /** Lines 504-518: an integer of n bytes. */
    method LoadBytes(n: nat, ghost v: nat, ghost more: seq<byte>) returns (val: nat)
      requires v < Pow256(n) && Next(LE(v, n) + more)
      modifies this
      ensures val == v && offset == old(offset) + n && Next(more)
    {
      hide LE, FromLE;
      var bytes := LoadString(n, LE(v, n), more);
      SmallLoads(v, n);
      val := FromLE(bytes);
    }

    /** The bytes of an item that is not plain, behind its first. */
    ghost function SpecialTail(item: Item): (s: seq<byte>)
      requires ItemOk(item) && !item.Plain?
    {
      ItemBytes(item)[1..]
    }

    /** LoadSpecialStringObject, then GetDecodedString. */
    method LoadSpecial(specialVal: nat, ghost item: Item, ghost more: seq<byte>) returns (str: Str)
      requires ItemOk(item) && !item.Plain? && ItemBytes(item)[0] == SPECIAL + specialVal
      requires Next(SpecialTail(item) + more)
      modifies this
      ensures str == Loaded(strtol, item) && offset == old(offset) + |SpecialTail(item)| && Next(more)
    {
      hide LE, LengthBytes, Meaning, Text;
      Pow256Values();
      if specialVal == 3 {
        Regroup(LengthBytes(|item.data|), LengthBytes(item.size), item.data, more);
        assert SpecialTail(item) == LengthBytes(|item.data|) + LengthBytes(item.size) + item.data;
        DecodableSize(item.data, item.size);
        var val := LoadLZFString(item.data, item.size, more);
        assert val == Meaning(item.data).value;
        str := Normal(strtol, val);
      } else {
        var n := if specialVal == 0 then 1 else if specialVal == 1 then 2 else 4;
        assert SpecialTail(item) == LE(item.value, n);
        var val := LoadBytes(n, item.value, more);
        str := Text(val);
      }
    }

    /** loadGenericString inverts the encoding. */
    method LoadGenericString(ghost item: Item, ghost more: seq<byte>) returns (str: Str)
      requires ItemOk(item) && Next(ItemBytes(item) + more)
      modifies this
      ensures str == Loaded(strtol, item) && offset == old(offset) + |ItemBytes(item)| && Next(more)
    {
      hide LE, LengthBytes, Meaning, Text, Loaded, LengthAt;
      ghost var s := qdb[offset..];
      FrontOf(ItemBytes(item), more, s);
      ItemFront(item, s);
      var special, len := LoadLength();
      if special {
        SplitFront(ItemBytes(item), more, s, 1);
        assert s[1..] == qdb[offset..];
        str := LoadSpecial(len, item, more);
      } else {
        SplitFront(ItemBytes(item), more, s, |LengthBytes(|item.text|)|);
        assert s[|LengthBytes(|item.text|)|..] == qdb[offset..];
        str := LoadString(len, item.text, more);
        assert Loaded(strtol, item) == item.text by { PlainLoaded(strtol, item); }
      }
    }

    /** Lines 640-647 of loadList, and the same in loadSet and loadHash: the next element. */
    method LoadElement(ghost items: seq<Item>, ghost i: nat) returns (elem: Str)
      requires (forall k | 0 <= k < |items| :: ItemOk(items[k])) && i < |items| && Next(ItemsFrom(items, i))
      modifies this
      ensures elem == Loaded(strtol, items[i]) && Next(ItemsFrom(items, i + 1))
      ensures offset == old(offset) + |ItemBytes(items[i])|
    {
      hide ItemBytes, ItemOk, ItemsFrom, Loaded;
      ItemsFromStep(items, i);
      elem := LoadGenericString(items[i], ItemsFrom(items, i + 1));
    }

    /** loadList */
    method LoadList(ghost items: seq<Item>) returns (list: seq<Str>)
      requires (forall k | 0 <= k < |items| :: ItemOk(items[k])) && |items| < TWO32
      requires Next(LengthBytes(|items|) + ItemsBytes(items))
      modifies this
      ensures list == LoadedAll(strtol, items)
    {
      hide ItemBytes, ItemOk, ItemsBytes, ItemsFrom, Loaded, LengthBytes;
      var len := LoadPlainLength(|items|, ItemsBytes(items));
      ItemsFromEnds(items);
      list := [];
      for i := 0 to len
        invariant list == LoadedAll(strtol, items)[..i] && Next(ItemsFrom(items, i))
      {
        var elem := LoadElement(items, i);
        list := list + [elem];
      }
    }

    /** loadSet */
    method LoadSet(ghost items: seq<Item>) returns (s: set<Str>)
      requires (forall k | 0 <= k < |items| :: ItemOk(items[k])) && |items| < TWO32
      requires Next(LengthBytes(|items|) + ItemsBytes(items))
      modifies this
      ensures forall x :: x in s <==> x in LoadedAll(strtol, items)
    {
      hide ItemBytes, ItemOk, ItemsBytes, ItemsFrom, Loaded, LengthBytes;
      var len := LoadPlainLength(|items|, ItemsBytes(items));
      ItemsFromEnds(items);
      s := {};
      ghost var all := LoadedAll(strtol, items);
      for i := 0 to len
        invariant (forall x :: x in s <==> x in all[..i]) && Next(ItemsFrom(items, i))
      {
        var elem := LoadElement(items, i);
        s := s + {elem};
        assert all[..i + 1] == all[..i] + [elem];
      }
      assert all[..len] == all;
    }

    /** loadHash: keys and values in turn. */
    method LoadHash(ghost items: seq<Item>) returns (m: map<Str, Str>)
      requires (forall k | 0 <= k < |items| :: ItemOk(items[k])) && |items| / 2 < TWO32 && |items| % 2 == 0
      requires Next(LengthBytes(|items| / 2) + ItemsBytes(items))
      modifies this
      ensures m == HashOf(LoadedAll(strtol, items))
    {
      hide ItemBytes, ItemOk, ItemsBytes, ItemsFrom, Loaded, LengthBytes, HashOf;
      var len := LoadPlainLength(|items| / 2, ItemsBytes(items));
      ItemsFromEnds(items);
      m := map[];
      ghost var all := LoadedAll(strtol, items);
      HashNone(all);
      for i := 0 to len
        invariant m == HashOf(all[..2 * i]) && Next(ItemsFrom(items, 2 * i))
      {
        var key := LoadElement(items, 2 * i);
        var val := LoadElement(items, 2 * i + 1);
        HashStep(all, i);
        if key !in m {
          m := m[key := val];
        }
      }
      assert all[..2 * len] == all;
    }
  }

  lemma PlainLoaded(strtol: Str -> Option<long>, item: Item)
    requires item.Plain? && ItemOk(item)
    ensures Loaded(strtol, item) == item.text
  {
  }

  /** What LoadLength sees at the front of an item. */
  lemma ItemFront(item: Item, s: seq<byte>)
    requires ItemOk(item) && ItemBytes(item) <= s
    ensures s != [] && LengthSize(s[0]) <= |s|
    ensures item.Plain? ==> LengthAt(s) == (false, |item.text|, |LengthBytes(|item.text|)|)
    ensures item.Plain? ==> ItemBytes(item)[|LengthBytes(|item.text|)|..] == item.text
    ensures !item.Plain? ==> LengthAt(s) == (true, ItemBytes(item)[0] - SPECIAL, 1)
  {
    hide LE, LengthBytes, Meaning, BE;
    assert s[0] == ItemBytes(item)[0];
    if item.Plain? {
      FrontOf(LengthBytes(|item.text|), item.text, s);
      LengthLoads(|item.text|, s);
    }
  }

  lemma SplitFront(a: seq<byte>, more: seq<byte>, s: seq<byte>, k: nat)
    requires a + more <= s && k <= |a|
    ensures a[k..] + more <= s[k..]
  {
    assert (a + more)[k..] == a[k..] + more;
  }

  lemma Regroup(a: seq<byte>, b: seq<byte>, c: seq<byte>, d: seq<byte>)
    ensures a + b + c + d == a + (b + (c + d))
  {
  }

  lemma DecodableSize(data: seq<byte>, size: nat)
    requires data != [] && Meaning(data).Some? && |Meaning(data).value| == size
    ensures Decodable(data, size)
  {
  }

  lemma FrontOf(a: seq<byte>, b: seq<byte>, s: seq<byte>)
    requires a + b <= s
    ensures a <= s && |a| <= |s| && s[..|a|] == a && b <= s[|a|..]
  {
    assert s[..|a + b|] == a + b;
    assert s[..|a|] == (a + b)[..|a|];
    assert s[|a|..][..|b|] == (a + b)[|a|..];
  }

  lemma NoItems()
    ensures ItemsBytes([]) == []
  {
  }

  // ------------------------------------------------------------ there and back

  /** A string that is saved and loaded again; item says how it was stored. */
  method StringRoundTrip(strtol: Str -> Option<long>, str: Str) returns (back: Str, ghost item: Item)
    requires |str| < TWO32
    ensures Saves(strtol, str, item)
    ensures back == str <==>
              ((|str| < 10 || item.Compressed?) && Strtol(strtol, str).Some? ==> str == Text(Strtol(strtol, str).value))
    ensures Stable(strtol, str) ==> back == str
    ensures |str| >= 20 && Compressible(str, |str| - 4) ==> item.Compressed? && back == Normal(strtol, str)
  {
    hide Saves, ItemBytes, Loaded, Text, Meaning, Compressible, Normal;
    var saver := new Saver(strtol);
    item := saver.SaveString(str);
    var loader := new Loader(strtol, saver.qdb);
    WholeFile(ItemBytes(item), saver.qdb);
    back := loader.LoadGenericString(item, []);
    RoundTripIff(strtol, str, item);
    if item.Compressed? {
      CompressedLoads(strtol, str, item);
    }
    if Stable(strtol, str) {
      StableReturns(strtol, str, item);
    }
  }

  lemma CompressedLoads(strtol: Str -> Option<long>, str: Str, item: Item)
    requires Saves(strtol, str, item) && item.Compressed?
    ensures Loaded(strtol, item) == Normal(strtol, str)
  {
    hide Text, Meaning, Normal;
  }

  /** Twenty zeros are always compressed, and come back as one. */
  method ZerosChange(strtol: Str -> Option<long>) returns (str: Str, back: Str)
    requires strtol(seq(20, _ => ZERO)) == Some(0)
    ensures |str| == 20 && (forall i | 0 <= i < |str| :: str[i] == ZERO) && back == [ZERO]
  {
    str := seq(20, _ => ZERO);
    EqualRepeats(str, 16);
    ghost var item;
    back, item := StringRoundTrip(strtol, str);
    assert Text(0) == [ZERO];
  }

  lemma WholeFile(s: seq<byte>, qdb: seq<byte>)
    requires qdb == [] + s
    ensures s + [] <= qdb[0..] && s <= qdb[0..]
  {
  }

  /** Lists, sets and hashes of stable strings come back unchanged. */
  method ListRoundTrip(strtol: Str -> Option<long>, l: seq<Str>) returns (back: seq<Str>)
    requires |l| < TWO32 && (forall i | 0 <= i < |l| :: |l[i]| < TWO32)
    ensures |back| == |l|
    ensures (forall i | 0 <= i < |l| :: Stable(strtol, l[i])) ==> back == l
  {
    hide Saves, ItemBytes, Loaded, Stable, LengthBytes, ItemsBytes, ItemOk;
    var saver := new Saver(strtol);
    ghost var items := saver.SaveList(l);
    var loader := new Loader(strtol, saver.qdb);
    assert saver.qdb == [] + (LengthBytes(|l|) + ItemsBytes(items));
    WholeFile(LengthBytes(|l|) + ItemsBytes(items), saver.qdb);
    back := loader.LoadList(items);
    if forall i | 0 <= i < |l| :: Stable(strtol, l[i]) {
      StableAllReturn(strtol, l, items);
    }
  }

  /** The texts of integers that strtol reads come back unchanged. */
  method NumbersRoundTrip(strtol: Str -> Option<long>, vs: seq<long>) returns (back: seq<Str>)
    requires |vs| < TWO32 && (forall i | 0 <= i < |vs| :: strtol(Text(vs[i])) == Some(vs[i]))
    ensures |back| == |vs| && forall i | 0 <= i < |vs| :: back[i] == Text(vs[i])
  {
    hide Stable, Text;
    var l := seq(|vs|, i requires 0 <= i < |vs| => Text(vs[i]));
    forall i | 0 <= i < |vs|
      ensures |l[i]| < TWO32 && Stable(strtol, l[i])
    {
      TextSize(vs[i]);
      CanonicalStable(strtol, vs[i]);
    }
    back := ListRoundTrip(strtol, l);
  }

  method SetRoundTrip(strtol: Str -> Option<long>, ss: set<Str>) returns (back: set<Str>)
    requires |ss| < TWO32 && (forall s | s in ss :: |s| < TWO32)
    ensures (forall s | s in ss :: Stable(strtol, s)) ==> back == ss
  {
    hide Saves, ItemBytes, Loaded, Stable, LengthBytes, ItemsBytes, ItemOk;
    var saver := new Saver(strtol);
    ghost var order, items := saver.SaveSet(ss);
    var loader := new Loader(strtol, saver.qdb);
    assert saver.qdb == [] + (LengthBytes(|ss|) + ItemsBytes(items));
    WholeFile(LengthBytes(|ss|) + ItemsBytes(items), saver.qdb);
    back := loader.LoadSet(items);
    if forall s | s in ss :: Stable(strtol, s) {
      StableAllReturn(strtol, order, items);
    }
  }

  method HashRoundTrip(strtol: Str -> Option<long>, m: map<Str, Str>) returns (back: map<Str, Str>)
    requires |m| < TWO32 && (forall k | k in m :: |k| < TWO32 && |m[k]| < TWO32)
    ensures (forall k | k in m :: Stable(strtol, k) && Stable(strtol, m[k])) ==> back == m
  {
    hide Saves, ItemBytes, Loaded, Stable, LengthBytes, ItemsBytes, ItemOk, HashOf, AllDifferent, Interleave;
    var saver := new Saver(strtol);
    ghost var keys, items := saver.SaveHash(m);
    var loader := new Loader(strtol, saver.qdb);
    assert saver.qdb == [] + (LengthBytes(|m|) + ItemsBytes(items));
    WholeFile(LengthBytes(|m|) + ItemsBytes(items), saver.qdb);
    assert |items| == 2 * |m| && |items| / 2 == |m|;
    back := loader.LoadHash(items);
    if forall k | k in m :: Stable(strtol, k) && Stable(strtol, m[k]) {
      HashStable(strtol, keys, m, items);
    }
  }

  lemma HashStable(strtol: Str -> Option<long>, keys: seq<Str>, m: map<Str, Str>, items: seq<Item>)
    requires AllDifferent(keys) && (forall k :: k in keys <==> k in m) && (forall i | 0 <= i < |keys| :: keys[i] in m)
    requires SavesAll(strtol, Interleave(keys, m), items)
    requires forall k | k in m :: Stable(strtol, k) && Stable(strtol, m[k])
    ensures |items| % 2 == 0 && HashOf(LoadedAll(strtol, items)) == m
  {
    hide Saves, Loaded, Stable, HashOf, ItemOk, Interleave;
    InterleavedStable(strtol, keys, m);
    StableAllReturn(strtol, Interleave(keys, m), items);
    HashReturns(keys, m);
    AllKeys(keys, m);
  }

  lemma {:induction false} InterleavedStable(strtol: Str -> Option<long>, keys: seq<Str>, m: map<Str, Str>)
    requires forall i | 0 <= i < |keys| :: keys[i] in m
    requires forall k | k in m :: Stable(strtol, k) && Stable(strtol, m[k])
    ensures forall i | 0 <= i < 2 * |keys| :: Stable(strtol, Interleave(keys, m)[i])
  {
    hide Stable;
    if keys != [] {
      InterleavedStable(strtol, keys[..|keys| - 1], m);
    }
  }
}
