/** The rdb encodings of src/db.cc: lengths of 6, 14 or 32 bits, and strings as plain bytes,
    as small integers, or compressed. */
module RdbFormat {
  import opened Bytes
  import opened Decimal
  import opened LzfFormat

  const SPECIAL: byte := 0xC0

  type Str = seq<byte>

  /** C's long. */
  type long = v: int | LLONG_MIN <= v <= LLONG_MAX witness 0

  /** SaveLength's bytes. */
  function LengthBytes(n: nat): (s: seq<byte>)
    requires n < TWO32
    ensures |s| == if n < 64 then 1 else if n < 16384 then 2 else 5
  {
    if n < 64 then [n] else if n < 16384 then [0x40 + n / 256, n % 256] else [0x80] + BE(n, 4)
  }

  /** How a string is stored. */
  datatype Item = Plain(text: Str) | Small(value: nat) | Compressed(data: seq<byte>, size: nat)

  predicate ItemOk(item: Item) {
    match item
    case Plain(text) => |text| < TWO32
    case Small(v) => v < 0x8000_0000
    case Compressed(data, size) =>
      && data != [] && |data| < TWO32 && size < TWO32
      && Meaning(data).Some? && |Meaning(data).value| == size
  }

  function ItemBytes(item: Item): (s: seq<byte>)
    requires ItemOk(item)
    ensures s != []
  {
    match item
    case Plain(text) => LengthBytes(|text|) + text
    case Small(v) =>
      if v < 0x80 then [SPECIAL] + LE(v, 1)
      else if v < 0x8000 then [SPECIAL + 1] + LE(v, 2)
      else [SPECIAL + 2] + LE(v, 4)
    case Compressed(data, size) => [SPECIAL + 3] + LengthBytes(|data|) + LengthBytes(size) + data
  }

  /** The smallest of the three number forms that holds v. */
  lemma SmallSizes(v: nat)
    requires v < 0x8000_0000
    ensures |ItemBytes(Small(v))| == if v < 0x80 then 2 else if v < 0x8000 then 3 else 5
    ensures ItemBytes(Small(v))[0] == 0xC0 + if v < 0x80 then 0 else if v < 0x8000 then 1 else 2
  {
  }

  /** Strtol of src/common.cc, around the library's strtol in base 0: None if it rejects. */
  function Strtol(strtol: Str -> Option<long>, s: Str): (r: Option<long>) {
    if s == [] || |s| > 20 then None else strtol(s)
  }

  /** CreateString, then GetDecodedString: what Strtol accepts becomes a number's text. */
  function Normal(strtol: Str -> Option<long>, s: Str): (r: Str) {
    var v := Strtol(strtol, s);
    if v.Some? then Text(v.value) else s
  }

  /** What loadGenericString makes of an item. */
  function Loaded(strtol: Str -> Option<long>, item: Item): (s: Str)
    requires ItemOk(item)
  {
    match item
    case Plain(text) => text
    case Small(v) => Text(v)
    case Compressed(data, size) => Normal(strtol, Meaning(data).value)
  }

  /** The items that SaveString may write for s; whether a long string is compressed depends
      on what the compressor's table happens to hold. */
  ghost predicate Saves(strtol: Str -> Option<long>, s: Str, item: Item) {
    && ItemOk(item)
    && if |s| < 10 && Strtol(strtol, s).Some? then
         var v := Strtol(strtol, s).value;
         item == if 0 <= v < 0x8000_0000 then Small(v) else Plain(Text(v))
       else
         item == Plain(s) || (|s| >= 20 && item.Compressed? && Meaning(item.data) == Some(s))
  }

  /** Which form a string is stored in. */
  lemma SavedForm(strtol: Str -> Option<long>, s: Str, item: Item)
    requires Saves(strtol, s, item)
    ensures item.Small? <==> |s| < 10 && Strtol(strtol, s).Some? && 0 <= Strtol(strtol, s).value < 0x8000_0000
    ensures item.Small? ==> Strtol(strtol, s) == Some(item.value)
    ensures item.Compressed? ==> |s| >= 20
    ensures item.Plain? && item.text != s ==>
              |s| < 10 && Strtol(strtol, s).Some? && item.text == Text(Strtol(strtol, s).value)
  {
    hide Text, Meaning;
  }

  /** A string comes back as it was exactly if it was not taken for a number, or is that
      number's own text. Numbers are looked for before saving, in up to 9 bytes, and after
      decompressing, which needs at least 20 bytes while Strtol takes at most 20. */
  lemma RoundTripIff(strtol: Str -> Option<long>, s: Str, item: Item)
    requires Saves(strtol, s, item)
    ensures Loaded(strtol, item) == s <==>
              ((|s| < 10 || item.Compressed?) && Strtol(strtol, s).Some? ==> s == Text(Strtol(strtol, s).value))
    ensures item.Compressed? && Strtol(strtol, s).Some? ==> |s| == 20
  {
    hide Text, Meaning;
  }

  /** Strings that come back whatever the compressor does. */
  predicate Stable(strtol: Str -> Option<long>, s: Str) {
    (|s| < 10 || |s| == 20) && Strtol(strtol, s).Some? ==> s == Text(Strtol(strtol, s).value)
  }

  lemma StableReturns(strtol: Str -> Option<long>, s: Str, item: Item)
    requires Saves(strtol, s, item) && Stable(strtol, s)
    ensures Loaded(strtol, item) == s
  {
    hide Text, Meaning;
    RoundTripIff(strtol, s, item);
  }

  /** Canonical decimals are stable, given that strtol reads them. */
  lemma CanonicalStable(strtol: Str -> Option<long>, v: long)
    requires strtol(Text(v)) == Some(v)
    ensures Stable(strtol, Text(v))
  {
  }

  /** A short string that strtol reads in base 8 does not come back. */
  lemma OctalChanges(strtol: Str -> Option<long>, item: Item)
    requires strtol([48, 49, 48]) == Some(8) && Saves(strtol, [48, 49, 48], item)
    ensures Loaded(strtol, item) == [56]
  {
    assert Text(8) == [56];
  }

  // ------------------------------------------------------------ several items

  function ItemsBytes(items: seq<Item>): (s: seq<byte>)
    requires forall i | 0 <= i < |items| :: ItemOk(items[i])
  {
    if items == [] then [] else ItemsBytes(items[..|items| - 1]) + ItemBytes(items[|items| - 1])
  }

  ghost predicate SavesAll(strtol: Str -> Option<long>, ss: seq<Str>, items: seq<Item>) {
    && |ss| == |items| && (forall i | 0 <= i < |items| :: ItemOk(items[i]))
    && forall i | 0 <= i < |ss| :: Saves(strtol, ss[i], items[i])
  }

  lemma SavesMore(strtol: Str -> Option<long>, ss: seq<Str>, items: seq<Item>, s: Str, item: Item)
    requires SavesAll(strtol, ss, items) && Saves(strtol, s, item) && ItemOk(item)
    ensures SavesAll(strtol, ss + [s], items + [item])
    ensures ItemsBytes(items + [item]) == ItemsBytes(items) + ItemBytes(item)
  {
    hide Saves, ItemBytes;
    assert (items + [item])[..|items|] == items;
  }

  lemma ItemsStep(items: seq<Item>, i: nat)
    requires i < |items| && (forall k | 0 <= k < |items| :: ItemOk(items[k]))
    ensures ItemsBytes(items[..i + 1]) == ItemsBytes(items[..i]) + ItemBytes(items[i])
  {
    assert items[..i + 1][..i] == items[..i];
  }

  lemma {:induction false} ItemsPrefix(items: seq<Item>, i: nat)
    requires i <= |items| && (forall k | 0 <= k < |items| :: ItemOk(items[k]))
    ensures ItemsBytes(items[..i]) <= ItemsBytes(items)
    decreases |items| - i
  {
    hide ItemBytes, ItemOk;
    if i < |items| {
      ItemsStep(items, i);
      ItemsPrefix(items, i + 1);
    } else {
      assert items[..i] == items;
    }
  }

  // ------------------------------------------------------------ reading

  /** What LoadLength makes of the bytes at the offset: whether special, the length, and how
      many bytes it took. */
  function LengthAt(s: seq<byte>): (r: (bool, nat, nat))
    requires s != [] && |s| >= LengthSize(s[0])
  {
    var b := s[0];
    if b < 0x40 then (false, b, 1)
    else if b < 0x80 then (false, (b as int - 0x40) * 256 + s[1], 2)
    else if b < 0xC0 then (false, FromBE(s[1..5]), 5)
    else (true, b - 0xC0, 1)
  }

  function LengthSize(b: byte): (n: nat) {
    if b < 0x40 then 1 else if b < 0x80 then 2 else if b < 0xC0 then 5 else 1
  }

  /** LoadLength inverts SaveLength for every length below 2^32. */
  lemma LengthLoads(n: nat, s: seq<byte>)
    requires n < TWO32 && LengthBytes(n) <= s
    ensures |s| >= LengthSize(s[0]) && LengthAt(s) == (false, n, |LengthBytes(n)|)
  {
    hide BE;
    var l := LengthBytes(n);
    assert s[..|l|] == l;
    assert s[0] == l[0];
    if n < 64 {
    } else if n < 16384 {
      assert s[1] == l[1];
    } else {
      Pow256Values();
      BERoundTrip(n, 4);
      assert s[1..5] == l[1..5] == BE(n, 4);
    }
  }

  /** Numbers written in one, two or four bytes. */
  lemma SmallLoads(v: nat, n: nat)
    requires v < Pow256(n)
    ensures FromLE(LE(v, n)) == v
  {
    LEUnsigned(v, n);
  }

  ghost function LoadedAll(strtol: Str -> Option<long>, items: seq<Item>): (r: seq<Str>)
    requires forall i | 0 <= i < |items| :: ItemOk(items[i])
    ensures |r| == |items|
  {
    seq(|items|, i requires 0 <= i < |items| => Loaded(strtol, items[i]))
  }

  lemma StableAllReturn(strtol: Str -> Option<long>, ss: seq<Str>, items: seq<Item>)
    requires SavesAll(strtol, ss, items) && (forall i | 0 <= i < |ss| :: Stable(strtol, ss[i]))
    ensures LoadedAll(strtol, items) == ss
  {
    hide Saves, Stable, Loaded;
    forall i | 0 <= i < |ss|
      ensures Loaded(strtol, items[i]) == ss[i]
    {
      StableReturns(strtol, ss[i], items[i]);
    }
  }

  /** What is left of several items behind the first i. */
  ghost function ItemsFrom(items: seq<Item>, i: nat): (s: seq<byte>)
    requires i <= |items| && (forall k | 0 <= k < |items| :: ItemOk(items[k]))
  {
    ItemsPrefix(items, i);
    ItemsBytes(items)[|ItemsBytes(items[..i])|..]
  }

  lemma ItemsFromStep(items: seq<Item>, i: nat)
    requires i < |items| && (forall k | 0 <= k < |items| :: ItemOk(items[k]))
    ensures ItemsFrom(items, i) == ItemBytes(items[i]) + ItemsFrom(items, i + 1)
  {
    hide ItemBytes, ItemOk, ItemsBytes;
    ItemsStep(items, i);
    ItemsPrefix(items, i);
    ItemsPrefix(items, i + 1);
    var all, p, q := ItemsBytes(items), ItemsBytes(items[..i]), ItemsBytes(items[..i + 1]);
    assert all == q + all[|q|..];
    assert all[|p|..] == ItemBytes(items[i]) + all[|q|..];
  }

  lemma ItemsFromEnds(items: seq<Item>)
    requires forall k | 0 <= k < |items| :: ItemOk(items[k])
    ensures ItemsFrom(items, 0) == ItemsBytes(items) && ItemsFrom(items, |items|) == []
  {
    hide ItemBytes, ItemOk;
    assert items[..0] == [] && items[..|items|] == items;
  }

  // ------------------------------------------------------------ hashes

  /** Keys and values in turn. */
  function Interleave(keys: seq<Str>, m: map<Str, Str>): (ss: seq<Str>)
    requires forall i | 0 <= i < |keys| :: keys[i] in m
    ensures |ss| == 2 * |keys|
  {
    if keys == [] then []
    else Interleave(keys[..|keys| - 1], m) + [keys[|keys| - 1], m[keys[|keys| - 1]]]
  }

  /** The hash built by inserting pairs; a key that is there stays as it is. */
  function HashOf(ss: seq<Str>): (m: map<Str, Str>)
    requires |ss| % 2 == 0
  {
    if ss == [] then map[]
    else
      var n := |ss|;
      var m := HashOf(ss[..n - 2]);
      if ss[n - 2] in m then m else m[ss[n - 2] := ss[n - 1]]
  }

  lemma HashNone(ss: seq<Str>)
    ensures HashOf(ss[..0]) == map[]
  {
  }

  /** One more pair: the first of equal keys stays. */
  lemma HashStep(ss: seq<Str>, i: nat)
    requires 2 * i + 2 <= |ss|
    ensures var m, key, val := HashOf(ss[..2 * i]), ss[2 * i], ss[2 * i + 1];
            HashOf(ss[..2 * (i + 1)]) == if key in m then m else m[key := val]
  {
    var t := ss[..2 * (i + 1)];
    assert t[..|t| - 2] == ss[..2 * i];
    assert t[|t| - 2] == ss[2 * i] && t[|t| - 1] == ss[2 * i + 1];
  }

  /** Of equal keys, the first one counts. */
  lemma {:induction false} HashFirst(ss: seq<Str>, i: nat)
    requires |ss| % 2 == 0 && 2 * i < |ss| && (forall j | 0 <= j < i :: ss[2 * j] != ss[2 * i])
    ensures ss[2 * i] in HashOf(ss) && HashOf(ss)[ss[2 * i]] == ss[2 * i + 1]
    decreases |ss|
  {
    var t := ss[..|ss| - 2];
    if 2 * i < |t| {
      assert forall j | 0 <= j <= i :: t[2 * j] == ss[2 * j];
      assert t[2 * i + 1] == ss[2 * i + 1];
      HashFirst(t, i);
    } else {
      HashKeys(t, ss[2 * i]);
      forall j | 0 <= j < i
        ensures t[2 * j] != ss[2 * i]
      {
        assert t[2 * j] == ss[2 * j];
      }
    }
  }

  lemma {:induction false} HashKeys(ss: seq<Str>, key: Str)
    requires |ss| % 2 == 0
    ensures key in HashOf(ss) <==> exists j :: 0 <= j < |ss| / 2 && ss[2 * j] == key
    decreases |ss|
  {
    if ss != [] {
      var t, n := ss[..|ss| - 2], |ss| / 2;
      HashKeys(t, key);
      assert forall j | 0 <= j < n - 1 :: t[2 * j] == ss[2 * j];
      assert ss[2 * (n - 1)] == ss[|ss| - 2];
    }
  }

  ghost predicate AllDifferent(keys: seq<Str>) {
    forall i, j | 0 <= i < j < |keys| :: keys[i] != keys[j]
  }

  /** The part of m with these keys. */
  ghost function Part(keys: seq<Str>, m: map<Str, Str>): (r: map<Str, Str>) {
    map k | k in keys && k in m :: m[k]
  }

  lemma {:induction false} HashReturns(keys: seq<Str>, m: map<Str, Str>)
    requires AllDifferent(keys) && (forall i | 0 <= i < |keys| :: keys[i] in m)
    ensures HashOf(Interleave(keys, m)) == Part(keys, m)
  {
    hide Part;
    if keys == [] {
      PartNone(m);
    } else {
      var t, k := keys[..|keys| - 1], keys[|keys| - 1];
      HashReturns(t, m);
      PartMore(keys, m);
      assert Interleave(keys, m)[..2 * |t|] == Interleave(t, m);
    }
  }

  lemma PartNone(m: map<Str, Str>)
    ensures Part([], m) == map[]
  {
  }

  lemma PartMore(keys: seq<Str>, m: map<Str, Str>)
    requires keys != [] && AllDifferent(keys) && keys[|keys| - 1] in m
    ensures var t, k := keys[..|keys| - 1], keys[|keys| - 1];
            k !in Part(t, m) && Part(keys, m) == Part(t, m)[k := m[k]]
  {
    assert keys == keys[..|keys| - 1] + [keys[|keys| - 1]];
  }

  lemma AllKeys(keys: seq<Str>, m: map<Str, Str>)
    requires forall k :: k in keys <==> k in m
    ensures Part(keys, m) == m
  {
  }
}
