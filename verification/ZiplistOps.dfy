/** What insert, delete and the cascade do to the entries of a ziplist, and why
    the list of items changes exactly as a plain sequence would. */
module ZiplistOps {
  import opened Bytes
  import opened ZiplistCodec
  import opened ZiplistLayout

  /** Back pointers widened by __ziplistCascadeUpdate: rest follows an entry of
      raw length rawlen, and widening one entry may force the next to widen.
      Pointers that are wider than needed stay as they are. */
  function Cascade(rawlen: nat, rest: seq<Entry>): (r: seq<Entry>)
    ensures |r| == |rest|
    decreases |rest|
  {
    if rest == [] || rest[0].wide || rawlen < ZIP_BIGLEN then rest
    else
      var e := rest[0].(wide := true);
      [e] + Cascade(RawLen(e), rest[1..])
  }

  /** The entry written for item when the preceding entry has raw length prev. */
  function NewEntry(prev: nat, item: Item): (e: Entry) {
    Entry(prev >= ZIP_BIGLEN, item)
  }

  /** Entries from old position k on, once entry k follows an entry of raw length prev. */
  function Relink(prev: nat, es: seq<Entry>): (r: seq<Entry>)
    ensures |r| == |es|
  {
    if es == [] then []
    else
      var next := es[0].(wide := prev >= ZIP_BIGLEN);
      [next] + Cascade(RawLen(next), es[1..])
  }

  lemma RelinkNone(prev: nat)
    ensures Relink(prev, []) == []
  {
  }

  lemma SplitTail<T>(s: seq<T>, k: nat)
    requires k < |s|
    ensures s[k..] == [s[k]] + s[k + 1..]
  {
  }

  lemma RelinkCons(prev: nat, c: Entry, rest: seq<Entry>)
    ensures var next := c.(wide := prev >= ZIP_BIGLEN);
            Relink(prev, [c] + rest) == [next] + Cascade(RawLen(next), rest)
  {
    assert ([c] + rest)[1..] == rest;
  }

  function InsertEntry(es: seq<Entry>, k: nat, item: Item): (r: seq<Entry>)
    requires k <= |es|
    ensures |r| == |es| + 1
  {
    var e := NewEntry(LastLen(0, es[..k]), item);
    es[..k] + [e] + Relink(RawLen(e), es[k..])
  }

  function DeleteEntries(es: seq<Entry>, k: nat, m: nat): (r: seq<Entry>)
    requires k + m <= |es|
    ensures |r| == |es| - m
  {
    if m == 0 then es else es[..k] + Relink(LastLen(0, es[..k]), es[k + m..])
  }

  /** reqlen + nextdiff: by how much line 632 resizes the buffer, before the entries
      behind the new one are moved (line 638) and before the cascade. */
  function Growth(es: seq<Entry>, k: nat, item: Item): (n: int)
    requires k <= |es|
    ensures n >= -2 && (k == |es| ==> n > 0)
  {
    var len := RawLen(NewEntry(LastLen(0, es[..k]), item));
    if k == |es| then len else len + PrevSize(len >= ZIP_BIGLEN) - PrevSize(es[k].wide)
  }

  // ------------------------------------------------------------ the cascade

  lemma {:induction false} CascadeItems(rawlen: nat, rest: seq<Entry>)
    ensures Items(Cascade(rawlen, rest)) == Items(rest)
    decreases |rest|
  {
    var c := Cascade(rawlen, rest);
    if !(rest == [] || rest[0].wide || rawlen < ZIP_BIGLEN) {
      var e := rest[0].(wide := true);
      CascadeItems(RawLen(e), rest[1..]);
      forall i | 0 <= i < |rest|
        ensures c[i].item == rest[i].item
      {
        if i > 0 {
          assert c[i] == Cascade(RawLen(e), rest[1..])[i - 1];
          assert Items(rest[1..])[i - 1] == rest[i].item;
        }
      }
    }
  }

  /** An entry is widened only where the cascade needs it, by four bytes each. */
  lemma {:induction false} CascadeSize(rawlen: nat, rest: seq<Entry>)
    ensures Size(rest) <= Size(Cascade(rawlen, rest)) <= Size(rest) + 4 * |rest|
    decreases |rest|
  {
    if !(rest == [] || rest[0].wide || rawlen < ZIP_BIGLEN) {
      var e := rest[0].(wide := true);
      CascadeSize(RawLen(e), rest[1..]);
      assert Cascade(rawlen, rest)[1..] == Cascade(RawLen(e), rest[1..]);
    }
  }

  lemma RawLenBound(prev: nat, e: Entry)
    ensures RawLen(e) <= Size([e])
  {
    assert Size([e]) == RawLen(e) + Size([e][1..]);
  }

  /** After the cascade every back pointer fits, whatever it was before. */
  lemma {:induction false} CascadeFits(stale: nat, rawlen: nat, rest: seq<Entry>)
    requires Fits(stale, rest) && rawlen + Size(rest) + 4 * |rest| < TWO32
    ensures Fits(rawlen, Cascade(rawlen, rest))
    decreases |rest|
  {
    if rest != [] && !rest[0].wide && rawlen >= ZIP_BIGLEN {
      var e := rest[0].(wide := true);
      CascadeFits(RawLen(rest[0]), RawLen(e), rest[1..]);
      assert Cascade(rawlen, rest)[1..] == Cascade(RawLen(e), rest[1..]);
    }
  }

  /** When nothing changed length there is nothing to cascade. */
  lemma CascadeIdle(prev: nat, rest: seq<Entry>)
    requires Fits(prev, rest)
    ensures Cascade(prev, rest) == rest
  {
  }

  // --------------------------------------------------------- insert, delete

  lemma RelinkKeeps(stale: nat, prev: nat, es: seq<Entry>)
    requires Fits(stale, es) && prev + Size(es) + 4 * |es| < TWO32
    ensures Fits(prev, Relink(prev, es)) && Items(Relink(prev, es)) == Items(es)
    ensures Size(Relink(prev, es)) <= Size(es) + 4 * |es|
  {
    if es != [] {
      var next := es[0].(wide := prev >= ZIP_BIGLEN);
      var c := Cascade(RawLen(next), es[1..]);
      CascadeFits(RawLen(es[0]), RawLen(next), es[1..]);
      CascadeItems(RawLen(next), es[1..]);
      CascadeSize(RawLen(next), es[1..]);
      assert Relink(prev, es)[1..] == c;
      forall i | 0 <= i < |es|
        ensures Relink(prev, es)[i].item == es[i].item
      {
        if i > 0 {
          assert Items(c)[i - 1] == Items(es[1..])[i - 1];
        }
      }
    }
  }

  lemma ItemsSplit(a: seq<Entry>, b: seq<Entry>)
    ensures Items(a + b) == Items(a) + Items(b)
  {
  }

  /** Room for one more entry of the given body, with every later pointer widened. */
  predicate Room(es: seq<Entry>, extra: nat) {
    HEADER_SIZE + Size(es) + 1 + extra + 4 * |es| < TWO32
  }

  lemma {:induction false} LastLenBound(es: seq<Entry>)
    ensures LastLen(0, es) <= Size(es)
  {
    if es != [] {
      var n := |es| - 1;
      assert es == es[..n] + [es[n]];
      SizeAppend(es[..n], [es[n]]);
      RawLenBound(0, es[n]);
    }
  }

  /** A well-linked prefix a, a new entry e behind it, and a relinked tail. */
  lemma InsertFits(a: seq<Entry>, item: Item, c: seq<Entry>)
    requires Fits(0, a + c) && ItemOk(item) && Room(a + c, |Body(item)| + 9)
    ensures var e := NewEntry(LastLen(0, a), item);
            var r := a + [e] + Relink(RawLen(e), c);
            Fits(0, r) && Size(r) <= Size(a + c) + |Body(item)| + 5 + 4 * |c|
  {
    hide Size, Cascade, Relink, Body;
    var e := NewEntry(LastLen(0, a), item);
    var tail := Relink(RawLen(e), c);
    FitsAppend(0, a, c);
    SizeAppend(a, c);
    LastLenBound(a);
    RelinkKeeps(LastLen(0, a), RawLen(e), c);
    ConsFits(LastLen(0, a), e, tail);
    FitsAppend(0, a, [e] + tail);
    Assoc3(a, [e], tail);
    SizeAppend(a, [e] + tail);
  }

  lemma ConsFits(prev: nat, e: Entry, tail: seq<Entry>)
    requires EntryOk(prev, e) && Fits(RawLen(e), tail)
    ensures Fits(prev, [e] + tail) && Size([e] + tail) == RawLen(e) + Size(tail)
  {
    assert ([e] + tail)[1..] == tail;
  }

  lemma InsertItems(a: seq<Entry>, e: Entry, c: seq<Entry>, tail: seq<Entry>)
    requires Items(tail) == Items(c)
    ensures Items(a + [e] + tail) == Items(a + c)[..|a|] + [e.item] + Items(a + c)[|a|..]
  {
    ItemsSplit(a, c);
    ItemsSplit(a + [e], tail);
    ItemsSplit(a, [e]);
  }

  lemma RelinkItems(a: seq<Entry>, prev: nat, c: seq<Entry>)
    requires Fits(0, a + c) && prev + Size(a + c) + 4 * |a + c| < TWO32
    ensures Items(Relink(prev, c)) == Items(c)
  {
    FitsAppend(0, a, c);
    SizeAppend(a, c);
    RelinkKeeps(LastLen(0, a), prev, c);
  }

  /** Inserting keeps every pointer representable and inserts one item. */
  lemma InsertRefines(es: seq<Entry>, k: nat, item: Item)
    requires k <= |es| && Fits(0, es) && ItemOk(item) && Room(es, |Body(item)| + 9)
    ensures Fits(0, InsertEntry(es, k, item))
    ensures Items(InsertEntry(es, k, item)) == Items(es)[..k] + [item] + Items(es)[k..]
    ensures Size(InsertEntry(es, k, item)) <= Size(es) + |Body(item)| + 5 + 4 * |es|
  {
    hide Fits, Size, Cascade, Items, Relink, LastLen, Room, Body, RawLen;
    var a, c := es[..k], es[k..];
    Halves(es, k);
    InsertRefinesAt(a, c, item);
  }

  lemma InsertRefinesAt(a: seq<Entry>, c: seq<Entry>, item: Item)
    requires Fits(0, a + c) && ItemOk(item) && Room(a + c, |Body(item)| + 9)
    ensures var e := NewEntry(LastLen(0, a), item);
            var r := a + [e] + Relink(RawLen(e), c);
            && Fits(0, r) && Size(r) <= Size(a + c) + |Body(item)| + 5 + 4 * |c|
            && Items(r) == Items(a + c)[..|a|] + [item] + Items(a + c)[|a|..]
  {
    hide Fits, Size, Cascade, Items, Relink, Body;
    var e := NewEntry(LastLen(0, a), item);
    LastLenBound(a);
    SizeAppend(a, c);
    InsertFits(a, item, c);
    RelinkItems(a, RawLen(e), c);
    InsertItems(a, e, c, Relink(RawLen(e), c));
  }

  lemma DeleteFits(a: seq<Entry>, b: seq<Entry>, c: seq<Entry>)
    requires Fits(0, a + b + c) && Room(a + b + c, 0)
    ensures var r := a + Relink(LastLen(0, a), c);
            Fits(0, r) && Size(r) <= Size(a + b + c) + 4 * |c|
    ensures Items(Relink(LastLen(0, a), c)) == Items(c)
  {
    FitsAppend(0, a + b, c);
    FitsAppend(0, a, b);
    SizeAppend(a + b, c);
    SizeAppend(a, b);
    LastLenBound(a);
    RelinkKeeps(LastLen(0, a + b), LastLen(0, a), c);
    FitsAppend(0, a, Relink(LastLen(0, a), c));
    SizeAppend(a, Relink(LastLen(0, a), c));
  }

  lemma DeleteItems(a: seq<Entry>, b: seq<Entry>, c: seq<Entry>, tail: seq<Entry>)
    requires Items(tail) == Items(c)
    ensures Items(a + tail) == Items(a + b + c)[..|a|] + Items(a + b + c)[|a| + |b|..]
  {
    ItemsSplit(a + b, c);
    ItemsSplit(a, b);
    ItemsSplit(a, tail);
  }

  lemma DeleteRefinesAt(a: seq<Entry>, b: seq<Entry>, c: seq<Entry>)
    requires Fits(0, a + b + c) && Room(a + b + c, 0)
    ensures var r := a + Relink(LastLen(0, a), c);
            && Fits(0, r) && Size(r) <= Size(a + b + c) + 4 * |c|
            && Items(r) == Items(a + b + c)[..|a|] + Items(a + b + c)[|a| + |b|..]
  {
    hide Fits, Size, Cascade, Items, Relink, LastLen;
    DeleteFits(a, b, c);
    DeleteItems(a, b, c, Relink(LastLen(0, a), c));
  }

  /** Deleting m entries removes exactly those m items. */
  lemma DeleteRefines(es: seq<Entry>, k: nat, m: nat)
    requires k + m <= |es| && Fits(0, es) && Room(es, 0)
    ensures Fits(0, DeleteEntries(es, k, m))
    ensures Items(DeleteEntries(es, k, m)) == Items(es)[..k] + Items(es)[k + m..]
    ensures Size(DeleteEntries(es, k, m)) <= Size(es) + 4 * |es|
  {
    hide Fits, Size, Cascade, Items, Relink, LastLen, Room, Body, RawLen;
    if m == 0 {
      Halves(Items(es), k);
    } else {
      var a, b, c := es[..k], es[k..k + m], es[k + m..];
      assert es == a + b + c by { Thirds(es, k, k + m); }
      DeleteRefinesAt(a, b, c);
    }
  }

  // --------------------------------------------------------- widths

  /** Raw length of what comes before entry i, where prev comes before the first. */
  function Before(prev: nat, es: seq<Entry>, i: nat): (n: nat)
    requires i <= |es|
  {
    if i == 0 then prev else RawLen(es[i - 1])
  }

  /** The pointer is as wide as it was, or wide because the entry before is too long. */
  predicate WidthOk(was: bool, prev: nat, e: Entry) { e.wide == (was || prev >= ZIP_BIGLEN) }

  lemma {:induction false} FitsWidths(prev: nat, es: seq<Entry>, i: nat)
    requires Fits(prev, es) && i < |es|
    ensures WidthOk(es[i].wide, Before(prev, es, i), es[i])
    decreases |es|
  {
    hide RawLen;
    if i > 0 {
      FitsWidths(RawLen(es[0]), es[1..], i - 1);
    }
  }

  /** The cascade widens exactly where the entry before has become too long. */
  lemma {:induction false} CascadeWidths(stale: nat, rawlen: nat, rest: seq<Entry>, i: nat)
    requires Fits(stale, rest) && i < |rest|
    ensures WidthOk(rest[i].wide, Before(rawlen, Cascade(rawlen, rest), i), Cascade(rawlen, rest)[i])
    decreases |rest|
  {
    hide RawLen;
    if rest[0].wide || rawlen < ZIP_BIGLEN {
      FitsWidths(stale, rest, i);
    } else if i > 0 {
      var e := rest[0].(wide := true);
      CascadeWidths(RawLen(rest[0]), RawLen(e), rest[1..], i - 1);
    }
  }

  /** What is relinked: the first pointer is as narrow as it can be, the others are not narrowed. */
  lemma RelinkWidths(stale: nat, prev: nat, es: seq<Entry>, i: nat)
    requires Fits(stale, es) && i < |es|
    ensures WidthOk(i > 0 && es[i].wide, Before(prev, Relink(prev, es), i), Relink(prev, es)[i])
  {
    hide RawLen, Cascade;
    if i > 0 {
      var next := es[0].(wide := prev >= ZIP_BIGLEN);
      CascadeWidths(RawLen(es[0]), RawLen(next), es[1..], i - 1);
    }
  }

  lemma BeforeAppend(a: seq<Entry>, t: seq<Entry>, i: nat)
    requires i <= |a| + |t|
    ensures Before(0, a + t, i) == if i <= |a| then Before(0, a, i) else Before(LastLen(0, a), t, i - |a|)
    ensures Before(0, a, |a|) == LastLen(0, a)
  {
    hide RawLen;
    assert i > |a| ==> (a + t)[i - 1] == t[i - 1 - |a|];
    assert 0 < i <= |a| ==> (a + t)[i - 1] == a[i - 1];
  }

  /** After an insert, the new pointer and the one behind it are wide exactly if they have to
      be; of the others, exactly those that were or now have to be. */
  lemma InsertWidths(es: seq<Entry>, k: nat, item: Item, i: nat)
    requires Fits(0, es) && k <= |es| && i <= |es|
    ensures var r := InsertEntry(es, k, item);
            WidthOk(if i < k then es[i].wide else i > k + 1 && es[i - 1].wide, Before(0, r, i), r[i])
  {
    hide RawLen, Relink, Fits, Before, LastLen;
    var a, c := es[..k], es[k..];
    Halves(es, k);
    FitsAppend(0, a, c);
    var e := NewEntry(LastLen(0, a), item);
    var tail := Relink(RawLen(e), c);
    BeforeAppend(a + [e], tail, i);
    BeforeAppend(a, [e], if i <= k then i else k + 1);
    LastOf(a, e);
    BeforeStart(RawLen(e), tail);
    if i < k {
      FitsWidths(0, a, i);
    } else if i > k {
      RelinkWidths(LastLen(0, a), RawLen(e), c, i - k - 1);
      assert InsertEntry(es, k, item)[i] == tail[i - k - 1];
    }
  }

  lemma LastOf(a: seq<Entry>, e: Entry)
    ensures LastLen(0, a + [e]) == RawLen(e)
  {
  }

  lemma DeleteWidths(es: seq<Entry>, k: nat, m: nat, i: nat)
    requires Fits(0, es) && k + m <= |es| && m > 0 && i < |es| - m
    ensures var r := DeleteEntries(es, k, m);
            WidthOk(if i < k then es[i].wide else i > k && es[i + m].wide, Before(0, r, i), r[i])
  {
    hide RawLen, Relink, Fits, Before, LastLen;
    var a, b, c := es[..k], es[k..k + m], es[k + m..];
    assert es == a + b + c by { Thirds(es, k, k + m); }
    FitsAppend(0, a + b, c);
    FitsAppend(0, a, b);
    BeforeAppend(a, Relink(LastLen(0, a), c), i);
    BeforeStart(LastLen(0, a), Relink(LastLen(0, a), c));
    if i < k {
      FitsWidths(0, a, i);
    } else {
      RelinkWidths(LastLen(0, a + b), LastLen(0, a), c, i - k);
      assert DeleteEntries(es, k, m)[i] == Relink(LastLen(0, a), c)[i - k];
    }
  }

  lemma BeforeStart(prev: nat, es: seq<Entry>)
    ensures Before(prev, es, 0) == prev
  {
  }
}
