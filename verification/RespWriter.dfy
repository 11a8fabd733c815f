/** The command writer of src/replication.h: a RESP array of bulk strings. */
module RespWriter {
  import opened Bytes
  import opened Decimal
  import opened Unbounded

  const CR: byte := 13
  const LF: byte := 10
  const STAR: byte := 42
  const DOLLAR: byte := 36

  /** A length line: its kind, the decimal length, CR LF. */
  function Line(kind: byte, n: nat): (s: seq<byte>)
    ensures |s| == |Digits(n)| + 3
  {
    [kind] + Digits(n) + [CR, LF]
  }

  function Bulk(s: seq<byte>): (r: seq<byte>)
    ensures |r| == |Digits(|s|)| + |s| + 5
  {
    Line(DOLLAR, |s|) + s + [CR, LF]
  }

  function Bulks(params: seq<seq<byte>>): (r: seq<byte>) {
    if params == [] then [] else Bulk(params[0]) + Bulks(params[1..])
  }

  /** The bytes of one command. */
  function Command(params: seq<seq<byte>>): (r: seq<byte>)
    ensures r != []
  {
    Line(STAR, |params|) + Bulks(params)
  }

  lemma {:induction false} BulksAppend(a: seq<seq<byte>>, b: seq<seq<byte>>)
    ensures Bulks(a + b) == Bulks(a) + Bulks(b)
  {
    hide Bulk;
    if a == [] {
      assert a + b == b;
    } else {
      BulksAppend(a[1..], b);
      assert (a + b)[0] == a[0] && (a + b)[1..] == a[1..] + b;
      Assoc3(Bulk(a[0]), Bulks(a[1..]), Bulks(b));
    }
  }

  lemma BulksLast(params: seq<seq<byte>>, i: nat)
    requires i < |params|
    ensures Bulks(params[..i + 1]) == Bulks(params[..i]) + Bulk(params[i])
  {
    hide Bulk;
    BulksAppend(params[..i], [params[i]]);
    assert params[..i + 1] == params[..i] + [params[i]];
    BulksOne(params[i]);
  }

  lemma BulksOne(s: seq<byte>)
    ensures Bulks([s]) == Bulk(s)
  {
    hide Bulk;
    assert [s][1..] == [];
    assert Bulk(s) + [] == Bulk(s);
  }

  /** Some of the bulk strings are no longer than all of them. */
  lemma BulksGrow(params: seq<seq<byte>>, i: nat)
    requires i <= |params|
    ensures |Bulks(params[..i])| <= |Bulks(params)|
  {
    hide Bulk, Bulks;
    BulksAppend(params[..i], params[i..]);
    Halves(params, i);
  }

  /** WriteBulkString */
  method WriteBulkString(str: seq<byte>, dst: UnboundedBuffer)
    requires dst.Valid() && |dst.Contents()| + |Bulk(str)| < MAX_BUFFER_SIZE
    modifies dst, dst.buffer
    ensures dst.Valid() && (dst.buffer == old(dst.buffer) || fresh(dst.buffer))
    ensures dst.Contents() == old(dst.Contents()) + Bulk(str)
  {
    hide Digits;
    var tmp := Line(DOLLAR, |str|);
    var _ := dst.PushData(tmp);
    var _ := dst.PushData(str);
    var _ := dst.PushData([CR, LF]);
  }

  /** SaveCommand appends exactly the command's bytes to the destination. */
  method SaveCommand(params: seq<seq<byte>>, dst: UnboundedBuffer)
    requires dst.Valid() && |dst.Contents()| + |Command(params)| < MAX_BUFFER_SIZE
    modifies dst, dst.buffer
    ensures dst.Valid() && (dst.buffer == old(dst.buffer) || fresh(dst.buffer))
    ensures dst.Contents() == old(dst.Contents()) + Command(params)
  {
    hide Digits, Bulk, Bulks, Line;
    ghost var was, line := dst.Contents(), Line(STAR, |params|);
    var tmp := Line(STAR, |params|);
    var _ := dst.PushData(tmp);
    BulksNone();
    for i := 0 to |params|
      invariant dst.Valid() && (dst.buffer == old(dst.buffer) || fresh(dst.buffer))
      invariant dst.Contents() == was + line + Bulks(params[..i])
    {
      BulksLast(params, i);
      BulksGrow(params, i + 1);
      WriteBulkString(params[i], dst);
    }
    WholeSlice(params);
    Assoc3(was, line, Bulks(params));
  }

  lemma BulksNone()
    ensures Bulks([]) == []
  {
  }
}
