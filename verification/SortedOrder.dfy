/** The score index of src/sorted_set.h: an ordered map from scores to ordered sets of
    members, as the sequence its iterators walk. */
module SortedOrder {
  import opened Bytes

  type Member = seq<byte>

  /** One score with its members; the members may all have gone. */
  datatype Bucket = Bucket(score: real, names: seq<Member>)

  datatype Pair = Pair(member: Member, score: real)

  // ------------------------------------------------------------ the order of members

  /** operator< of std::string */
  predicate Less(a: Member, b: Member) {
    if b == [] then false
    else if a == [] then true
    else a[0] < b[0] || (a[0] == b[0] && Less(a[1..], b[1..]))
  }

  /** Lexicographic on bytes: a ends where b goes on, or the first byte that differs is
      smaller. */
  ghost predicate Before(a: Member, b: Member, k: nat) {
    && k <= |a| && k <= |b| && a[..k] == b[..k]
    && ((k == |a| && k < |b|) || (k < |a| && k < |b| && (a[k] as int) < b[k] as int))
  }

  lemma {:induction false} LessIff(a: Member, b: Member)
    ensures Less(a, b) <==> exists k: nat :: Before(a, b, k)
  {
    if a != [] && b != [] && a[0] == b[0] {
      LessIff(a[1..], b[1..]);
      if Less(a[1..], b[1..]) {
        var k: nat :| Before(a[1..], b[1..], k);
        BeforeMore(a, b, k);
        assert Before(a, b, k + 1);
      }
      forall k: nat | Before(a, b, k)
        ensures Less(a, b)
      {
        BeforeLess(a, b, k);
        assert Before(a[1..], b[1..], k - 1);
      }
    } else if Less(a, b) {
      assert Before(a, b, 0);
    } else {
      forall k: nat
        ensures !Before(a, b, k)
      {
        BeforeHead(a, b, k);
      }
    }
  }

  lemma BeforeHead(a: Member, b: Member, k: nat)
    ensures Before(a, b, k) && k > 0 ==> a != [] && b != [] && a[0] == b[0]
  {
    assert 0 < k <= |a| && k <= |b| ==> a[..k][0] == a[0] && b[..k][0] == b[0];
  }

  lemma BeforeMore(a: Member, b: Member, k: nat)
    requires a != [] && b != [] && a[0] == b[0] && Before(a[1..], b[1..], k)
    ensures Before(a, b, k + 1)
  {
    assert a[..k + 1] == [a[0]] + a[1..][..k];
    assert b[..k + 1] == [b[0]] + b[1..][..k];
  }

  lemma BeforeLess(a: Member, b: Member, k: nat)
    requires a != [] && b != [] && a[0] == b[0] && Before(a, b, k)
    ensures k > 0 && Before(a[1..], b[1..], k - 1)
  {
    assert a[1..][..k - 1] == a[..k][1..];
    assert b[1..][..k - 1] == b[..k][1..];
  }

  lemma {:induction false} LessTotal(a: Member, b: Member)
    ensures (a == b && !Less(a, b) && !Less(b, a)) || (a != b && Less(a, b) == !Less(b, a))
  {
    if a != [] && b != [] && a[0] == b[0] {
      LessTotal(a[1..], b[1..]);
      assert a == [a[0]] + a[1..] && b == [b[0]] + b[1..];
    }
  }

  lemma {:induction false} LessTransitive(a: Member, b: Member, c: Member)
    requires Less(a, b) && Less(b, c)
    ensures Less(a, c)
  {
    if a != [] && a[0] == b[0] && b[0] == c[0] {
      LessTransitive(a[1..], b[1..], c[1..]);
    }
  }

  // ------------------------------------------------------------ an ordered set

  ghost predicate Ordered(names: seq<Member>) {
    forall i, j | 0 <= i < j < |names| :: Less(names[i], names[j])
  }

  /** std::set::insert */
  function InsertName(names: seq<Member>, m: Member): (r: seq<Member>) {
    if names == [] then [m]
    else if Less(names[0], m) then [names[0]] + InsertName(names[1..], m)
    else if names[0] == m then names
    else [m] + names
  }

  lemma {:induction false} InsertedName(names: seq<Member>, m: Member)
    requires Ordered(names)
    ensures Ordered(InsertName(names, m))
    ensures forall x :: x in InsertName(names, m) <==> x in names || x == m
  {
    hide Less;
    if names != [] {
      LessTotal(names[0], m);
      var t := names[1..];
      if Less(names[0], m) {
        InsertedName(t, m);
        assert forall x :: x in names <==> x == names[0] || x in t;
        var r := InsertName(t, m);
        forall i | 0 <= i < |r|
          ensures Less(names[0], r[i])
        {
          assert r[i] in r;
        }
      } else if names[0] != m {
        forall i | 0 <= i < |names|
          ensures Less(m, names[i])
        {
          if i > 0 {
            LessTransitive(m, names[0], names[i]);
          }
        }
      }
    }
  }

  /** std::set::erase */
  function EraseName(names: seq<Member>, m: Member): (r: seq<Member>)
    ensures |r| <= |names|
  {
    if names == [] then []
    else if names[0] == m then names[1..]
    else [names[0]] + EraseName(names[1..], m)
  }

  lemma {:induction false} ErasedName(names: seq<Member>, m: Member)
    requires Ordered(names)
    ensures Ordered(EraseName(names, m))
    ensures forall x :: x in EraseName(names, m) <==> x in names && x != m
  {
    hide Less;
    if names != [] {
      var t := names[1..];
      assert forall x :: x in names <==> x == names[0] || x in t;
      if names[0] == m {
        forall i | 0 <= i < |t|
          ensures t[i] != m
        {
          LessTotal(m, t[i]);
          assert Less(names[0], names[i + 1]);
        }
      } else {
        ErasedName(t, m);
        var r := EraseName(t, m);
        forall i | 0 <= i < |r|
          ensures Less(names[0], r[i])
        {
          assert r[i] in r;
        }
      }
    }
  }

  // ------------------------------------------------------------ the ordered map

  ghost predicate BucketsOk(scores: seq<Bucket>) {
    && (forall i | 0 <= i < |scores| :: Ordered(scores[i].names))
    && (forall i, j | 0 <= i < j < |scores| :: scores[i].score < scores[j].score)
  }

  /** The member is in the bucket of the score. */
  ghost predicate In(scores: seq<Bucket>, m: Member, s: real) {
    exists i :: 0 <= i < |scores| && scores[i].score == s && m in scores[i].names
  }

  /** scores_[s].insert(m) */
  function InsertScore(scores: seq<Bucket>, s: real, m: Member): (r: seq<Bucket>) {
    if scores == [] then [Bucket(s, [m])]
    else if scores[0].score < s then [scores[0]] + InsertScore(scores[1..], s, m)
    else if scores[0].score == s then [Bucket(s, InsertName(scores[0].names, m))] + scores[1..]
    else [Bucket(s, [m])] + scores
  }

  /** scores_.find(s)->second.erase(m); the bucket stays. */
  function EraseScore(scores: seq<Bucket>, s: real, m: Member): (r: seq<Bucket>) {
    if scores == [] then []
    else if scores[0].score == s then [Bucket(s, EraseName(scores[0].names, m))] + scores[1..]
    else [scores[0]] + EraseScore(scores[1..], s, m)
  }

  lemma InHead(b: Bucket, t: seq<Bucket>, m: Member, s: real)
    ensures In([b] + t, m, s) <==> (b.score == s && m in b.names) || In(t, m, s)
  {
    var all := [b] + t;
    if In(t, m, s) {
      var i :| 0 <= i < |t| && t[i].score == s && m in t[i].names;
      assert all[i + 1] == t[i];
    }
    if b.score == s && m in b.names {
      assert all[0] == b;
    }
    if In(all, m, s) {
      var i :| 0 <= i < |all| && all[i].score == s && m in all[i].names;
      if i > 0 {
        assert all[i] == t[i - 1];
      }
    }
  }

  lemma BucketsCons(b: Bucket, t: seq<Bucket>)
    ensures BucketsOk([b] + t) <==>
            Ordered(b.names) && BucketsOk(t) && forall i | 0 <= i < |t| :: b.score < t[i].score
  {
    hide Ordered;
    var all := [b] + t;
    assert all[0] == b;
    assert forall i | 0 <= i < |t| :: all[i + 1] == t[i];
    assert forall i | 0 < i < |all| :: all[i] == t[i - 1];
  }

  /** Inserting adds exactly that pair, and keeps every score at or above the smaller of the
      first and s. */
  lemma {:induction false} InsertedScore(scores: seq<Bucket>, s: real, m: Member)
    requires BucketsOk(scores)
    ensures BucketsOk(InsertScore(scores, s, m))
    ensures forall i | 0 <= i < |InsertScore(scores, s, m)| ::
              InsertScore(scores, s, m)[i].score == s ||
              (scores != [] && InsertScore(scores, s, m)[i].score >= scores[0].score)
  {
    hide Ordered, InsertName, BucketsOk;
    if scores == [] {
      OrderedOne(m);
      BucketsCons(Bucket(s, [m]), []);
      assert [Bucket(s, [m])] + [] == [Bucket(s, [m])];
    } else {
      var b, t := scores[0], scores[1..];
      assert scores == [b] + t;
      BucketsCons(b, t);
      if b.score < s {
        InsertedScore(t, s, m);
        BucketsCons(b, InsertScore(t, s, m));
      } else if b.score == s {
        assert Ordered(InsertName(b.names, m)) by { InsertedName(b.names, m); }
        BucketsCons(Bucket(s, InsertName(b.names, m)), t);
      } else {
        OrderedOne(m);
        BucketsCons(Bucket(s, [m]), scores);
      }
    }
  }

  lemma OrderedOne(m: Member)
    ensures Ordered([m])
  {
  }

  lemma {:induction false} InsertedPair(scores: seq<Bucket>, s: real, m: Member, x: Member, t: real)
    requires BucketsOk(scores)
    ensures In(InsertScore(scores, s, m), x, t) <==> In(scores, x, t) || (x == m && t == s)
  {
    hide Ordered, InsertName, In;
    if scores == [] {
      InHead(Bucket(s, [m]), [], x, t);
      assert [Bucket(s, [m])] + [] == [Bucket(s, [m])];
      InNothing(x, t);
    } else {
      var b, rest := scores[0], scores[1..];
      assert scores == [b] + rest;
      InHead(b, rest, x, t);
      if b.score < s {
        InsertedPair(rest, s, m, x, t);
        InHead(b, InsertScore(rest, s, m), x, t);
      } else if b.score == s {
        InsertedName(b.names, m);
        InHead(Bucket(s, InsertName(b.names, m)), rest, x, t);
      } else {
        InHead(Bucket(s, [m]), scores, x, t);
      }
    }
  }

  lemma InNothing(x: Member, t: real)
    ensures !In([], x, t)
  {
  }

  lemma {:induction false} ErasedScore(scores: seq<Bucket>, s: real, m: Member)
    requires BucketsOk(scores)
    ensures BucketsOk(EraseScore(scores, s, m)) && |EraseScore(scores, s, m)| == |scores|
    ensures forall i | 0 <= i < |scores| :: EraseScore(scores, s, m)[i].score == scores[i].score
  {
    hide Ordered, EraseName;
    if scores != [] {
      if scores[0].score == s {
        assert Ordered(EraseName(scores[0].names, m)) by { ErasedName(scores[0].names, m); }
      } else {
        ErasedScore(scores[1..], s, m);
      }
    }
  }

  lemma {:induction false} ErasedPair(scores: seq<Bucket>, s: real, m: Member, x: Member, t: real)
    requires BucketsOk(scores)
    ensures In(EraseScore(scores, s, m), x, t) <==> In(scores, x, t) && !(x == m && t == s)
  {
    hide Ordered, EraseName, In;
    if scores == [] {
      InNothing(x, t);
    } else {
      var b, rest := scores[0], scores[1..];
      assert scores == [b] + rest;
      InHead(b, rest, x, t);
      if b.score == s {
        ErasedName(b.names, m);
        InHead(Bucket(s, EraseName(b.names, m)), rest, x, t);
        NotAbove(b, rest, x, t);
      } else {
        ErasedPair(rest, s, m, x, t);
        InHead(b, EraseScore(rest, s, m), x, t);
      }
    }
  }

  lemma NotAbove(b: Bucket, rest: seq<Bucket>, x: Member, t: real)
    requires BucketsOk([b] + rest)
    ensures t == b.score ==> !In(rest, x, t)
  {
    var all := [b] + rest;
    forall i | 0 <= i < |rest|
      ensures b.score < rest[i].score
    {
      assert all[0].score < all[i + 1].score;
    }
  }

  // ------------------------------------------------------------ the whole order

  ghost predicate PairLess(p: Pair, q: Pair) {
    p.score < q.score || (p.score == q.score && Less(p.member, q.member))
  }

  /** Strictly increasing by score, then member. */
  ghost predicate Increasing(ps: seq<Pair>) {
    forall i, j | 0 <= i < j < |ps| :: PairLess(ps[i], ps[j])
  }

  /** Scores do not decrease, and members of one score are in the order of their bytes. */
  lemma OrderMeans(ps: seq<Pair>, i: nat, j: nat)
    requires Increasing(ps) && i < j < |ps|
    ensures ps[i].score <= ps[j].score
    ensures ps[i].score == ps[j].score ==> exists k: nat :: Before(ps[i].member, ps[j].member, k)
  {
    hide Less, Before;
    assert PairLess(ps[i], ps[j]);
    LessIff(ps[i].member, ps[j].member);
  }

  function Tagged(names: seq<Member>, s: real): (ps: seq<Pair>)
    ensures |ps| == |names|
  {
    seq(|names|, i requires 0 <= i < |names| => Pair(names[i], s))
  }

  /** All pairs in iteration order. */
  function Pairs(scores: seq<Bucket>): (ps: seq<Pair>) {
    if scores == [] then []
    else Pairs(scores[..|scores| - 1]) + Tagged(scores[|scores| - 1].names, scores[|scores| - 1].score)
  }

  lemma PairsStep(scores: seq<Bucket>, i: nat)
    requires i < |scores|
    ensures Pairs(scores[..i + 1]) == Pairs(scores[..i]) + Tagged(scores[i].names, scores[i].score)
  {
    assert scores[..i + 1][..i] == scores[..i];
  }

  lemma {:induction false} PairsPrefix(scores: seq<Bucket>, i: nat)
    requires i <= |scores|
    ensures Pairs(scores[..i]) <= Pairs(scores)
    decreases |scores| - i
  {
    if i < |scores| {
      PairsStep(scores, i);
      PairsPrefix(scores, i + 1);
    } else {
      assert scores[..i] == scores;
    }
  }

  /** Member k of bucket i among all pairs. */
  lemma PairsAt(scores: seq<Bucket>, i: nat, k: nat)
    requires i < |scores| && k < |scores[i].names|
    ensures |Pairs(scores[..i])| + k < |Pairs(scores)|
    ensures Pairs(scores)[|Pairs(scores[..i])| + k] == Pair(scores[i].names[k], scores[i].score)
  {
    hide Pairs;
    PairsStep(scores, i);
    PairsPrefix(scores, i + 1);
  }

  lemma {:induction false} PairsIn(scores: seq<Bucket>, p: Pair)
    ensures p in Pairs(scores) <==> In(scores, p.member, p.score)
  {
    hide In;
    if scores == [] {
      InNothing(p.member, p.score);
    } else {
      var t, b := scores[..|scores| - 1], scores[|scores| - 1];
      PairsIn(t, p);
      InLast(t, b, p.member, p.score);
      assert scores == t + [b];
      TaggedIn(b.names, b.score, p);
    }
  }

  lemma TaggedIn(names: seq<Member>, s: real, p: Pair)
    ensures p in Tagged(names, s) <==> p.member in names && p.score == s
  {
    if p.member in names && p.score == s {
      var i :| 0 <= i < |names| && names[i] == p.member;
      assert Tagged(names, s)[i] == p;
    }
  }

  lemma InLast(t: seq<Bucket>, b: Bucket, m: Member, s: real)
    ensures In(t + [b], m, s) <==> In(t, m, s) || (b.score == s && m in b.names)
  {
    var all := t + [b];
    if In(t, m, s) {
      var i :| 0 <= i < |t| && t[i].score == s && m in t[i].names;
      assert all[i] == t[i];
    }
    if b.score == s && m in b.names {
      assert all[|t|] == b;
    }
    if In(all, m, s) {
      var i :| 0 <= i < |all| && all[i].score == s && m in all[i].names;
      if i < |t| {
        assert all[i] == t[i];
      }
    }
  }

  /** Iteration goes up by score, then member, past any empty bucket. */
  lemma {:induction false} PairsIncreasing(scores: seq<Bucket>)
    requires BucketsOk(scores)
    ensures Increasing(Pairs(scores))
    ensures forall p | p in Pairs(scores) :: scores != [] && p.score <= scores[|scores| - 1].score
  {
    hide Less, In;
    if scores != [] {
      var t, b := scores[..|scores| - 1], scores[|scores| - 1];
      PairsIncreasing(t);
      var ps, qs := Pairs(t), Tagged(b.names, b.score);
      assert Ordered(b.names);
      assert t != [] ==> t[|t| - 1] == scores[|t| - 1] && t[|t| - 1].score < b.score;
      assert forall i | 0 <= i < |ps| :: ps[i] in ps;
      JoinIncreasing(ps, qs);
    }
  }

  lemma JoinIncreasing(ps: seq<Pair>, qs: seq<Pair>)
    requires Increasing(ps) && Increasing(qs)
    requires forall i, j | 0 <= i < |ps| && 0 <= j < |qs| :: PairLess(ps[i], qs[j])
    ensures Increasing(ps + qs)
  {
  }

  lemma PairLessStrict(p: Pair, q: Pair)
    requires PairLess(p, q)
    ensures p != q && !PairLess(q, p)
  {
    LessTotal(p.member, q.member);
  }

  /** Only one increasing sequence holds a given set of pairs. */
  lemma {:induction false} OneOrder(ps: seq<Pair>, qs: seq<Pair>)
    requires Increasing(ps) && Increasing(qs) && (forall p :: p in ps <==> p in qs)
    ensures ps == qs
  {
    hide PairLess;
    SameEmpty(ps, qs);
    if ps != [] {
      SameFirst(ps, qs);
      var p, q := ps[1..], qs[1..];
      forall x
        ensures x in p <==> x in q
      {
        TailHas(ps, x);
        TailHas(qs, x);
      }
      OneOrder(p, q);
      assert ps == [ps[0]] + p && qs == [qs[0]] + q;
    }
  }

  lemma SameEmpty(ps: seq<Pair>, qs: seq<Pair>)
    requires forall p :: p in ps <==> p in qs
    ensures ps == [] <==> qs == []
  {
    assert qs != [] ==> qs[0] in qs;
    assert ps != [] ==> ps[0] in ps;
  }

  lemma SameFirst(ps: seq<Pair>, qs: seq<Pair>)
    requires Increasing(ps) && Increasing(qs) && (forall p :: p in ps <==> p in qs) && ps != [] && qs != []
    ensures ps[0] == qs[0]
  {
    hide PairLess;
    assert ps[0] in qs;
    var i :| 0 <= i < |qs| && qs[i] == ps[0];
    assert qs[0] in ps;
    var j :| 0 <= j < |ps| && ps[j] == qs[0];
    assert i > 0 ==> PairLess(qs[0], qs[i]);
    if j > 0 {
      PairLessStrict(ps[0], ps[j]);
    }
  }

  lemma TailHas(ps: seq<Pair>, x: Pair)
    requires ps != [] && Increasing(ps)
    ensures x in ps[1..] <==> x in ps && x != ps[0]
  {
    hide PairLess;
    if x in ps[1..] {
      var i :| 0 <= i < |ps[1..]| && ps[1..][i] == x;
      PairLessStrict(ps[0], ps[i + 1]);
    }
  }

  /** An increasing sequence holds as many pairs as it holds different members, if a member
      has only one score. */
  lemma {:induction false} OrderSize(ps: seq<Pair>, members: map<Member, real>)
    requires Increasing(ps)
    requires forall p :: p in ps <==> p.member in members && members[p.member] == p.score
    ensures |ps| == |members|
    decreases |ps|
  {
    hide PairLess;
    if ps == [] {
      NoMembers(ps, members);
    } else {
      var p := ps[0];
      assert p in ps;
      var rest := members - {p.member};
      forall x
        ensures x in ps[1..] <==> x.member in rest && rest[x.member] == x.score
      {
        TailHas(ps, x);
      }
      OrderSize(ps[1..], rest);
      OneFewer(members, p.member);
    }
  }

  lemma NoMembers(ps: seq<Pair>, members: map<Member, real>)
    requires forall p :: p in ps <==> p.member in members && members[p.member] == p.score
    ensures forall m | m in members :: Pair(m, members[m]) in ps
    ensures ps == [] ==> members == map[]
  {
    assert forall m | m in members :: Pair(m, members[m]) in ps;
  }

  /** The pairs with scores from lo to hi. */
  function InRange(ps: seq<Pair>, lo: real, hi: real): (r: seq<Pair>) {
    if ps == [] then []
    else
      var p := ps[|ps| - 1];
      InRange(ps[..|ps| - 1], lo, hi) + if lo <= p.score <= hi then [p] else []
  }

  /** Exactly the pairs with such a score, still in order. */
  lemma {:induction false} RangeExact(ps: seq<Pair>, lo: real, hi: real)
    requires Increasing(ps)
    ensures forall x :: x in InRange(ps, lo, hi) <==> x in ps && lo <= x.score && x.score <= hi
    ensures Increasing(InRange(ps, lo, hi))
  {
    hide PairLess;
    if ps != [] {
      var t, p := ps[..|ps| - 1], ps[|ps| - 1];
      RangeExact(t, lo, hi);
      assert forall x :: x in ps <==> x in t || x == p;
      var r := InRange(t, lo, hi);
      forall i | 0 <= i < |r|
        ensures PairLess(r[i], p)
      {
        assert r[i] in r;
        var j :| 0 <= j < |t| && t[j] == r[i];
        assert ps[j] == t[j];
      }
    }
  }

  lemma {:induction false} RangeAppend(ps: seq<Pair>, qs: seq<Pair>, lo: real, hi: real)
    ensures InRange(ps + qs, lo, hi) == InRange(ps, lo, hi) + InRange(qs, lo, hi)
    decreases |qs|
  {
    if qs == [] {
      assert ps + qs == ps;
    } else {
      var q := qs[..|qs| - 1];
      RangeAppend(ps, q, lo, hi);
      assert (ps + qs)[..|ps + qs| - 1] == ps + q;
    }
  }

  lemma {:induction false} RangeTagged(names: seq<Member>, s: real, lo: real, hi: real)
    ensures InRange(Tagged(names, s), lo, hi) == if lo <= s <= hi then Tagged(names, s) else []
  {
    hide Tagged;
    if names != [] {
      var t := names[..|names| - 1];
      RangeTagged(t, s, lo, hi);
      TaggedLast(names, s);
      RangeAppend(Tagged(t, s), [Pair(names[|names| - 1], s)], lo, hi);
      RangeOne(Pair(names[|names| - 1], s), lo, hi);
    }
  }

  lemma TaggedLast(names: seq<Member>, s: real)
    requires names != []
    ensures Tagged(names, s) == Tagged(names[..|names| - 1], s) + [Pair(names[|names| - 1], s)]
  {
  }

  lemma RangeOne(p: Pair, lo: real, hi: real)
    ensures InRange([p], lo, hi) == if lo <= p.score <= hi then [p] else []
  {
    assert [p][..0] == [];
  }

  /** One more bucket. */
  lemma RangeStep(scores: seq<Bucket>, i: nat, lo: real, hi: real)
    requires i < |scores|
    ensures InRange(Pairs(scores[..i + 1]), lo, hi) == InRange(Pairs(scores[..i]), lo, hi)
              + if lo <= scores[i].score <= hi then Tagged(scores[i].names, scores[i].score) else []
  {
    hide Pairs, InRange, Tagged;
    PairsStep(scores, i);
    RangeAppend(Pairs(scores[..i]), Tagged(scores[i].names, scores[i].score), lo, hi);
    RangeTagged(scores[i].names, scores[i].score, lo, hi);
  }
}
