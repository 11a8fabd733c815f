/** PSortedSet of src/sorted_set.cc: members by name and by score. */
module SortedSet {
  import opened Bytes
  import opened SortedOrder

  class SortedSet {
    var members: map<Member, real>
    var scores: seq<Bucket>

    constructor ()
      ensures Valid() && members == map[]
    {
      members, scores := map[], [];
    }

    /** The two indexes are each other's inverse. */
    ghost predicate Valid()
      reads this
    {
      BucketsOk(scores) && forall m, s :: In(scores, m, s) <==> m in members && members[m] == s
    }

    /** The pairs by score, then member. */
    ghost function Order(): (ps: seq<Pair>)
      reads this
    {
      Pairs(scores)
    }

    /** Order lists exactly the members with their scores, each once, and increasing. */
    lemma Listed()
      requires Valid()
      ensures Increasing(Order()) && |Order()| == |members|
      ensures forall p :: p in Order() <==> p.member in members && members[p.member] == p.score
    {
      hide In, Pairs, Increasing;
      PairsIncreasing(scores);
      forall p
        ensures p in Order() <==> p.member in members && members[p.member] == p.score
      {
        PairsIn(scores, p);
      }
      OrderSize(Order(), members);
    }

    /** AddMember, of a member that is not there. */
    method AddMember(member: Member, score: real)
      requires Valid() && member !in members
      modifies this
      ensures Valid() && members == old(members)[member := score]
    {
      hide In, InsertScore, BucketsOk;
      InsertedScore(scores, score, member);
      forall m, s
        ensures In(InsertScore(scores, score, member), m, s) <==> In(scores, m, s) || (m == member && s == score)
      {
        InsertedPair(scores, score, member, m, s);
      }
      members := members[member := score];
      scores := InsertScore(scores, score, member);
    }

    /** DelMember: the bucket stays, even if it is now empty. */
    method DelMember(member: Member) returns (deleted: bool)
      requires Valid()
      modifies this
      ensures Valid() && members == old(members) - {member} && (deleted <==> member in old(members))
    {
      hide In, EraseScore, BucketsOk;
      if member !in members {
        return false;
      }
      var score := members[member];
      ErasedScore(scores, score, member);
      forall m, s
        ensures In(EraseScore(scores, score, member), m, s) <==> In(scores, m, s) && !(m == member && s == score)
      {
        ErasedPair(scores, score, member, m, s);
      }
      members := members - {member};
      scores := EraseScore(scores, score, member);
      return true;
    }

    /** UpdateMember, of a member that is there. */
    method UpdateMember(member: Member, delta: real) returns (newScore: real)
      requires Valid() && member in members
      modifies this
      ensures Valid() && newScore == old(members)[member] + delta && members == old(members)[member := newScore]
    {
      var oldScore := members[member];
      newScore := oldScore + delta;
      Move(member, oldScore, newScore);
      members := members[member := newScore];
    }

    /** Lines 29-36: from the bucket of one score to that of another. */
    method Move(member: Member, from: real, to: real)
      requires Valid() && member in members && members[member] == from
      modifies this`scores
      ensures BucketsOk(scores)
      ensures forall m, s :: In(scores, m, s) <==>
                             (m in members && m != member && members[m] == s) || (m == member && s == to)
    {
      hide In, EraseScore, InsertScore, BucketsOk;
      var less := EraseScore(scores, from, member);
      ErasedScore(scores, from, member);
      InsertedScore(less, to, member);
      forall m, s
        ensures In(InsertScore(less, to, member), m, s)
                <==> (In(scores, m, s) && !(m == member && s == from)) || (m == member && s == to)
      {
        ErasedPair(scores, from, member, m, s);
        InsertedPair(less, to, member, m, s);
      }
      scores := InsertScore(less, to, member);
    }

    /** Rank: the position of the member in the order, or -1. */
    method Rank(member: Member) returns (rank: int)
      requires Valid()
      ensures |Order()| == |members| && (member !in members ==> rank == -1)
      ensures member in members ==> 0 <= rank < |members| && Order()[rank] == Pair(member, members[member])
    {
      hide BucketsOk, Pairs, Increasing;
      Listed();
      if member !in members {
        return -1;
      }
      var score := members[member];
      assert In(scores, member, score);
      ghost var home :| 0 <= home < |scores| && scores[home].score == score && member in scores[home].names;
      rank := 0;
      NoPairs(scores);
      for i := 0 to |scores|
        invariant rank == |Pairs(scores[..i])| && i <= home
      {
        if scores[i].score == score {
          SameScore(scores, i, home);
          ghost var at :| 0 <= at < |scores[i].names| && scores[i].names[at] == member;
          for k := 0 to |scores[i].names|
            invariant rank == |Pairs(scores[..i])| + k && k <= at
          {
            if scores[i].names[k] == member {
              PairsAt(scores, i, k);
              return;
            }
            rank := rank + 1;
          }
          assert false;
        }
        PairsStep(scores, i);
        rank := rank + |scores[i].names|;
      }
      assert false;
    }

    /** RevRank: the same from the other end. */
    method RevRank(member: Member) returns (rank: int)
      requires Valid()
      ensures |Order()| == |members| && (member !in members ==> rank == -1)
      ensures member in members ==>
                0 <= rank < |members| && Order()[|members| - 1 - rank] == Pair(member, members[member])
    {
      rank := Rank(member);
      Listed();
      if rank != -1 {
        rank := |members| - (rank + 1);
      }
    }

    /** GetMemberByRank: the pair at the rank, which is cut to the last one. */
    method GetMemberByRank(rank: nat) returns (p: Pair)
      requires Valid()
      ensures |Order()| == |members|
      ensures p == if |members| == 0 then Pair([], 0.0) else Order()[if rank < |members| then rank else |members| - 1]
    {
      hide BucketsOk, Pairs, Increasing;
      Listed();
      var r: int := if rank >= |members| then |members| - 1 else rank;
      var iterRank: nat := 0;
      NoPairs(scores);
      for i := 0 to |scores|
        invariant iterRank == |Pairs(scores[..i])| && (|members| > 0 ==> iterRank <= r)
      {
        if |members| > 0 && iterRank + |scores[i].names| > r {
          PairsAt(scores, i, r - iterRank);
          return Pair(scores[i].names[r - iterRank], scores[i].score);
        }
        PairsStep(scores, i);
        iterRank := iterRank + |scores[i].names|;
      }
      WholeSlice(scores);
      return Pair([], 0.0);
    }

    /** RangeByRank: the slice of the order between the two positions, both included. */
    method RangeByRank(start: int, end: int) returns (res: seq<Pair>)
      requires Valid()
      ensures |Order()| == |members|
      ensures var (lo, hi) := AdjustIndex(start, end, |members|);
              res == if lo > hi then [] else Order()[lo..hi + 1]
    {
      hide Pairs, Increasing, BucketsOk;
      Listed();
      var (lo, hi) := AdjustIndex(start, end, |members|);
      res := [];
      if lo > hi {
        return;
      }
      for rank := lo to hi + 1
        invariant res == Order()[lo..rank]
      {
        var p := GetMemberByRank(rank);
        res := res + [p];
      }
    }

    /** RangeByScore: the part of the order with scores from minScore to maxScore. */
    method RangeByScore(minScore: real, maxScore: real) returns (res: seq<Pair>)
      requires Valid()
      ensures res == InRange(Order(), minScore, maxScore)
    {
      hide Pairs, InRange, Tagged, Ordered;
      res := [];
      NoPairs(scores);
      NoRange(minScore, maxScore);
      if minScore > maxScore {
        EmptyRange(Order(), minScore, maxScore);
        return;
      }
      var itMin: nat := 0;
      while itMin < |scores| && scores[itMin].score < minScore
        invariant itMin <= |scores| && InRange(Pairs(scores[..itMin]), minScore, maxScore) == []
      {
        RangeStep(scores, itMin, minScore, maxScore);
        itMin := itMin + 1;
      }
      while itMin < |scores| && scores[itMin].score <= maxScore
        invariant itMin <= |scores| && res == InRange(Pairs(scores[..itMin]), minScore, maxScore)
        invariant itMin < |scores| ==> scores[itMin].score >= minScore
      {
        RangeStep(scores, itMin, minScore, maxScore);
        res := res + Tagged(scores[itMin].names, scores[itMin].score);
        itMin := itMin + 1;
      }
      NothingAbove(scores, itMin, minScore, maxScore);
    }
  }

  lemma NoRange(lo: real, hi: real)
    ensures InRange([], lo, hi) == []
  {
  }

  lemma {:induction false} EmptyRange(ps: seq<Pair>, lo: real, hi: real)
    requires lo > hi
    ensures InRange(ps, lo, hi) == []
  {
    if ps != [] {
      EmptyRange(ps[..|ps| - 1], lo, hi);
    }
  }

  lemma {:induction false} NothingAbove(scores: seq<Bucket>, i: nat, lo: real, hi: real)
    requires BucketsOk(scores) && i <= |scores| && (i < |scores| ==> scores[i].score > hi)
    ensures InRange(Pairs(scores), lo, hi) == InRange(Pairs(scores[..i]), lo, hi)
    decreases |scores| - i
  {
    hide Pairs, InRange, Tagged, Ordered;
    if i < |scores| {
      RangeStep(scores, i, lo, hi);
      NothingAbove(scores, i + 1, lo, hi);
    } else {
      WholeSlice(scores);
    }
  }

  /** A position, where negative ones count from the end. */
  function Position(i: int, size: nat): (p: int) { if i < 0 then i + size else i }

  predicate Within(i: int, lo: int, hi: int) { lo <= i <= hi }

  /** AdjustIndex of src/common.h: the part of the range between two positions that exists. */
  function AdjustIndex(start: int, end: int, size: nat): (r: (int, int))
    ensures size == 0 ==> r.0 > r.1
    ensures size > 0 ==> 0 <= r.0 && r.1 < size
    ensures forall i | 0 <= i < size :: Within(i, r.0, r.1) <==> Within(i, Position(start, size), Position(end, size))
  {
    if size == 0 then (1, 0)
    else
      var s := if start < 0 then start + size else start;
      var e := if end < 0 then end + size else end;
      (if s < 0 then 0 else s, if e >= size then size - 1 else e)
  }

  lemma NoPairs(scores: seq<Bucket>)
    ensures Pairs(scores[..0]) == []
  {
  }

  lemma SameScore(scores: seq<Bucket>, i: nat, j: nat)
    requires BucketsOk(scores) && i < |scores| && j < |scores| && scores[i].score == scores[j].score
    ensures i == j
  {
  }

  /** Rank and GetMemberByRank are inverse: each position is the rank of the member there,
      and no other position is. */
  lemma RankInverse(z: SortedSet, i: nat, r: nat)
    requires z.Valid() && i < |z.Order()| && r < |z.Order()|
    requires z.Order()[r].member == z.Order()[i].member
    ensures r == i
  {
    hide Pairs, PairLess, In;
    z.Listed();
    var ps := z.Order();
    assert ps[i] in ps && ps[r] in ps;
    if i < r {
      PairLessStrict(ps[i], ps[r]);
    } else if r < i {
      PairLessStrict(ps[r], ps[i]);
    }
  }

  /** The order is determined by the members alone, whatever buckets were left behind. */
  lemma OrderDetermined(z: SortedSet, ps: seq<Pair>)
    requires z.Valid() && Increasing(ps)
    requires forall p :: p in ps <==> p.member in z.members && z.members[p.member] == p.score
    ensures z.Order() == ps
  {
    hide Pairs, PairLess, In;
    z.Listed();
    OneOrder(z.Order(), ps);
  }
}
