/** One country's contenders: the inner dict `geo_dominance_accum[country]`, user to count.
    A Python dict iterates in insertion order, and `max(contenders, key=contenders.get)`
    returns the first maximal key in that order, so the dict is kept as an association
    list whose order is the order in which users were first inserted. */
module Tally {
  import opened Seqs

  datatype Entry = Entry(user: string, count: nat)

  type Contenders = seq<Entry>

  /** The keys in iteration (insertion) order. */
  function Users(t: Contenders): (us: seq<string>)
    ensures |us| == |t|
    ensures forall i :: 0 <= i < |t| ==> us[i] == t[i].user
  {
    if t == [] then [] else [t[0].user] + Users(t[1..])
  }

  /** A well-formed tally: each user once, and only users with at least one point. */
  ghost predicate Valid(t: Contenders) {
    && Distinct(Users(t))
    && forall i :: 0 <= i < |t| ==> t[i].count >= 1
  }

  /** `contenders.get(u, 0)`. */
  function Get(t: Contenders, u: string): (n: nat)
    ensures u !in Users(t) ==> n == 0
  {
    if t == [] then 0
    else if t[0].user == u then t[0].count
    else Get(t[1..], u)
  }

  /** In a tally without repeated users, `get` finds each entry's own count. */
  lemma {:induction false} GetAt(t: Contenders, i: nat)
    requires Distinct(Users(t)) && i < |t|
    ensures Get(t, t[i].user) == t[i].count
  {
    if i > 0 {
      assert Users(t[1..]) == Users(t)[1..];
      GetAt(t[1..], i - 1);
    }
  }

  /** `contenders[u] = contenders.get(u, 0) + 1`: a known user's entry is updated where it
      stands, a new user is appended at the end. */
  function Bump(t: Contenders, u: string): (r: Contenders)
    ensures Get(r, u) == Get(t, u) + 1
    ensures forall v :: v != u ==> Get(r, v) == Get(t, v)
    ensures Users(r) == if u in Users(t) then Users(t) else Users(t) + [u]
  {
    if t == [] then [Entry(u, 1)]
    else if t[0].user == u then [Entry(u, t[0].count + 1)] + t[1..]
    else
      var rest := Bump(t[1..], u);
      KeepsOrderCons(t, u, rest);
      [t[0]] + rest
  }

  /** The order part of Bump's contract carries over from the tail to the whole tally
      when the head entry is some other user's. */
  lemma KeepsOrderCons(t: Contenders, u: string, rest: Contenders)
    requires t != [] && t[0].user != u
    requires Users(rest) == if u in Users(t[1..]) then Users(t[1..]) else Users(t[1..]) + [u]
    ensures Users([t[0]] + rest) == if u in Users(t) then Users(t) else Users(t) + [u]
  {
    assert ([t[0]] + rest)[1..] == rest;
    assert Users(t) == [t[0].user] + Users(t[1..]);
    assert u in Users(t) <==> u in Users(t[1..]);
  }

  lemma {:induction false} BumpKeepsUsersDistinct(t: Contenders, u: string)
    requires Distinct(Users(t))
    ensures Distinct(Users(Bump(t, u)))
  {
    if u !in Users(t) {
      var us := Users(t) + [u];
      assert Users(Bump(t, u)) == us;
      forall i, j | 0 <= i < j < |us| ensures us[i] != us[j] {
        if j == |us| - 1 {
          assert us[i] in Users(t);
        }
      }
    }
  }

  lemma {:induction false} BumpKeepsCountsPositive(t: Contenders, u: string)
    requires forall i :: 0 <= i < |t| ==> t[i].count >= 1
    ensures forall i :: 0 <= i < |Bump(t, u)| ==> Bump(t, u)[i].count >= 1
  {
    if t != [] && t[0].user != u {
      BumpKeepsCountsPositive(t[1..], u);
      var r := Bump(t, u);
      assert r == [t[0]] + Bump(t[1..], u);
    }
  }

  lemma BumpValid(t: Contenders, u: string)
    requires Valid(t)
    ensures Valid(Bump(t, u))
  {
    BumpKeepsUsersDistinct(t, u);
    BumpKeepsCountsPositive(t, u);
  }

  /** `max(contenders, key=contenders.get)`, as an index: Python's `max` keeps the first
      maximal element, replacing its candidate only on a strictly greater key. */
  function Winner(t: Contenders): (k: nat)
    requires |t| > 0
    ensures k < |t|
    ensures forall j :: 0 <= j < |t| ==> t[j].count <= t[k].count
    ensures forall j :: 0 <= j < k ==> t[j].count < t[k].count
  {
    if |t| == 1 then 0
    else
      var w := Winner(t[..|t| - 1]);
      if t[|t| - 1].count > t[w].count then |t| - 1 else w
  }

  /** The user `max` returns. */
  function Leader(t: Contenders): string
    requires |t| > 0
  {
    t[Winner(t)].user
  }

  /** The leader has a count no contender exceeds, and every contender that ties with it
      was inserted after it. */
  lemma {:induction false} LeaderIsFirstMaximum(t: Contenders)
    requires Valid(t) && |t| > 0
    ensures Leader(t) in Users(t)
    ensures forall v :: Get(t, v) <= Get(t, Leader(t))
    ensures forall v :: v != Leader(t) && Get(t, v) == Get(t, Leader(t)) ==>
      v in Users(t) && FirstIndex(Users(t), Leader(t)) < FirstIndex(Users(t), v)
  {
    var k := Winner(t);
    var us := Users(t);
    GetAt(t, k);
    FirstIndexOfDistinct(us, k);
    forall v
      ensures Get(t, v) <= Get(t, Leader(t))
      ensures v != Leader(t) && Get(t, v) == Get(t, Leader(t)) ==>
        v in us && FirstIndex(us, Leader(t)) < FirstIndex(us, v)
    {
      if v in us {
        LeaderBeats(t, k, v);
      }
    }
  }

  /** A user other than the winner at index `k` either has a smaller count or was inserted
      after it. */
  lemma LeaderBeats(t: Contenders, k: nat, v: string)
    requires Distinct(Users(t)) && |t| > 0 && k == Winner(t)
    requires v in Users(t)
    ensures Get(t, v) <= t[k].count
    ensures v != t[k].user && Get(t, v) == t[k].count ==> k < FirstIndex(Users(t), v)
  {
    var i := FirstIndex(Users(t), v);
    assert t[i].user == v;
    GetAt(t, i);
    if i < k {
      assert t[i].count < t[k].count;
    }
  }
}
