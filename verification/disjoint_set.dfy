/** DisjointSet of src/utils.cpp: groups of terms with leaders, merged by whole groups. */
module DisjointSets {
  import opened Terms

  type Pairs = set<(Term, Term)>

  /** Each term is added together with the next one. */
  ghost predicate Path(pairs: Pairs, p: seq<Term>) {
    forall i :: 0 <= i < |p| - 1 ==> (p[i], p[i + 1]) in pairs || (p[i + 1], p[i]) in pairs
  }

  ghost predicate PathFrom(pairs: Pairs, p: seq<Term>, x: Term, y: Term) {
    p != [] && p[0] == x && p[|p| - 1] == y && Path(pairs, p)
  }

  /** Connected by added pairs. */
  ghost predicate Connected(pairs: Pairs, x: Term, y: Term) {
    exists p :: PathFrom(pairs, p, x, y)
  }

  lemma ConnectedSelf(pairs: Pairs, x: Term)
    ensures Connected(pairs, x, x)
  {
    assert PathFrom(pairs, [x], x, x);
  }

  lemma ConnectedPair(pairs: Pairs, x: Term, y: Term)
    requires (x, y) in pairs || (y, x) in pairs
    ensures Connected(pairs, x, y)
  {
    assert PathFrom(pairs, [x, y], x, y);
  }

  lemma ConnectedTrans(pairs: Pairs, x: Term, y: Term, z: Term)
    requires Connected(pairs, x, y) && Connected(pairs, y, z)
    ensures Connected(pairs, x, z)
  {
    var p :| PathFrom(pairs, p, x, y);
    var q :| PathFrom(pairs, q, y, z);
    var r := p + q[1..];
    forall i | 0 <= i < |r| - 1
      ensures (r[i], r[i + 1]) in pairs || (r[i + 1], r[i]) in pairs
    {
      if i < |p| - 1 {
        assert r[i] == p[i] && r[i + 1] == p[i + 1];
      } else {
        var k := i - (|p| - 1);
        assert r[i] == q[k] && r[i + 1] == q[k + 1];
      }
    }
    assert PathFrom(pairs, r, x, z);
  }

  lemma ConnectedSym(pairs: Pairs, x: Term, y: Term)
    requires Connected(pairs, x, y)
    ensures Connected(pairs, y, x)
  {
    var p :| PathFrom(pairs, p, x, y);
    var r := seq(|p|, i requires 0 <= i < |p| => p[|p| - 1 - i]);
    forall i | 0 <= i < |r| - 1
      ensures (r[i], r[i + 1]) in pairs || (r[i + 1], r[i]) in pairs
    {
      var k := |p| - 2 - i;
      assert r[i] == p[k + 1] && r[i + 1] == p[k];
    }
    assert PathFrom(pairs, r, y, x);
  }

  lemma ConnectedMore(pairs: Pairs, more: Pairs, x: Term, y: Term)
    requires pairs <= more && Connected(pairs, x, y)
    ensures Connected(more, x, y)
  {
    var p :| PathFrom(pairs, p, x, y);
    assert PathFrom(more, p, x, y);
  }

  type Leaders = map<Term, Term>

  ghost predicate LeadersFixed(leader: Leaders) {
    forall t :: t in leader ==> leader[t] in leader && leader[leader[t]] == leader[t]
  }

  function Members(leader: Leaders, g: Term): set<Term> {
    set t | t in leader && leader[t] == g
  }

  ghost predicate GroupsMatch(leader: Leaders, group: map<Term, set<Term>>) {
    && (forall t :: t in leader ==> leader[t] in group)
    && (forall g :: g in group ==> g in leader && leader[g] == g && group[g] == Members(leader, g))
  }

  /** The leaders keep together what was added together, and nothing else. */
  ghost predicate LeadersRight(leader: Leaders, pairs: Pairs) {
    && (forall a, b :: (a, b) in pairs ==> a in leader && b in leader && leader[a] == leader[b])
    && (forall t :: t in leader ==> Connected(pairs, t, leader[t]))
  }

  lemma {:induction false} PathSameLeader(leader: Leaders, pairs: Pairs, p: seq<Term>)
    requires LeadersRight(leader, pairs) && p != [] && Path(pairs, p) && p[0] in leader
    ensures p[|p| - 1] in leader && leader[p[|p| - 1]] == leader[p[0]]
    decreases |p|
  {
    if |p| > 1 {
      assert (p[0], p[1]) in pairs || (p[1], p[0]) in pairs;
      forall i | 0 <= i < |p[1..]| - 1
        ensures (p[1..][i], p[1..][i + 1]) in pairs || (p[1..][i + 1], p[1..][i]) in pairs
      {
        assert p[1..][i] == p[i + 1] && p[1..][i + 1] == p[i + 2];
      }
      PathSameLeader(leader, pairs, p[1..]);
    }
  }

  /** Two terms have the same leader exactly when they are connected by added pairs. */
  lemma SameLeaderIffConnected(leader: Leaders, pairs: Pairs, x: Term, y: Term)
    requires LeadersRight(leader, pairs) && x in leader && y in leader
    ensures leader[x] == leader[y] <==> Connected(pairs, x, y)
  {
    if leader[x] == leader[y] {
      ConnectedSym(pairs, y, leader[y]);
      ConnectedTrans(pairs, x, leader[x], y);
    }
    if p :| PathFrom(pairs, p, x, y) {
      PathSameLeader(leader, pairs, p);
    }
  }

  /** The leader of a term, or the term itself when it is new. */
  function LeaderOf(leader: Leaders, t: Term): Term {
    if t in leader then leader[t] else t
  }

  /** Who leads after a and b are added: a new term never leads an old group,
      and otherwise the comparison decides. */
  function NewLeader(leader: Leaders, comp: (Term, Term) -> bool, a: Term, b: Term): Term {
    var la, lb := LeaderOf(leader, a), LeaderOf(leader, b);
    if a in leader && (b !in leader || la == lb) then la
    else if a !in leader && b in leader then lb
    else if comp(la, lb) then la else lb
  }

  function Joined(leader: Leaders, comp: (Term, Term) -> bool, a: Term, b: Term): Leaders {
    map t | t in leader.Keys + {a, b} ::
      if LeaderOf(leader, t) in {LeaderOf(leader, a), LeaderOf(leader, b)} then NewLeader(leader, comp, a, b)
      else LeaderOf(leader, t)
  }

  lemma JoinedFixed(leader: Leaders, comp: (Term, Term) -> bool, a: Term, b: Term)
    requires LeadersFixed(leader)
    ensures LeadersFixed(Joined(leader, comp, a, b))
  {
  }

  lemma JoinedTogether(leader: Leaders, pairs: Pairs, comp: (Term, Term) -> bool, a: Term, b: Term, x: Term, y: Term)
    requires LeadersRight(leader, pairs) && (x, y) in pairs + {(a, b)}
    ensures var leader' := Joined(leader, comp, a, b); x in leader' && y in leader' && leader'[x] == leader'[y]
  {
  }

  lemma OldConnected(leader: Leaders, pairs: Pairs, more: Pairs, t: Term)
    requires LeadersRight(leader, pairs) && pairs <= more
    ensures Connected(more, t, LeaderOf(leader, t)) && Connected(more, LeaderOf(leader, t), t)
  {
    if t in leader {
      ConnectedMore(pairs, more, t, leader[t]);
      ConnectedSym(more, t, leader[t]);
    } else {
      ConnectedSelf(more, t);
    }
  }

  lemma JoinedConnected(leader: Leaders, pairs: Pairs, comp: (Term, Term) -> bool, a: Term, b: Term, t: Term)
    requires LeadersRight(leader, pairs) && t in Joined(leader, comp, a, b)
    ensures Connected(pairs + {(a, b)}, t, Joined(leader, comp, a, b)[t])
  {
    var pairs' := pairs + {(a, b)};
    var la, lb, lt := LeaderOf(leader, a), LeaderOf(leader, b), LeaderOf(leader, t);
    var l := NewLeader(leader, comp, a, b);
    OldConnected(leader, pairs, pairs', a);
    OldConnected(leader, pairs, pairs', b);
    OldConnected(leader, pairs, pairs', t);
    ConnectedPair(pairs', a, b);
    ConnectedTrans(pairs', la, a, b);
    ConnectedTrans(pairs', la, b, lb);
    ConnectedSym(pairs', la, lb);
    ConnectedSelf(pairs', l);
    if lt == la || lt == lb {
      ConnectedTrans(pairs', t, lt, l);
    }
  }

  lemma JoinedRight(leader: Leaders, pairs: Pairs, comp: (Term, Term) -> bool, a: Term, b: Term)
    requires LeadersFixed(leader) && LeadersRight(leader, pairs)
    ensures LeadersFixed(Joined(leader, comp, a, b)) && LeadersRight(Joined(leader, comp, a, b), pairs + {(a, b)})
  {
    JoinedFixed(leader, comp, a, b);
    forall x, y | (x, y) in pairs + {(a, b)}
      ensures x in Joined(leader, comp, a, b) && y in Joined(leader, comp, a, b)
      ensures Joined(leader, comp, a, b)[x] == Joined(leader, comp, a, b)[y]
    {
      JoinedTogether(leader, pairs, comp, a, b, x, y);
    }
    forall t | t in Joined(leader, comp, a, b)
      ensures Connected(pairs + {(a, b)}, t, Joined(leader, comp, a, b)[t])
    {
      JoinedConnected(leader, pairs, comp, a, b, t);
    }
  }

  // ----- who leads -----

  /** The comparator ranks terms: which of two comes first does not go in circles. Terms may be of equal rank. */
  ghost predicate Ranking(comp: (Term, Term) -> bool) {
    && (forall a, b :: comp(a, b) ==> !comp(b, a))
    && (forall a, b, c :: comp(a, c) ==> comp(a, b) || comp(b, c))
  }

  /** Of those that have ever been compared, all leaders among them, none comes before its leader. */
  ghost predicate BestLeads(leader: Leaders, comp: (Term, Term) -> bool, compared: set<Term>) {
    && (forall t :: t in leader ==> leader[t] in compared)
    && (forall t :: t in compared ==> t in leader && !comp(t, leader[t]))
  }

  ghost predicate Ranked(leader: Leaders, comp: (Term, Term) -> bool, compared: set<Term>) {
    Ranking(comp) ==> BestLeads(leader, comp, compared)
  }

  /** A pair of new terms is compared; a new term that joins a group never is. */
  function Compared(leader: Leaders, a: Term, b: Term): set<Term> {
    if a in leader || b in leader then {} else {a, b}
  }

  lemma JoinedBest(leader: Leaders, comp: (Term, Term) -> bool, compared: set<Term>, a: Term, b: Term)
    requires LeadersFixed(leader) && Ranked(leader, comp, compared)
    ensures Ranked(Joined(leader, comp, a, b), comp, compared + Compared(leader, a, b))
  {
    if !Ranking(comp) {
      return;
    }
    var leader', la, lb := Joined(leader, comp, a, b), LeaderOf(leader, a), LeaderOf(leader, b);
    var l := NewLeader(leader, comp, a, b);
    assert l == la || l == lb;
    forall t | t in compared + Compared(leader, a, b)
      ensures t in leader' && !comp(t, leader'[t])
    {
      if t in leader && leader[t] in {la, lb} {
        assert leader'[t] == l && !comp(t, leader[t]);
        assert leader[t] == l || !comp(leader[t], l);
      }
    }
  }

  /** A term that joins a group later does not lead it, whatever its rank. */
  lemma LateNeverLeads(leader: Leaders, comp: (Term, Term) -> bool, a: Term, b: Term)
    requires LeadersFixed(leader) && a in leader && b !in leader
    ensures Joined(leader, comp, a, b)[b] == leader[a] == Joined(leader, comp, b, a)[b] && leader[a] != b
  {
  }

  // ----- one group moved into another, one term put into a group, a new group -----

  function Redirected(leader: Leaders, members: set<Term>, to: Term): Leaders {
    map t | t in leader.Keys + members :: if t in members then to else leader[t]
  }

  lemma GroupsMerge(leader: Leaders, group: map<Term, set<Term>>, keep: Term, drop: Term)
    requires LeadersFixed(leader) && GroupsMatch(leader, group) && keep in group && drop in group && keep != drop
    ensures GroupsMatch(Redirected(leader, group[drop], keep), group[keep := group[keep] + group[drop]] - {drop})
  {
    var leader', group' := Redirected(leader, group[drop], keep), group[keep := group[keep] + group[drop]] - {drop};
    assert leader'.Keys == leader.Keys;
    forall g | g in group'
      ensures g in leader' && leader'[g] == g && group'[g] == Members(leader', g)
    {
      assert g in group;
    }
  }

  lemma GroupsPut(leader: Leaders, group: map<Term, set<Term>>, l: Term, t: Term)
    requires LeadersFixed(leader) && GroupsMatch(leader, group) && l in group && t !in leader
    ensures GroupsMatch(leader[t := l], group[l := group[l] + {t}])
  {
    forall g | g in group
      ensures Members(leader[t := l], g) == if g == l then group[g] + {t} else group[g]
    {
    }
  }

  lemma GroupsNew(leader: Leaders, group: map<Term, set<Term>>, a: Term, b: Term, l: Term)
    requires LeadersFixed(leader) && GroupsMatch(leader, group) && a !in leader && b !in leader && (l == a || l == b)
    ensures GroupsMatch(leader[a := l][b := l], group[l := {a, b}])
  {
    var leader' := leader[a := l][b := l];
    assert Members(leader', l) == {a, b};
    forall g | g in group
      ensures Members(leader', g) == group[g]
    {
    }
  }

  lemma JoinedByMerge(leader: Leaders, group: map<Term, set<Term>>, comp: (Term, Term) -> bool, a: Term, b: Term)
    requires LeadersFixed(leader) && GroupsMatch(leader, group) && a in leader && b in leader && leader[a] != leader[b]
    ensures Joined(leader, comp, a, b) ==
      if comp(leader[a], leader[b]) then Redirected(leader, group[leader[b]], leader[a])
      else Redirected(leader, group[leader[a]], leader[b])
  {
  }

  lemma JoinedOtherwise(leader: Leaders, comp: (Term, Term) -> bool, a: Term, b: Term)
    requires LeadersFixed(leader)
    ensures a in leader && b in leader && leader[a] == leader[b] ==> Joined(leader, comp, a, b) == leader
    ensures a in leader && b !in leader ==> Joined(leader, comp, a, b) == leader[b := leader[a]]
    ensures a !in leader && b in leader ==> Joined(leader, comp, a, b) == leader[a := leader[b]]
    ensures a !in leader && b !in leader ==>
      Joined(leader, comp, a, b) == leader[a := if comp(a, b) then a else b][b := if comp(a, b) then a else b]
  {
  }

  class DisjointSet {
    const comp: (Term, Term) -> bool
    var leader: Leaders
    var group: map<Term, set<Term>>
    ghost var pairs: Pairs
    ghost var compared: set<Term>

    ghost predicate Valid()
      reads this
    {
      && LeadersFixed(leader) && GroupsMatch(leader, group) && LeadersRight(leader, pairs)
      && Ranked(leader, comp, compared)
    }

    constructor (comp: (Term, Term) -> bool)
      ensures Valid() && leader == map[] && pairs == {} && this.comp == comp
    {
      this.comp, leader, group, pairs, compared := comp, map[], map[], {}, {};
    }

    /** Moves every member of one group to another leader. */
    method Redirect(members: set<Term>, to: Term)
      modifies this`leader
      ensures leader == Redirected(old(leader), members, to)
    {
      var todo := members;
      while todo != {}
        invariant todo <= members
        invariant leader == Redirected(old(leader), members - todo, to)
        decreases todo
      {
        var t :| t in todo;
        leader := leader[t := to];
        todo := todo - {t};
      }
      assert members - {} == members;
    }

    /** Merges the group of drop into that of keep. */
    method Merge(keep: Term, drop: Term)
      requires LeadersFixed(leader) && GroupsMatch(leader, group) && keep in group && drop in group && keep != drop
      modifies this`leader, this`group
      ensures leader == Redirected(old(leader), old(group)[drop], keep) && GroupsMatch(leader, group)
    {
      GroupsMerge(leader, group, keep, drop);
      group := group[keep := group[keep] + group[drop]];
      Redirect(group[drop], keep);
      group := group - {drop};
    }

    method Add(a: Term, b: Term)
      requires Valid()
      modifies this`leader, this`group, this`pairs, this`compared
      ensures Valid() && pairs == old(pairs) + {(a, b)}
      ensures leader == Joined(old(leader), comp, a, b)
      ensures compared == old(compared) + Compared(old(leader), a, b)
    {
      JoinedRight(leader, pairs, comp, a, b);
      JoinedOtherwise(leader, comp, a, b);
      JoinedBest(leader, comp, compared, a, b);
      pairs, compared := pairs + {(a, b)}, compared + Compared(leader, a, b);
      if a in leader && b in leader {
        var leaderA, leaderB := leader[a], leader[b];
        if leaderA != leaderB {
          JoinedByMerge(leader, group, comp, a, b);
          if comp(leaderA, leaderB) {
            Merge(leaderA, leaderB);
          } else {
            Merge(leaderB, leaderA);
          }
        }
      } else if a in leader {
        Put(leader[a], b);
      } else if b in leader {
        Put(leader[b], a);
      } else {
        var l := if comp(a, b) then a else b;
        GroupsNew(leader, group, a, b, l);
        leader := leader[a := l][b := l];
        group := group[l := {a, b}];
      }
    }

    /** A new term joins the group of l. */
    method Put(l: Term, t: Term)
      requires LeadersFixed(leader) && GroupsMatch(leader, group) && l in group && t !in leader
      modifies this`leader, this`group
      ensures leader == old(leader)[t := l] && GroupsMatch(leader, group)
    {
      GroupsPut(leader, group, l, t);
      group := group[l := group[l] + {t}];
      leader := leader[t := l];
    }

    method Find(t: Term) returns (r: Term)
      requires Valid() && t in leader
      ensures r == leader[t] && Connected(pairs, t, r)
      ensures r in leader && leader[r] == r
      ensures Ranking(comp) ==> r in compared && forall u :: u in compared && leader[u] == r ==> !comp(u, r)
      ensures forall u :: u in leader ==> (leader[u] == r <==> Connected(pairs, t, u))
    {
      r := leader[t];
      forall u | u in leader
        ensures leader[u] == r <==> Connected(pairs, t, u)
      {
        SameLeaderIffConnected(leader, pairs, t, u);
      }
    }

    method Clear()
      modifies this`leader, this`group, this`pairs, this`compared
      ensures Valid() && leader == map[] && pairs == {} && compared == {}
    {
      leader, group, pairs, compared := map[], map[], {}, {};
    }
  }
}
