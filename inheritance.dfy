/**
 * Group inheritance as a graph (the recursion of `inherits` in
 * dash_access/access/group.py and the breadth-first walk of `permissions` in
 * dash_access/access/user.py): `kids(x)` lists the groups `x` inherits
 * directly, `recorded(x)` says whether `x` has a record, and every group
 * ever listed belongs to the finite set `names`.
 */
module Inheritance {
  import opened Base

  /** Every listed child belongs to `names`. */
  ghost predicate Closed(kids: string -> seq<string>, names: set<string>)
  {
    forall x, g | g in kids(x) :: g in names
  }

  lemma LessUnseen(names: set<string>, seen: set<string>, g: string)
    requires g in names && g !in seen
    ensures |names - (seen + {g})| < |names - seen|
  {
    assert names - seen == (names - (seen + {g})) + {g};
  }

  /**
   * The value of `inherits(x, already)`: `already`, plus, when `x` has a
   * record, what its direct groups not yet seen contribute.
   */
  ghost function InheritsFrom(kids: string -> seq<string>, recorded: string -> bool, names: set<string>,
                              x: string, already: set<string>): set<string>
    requires Closed(kids, names)
    decreases |names - already|, |kids(x)| + 1
  {
    if !recorded(x) then already
    else already + Expand(kids, recorded, names, already, kids(x))
  }

  /**
   * What the loop of `inherits` collects over `children`: each child not in
   * `already`, with everything it inherits once it is added to `already`.
   */
  ghost function Expand(kids: string -> seq<string>, recorded: string -> bool, names: set<string>,
                        already: set<string>, children: seq<string>): set<string>
    requires Closed(kids, names)
    requires forall g | g in children :: g in names
    decreases |names - already|, |children|
  {
    if children == [] then {}
    else
      var g := children[|children| - 1];
      var rest := Expand(kids, recorded, names, already, children[..|children| - 1]);
      if g in already then rest
      else
        LessUnseen(names, already, g);
        rest + {g} + InheritsFrom(kids, recorded, names, g, already + {g})
  }

  /** One more child processed by the loop of `inherits`. */
  lemma ExpandStep(kids: string -> seq<string>, recorded: string -> bool, names: set<string>,
                   already: set<string>, children: seq<string>, i: nat)
    requires Closed(kids, names)
    requires forall g | g in children :: g in names
    requires i < |children|
    ensures Expand(kids, recorded, names, already, children[..i + 1]) ==
      Expand(kids, recorded, names, already, children[..i]) +
      (if children[i] in already then {}
       else {children[i]} + InheritsFrom(kids, recorded, names, children[i], already + {children[i]}))
  {
    assert children[..i + 1][..i] == children[..i];
    assert children[..i + 1][i] == children[i];
  }

  /** A chain of inheritance edges p[0] -> p[1] -> ... leaving only recorded groups. */
  predicate Chain(kids: string -> seq<string>, recorded: string -> bool, p: seq<string>)
  {
    && |p| >= 2
    && forall i | 0 <= i < |p| - 1 :: p[i + 1] in kids(p[i]) && recorded(p[i])
  }

  predicate ChainFromTo(kids: string -> seq<string>, recorded: string -> bool, p: seq<string>, x: string, y: string)
  {
    Chain(kids, recorded, p) && p[0] == x && p[|p| - 1] == y
  }

  /** After the start, a chain's groups are pairwise distinct and none is in `avoid`. */
  predicate Fresh(p: seq<string>, avoid: set<string>)
  {
    |p| >= 1 && Distinct(p[1..]) && forall j | 1 <= j < |p| :: p[j] !in avoid
  }

  /** The groups reachable from `x` along at least one edge. */
  ghost function Reach(kids: string -> seq<string>, recorded: string -> bool, names: set<string>, x: string): set<string>
  {
    set y | y in names && exists p :: ChainFromTo(kids, recorded, p, x, y)
  }

  /** The groups reachable from `x` along chains that never revisit a group and never enter `avoid`. */
  ghost function Avoiding(kids: string -> seq<string>, recorded: string -> bool, names: set<string>,
                          x: string, avoid: set<string>): set<string>
  {
    set y | y in names && exists p :: ChainFromTo(kids, recorded, p, x, y) && Fresh(p, avoid)
  }

  lemma ChainEnd(kids: string -> seq<string>, recorded: string -> bool, names: set<string>, p: seq<string>)
    requires Closed(kids, names) && Chain(kids, recorded, p)
    ensures p[|p| - 1] in names
  {
    assert p[|p| - 1] in kids(p[|p| - 2]);
  }

  lemma {:induction false} ExpandMembers(kids: string -> seq<string>, recorded: string -> bool, names: set<string>,
                                         already: set<string>, children: seq<string>, y: string)
    requires Closed(kids, names)
    requires forall g | g in children :: g in names
    ensures y in Expand(kids, recorded, names, already, children) <==>
      exists g | g in children :: g !in already && (y == g || y in InheritsFrom(kids, recorded, names, g, already + {g}))
    decreases |children|
  {
    if children != [] {
      var init := children[..|children| - 1];
      var g := children[|children| - 1];
      ExpandMembers(kids, recorded, names, already, init, y);
      assert forall c :: c in children <==> c in init || c == g;
    }
  }

  /** One step in: an edge from `x` to `g`, then a fresh chain from `g`, is a fresh chain from `x`. */
  lemma StepIn(kids: string -> seq<string>, recorded: string -> bool, names: set<string>,
               x: string, avoid: set<string>, g: string, y: string)
    requires Closed(kids, names)
    requires recorded(x) && g in kids(x) && g !in avoid
    requires y == g || y in Avoiding(kids, recorded, names, g, avoid + {g})
    ensures y in Avoiding(kids, recorded, names, x, avoid)
  {
    if y == g {
      var p := [x, g];
      assert ChainFromTo(kids, recorded, p, x, y) && Fresh(p, avoid);
    } else {
      var q :| ChainFromTo(kids, recorded, q, g, y) && Fresh(q, avoid + {g});
      var p := [x] + q;
      assert p[1..] == q;
      forall i | 0 <= i < |p| - 1
        ensures p[i + 1] in kids(p[i]) && recorded(p[i])
      {
        if i > 0 {
          assert p[i] == q[i - 1] && p[i + 1] == q[i];
        }
      }
      forall a, b | 0 <= a < b < |q|
        ensures q[a] != q[b]
      {
        if a > 0 {
          assert q[1..][a - 1] == q[a] && q[1..][b - 1] == q[b];
        } else {
          assert q[b] !in avoid + {g};
        }
      }
      forall j | 1 <= j < |p|
        ensures p[j] !in avoid
      {
        assert p[j] == q[j - 1];
      }
      assert ChainFromTo(kids, recorded, p, x, y) && Fresh(p, avoid);
    }
  }

  /** One step out: a fresh chain from `x` is an edge to some `g`, then nothing or a fresh chain from `g`. */
  lemma StepOut(kids: string -> seq<string>, recorded: string -> bool, names: set<string>,
                x: string, avoid: set<string>, y: string)
    requires y in Avoiding(kids, recorded, names, x, avoid)
    ensures recorded(x)
    ensures exists g | g in kids(x) ::
      g !in avoid && (y == g || y in Avoiding(kids, recorded, names, g, avoid + {g}))
  {
    var p :| ChainFromTo(kids, recorded, p, x, y) && Fresh(p, avoid);
    var g := p[1];
    assert g in kids(x) && g !in avoid;
    if |p| > 2 {
      var q := p[1..];
      forall i | 0 <= i < |q| - 1
        ensures q[i + 1] in kids(q[i]) && recorded(q[i])
      {
        assert q[i] == p[i + 1] && q[i + 1] == p[i + 2];
      }
      forall a, b | 0 <= a < b < |q[1..]|
        ensures q[1..][a] != q[1..][b]
      {
        assert q[1..][a] == q[a + 1] && q[1..][b] == q[b + 1];
      }
      forall j | 1 <= j < |q|
        ensures q[j] !in avoid + {g}
      {
        assert q[j] == p[j + 1] && q[0] == p[1];
        assert p[1..][0] == p[1] && p[1..][j] == p[j + 1];
      }
      assert ChainFromTo(kids, recorded, q, g, y) && Fresh(q, avoid + {g});
    }
  }

  lemma NotRecordedNothingReached(kids: string -> seq<string>, recorded: string -> bool, names: set<string>,
                                  x: string, avoid: set<string>)
    requires !recorded(x)
    ensures Avoiding(kids, recorded, names, x, avoid) == {}
  {
    forall y
      ensures y !in Avoiding(kids, recorded, names, x, avoid)
    {
      assert forall p | Chain(kids, recorded, p) :: recorded(p[0]);
    }
  }

  /** `inherits(x, already)` is `already` plus every group a fresh chain from `x` reaches. */
  lemma InheritsFromChains(kids: string -> seq<string>, recorded: string -> bool, names: set<string>,
                           x: string, avoid: set<string>)
    requires Closed(kids, names)
    ensures InheritsFrom(kids, recorded, names, x, avoid) == avoid + Avoiding(kids, recorded, names, x, avoid)
    decreases |names - avoid|
  {
    if !recorded(x) {
      NotRecordedNothingReached(kids, recorded, names, x, avoid);
    } else {
      var cs := kids(x);
      forall g | g in cs && g !in avoid
        ensures InheritsFrom(kids, recorded, names, g, avoid + {g}) ==
          avoid + {g} + Avoiding(kids, recorded, names, g, avoid + {g})
      {
        LessUnseen(names, avoid, g);
        InheritsFromChains(kids, recorded, names, g, avoid + {g});
      }
      forall y
        ensures y in InheritsFrom(kids, recorded, names, x, avoid) <==>
          y in avoid + Avoiding(kids, recorded, names, x, avoid)
      {
        ExpandMembers(kids, recorded, names, avoid, cs, y);
        if y !in avoid && y in Expand(kids, recorded, names, avoid, cs) {
          var g :| g in cs && g !in avoid && (y == g || y in InheritsFrom(kids, recorded, names, g, avoid + {g}));
          StepIn(kids, recorded, names, x, avoid, g, y);
        }
        if y !in avoid && y in Avoiding(kids, recorded, names, x, avoid) {
          StepOut(kids, recorded, names, x, avoid, y);
        }
      }
    }
  }

  /** A chain that revisits a group can be cut short to one that does not, with the same ends. */
  lemma {:induction false} Shorten(kids: string -> seq<string>, recorded: string -> bool, p: seq<string>)
    returns (q: seq<string>)
    requires Chain(kids, recorded, p)
    ensures ChainFromTo(kids, recorded, q, p[0], p[|p| - 1]) && Distinct(q[1..])
    decreases |p|
  {
    if Distinct(p[1..]) {
      return p;
    }
    var a, b :| 0 <= a < b < |p[1..]| && p[1..][a] == p[1..][b];
    var i, j := a + 1, b + 1;
    assert p[i] == p[j];
    var r := p[..i] + p[j..];
    assert |r| == i + |p| - j;
    forall k | 0 <= k < |r| - 1
      ensures r[k + 1] in kids(r[k]) && recorded(r[k])
    {
      if k + 1 < i {
        assert r[k] == p[k] && r[k + 1] == p[k + 1];
      } else if k + 1 == i {
        assert r[k] == p[k] && r[k + 1] == p[j] == p[k + 1];
      } else {
        assert r[k] == p[k + j - i] && r[k + 1] == p[k + 1 + j - i];
      }
    }
    assert r[0] == p[0] && r[|r| - 1] == p[|p| - 1];
    q := Shorten(kids, recorded, r);
  }

  /**
   * `inherits(x)` with nothing seen yet is exactly the set of groups
   * reachable from `x`; in particular `x` is in it only when a chain leads
   * back to `x`.
   */
  lemma InheritsReach(kids: string -> seq<string>, recorded: string -> bool, names: set<string>, x: string)
    requires Closed(kids, names)
    ensures InheritsFrom(kids, recorded, names, x, {}) == Reach(kids, recorded, names, x)
    ensures x in InheritsFrom(kids, recorded, names, x, {}) <==> exists p :: ChainFromTo(kids, recorded, p, x, x)
  {
    InheritsFromChains(kids, recorded, names, x, {});
    forall y | y in Reach(kids, recorded, names, x)
      ensures y in Avoiding(kids, recorded, names, x, {})
    {
      var p :| ChainFromTo(kids, recorded, p, x, y);
      var q := Shorten(kids, recorded, p);
      assert Fresh(q, {});
    }
    if exists p :: ChainFromTo(kids, recorded, p, x, x) {
      var p :| ChainFromTo(kids, recorded, p, x, x);
      ChainEnd(kids, recorded, names, p);
    }
  }

  /** A set that holds every child of each of its recorded members. */
  ghost predicate ClosedUnder(kids: string -> seq<string>, recorded: string -> bool, s: set<string>)
  {
    forall x, g | x in s && recorded(x) && g in kids(x) :: g in s
  }

  lemma {:induction false} ChainWithin(kids: string -> seq<string>, recorded: string -> bool, s: set<string>,
                                       p: seq<string>, n: nat)
    requires Chain(kids, recorded, p) && p[0] in s && ClosedUnder(kids, recorded, s)
    requires n < |p|
    ensures p[n] in s
  {
    if n > 0 {
      ChainWithin(kids, recorded, s, p, n - 1);
      assert p[n] in kids(p[n - 1]) && recorded(p[n - 1]);
    }
  }

  /** A set closed under the edges holds everything reachable from its members. */
  lemma ReachWithin(kids: string -> seq<string>, recorded: string -> bool, names: set<string>, s: set<string>, x: string)
    requires x in s && ClosedUnder(kids, recorded, s)
    ensures Reach(kids, recorded, names, x) <= s
  {
    forall y | y in Reach(kids, recorded, names, x)
      ensures y in s
    {
      var p :| ChainFromTo(kids, recorded, p, x, y);
      ChainWithin(kids, recorded, s, p, |p| - 1);
    }
  }

  /** Reachability composes: what a reachable group reaches is reachable. */
  lemma ReachTransitive(kids: string -> seq<string>, recorded: string -> bool, names: set<string>,
                        x: string, g: string, y: string)
    requires g in Reach(kids, recorded, names, x) && y in Reach(kids, recorded, names, g)
    ensures y in Reach(kids, recorded, names, x)
  {
    var p :| ChainFromTo(kids, recorded, p, x, g);
    var q :| ChainFromTo(kids, recorded, q, g, y);
    var r := p + q[1..];
    forall i | 0 <= i < |r| - 1
      ensures r[i + 1] in kids(r[i]) && recorded(r[i])
    {
      if i + 1 < |p| {
        assert r[i] == p[i] && r[i + 1] == p[i + 1];
      } else {
        assert r[i] == q[i + 1 - |p|] && r[i + 1] == q[i + 2 - |p|];
      }
    }
    assert ChainFromTo(kids, recorded, r, x, y);
  }

  /** One edge out of a recorded group is a chain of its own. */
  lemma ReachEdge(kids: string -> seq<string>, recorded: string -> bool, names: set<string>, x: string, g: string)
    requires Closed(kids, names) && recorded(x) && g in kids(x)
    ensures g in Reach(kids, recorded, names, x)
  {
    assert ChainFromTo(kids, recorded, [x, g], x, g);
  }

  /** Requiring fewer groups to be recorded can only reach more. */
  lemma ReachMonotone(kids: string -> seq<string>, recorded: string -> bool, wider: string -> bool,
                      names: set<string>, x: string)
    requires forall z | recorded(z) :: wider(z)
    ensures Reach(kids, recorded, names, x) <= Reach(kids, wider, names, x)
  {
    forall y | y in Reach(kids, recorded, names, x)
      ensures y in Reach(kids, wider, names, x)
    {
      var p :| ChainFromTo(kids, recorded, p, x, y);
      assert ChainFromTo(kids, wider, p, x, y);
    }
  }
}
