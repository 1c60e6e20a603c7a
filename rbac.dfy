/**
  The role container the authorization service sits on. Each role has a name and
  a list of child roles; the container also answers whether a role is granted a
  permission. How a permission is inherited along the hierarchy is the container's
  own business, so granting is kept abstract: a set of (role, permission) pairs
  for which the container answers yes.
*/
module RbacContainer {

  /** Role name -> names of its children. */
  type Nodes = map<string, seq<string>>

  /** A (role, permission) pair the container grants. */
  type Grant = (string, string)

  /** What the listeners of the "load roles" event put into the container. */
  datatype Listeners = Listeners(roles: Nodes, grants: set<Grant>)

  /** The grants with every pair for role `name` taken out: what a freshly created role `name` holds. */
  function Revoke(grants: set<Grant>, name: string): (r: set<Grant>)
    ensures r <= grants
    ensures forall p :: (name, p) !in r
    ensures forall g :: g in grants && g.0 != name ==> g in r
  {
    set g | g in grants && g.0 != name
  }

  class Rbac {
    var nodes: Nodes
    var grants: set<Grant>

    constructor ()
      ensures nodes == map[] && grants == {}
    {
      nodes := map[];
      grants := {};
    }

    predicate HasRole(name: string)
      reads this
    {
      name in nodes
    }

    /** Asking about a role the container does not hold raises an exception; callers check HasRole first. */
    predicate IsGranted(role: string, permission: string)
      reads this
      requires HasRole(role)
    {
      (role, permission) in grants
    }

    /** Adds a parentless role without children or permissions. */
    method AddRole(name: string)
      modifies this
      ensures nodes == old(nodes)[name := []]
      ensures grants == Revoke(old(grants), name)
    {
      nodes := nodes[name := []];
      grants := Revoke(grants, name);
    }

    /**
      The effect of the "load roles" listeners: they add roles and permissions.
      A role the listeners name gets the children they give it, replacing the
      ones it had; no role is removed.
    */
    method ApplyListeners(listeners: Listeners)
      modifies this
      ensures nodes == old(nodes) + listeners.roles
      ensures grants == old(grants) + listeners.grants
    {
      nodes := nodes + listeners.roles;
      grants := grants + listeners.grants;
    }
  }

  /**
    The names a recursive, self-first iteration over the children of role `r`
    yields: each child, then that child's own descendants, child by child.
    The role itself is not yielded. `fuel` bounds the depth; with fuel |nodes|
    an acyclic hierarchy is walked completely (DescendantsComplete below).
  */
  function Descendants(nodes: Nodes, r: string, fuel: nat): seq<string>
    decreases fuel, 0, 0
  {
    if r !in nodes || fuel == 0 then [] else Walk(nodes, nodes[r], fuel - 1)
  }

  function Walk(nodes: Nodes, kids: seq<string>, fuel: nat): seq<string>
    decreases fuel, 1, |kids|
  {
    if kids == [] then []
    else [kids[0]] + Descendants(nodes, kids[0], fuel) + Walk(nodes, kids[1..], fuel)
  }

  /** All the descendants of `r`, walked to the full depth the container allows. */
  function AllDescendants(nodes: Nodes, r: string): seq<string>
  {
    Descendants(nodes, r, |nodes|)
  }

  /** `p` is a path r = p[0] -> p[1] -> ... -> x along child edges, of at least one edge. */
  ghost predicate Chain(nodes: Nodes, r: string, x: string, p: seq<string>)
  {
    && |p| >= 2 && p[0] == r && p[|p| - 1] == x
    && forall i :: 0 <= i < |p| - 1 ==> p[i] in nodes && p[i + 1] in nodes[p[i]]
  }

  /** `x` is reachable from `r` by following child edges at least once. */
  ghost predicate IsDescendant(nodes: Nodes, r: string, x: string)
  {
    exists p :: Chain(nodes, r, x, p)
  }

  ghost predicate ShortChain(nodes: Nodes, r: string, x: string, fuel: nat)
  {
    exists p :: Chain(nodes, r, x, p) && |p| <= fuel + 1
  }

  /**
    `rank` witnesses that the hierarchy has no cycle: every child that is itself
    a role of the container has a smaller rank than its parent, and ranks stay
    below the number of roles.
  */
  ghost predicate Hierarchy(nodes: Nodes, rank: map<string, nat>)
  {
    && (forall n :: n in nodes ==> n in rank && rank[n] < |nodes|)
    && (forall n, c :: n in nodes && c in nodes[n] && c in nodes ==> rank[c] < rank[n])
  }

  ghost predicate Acyclic(nodes: Nodes)
  {
    exists rank :: Hierarchy(nodes, rank)
  }

  /** Every name the walk yields lies at the end of a path of at most `fuel` edges. */
  lemma {:induction false} DescendantsSound(nodes: Nodes, r: string, fuel: nat, x: string)
    requires x in Descendants(nodes, r, fuel)
    ensures ShortChain(nodes, r, x, fuel)
    decreases fuel, 0, 0
  {
    var kids := nodes[r];
    WalkSound(nodes, kids, fuel - 1, x);
    var k :| k in kids && (x == k || ShortChain(nodes, k, x, fuel - 1));
    if x == k {
      assert Chain(nodes, r, x, [r, x]);
    } else {
      var p :| Chain(nodes, k, x, p) && |p| <= fuel;
      var q := [r] + p;
      forall i | 0 <= i < |q| - 1
        ensures q[i] in nodes && q[i + 1] in nodes[q[i]]
      {
        if i > 0 {
          assert q[i] == p[i - 1] && q[i + 1] == p[i];
        }
      }
      assert Chain(nodes, r, x, q);
    }
  }

  lemma {:induction false} WalkSound(nodes: Nodes, kids: seq<string>, fuel: nat, x: string)
    requires x in Walk(nodes, kids, fuel)
    ensures exists k :: k in kids && (x == k || ShortChain(nodes, k, x, fuel))
    decreases fuel, 1, |kids|
  {
    if x == kids[0] {
      assert kids[0] in kids;
    } else if x in Descendants(nodes, kids[0], fuel) {
      DescendantsSound(nodes, kids[0], fuel, x);
      assert kids[0] in kids;
    } else {
      WalkSound(nodes, kids[1..], fuel, x);
      var k :| k in kids[1..] && (x == k || ShortChain(nodes, k, x, fuel));
      assert k in kids;
    }
  }

  /** A walk over `kids` yields every kid and everything below it. */
  lemma {:induction false} WalkCovers(nodes: Nodes, kids: seq<string>, fuel: nat, k: string)
    requires k in kids
    ensures k in Walk(nodes, kids, fuel)
    ensures forall y :: y in Descendants(nodes, k, fuel) ==> y in Walk(nodes, kids, fuel)
    decreases |kids|
  {
    if kids[0] != k {
      WalkCovers(nodes, kids[1..], fuel, k);
    }
  }

  /** Every path of at most `fuel` edges ends at a name the walk yields. */
  lemma {:induction false} DescendantsComplete(nodes: Nodes, r: string, fuel: nat, x: string, p: seq<string>)
    requires Chain(nodes, r, x, p) && |p| <= fuel + 1
    ensures x in Descendants(nodes, r, fuel)
    decreases |p|
  {
    var k := p[1];
    assert r in nodes && k in nodes[r];
    WalkCovers(nodes, nodes[r], fuel - 1, k);
    if |p| > 2 {
      var q := p[1..];
      forall i | 0 <= i < |q| - 1
        ensures q[i] in nodes && q[i + 1] in nodes[q[i]]
      {
        assert q[i] == p[i + 1] && q[i + 1] == p[i + 2];
      }
      assert Chain(nodes, k, x, q);
      DescendantsComplete(nodes, k, fuel - 1, x, q);
    }
  }

  /** In an acyclic hierarchy a path has fewer edges than the rank of its start allows. */
  lemma {:induction false} ChainLength(nodes: Nodes, rank: map<string, nat>, r: string, x: string, p: seq<string>)
    requires Hierarchy(nodes, rank) && Chain(nodes, r, x, p)
    ensures r in nodes && |p| <= rank[r] + 2
    decreases |p|
  {
    assert p[0] in nodes;
    if |p| > 2 {
      var q := p[1..];
      forall i | 0 <= i < |q| - 1
        ensures q[i] in nodes && q[i + 1] in nodes[q[i]]
      {
        assert q[i] == p[i + 1] && q[i + 1] == p[i + 2];
      }
      assert Chain(nodes, p[1], x, q);
      ChainLength(nodes, rank, p[1], x, q);
      assert p[1] in nodes[r];
    }
  }

  /**
    In an acyclic hierarchy the names AllDescendants yields are exactly the
    roles reachable from `r` along child edges.
  */
  lemma AllDescendantsReachable(nodes: Nodes, r: string, x: string)
    requires Acyclic(nodes)
    ensures x in AllDescendants(nodes, r) <==> IsDescendant(nodes, r, x)
  {
    if x in AllDescendants(nodes, r) {
      DescendantsSound(nodes, r, |nodes|, x);
    }
    if IsDescendant(nodes, r, x) {
      var rank :| Hierarchy(nodes, rank);
      var p :| Chain(nodes, r, x, p);
      ChainLength(nodes, rank, r, x, p);
      DescendantsComplete(nodes, r, |nodes|, x, p);
    }
  }

  /** A role without children has no descendants. */
  lemma ChildlessHasNoDescendants(nodes: Nodes, r: string)
    requires r in nodes && nodes[r] == []
    ensures AllDescendants(nodes, r) == []
  {
    assert |nodes| > 0 ==> Descendants(nodes, r, |nodes|) == Walk(nodes, [], |nodes| - 1);
  }

  /** Adding a parentless, childless role keeps the hierarchy acyclic. */
  lemma AddRoleKeepsAcyclic(nodes: Nodes, name: string)
    requires Acyclic(nodes)
    ensures Acyclic(nodes[name := []])
  {
    var rank :| Hierarchy(nodes, rank);
    var nodes' := nodes[name := []];
    if name in nodes {
      // the role loses its children: rank 0 is below every parent of it
      var rank' := rank[name := 0];
      assert nodes'.Keys == nodes.Keys;
      assert Hierarchy(nodes', rank');
    } else {
      // a new role: lift every other rank by one and put the new role at the bottom
      var rank' := (map n | n in rank :: rank[n] + 1)[name := 0];
      assert nodes'.Keys == nodes.Keys + {name};
      assert |nodes'.Keys| == |nodes.Keys| + 1;
      forall n, c | n in nodes' && c in nodes'[n] && c in nodes'
        ensures rank'[c] < rank'[n]
      {
        assert n != name;
        if c != name {
          assert rank[c] < rank[n];
        }
      }
      assert Hierarchy(nodes', rank');
    }
  }
}
