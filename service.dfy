/**
  The authorization service: resolves the caller's roles (falling back to a
  guest role), loads the role container once (or on every check when forced),
  and answers permission checks and role-satisfaction checks against it.
*/
module Service {
  import opened Outcomes
  import opened RbacContainer

  /** A role as an identity or a caller hands it over: a bare name, or a role object. */
  datatype RoleRef = ByName(name: string) | ByObject(name: string)

  /** What the identity provider returns. */
  datatype Identity =
    | NoIdentity
    /** Something that is not an identity object. */
    | NotAnIdentity
    | WithRoles(roles: seq<RoleRef>)

  /**
    The optional assertion of a permission check, with the verdict it gives for
    the current identity.
  */
  datatype Assertion =
    | NoAssertion
    | Callable(verdict: bool)
    | AssertionObject(verdict: bool)
    /** Neither callable nor an assertion object. */
    | NotAnAssertion

  /** PHP's empty() on a string: the empty string and "0" are empty. */
  predicate PhpEmpty(s: string)
  {
    s == "" || s == "0"
  }

  /** The caller's roles: the guest role when there is no identity, an exception for a non-identity. */
  function IdentityRoles(identity: Identity, guestRole: string): (r: Result<seq<RoleRef>>)
    ensures r.Err? <==> identity.NotAnIdentity?
    ensures r.Err? ==> r.error == InvalidIdentity
    ensures identity.NoIdentity? ==> r.Ok? && |r.value| <= 1 && (r.value == [] <==> PhpEmpty(guestRole))
    ensures identity.NoIdentity? && r.value != [] ==> r.value[0] == ByName(guestRole)
    ensures identity.WithRoles? ==> r == Ok(identity.roles)
  {
    match identity
    case NoIdentity => Ok(if PhpEmpty(guestRole) then [] else [ByName(guestRole)])
    case NotAnIdentity => Err(InvalidIdentity)
    case WithRoles(roles) => Ok(roles)
  }

  // ---------------------------------------------------------------------------
  // Permission checks

  /** The loop of a permission check: the first unknown role denies, the first granting role grants. */
  function Scan(nodes: Nodes, grants: set<Grant>, roles: seq<RoleRef>, permission: string): bool
  {
    if roles == [] then false
    else if roles[0].name !in nodes then false
    else if (roles[0].name, permission) in grants then true
    else Scan(nodes, grants, roles[1..], permission)
  }

  /** Role `i` grants the permission and it and every role before it are known to the container. */
  ghost predicate GrantedAt(nodes: Nodes, grants: set<Grant>, roles: seq<RoleRef>, permission: string, i: int)
  {
    && 0 <= i < |roles|
    && (forall j :: 0 <= j <= i ==> roles[j].name in nodes)
    && (roles[i].name, permission) in grants
  }

  lemma {:induction false} ScanMeaning(nodes: Nodes, grants: set<Grant>, roles: seq<RoleRef>, permission: string)
    ensures Scan(nodes, grants, roles, permission) <==> exists i :: GrantedAt(nodes, grants, roles, permission, i)
  {
    if roles == [] {
    } else if roles[0].name !in nodes {
      forall i | 0 <= i < |roles|
        ensures !GrantedAt(nodes, grants, roles, permission, i)
      {
        assert roles[0].name !in nodes;
      }
    } else if (roles[0].name, permission) in grants {
      assert GrantedAt(nodes, grants, roles, permission, 0);
    } else {
      var rest := roles[1..];
      ScanMeaning(nodes, grants, rest, permission);
      if Scan(nodes, grants, rest, permission) {
        var i :| GrantedAt(nodes, grants, rest, permission, i);
        forall j | 0 <= j <= i + 1
          ensures roles[j].name in nodes
        {
          if j > 0 {
            assert roles[j] == rest[j - 1];
          }
        }
        assert GrantedAt(nodes, grants, roles, permission, i + 1);
      }
      if exists i :: GrantedAt(nodes, grants, roles, permission, i) {
        var i :| GrantedAt(nodes, grants, roles, permission, i);
        assert i > 0;
        forall j | 0 <= j <= i - 1
          ensures rest[j].name in nodes
        {
          assert rest[j] == roles[j + 1];
        }
        assert GrantedAt(nodes, grants, rest, permission, i - 1);
      }
    }
  }

  /** An unknown role met before any granting role makes the whole check false. */
  lemma {:induction false} UnknownRoleDenies(nodes: Nodes, grants: set<Grant>, roles: seq<RoleRef>, permission: string, k: int)
    requires 0 <= k < |roles| && roles[k].name !in nodes
    requires forall j :: 0 <= j < k ==> (roles[j].name, permission) !in grants
    ensures !Scan(nodes, grants, roles, permission)
  {
    ScanMeaning(nodes, grants, roles, permission);
    forall i | 0 <= i < |roles|
      ensures !GrantedAt(nodes, grants, roles, permission, i)
    {
      if i < k {
        assert (roles[i].name, permission) !in grants;
      } else {
        assert roles[k].name !in nodes;
      }
    }
  }

  /** The outcome of a non-null assertion: false when it rejects, an exception otherwise. */
  function AssertionGate(assertion: Assertion): (r: Result<bool>)
    requires !assertion.NoAssertion?
    ensures r != Ok(true)
    ensures r == Ok(false) <==> (assertion.Callable? || assertion.AssertionObject?) && !assertion.verdict
    ensures r.Err? ==> r.error == InvalidAssertion
  {
    if assertion.Callable? && !assertion.verdict then Ok(false)
    else if assertion.AssertionObject? && !assertion.verdict then Ok(false)
    else Err(InvalidAssertion)
  }

  // ---------------------------------------------------------------------------
  // Flattening roles into names

  predicate NoDuplicates(s: seq<string>)
  {
    forall i, j :: 0 <= i < j < |s| ==> s[i] != s[j]
  }

  /** PHP's array_unique: the first occurrence of every name, in order. */
  function Unique(s: seq<string>): (u: seq<string>)
    ensures NoDuplicates(u)
    ensures forall x :: x in u <==> x in s
  {
    if s == [] then []
    else
      var u := Unique(s[..|s| - 1]);
      var last := s[|s| - 1];
      assert forall x :: x in s <==> x in s[..|s| - 1] || x == last;
      if last in u then u else u + [last]
  }

  /**
    The names one role adds while flattening: a role object adds its own name
    and its descendants; a role given by name adds only its descendants, and
    looking it up fails when the container does not hold it.
  */
  function Contribution(nodes: Nodes, role: RoleRef): Result<seq<string>>
  {
    match role
    case ByObject(n) => Ok([n] + AllDescendants(nodes, n))
    case ByName(n) => if n in nodes then Ok(AllDescendants(nodes, n)) else Err(RoleNotFound(n))
  }

  function Prepend(p: seq<string>, r: Result<seq<string>>): Result<seq<string>>
  {
    if r.Ok? then Ok(p + r.value) else r
  }

  /** The names collected role by role, before duplicates are removed; the first failed lookup wins. */
  function RawNames(nodes: Nodes, roles: seq<RoleRef>): Result<seq<string>>
  {
    if roles == [] then Ok([])
    else
      match Contribution(nodes, roles[0])
      case Err(e) => Err(e)
      case Ok(c) => Prepend(c, RawNames(nodes, roles[1..]))
  }

  function Flattened(nodes: Nodes, roles: seq<RoleRef>): Result<seq<string>>
  {
    match RawNames(nodes, roles)
    case Err(e) => Err(e)
    case Ok(s) => Ok(Unique(s))
  }

  /** Role `i` is given by name and the container does not hold it. */
  ghost predicate MissingAt(nodes: Nodes, roles: seq<RoleRef>, i: int)
  {
    0 <= i < |roles| && roles[i].ByName? && roles[i].name !in nodes
  }

  /** Role `role` puts `x` into the flattened set. */
  ghost predicate Contributes(nodes: Nodes, role: RoleRef, x: string)
  {
    (role.ByObject? && x == role.name) || IsDescendant(nodes, role.name, x)
  }

  ghost predicate HeldBy(nodes: Nodes, roles: seq<RoleRef>, x: string)
  {
    exists i :: 0 <= i < |roles| && Contributes(nodes, roles[i], x)
  }

  /** Flattening fails exactly when a role given by name is missing, and it names the first one. */
  lemma {:induction false} FlattenedFailure(nodes: Nodes, roles: seq<RoleRef>)
    ensures Flattened(nodes, roles).Err? <==> exists i :: MissingAt(nodes, roles, i)
    ensures forall k :: (MissingAt(nodes, roles, k) && (forall j :: 0 <= j < k ==> !MissingAt(nodes, roles, j))
                         ==> Flattened(nodes, roles) == Err(RoleNotFound(roles[k].name)))
  {
    if roles != [] {
      var rest := roles[1..];
      FlattenedFailure(nodes, rest);
      if MissingAt(nodes, roles, 0) {
      } else {
        forall i | MissingAt(nodes, rest, i)
          ensures MissingAt(nodes, roles, i + 1)
        {
          assert rest[i] == roles[i + 1];
        }
        forall i | MissingAt(nodes, roles, i)
          ensures MissingAt(nodes, rest, i - 1)
        {
          assert rest[i - 1] == roles[i];
        }
        forall k | MissingAt(nodes, roles, k) && (forall j :: 0 <= j < k ==> !MissingAt(nodes, roles, j))
          ensures Flattened(nodes, roles) == Err(RoleNotFound(roles[k].name))
        {
          assert MissingAt(nodes, rest, k - 1);
          forall j | 0 <= j < k - 1
            ensures !MissingAt(nodes, rest, j)
          {
            assert !MissingAt(nodes, roles, j + 1);
            assert rest[j] == roles[j + 1];
          }
          assert rest[k - 1] == roles[k];
        }
      }
    }
  }

  /** The collected names are exactly the names the roles contribute one by one. */
  lemma {:induction false} RawNamesMembers(nodes: Nodes, roles: seq<RoleRef>, x: string)
    requires RawNames(nodes, roles).Ok?
    ensures x in RawNames(nodes, roles).value <==>
      exists i :: 0 <= i < |roles| && Contribution(nodes, roles[i]).Ok? && x in Contribution(nodes, roles[i]).value
  {
    if roles != [] {
      var rest := roles[1..];
      RawNamesMembers(nodes, rest, x);
      if x in Contribution(nodes, roles[0]).value {
        assert Contribution(nodes, roles[0]).Ok?;
      } else if x in RawNames(nodes, rest).value {
        var i :| 0 <= i < |rest| && Contribution(nodes, rest[i]).Ok? && x in Contribution(nodes, rest[i]).value;
        assert rest[i] == roles[i + 1];
      }
      if exists i :: 0 <= i < |roles| && Contribution(nodes, roles[i]).Ok? && x in Contribution(nodes, roles[i]).value {
        var i :| 0 <= i < |roles| && Contribution(nodes, roles[i]).Ok? && x in Contribution(nodes, roles[i]).value;
        if i > 0 {
          assert rest[i - 1] == roles[i];
        }
      }
    }
  }

  /** In an acyclic hierarchy a role contributes itself (if an object) and exactly the roles reachable below it. */
  lemma ContributionMeaning(nodes: Nodes, role: RoleRef, x: string)
    requires Acyclic(nodes) && Contribution(nodes, role).Ok?
    ensures x in Contribution(nodes, role).value <==> Contributes(nodes, role, x)
  {
    AllDescendantsReachable(nodes, role.name, x);
  }

  /**
    In an acyclic hierarchy a successful flattening has no duplicates and holds
    exactly the names the roles contribute.
  */
  lemma FlattenedMembers(nodes: Nodes, roles: seq<RoleRef>, x: string)
    requires Acyclic(nodes) && Flattened(nodes, roles).Ok?
    ensures NoDuplicates(Flattened(nodes, roles).value)
    ensures x in Flattened(nodes, roles).value <==> HeldBy(nodes, roles, x)
  {
    RawNamesMembers(nodes, roles, x);
    forall i | 0 <= i < |roles| && Contribution(nodes, roles[i]).Ok?
      ensures x in Contribution(nodes, roles[i]).value <==> Contributes(nodes, roles[i], x)
    {
      ContributionMeaning(nodes, roles[i], x);
    }
    if HeldBy(nodes, roles, x) {
      var i :| 0 <= i < |roles| && Contributes(nodes, roles[i], x);
      FlattenedFailure(nodes, roles);
      assert !MissingAt(nodes, roles, i);
      assert Contribution(nodes, roles[i]).Ok?;
    }
  }

  /** A role given by name without children adds nothing, not even its own name. */
  lemma NamedChildlessRoleAddsNothing(nodes: Nodes, name: string)
    requires name in nodes && nodes[name] == []
    ensures Contribution(nodes, ByName(name)) == Ok([])
    ensures Contribution(nodes, ByObject(name)) == Ok([name])
  {
    ChildlessHasNoDescendants(nodes, name);
    assert [name] + AllDescendants(nodes, name) == [name];
  }

  /** array_intersect(a, b) is non-empty. */
  predicate Intersects(a: seq<string>, b: seq<string>)
  {
    exists x | x in a :: x in b
  }

  // ---------------------------------------------------------------------------
  // The service's state and its transitions

  /** The observable state of a service together with its container. */
  datatype Snapshot = Snapshot(
    isLoaded: bool,
    forceReload: bool,
    nodes: Nodes,
    grants: set<Grant>,
    /** How many times the "load roles" event has been fired. */
    loadEvents: nat)

  /** A call's result together with the state it leaves behind. */
  datatype Step = Step(result: Result<bool>, after: Snapshot)

  /**
    Loading: nothing happens once loaded unless reloading is forced; otherwise
    the event fires, then a non-empty guest role the container lacks is added
    without permissions, and the service counts as loaded.
  */
  function LoadStep(s: Snapshot, guestRole: string, listeners: Listeners): Snapshot
  {
    if s.isLoaded && !s.forceReload then s
    else
      var nodes := s.nodes + listeners.roles;
      var grants := s.grants + listeners.grants;
      var t := s.(isLoaded := true, nodes := nodes, grants := grants, loadEvents := s.loadEvents + 1);
      if !PhpEmpty(guestRole) && guestRole !in nodes then t.(nodes := nodes[guestRole := []], grants := Revoke(grants, guestRole))
      else t
  }

  function IsGrantedStep(s: Snapshot, guestRole: string, identity: Identity, permission: string,
                         assertion: Assertion, listeners: Listeners): Step
  {
    match IdentityRoles(identity, guestRole)
    case Err(e) => Step(Err(e), s)
    case Ok(roles) =>
      if roles == [] then Step(Ok(false), s)
      else
        var t := LoadStep(s, guestRole, listeners);
        if !assertion.NoAssertion? then Step(AssertionGate(assertion), t)
        else Step(Ok(Scan(t.nodes, t.grants, roles, permission)), t)
  }

  function SatisfyStep(s: Snapshot, guestRole: string, identity: Identity, rolesToCheck: seq<RoleRef>,
                       listeners: Listeners): Step
  {
    match IdentityRoles(identity, guestRole)
    case Err(e) => Step(Err(e), s)
    case Ok(held) =>
      if held == [] then Step(Ok(false), s)
      else
        var t := LoadStep(s, guestRole, listeners);
        match Flattened(t.nodes, rolesToCheck)
        case Err(e) => Step(Err(e), t)
        case Ok(candidates) =>
          match Flattened(t.nodes, held)
          case Err(e) => Step(Err(e), t)
          case Ok(names) => Step(Ok(Intersects(candidates, names)), t)
  }

  /** Once loaded, a non-empty guest role is in the container. */
  ghost predicate GuestLoaded(s: Snapshot, guestRole: string)
  {
    s.isLoaded && !PhpEmpty(guestRole) ==> guestRole in s.nodes
  }

  class AuthorizationService {
    const rbac: Rbac
    const guestRole: string
    var isLoaded: bool
    var forceReload: bool
    ghost var loadEvents: nat

    ghost function State(): Snapshot
      reads this, rbac
    {
      Snapshot(isLoaded, forceReload, rbac.nodes, rbac.grants, loadEvents)
    }

    ghost predicate Valid()
      reads this, rbac
    {
      GuestLoaded(State(), guestRole)
    }

    constructor (rbac: Rbac, guestRole: string)
      ensures this.rbac == rbac && this.guestRole == guestRole
      ensures !isLoaded && !forceReload && loadEvents == 0
      ensures Valid()
    {
      this.rbac := rbac;
      this.guestRole := guestRole;
      isLoaded := false;
      forceReload := false;
      loadEvents := 0;
    }

    method SetForceReload(forceReload: bool)
      requires Valid()
      modifies this
      ensures State() == old(State()).(forceReload := forceReload)
      ensures Valid()
    {
      this.forceReload := forceReload;
    }

    method Load(listeners: Listeners)
      requires Valid()
      modifies this, rbac
      ensures State() == LoadStep(old(State()), guestRole, listeners)
      ensures Valid()
    {
      if isLoaded && !forceReload {
        return;
      }
      // the "load roles" event: its listeners populate the container
      rbac.ApplyListeners(listeners);
      loadEvents := loadEvents + 1;
      if !PhpEmpty(guestRole) && !rbac.HasRole(guestRole) {
        rbac.AddRole(guestRole);
      }
      isLoaded := true;
    }

    method IsGranted(identity: Identity, permission: string, assertion: Assertion, listeners: Listeners)
      returns (r: Result<bool>)
      requires Valid()
      modifies this, rbac
      ensures Step(r, State()) == IsGrantedStep(old(State()), guestRole, identity, permission, assertion, listeners)
      ensures Valid()
    {
      var resolved := IdentityRoles(identity, guestRole);
      if resolved.Err? {
        return Err(resolved.error);
      }
      var roles := resolved.value;
      if |roles| == 0 {
        return Ok(false);
      }
      Load(listeners);
      if !assertion.NoAssertion? {
        // the identity provider is asked again and gives the same identity
        if assertion.Callable? && !assertion.verdict {
          return Ok(false);
        } else if assertion.AssertionObject? && !assertion.verdict {
          return Ok(false);
        } else {
          return Err(InvalidAssertion);
        }
      }
      var i := 0;
      while i < |roles|
        invariant 0 <= i <= |roles|
        invariant Scan(rbac.nodes, rbac.grants, roles, permission) == Scan(rbac.nodes, rbac.grants, roles[i..], permission)
      {
        if !rbac.HasRole(roles[i].name) {
          return Ok(false);
        }
        if rbac.IsGranted(roles[i].name, permission) {
          return Ok(true);
        }
        i := i + 1;
      }
      return Ok(false);
    }

    method SatisfyIdentityRoles(identity: Identity, rolesToCheck: seq<RoleRef>, listeners: Listeners)
      returns (r: Result<bool>)
      requires Valid()
      modifies this, rbac
      ensures Step(r, State()) == SatisfyStep(old(State()), guestRole, identity, rolesToCheck, listeners)
      ensures Valid()
    {
      var resolved := IdentityRoles(identity, guestRole);
      if resolved.Err? {
        return Err(resolved.error);
      }
      var held := resolved.value;
      if |held| == 0 {
        return Ok(false);
      }
      Load(listeners);
      var candidates := FlattenRoles(rolesToCheck);
      if candidates.Err? {
        return Err(candidates.error);
      }
      var names := FlattenRoles(held);
      if names.Err? {
        return Err(names.error);
      }
      r := Ok(Intersects(candidates.value, names.value));
    }

    /** The names of the given roles and of all their descendants, without duplicates. */
    method FlattenRoles(roles: seq<RoleRef>) returns (r: Result<seq<string>>)
      ensures r == Flattened(rbac.nodes, roles)
    {
      var roleNames: seq<string> := [];
      var i := 0;
      assert roles[i..] == roles;
      PrependNothing(RawNames(rbac.nodes, roles));
      while i < |roles|
        invariant 0 <= i <= |roles|
        invariant RawNames(rbac.nodes, roles) == Prepend(roleNames, RawNames(rbac.nodes, roles[i..]))
      {
        var role := roles[i];
        ghost var before := roleNames;
        RawNamesAt(rbac.nodes, roles, i);
        if role.ByObject? {
          roleNames := roleNames + [role.name];
        } else if !rbac.HasRole(role.name) {
          // looking the name up in the container fails
          return Err(RoleNotFound(role.name));
        }
        // a role without children yields nothing here
        var children := AllDescendants(rbac.nodes, role.name);
        ghost var start := roleNames;
        var j := 0;
        while j < |children|
          invariant 0 <= j <= |children|
          invariant roleNames == start + children[..j]
        {
          roleNames := roleNames + [children[j]];
          j := j + 1;
        }
        assert children[..j] == children;
        assert roleNames == before + Contribution(rbac.nodes, role).value;
        PrependTwice(before, Contribution(rbac.nodes, role).value, RawNames(rbac.nodes, roles[i + 1..]));
        i := i + 1;
      }
      assert roles[i..] == [];
      assert roleNames + [] == roleNames;
      r := Ok(Unique(roleNames));
    }
  }

  lemma PrependNothing(r: Result<seq<string>>)
    ensures Prepend([], r) == r
  {
    if r.Ok? {
      assert [] + r.value == r.value;
    }
  }

  lemma PrependTwice(a: seq<string>, b: seq<string>, r: Result<seq<string>>)
    ensures Prepend(a, Prepend(b, r)) == Prepend(a + b, r)
  {
    if r.Ok? {
      assert a + (b + r.value) == (a + b) + r.value;
    }
  }

  /** RawNames on the roles from `i` on, unfolded once. */
  lemma RawNamesAt(nodes: Nodes, roles: seq<RoleRef>, i: int)
    requires 0 <= i < |roles|
    ensures var c := Contribution(nodes, roles[i]);
      RawNames(nodes, roles[i..]) == if c.Err? then Err(c.error) else Prepend(c.value, RawNames(nodes, roles[i + 1..]))
  {
    assert roles[i..][0] == roles[i] && roles[i..][1..] == roles[i + 1..];
  }

  // ---------------------------------------------------------------------------
  // Properties of loading

  /** Once loaded, and unless reloading is forced, loading changes nothing. */
  lemma LoadSkipsWhenLoaded(s: Snapshot, guestRole: string, listeners: Listeners)
    requires s.isLoaded && !s.forceReload
    ensures LoadStep(s, guestRole, listeners) == s
  {
  }

  /**
    Otherwise the event fires once, the service is loaded afterwards, a
    non-empty guest role is in the container, and the guest role is the only
    role loading adds beyond what the listeners added.
  */
  lemma LoadFires(s: Snapshot, guestRole: string, listeners: Listeners)
    requires !(s.isLoaded && !s.forceReload)
    ensures var t := LoadStep(s, guestRole, listeners);
      && t.isLoaded && t.forceReload == s.forceReload
      && t.loadEvents == s.loadEvents + 1
      && t.grants <= s.grants + listeners.grants
      && (forall g :: g in s.grants + listeners.grants && g.0 != guestRole ==> g in t.grants)
      && (guestRole in s.nodes + listeners.roles ==> t.grants == s.grants + listeners.grants)
      && (!PhpEmpty(guestRole) ==> guestRole in t.nodes)
      && t.nodes.Keys == (s.nodes + listeners.roles).Keys + (if PhpEmpty(guestRole) then {} else {guestRole})
      && (forall n :: n in s.nodes + listeners.roles ==> t.nodes[n] == (s.nodes + listeners.roles)[n])
  {
  }

  /**
    A guest role that loading has to add is a new role with no permissions: the
    container grants it nothing, so a check without identity is false.
  */
  lemma LoadAddsGuestWithoutPermissions(s: Snapshot, guestRole: string, listeners: Listeners, permission: string)
    requires !(s.isLoaded && !s.forceReload)
    requires !PhpEmpty(guestRole) && guestRole !in s.nodes + listeners.roles
    ensures var t := LoadStep(s, guestRole, listeners);
      && guestRole in t.nodes && t.nodes[guestRole] == []
      && (forall p :: (guestRole, p) !in t.grants)
    ensures IsGrantedStep(s, guestRole, NoIdentity, permission, NoAssertion, listeners).result == Ok(false)
  {
    var t := LoadStep(s, guestRole, listeners);
    var roles := [ByName(guestRole)];
    assert IdentityRoles(NoIdentity, guestRole) == Ok(roles);
    assert roles[1..] == [];
    assert Scan(t.nodes, t.grants, roles, permission) == ((guestRole, permission) in t.grants);
  }

  /** Without forced reloading the event fires at most once over any number of loads. */
  lemma LoadOnce(s: Snapshot, guestRole: string, first: Listeners, second: Listeners)
    requires !s.forceReload
    ensures LoadStep(LoadStep(s, guestRole, first), guestRole, second) == LoadStep(s, guestRole, first)
    ensures LoadStep(s, guestRole, first).loadEvents <= s.loadEvents + 1
  {
  }

  /** With forced reloading every load fires the event. */
  lemma ForcedReloadFiresEachTime(s: Snapshot, guestRole: string, first: Listeners, second: Listeners)
    requires s.forceReload
    ensures LoadStep(LoadStep(s, guestRole, first), guestRole, second).loadEvents == s.loadEvents + 2
  {
  }

  /** Loading keeps the guest guarantee: roles are never removed from the container. */
  lemma LoadKeepsGuest(s: Snapshot, guestRole: string, listeners: Listeners)
    requires GuestLoaded(s, guestRole)
    ensures GuestLoaded(LoadStep(s, guestRole, listeners), guestRole)
    ensures s.nodes.Keys <= LoadStep(s, guestRole, listeners).nodes.Keys
  {
  }

  /** When what the listeners leave behind is acyclic, so is the container after loading. */
  lemma LoadKeepsAcyclic(s: Snapshot, guestRole: string, listeners: Listeners)
    requires Acyclic(s.nodes) && Acyclic(s.nodes + listeners.roles)
    ensures Acyclic(LoadStep(s, guestRole, listeners).nodes)
  {
    var nodes := s.nodes + listeners.roles;
    if !(s.isLoaded && !s.forceReload) && !PhpEmpty(guestRole) && guestRole !in nodes {
      AddRoleKeepsAcyclic(nodes, guestRole);
    }
  }

  // ---------------------------------------------------------------------------
  // Properties of permission checks

  /** A non-identity is an exception, and nothing is loaded. */
  lemma IsGrantedRejectsNonIdentity(s: Snapshot, guestRole: string, permission: string,
                                    assertion: Assertion, listeners: Listeners)
    ensures IsGrantedStep(s, guestRole, NotAnIdentity, permission, assertion, listeners) == Step(Err(InvalidIdentity), s)
  {
  }

  /** Without roles a check is false before anything is loaded. */
  lemma IsGrantedWithoutRoles(s: Snapshot, guestRole: string, identity: Identity, permission: string,
                              assertion: Assertion, listeners: Listeners)
    requires IdentityRoles(identity, guestRole) == Ok([])
    ensures IsGrantedStep(s, guestRole, identity, permission, assertion, listeners) == Step(Ok(false), s)
  {
  }

  /**
    A non-null assertion never grants: after loading, a rejecting callable or
    assertion object gives false and everything else is an exception.
  */
  lemma IsGrantedWithAssertion(s: Snapshot, guestRole: string, identity: Identity, permission: string,
                               assertion: Assertion, listeners: Listeners)
    requires !assertion.NoAssertion?
    ensures var step := IsGrantedStep(s, guestRole, identity, permission, assertion, listeners);
      && step.result != Ok(true)
      && (identity.WithRoles? && identity.roles != [] ==>
            step.after == LoadStep(s, guestRole, listeners)
            && (step.result == Ok(false) <==> (assertion.Callable? || assertion.AssertionObject?) && !assertion.verdict)
            && (step.result.Err? <==> assertion.NotAnAssertion? || assertion.verdict))
  {
  }

  /**
    Without an assertion a check on a non-empty role list is true exactly when
    some role grants the permission and it and all roles before it are known to
    the loaded container.
  */
  lemma IsGrantedMeaning(s: Snapshot, guestRole: string, roles: seq<RoleRef>, permission: string, listeners: Listeners)
    requires roles != []
    ensures var t := LoadStep(s, guestRole, listeners);
      var step := IsGrantedStep(s, guestRole, WithRoles(roles), permission, NoAssertion, listeners);
      && step.after == t
      && step.result.Ok?
      && (step.result.value <==> exists i :: GrantedAt(t.nodes, t.grants, roles, permission, i))
  {
    var t := LoadStep(s, guestRole, listeners);
    ScanMeaning(t.nodes, t.grants, roles, permission);
  }

  /** A guest is never refused as an unknown role: the check is exactly whether the guest role is granted. */
  lemma IsGrantedForGuest(s: Snapshot, guestRole: string, permission: string, listeners: Listeners)
    requires GuestLoaded(s, guestRole) && !PhpEmpty(guestRole)
    ensures var t := LoadStep(s, guestRole, listeners);
      IsGrantedStep(s, guestRole, NoIdentity, permission, NoAssertion, listeners).result
        == Ok((guestRole, permission) in t.grants)
  {
    var t := LoadStep(s, guestRole, listeners);
    var roles := [ByName(guestRole)];
    assert IdentityRoles(NoIdentity, guestRole) == Ok(roles);
    assert guestRole in t.nodes;
    assert roles[1..] == [];
    assert Scan(t.nodes, t.grants, roles, permission) == ((guestRole, permission) in t.grants);
  }

  /**
    Without forced reloading, repeating a check gives the same result and
    leaves the state as the first one left it.
  */
  lemma IsGrantedRepeatable(s: Snapshot, guestRole: string, identity: Identity, permission: string,
                            assertion: Assertion, first: Listeners, second: Listeners)
    requires !s.forceReload
    ensures var one := IsGrantedStep(s, guestRole, identity, permission, assertion, first);
      var two := IsGrantedStep(one.after, guestRole, identity, permission, assertion, second);
      two == one && one.after.loadEvents <= s.loadEvents + 1
  {
  }

  /** With forced reloading, two checks on a non-empty role list fire the event twice. */
  lemma IsGrantedForcedReload(s: Snapshot, guestRole: string, roles: seq<RoleRef>, permission: string,
                              assertion: Assertion, first: Listeners, second: Listeners)
    requires s.forceReload && roles != []
    ensures var one := IsGrantedStep(s, guestRole, WithRoles(roles), permission, assertion, first);
      var two := IsGrantedStep(one.after, guestRole, WithRoles(roles), permission, assertion, second);
      two.after.loadEvents == s.loadEvents + 2
  {
  }

  // ---------------------------------------------------------------------------
  // Properties of role satisfaction

  /** Without identity roles nothing is satisfied and nothing is loaded. */
  lemma SatisfyWithoutRoles(s: Snapshot, guestRole: string, identity: Identity, rolesToCheck: seq<RoleRef>,
                            listeners: Listeners)
    requires IdentityRoles(identity, guestRole) == Ok([])
    ensures SatisfyStep(s, guestRole, identity, rolesToCheck, listeners) == Step(Ok(false), s)
  {
  }

  /**
    With identity roles, in an acyclic container, and when every role given by
    name is known, the check is true exactly when the flattened candidates and
    the flattened identity roles share a name.
  */
  lemma SatisfyMeaning(s: Snapshot, guestRole: string, held: seq<RoleRef>, rolesToCheck: seq<RoleRef>,
                       listeners: Listeners)
    requires held != []
    requires Acyclic(LoadStep(s, guestRole, listeners).nodes)
    requires forall i :: !MissingAt(LoadStep(s, guestRole, listeners).nodes, rolesToCheck, i)
    requires forall i :: !MissingAt(LoadStep(s, guestRole, listeners).nodes, held, i)
    ensures var t := LoadStep(s, guestRole, listeners);
      var step := SatisfyStep(s, guestRole, WithRoles(held), rolesToCheck, listeners);
      && step.after == t
      && step.result.Ok?
      && (step.result.value <==> exists x :: HeldBy(t.nodes, rolesToCheck, x) && HeldBy(t.nodes, held, x))
  {
    var t := LoadStep(s, guestRole, listeners);
    FlattenedFailure(t.nodes, rolesToCheck);
    FlattenedFailure(t.nodes, held);
    var candidates := Flattened(t.nodes, rolesToCheck).value;
    var names := Flattened(t.nodes, held).value;
    if Intersects(candidates, names) {
      var x :| x in candidates && x in names;
      FlattenedMembers(t.nodes, rolesToCheck, x);
      FlattenedMembers(t.nodes, held, x);
    }
    if exists x :: HeldBy(t.nodes, rolesToCheck, x) && HeldBy(t.nodes, held, x) {
      var x :| HeldBy(t.nodes, rolesToCheck, x) && HeldBy(t.nodes, held, x);
      FlattenedMembers(t.nodes, rolesToCheck, x);
      FlattenedMembers(t.nodes, held, x);
    }
  }

  /**
    Because a role given by name contributes only its descendants, a caller
    holding a childless role by name does not satisfy that same role by name;
    held and checked as a role object, the same role is satisfied.
  */
  lemma NamedLeafRoleDoesNotSatisfyItself(s: Snapshot, guestRole: string, listeners: Listeners, name: string)
    requires name in LoadStep(s, guestRole, listeners).nodes
    requires LoadStep(s, guestRole, listeners).nodes[name] == []
    ensures SatisfyStep(s, guestRole, WithRoles([ByName(name)]), [ByName(name)], listeners)
      == Step(Ok(false), LoadStep(s, guestRole, listeners))
    ensures SatisfyStep(s, guestRole, WithRoles([ByObject(name)]), [ByObject(name)], listeners)
      == Step(Ok(true), LoadStep(s, guestRole, listeners))
  {
    var nodes := LoadStep(s, guestRole, listeners).nodes;
    NamedChildlessRoleAddsNothing(nodes, name);
    var named := [ByName(name)];
    var asObject := [ByObject(name)];
    assert named[1..] == [] && asObject[1..] == [];
    PrependNothing(Ok([]));
    assert RawNames(nodes, named) == Ok([]);
    assert Flattened(nodes, named) == Ok([]);
    assert [name] + [] == [name];
    assert RawNames(nodes, asObject) == Ok([name]);
    assert Unique([name]) == [name] by {
      assert [name][..0] == [];
    }
    assert Intersects([name], [name]) by {
      assert name in [name];
    }
  }
}
