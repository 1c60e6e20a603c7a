/**
  The role provider backed by an object repository: it turns whatever the
  repository loads into a dictionary from role name to the names of its parents.
*/
module Role {
  import opened Outcomes

  /** An object the repository loaded: a role (with its parent's name, if it has a parent) or anything else. */
  datatype Loaded = NotARole | RoleItem(name: string, parent: Option<string>)

  /** Role name -> parent names. */
  type RoleParents = map<string, seq<string>>

  /** The list stored at `n`, the empty list when there is none. */
  function Entry(m: RoleParents, n: string): seq<string>
  {
    if n in m then m[n] else []
  }

  /**
    The dictionary after the items have been processed in order: non-roles are
    skipped, a role with a parent appends the parent's name to its entry, and a
    parentless role resets its entry to the empty list.
  */
  function Cleaned(items: seq<Loaded>): RoleParents
  {
    if items == [] then map[]
    else
      var m := Cleaned(items[..|items| - 1]);
      match items[|items| - 1]
      case NotARole => m
      case RoleItem(n, None) => m[n := []]
      case RoleItem(n, Some(p)) => m[n := Entry(m, n) + [p]]
  }

  /** The names of the role items. */
  function RoleNames(items: seq<Loaded>): set<string>
  {
    set i | 0 <= i < |items| && items[i].RoleItem? :: items[i].name
  }

  /**
    The provider's getRoles, given what the repository's findAll returned. The
    event it is called with is not read, so it is not a parameter here.
  */
  method GetRoles(loadedRoles: seq<Loaded>) returns (cleanedRoles: RoleParents)
    ensures cleanedRoles == Cleaned(loadedRoles)
    ensures cleanedRoles.Keys == RoleNames(loadedRoles)
  {
    cleanedRoles := map[];
    var i := 0;
    while i < |loadedRoles|
      invariant 0 <= i <= |loadedRoles|
      invariant cleanedRoles == Cleaned(loadedRoles[..i])
    {
      var role := loadedRoles[i];
      assert loadedRoles[..i + 1][..i] == loadedRoles[..i];
      if role.RoleItem? {
        if role.parent.Some? {
          cleanedRoles := cleanedRoles[role.name := Entry(cleanedRoles, role.name) + [role.parent.value]];
        } else {
          cleanedRoles := cleanedRoles[role.name := []];
        }
      }
      i := i + 1;
    }
    assert loadedRoles[..i] == loadedRoles;
    CleanedKeys(loadedRoles);
  }

  /** The keys are exactly the names of the role items: non-roles create no key. */
  lemma {:induction false} CleanedKeys(items: seq<Loaded>)
    ensures Cleaned(items).Keys == RoleNames(items)
  {
    if items != [] {
      var pre := items[..|items| - 1];
      CleanedKeys(pre);
      assert forall i :: 0 <= i < |pre| ==> pre[i] == items[i];
      var x := items[|items| - 1];
      if x.RoleItem? {
        assert RoleNames(items) == RoleNames(pre) + {x.name};
      } else {
        assert RoleNames(items) == RoleNames(pre);
      }
    }
  }

  lemma LastItem(items: seq<Loaded>, x: Loaded)
    ensures (items + [x])[..|items|] == items && (items + [x])[|items|] == x
  {
  }

  /** A non-role changes nothing. */
  lemma CleanedSkipsNonRoles(items: seq<Loaded>)
    ensures Cleaned(items + [NotARole]) == Cleaned(items)
  {
    LastItem(items, NotARole);
  }

  /** A role with a parent appends the parent's name to its own entry and leaves every other entry alone. */
  lemma CleanedAppendsParent(items: seq<Loaded>, n: string, p: string)
    ensures var before := Cleaned(items);
      var after := Cleaned(items + [RoleItem(n, Some(p))]);
      && after[n] == Entry(before, n) + [p]
      && after.Keys == before.Keys + {n}
      && forall k :: k in before && k != n ==> after[k] == before[k]
  {
    LastItem(items, RoleItem(n, Some(p)));
  }

  /** A parentless role empties its own entry, dropping parents recorded earlier, and leaves every other entry alone. */
  lemma CleanedResetsParentless(items: seq<Loaded>, n: string)
    ensures var before := Cleaned(items);
      var after := Cleaned(items + [RoleItem(n, None)]);
      && after[n] == []
      && after.Keys == before.Keys + {n}
      && forall k :: k in before && k != n ==> after[k] == before[k]
  {
    LastItem(items, RoleItem(n, None));
  }

  /** The parent names of the items named `n` that have a parent, in order. */
  function ParentsNamed(items: seq<Loaded>, n: string): seq<string>
  {
    if items == [] then []
    else
      var head := items[0];
      (if head.RoleItem? && head.name == n && head.parent.Some? then [head.parent.value] else [])
        + ParentsNamed(items[1..], n)
  }

  lemma {:induction false} ParentsNamedConcat(a: seq<Loaded>, b: seq<Loaded>, n: string)
    ensures ParentsNamed(a + b, n) == ParentsNamed(a, n) + ParentsNamed(b, n)
  {
    if a == [] {
      assert a + b == b;
    } else {
      assert (a + b)[0] == a[0] && (a + b)[1..] == a[1..] + b;
      ParentsNamedConcat(a[1..], b, n);
    }
  }

  /**
    The entry of `n` holds the parents of the items named `n` that come after
    the last parentless item named `n` (after the start when there is none).
  */
  lemma {:induction false} CleanedEntry(items: seq<Loaded>, n: string, k: int)
    requires 0 <= k <= |items|
    requires k > 0 ==> items[k - 1] == RoleItem(n, None)
    requires forall i :: k <= i < |items| ==> items[i] != RoleItem(n, None)
    ensures Entry(Cleaned(items), n) == ParentsNamed(items[k..], n)
  {
    if items == [] {
    } else if k == |items| {
      assert items[k..] == [];
    } else {
      var pre := items[..|items| - 1];
      var x := items[|items| - 1];
      assert items == pre + [x];
      CleanedEntry(pre, n, k);
      assert items[k..] == pre[k..] + [x];
      ParentsNamedConcat(pre[k..], [x], n);
      assert [x][1..] == [];
    }
  }

  /**
    When the role names are pairwise distinct, every entry has at most one name:
    the parent's name when the role has a parent, nothing otherwise.
  */
  lemma {:induction false} CleanedDistinct(items: seq<Loaded>)
    requires forall i, j :: 0 <= i < j < |items| && items[i].RoleItem? && items[j].RoleItem? ==> items[i].name != items[j].name
    ensures forall i :: 0 <= i < |items| && items[i].RoleItem? ==>
      && items[i].name in Cleaned(items)
      && Cleaned(items)[items[i].name] == (if items[i].parent.Some? then [items[i].parent.value] else [])
    ensures forall n :: n in Cleaned(items) ==> |Cleaned(items)[n]| <= 1
  {
    if items != [] {
      var pre := items[..|items| - 1];
      var x := items[|items| - 1];
      CleanedDistinct(pre);
      CleanedKeys(pre);
      CleanedKeys(items);
      if x.RoleItem? {
        forall i | 0 <= i < |pre| && pre[i].RoleItem?
          ensures pre[i].name != x.name
        {
          assert items[i] == pre[i];
        }
        assert x.name !in Cleaned(pre);
      }
      forall i | 0 <= i < |items| && items[i].RoleItem?
        ensures items[i].name in Cleaned(items)
        ensures Cleaned(items)[items[i].name] == (if items[i].parent.Some? then [items[i].parent.value] else [])
      {
        if i < |pre| {
          assert pre[i] == items[i];
        }
      }
      forall n | n in Cleaned(items)
        ensures |Cleaned(items)[n]| <= 1
      {
        assert n in RoleNames(items);
        var i :| 0 <= i < |items| && items[i].RoleItem? && items[i].name == n;
      }
    }
  }
}
