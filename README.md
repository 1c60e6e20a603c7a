# ZfcRbac authorization core, modelled in Dafny

This project models the core of ZfcRbac, a role-based access control module for
Zend Framework. It covers two parts:

- **The authorization service** (`AuthorizationService`). It resolves the caller's
  roles. With no identity it falls back to a configured guest role. It loads the
  role container through a "load roles" event, once, or on every check when
  reloading is forced. It then answers two questions:
  - `isGranted`: scan the caller's roles in order; the first unknown role denies,
    the first granting role grants.
  - `satisfyIdentityRoles`: do the flattened candidate roles and the flattened
    identity roles share a name?
- **The object-repository role provider** (`ObjectRepositoryRoleProvider.getRoles`).
  It turns the objects a repository loads into a dictionary from role name to the
  names of its parents.

The Zend `Rbac` container is not part of this model. It is represented by the
class `RbacContainer.Rbac`, which holds two things:
- a finite map from role name to the names of its children;
- a set of (role, permission) pairs the container grants.

The direction in which permissions are inherited is left to the container, so
granting stays abstract. A role's descendants are found by a recursive, self-first
walk over the children. That walk is bounded by the number of roles. Lemma
`AllDescendantsReachable` proves the bound never cuts a path when the hierarchy
is acyclic: the walk then yields exactly the roles reachable along child edges.

Files:
- `outcomes.dfy`: `Option`, `Result`, and the exceptions (`Error`).
- `rbac.dfy`: the container, descendant traversal, reachability, acyclicity.
- `service.dfy`: the authorization service. It has a class
  `AuthorizationService` with the `isLoaded`/`forceReload` state. Its methods are
  proved against pure step functions (`LoadStep`, `IsGrantedStep`,
  `SatisfyStep`) over a `Snapshot` of the service and container state. The
  lemmas about those functions hold what the service promises.
- `role_provider.dfy`: `getRoles` as a loop over the loaded objects, proved
  against the fold `Cleaned`, with lemmas about that fold.

The model follows the code, including where it departs from a conventional RBAC
reading:
- An unknown role met before a granting role makes the whole `isGranted` check
  false; it is not skipped.
- A non-null assertion never yields true. An accepting assertion falls through
  to the `InvalidArgumentException` branch, just like an invalid one.
- `load` adds a non-empty guest role, with no children and no permissions, whenever it is missing after the event,
  whether or not the guest role was used for the current caller.
- The roles and permission handed to the event are dropped: the event object
  only keeps the container (`src/ZfcRbac/Service/RbacEvent.php:47-50`). So the
  listeners are not modelled as receiving them.
- When flattening, a role given by name contributes only its descendants, not its
  own name. As a result, a caller holding a childless role by name does not
  satisfy that same role (`NamedLeafRoleDoesNotSatisfyItself`).

## Model

| member | source | states |
|---|---|---|
| `Service.IdentityRoles` | src/ZfcRbac/Service/AuthorizationService.php:112-134 | With no identity: the empty list when the guest role is PHP-empty ("" or "0"), otherwise exactly the guest role. A non-identity is an `InvalidIdentity` error, never a list. An identity gives its own roles. |
| `Service.AuthorizationService.constructor` | src/ZfcRbac/Service/AuthorizationService.php:78-83 | A new service keeps the container and guest role; it is not loaded, does not force reloads, and has fired no event. |
| `Service.AuthorizationService.SetForceReload` | src/ZfcRbac/Service/AuthorizationService.php:101-104 | Only the `forceReload` flag changes. |
| `Service.AuthorizationService.Load` | src/ZfcRbac/Service/AuthorizationService.php:217-234 | The new service and container state is `LoadStep` of the old one; the guest guarantee (`Valid`) is kept. |
| `Service.LoadSkipsWhenLoaded` | src/ZfcRbac/Service/AuthorizationService.php:219-221 | When loaded and not forced, loading changes nothing. |
| `Service.LoadFires` | src/ZfcRbac/Service/AuthorizationService.php:222-233 | Otherwise the event fires once and the service is loaded. A non-empty guest role is then in the container. The guest role is the only role loading adds beyond the listeners' roles, and every other role keeps the children the listeners left. The grants are those after the event, less any pair for a newly added guest role. |
| `Service.LoadAddsGuestWithoutPermissions` | src/ZfcRbac/Service/AuthorizationService.php:228-231 | A guest role that loading must add is childless and granted no permission, so a check without identity is false. |
| `Service.LoadOnce` | src/ZfcRbac/Service/AuthorizationService.php:217-234 | Without forced reloading, a second load changes nothing, so the event fires at most once. |
| `Service.ForcedReloadFiresEachTime` | src/ZfcRbac/Service/AuthorizationService.php:217-226 | With forced reloading, two loads fire the event twice. |
| `Service.LoadKeepsGuest` | src/ZfcRbac/Service/AuthorizationService.php:228-231 | Loading never removes a role, and once loaded a non-empty guest role is in the container. |
| `Service.LoadKeepsAcyclic` | src/ZfcRbac/Service/AuthorizationService.php:228-233 | If the listeners leave an acyclic hierarchy, adding the guest role keeps it acyclic. |
| `Service.AuthorizationService.IsGranted` | src/ZfcRbac/Service/AuthorizationService.php:167-206 | Result and new state are `IsGrantedStep` of the old state: resolve roles, stop early without roles, load, apply the assertion, then scan the roles. |
| `Service.IsGrantedRejectsNonIdentity` | src/ZfcRbac/Service/AuthorizationService.php:120-125 | A non-identity gives the `InvalidIdentity` error and leaves the state unchanged. |
| `Service.IsGrantedWithoutRoles` | src/ZfcRbac/Service/AuthorizationService.php:169-173 | With no identity roles the check is false before loading: `isLoaded`, the event count and the container are unchanged. |
| `Service.AssertionGate` | src/ZfcRbac/Service/AuthorizationService.php:179-192 | A non-null assertion never gives true. It gives false exactly when a callable or assertion object rejects. Every other case is an `InvalidAssertion` error. |
| `Service.IsGrantedWithAssertion` | src/ZfcRbac/Service/AuthorizationService.php:175-192 | With a non-null assertion the check is never true. With identity roles, loading happens first; then the result is false exactly when the assertion rejects, and an error when it accepts or is invalid. |
| `Service.ScanMeaning` | src/ZfcRbac/Service/AuthorizationService.php:194-205 | The scan is true iff some index i exists where every role up to and including i is known to the container and the container grants role i the permission. |
| `Service.UnknownRoleDenies` | src/ZfcRbac/Service/AuthorizationService.php:195-198 | An unknown role met before any granting role makes the scan false. |
| `Service.IsGrantedMeaning` | src/ZfcRbac/Service/AuthorizationService.php:194-205 | Without an assertion, a check on a non-empty role list loads, and is true iff such an index exists in the loaded container. |
| `Service.IsGrantedForGuest` | src/ZfcRbac/Service/AuthorizationService.php:228-231 | A guest is never refused as an unknown role: the check is exactly whether the container grants the guest role the permission. |
| `Service.IsGrantedRepeatable` | src/ZfcRbac/Service/AuthorizationService.php:217-221 | Without forced reloading, repeating a check gives the same result and state, and the event fires at most once in all. |
| `Service.IsGrantedForcedReload` | src/ZfcRbac/Service/AuthorizationService.php:217-226 | With forced reloading, two checks on a non-empty role list fire the event twice. |
| `Service.Unique` | src/ZfcRbac/Service/AuthorizationService.php:268 | Removing duplicates leaves no duplicates and keeps exactly the same names. |
| `Service.AuthorizationService.FlattenRoles` | src/ZfcRbac/Service/AuthorizationService.php:245-269 | The nested appending loops return `Flattened` of the container and the roles: a role object's name, then the descendants of every role, then `Unique`. A name the container lacks is a `RoleNotFound` error. |
| `Service.FlattenedFailure` | src/ZfcRbac/Service/AuthorizationService.php:253 | Flattening fails iff some role given by name is missing from the container, and the error names the first such role. |
| `Service.FlattenedMembers` | src/ZfcRbac/Service/AuthorizationService.php:245-268 | In an acyclic container a successful flattening has no duplicates. A name is in it iff some role contributes it: a role object contributes its own name and every reachable descendant, a role by name only its reachable descendants. |
| `Service.ContributionMeaning` | src/ZfcRbac/Service/AuthorizationService.php:249-266 | One role's contribution is exactly its own name (role objects only) plus the roles reachable below it. |
| `Service.NamedChildlessRoleAddsNothing` | src/ZfcRbac/Service/AuthorizationService.php:250-258 | A childless role given by name contributes nothing; as an object it contributes just its own name. |
| `Service.AuthorizationService.SatisfyIdentityRoles` | src/ZfcRbac/Service/AuthorizationService.php:142-157 | Result and new state are `SatisfyStep` of the old state. |
| `Service.SatisfyWithoutRoles` | src/ZfcRbac/Service/AuthorizationService.php:146-149 | With no identity roles the check is false and nothing is loaded. |
| `Service.SatisfyMeaning` | src/ZfcRbac/Service/AuthorizationService.php:151-156 | After loading, in an acyclic container and with every named role known, the check is true iff some name is contributed by both the candidates and the identity roles. |
| `Service.NamedLeafRoleDoesNotSatisfyItself` | src/ZfcRbac/Service/AuthorizationService.php:250-256 | For any state, guest role, listeners and role that is childless in the loaded container: a caller holding that role by name does not satisfy a check for it by name (false, after loading), while held and checked as a role object it is satisfied. |
| `RbacContainer.Rbac.AddRole` | src/ZfcRbac/Service/AuthorizationService.php:230 | The role is added with no children and no permissions: the grants lose every pair for that role and keep all others. |
| `RbacContainer.Revoke` | src/ZfcRbac/Service/AuthorizationService.php:230 | The grants of a freshly created role: a subset of the old grants holding no pair for that role and every pair for other roles. |
| `RbacContainer.Rbac.ApplyListeners` | src/ZfcRbac/Service/AuthorizationService.php:223-226 | The container after the event: the listeners' grants are added; a role the listeners name gets the children they give it, replacing its old ones; every other role is kept unchanged. |
| `RbacContainer.AllDescendantsReachable` | src/ZfcRbac/Service/AuthorizationService.php:260-265 | In an acyclic container the recursive self-first walk yields exactly the roles reachable from the role along one or more child edges. |
| `RbacContainer.ChildlessHasNoDescendants` | src/ZfcRbac/Service/AuthorizationService.php:256-258 | A role without children yields no descendants. |
| `RbacContainer.AddRoleKeepsAcyclic` | src/ZfcRbac/Service/AuthorizationService.php:229-230 | Adding a parentless role keeps the hierarchy acyclic. |
| `Role.GetRoles` | src/ZfcRbac/Role/ObjectRepositoryRoleProvider.php:52-71 | The loop returns the fold `Cleaned` of the findAll sequence, and its keys are exactly the names of the role items. The event is not read, so the result depends only on the loaded sequence. |
| `Role.CleanedKeys` | src/ZfcRbac/Role/ObjectRepositoryRoleProvider.php:58-68 | The keys are exactly the names of the role items in the input. |
| `Role.CleanedSkipsNonRoles` | src/ZfcRbac/Role/ObjectRepositoryRoleProvider.php:58-61 | An item that is not a role changes nothing and creates no key. |
| `Role.CleanedAppendsParent` | src/ZfcRbac/Role/ObjectRepositoryRoleProvider.php:63-64 | A role with a parent appends the parent's name to the end of its own entry, keeping earlier entries. No other entry changes. |
| `Role.CleanedResetsParentless` | src/ZfcRbac/Role/ObjectRepositoryRoleProvider.php:65-66 | A parentless role resets its entry to the empty list, dropping parent names recorded earlier. No other entry changes. |
| `Role.CleanedEntry` | src/ZfcRbac/Role/ObjectRepositoryRoleProvider.php:58-68 | A name's entry lists, in order, the parents of the items with that name that come after its last parentless item. |
| `Role.CleanedDistinct` | src/ZfcRbac/Role/ObjectRepositoryRoleProvider.php:63-67 | When role names are pairwise distinct, each entry has at most one name: `[parent]` when the role has a parent, `[]` otherwise. |

## Left out

- Event dispatch (the event manager and `trigger`). The listeners of the "load
  roles" event are a `Listeners` value given to each call. Their effect is to add
  grants and to put roles into the container: a role they name gets the children
  they give it, replacing the children it had. Listeners that remove roles or
  revoke grants are not modelled.
- The Zend `Rbac` container's internals. Permission inheritance is the abstract
  set `grants`. A failed `getRole` is the `RoleNotFound` error. `addRole` on a
  name the container already holds is never reached from the code modelled here.
- Role objects (`RoleInterface` values) are represented by their name. Their
  children are those the container records under that name.
- Cyclic role hierarchies. The source's recursive iterator never ends on a
  cycle. The model's walk stops at a depth equal to the number of roles, and its
  meaning is proved only for acyclic hierarchies.
- The identity provider. The identity is a parameter of each call, and both
  `getIdentity()` calls in `isGranted` are taken to return it.
- An assertion's own evaluation. Its verdict for the current identity is part of
  the `Assertion` value. An object that is both callable and an assertion object
  is not modelled.
- PHP type juggling: a non-string guest role, the `(bool)` cast in
  `setForceReload`, converting a `Traversable` or a single role with `(array)`,
  and numeric-string array keys. Role lists are sequences and names are strings.
- Key order of PHP arrays. `getRoles` returns a map, so the insertion order of its
  keys is not modelled. `array_unique`'s preserved numeric keys are not modelled
  either: the result is a plain list.
- Doctrine `ObjectRepository::findAll`, a database call. Its result is the input
  sequence of `GetRoles`.
- `getRbac` (a plain getter) and the event-manager accessors.
- Concurrent use of the shared `isLoaded` flag. The model is single-threaded.
- `test/Container/ModuleOptionsFactoryTest.php` only checks how the service
  manager wires factories; it is not part of this model.
