/** Account management by staff.  An Admin is unrestricted; an Empleado may
    only create, edit and delete Cliente accounts and may only give the
    Cliente role. */
module Users {
  import opened Models

  /** The bound fields of the create and edit forms; create ignores `id`. */
  datatype UserForm = UserForm(
    id: int,
    name: string,
    email: string,
    password: string,
    role: UserRole)

  /** The edit page: the stored user and the roles its role list offers. */
  datatype EditView = EditView(user: User, roles: set<UserRole>)

  /** The roles the create and edit forms offer the caller. */
  function RolesOffered(caller: UserRole): (roles: set<UserRole>)
    ensures Cliente in roles
    ensures caller == Empleado ==> roles == {Cliente}
    ensures caller != Empleado ==> Admin in roles && Empleado in roles
  {
    if caller == Empleado then {Cliente} else {Admin, Empleado, Cliente}
  }

  /** Whether the caller may open, change or delete the account of a user
      whose stored role is `target`. */
  function MayManage(caller: UserRole, target: UserRole): (may: bool)
    ensures caller != Empleado ==> may
    ensures caller == Empleado ==> (may <==> target == Cliente)
  {
    !(caller == Empleado && (target == Admin || target == Empleado))
  }

  /** The role check of the create and edit forms, reported as `error`. */
  function RoleErrors(caller: UserRole, role: UserRole, error: ModelError): (errors: seq<ModelError>)
    ensures errors == [] <==> role in RolesOffered(caller)
    ensures errors != [] ==> errors == [error]
  {
    if caller == Empleado && role != Cliente then
      [error]
    else
      assert role == Admin || role == Empleado || role == Cliente;
      []
  }

  /** The accounts an Empleado must never touch. */
  function StaffAccounts(users: map<int, User>): (staff: map<int, User>)
    ensures forall k :: k in staff <==> k in users && users[k].role != Cliente
    ensures forall k :: k in staff ==> staff[k] == users[k]
  {
    map k | k in users && users[k].role != Cliente :: users[k]
  }

  /** The create form (POST); `newId` is the identity the database gives the
      new account. */
  function CreateUser(s: Store, caller: UserRole, form: UserForm, bindingValid: bool, newId: int, now: Time): (r: Response)
    requires newId !in s.users
    ensures !r.status.Ok? ==> r.store == s
    ensures !IsStaff(caller) ==> r.status == AccessDenied
    ensures IsStaff(caller) ==> (r.status.Ok? <==> bindingValid && form.role in RolesOffered(caller))
    ensures IsStaff(caller) && !r.status.Ok? ==>
              && r.status.Invalid?
              && (RoleNotCreatable in r.status.errors <==> caller == Empleado && form.role != Cliente)
    ensures IsStaff(caller) && !r.status.Ok? ==> r.status == Invalid(RoleErrors(caller, form.role, RoleNotCreatable))
    ensures r.status.Ok? ==>
              && r.store.products == s.products
              && r.store.orders == s.orders
              && r.store.users.Keys == s.users.Keys + {newId}
              && (forall k :: k in s.users ==> r.store.users[k] == s.users[k])
              && r.store.users[newId] == User(newId, form.name, form.email, form.password, form.role, now, None)
  {
    if !IsStaff(caller) then
      Response(s, AccessDenied)
    else
      var errors := RoleErrors(caller, form.role, RoleNotCreatable);
      if !bindingValid || errors != [] then
        Response(s, Invalid(errors))
      else
        var u := User(newId, form.name, form.email, form.password, form.role, now, None);
        Response(s.(users := s.users[newId := u]), Ok([]))
  }

  /** The edit page (GET). */
  function EditUserPage(s: Store, caller: UserRole, id: Option<int>): (p: Page<EditView>)
    ensures !IsStaff(caller) ==> p == PageAccessDenied
    ensures IsStaff(caller) ==> (p.PageNotFound? <==> id.None? || id.value !in s.users)
    ensures IsStaff(caller) && id.Some? && id.value in s.users ==>
              (p.PageAccessDenied? <==> !MayManage(caller, s.users[id.value].role))
    ensures p.Shown? ==>
              && id.Some? && id.value in s.users
              && p.content == EditView(s.users[id.value], RolesOffered(caller))
  {
    if !IsStaff(caller) then
      PageAccessDenied
    else if id.None? || id.value !in s.users then
      PageNotFound
    else if !MayManage(caller, s.users[id.value].role) then
      PageAccessDenied
    else
      Shown(EditView(s.users[id.value], RolesOffered(caller)))
  }

  /** The edit form (POST).  The stored creation time is kept and the update
      time set; an account missing from the store surfaces as a concurrency
      failure on update, which the action turns into NotFound.  An edit
      posted with the unset key (an absent id binds to it) is not an update
      at all: Entity Framework inserts the account under `newId`, the
      identity the database gives it, with the creation time set when the
      form was bound. */
  function EditUser(
    s: Store, caller: UserRole, id: int, form: UserForm, bindingValid: bool, newId: int, now: Time): (r: Response)
    requires newId !in s.users
    ensures !r.status.Ok? ==> r.store == s
    ensures !IsStaff(caller) ==> r.status == AccessDenied
    ensures IsStaff(caller) && id != form.id ==> r.status == NotFound
    ensures IsStaff(caller) && id == form.id && id in s.users && !MayManage(caller, s.users[id].role) ==>
              r.status == AccessDenied
    ensures IsStaff(caller) && id == form.id && !(id in s.users && !MayManage(caller, s.users[id].role)) ==>
              && (form.role !in RolesOffered(caller) ==> r.status == Invalid([RoleNotAssignable]))
              && (r.status.Ok? <==> bindingValid && form.role in RolesOffered(caller) && (id == UNSET_ID || id in s.users))
              && (!(bindingValid && form.role in RolesOffered(caller)) ==>
                    r.status == Invalid(RoleErrors(caller, form.role, RoleNotAssignable)))
              && (bindingValid && form.role in RolesOffered(caller) && id != UNSET_ID && id !in s.users ==>
                    r.status == NotFound)
    ensures r.status.Ok? && id == UNSET_ID ==>
              && r.store.products == s.products
              && r.store.orders == s.orders
              && r.store.users.Keys == s.users.Keys + {newId}
              && (forall k :: k in s.users ==> r.store.users[k] == s.users[k])
              && r.store.users[newId] ==
                   User(newId, form.name, form.email, form.password, form.role,
                        if UNSET_ID in s.users then s.users[UNSET_ID].createdAt else now, Some(now))
    ensures r.status.Ok? && id != UNSET_ID ==> id in s.users && id in r.store.users
    ensures r.status.Ok? && id != UNSET_ID ==>
              var u := r.store.users[id];
              && r.store.products == s.products
              && r.store.orders == s.orders
              && r.store.users.Keys == s.users.Keys
              && (forall k :: k in s.users && k != id ==> r.store.users[k] == s.users[k])
              && u.createdAt == s.users[id].createdAt
              && u.updatedAt == Some(now)
              && u == User(id, form.name, form.email, form.password, form.role, u.createdAt, u.updatedAt)
  {
    if !IsStaff(caller) then
      Response(s, AccessDenied)
    else if id != form.id then
      Response(s, NotFound)
    else if id in s.users && !MayManage(caller, s.users[id].role) then
      Response(s, AccessDenied)
    else
      var errors := RoleErrors(caller, form.role, RoleNotAssignable);
      if !bindingValid || errors != [] then
        Response(s, Invalid(errors))
      else if id == UNSET_ID then
        var created := if id in s.users then s.users[id].createdAt else now;
        var u := User(newId, form.name, form.email, form.password, form.role, created, Some(now));
        Response(s.(users := s.users[newId := u]), Ok([]))
      else if id !in s.users then
        Response(s, NotFound)
      else
        var u := User(id, form.name, form.email, form.password, form.role, s.users[id].createdAt, Some(now));
        Response(s.(users := s.users[id := u]), Ok([]))
  }

  /** The delete confirmation page (GET). */
  function DeleteUserPage(s: Store, caller: UserRole, id: Option<int>): (p: Page<User>)
    ensures !IsStaff(caller) ==> p == PageAccessDenied
    ensures IsStaff(caller) ==> (p.PageNotFound? <==> id.None? || id.value !in s.users)
    ensures IsStaff(caller) && id.Some? && id.value in s.users ==>
              (p.PageAccessDenied? <==> !MayManage(caller, s.users[id.value].role))
    ensures p.Shown? ==> id.Some? && id.value in s.users && p.content == s.users[id.value]
  {
    if !IsStaff(caller) then
      PageAccessDenied
    else if id.None? || id.value !in s.users then
      PageNotFound
    else if !MayManage(caller, s.users[id.value].role) then
      PageAccessDenied
    else
      Shown(s.users[id.value])
  }

  /** The delete confirmation (POST). */
  function DeleteUser(s: Store, caller: UserRole, id: int): (r: Response)
    ensures !r.status.Ok? ==> r.store == s
    ensures !IsStaff(caller) ==> r.status == AccessDenied
    ensures IsStaff(caller) ==> (r.status == NotFound <==> id !in s.users)
    ensures IsStaff(caller) && id in s.users ==>
              (r.status == AccessDenied <==> !MayManage(caller, s.users[id].role))
    ensures IsStaff(caller) && id in s.users && MayManage(caller, s.users[id].role) ==> r.status == Ok([])
    ensures r.status.Ok? ==>
              && r.store.products == s.products
              && r.store.orders == s.orders
              && r.store.users.Keys == s.users.Keys - {id}
              && forall k :: k in r.store.users ==> r.store.users[k] == s.users[k]
  {
    if !IsStaff(caller) then
      Response(s, AccessDenied)
    else if id !in s.users then
      Response(s, NotFound)
    else if !MayManage(caller, s.users[id].role) then
      Response(s, AccessDenied)
    else
      Response(s.(users := s.users - {id}), Ok([]))
  }

  /** The role list the forms offer and the role check of the create form
      agree: a role is accepted exactly when it is offered, so an Empleado is
      held to Cliente and an Admin may create any role. */
  lemma OfferedRolesAreCreatable(s: Store, caller: UserRole, form: UserForm, newId: int, now: Time)
    requires newId !in s.users && IsStaff(caller)
    ensures CreateUser(s, caller, form, true, newId, now).status.Ok? <==> form.role in RolesOffered(caller)
    ensures caller == Admin ==> CreateUser(s, caller, form, true, newId, now).status.Ok?
  {
  }

  /** The confirmation page and the confirmation agree on every stored
      account: the page is shown exactly when the delete goes through. */
  lemma DeletePageAgreesWithDelete(s: Store, caller: UserRole, id: int)
    requires IsStaff(caller)
    ensures DeleteUserPage(s, caller, Some(id)).Shown? <==> DeleteUser(s, caller, id).status.Ok?
    ensures DeleteUserPage(s, caller, Some(id)).PageAccessDenied? <==> DeleteUser(s, caller, id).status == AccessDenied
  {
  }

  /** The edit page refuses exactly the stored accounts that the edit form
      refuses. */
  lemma EditPageAgreesWithEdit(
    s: Store, caller: UserRole, id: int, form: UserForm, bindingValid: bool, newId: int, now: Time)
    requires newId !in s.users
    requires IsStaff(caller) && form.id == id && id in s.users
    ensures EditUserPage(s, caller, Some(id)).PageAccessDenied? <==>
              EditUser(s, caller, id, form, bindingValid, newId, now).status == AccessDenied
  {
  }

  /** Whatever an Empleado creates, edits or deletes, the Admin and Empleado
      accounts stay exactly as they were. */
  lemma EmpleadoCreateKeepsStaffAccounts(s: Store, form: UserForm, bindingValid: bool, newId: int, now: Time)
    requires newId !in s.users
    ensures StaffAccounts(CreateUser(s, Empleado, form, bindingValid, newId, now).store.users) == StaffAccounts(s.users)
  {
    var r := CreateUser(s, Empleado, form, bindingValid, newId, now);
    SameStaffAccounts(s.users, r.store.users);
  }

  lemma EmpleadoEditKeepsStaffAccounts(s: Store, id: int, form: UserForm, bindingValid: bool, newId: int, now: Time)
    requires newId !in s.users
    ensures StaffAccounts(EditUser(s, Empleado, id, form, bindingValid, newId, now).store.users) == StaffAccounts(s.users)
  {
    var r := EditUser(s, Empleado, id, form, bindingValid, newId, now);
    SameStaffAccounts(s.users, r.store.users);
  }

  /** Editing with the unset key creates the account the create form would,
      except that it is stamped as updated as well and the role check reports
      `RoleNotAssignable`. */
  lemma EditWithUnsetKeyCreates(s: Store, caller: UserRole, form: UserForm, bindingValid: bool, newId: int, now: Time)
    requires newId !in s.users && UNSET_ID !in s.users && form.id == UNSET_ID
    ensures var e := EditUser(s, caller, UNSET_ID, form, bindingValid, newId, now);
            var c := CreateUser(s, caller, form, bindingValid, newId, now);
            && (e.status.Ok? <==> c.status.Ok?)
            && e.status.Invalid? == c.status.Invalid?
            && (e.status.Ok? ==>
                  e.store == c.store.(users := c.store.users[newId := c.store.users[newId].(updatedAt := Some(now))]))
  {
  }

  lemma EmpleadoDeleteKeepsStaffAccounts(s: Store, id: int)
    ensures StaffAccounts(DeleteUser(s, Empleado, id).store.users) == StaffAccounts(s.users)
  {
    var r := DeleteUser(s, Empleado, id);
    SameStaffAccounts(s.users, r.store.users);
  }

  /** Two account maps that agree on every Admin and Empleado account, in
      both directions, have the same staff accounts. */
  lemma SameStaffAccounts(before: map<int, User>, after: map<int, User>)
    requires forall k :: k in before && before[k].role != Cliente ==> k in after && after[k] == before[k]
    requires forall k :: k in after && after[k].role != Cliente ==> k in before && before[k] == after[k]
    ensures StaffAccounts(after) == StaffAccounts(before)
  {
    var a := StaffAccounts(after);
    var b := StaffAccounts(before);
    forall k
      ensures k in a <==> k in b
    {
      if k in after && after[k].role != Cliente {
        assert k in before && before[k].role != Cliente;
      }
      if k in before && before[k].role != Cliente {
        assert k in after && after[k].role != Cliente;
      }
    }
    assert a.Keys == b.Keys;
    forall k | k in a
      ensures a[k] == b[k]
    {
    }
  }

  /** An account can always be deleted by whoever just created it, which
      gives back the store the create started from. */
  lemma CreateThenDeleteUser(s: Store, caller: UserRole, form: UserForm, bindingValid: bool, newId: int, now: Time)
    requires newId !in s.users
    requires CreateUser(s, caller, form, bindingValid, newId, now).status.Ok?
    ensures DeleteUser(CreateUser(s, caller, form, bindingValid, newId, now).store, caller, newId).status.Ok?
    ensures DeleteUser(CreateUser(s, caller, form, bindingValid, newId, now).store, caller, newId).store == s
  {
    var s1 := CreateUser(s, caller, form, bindingValid, newId, now).store;
    var s2 := DeleteUser(s1, caller, newId).store;
    assert s2.users == s.users;
  }

  lemma CreateUserPreservesConsistency(s: Store, caller: UserRole, form: UserForm, bindingValid: bool, newId: int, now: Time)
    requires newId !in s.users
    requires Consistent(s)
    ensures Consistent(CreateUser(s, caller, form, bindingValid, newId, now).store)
  {
  }

  lemma EditUserPreservesConsistency(
    s: Store, caller: UserRole, id: int, form: UserForm, bindingValid: bool, newId: int, now: Time)
    requires newId !in s.users
    requires Consistent(s)
    ensures Consistent(EditUser(s, caller, id, form, bindingValid, newId, now).store)
  {
  }

  lemma DeleteUserPreservesConsistency(s: Store, caller: UserRole, id: int)
    requires Consistent(s)
    ensures Consistent(DeleteUser(s, caller, id).store)
  {
  }
}
