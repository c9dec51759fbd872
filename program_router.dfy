/** The Program routes: list, get, create, update and delete, and the
    owner/admin/has_access test that guards the id-addressed ones. */
module ProgramRouter {
  import opened Store
  import opened Programs
  import opened Http

  /** The test the get, update and delete handlers apply to a program they found.
      `or` short-circuits, so `has_access` is consulted only for a caller who
      is neither the owner nor an admin. */
  predicate Authorized(program: ProgramModel, user: User, permission: string, hasAccess: AccessCheck) {
    program.userId == user.id || user.role == "admin" || hasAccess(user.id, permission, program.fields.accessControl)
  }

  /** The prologue of the get, update and delete handlers: the lookup's
      exception propagates; an absent program and a refused caller both get
      the same 404. */
  function Admit(found: Result<Option<ProgramModel>>, user: User, permission: string, hasAccess: AccessCheck)
    : (a: Admission<ProgramModel>)
    ensures a.Admitted? <==> found.Ok? && found.value.Some? && Authorized(found.value.value, user, permission, hasAccess)
    ensures a.Admitted? ==> a.record == found.value.value
    ensures found.Err? ==> a == Refused(Unhandled(found.error))
    ensures found.Ok? && !a.Admitted? ==> a == Refused(NotFound)
  {
    match found
    case Err(e) => Refused(Unhandled(e))
    case Ok(None) => Refused(NotFound)
    case Ok(Some(program)) =>
      if Authorized(program, user, permission, hasAccess) then Admitted(program) else Refused(NotFound)
  }

  /** `GET /`: an admin sees every program; anyone else sees what
      `get_programs_by_user_id` keeps with its default permission, "write". */
  function ListPrograms(programs: ProgramTable, user: User, hasAccess: AccessCheck): (r: Response<seq<ProgramModel>>)
    reads programs
    ensures r.Return? <==> forall i :: 0 <= i < |programs.rows| ==> Validates(programs.rows[i])
    ensures r.Raise? ==> r.failure == Unhandled(ValidationError)
    ensures r.Return? ==> SortedDesc(r.body)
    ensures r.Return? && user.role == "admin" ==> multiset(r.body) == multiset(programs.rows)
    ensures r.Return? && user.role != "admin" ==>
      && IsSubsequence(r.body, programs.GetPrograms().value)
      && (forall i :: 0 <= i < |r.body| ==>
            r.body[i] in programs.rows && Visible(r.body[i], user.id, "write", hasAccess))
      && (forall i :: 0 <= i < |programs.rows| && Visible(programs.rows[i], user.id, "write", hasAccess) ==>
            programs.rows[i] in r.body)
  {
    if user.role == "admin" then Respond(programs.GetPrograms())
    else Respond(programs.GetProgramsByUserId(user.id, hasAccess))
  }

  /** `GET /{id}` */
  function GetProgramById(programs: ProgramTable, id: string, user: User, hasAccess: AccessCheck)
    : (r: Response<ProgramModel>)
    reads programs
    ensures Lookup(programs.rows, id).None? ==> r == Raise(NotFound)
    ensures Lookup(programs.rows, id).Some? ==>
      var program := Lookup(programs.rows, id).value;
      r == if !Validates(program) then Raise(Unhandled(ValidationError))
           else if Authorized(program, user, "read", hasAccess) then Return(program)
           else Raise(NotFound)
  {
    match Admit(programs.GetProgramById(id), user, "read", hasAccess)
    case Admitted(program) => Return(program)
    case Refused(failure) => Raise(failure)
  }

  /** `POST /`: no check beyond a verified caller, who becomes the owner. */
  method CreateProgram(programs: ProgramTable, form: ProgramForm, user: User, id: string, createdNs: nat, updatedNs: nat)
    returns (r: Response<ProgramModel>)
    requires programs.Valid()
    requires Lookup(programs.rows, id).None?
    requires createdNs <= updatedNs
    modifies programs
    ensures programs.Valid()
    ensures form.status.None? ==> r == Raise(Unhandled(ValidationError)) && programs.rows == old(programs.rows)
    ensures form.status.Some? ==>
      && r == Return(Row(id, user.id, form, createdNs, updatedNs))
      && programs.rows == old(programs.rows) + [r.body]
  {
    var program := programs.InsertNewProgram(form, user.id, id, createdNs, updatedNs);
    r := Respond(program);
  }

  /** `PUT /{id}`: the store is updated only for an admitted caller. */
  method UpdateProgram(programs: ProgramTable, id: string, form: ProgramForm, user: User, hasAccess: AccessCheck, nowNs: nat)
    returns (r: Response<Option<ProgramModel>>)
    requires programs.Valid() && programs.NotBefore(nowNs)
    modifies programs
    ensures programs.Valid()
    ensures Lookup(old(programs.rows), id).None? ==> r == Raise(NotFound) && programs.rows == old(programs.rows)
    ensures Lookup(old(programs.rows), id).Some? ==>
      var program := Lookup(old(programs.rows), id).value;
      var updated := program.(fields := form, updatedAt := nowNs);
      if !Validates(program) then
        r == Raise(Unhandled(ValidationError)) && programs.rows == old(programs.rows)
      else if !Authorized(program, user, "write", hasAccess) then
        r == Raise(NotFound) && programs.rows == old(programs.rows)
      else
        && programs.rows == Overwrite(old(programs.rows), id, form, nowNs)
        && Lookup(programs.rows, id) == Some(updated)
        && r == if form.status.Some? then Return(Some(updated)) else Raise(Unhandled(ValidationError))
  {
    match Admit(programs.GetProgramById(id), user, "write", hasAccess)
    case Refused(failure) =>
      r := Raise(failure);
    case Admitted(program) =>
      var updated := programs.UpdateProgramById(id, form, nowNs);
      r := Respond(updated);
  }

  /** `DELETE /{id}`: the row is deleted only for an admitted caller. */
  method DeleteProgram(programs: ProgramTable, id: string, user: User, hasAccess: AccessCheck)
    returns (r: Response<Message>)
    requires programs.Valid()
    modifies programs
    ensures programs.Valid()
    ensures Lookup(old(programs.rows), id).None? ==> r == Raise(NotFound) && programs.rows == old(programs.rows)
    ensures Lookup(old(programs.rows), id).Some? ==>
      var program := Lookup(old(programs.rows), id).value;
      if !Validates(program) then
        r == Raise(Unhandled(ValidationError)) && programs.rows == old(programs.rows)
      else if !Authorized(program, user, "write", hasAccess) then
        r == Raise(NotFound) && programs.rows == old(programs.rows)
      else
        && programs.rows == Remove(old(programs.rows), id)
        && Lookup(programs.rows, id).None?
        && r == Return(Message("Program deleted successfully"))
  {
    match Admit(programs.GetProgramById(id), user, "write", hasAccess)
    case Refused(failure) =>
      r := Raise(failure);
    case Admitted(program) =>
      var _ := programs.DeleteProgramById(id);
      r := Return(Message("Program deleted successfully"));
  }

  // ---------------------------------------------------------------------
  // Properties of the access decision

  /** Owner and admin pass every check, whatever `access_control` holds and whatever `has_access` says. */
  lemma OwnerAndAdminPass(program: ProgramModel, user: User, permission: string, hasAccess: AccessCheck)
    requires program.userId == user.id || user.role == "admin"
    ensures Authorized(program, user, permission, hasAccess)
    ensures forall ac :: Authorized(program.(fields := program.fields.(accessControl := ac)), user, permission, hasAccess)
  {
  }

  /** A caller who is neither owner nor admin passes exactly when `has_access` grants the permission. */
  lemma OthersNeedGrant(program: ProgramModel, user: User, permission: string, hasAccess: AccessCheck)
    requires program.userId != user.id && user.role != "admin"
    ensures Authorized(program, user, permission, hasAccess) <==> hasAccess(user.id, permission, program.fields.accessControl)
  {
  }

  /** The hiding law: for a caller who is refused, a program that exists answers exactly like one that does not. */
  lemma GetHidesRefusal(absent: ProgramTable, present: ProgramTable, id: string, user: User, hasAccess: AccessCheck)
    requires Lookup(absent.rows, id).None?
    requires Lookup(present.rows, id).Some?
    requires Validates(Lookup(present.rows, id).value)
    requires !Authorized(Lookup(present.rows, id).value, user, "read", hasAccess)
    ensures GetProgramById(absent, id, user, hasAccess) == GetProgramById(present, id, user, hasAccess) == Raise(NotFound)
  {
  }

  /** The hiding law fails for a program whose `status` was cleared by an
      update: the lookup raises before the test runs, so a refused caller sees
      the exception where a missing id gives the 404. The get, update and
      delete handlers share the prologue, so all three answer this way. */
  lemma ClearedStatusRevealsProgram(absent: ProgramTable, present: ProgramTable, id: string, user: User,
                                    permission: string, hasAccess: AccessCheck)
    requires Lookup(absent.rows, id).None?
    requires Lookup(present.rows, id).Some?
    requires !Validates(Lookup(present.rows, id).value)
    requires !Authorized(Lookup(present.rows, id).value, user, permission, hasAccess)
    ensures Admit(absent.GetProgramById(id), user, permission, hasAccess) == Refused(NotFound)
    ensures Admit(present.GetProgramById(id), user, permission, hasAccess) == Refused(Unhandled(ValidationError))
    ensures GetProgramById(absent, id, user, hasAccess) == Raise(NotFound)
    ensures GetProgramById(present, id, user, hasAccess) == Raise(Unhandled(ValidationError))
  {
  }

  /** One program whose `status` was cleared makes the listing raise for every
      caller, admin or not, owner of that program or stranger to it:
      `get_programs` validates every row before `get_programs_by_user_id` filters. */
  lemma ClearedStatusBreaksEveryListing(programs: ProgramTable, i: int, user: User, hasAccess: AccessCheck)
    requires 0 <= i < |programs.rows|
    requires !Validates(programs.rows[i])
    ensures ListPrograms(programs, user, hasAccess) == Raise(Unhandled(ValidationError))
  {
  }

  /** A grant of "read" without "write" lets a caller fetch a program by id but
      not see it in the listing, which asks for "write". */
  lemma ReadGrantNotListed(programs: ProgramTable, i: int, user: User, hasAccess: AccessCheck)
    requires 0 <= i < |programs.rows|
    requires WellFormed(programs.rows)
    requires forall j :: 0 <= j < |programs.rows| ==> Validates(programs.rows[j])
    requires user.role != "admin" && programs.rows[i].userId != user.id
    requires hasAccess(user.id, "read", programs.rows[i].fields.accessControl)
    requires !hasAccess(user.id, "write", programs.rows[i].fields.accessControl)
    ensures GetProgramById(programs, programs.rows[i].id, user, hasAccess) == Return(programs.rows[i])
    ensures ListPrograms(programs, user, hasAccess).Return?
    ensures programs.rows[i] !in ListPrograms(programs, user, hasAccess).body
  {
    LookupFindsRow(programs.rows, i);
  }
}
