/** The Program store: the `program` table and `ProgramTable`'s six operations.

    The clock is `time.time_ns()`: every operation that stamps a row takes
    the clock readings it makes as parameters, in nanoseconds, and stores
    them unchanged. */
module Programs {
  import opened Store

  /** The columns a client supplies; on insert they are copied into the row
      as they are, and on update they replace the row's columns wholesale. */
  datatype ProgramForm = ProgramForm(
    name: string,
    description: Option<string> := None,
    status: Option<string> := Some("active"),
    properties: Option<Dict> := None,
    summaryFormat: Option<Dict> := None,
    accessControl: Option<Dict> := None)

  /** A stored program: id, owner, timestamps and the form's columns. */
  type ProgramModel = Row<ProgramForm>

  /** Whether pydantic accepts the row as a `ProgramModel`: the form allows a
      missing `status`, the response model does not. */
  predicate Validates(program: ProgramModel) {
    program.fields.status.Some?
  }

  /** The test `get_programs_by_user_id` applies to each row. */
  predicate Visible(program: ProgramModel, userId: string, permission: string, hasAccess: AccessCheck) {
    program.userId == userId || hasAccess(userId, permission, program.fields.accessControl)
  }

  class ProgramTable {
    var rows: seq<ProgramModel>

    ghost predicate Valid()
      reads this
    {
      WellFormed(rows)
    }

    /** The clock reading `now` is not earlier than any timestamp already stored. */
    ghost predicate NotBefore(now: int)
      reads this
    {
      UpdatedNoLaterThan(rows, now)
    }

    constructor ()
      ensures Valid() && rows == []
    {
      rows := [];
    }

    /** `insert_new_program`: `id` is the fresh `uuid4()`, `createdNs` and
        `updatedNs` are the two successive clock readings. */
    method InsertNewProgram(form: ProgramForm, userId: string, id: string, createdNs: nat, updatedNs: nat)
      returns (r: Result<ProgramModel>)
      requires Valid()
      requires Lookup(rows, id).None?
      requires createdNs <= updatedNs
      modifies this
      ensures Valid()
      ensures !form.status.Some? ==> r == Err(ValidationError) && rows == old(rows)
      ensures form.status.Some? ==>
        && r == Ok(Row(id, userId, form, createdNs, updatedNs))
        && rows == old(rows) + [r.value]
      ensures forall other :: other != id ==> Lookup(rows, other) == Lookup(old(rows), other)
    {
      var program := Row(id, userId, form, createdNs, updatedNs);
      if !Validates(program) {
        return Err(ValidationError);
      }
      AppendWellFormed(rows, program);
      forall other | other != id ensures Lookup(rows + [program], other) == Lookup(rows, other) {
        LookupAfterAppend(rows, program, other);
      }
      rows := rows + [program];
      r := Ok(program);
    }

    /** `get_programs`: every row, most recently updated first. */
    function GetPrograms(): (r: Result<seq<ProgramModel>>)
      reads this
      ensures r.Ok? <==> forall i :: 0 <= i < |rows| ==> Validates(rows[i])
      ensures r.Ok? ==> SortedDesc(r.value) && multiset(r.value) == multiset(rows)
      ensures r.Err? ==> r.error == ValidationError
    {
      if forall program | program in rows :: Validates(program) then Ok(OrderByUpdatedDesc(rows))
      else Err(ValidationError)
    }

    /** `get_programs_by_user_id`: the listing filtered to rows the user owns
        or `has_access` grants `permission` on; `permission` is "write" unless
        the caller names another. */
    function GetProgramsByUserId(userId: string, hasAccess: AccessCheck, permission: string := "write")
      : (r: Result<seq<ProgramModel>>)
      reads this
      ensures r.Ok? <==> GetPrograms().Ok?
      ensures r.Ok? ==> IsSubsequence(r.value, GetPrograms().value) && SortedDesc(r.value)
      ensures r.Ok? ==> forall i :: 0 <= i < |r.value| ==>
        r.value[i] in rows && Visible(r.value[i], userId, permission, hasAccess)
      ensures r.Ok? ==> forall i :: 0 <= i < |rows| && Visible(rows[i], userId, permission, hasAccess) ==>
        rows[i] in r.value
    {
      match GetPrograms()
      case Err(e) => Err(e)
      case Ok(programs) =>
        var keep := (program: ProgramModel) => Visible(program, userId, permission, hasAccess);
        FilteredListing(rows, keep);
        Ok(Select(programs, keep))
    }

    /** `get_program_by_id`. */
    function GetProgramById(id: string): (r: Result<Option<ProgramModel>>)
      reads this
      ensures r == Ok(None) <==> Lookup(rows, id).None?
      ensures r.Err? <==> Lookup(rows, id).Some? && !Validates(Lookup(rows, id).value)
      ensures r.Err? ==> r.error == ValidationError
      ensures r.Ok? && r.value.Some? ==> r.value.value in rows && r.value.value.id == id
    {
      match Lookup(rows, id)
      case None => Ok(None)
      case Some(program) => if Validates(program) then Ok(Some(program)) else Err(ValidationError)
    }

    /** `update_program_by_id`: the six form columns are assigned one by one
        and `updated_at` is the clock reading `nowNs`. The row is committed
        before the response model is built, so a form without `status`
        changes the table and then raises. */
    method UpdateProgramById(id: string, form: ProgramForm, nowNs: nat) returns (r: Result<Option<ProgramModel>>)
      requires Valid() && NotBefore(nowNs)
      modifies this
      ensures Valid() && NotBefore(nowNs)
      ensures rows == Overwrite(old(rows), id, form, nowNs)
      ensures Lookup(old(rows), id).None? ==> r == Ok(None) && rows == old(rows)
      ensures Lookup(old(rows), id).Some? ==>
        var updated := Lookup(old(rows), id).value.(fields := form, updatedAt := nowNs);
        && Lookup(rows, id) == Some(updated)
        && r == if form.status.Some? then Ok(Some(updated)) else Err(ValidationError)
      ensures forall other :: other != id ==> Lookup(rows, other) == Lookup(old(rows), other)
    {
      var k := IndexOf(rows, id);
      if k < 0 {
        return Ok(None);
      }
      var program := rows[k];
      program := program.(fields := program.fields.(name := form.name));
      program := program.(fields := program.fields.(description := form.description));
      program := program.(fields := program.fields.(status := form.status));
      program := program.(fields := program.fields.(properties := form.properties));
      program := program.(fields := program.fields.(summaryFormat := form.summaryFormat));
      program := program.(fields := program.fields.(accessControl := form.accessControl));
      program := program.(updatedAt := nowNs);
      OverwriteWellFormed(rows, id, form, nowNs);
      forall other ensures Lookup(Overwrite(rows, id, form, nowNs), other) ==
        if other != id then Lookup(rows, other) else Some(program)
      {
        LookupAfterOverwrite(rows, id, form, nowNs, other);
      }
      rows := rows[k := program];
      r := if Validates(program) then Ok(Some(program)) else Err(ValidationError);
    }

    /** `delete_program_by_id`: reports success whether or not a row had the key. */
    method DeleteProgramById(id: string) returns (deleted: bool)
      requires Valid()
      modifies this
      ensures Valid()
      ensures deleted
      ensures rows == Remove(old(rows), id)
      ensures Lookup(rows, id).None?
      ensures forall other :: other != id ==> Lookup(rows, other) == Lookup(old(rows), other)
    {
      RemoveWellFormed(rows, id);
      forall other ensures Lookup(Remove(rows, id), other) == if other == id then None else Lookup(rows, other) {
        LookupAfterRemove(rows, id, other);
      }
      rows := Remove(rows, id);
      deleted := true;
    }
  }

  /** The owner always finds their programs in the filtered listing, whatever
      their `access_control` holds, whatever `has_access` says and whichever
      permission is asked for. */
  lemma OwnProgramsListed(programs: ProgramTable, userId: string, hasAccess: AccessCheck, permission: string, i: int)
    requires programs.GetPrograms().Ok?
    requires 0 <= i < |programs.rows| && programs.rows[i].userId == userId
    ensures programs.rows[i] in programs.GetProgramsByUserId(userId, hasAccess, permission).value
  {
  }
}
