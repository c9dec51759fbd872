/** The RFQ routes: list, get, create, update and delete, and the
    owner/admin/has_access test that guards the id-addressed ones. */
module RfqRouter {
  import opened Store
  import opened Rfqs
  import opened Http

  /** Reading `rfq.access_control`: `RFQModel` declares no such field, so the read raises. */
  function AccessControlOf(rfq: RfqModel): Result<Option<Dict>> {
    Err(AttributeError("access_control"))
  }

  /** The test the get, update and delete handlers apply to an RFQ they found,
      evaluated left to right with short-circuit `or`: the owner and an admin
      pass before `rfq.access_control` is read; anyone else makes that read
      raise before `has_access` is consulted. */
  function Authorized(rfq: RfqModel, user: User, permission: string, hasAccess: AccessCheck): (r: Result<bool>)
    ensures r == Ok(true) <==> rfq.userId == user.id || user.role == "admin"
    ensures r != Ok(true) ==> r == Err(AttributeError("access_control"))
  {
    if rfq.userId == user.id || user.role == "admin" then Ok(true)
    else
      match AccessControlOf(rfq)
      case Err(e) => Err(e)
      case Ok(accessControl) => Ok(hasAccess(user.id, permission, accessControl))
  }

  /** The prologue of the get, update and delete handlers: an absent RFQ gets
      the 404; a found one is admitted, refused with the 404, or the test raises. */
  function Admit(found: Option<RfqModel>, user: User, permission: string, hasAccess: AccessCheck)
    : (a: Admission<RfqModel>)
    ensures found.None? ==> a == Refused(NotFound)
    ensures found.Some? && (found.value.userId == user.id || user.role == "admin") ==> a == Admitted(found.value)
    ensures found.Some? && found.value.userId != user.id && user.role != "admin" ==>
      a == Refused(Unhandled(AttributeError("access_control")))
  {
    match found
    case None => Refused(NotFound)
    case Some(rfq) =>
      match Authorized(rfq, user, permission, hasAccess)
      case Err(e) => Refused(Unhandled(e))
      case Ok(allowed) => if allowed then Admitted(rfq) else Refused(NotFound)
  }

  /** `GET /list`: an admin sees every RFQ; anyone else sees the RFQs they own. */
  function ListRfqs(rfqs: RfqTable, user: User): (r: seq<RfqModel>)
    reads rfqs
    ensures SortedDesc(r)
    ensures user.role == "admin" ==> multiset(r) == multiset(rfqs.rows)
    ensures user.role != "admin" ==>
      && IsSubsequence(r, rfqs.GetRfqs())
      && (forall i :: 0 <= i < |r| ==> r[i] in rfqs.rows && r[i].userId == user.id)
      && (forall i :: 0 <= i < |rfqs.rows| && rfqs.rows[i].userId == user.id ==> rfqs.rows[i] in r)
  {
    if user.role == "admin" then rfqs.GetRfqs() else rfqs.GetRfqsByUserId(user.id)
  }

  /** `GET /get/{id}` */
  function GetRfqById(rfqs: RfqTable, id: string, user: User, hasAccess: AccessCheck): (r: Response<RfqModel>)
    reads rfqs
    ensures Lookup(rfqs.rows, id).None? ==> r == Raise(NotFound)
    ensures Lookup(rfqs.rows, id).Some? ==>
      var rfq := Lookup(rfqs.rows, id).value;
      r == if rfq.userId == user.id || user.role == "admin" then Return(rfq)
           else Raise(Unhandled(AttributeError("access_control")))
  {
    match Admit(rfqs.GetRfqById(id), user, "read", hasAccess)
    case Admitted(rfq) => Return(rfq)
    case Refused(failure) => Raise(failure)
  }

  /** `POST /add`: no check beyond a verified caller, who becomes the owner. */
  method CreateRfq(rfqs: RfqTable, form: RfqForm, user: User, id: string, createdNs: nat, updatedNs: nat)
    returns (r: Response<RfqModel>)
    requires rfqs.Valid()
    requires Lookup(rfqs.rows, id).None?
    requires createdNs <= updatedNs
    modifies rfqs
    ensures rfqs.Valid()
    ensures r == Return(Row(id, user.id, form, Seconds(createdNs), Seconds(updatedNs)))
    ensures rfqs.rows == old(rfqs.rows) + [r.body]
  {
    var rfq := rfqs.InsertNewRfq(form, user.id, id, createdNs, updatedNs);
    r := Return(rfq);
  }

  /** `PUT /update/{id}`: the store is updated only for the owner or an admin. */
  method UpdateRfq(rfqs: RfqTable, id: string, form: RfqForm, user: User, hasAccess: AccessCheck, nowNs: nat)
    returns (r: Response<Option<RfqModel>>)
    requires rfqs.Valid() && rfqs.NotBefore(nowNs)
    modifies rfqs
    ensures rfqs.Valid()
    ensures Lookup(old(rfqs.rows), id).None? ==> r == Raise(NotFound) && rfqs.rows == old(rfqs.rows)
    ensures Lookup(old(rfqs.rows), id).Some? ==>
      var rfq := Lookup(old(rfqs.rows), id).value;
      var updated := rfq.(fields := form, updatedAt := Seconds(nowNs));
      if rfq.userId == user.id || user.role == "admin" then
        && rfqs.rows == Overwrite(old(rfqs.rows), id, form, Seconds(nowNs))
        && Lookup(rfqs.rows, id) == Some(updated)
        && r == Return(Some(updated))
      else
        r == Raise(Unhandled(AttributeError("access_control"))) && rfqs.rows == old(rfqs.rows)
  {
    match Admit(rfqs.GetRfqById(id), user, "write", hasAccess)
    case Refused(failure) =>
      r := Raise(failure);
    case Admitted(rfq) =>
      var updated := rfqs.UpdateRfqById(id, form, nowNs);
      r := Return(updated);
  }

  /** `DELETE /delete/{id}`: the row is deleted only for the owner or an admin. */
  method DeleteRfq(rfqs: RfqTable, id: string, user: User, hasAccess: AccessCheck) returns (r: Response<Message>)
    requires rfqs.Valid()
    modifies rfqs
    ensures rfqs.Valid()
    ensures Lookup(old(rfqs.rows), id).None? ==> r == Raise(NotFound) && rfqs.rows == old(rfqs.rows)
    ensures Lookup(old(rfqs.rows), id).Some? ==>
      var rfq := Lookup(old(rfqs.rows), id).value;
      if rfq.userId == user.id || user.role == "admin" then
        && rfqs.rows == Remove(old(rfqs.rows), id)
        && Lookup(rfqs.rows, id).None?
        && r == Return(Message("RFQ deleted successfully"))
      else
        r == Raise(Unhandled(AttributeError("access_control"))) && rfqs.rows == old(rfqs.rows)
  {
    match Admit(rfqs.GetRfqById(id), user, "write", hasAccess)
    case Refused(failure) =>
      r := Raise(failure);
    case Admitted(rfq) =>
      var _ := rfqs.DeleteRfqById(id);
      r := Return(Message("RFQ deleted successfully"));
  }

  // ---------------------------------------------------------------------
  // Properties of the access decision

  /** `has_access` never decides anything for RFQs: two different grant
      evaluators give every caller the same answer. */
  lemma GrantsNeverConsulted(rfqs: RfqTable, id: string, user: User, hasAccess: AccessCheck, otherAccess: AccessCheck)
    ensures GetRfqById(rfqs, id, user, hasAccess) == GetRfqById(rfqs, id, user, otherAccess)
    ensures forall permission :: Admit(rfqs.GetRfqById(id), user, permission, hasAccess)
                                 == Admit(rfqs.GetRfqById(id), user, permission, otherAccess)
  {
  }

  /** Unlike the Program routes, a refused caller can tell an RFQ that exists
      from one that does not: the first answers with the 404, the second
      with the exception raised by reading `access_control`. */
  lemma RefusalIsDistinguishable(absent: RfqTable, present: RfqTable, id: string, user: User, hasAccess: AccessCheck)
    requires Lookup(absent.rows, id).None?
    requires Lookup(present.rows, id).Some?
    requires Lookup(present.rows, id).value.userId != user.id && user.role != "admin"
    ensures GetRfqById(absent, id, user, hasAccess) == Raise(NotFound)
    ensures GetRfqById(present, id, user, hasAccess) == Raise(Unhandled(AttributeError("access_control")))
    ensures GetRfqById(absent, id, user, hasAccess) != GetRfqById(present, id, user, hasAccess)
  {
  }
}
