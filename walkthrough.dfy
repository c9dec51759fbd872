/** Client code that drives the routers through a resource's life and checks,
    from the handlers' contracts alone, what each request answers. */
module Walkthrough {
  import opened Store
  import opened Programs
  import opened Rfqs
  import opened Http
  import ProgramRouter
  import RfqRouter

  /** A owns P1; B is granted "read" but never "write". */
  method ProgramLifecycle() {
    var programs := new ProgramTable();
    var a, b := User("A", "user"), User("B", "user");
    var grant: Dict := map["read" := JArray([JString("B")])];
    var hasAccess: AccessCheck := (uid, permission, ac) => uid == "B" && permission == "read" && ac == Some(grant);

    var created := ProgramRouter.CreateProgram(programs, ProgramForm("P1"), a, "p1", 10, 11);
    assert created.Return? && created.body.userId == "A";
    assert ProgramRouter.GetProgramById(programs, "p1", a, hasAccess) == created;
    assert ProgramRouter.GetProgramById(programs, "p1", b, hasAccess) == Raise(NotFound);

    var shared := ProgramRouter.UpdateProgram(programs, "p1", ProgramForm("P1", accessControl := Some(grant)), a, hasAccess, 20);
    assert shared.Return?;
    assert ProgramRouter.GetProgramById(programs, "p1", b, hasAccess).Return?;
    var listing := ProgramRouter.ListPrograms(programs, b, hasAccess);
    assert listing.Return? && listing.body == [];

    var hijack := ProgramRouter.UpdateProgram(programs, "p1", ProgramForm("P2"), b, hasAccess, 30);
    assert hijack == Raise(NotFound);

    var renamed := ProgramRouter.UpdateProgram(programs, "p1", ProgramForm("P1-renamed", accessControl := Some(grant)), a, hasAccess, 40);
    assert renamed.Return? && renamed.body.Some?;
    assert renamed.body.value.fields.name == "P1-renamed" && renamed.body.value.updatedAt > created.body.updatedAt;

    var deleted := ProgramRouter.DeleteProgram(programs, "p1", a, hasAccess);
    assert deleted == Return(Message("Program deleted successfully"));
    assert ProgramRouter.GetProgramById(programs, "p1", a, hasAccess) == Raise(NotFound);
    var again := ProgramRouter.DeleteProgram(programs, "p1", a, hasAccess);
    assert again == Raise(NotFound);
  }

  /** A form without `status` is stored by an update, after which the program
      can no longer be read and nobody's listing succeeds. */
  method ProgramWithoutStatus() {
    var programs := new ProgramTable();
    var a, c, admin := User("A", "user"), User("C", "user"), User("D", "admin");
    var hasAccess: AccessCheck := (uid, permission, ac) => false;
    var created := ProgramRouter.CreateProgram(programs, ProgramForm("P1"), a, "p1", 10, 10);
    var cleared := ProgramRouter.UpdateProgram(programs, "p1", ProgramForm("P1", status := None), a, hasAccess, 20);
    assert cleared == Raise(Unhandled(ValidationError));
    assert Lookup(programs.rows, "p1").Some?;
    assert ProgramRouter.GetProgramById(programs, "p1", a, hasAccess) == Raise(Unhandled(ValidationError));
    assert ProgramRouter.ListPrograms(programs, a, hasAccess) == Raise(Unhandled(ValidationError));
    var other := ProgramRouter.CreateProgram(programs, ProgramForm("P2"), c, "p2", 30, 30);
    assert other.Return?;
    assert ProgramRouter.ListPrograms(programs, c, hasAccess) == Raise(Unhandled(ValidationError));
    assert ProgramRouter.ListPrograms(programs, admin, hasAccess) == Raise(Unhandled(ValidationError));
  }

  /** A owns R1; B, neither owner nor admin, makes the handlers raise. */
  method RfqLifecycle() {
    var rfqs := new RfqTable();
    var a, b, admin := User("A", "user"), User("B", "user"), User("C", "admin");
    var hasAccess: AccessCheck := (uid, permission, ac) => true;

    var created := RfqRouter.CreateRfq(rfqs, RfqForm("R1"), a, "r1", 1_500_000_000, 2_500_000_000);
    assert created.body.createdAt == 1 && created.body.updatedAt == 2;
    assert RfqRouter.GetRfqById(rfqs, "r1", b, hasAccess) == Raise(Unhandled(AttributeError("access_control")));
    assert RfqRouter.ListRfqs(rfqs, b) == [];

    var denied := RfqRouter.DeleteRfq(rfqs, "r1", b, hasAccess);
    assert denied == Raise(Unhandled(AttributeError("access_control")));
    assert Lookup(rfqs.rows, "r1").Some?;

    var deleted := RfqRouter.DeleteRfq(rfqs, "r1", admin, hasAccess);
    assert deleted == Return(Message("RFQ deleted successfully"));
    assert rfqs.rows == [];
  }
}
