/** The RFQ store: the `rfq` table and `RFQTable`'s six operations.

    The clock is `int(time.time())`, whole seconds: every operation that
    stamps a row takes the clock readings it makes as parameters, in
    nanoseconds like the Program store's, and stores them truncated to
    seconds. */
module Rfqs {
  import opened Store

  /** The columns a client supplies. */
  datatype RfqForm = RfqForm(title: string, description: Option<string> := None)

  /** A stored RFQ: id, owner, timestamps, title and description. It has no
      `access_control` column. */
  type RfqModel = Row<RfqForm>

  /** `int(time.time())` for the clock reading `ns` nanoseconds after the epoch. */
  function Seconds(ns: nat): (s: nat)
    ensures s * 1_000_000_000 <= ns < (s + 1) * 1_000_000_000
  {
    ns / 1_000_000_000
  }

  /** Truncation to seconds never reverses the order of two clock readings. */
  lemma SecondsMonotone(a: nat, b: nat)
    requires a <= b
    ensures Seconds(a) <= Seconds(b)
  {
  }

  class RfqTable {
    var rows: seq<RfqModel>

    ghost predicate Valid()
      reads this
    {
      WellFormed(rows)
    }

    /** The clock reading `nowNs` is not earlier than any timestamp already stored. */
    ghost predicate NotBefore(nowNs: nat)
      reads this
    {
      UpdatedNoLaterThan(rows, Seconds(nowNs))
    }

    constructor ()
      ensures Valid() && rows == []
    {
      rows := [];
    }

    /** `insert_new_rfq`: `id` is the fresh `uuid4()`, `createdNs` and
        `updatedNs` are the two successive clock readings. */
    method InsertNewRfq(form: RfqForm, userId: string, id: string, createdNs: nat, updatedNs: nat)
      returns (rfq: RfqModel)
      requires Valid()
      requires Lookup(rows, id).None?
      requires createdNs <= updatedNs
      modifies this
      ensures Valid()
      ensures rfq == Row(id, userId, form, Seconds(createdNs), Seconds(updatedNs))
      ensures rows == old(rows) + [rfq]
      ensures forall other :: other != id ==> Lookup(rows, other) == Lookup(old(rows), other)
    {
      rfq := Row(id, userId, RfqForm(title := form.title, description := form.description),
                 Seconds(createdNs), Seconds(updatedNs));
      SecondsMonotone(createdNs, updatedNs);
      AppendWellFormed(rows, rfq);
      forall other | other != id ensures Lookup(rows + [rfq], other) == Lookup(rows, other) {
        LookupAfterAppend(rows, rfq, other);
      }
      rows := rows + [rfq];
    }

    /** `get_rfqs`: every row, most recently updated first. */
    function GetRfqs(): (r: seq<RfqModel>)
      reads this
      ensures SortedDesc(r)
      ensures multiset(r) == multiset(rows)
    {
      OrderByUpdatedDesc(rows)
    }

    /** `get_rfqs_by_user_id`: the listing filtered to the rows the user owns. */
    function GetRfqsByUserId(userId: string): (r: seq<RfqModel>)
      reads this
      ensures IsSubsequence(r, GetRfqs()) && SortedDesc(r)
      ensures forall i :: 0 <= i < |r| ==> r[i] in rows && r[i].userId == userId
      ensures forall i :: 0 <= i < |rows| && rows[i].userId == userId ==> rows[i] in r
    {
      var keep := (rfq: RfqModel) => rfq.userId == userId;
      FilteredListing(rows, keep);
      Select(GetRfqs(), keep)
    }

    /** `get_rfq_by_id`. */
    function GetRfqById(id: string): (r: Option<RfqModel>)
      reads this
      ensures r.None? <==> forall i :: 0 <= i < |rows| ==> rows[i].id != id
      ensures r.Some? ==> r.value in rows && r.value.id == id
    {
      Lookup(rows, id)
    }

    /** `update_rfq_by_id`: title and description come from the form and
        `updated_at` is the clock reading `nowNs` in seconds. */
    method UpdateRfqById(id: string, form: RfqForm, nowNs: nat) returns (r: Option<RfqModel>)
      requires Valid() && NotBefore(nowNs)
      modifies this
      ensures Valid() && NotBefore(nowNs)
      ensures rows == Overwrite(old(rows), id, form, Seconds(nowNs))
      ensures Lookup(old(rows), id).None? ==> r.None? && rows == old(rows)
      ensures Lookup(old(rows), id).Some? ==>
        var updated := Lookup(old(rows), id).value.(fields := form, updatedAt := Seconds(nowNs));
        Lookup(rows, id) == Some(updated) && r == Some(updated)
      ensures forall other :: other != id ==> Lookup(rows, other) == Lookup(old(rows), other)
    {
      var k := IndexOf(rows, id);
      if k < 0 {
        return None;
      }
      var rfq := rows[k];
      rfq := rfq.(fields := rfq.fields.(title := form.title));
      rfq := rfq.(fields := rfq.fields.(description := form.description));
      rfq := rfq.(updatedAt := Seconds(nowNs));
      OverwriteWellFormed(rows, id, form, Seconds(nowNs));
      forall other ensures Lookup(Overwrite(rows, id, form, Seconds(nowNs)), other) ==
        if other != id then Lookup(rows, other) else Some(rfq)
      {
        LookupAfterOverwrite(rows, id, form, Seconds(nowNs), other);
      }
      rows := rows[k := rfq];
      r := Some(rfq);
    }

    /** `delete_rfq_by_id`: reports success whether or not a row had the key. */
    method DeleteRfqById(id: string) returns (deleted: bool)
      requires Valid()
      modifies this
      ensures Valid()
      ensures deleted
      ensures rows == Remove(old(rows), id)
      ensures Lookup(rows, id).None?
      ensures forall other :: other != id ==> Lookup(rows, other) == Lookup(old(rows), other)
    {
      RemoveWellFormed(rows, id);
      forall other ensures Lookup(Remove(rows, id), other) == if other == id then None else Lookup(rows, other) {
        LookupAfterRemove(rows, id, other);
      }
      rows := Remove(rows, id);
      deleted := true;
    }
  }
}
