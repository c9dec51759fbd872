# Program and RFQ stores with ownership-scoped access

This project models two near-identical CRUD resources of a web backend,
Program and RFQ. For each one it models:

- the table class (`ProgramTable`, `RFQTable`) with its six operations:
  insert, list all, list by user, get by id, update by id, delete by id;
- the five route handlers (list, get, create, update, delete);
- the access test that guards get, update and delete:
  owner, or role `"admin"`, or `has_access(user, permission, access_control)`.

Modules:

- `Store`: the row shape shared by both tables (id, owner, two timestamps,
  and the columns copied from the form) and the table as a sequence of rows
  with unique ids. It also holds the pure functions the stores are specified
  by: the point lookup, `ORDER BY updated_at DESC`, the list-comprehension
  filter, the overwrite and the delete. Lemmas say what each mutation does
  to every point lookup.
- `Programs` and `Rfqs`: the two table classes. Their mutating methods
  reassign the `rows` field; their queries are functions that read it.
- `Http`: the caller (`id`, `role`), the `HTTPException(404, NOT_FOUND)`
  answer and the shape of a handler's response.
- `ProgramRouter` and `RfqRouter`: the handlers, the shared
  "look up, then authorize" prologue, and lemmas about the access decision.
- `Walkthrough`: client code that drives both routers through a
  resource's life and checks, from the contracts alone, what each request
  answers.

Behaviour the model keeps as the code has it:

- **Program listing asks for "write".** A non-admin caller lists programs
  through `get_programs_by_user_id` with its default permission, `"write"`.
  So a program shared with "read" only can be fetched by id but is not
  listed (`ProgramRouter.ReadGrantNotListed`).
- **RFQs have no `access_control`.** The RFQ router reads
  `rfq.access_control` once the owner and admin tests fail, and `RFQModel`
  declares no such field. For any other caller the read raises
  `AttributeError`, so `has_access` is never consulted. Such a caller gets
  an unhandled exception, not the 404, and can tell an existing RFQ from a
  missing one (`RfqRouter.RefusalIsDistinguishable`).
- **A Program `status` of `None`.** `ProgramForm.status` is optional, but
  `ProgramModel.status` is a plain string:
  - Inserting such a form raises `ValidationError` and stores nothing.
  - Updating with it commits the `NULL` first and then raises.
  - From then on every read of that row raises, and so does every listing,
    by any caller: `get_programs` validates every row before
    `get_programs_by_user_id` filters, so one program with its status
    cleared by its owner makes `GET /` raise for admins and strangers alike
    (`ProgramRouter.ClearedStatusBreaksEveryListing`,
    `Walkthrough.ProgramWithoutStatus`).
  - The get, update and delete handlers look the program up before the
    owner/admin/has_access test, so for such a row every caller, refused
    or not, gets the unhandled `ValidationError` where a missing id gets
    the 404: the row's existence shows through
    (`ProgramRouter.ClearedStatusRevealsProgram`).
- **Delete always reports success at the store level.** At the handler
  level a second delete of the same id answers 404, because the handler
  looks the id up first.
- **Timestamp units differ.** Both stores take clock readings in
  nanoseconds. Program stores them as they are (`time.time_ns()`). RFQ
  stores whole seconds (`int(time.time())`), modelled as the reading
  divided by 10^9.

## Model

| member | source | states |
|---|---|---|
| Store.IndexOf | backend/open_webui/models/program.py:107 | the position found holds the key and no earlier row has it; -1 only when no row has the key |
| Store.Lookup | backend/open_webui/models/program.py:105-108 | the lookup finds a row exactly when some row has the key, and the row it finds is in the table and has the key |
| Store.LookupFindsRow | backend/open_webui/models/rfq.py:62-65 | with unique keys, the lookup of a row's key returns that row |
| Store.OrderByUpdatedDesc | backend/open_webui/models/program.py:89-92 | the listing is sorted by `updated_at`, newest first, and is a permutation of the table |
| Store.Select | backend/open_webui/models/program.py:98-103 | the comprehension keeps exactly the rows that pass the test, each from the input, in the input's order (a subsequence) |
| Store.SelectKeepsOrder | backend/open_webui/models/rfq.py:58-60 | filtering a sorted listing leaves it sorted |
| Store.SelectKeepsUniqueIds | backend/open_webui/models/rfq.py:80 | filtering a table with unique keys leaves the keys unique |
| Store.FilteredListing | backend/open_webui/models/program.py:94-103 | the filtered listing is sorted and holds exactly the table's rows that pass the test |
| Store.SelectIdempotent | backend/open_webui/models/rfq.py:78-82 | applying a filter twice gives what applying it once gives |
| Store.RemoveIdempotent | backend/open_webui/models/program.py:127-131 | deleting an id twice leaves the same table as deleting it once |
| Store.LookupAfterRemove | backend/open_webui/models/program.py:127-131 | after a delete no row has the id, and every other id finds the row it found before |
| Store.LookupAfterOverwrite | backend/open_webui/models/program.py:110-125 | after an update the id finds its row with the new form columns and time, and every other id finds the row it found before; an absent id stays absent |
| Store.LookupAfterAppend | backend/open_webui/models/program.py:67-87 | after inserting a fresh id, that id finds the new row and every other id finds the row it found before |
| Store.AppendWellFormed | backend/open_webui/models/program.py:73-86 | inserting a row with a fresh id and `created_at <= updated_at` keeps keys unique and every row's timestamps ordered |
| Store.OverwriteWellFormed | backend/open_webui/models/program.py:116-124 | an update stamped with a clock reading no earlier than any stored time keeps keys unique and timestamps ordered |
| Store.RemoveWellFormed | backend/open_webui/models/program.py:129 | a delete keeps keys unique and timestamps ordered |
| Programs.ProgramTable.InsertNewProgram | backend/open_webui/models/program.py:67-87 | with a `status`, exactly one row is appended: the fresh id, the caller as owner, the form copied as is, the two clock readings; without one, `ValidationError` and no change |
| Programs.ProgramTable.GetPrograms | backend/open_webui/models/program.py:89-92 | every row, newest `updated_at` first, a permutation of the table; `ValidationError` exactly when some row has no `status` |
| Programs.ProgramTable.GetProgramsByUserId | backend/open_webui/models/program.py:94-103 | an order-preserving subsequence of `get_programs` holding exactly the rows the user owns or `has_access` grants `permission` on; `permission` defaults to "write" |
| Programs.OwnProgramsListed | backend/open_webui/models/program.py:101 | every row the user owns is in their filtered listing, whatever `access_control` and `has_access` say |
| Programs.ProgramTable.GetProgramById | backend/open_webui/models/program.py:105-108 | `None` exactly when no row has the id; otherwise the row with the id, or `ValidationError` when it has no `status` |
| Programs.ProgramTable.UpdateProgramById | backend/open_webui/models/program.py:110-125 | an unknown id gives `None` and no change; a known id gets all six form columns replaced (a `None` clears) and `updated_at` set to the clock, with id, owner, `created_at` and all other rows kept; the result raises when `status` is `None` |
| Programs.ProgramTable.DeleteProgramById | backend/open_webui/models/program.py:127-131 | returns `true` even for an absent id; afterwards no row has the id and every other row is unchanged |
| Rfqs.Seconds | backend/open_webui/models/rfq.py:45-46 | the whole seconds of a nanosecond clock reading: the largest `s` with `s * 10^9 <= ns` |
| Rfqs.SecondsMonotone | backend/open_webui/models/rfq.py:74 | truncating to seconds never reverses two clock readings |
| Rfqs.RfqTable.InsertNewRfq | backend/open_webui/models/rfq.py:38-51 | exactly one row is appended: the fresh id, the caller as owner, title and description from the form, the two readings in seconds |
| Rfqs.RfqTable.GetRfqs | backend/open_webui/models/rfq.py:53-56 | every row, newest `updated_at` first, a permutation of the table |
| Rfqs.RfqTable.GetRfqsByUserId | backend/open_webui/models/rfq.py:58-60 | an order-preserving subsequence of `get_rfqs` holding exactly the rows the user owns |
| Rfqs.RfqTable.GetRfqById | backend/open_webui/models/rfq.py:62-65 | `None` exactly when no row has the id, otherwise the row with the id |
| Rfqs.RfqTable.UpdateRfqById | backend/open_webui/models/rfq.py:67-76 | an unknown id gives `None` and no change; a known id gets title and description from the form and `updated_at` set to now in seconds, all else kept |
| Rfqs.RfqTable.DeleteRfqById | backend/open_webui/models/rfq.py:78-82 | returns `true` even for an absent id; afterwards no row has the id and every other row is unchanged |
| ProgramRouter.Admit | backend/open_webui/routers/program.py:34-52 | a caller is admitted exactly when the program exists and the owner/admin/has_access test passes; an absent program and a refused caller both get the 404 with `NOT_FOUND`; a lookup exception propagates |
| ProgramRouter.ListPrograms | backend/open_webui/routers/program.py:21-26 | an admin gets every program, newest first; anyone else gets an in-order subsequence of that listing holding exactly the programs they own or hold "write" on; any stored `None` status raises `ValidationError` |
| ProgramRouter.GetProgramById | backend/open_webui/routers/program.py:32-52 | absent: 404; present: the program when owner, admin or "read" access, otherwise the same 404 |
| ProgramRouter.CreateProgram | backend/open_webui/routers/program.py:58-64 | no permission check; the new program is owned by the caller |
| ProgramRouter.UpdateProgram | backend/open_webui/routers/program.py:70-95 | the store is updated only for owner, admin or "write" access; absent or refused requests get the 404 and change nothing |
| ProgramRouter.DeleteProgram | backend/open_webui/routers/program.py:101-125 | the row is removed and "Program deleted successfully" returned only for owner, admin or "write" access; absent or refused requests get the 404 and delete nothing |
| ProgramRouter.OwnerAndAdminPass | backend/open_webui/routers/program.py:42-46 | owner and admin pass the test whatever `access_control` holds and whatever `has_access` says |
| ProgramRouter.OthersNeedGrant | backend/open_webui/routers/program.py:84-88 | anyone else passes exactly when `has_access` grants the permission |
| ProgramRouter.GetHidesRefusal | backend/open_webui/routers/program.py:36-52 | for a program that has a status, a refused caller gets the same 404 for it as for a missing one |
| ProgramRouter.ClearedStatusRevealsProgram | backend/open_webui/routers/program.py:34-52 | for a program whose status is `None`, a refused caller gets `ValidationError` where a missing id gives the 404, in the prologue of get, update and delete alike |
| ProgramRouter.ClearedStatusBreaksEveryListing | backend/open_webui/models/program.py:89-103 | one stored program without a status makes the listing raise `ValidationError` for every caller, admin, owner or stranger |
| ProgramRouter.ReadGrantNotListed | backend/open_webui/routers/program.py:26 | a "read"-only grant lets a caller fetch a program by id, but the program is not in their listing |
| RfqRouter.Authorized | backend/open_webui/routers/rfq.py:42-46 | the test passes exactly for the owner or an admin; for anyone else reading `access_control` raises `AttributeError`, so the test never yields false |
| RfqRouter.Admit | backend/open_webui/routers/rfq.py:34-52 | absent: the 404; owner or admin: admitted; anyone else: the `AttributeError` |
| RfqRouter.ListRfqs | backend/open_webui/routers/rfq.py:21-26 | an admin gets every RFQ, newest first; anyone else gets an in-order subsequence of that listing holding exactly the RFQs they own |
| RfqRouter.GetRfqById | backend/open_webui/routers/rfq.py:32-52 | absent: 404; owner or admin: the RFQ; anyone else: the `AttributeError` |
| RfqRouter.CreateRfq | backend/open_webui/routers/rfq.py:58-64 | no check; the new RFQ is owned by the caller |
| RfqRouter.UpdateRfq | backend/open_webui/routers/rfq.py:70-95 | absent: 404 and no change; owner or admin: the result of `update_rfq_by_id`; anyone else: the `AttributeError` and `update_rfq_by_id` never runs |
| RfqRouter.DeleteRfq | backend/open_webui/routers/rfq.py:101-125 | absent: 404 and no change; owner or admin: the row is removed and "RFQ deleted successfully" returned; anyone else: the `AttributeError` and nothing is deleted |
| RfqRouter.GrantsNeverConsulted | backend/open_webui/routers/rfq.py:45 | any two `has_access` evaluators give every caller the same answer |
| RfqRouter.RefusalIsDistinguishable | backend/open_webui/routers/rfq.py:36-52 | a caller who is neither owner nor admin gets the 404 for a missing RFQ and the `AttributeError` for an existing one |

## Left out

- Storage: the SQLAlchemy session, transactions and commits, and storage faults are not modelled. The table is an in-memory sequence of rows, and each operation is one atomic step.
- The order among rows with equal `updated_at` is not specified by the query. The model fixes one order, and the contracts promise only sortedness and a permutation.
- `has_access` and its grant grammar are not part of this model. It is a parameter, so properties that depend on its rules are not stated (for example, what `access_control = None` grants).
- Ids and time: `uuid4()` becomes a freshness precondition. `time.time_ns()` and `time.time()` become clock readings passed by the caller, assumed never to run backwards. Floating-point rounding in `int(time.time())` is not modelled.
- Framework plumbing is not modelled: FastAPI routing, `Depends(get_verified_user)` and authentication, and `response_model` serialization.
- Pydantic validation is modelled only where it can fail: a `None` in the non-optional `status`, from the form on insert or from a stored row on read. JSON payloads are opaque values that are never inspected.
- Row objects: the ORM row is a mutable object that `update_*_by_id` assigns field by field. The model replaces the row value at its position in the table instead, so aliasing between the ORM object and returned models is not captured.
- `ERROR_MESSAGES.NOT_FOUND` is represented by its name; its text is not part of this model.
- The HTTP client modules, the Alembic migration and concurrent last-writer-wins behaviour are not modelled.
