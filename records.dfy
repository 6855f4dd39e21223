/** The demand records of the form application: the validation of the registration form, the
    unmet-demand arithmetic, the centre-scoped view of the records, and the stored record list
    with the guarded add, delete and wipe. The caller's identity is the session of module Users
    (`auth.obtenerUsuarioActual()`); the confirmation dialogs are boolean inputs. */
module Records {
  import opened Collections
  import opened Text
  import opened Users

  /** A stored record. Its id (`Date.now() + Math.random()`) is an input; quantities are whole
      non-negative numbers. The float `cobertura` is not modelled. */
  datatype Record = Record(
    id: int,
    registeredBy: string,
    facility: string,
    product: string,
    serviceType: string,
    required: nat,
    available: nat,
    unmet: nat,
    date: string,
    registeredAt: string,
    notes: string)

  /** The registration form's raw field values (quantities already read as numbers). */
  datatype Form = Form(
    facility: string,
    product: string,
    serviceType: string,
    required: int,
    available: int,
    date: string,
    notes: string)

  /** The messages `validarFormularioRegistro` pushes, in the order it checks them. */
  datatype FormError =
    | MissingFacility
    | InvalidProduct
    | InvalidServiceType
    | InvalidRequired
    | InvalidAvailable
    | AvailableExceedsRequired
    | MissingDate

  /** Each check of the form, on its own. */
  predicate Fails(f: Form, e: FormError)
  {
    match e
    case MissingFacility => Trim(f.facility) == ""
    case InvalidProduct => |Utf16(Trim(f.product))| < 3
    case InvalidServiceType => |Utf16(Trim(f.serviceType))| < 2
    case InvalidRequired => f.required < 0
    case InvalidAvailable => f.available < 0
    case AvailableExceedsRequired => f.available > f.required
    case MissingDate => f.date == ""
  }

  function Rank(e: FormError): nat
  {
    match e
    case MissingFacility => 0
    case InvalidProduct => 1
    case InvalidServiceType => 2
    case InvalidRequired => 3
    case InvalidAvailable => 4
    case AvailableExceedsRequired => 5
    case MissingDate => 6
  }

  /** How many checks `validarFormularioRegistro()` makes. */
  const CHECK_COUNT: nat := 7

  /** The `k`-th check it makes. */
  function CheckAt(k: nat): (e: FormError)
    requires k < CHECK_COUNT
    ensures Rank(e) == k
  {
    if k == 0 then MissingFacility
    else if k == 1 then InvalidProduct
    else if k == 2 then InvalidServiceType
    else if k == 3 then InvalidRequired
    else if k == 4 then InvalidAvailable
    else if k == 5 then AvailableExceedsRequired
    else MissingDate
  }

  /** The messages for the first `k` checks: the failing ones, in check order. */
  function ErrorsUpTo(f: Form, k: nat): seq<FormError>
    requires k <= CHECK_COUNT
  {
    if k == 0 then []
    else ErrorsUpTo(f, k - 1) + (if Fails(f, CheckAt(k - 1)) then [CheckAt(k - 1)] else [])
  }

  /** The messages the validator reports for `f`. */
  function FormErrors(f: Form): seq<FormError>
  {
    ErrorsUpTo(f, CHECK_COUNT)
  }

  /** `validarFormularioRegistro()`: pushes one message per failing check; valid when none. */
  method ValidateForm(f: Form) returns (valid: bool, errors: seq<FormError>)
    ensures errors == FormErrors(f)
    ensures valid <==> errors == []
  {
    errors := CheckTexts(f);
    errors := PushIf(errors, f.required < 0, InvalidRequired);
    assert errors == ErrorsUpTo(f, 4);
    errors := PushIf(errors, f.available < 0, InvalidAvailable);
    assert errors == ErrorsUpTo(f, 5);
    errors := PushIf(errors, f.available > f.required, AvailableExceedsRequired);
    assert errors == ErrorsUpTo(f, 6);
    errors := PushIf(errors, f.date == "", MissingDate);
    valid := |errors| == 0;
  }

  /** The checks on the three trimmed text fields, `.length` counting UTF-16 code units. */
  method CheckTexts(f: Form) returns (errors: seq<FormError>)
    ensures errors == ErrorsUpTo(f, 3)
  {
    var facility, product, serviceType := Trim(f.facility), Trim(f.product), Trim(f.serviceType);
    errors := PushIf([], facility == "", MissingFacility);
    assert errors == ErrorsUpTo(f, 1);
    errors := PushIf(errors, |Utf16(product)| < 3, InvalidProduct);
    assert errors == ErrorsUpTo(f, 2);
    errors := PushIf(errors, |Utf16(serviceType)| < 2, InvalidServiceType);
  }

  /** `if (failed) errores.push(message)`. */
  method PushIf(errors: seq<FormError>, failed: bool, e: FormError) returns (r: seq<FormError>)
    ensures r == errors + (if failed then [e] else [])
  {
    r := errors;
    if failed {
      r := r + [e];
    }
  }

  lemma RankInjective(a: FormError, b: FormError)
    requires Rank(a) == Rank(b)
    ensures a == b
  {
  }

  predicate RankIncreasing(s: seq<FormError>)
  {
    forall i, j :: 0 <= i < j < |s| ==> Rank(s[i]) < Rank(s[j])
  }

  /** The first `k` checks report each failing one once, in check order, and nothing else. */
  lemma {:induction false} ErrorsUpToMeaning(f: Form, k: nat)
    requires k <= CHECK_COUNT
    ensures forall e :: e in ErrorsUpTo(f, k) <==> Fails(f, e) && Rank(e) < k
    ensures RankIncreasing(ErrorsUpTo(f, k))
  {
    if k > 0 {
      ErrorsUpToMeaning(f, k - 1);
      var e := CheckAt(k - 1);
      var prev, add := ErrorsUpTo(f, k - 1), if Fails(f, e) then [e] else [];
      var all := prev + add;
      assert ErrorsUpTo(f, k) == all;
      forall x ensures x in all <==> Fails(f, x) && Rank(x) < k {
        if Rank(x) == k - 1 {
          RankInjective(x, e);
        }
      }
      forall i, j | 0 <= i < j < |all| ensures Rank(all[i]) < Rank(all[j]) {
        if j >= |prev| {
          assert all[i] == prev[i] && prev[i] in prev;
        }
      }
    }
  }

  /** What the validator reports: a message exactly for each failing check, each once, in check
      order; the form is valid exactly when no check fails. */
  lemma FormErrorsMeaning(f: Form)
    ensures forall e :: e in FormErrors(f) <==> Fails(f, e)
    ensures RankIncreasing(FormErrors(f))
    ensures FormErrors(f) == [] <==> FormValid(f)
  {
    ErrorsUpToMeaning(f, CHECK_COUNT);
    var r := FormErrors(f);
    if r != [] {
      assert r[0] in r;
    }
  }

  /** A product whose trimmed `.length` is below three code units is reported, whatever else holds. */
  lemma ShortProductReported(f: Form)
    requires |Utf16(Trim(f.product))| < 3
    ensures InvalidProduct in FormErrors(f) && !FormValid(f)
  {
    FormErrorsMeaning(f);
  }

  /** A form passes every check exactly when the quantities are sane and the fields filled. */
  predicate FormValid(f: Form)
  {
    forall e: FormError :: !Fails(f, e)
  }

  /** `Math.max(0, requerida - disponible)`. */
  function UnmetDemand(required: int, available: int): (d: nat)
    ensures d >= required - available
    ensures d == 0 || d == required - available
    ensures available <= required ==> d + available == required
  {
    if required - available > 0 then required - available else 0
  }

  /** `obtenerClaseDemanda`, with the ratio test `d / r >= 0.3` stated as `10 * d >= 3 * r`. */
  datatype DemandLevel = Low | Medium | High

  function DemandClass(unmet: nat, required: nat): (level: DemandLevel)
    ensures level == Low <==> unmet == 0
    ensures level == High <==> unmet > 0 && required > 0 && 10 * unmet >= 3 * required
  {
    if unmet == 0 then Low
    else if required > 0 && 10 * unmet >= 3 * required then High
    else Medium
  }

  function LevelRank(level: DemandLevel): nat
  {
    match level
    case Low => 0
    case Medium => 1
    case High => 2
  }

  /** More unmet demand of the same requirement never lowers the class. */
  lemma DemandClassMonotone(u1: nat, u2: nat, required: nat)
    requires u1 <= u2
    ensures LevelRank(DemandClass(u1, required)) <= LevelRank(DemandClass(u2, required))
  {
  }

  /** The predicates the source passes to `filter`/`findIndex` over records. */
  function InCentre(centre: Option<string>): Record -> bool
  {
    (x: Record) => Some(x.facility) == centre
  }

  function RecordIdIs(id: int): Record -> bool
  {
    (x: Record) => x.id == id
  }

  function RecordIdIsNot(id: int): Record -> bool
  {
    (x: Record) => x.id != id
  }

  /** `obtenerDatosConPermisos()`: every record for an administrator, otherwise the records of
      the caller's own centre (`obtenerCentroActual()`, none when unauthenticated or blank). */
  function Visible(caller: Option<Session>, records: seq<Record>): (r: seq<Record>)
    ensures SessionIsAdmin(caller) ==> r == records
    ensures !SessionIsAdmin(caller) ==> r == Filter(records, InCentre(SessionCentre(caller)))
  {
    if SessionIsAdmin(caller) then records
    else
      var centre := SessionCentre(caller);
      Filter(records, InCentre(centre))
  }

  /** A non-administrator sees exactly the records of their centre: all of them, in their
      original order, and nothing else; without a session (or a centre) they see nothing. */
  lemma VisibleScoped(caller: Option<Session>, records: seq<Record>)
    requires !SessionIsAdmin(caller)
    ensures forall x :: x in Visible(caller, records) ==> x in records && Some(x.facility) == SessionCentre(caller)
    ensures forall i ::
      (0 <= i < |records| && Some(records[i].facility) == SessionCentre(caller) ==> records[i] in Visible(caller, records))
    ensures SessionCentre(caller).None? ==> Visible(caller, records) == []
  {
    var v := Visible(caller, records);
    forall x | x in v ensures x in records && Some(x.facility) == SessionCentre(caller) {
      var k :| 0 <= k < |v| && v[k] == x;
    }
    if SessionCentre(caller).None? {
      FilterKeepsNone(records, InCentre(SessionCentre(caller)));
    }
  }

  /** Viewing distributes over appended records: a new record shows up after the old view. */
  lemma VisibleAppend(caller: Option<Session>, records: seq<Record>, added: seq<Record>)
    ensures Visible(caller, records + added) == Visible(caller, records) + Visible(caller, added)
  {
    if !SessionIsAdmin(caller) {
      FilterAppend(records, added, InCentre(SessionCentre(caller)));
    }
  }

  /** Why `agregarRegistro` stores nothing. */
  datatype AddError = NotAuthenticated | OutsideCentre | Invalid(errors: seq<FormError>)

  /** Why `eliminarRegistro` deletes nothing. */
  datatype DeleteError = DeleteNotAuthenticated | NotOwner | Cancelled | RecordNotFound

  /** The record `agregarRegistro` builds from a valid form. */
  function NewRecord(caller: Session, f: Form, id: int, now: string): (r: Record)
    requires FormValid(f)
    ensures r.unmet == UnmetDemand(f.required, f.available)
    ensures r.facility == Trim(f.facility) && r.registeredBy == caller.username
  {
    assert !Fails(f, InvalidRequired) && !Fails(f, InvalidAvailable);
    Record(id, caller.username, Trim(f.facility), Trim(f.product), Trim(f.serviceType),
           f.required, f.available, UnmetDemand(f.required, f.available), f.date, now, Trim(f.notes))
  }

  /** The records a non-administrator may delete: ids unique, the first record with the id is
      the only one `filter` removes. */
  predicate UniqueRecordIds(records: seq<Record>)
  {
    forall i, j :: 0 <= i < j < |records| ==> records[i].id != records[j].id
  }

  /** `records.filter(r => r.id !== id)`. */
  function WithoutId(records: seq<Record>, id: int): (r: seq<Record>)
    ensures forall i :: 0 <= i < |r| ==> r[i].id != id
    ensures forall i :: 0 <= i < |records| && records[i].id != id ==> records[i] in r
  {
    Filter(records, RecordIdIsNot(id))
  }

  /** The stored record list, `localStorage[STORAGE_KEY]`. */
  class DemandStore {
    var records: seq<Record>

    constructor (stored: seq<Record>)
      ensures records == stored
    {
      records := stored;
    }

    /** `agregarRegistro`: checks the session, the centre scope of a non-administrator and the
        form, in that order; then appends one record and writes the list. */
    method Add(caller: Option<Session>, f: Form, id: int, now: string) returns (r: Result<Record, AddError>)
      modifies this
      ensures caller.None? ==> r == Failure(NotAuthenticated)
      ensures caller.Some? && !SessionIsAdmin(caller) && Some(Trim(f.facility)) != SessionCentre(caller)
        ==> r == Failure(OutsideCentre)
      ensures r.Success? <==>
        && caller.Some?
        && (SessionIsAdmin(caller) || Some(Trim(f.facility)) == SessionCentre(caller))
        && FormValid(f)
      ensures r.Success? ==> (FormValid(f) && r.value == NewRecord(caller.value, f, id, now)
        && records == old(records) + [r.value])
      ensures r.Failure? ==> records == old(records)
    {
      if caller.None? {
        return Failure(NotAuthenticated);
      }
      var facility := Trim(f.facility);
      if !SessionIsAdmin(caller) {
        var centre := SessionCentre(caller);
        if Some(facility) != centre {
          return Failure(OutsideCentre);
        }
      }
      var valid, errors := ValidateForm(f);
      FormErrorsMeaning(f);
      if !valid {
        return Failure(Invalid(errors));
      }
      var record := NewRecord(caller.value, f, id, now);
      records := records + [record];
      r := Success(record);
    }

    /** `eliminarRegistro`: a non-administrator may not delete a record another user registered;
        an unconfirmed or unknown id changes nothing; otherwise every record with the id goes. */
    method Delete(caller: Option<Session>, id: int, confirmed: bool) returns (r: Result<(), DeleteError>)
      modifies this
      ensures caller.None? ==> r == Failure(DeleteNotAuthenticated)
      ensures r == Failure(NotOwner) <==>
        && caller.Some? && !SessionIsAdmin(caller)
        && exists i :: FirstRecordWithId(old(records), id, i) && old(records)[i].registeredBy != caller.value.username
      ensures r.Success? ==> records == WithoutId(old(records), id)
      ensures r.Success? ==> exists i :: 0 <= i < |old(records)| && old(records)[i].id == id
      ensures r.Failure? ==> records == old(records)
      ensures r.Success? <==>
        && caller.Some?
        && (SessionIsAdmin(caller)
            || forall i :: FirstRecordWithId(old(records), id, i) ==> old(records)[i].registeredBy == caller.value.username)
        && confirmed
        && exists i :: 0 <= i < |old(records)| && old(records)[i].id == id
    {
      if caller.None? {
        return Failure(DeleteNotAuthenticated);
      }
      if !SessionIsAdmin(caller) {
        var found := FindFirst(records, RecordIdIs(id));
        if found.Some? && records[found.value].registeredBy != caller.value.username {
          return Failure(NotOwner);
        }
      }
      if !confirmed {
        return Failure(Cancelled);
      }
      var found := FindFirst(records, RecordIdIs(id));
      if found.None? {
        return Failure(RecordNotFound);
      }
      records := WithoutId(records, id);
      r := Success(());
    }

    /** `limpiarDatos`: only a confirmed administrator wipes every record. */
    method Clear(caller: Option<Session>, confirmed: bool) returns (cleared: bool)
      modifies this
      ensures cleared <==> SessionIsAdmin(caller) && confirmed
      ensures records == if cleared then [] else old(records)
    {
      if !SessionIsAdmin(caller) {
        return false;
      }
      if confirmed {
        records := [];
        return true;
      }
      return false;
    }
  }

  predicate FirstRecordWithId(records: seq<Record>, id: int, i: int)
  {
    0 <= i < |records| && records[i].id == id && forall j :: 0 <= j < i ==> records[j].id != id
  }

  /** With unique ids, a non-administrator's successful delete removes only their own record:
      the removed records are exactly those with the id, and the one there is was theirs. */
  lemma DeleteByOwnerOnly(records: seq<Record>, caller: Session, id: int, i: nat)
    requires UniqueRecordIds(records)
    requires FirstRecordWithId(records, id, i)
    requires records[i].registeredBy == caller.username
    ensures forall x :: x in records && x !in WithoutId(records, id) ==> x.registeredBy == caller.username
  {
    forall x | x in records && x !in WithoutId(records, id) ensures x.registeredBy == caller.username {
      var k :| 0 <= k < |records| && records[k] == x;
      assert records[k].id == id;
      assert k == i;
    }
  }

  /** Removing by id keeps the other records in order: removing from a concatenation removes
      from each part. */
  lemma WithoutIdAppend(a: seq<Record>, b: seq<Record>, id: int)
    ensures WithoutId(a + b, id) == WithoutId(a, id) + WithoutId(b, id)
  {
    FilterAppend(a, b, RecordIdIsNot(id));
  }

  /** An id that no record carries removes nothing. */
  lemma WithoutAbsentId(records: seq<Record>, id: int)
    requires forall i :: 0 <= i < |records| ==> records[i].id != id
    ensures WithoutId(records, id) == records
  {
    FilterKeepsAll(records, RecordIdIsNot(id));
  }

  /** A non-administrator's added record lies in their own centre, so it joins their view. */
  lemma AddedRecordVisible(caller: Session, f: Form, id: int, now: string, records: seq<Record>)
    requires FormValid(f)
    requires caller.role != ADMIN_ROLE && Some(Trim(f.facility)) == SessionCentre(Some(caller))
    ensures Visible(Some(caller), records + [NewRecord(caller, f, id, now)])
      == Visible(Some(caller), records) + [NewRecord(caller, f, id, now)]
  {
    var x := NewRecord(caller, f, id, now);
    VisibleAppend(Some(caller), records, [x]);
    var p := InCentre(SessionCentre(Some(caller)));
    assert [x][..0] == [];
    assert Filter([x], p) == Filter([], p) + [x];
  }
}
