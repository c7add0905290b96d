/**
 * The semantics of the MySQL provider as a state machine over a store value,
 * without the ORM: a table of cars keyed by licence plate, a table of
 * customers keyed by CPF, and a table of bookings with auto-incremented ids, each booking pointing at one
 * car and one customer. A booking stores the requested date-time as it is;
 * every read hands it back moved three hours earlier.
 */
module BookingStores {
  import opened Wrappers
  import opened CivilTime
  import opened Validators
  import opened SchedulerDtos

  datatype Car = Car(licensePlate: string, model: string)

  datatype Customer = Customer(cpf: string, name: string, phone: string)

  /** A row of the bookings table; plate and cpf are the keys of its car and customer. */
  datatype Row = Row(id: nat, date: DateTime, plate: string, cpf: string)

  /** The three tables and the next value of the bookings table's auto-increment counter. */
  datatype Store = Store(
    cars: map<string, Car>,
    customers: map<string, Customer>,
    rows: seq<Row>,
    nextId: nat)

  const EmptyStore: Store := Store(map[], map[], [], 1)

  /** A JavaScript number argument as the provider tests it: NaN, or an integer. */
  datatype NumberArg = NaN | Num(n: int)

  /** The NestJS exceptions the provider throws: 400, 404 and 409. */
  datatype StoreError = BadRequest(message: string) | NotFound(message: string) | Conflict(message: string)

  const ScheduleExists: string := "Schedule already exists for this date"
  const InvalidDate: string := "Invalid date"
  const InvalidScheduleId: string := "Invalid schedule id"
  const ScheduleNotFound: string := "Schedule not found"
  const InvalidLicensePlate: string := "Invalid license plate"
  const InvalidCpf: string := "Invalid CPF"
  const InvalidMonth: string := "Invalid month"
  const InvalidWeek: string := "Invalid week"
  const CarNotFound: string := "Car not found"
  const CustomerNotFound: string := "Customer not found"

  /** The store after an operation, and what the operation returned or threw. */
  datatype Outcome<T> = Outcome(store: Store, result: Result<T, StoreError>)

  /** The entity `createSchedule` returns: the saved booking with its date moved back. */
  datatype Created = Created(id: nat, car: Car, customer: Customer, date: DateTime)

  // ---------------------------------------------------------------------
  // The store's invariant

  /** The booking's car and customer are in their tables. */
  predicate Linked(st: Store, r: Row) {
    r.plate in st.cars && r.cpf in st.customers
  }

  /** Booking ids grow along the table. */
  predicate IdsIncreasing(rows: seq<Row>) {
    forall i, j :: 0 <= i < j < |rows| ==> rows[i].id < rows[j].id
  }

  /**
   * Each car is filed under its own plate and each customer under its own
   * CPF (so plates and CPFs are unique), every booking points at an existing
   * car and customer, and ids are positive, increasing and below the counter.
   */
  predicate Consistent(st: Store) {
    && 1 <= st.nextId
    && (forall p :: p in st.cars ==> st.cars[p].licensePlate == p)
    && (forall c :: c in st.customers ==> st.customers[c].cpf == c)
    && (forall r :: r in st.rows ==> Linked(st, r) && 1 <= r.id < st.nextId)
    && IdsIncreasing(st.rows)
  }

  /** Some booking already holds this date. */
  predicate DateTaken(rows: seq<Row>, date: DateTime) {
    exists k :: 0 <= k < |rows| && rows[k].date == date
  }

  /** `isNaN(id) || id < 1` fails. */
  predicate ValidId(id: NumberArg) {
    id.Num? && 1 <= id.n
  }

  /** `month < 1 || month > 12 || isNaN(month)` fails. */
  predicate ValidMonth(month: NumberArg) {
    month.Num? && 1 <= month.n <= 12
  }

  /** `week < 1 || week > 5 || isNaN(week)` fails. */
  predicate ValidWeek(week: NumberArg) {
    week.Num? && 1 <= week.n <= 5
  }

  // ---------------------------------------------------------------------
  // Reading

  /** The position of the booking with this id, if there is one. */
  function FindRow(rows: seq<Row>, id: int): (r: Option<nat>)
    ensures r.Some? ==> r.value < |rows| && rows[r.value].id == id
    ensures r.None? ==> forall k :: 0 <= k < |rows| ==> rows[k].id != id
    decreases |rows|
  {
    if rows == [] then None
    else if rows[|rows| - 1].id == id then Some(|rows| - 1)
    else FindRow(rows[..|rows| - 1], id)
  }

  /** The DTO a read builds from a booking: the related fields, and the date three hours earlier. */
  function View(st: Store, r: Row): SchedulerDto
    requires Linked(st, r)
  {
    var car := st.cars[r.plate];
    var customer := st.customers[r.cpf];
    SchedulerDto(customer.name, customer.phone, r.cpf, car.model, r.plate, ShiftHours(r.date, -3))
  }

  function Views(st: Store, rows: seq<Row>): (vs: seq<SchedulerDto>)
    requires forall r :: r in rows ==> Linked(st, r)
    ensures |vs| == |rows|
  {
    seq(|rows|, k requires 0 <= k < |rows| => View(st, rows[k]))
  }

  /** `getSchedule`: the id is checked after the lookup and before its result is used. */
  function GetSchedule(st: Store, id: NumberArg): Result<SchedulerDto, StoreError>
    requires Consistent(st)
  {
    if !ValidId(id) then Err(BadRequest(InvalidScheduleId))
    else
      match FindRow(st.rows, id.n)
      case None => Err(NotFound(ScheduleNotFound))
      case Some(k) => Ok(View(st, st.rows[k]))
  }

  /** `getAllSchedules`: every booking, each read as `getSchedule` reads it. */
  function GetAllSchedules(st: Store): seq<SchedulerDto>
    requires Consistent(st)
  {
    Views(st, st.rows)
  }

  /** The bookings that satisfy p, in table order. */
  function Select(rows: seq<Row>, p: Row -> bool): (s: seq<Row>)
    ensures forall r :: r in s ==> r in rows && p(r)
    decreases |rows|
  {
    if rows == [] then []
    else
      var last := rows[|rows| - 1];
      Select(rows[..|rows| - 1], p) + (if p(last) then [last] else [])
  }

  /** `getSchedulesByLicensePlate`: an unknown plate is a 400. */
  function GetSchedulesByLicensePlate(st: Store, plate: string): Result<seq<SchedulerDto>, StoreError>
    requires Consistent(st)
  {
    if plate !in st.cars then Err(BadRequest(InvalidLicensePlate))
    else Ok(Views(st, Select(st.rows, (r: Row) => r.plate == plate)))
  }

  /** `getSchedulesByCpf`: an unknown CPF is a 400. */
  function GetSchedulesByCpf(st: Store, cpf: string): Result<seq<SchedulerDto>, StoreError>
    requires Consistent(st)
  {
    if cpf !in st.customers then Err(BadRequest(InvalidCpf))
    else Ok(Views(st, Select(st.rows, (r: Row) => r.cpf == cpf)))
  }

  /** The bookings whose stored date lies in the given month of the given year. */
  function InMonth(rows: seq<Row>, month: int, year: int): seq<Row> {
    Select(rows, (r: Row) => r.date.month == month && r.date.year == year)
  }

  /** `getSchedulesByMonth`, `year` being the current year of the clock. */
  function GetSchedulesByMonth(st: Store, month: NumberArg, year: int): Result<seq<SchedulerDto>, StoreError>
    requires Consistent(st)
  {
    if !ValidMonth(month) then Err(BadRequest(InvalidMonth))
    else Ok(Views(st, InMonth(st.rows, month.n, year)))
  }

  /** SQL `MIN(...)` of the week numbers of the rows; NULL (None) for no rows. */
  function MinWeek(rows: seq<Row>, isoWeek: DateTime -> int): (w: Option<int>)
    ensures w.None? <==> rows == []
    ensures w.Some? ==> forall r :: r in rows ==> w.value <= isoWeek(r.date)
    ensures w.Some? ==> exists r :: r in rows && w.value == isoWeek(r.date)
    decreases |rows|
  {
    if rows == [] then None
    else
      var last := rows[|rows| - 1];
      var init := rows[..|rows| - 1];
      match MinWeek(init, isoWeek)
      case None => Some(isoWeek(last.date))
      case Some(w) => Some(if isoWeek(last.date) < w then isoWeek(last.date) else w)
  }

  /**
   * `getSchedulesByWeek`: the week is checked before the month; the
   * bookings of the month whose week number (MySQL `WEEK(date, 3)`, given
   * as isoWeek) is the month's smallest plus week - 1.
   */
  function GetSchedulesByWeek(st: Store, week: NumberArg, month: NumberArg, year: int,
                              isoWeek: DateTime -> int): Result<seq<SchedulerDto>, StoreError>
    requires Consistent(st)
  {
    if !ValidWeek(week) then Err(BadRequest(InvalidWeek))
    else if !ValidMonth(month) then Err(BadRequest(InvalidMonth))
    else
      Ok(Views(st, WeekRows(InMonth(st.rows, month.n, year), week.n, isoWeek)))
  }

  /** The rows in the week-th week counted from the smallest week number among them. */
  function WeekRows(rows: seq<Row>, week: int, isoWeek: DateTime -> int): (s: seq<Row>)
    ensures forall r :: r in s ==> r in rows
  {
    match MinWeek(rows, isoWeek)
    case None => []
    case Some(w) => Select(rows, (r: Row) => isoWeek(r.date) == w + week - 1)
  }

  // ---------------------------------------------------------------------
  // Writing

  /**
   * `createSchedule`: a taken date is a 409 before anything is written; a
   * missing car or customer is then created from the DTO; an invalid date
   * is a 400 that keeps them; otherwise the booking is saved under the next
   * id and returned with its date three hours earlier.
   */
  function CreateSchedule(st: Store, dto: SchedulerDto, now: DateTime): Outcome<Created> {
    if DateTaken(st.rows, dto.dateTime) then Outcome(st, Err(Conflict(ScheduleExists)))
    else
      var plate := dto.carLicensePlate;
      var cpf := dto.cpf;
      var cars := if plate in st.cars then st.cars else st.cars[plate := Car(plate, dto.carModel)];
      var customers := if cpf in st.customers then st.customers
                       else st.customers[cpf := Customer(cpf, dto.name, dto.phone)];
      var st1 := st.(cars := cars, customers := customers);
      if !IsValidScheduleDate(dto.dateTime, now) then Outcome(st1, Err(BadRequest(InvalidDate)))
      else
        var row := Row(st.nextId, dto.dateTime, plate, cpf);
        Outcome(st1.(rows := st.rows + [row], nextId := st.nextId + 1),
                Ok(Created(st.nextId, cars[plate], customers[cpf], ShiftHours(dto.dateTime, -3))))
  }

  /** `deleteSchedule`: an invalid id is a 400, no affected row a 404. */
  function DeleteSchedule(st: Store, id: NumberArg): Outcome<()> {
    if !ValidId(id) then Outcome(st, Err(BadRequest(InvalidScheduleId)))
    else
      match FindRow(st.rows, id.n)
      case None => Outcome(st, Err(NotFound(ScheduleNotFound)))
      case Some(k) => Outcome(st.(rows := st.rows[..k] + st.rows[k + 1..]), Ok(()))
  }

  /**
   * `updateSchedule`: the car and the customer must already exist; the
   * booking then points at them and holds the new date. The car's model and
   * the customer's name and phone are not touched.
   */
  function UpdateSchedule(st: Store, id: NumberArg, dto: SchedulerDto): Outcome<()> {
    if !ValidId(id) then Outcome(st, Err(BadRequest(InvalidScheduleId)))
    else if dto.carLicensePlate !in st.cars then Outcome(st, Err(NotFound(CarNotFound)))
    else if dto.cpf !in st.customers then Outcome(st, Err(NotFound(CustomerNotFound)))
    else
      match FindRow(st.rows, id.n)
      case None => Outcome(st, Err(NotFound(ScheduleNotFound)))
      case Some(k) =>
        Outcome(st.(rows := st.rows[k := Row(id.n, dto.dateTime, dto.carLicensePlate, dto.cpf)]), Ok(()))
  }

  // ---------------------------------------------------------------------
  // Properties

  lemma EmptyStoreConsistent()
    ensures Consistent(EmptyStore)
  {
  }

  /** With increasing ids, the booking at position k is the one found for its id. */
  lemma FindRowUnique(rows: seq<Row>, k: nat)
    requires IdsIncreasing(rows) && k < |rows|
    ensures FindRow(rows, rows[k].id) == Some(k)
  {
  }

  /** No booking carries the id, so none is found. */
  lemma FindRowAbsent(rows: seq<Row>, id: int)
    requires forall r :: r in rows ==> r.id != id
    ensures FindRow(rows, id) == None
  {
  }

  /** Removing position k shifts the later bookings down by one. */
  lemma RemoveAtIndex(rows: seq<Row>, k: nat, rest: seq<Row>)
    requires k < |rows| && rest == rows[..k] + rows[k + 1..]
    ensures |rest| == |rows| - 1
    ensures forall j :: 0 <= j < k ==> rest[j] == rows[j]
    ensures forall j :: k <= j < |rest| ==> rest[j] == rows[j + 1]
  {
  }

  /** With increasing ids, removing position k keeps the others, in order, and only them. */
  lemma RemoveAtKeepsOthers(rows: seq<Row>, k: nat)
    requires IdsIncreasing(rows) && k < |rows|
    ensures IdsIncreasing(rows[..k] + rows[k + 1..])
    ensures forall r :: r in rows[..k] + rows[k + 1..] <==> r in rows && r.id != rows[k].id
  {
    var rest := rows[..k] + rows[k + 1..];
    RemoveAtIndex(rows, k, rest);
    forall r
      ensures r in rest <==> r in rows && r.id != rows[k].id
    {
      if r in rows && r.id != rows[k].id {
        RemoveAtKeepsOther(rows, k, rest, r);
      }
      if r in rest {
        RemoveAtDropsNothingElse(rows, k, rest, r);
      }
    }
  }

  lemma RemoveAtKeepsOther(rows: seq<Row>, k: nat, rest: seq<Row>, r: Row)
    requires k < |rows| && rest == rows[..k] + rows[k + 1..]
    requires r in rows && r != rows[k]
    ensures r in rest
  {
    var j :| 0 <= j < |rows| && rows[j] == r;
    if j < k {
      assert rest[j] == r;
    } else {
      assert rest[j - 1] == r;
    }
  }

  lemma RemoveAtDropsNothingElse(rows: seq<Row>, k: nat, rest: seq<Row>, r: Row)
    requires IdsIncreasing(rows) && k < |rows| && rest == rows[..k] + rows[k + 1..]
    requires r in rest
    ensures r in rows && r.id != rows[k].id
  {
    var j :| 0 <= j < |rest| && rest[j] == r;
    if j < k {
      assert rows[j] == r;
    } else {
      assert rows[j + 1] == r;
    }
  }

  lemma {:induction false} SelectIff(rows: seq<Row>, p: Row -> bool, r: Row)
    ensures r in Select(rows, p) <==> r in rows && p(r)
    decreases |rows|
  {
    if rows != [] {
      var init := rows[..|rows| - 1];
      SelectIff(init, p, r);
      assert rows == init + [rows[|rows| - 1]];
    }
  }

  /** A taken date is refused with 409 and the store is left exactly as it was. */
  lemma ConflictWritesNothing(st: Store, dto: SchedulerDto, now: DateTime)
    requires DateTaken(st.rows, dto.dateTime)
    ensures CreateSchedule(st, dto, now) == Outcome(st, Err(Conflict(ScheduleExists)))
  {
  }

  /** A booking is made exactly when the date is free and valid for the clock. */
  lemma CreateSucceedsIff(st: Store, dto: SchedulerDto, now: DateTime)
    ensures CreateSchedule(st, dto, now).result.Ok? <==>
      !DateTaken(st.rows, dto.dateTime) && IsValidScheduleDate(dto.dateTime, now)
  {
  }

  /**
   * Past the conflict check, the car and the customer are found or created:
   * existing entries are never changed, and only a missing plate or CPF is
   * added, built from the DTO.
   */
  lemma CreateFindsOrCreates(st: Store, dto: SchedulerDto, now: DateTime)
    requires !DateTaken(st.rows, dto.dateTime)
    ensures var s' := CreateSchedule(st, dto, now).store;
      && s'.cars.Keys == st.cars.Keys + {dto.carLicensePlate}
      && s'.customers.Keys == st.customers.Keys + {dto.cpf}
      && (forall p :: p in st.cars ==> s'.cars[p] == st.cars[p])
      && (forall c :: c in st.customers ==> s'.customers[c] == st.customers[c])
      && (dto.carLicensePlate !in st.cars ==>
            s'.cars[dto.carLicensePlate] == Car(dto.carLicensePlate, dto.carModel))
      && (dto.cpf !in st.customers ==>
            s'.customers[dto.cpf] == Customer(dto.cpf, dto.name, dto.phone))
  {
  }

  /** An invalid date is a 400: no booking is added, but a car or customer just created stays. */
  lemma InvalidDateKeepsCarAndCustomer(st: Store, dto: SchedulerDto, now: DateTime)
    requires !DateTaken(st.rows, dto.dateTime) && !IsValidScheduleDate(dto.dateTime, now)
    ensures var o := CreateSchedule(st, dto, now);
      && o.result == Err(BadRequest(InvalidDate))
      && o.store.rows == st.rows && o.store.nextId == st.nextId
      && dto.carLicensePlate in o.store.cars && dto.cpf in o.store.customers
  {
  }

  /** A create, whatever its outcome, keeps the store's invariant. */
  lemma CreateKeepsConsistent(st: Store, dto: SchedulerDto, now: DateTime)
    requires Consistent(st)
    ensures Consistent(CreateSchedule(st, dto, now).store)
  {
    var st' := CreateSchedule(st, dto, now).store;
    if !DateTaken(st.rows, dto.dateTime) && IsValidScheduleDate(dto.dateTime, now) {
      var row := Row(st.nextId, dto.dateTime, dto.carLicensePlate, dto.cpf);
      assert st'.rows == st.rows + [row];
      forall r | r in st'.rows
        ensures Linked(st', r) && 1 <= r.id < st'.nextId
      {
        if r != row {
          assert r in st.rows;
        }
      }
      forall i, j | 0 <= i < j < |st'.rows|
        ensures st'.rows[i].id < st'.rows[j].id
      {
        assert st'.rows[i] in st.rows;
        if j < |st.rows| {
          assert st'.rows[j] == st.rows[j];
        }
      }
    }
  }

  /**
   * A successful create, read back: the booking's id finds it, with the
   * stored car's model and customer's name (the DTO's only when they were
   * just created) and the requested date three hours earlier, the same date
   * the create returned; moving it forward three hours gives the request back.
   */
  lemma CreateThenGet(st: Store, dto: SchedulerDto, now: DateTime)
    requires Consistent(st)
    requires CreateSchedule(st, dto, now).result.Ok?
    ensures var o := CreateSchedule(st, dto, now);
      && Consistent(o.store)
      && o.result.value.id == st.nextId
      && |o.store.rows| == |st.rows| + 1
      && GetSchedule(o.store, Num(st.nextId)) == Ok(SchedulerDto(
           o.store.customers[dto.cpf].name, o.store.customers[dto.cpf].phone, dto.cpf,
           o.store.cars[dto.carLicensePlate].model, dto.carLicensePlate,
           o.result.value.date))
      && o.result.value.date == ShiftHours(dto.dateTime, -3)
      && ShiftHours(o.result.value.date, 3) == dto.dateTime
  {
    var o := CreateSchedule(st, dto, now);
    CreateKeepsConsistent(st, dto, now);
    var n := |st.rows|;
    FindRowUnique(o.store.rows, n);
    ShiftHoursInverse(dto.dateTime, -3);
  }

  /** A stored booking with a valid id is read as its view; an invalid id is a 400. */
  lemma GetScheduleCases(st: Store, id: NumberArg)
    requires Consistent(st)
    ensures !ValidId(id) ==> GetSchedule(st, id) == Err(BadRequest(InvalidScheduleId))
    ensures ValidId(id) && (forall r :: r in st.rows ==> r.id != id.n) ==>
      GetSchedule(st, id) == Err(NotFound(ScheduleNotFound))
    ensures ValidId(id) ==>
      forall r :: r in st.rows && r.id == id.n ==> GetSchedule(st, id) == Ok(View(st, r))
  {
    if ValidId(id) && (forall r :: r in st.rows ==> r.id != id.n) {
      FindRowAbsent(st.rows, id.n);
    }
    forall r | ValidId(id) && r in st.rows && r.id == id.n
      ensures GetSchedule(st, id) == Ok(View(st, r))
    {
      var k :| 0 <= k < |st.rows| && st.rows[k] == r;
      FindRowUnique(st.rows, k);
    }
  }

  /** A stored booking is read back by its own id. */
  lemma GetStoredSchedule(st: Store, r: Row)
    requires Consistent(st) && r in st.rows
    ensures GetSchedule(st, Num(r.id)) == Ok(View(st, r))
  {
    var k :| 0 <= k < |st.rows| && st.rows[k] == r;
    FindRowUnique(st.rows, k);
  }

  /** `getAllSchedules` returns, in table order, exactly what `getSchedule` returns for each id. */
  lemma GetAllIsGetEach(st: Store)
    requires Consistent(st)
    ensures |GetAllSchedules(st)| == |st.rows|
    ensures forall k :: 0 <= k < |st.rows| ==>
      Ok(GetAllSchedules(st)[k]) == GetSchedule(st, Num(st.rows[k].id))
  {
    forall k | 0 <= k < |st.rows|
      ensures Ok(GetAllSchedules(st)[k]) == GetSchedule(st, Num(st.rows[k].id))
    {
      FindRowUnique(st.rows, k);
    }
  }

  /** The invalid-id 400 of delete and update leaves the store as it was. */
  lemma InvalidIdRejected(st: Store, id: NumberArg, dto: SchedulerDto)
    requires !ValidId(id)
    ensures DeleteSchedule(st, id) == Outcome(st, Err(BadRequest(InvalidScheduleId)))
    ensures UpdateSchedule(st, id, dto) == Outcome(st, Err(BadRequest(InvalidScheduleId)))
  {
  }

  /** Deleting removes just that booking and keeps the store valid. */
  lemma DeleteKeepsConsistent(st: Store, id: NumberArg)
    requires Consistent(st)
    ensures var st' := DeleteSchedule(st, id).store;
      && Consistent(st')
      && st'.cars == st.cars && st'.customers == st.customers && st'.nextId == st.nextId
      && (forall r :: r in st'.rows <==> r in st.rows && (DeleteSchedule(st, id).result.Ok? ==> r.id != id.n))
  {
    var o := DeleteSchedule(st, id);
    if o.result.Ok? {
      var k := FindRow(st.rows, id.n).value;
      RemoveAtKeepsOthers(st.rows, k);
    }
  }

  /**
   * A valid id that no booking holds affects no row: delete is a 404, and so
   * is an update whose car and customer exist, and neither touches the store.
   */
  lemma AbsentIdNotFound(st: Store, id: NumberArg, dto: SchedulerDto)
    requires ValidId(id) && FindRow(st.rows, id.n).None?
    ensures DeleteSchedule(st, id) == Outcome(st, Err(NotFound(ScheduleNotFound)))
    ensures dto.carLicensePlate in st.cars && dto.cpf in st.customers ==>
      UpdateSchedule(st, id, dto) == Outcome(st, Err(NotFound(ScheduleNotFound)))
  {
  }

  /** After a successful delete, reading the same id is a 404. */
  lemma DeleteThenGet(st: Store, id: NumberArg)
    requires Consistent(st) && DeleteSchedule(st, id).result.Ok?
    ensures Consistent(DeleteSchedule(st, id).store)
    ensures GetSchedule(DeleteSchedule(st, id).store, id) == Err(NotFound(ScheduleNotFound))
  {
    DeleteKeepsConsistent(st, id);
    FindRowAbsent(DeleteSchedule(st, id).store.rows, id.n);
  }

  /** An update never adds or changes a car or a customer. */
  lemma UpdateNeverCreates(st: Store, id: NumberArg, dto: SchedulerDto)
    ensures UpdateSchedule(st, id, dto).store.cars == st.cars
    ensures UpdateSchedule(st, id, dto).store.customers == st.customers
  {
  }

  /** An update needs the plate's car and the CPF's customer to exist already. */
  lemma UpdateNeedsCarAndCustomer(st: Store, id: NumberArg, dto: SchedulerDto)
    requires ValidId(id)
    ensures dto.carLicensePlate !in st.cars ==>
      UpdateSchedule(st, id, dto) == Outcome(st, Err(NotFound(CarNotFound)))
    ensures dto.carLicensePlate in st.cars && dto.cpf !in st.customers ==>
      UpdateSchedule(st, id, dto) == Outcome(st, Err(NotFound(CustomerNotFound)))
  {
  }

  /** An update, whatever its outcome, keeps the store's invariant. */
  lemma UpdateKeepsConsistent(st: Store, id: NumberArg, dto: SchedulerDto)
    requires Consistent(st)
    ensures Consistent(UpdateSchedule(st, id, dto).store)
  {
    var o := UpdateSchedule(st, id, dto);
    if o.result.Ok? {
      var k := FindRow(st.rows, id.n).value;
      var st' := o.store;
      forall r | r in st'.rows
        ensures Linked(st', r) && 1 <= r.id < st'.nextId
      {
        var j :| 0 <= j < |st'.rows| && st'.rows[j] == r;
        if j != k {
          assert st.rows[j] == r;
        } else {
          assert st.rows[k] in st.rows;
        }
      }
      forall i, j | 0 <= i < j < |st'.rows|
        ensures st'.rows[i].id < st'.rows[j].id
      {
        assert st'.rows[i].id == st.rows[i].id;
        assert st'.rows[j].id == st.rows[j].id;
      }
    }
  }

  /**
   * An update read back: the new date three hours earlier, the new car and
   * customer, but the stored model, name and phone, not the DTO's. The
   * counter, the number of bookings and every other booking stay as they were.
   */
  lemma UpdateThenGet(st: Store, id: NumberArg, dto: SchedulerDto)
    requires Consistent(st) && UpdateSchedule(st, id, dto).result.Ok?
    ensures Consistent(UpdateSchedule(st, id, dto).store)
    ensures var st' := UpdateSchedule(st, id, dto).store;
      && st'.nextId == st.nextId && |st'.rows| == |st.rows|
      && (forall r :: r in st.rows && r.id != id.n ==> r in st'.rows)
    ensures GetSchedule(UpdateSchedule(st, id, dto).store, id) == Ok(SchedulerDto(
      st.customers[dto.cpf].name, st.customers[dto.cpf].phone, dto.cpf,
      st.cars[dto.carLicensePlate].model, dto.carLicensePlate, ShiftHours(dto.dateTime, -3)))
  {
    UpdateKeepsConsistent(st, id, dto);
    var st' := UpdateSchedule(st, id, dto).store;
    var k := FindRow(st.rows, id.n).value;
    assert st'.rows[k].id == id.n;
    FindRowUnique(st'.rows, k);
    forall r | r in st.rows && r.id != id.n
      ensures r in st'.rows
    {
      var j :| 0 <= j < |st.rows| && st.rows[j] == r;
      assert st'.rows[j] == r;
    }
  }

  /**
   * The plate query is a 400 exactly for an unknown plate; otherwise it reads
   * every booking of that car and nothing else.
   */
  lemma ByLicensePlateIff(st: Store, plate: string)
    requires Consistent(st)
    ensures GetSchedulesByLicensePlate(st, plate).Err? <==> plate !in st.cars
    ensures GetSchedulesByLicensePlate(st, plate).Err? ==>
      GetSchedulesByLicensePlate(st, plate).error == BadRequest(InvalidLicensePlate)
    ensures GetSchedulesByLicensePlate(st, plate).Ok? ==>
      var vs := GetSchedulesByLicensePlate(st, plate).value;
      && (forall r :: r in st.rows && r.plate == plate ==> View(st, r) in vs)
      && (forall v :: v in vs ==> exists r :: r in st.rows && r.plate == plate && v == View(st, r))
  {
    if plate in st.cars {
      var p := (r: Row) => r.plate == plate;
      var s := Select(st.rows, p);
      var vs := Views(st, s);
      forall r | r in st.rows && r.plate == plate
        ensures View(st, r) in vs
      {
        SelectIff(st.rows, p, r);
        var k :| 0 <= k < |s| && s[k] == r;
        assert vs[k] == View(st, r);
      }
      forall v | v in vs
        ensures exists r :: r in st.rows && r.plate == plate && v == View(st, r)
      {
        var k :| 0 <= k < |vs| && vs[k] == v;
        assert s[k] in s;
        SelectIff(st.rows, p, s[k]);
      }
    }
  }

  /** The same for the CPF query and the customer's bookings. */
  lemma ByCpfIff(st: Store, cpf: string)
    requires Consistent(st)
    ensures GetSchedulesByCpf(st, cpf).Err? <==> cpf !in st.customers
    ensures GetSchedulesByCpf(st, cpf).Err? ==> GetSchedulesByCpf(st, cpf).error == BadRequest(InvalidCpf)
    ensures GetSchedulesByCpf(st, cpf).Ok? ==>
      var vs := GetSchedulesByCpf(st, cpf).value;
      && (forall r :: r in st.rows && r.cpf == cpf ==> View(st, r) in vs)
      && (forall v :: v in vs ==> exists r :: r in st.rows && r.cpf == cpf && v == View(st, r))
  {
    if cpf in st.customers {
      var p := (r: Row) => r.cpf == cpf;
      var s := Select(st.rows, p);
      var vs := Views(st, s);
      forall r | r in st.rows && r.cpf == cpf
        ensures View(st, r) in vs
      {
        SelectIff(st.rows, p, r);
        var k :| 0 <= k < |s| && s[k] == r;
        assert vs[k] == View(st, r);
      }
      forall v | v in vs
        ensures exists r :: r in st.rows && r.cpf == cpf && v == View(st, r)
      {
        var k :| 0 <= k < |vs| && vs[k] == v;
        assert s[k] in s;
        SelectIff(st.rows, p, s[k]);
      }
    }
  }

  /**
   * The month query rejects a month outside 1..12; otherwise it reads
   * exactly the bookings stored in that month of the year.
   */
  lemma ByMonthIff(st: Store, month: NumberArg, year: int)
    requires Consistent(st)
    ensures GetSchedulesByMonth(st, month, year).Err? <==> !ValidMonth(month)
    ensures GetSchedulesByMonth(st, month, year).Err? ==>
      GetSchedulesByMonth(st, month, year).error == BadRequest(InvalidMonth)
    ensures GetSchedulesByMonth(st, month, year).Ok? ==>
      var vs := GetSchedulesByMonth(st, month, year).value;
      && (forall r :: r in st.rows && r.date.month == month.n && r.date.year == year ==> View(st, r) in vs)
      && (forall v :: v in vs ==> exists r :: r in st.rows && r.date.month == month.n && r.date.year == year
                                                 && v == View(st, r))
  {
    if ValidMonth(month) {
      var p := (r: Row) => r.date.month == month.n && r.date.year == year;
      var s := Select(st.rows, p);
      var vs := Views(st, s);
      forall r | r in st.rows && p(r)
        ensures View(st, r) in vs
      {
        SelectIff(st.rows, p, r);
        var k :| 0 <= k < |s| && s[k] == r;
        assert vs[k] == View(st, r);
      }
      forall v | v in vs
        ensures exists r :: r in st.rows && p(r) && v == View(st, r)
      {
        var k :| 0 <= k < |vs| && vs[k] == v;
        assert s[k] in s;
      }
    }
  }

  /** The week is checked before the month. */
  lemma ByWeekChecksWeekFirst(st: Store, week: NumberArg, month: NumberArg, year: int, isoWeek: DateTime -> int)
    requires Consistent(st)
    ensures !ValidWeek(week) ==>
      GetSchedulesByWeek(st, week, month, year, isoWeek) == Err(BadRequest(InvalidWeek))
    ensures ValidWeek(week) && !ValidMonth(month) ==>
      GetSchedulesByWeek(st, week, month, year, isoWeek) == Err(BadRequest(InvalidMonth))
    ensures ValidWeek(week) && ValidMonth(month) ==> GetSchedulesByWeek(st, week, month, year, isoWeek).Ok?
  {
  }

  /** A view in the list is the view of one of the listed bookings. */
  lemma ViewsMember(st: Store, rows: seq<Row>, v: SchedulerDto)
    requires forall r :: r in rows ==> Linked(st, r)
    requires v in Views(st, rows)
    ensures exists r :: r in rows && v == View(st, r)
  {
    var vs := Views(st, rows);
    var k :| 0 <= k < |vs| && vs[k] == v;
    assert rows[k] in rows;
  }

  /** The view of every listed booking is in the list. */
  lemma ViewsContains(st: Store, rows: seq<Row>, r: Row)
    requires forall r :: r in rows ==> Linked(st, r)
    requires r in rows
    ensures View(st, r) in Views(st, rows)
  {
    var k :| 0 <= k < |rows| && rows[k] == r;
    assert Views(st, rows)[k] == View(st, r);
  }

  /** w is the smallest week number among the bookings stored in the month. */
  predicate IsMinWeek(rows: seq<Row>, month: int, year: int, isoWeek: DateTime -> int, w: int) {
    && (forall q :: q in rows && q.date.month == month && q.date.year == year ==> w <= isoWeek(q.date))
    && (exists q :: q in rows && q.date.month == month && q.date.year == year && isoWeek(q.date) == w)
  }

  /** A row is in the week exactly when its week number is the smallest plus week - 1. */
  lemma WeekRowsIff(rows: seq<Row>, week: int, isoWeek: DateTime -> int, r: Row)
    ensures r in WeekRows(rows, week, isoWeek) <==>
      r in rows && isoWeek(r.date) == MinWeek(rows, isoWeek).value + week - 1
  {
    match MinWeek(rows, isoWeek)
    case None =>
      assert WeekRows(rows, week, isoWeek) == [] && rows == [];
    case Some(w) =>
      var p := (r: Row) => isoWeek(r.date) == w + week - 1;
      assert WeekRows(rows, week, isoWeek) == Select(rows, p);
      SelectIff(rows, p, r);
  }

  /**
   * Every booking the week query reads lies in the month, in the week that
   * comes week - 1 after the month's first booked week.
   */
  lemma ByWeekSound(st: Store, week: NumberArg, month: NumberArg, year: int, isoWeek: DateTime -> int, v: SchedulerDto)
    requires Consistent(st) && ValidWeek(week) && ValidMonth(month)
    requires v in GetSchedulesByWeek(st, week, month, year, isoWeek).value
    ensures exists r :: && r in st.rows && v == View(st, r)
                        && r.date.month == month.n && r.date.year == year
                        && IsMinWeek(st.rows, month.n, year, isoWeek, isoWeek(r.date) - (week.n - 1))
  {
    var inMonth := InMonth(st.rows, month.n, year);
    var s := WeekRows(inMonth, week.n, isoWeek);
    ViewsMember(st, s, v);
    var r :| r in s && v == View(st, r);
    WeekRowsIff(inMonth, week.n, isoWeek, r);
    SelectIff(st.rows, (r: Row) => r.date.month == month.n && r.date.year == year, r);
    MinWeekIsMinWeek(st.rows, month.n, year, isoWeek);
  }

  /** The week query reads every booking of the month in that week. */
  lemma ByWeekComplete(st: Store, week: NumberArg, month: NumberArg, year: int, isoWeek: DateTime -> int, r: Row)
    requires Consistent(st) && ValidWeek(week) && ValidMonth(month)
    requires r in st.rows && r.date.month == month.n && r.date.year == year
    requires IsMinWeek(st.rows, month.n, year, isoWeek, isoWeek(r.date) - (week.n - 1))
    ensures View(st, r) in GetSchedulesByWeek(st, week, month, year, isoWeek).value
  {
    var inMonth := InMonth(st.rows, month.n, year);
    SelectIff(st.rows, (r: Row) => r.date.month == month.n && r.date.year == year, r);
    MinWeekIsMinWeek(st.rows, month.n, year, isoWeek);
    MinWeekUnique(st.rows, month.n, year, isoWeek, MinWeek(inMonth, isoWeek).value, isoWeek(r.date) - (week.n - 1));
    var s := WeekRows(inMonth, week.n, isoWeek);
    WeekRowsIff(inMonth, week.n, isoWeek, r);
    ViewsContains(st, s, r);
  }

  /** The SQL minimum over the month's bookings is their smallest week. */
  lemma MinWeekIsMinWeek(rows: seq<Row>, month: int, year: int, isoWeek: DateTime -> int)
    ensures var inMonth := InMonth(rows, month, year);
      MinWeek(inMonth, isoWeek).Some? ==> IsMinWeek(rows, month, year, isoWeek, MinWeek(inMonth, isoWeek).value)
  {
    var m := (r: Row) => r.date.month == month && r.date.year == year;
    var inMonth := InMonth(rows, month, year);
    if MinWeek(inMonth, isoWeek).Some? {
      forall q | q in rows && m(q)
        ensures q in inMonth
      {
        SelectIff(rows, m, q);
      }
    }
  }

  lemma MinWeekUnique(rows: seq<Row>, month: int, year: int, isoWeek: DateTime -> int, w: int, w': int)
    requires IsMinWeek(rows, month, year, isoWeek, w) && IsMinWeek(rows, month, year, isoWeek, w')
    ensures w == w'
  {
    var q :| q in rows && q.date.month == month && q.date.year == year && isoWeek(q.date) == w;
    var q' :| q' in rows && q'.date.month == month && q'.date.year == year && isoWeek(q'.date) == w';
  }
}
