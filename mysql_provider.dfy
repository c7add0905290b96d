/**
 * The MySQL provider as an object: the three tables and the auto-increment
 * counter are its fields, and each method performs the provider's steps in
 * the provider's order on them. Every method ends in the state and the
 * result that the corresponding function of BookingStores gives, so the
 * properties proved there hold of the object.
 */
module MysqlProviders {
  import opened Wrappers
  import opened CivilTime
  import opened Validators
  import opened SchedulerDtos
  import opened BookingStores

  class MysqlProvider {
    var cars: map<string, Car>
    var customers: map<string, Customer>
    var rows: seq<Row>
    var nextId: nat

    /** The tables as a store value. */
    function Abstract(): Store
      reads this
    {
      Store(cars, customers, rows, nextId)
    }

    ghost predicate Valid()
      reads this
    {
      Consistent(Abstract())
    }

    /** A provider over empty tables. */
    constructor()
      ensures Abstract() == EmptyStore
      ensures Valid()
    {
      cars := map[];
      customers := map[];
      rows := [];
      nextId := 1;
      EmptyStoreConsistent();
    }

    /**
     * `createSchedule`: look up the car and the customer, refuse a taken
     * date, save the missing car and customer, refuse an invalid date, and
     * only then save the booking.
     */
    method CreateSchedule(dto: SchedulerDto, now: DateTime) returns (r: Result<Created, StoreError>)
      requires Valid()
      modifies this
      ensures Valid()
      ensures Outcome(Abstract(), r) == BookingStores.CreateSchedule(old(Abstract()), dto, now)
    {
      ghost var st := Abstract();
      ghost var outcome := BookingStores.CreateSchedule(st, dto, now);
      CreateKeepsConsistent(st, dto, now);
      var plate := dto.carLicensePlate;
      var cpf := dto.cpf;
      var car := if plate in cars then cars[plate] else Car(plate, dto.carModel);
      var customer := if cpf in customers then customers[cpf] else Customer(cpf, dto.name, dto.phone);
      if DateTaken(rows, dto.dateTime) {
        assert outcome == Outcome(st, Err(Conflict(ScheduleExists)));
        return Err(Conflict(ScheduleExists));
      }
      if plate !in cars {
        cars := cars[plate := car];
      }
      if cpf !in customers {
        customers := customers[cpf := customer];
      }
      assert cars[plate] == car && customers[cpf] == customer;
      ghost var st1 := Abstract();
      if !IsValidScheduleDate(dto.dateTime, now) {
        assert outcome == Outcome(st1, Err(BadRequest(InvalidDate)));
        return Err(BadRequest(InvalidDate));
      }
      var id := nextId;
      rows := rows + [Row(id, dto.dateTime, plate, cpf)];
      nextId := nextId + 1;
      r := Ok(Created(id, car, customer, ShiftHours(dto.dateTime, -3)));
      assert outcome == Outcome(Abstract(), r);
    }

    /**
     * `getSchedule`: the lookup happens first, the id is checked after it,
     * and the answer is built from the related car and customer.
     */
    method GetSchedule(id: NumberArg) returns (r: Result<SchedulerDto, StoreError>)
      requires Valid()
      ensures r == BookingStores.GetSchedule(Abstract(), id)
    {
      var found := if id.Num? then FindRow(rows, id.n) else None;
      if !ValidId(id) {
        return Err(BadRequest(InvalidScheduleId));
      }
      if found.None? {
        return Err(NotFound(ScheduleNotFound));
      }
      var schedule := rows[found.value];
      var car := cars[schedule.plate];
      var customer := customers[schedule.cpf];
      r := Ok(SchedulerDto(customer.name, customer.phone, customer.cpf,
                           car.model, car.licensePlate, ShiftHours(schedule.date, -3)));
    }

    /** `schedules.map(schedule => this.getSchedule(schedule.id))`, one booking at a time. */
    method ReadEach(schedules: seq<Row>) returns (dtos: seq<SchedulerDto>)
      requires Valid()
      requires forall s :: s in schedules ==> s in rows
      ensures dtos == Views(Abstract(), schedules)
    {
      dtos := [];
      var i := 0;
      while i < |schedules|
        invariant 0 <= i <= |schedules|
        invariant |dtos| == i
        invariant forall k :: 0 <= k < i ==> dtos[k] == View(Abstract(), schedules[k])
      {
        var schedule := schedules[i];
        assert schedule in rows;
        GetStoredSchedule(Abstract(), schedule);
        var dto := GetSchedule(Num(schedule.id));
        dtos := dtos + [dto.value];
        i := i + 1;
      }
    }

    /** `getAllSchedules`: every booking in table order, each read by id. */
    method GetAllSchedules() returns (dtos: seq<SchedulerDto>)
      requires Valid()
      ensures dtos == BookingStores.GetAllSchedules(Abstract())
    {
      dtos := ReadEach(rows);
    }

    /** `getSchedulesByLicensePlate`: the car's bookings, each read by id; an unknown plate is a 400. */
    method GetSchedulesByLicensePlate(carLicensePlate: string) returns (r: Result<seq<SchedulerDto>, StoreError>)
      requires Valid()
      ensures r == BookingStores.GetSchedulesByLicensePlate(Abstract(), carLicensePlate)
    {
      if carLicensePlate !in cars {
        return Err(BadRequest(InvalidLicensePlate));
      }
      var schedules := Select(rows, (s: Row) => s.plate == carLicensePlate);
      var dtos := ReadEach(schedules);
      r := Ok(dtos);
    }

    /** `getSchedulesByCpf`: the customer's bookings, each read by id; an unknown CPF is a 400. */
    method GetSchedulesByCpf(cpf: string) returns (r: Result<seq<SchedulerDto>, StoreError>)
      requires Valid()
      ensures r == BookingStores.GetSchedulesByCpf(Abstract(), cpf)
    {
      if cpf !in customers {
        return Err(BadRequest(InvalidCpf));
      }
      var schedules := Select(rows, (s: Row) => s.cpf == cpf);
      var dtos := ReadEach(schedules);
      r := Ok(dtos);
    }

    /** `getSchedulesByMonth`, `actualYear` being the clock's current year. */
    method GetSchedulesByMonth(month: NumberArg, actualYear: int) returns (r: Result<seq<SchedulerDto>, StoreError>)
      requires Valid()
      ensures r == BookingStores.GetSchedulesByMonth(Abstract(), month, actualYear)
    {
      if !ValidMonth(month) {
        return Err(BadRequest(InvalidMonth));
      }
      var schedules := InMonth(rows, month.n, actualYear);
      var dtos := ReadEach(schedules);
      r := Ok(dtos);
    }

    /** `getSchedulesByWeek`: the week is checked before the month. */
    method GetSchedulesByWeek(week: NumberArg, month: NumberArg, actualYear: int, isoWeek: DateTime -> int)
      returns (r: Result<seq<SchedulerDto>, StoreError>)
      requires Valid()
      ensures r == BookingStores.GetSchedulesByWeek(Abstract(), week, month, actualYear, isoWeek)
    {
      if !ValidWeek(week) {
        return Err(BadRequest(InvalidWeek));
      }
      if !ValidMonth(month) {
        return Err(BadRequest(InvalidMonth));
      }
      var schedules := WeekRows(InMonth(rows, month.n, actualYear), week.n, isoWeek);
      var dtos := ReadEach(schedules);
      r := Ok(dtos);
    }

    /** `deleteSchedule`: an invalid id is a 400; a delete that affects no row is a 404. */
    method DeleteSchedule(scheduleId: NumberArg) returns (r: Result<(), StoreError>)
      requires Valid()
      modifies this
      ensures Valid()
      ensures Outcome(Abstract(), r) == BookingStores.DeleteSchedule(old(Abstract()), scheduleId)
    {
      DeleteKeepsConsistent(Abstract(), scheduleId);
      if !ValidId(scheduleId) {
        return Err(BadRequest(InvalidScheduleId));
      }
      var affected := FindRow(rows, scheduleId.n);
      if affected.None? {
        return Err(NotFound(ScheduleNotFound));
      }
      var k := affected.value;
      rows := rows[..k] + rows[k + 1..];
      r := Ok(());
    }

    /**
     * `updateSchedule`: after the id check the car and then the customer
     * must exist; an update that affects no row is a 404.
     */
    method UpdateSchedule(scheduleId: NumberArg, schedule: SchedulerDto) returns (r: Result<(), StoreError>)
      requires Valid()
      modifies this
      ensures Valid()
      ensures Outcome(Abstract(), r) == BookingStores.UpdateSchedule(old(Abstract()), scheduleId, schedule)
    {
      UpdateKeepsConsistent(Abstract(), scheduleId, schedule);
      if !ValidId(scheduleId) {
        return Err(BadRequest(InvalidScheduleId));
      }
      if schedule.carLicensePlate !in cars {
        return Err(NotFound(CarNotFound));
      }
      if schedule.cpf !in customers {
        return Err(NotFound(CustomerNotFound));
      }
      var newSchedule := Row(scheduleId.n, schedule.dateTime, schedule.carLicensePlate, schedule.cpf);
      var affected := FindRow(rows, scheduleId.n);
      if affected.None? {
        return Err(NotFound(ScheduleNotFound));
      }
      rows := rows[affected.value := newSchedule];
      r := Ok(());
    }
  }
}
