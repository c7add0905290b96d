# Auto-repair booking API: a Dafny model

This project models the core of a NestJS booking API for car service visits.
Customers book half-hour slots. A manager token unlocks the management routes.
The model covers five parts of the code:

- **the slot validator** (`isValidScheduleDate`): a requested date-time is bookable when it is
  - at 08:00–17:59,
  - on a Monday to Friday,
  - in the clock's current month and year,
  - not on an earlier day than today,
  - on a whole or half hour;
- **the availability endpoint** (`ScheduleService.getAvaliableDaysToSchedule`): nested loops enumerate the half-hour slots for the rest of the month, and a second loop drops each slot a booking already holds;
- **the MySQL provider** (`MysqlProvider`), without the ORM:
  - three tables: cars by plate, customers by CPF, bookings by auto-incremented id;
  - the check order of its create, read, delete and update operations;
  - the fixed three-hour shift applied on every read;
- **the request record** (`SchedulerDto`) and its class-validator constraints;
- **the manager guard** (`ManagerGuard.canActivate`): it compares the piece after the first `"Bearer "` of the Authorization header with the configured token.

Dates are civil date-times: the seven fields JavaScript's local getters return, with months counted from 1.
The clock ("now") is a parameter.
`ShiftHours` moves a date-time by whole hours and carries into the day, month and year.
It is proved against a day-count ordinal, and proved to be invertible.

The modules:

- `CivilTime`: the calendar, weekdays, next and previous day, the hour shift, and the order of date-times.
- `Validators`: the slot validator.
- `SchedulerDtos`: the request record and the validation pipe.
- `BookingStores`: the provider's semantics, as functions from a store value to a new store and a result or an error, with the invariant `Consistent`:
  - each car is filed under its own plate and each customer under its own CPF;
  - every booking points at a stored car and customer;
  - ids are positive, increasing and below the counter.
- `MysqlProviders`: the `MysqlProvider` class.
  - Its fields are the three tables and the counter.
  - Each method performs the source's steps in the source's order.
  - Each method is proved to end in exactly the state and result of the `BookingStores` function.
- `ScheduleServices`:
  - the enumeration and filtering loops, which are proved against declarative definitions;
  - the `ScheduleService` class, which forwards every other call to the provider;
  - the endpoint over the store.
- `ManagerGuards`: the guard.

## Model

| member | source | states |
|---|---|---|
| CivilTime.ShiftHoursOrdinal | src/common/database/mysql/mysql.provider.ts:57 | moving a date by k hours with `setHours(getHours() + k)` moves its instant by exactly k hours, across day, month and year ends |
| CivilTime.ShiftHoursInverse | src/common/database/mysql/mysql.provider.ts:72 | moving back k hours undoes moving forward k hours |
| CivilTime.ShiftHoursInjective | src/domain/scheduler/services/schedule.service.ts:79-82 | two dates that are equal after the same shift are equal |
| CivilTime.NextDayWeekday | src/domain/scheduler/services/schedule.service.ts:53 | `setDate(getDate() + 1)` advances `getDay()` by one, modulo seven |
| CivilTime.NextPrevInverse | src/domain/scheduler/services/schedule.service.ts:53 | stepping one day forward and one day back gives the same date, in both orders |
| CivilTime.NextDayNumber | src/domain/scheduler/services/schedule.service.ts:53 | the next calendar day has the next day count, across month and year ends |
| CivilTime.EarlierIffOrdinal | src/domain/scheduler/services/schedule.service.ts:82 | the field-by-field calendar order is exactly the order of `getTime()` instants |
| CivilTime.DayNumberMonotone | src/domain/scheduler/services/schedule.service.ts:62-64 | a later calendar day has a larger day count |
| CivilTime.TestDateIsTuesday | test/sheduler/unit/schedule-service.unit.spec.ts:153 | 2021-08-10, the test clock's date, is a Tuesday (`getDay()` = 2) |
| Validators.ValidScheduleDateIff | src/common/utils/validators.utils.ts:1-17 | a date is valid exactly when all five checks hold: hour in 8..17, weekday 1..5, same month and year as now, day not before today, minute 0 or 30 |
| Validators.RejectsOutsideBusinessHours | src/common/utils/validators.utils.ts:6 | an hour below 8 or from 18 on is refused |
| Validators.LatestAcceptedStart | src/common/utils/validators.utils.ts:6-16 | every accepted start is at 17:30 or earlier |
| Validators.RejectsWeekend | src/common/utils/validators.utils.ts:8 | a Sunday or a Saturday is refused |
| Validators.RejectsOtherMonthOrYear | src/common/utils/validators.utils.ts:10 | a month or a year other than now's is refused |
| Validators.RejectsEarlierDay | src/common/utils/validators.utils.ts:12 | a day of the month before today's is refused |
| Validators.AcceptsPastHourToday | src/common/utils/validators.utils.ts:12 | an hour of today that has already passed is still accepted, as the time of day is not compared |
| Validators.RejectsOffGridMinutes | src/common/utils/validators.utils.ts:14 | a minute other than 0 or 30 is refused |
| Validators.IgnoresSecondsAndMilliseconds | src/common/utils/validators.utils.ts:14-16 | changing seconds or milliseconds never changes the verdict |
| Validators.IgnoresTimeOfDayOfNow | src/common/utils/validators.utils.ts:2-4 | only now's year, month and day matter, not its hour or minute |
| SchedulerDtos.Validate | src/domain/scheduler/dtos/scheduler.dto.ts:4-56 | an accepted body yields a well-formed DTO with a valid phone whose encoding is the body; a refused one names at least one field |
| SchedulerDtos.ValidateEncode | src/domain/scheduler/dtos/scheduler.dto.ts:4-56 | a DTO sent as a body is accepted exactly when its CPF has 11 and its plate 7 characters and its phone is valid, and then it comes back unchanged |
| SchedulerDtos.RejectsBadLengths | src/domain/scheduler/dtos/scheduler.dto.ts:21-47 | a CPF other than an 11-character string or a plate other than a 7-character string is refused and named |
| SchedulerDtos.RejectsNameOnlyBody | test/sheduler/e2e/schedule-controller.e2e.spec.ts:65-68 | a body with only a name is refused, naming phone, CPF, model, plate and date in declaration order |
| BookingStores.FindRow | src/common/database/mysql/mysql.provider.ts:62 | a found position holds the id; when none is found, no booking has it |
| BookingStores.MinWeek | src/common/database/mysql/mysql.provider.ts:184 | SQL `MIN`: none for no rows, otherwise a lower bound of every row's week that some row attains |
| BookingStores.EmptyStoreConsistent | src/common/database/mysql/mysql.provider.ts:11-16 | the empty store satisfies the invariant |
| BookingStores.FindRowUnique | src/common/database/mysql/mysql.provider.ts:62 | with increasing ids, the lookup by a booking's id finds that booking |
| BookingStores.SelectIff | src/common/database/mysql/mysql.provider.ts:98-105 | a query keeps a booking exactly when it is stored and satisfies the condition |
| BookingStores.ConflictWritesNothing | src/common/database/mysql/mysql.provider.ts:21-26 | a taken date is a 409 with the store left exactly as it was: no car, customer or booking is written |
| BookingStores.CreateSucceedsIff | src/common/database/mysql/mysql.provider.ts:20-59 | a booking is made exactly when the date is free and passes the slot validator |
| BookingStores.CreateFindsOrCreates | src/common/database/mysql/mysql.provider.ts:21-41 | past the conflict check, existing cars and customers are kept unchanged and only a missing plate or CPF is added, built from the DTO |
| BookingStores.InvalidDateKeepsCarAndCustomer | src/common/database/mysql/mysql.provider.ts:28-49 | an invalid date is a 400 that adds no booking, while a car or customer created just before stays |
| BookingStores.CreateKeepsConsistent | src/common/database/mysql/mysql.provider.ts:20-59 | a create keeps plates and CPFs unique, bookings linked and ids increasing |
| BookingStores.CreateThenGet | src/common/database/mysql/mysql.provider.ts:43-84 | a successful create gets the next id, adds one booking, returns the date three hours earlier, and reading that id gives the stored car and customer with that same date; shifting forward three hours gives the request's date |
| BookingStores.GetScheduleCases | src/common/database/mysql/mysql.provider.ts:61-84 | an id that is NaN or below 1 is a 400, an absent id a 404, and a stored booking is read with its related fields and its date three hours earlier |
| BookingStores.GetStoredSchedule | src/common/database/mysql/mysql.provider.ts:61-84 | every stored booking is read back by its own id |
| BookingStores.GetAllIsGetEach | src/common/database/mysql/mysql.provider.ts:86-94 | `getAllSchedules` returns, in table order, what `getSchedule` returns for each booking's id |
| BookingStores.InvalidIdRejected | src/common/database/mysql/mysql.provider.ts:202-216 | delete and update refuse an invalid id with a 400 and change nothing |
| BookingStores.DeleteKeepsConsistent | src/common/database/mysql/mysql.provider.ts:202-211 | a delete keeps the invariant, removes exactly the booking with that id, and leaves the cars, the customers and the counter unchanged |
| BookingStores.AbsentIdNotFound | src/common/database/mysql/mysql.provider.ts:207-236 | a valid id that no booking holds affects no row: the delete, and the update once its car and customer are found, are a 404 with the store unchanged |
| BookingStores.DeleteThenGet | src/common/database/mysql/mysql.provider.ts:202-211 | after a successful delete, reading the id is a 404 |
| BookingStores.UpdateNeverCreates | src/common/database/mysql/mysql.provider.ts:213-237 | an update never adds or changes a car or a customer |
| BookingStores.UpdateNeedsCarAndCustomer | src/common/database/mysql/mysql.provider.ts:218-226 | an unknown plate is a 404 "Car not found", checked before an unknown CPF, which is "Customer not found" |
| BookingStores.UpdateKeepsConsistent | src/common/database/mysql/mysql.provider.ts:213-237 | an update keeps the invariant |
| BookingStores.UpdateThenGet | src/common/database/mysql/mysql.provider.ts:228-237 | an updated booking reads back with the new date three hours earlier and the new car and customer, but with their stored model, name and phone; the counter, the number of bookings and every other booking stay as they were |
| BookingStores.ByLicensePlateIff | src/common/database/mysql/mysql.provider.ts:96-120 | an unknown plate is a 400; otherwise the views read are exactly the views of the stored bookings of that car |
| BookingStores.ByCpfIff | src/common/database/mysql/mysql.provider.ts:122-146 | an unknown CPF is a 400; otherwise the views read are exactly the views of the stored bookings of that customer |
| BookingStores.ByMonthIff | src/common/database/mysql/mysql.provider.ts:148-166 | a month outside 1..12 is a 400; otherwise the bookings of that month of the clock's year, and only those, are read |
| BookingStores.ByWeekChecksWeekFirst | src/common/database/mysql/mysql.provider.ts:168-175 | a week outside 1..5 is a 400 before the month is checked, then a bad month is a 400, otherwise the query answers |
| BookingStores.WeekRowsIff | src/common/database/mysql/mysql.provider.ts:183-190 | a booking is in the week exactly when its week number is the smallest one plus week - 1 |
| BookingStores.ByWeekSound | src/common/database/mysql/mysql.provider.ts:177-199 | every booking the week query reads is in the month and year, in the week that lies week - 1 after the month's smallest week number |
| BookingStores.ByWeekComplete | src/common/database/mysql/mysql.provider.ts:177-199 | every booking of the month in that week is read |
| BookingStores.MinWeekIsMinWeek | src/common/database/mysql/mysql.provider.ts:184 | the subquery's `MIN` is the smallest week number among the month's bookings |
| MysqlProviders.MysqlProvider.constructor | src/common/database/mysql/mysql.provider.ts:12-16 | a new provider has empty tables, the counter at 1, and satisfies the invariant |
| MysqlProviders.MysqlProvider.CreateSchedule | src/common/database/mysql/mysql.provider.ts:20-59 | the method's new tables and result are those of `BookingStores.CreateSchedule`, and the invariant is kept |
| MysqlProviders.MysqlProvider.GetSchedule | src/common/database/mysql/mysql.provider.ts:61-84 | the answer built from the related car and customer is `BookingStores.GetSchedule`'s |
| MysqlProviders.MysqlProvider.ReadEach | src/common/database/mysql/mysql.provider.ts:88-93 | mapping stored bookings through `getSchedule(id)` one at a time gives their views, in order |
| MysqlProviders.MysqlProvider.GetAllSchedules | src/common/database/mysql/mysql.provider.ts:86-94 | equals `BookingStores.GetAllSchedules` |
| MysqlProviders.MysqlProvider.GetSchedulesByLicensePlate | src/common/database/mysql/mysql.provider.ts:96-120 | equals `BookingStores.GetSchedulesByLicensePlate` |
| MysqlProviders.MysqlProvider.GetSchedulesByCpf | src/common/database/mysql/mysql.provider.ts:122-146 | equals `BookingStores.GetSchedulesByCpf` |
| MysqlProviders.MysqlProvider.GetSchedulesByMonth | src/common/database/mysql/mysql.provider.ts:148-166 | equals `BookingStores.GetSchedulesByMonth` |
| MysqlProviders.MysqlProvider.GetSchedulesByWeek | src/common/database/mysql/mysql.provider.ts:168-200 | equals `BookingStores.GetSchedulesByWeek` |
| MysqlProviders.MysqlProvider.DeleteSchedule | src/common/database/mysql/mysql.provider.ts:202-211 | the new tables and result are those of `BookingStores.DeleteSchedule`, and the invariant is kept |
| MysqlProviders.MysqlProvider.UpdateSchedule | src/common/database/mysql/mysql.provider.ts:213-237 | the new tables and result are those of `BookingStores.UpdateSchedule`, and the invariant is kept |
| ScheduleServices.EnumerateSlots | src/domain/scheduler/services/schedule.service.ts:49-73 | the outer loop from the anchor day to the month's last day produces exactly `GeneratedSlots(now)` |
| ScheduleServices.EnumerateDay | src/domain/scheduler/services/schedule.service.ts:66-71 | the inner loop produces hh:00 and hh:30 for every hour from the first kept one to 17 |
| ScheduleServices.KeepUnbooked | src/domain/scheduler/services/schedule.service.ts:77-99 | the filtering loop, with its early `break`, keeps exactly the slots no booking takes, in order |
| ScheduleServices.DaySlotsStep | src/domain/scheduler/services/schedule.service.ts:67-70 | one more hour of the inner loop appends hh:00 and hh:30, unless the hour is cut off |
| ScheduleServices.DaySlotsIff | src/domain/scheduler/services/schedule.service.ts:67-70 | a slot of a day is generated exactly when it is hh:00 or hh:30 with hh between the first kept hour and 17 |
| ScheduleServices.MonthSlotsIff | src/domain/scheduler/services/schedule.service.ts:64-73 | a slot is generated exactly when it lies on a weekday from the anchor day on, within the day's kept hours |
| ScheduleServices.GeneratedSlotsIff | src/domain/scheduler/services/schedule.service.ts:49-73 | the generated slots are exactly those satisfying `IsOfferedSlot`, the declarative description |
| ScheduleServices.DaySlotsBound | src/domain/scheduler/services/schedule.service.ts:67-70 | at most 20 slots per day |
| ScheduleServices.MonthSlotsIncreasing | src/domain/scheduler/services/schedule.service.ts:64-73 | the loops generate slots in increasing order, day by day and hour by hour |
| ScheduleServices.IncreasingIsChronological | src/domain/scheduler/services/schedule.service.ts:64-73 | each slot before the next implies every slot before every later one, so there are no duplicates |
| ScheduleServices.UnbookedIff | src/domain/scheduler/services/schedule.service.ts:77-99 | the filter keeps a slot exactly when it was generated and no booking's date equals it moved back three hours |
| ScheduleServices.UnbookedChronological | src/domain/scheduler/services/schedule.service.ts:77-99 | filtering keeps the order |
| ScheduleServices.AvailableDaysIff | src/domain/scheduler/services/schedule.service.ts:48-102 | a slot is offered exactly when it satisfies `IsOfferedSlot` and no returned booking takes it |
| ScheduleServices.AvailableDaysChronological | src/domain/scheduler/services/schedule.service.ts:48-102 | the offered slots are strictly increasing, in the calendar order and in `getTime()` order |
| ScheduleServices.NoListNoSlots | src/domain/scheduler/services/schedule.service.ts:77 | a repository that returns no list leads to nothing offered |
| ScheduleServices.EveningAnchorDayIsEmpty | src/domain/scheduler/services/schedule.service.ts:52-53 | from 18:00 on, the enumeration starts on the next calendar day, and that day itself contributes nothing |
| ScheduleServices.AvailableDaysMatchValidator | src/domain/scheduler/services/schedule.service.ts:48-102 | before 18:00, every offered slot passes `isValidScheduleDate`; every free date it accepts with zero seconds that is after the current hour today is offered |
| ScheduleServices.FirstSlotOnTestDate | src/domain/scheduler/services/schedule.service.ts:68 | at 2021-08-10 10:00 with no bookings, the first slot offered is 11:00, because the whole current hour is cut off |
| ScheduleServices.BookedSlotIsAbsent | test/sheduler/unit/schedule-service.unit.spec.ts:153-158 | a booking returned at 07:30 takes the 10:30 slot and leaves 11:00 free |
| ScheduleServices.UnitTestScenario | test/sheduler/unit/schedule-service.unit.spec.ts:153-159 | on the unit test's clock and answer, 10:30 is not offered, the booking takes 13:30, 13:00 is offered, and month 8 is requested |
| ScheduleServices.BookedIffStored | src/domain/scheduler/services/schedule.service.ts:79-82 | a booking read from the store takes a slot exactly when it is stored at that slot, since both sides are moved back the same three hours |
| ScheduleServices.TakenInMonth | src/common/database/mysql/mysql.provider.ts:154-158 | a date is taken among a month's bookings exactly when it is taken and lies in that month and year |
| ScheduleServices.OfferedSlotsAsWrittenIff | src/domain/scheduler/services/schedule.service.ts:75 | as written, a slot is offered exactly when it satisfies `IsOfferedSlot` and, if it lies in the clock's year, no booking is stored at it |
| ScheduleServices.OfferedSlotsIff | src/domain/scheduler/services/schedule.service.ts:75-99 | with the anchor's year, a slot is offered exactly when it satisfies `IsOfferedSlot` and no booking is stored at it |
| ScheduleServices.AnchorLeavesYear | src/domain/scheduler/services/schedule.service.ts:52-53 | the anchor is in another year exactly on 31 December from 18:00 on |
| ScheduleServices.AsWrittenAgreesWithinYear | src/domain/scheduler/services/schedule.service.ts:75 | whenever the anchor lies in the clock's year, the code as written gives the intended answer |
| ScheduleServices.FirstMondayOf2022IsOffered | src/domain/scheduler/services/schedule.service.ts:52-73 | at 2021-12-31 18:00 the enumeration covers 08:00 on Monday 2022-01-03 |
| ScheduleServices.StoreWithNewYearBooking | src/common/database/mysql/mysql.provider.ts:228-237 | an update, which checks no date, moves a booking of a consistent store to 08:00 on 2022-01-03 and gives a consistent store |
| ScheduleServices.NewYearEveOffersBookedSlot | src/common/database/mysql/mysql.provider.ts:153-157 | with such a booking, at 2021-12-31 18:00 the code as written offers the booked slot, and the intended answer does not |
| ScheduleServices.ScheduleService.constructor | src/domain/scheduler/services/schedule.service.ts:6 | the service holds the injected provider |
| ScheduleServices.ScheduleService.CreateSchedule | src/domain/scheduler/services/schedule.service.ts:8-10 | forwards to the provider: new state and result of `BookingStores.CreateSchedule` |
| ScheduleServices.ScheduleService.GetAllSchedules | src/domain/scheduler/services/schedule.service.ts:12-14 | forwards to the provider |
| ScheduleServices.ScheduleService.DeleteSchedule | src/domain/scheduler/services/schedule.service.ts:16-18 | forwards to the provider |
| ScheduleServices.ScheduleService.UpdateSchedule | src/domain/scheduler/services/schedule.service.ts:20-22 | forwards to the provider |
| ScheduleServices.ScheduleService.GetSchedule | src/domain/scheduler/services/schedule.service.ts:24-26 | forwards to the provider |
| ScheduleServices.ScheduleService.GetSchedulesByLicensePlate | src/domain/scheduler/services/schedule.service.ts:28-30 | forwards to the provider |
| ScheduleServices.ScheduleService.GetSchedulesByCpf | src/domain/scheduler/services/schedule.service.ts:32-34 | forwards to the provider |
| ScheduleServices.ScheduleService.GetSchedulesByMonth | src/domain/scheduler/services/schedule.service.ts:36-38 | forwards to the provider |
| ScheduleServices.ScheduleService.GetSchedulesByWeek | src/domain/scheduler/services/schedule.service.ts:40-42 | forwards to the provider |
| ScheduleServices.ScheduleService.GetAvaliableDaysToSchedule | src/domain/scheduler/services/schedule.service.ts:48-102 | the slots generated, fetched for the anchor's month and filtered are `OfferedSlotsAsWritten` of the provider's tables |
| ManagerGuards.IndexOfFromIsFirst | src/common/guards/manager.guard.ts:11 | `indexOf` finds the first occurrence from the start index on, or reports that there is none |
| ManagerGuards.CanActivateIff | src/common/guards/manager.guard.ts:6-18 | the guard allows a request exactly when the token sits right after the header's first "Bearer " and runs to the end or to the next "Bearer " |
| ManagerGuards.PieceAfterFirstIsSecondPiece | src/common/guards/manager.guard.ts:11 | the declarative piece after the first separator is `split(sep)[1]` |
| ManagerGuards.SecondPieceIsPieceAfterFirst | src/common/guards/manager.guard.ts:11 | conversely, `split(sep)[1]` is the piece after the first separator |
| ManagerGuards.AcceptsBearerToken | src/common/guards/manager.guard.ts:11-14 | "Bearer " followed by exactly the token is allowed, as long as the token holds no "Bearer " |
| ManagerGuards.RejectsAbsentHeader | src/common/guards/manager.guard.ts:10-17 | an absent header is Unauthorized |
| ManagerGuards.RejectsHeaderWithoutBearer | src/common/guards/manager.guard.ts:11-12 | a header without "Bearer " has no second piece and is Unauthorized |
| ManagerGuards.IgnoresTextBeforeFirstBearer | src/common/guards/manager.guard.ts:11 | dropping the text before the first "Bearer " never changes the verdict |
| ManagerGuards.OnlyUnauthorizedFailure | src/common/guards/manager.guard.ts:10-17 | the guard either allows or fails with Unauthorized "Invalid Bearer token", never anything else |

## Left out

- HTTP transport: the controller's routes and status codes, the bootstrap, the modules, and the validation pipe's configuration are not part of this model. An error is a `StoreError` or a `GuardResult` value.
- Dates in request bodies: the pipe is configured without implicit conversion and `dateTime` has no `@Type`, so a date sent as JSON text stays a string and fails `@IsDate`. The `JDate` case of `JsonValue` stands for a date value the body already holds; the model does not say how JSON text could produce one.
- Connection lifecycle: `connect`, `destroy`, the static data source and the engine factory are replaced by the in-memory tables.
- Host clock and time zone: "now" is a parameter. There is one fixed offset and no daylight-saving time.
- The provider reads the clock itself in `getSchedulesByMonth` and `getSchedulesByWeek`. The model passes that year in as `actualYear`.
- The pt-BR `toLocaleString` formatting of the offered slots: the model returns the slot date-times.
- MySQL `WEEK(date, 3)`: the ISO week number is the function parameter `isoWeek`. The `MIN` subquery and the selection around it are modelled.
- `@IsPhoneNumber("BR")`: the phone check is the function parameter `isPhoneBR`. class-validator and class-transformer themselves are library code.
- String lengths count characters, not UTF-16 code units.
- `getSchedulesByDay`: the service forwards it, but the provider does not implement it, so it is not modelled.
- Ids, months and weeks are `NumberArg`: NaN or an integer. A fractional or infinite JavaScript number is not modelled.
- The ORM's own ids for cars and customers are not modelled. Cars are keyed by plate and customers by CPF.
- The order in which a relation loads a car's or a customer's bookings is taken to be table order.
- The in-place mutation of shared `Date` objects is modelled as value arithmetic: `setHours` on a saved or read entity, and the shift of each slot and back. Aliasing is not modelled.
- `Promise.all` and concurrent requests: every operation runs alone, in sequence. Races resolved by database constraints are not modelled.
- A delete or update "affects" a row exactly when a booking has that id. An update that writes equal values is not distinguished.

Where the code and its written description disagree, the model follows the code:

- A booking is stored at the requested date-time, and every read returns it three hours earlier, so a read does not give back the date that was sent.
- The first offered slot at 10:00 is 11:00, not 10:30, because the whole current hour is skipped.
- `updateSchedule` changes neither the customer's name and phone nor the car's model.
- `updateSchedule` performs no date-conflict or date-validity check.

## Findings

| source | as written | input that shows it | evidently intended | confidence | as-written member | corrected member |
|---|---|---|---|---|---|---|
| src/domain/scheduler/services/schedule.service.ts:52-53,75 with src/common/database/mysql/mysql.provider.ts:153-157 | from 18:00 on 31 December the slots are enumerated in January of the next year, but the bookings are fetched for January of the clock's current year | now = 2021-12-31 18:00, a booking moved to 2022-01-03 08:00 by an update (create refuses that date until the new year): that slot is still offered | bookings fetched for the anchor's month and year, so a booked slot is never offered | not executed | ScheduleServices.NewYearEveOffersBookedSlot | ScheduleServices.OfferedSlotsIff |
