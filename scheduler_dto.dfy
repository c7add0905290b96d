/**
 * The booking request record and the field constraints its class-validator
 * decorators declare. A request body arrives as loosely typed JSON; the
 * validation pipe either turns it into a SchedulerDto or rejects it with
 * 400, listing every field that failed.
 */
module SchedulerDtos {
  import opened Wrappers
  import opened CivilTime

  /** The validated request: every field present, with the declared type. */
  datatype SchedulerDto = SchedulerDto(
    name: string,
    phone: string,
    cpf: string,
    carModel: string,
    carLicensePlate: string,
    dateTime: DateTime)

  /** The length constraints: an 11-character CPF and a 7-character plate. */
  predicate WellFormed(dto: SchedulerDto) {
    |dto.cpf| == 11 && |dto.carLicensePlate| == 7
  }

  /** A property's value in the raw body, as far as the decorators distinguish. */
  datatype JsonValue = JString(s: string) | JDate(d: DateTime) | JOther

  /** A raw request body; None is a property that is absent. */
  datatype RequestBody = RequestBody(
    name: Option<JsonValue>,
    phone: Option<JsonValue>,
    cpf: Option<JsonValue>,
    carModel: Option<JsonValue>,
    carLicensePlate: Option<JsonValue>,
    dateTime: Option<JsonValue>)

  datatype Field = Name | Phone | Cpf | CarModel | CarLicensePlate | DateTimeField

  /** `@IsString()`: present and a string. */
  predicate IsString(v: Option<JsonValue>) {
    v.Some? && v.value.JString?
  }

  /** `@IsString() @MinLength(n) @MaxLength(n)`: a string of exactly n characters. */
  predicate IsStringOfLength(v: Option<JsonValue>, n: nat) {
    IsString(v) && |v.value.s| == n
  }

  /** `@IsDate()`: present and a Date. */
  predicate IsDateValue(v: Option<JsonValue>) {
    v.Some? && v.value.JDate?
  }

  /**
   * The fields that fail their constraints, in declaration order.
   * `isPhoneBR` stands for the external `@IsPhoneNumber("BR")` check on a string.
   */
  function FailedFields(body: RequestBody, isPhoneBR: string -> bool): seq<Field> {
    (if IsString(body.name) then [] else [Name])
    + (if IsString(body.phone) && isPhoneBR(body.phone.value.s) then [] else [Phone])
    + (if IsStringOfLength(body.cpf, 11) then [] else [Cpf])
    + (if IsString(body.carModel) then [] else [CarModel])
    + (if IsStringOfLength(body.carLicensePlate, 7) then [] else [CarLicensePlate])
    + (if IsDateValue(body.dateTime) then [] else [DateTimeField])
  }

  /** The validation pipe: the DTO when nothing fails, otherwise a 400 naming the failures. */
  function Validate(body: RequestBody, isPhoneBR: string -> bool): (r: Result<SchedulerDto, seq<Field>>)
    ensures r.Ok? ==> WellFormed(r.value) && isPhoneBR(r.value.phone)
    ensures r.Ok? ==> Encode(r.value) == body
    ensures r.Err? ==> r.error != []
  {
    var failed := FailedFields(body, isPhoneBR);
    if failed != [] then Err(failed)
    else Ok(SchedulerDto(
      body.name.value.s, body.phone.value.s, body.cpf.value.s,
      body.carModel.value.s, body.carLicensePlate.value.s, body.dateTime.value.d))
  }

  /** The body a client sends for a given DTO. */
  function Encode(dto: SchedulerDto): RequestBody {
    RequestBody(
      Some(JString(dto.name)), Some(JString(dto.phone)), Some(JString(dto.cpf)),
      Some(JString(dto.carModel)), Some(JString(dto.carLicensePlate)), Some(JDate(dto.dateTime)))
  }

  /** Encoding a DTO and validating it gives it back exactly when it meets the constraints. */
  lemma ValidateEncode(dto: SchedulerDto, isPhoneBR: string -> bool)
    ensures Validate(Encode(dto), isPhoneBR).Ok? <==> WellFormed(dto) && isPhoneBR(dto.phone)
    ensures Validate(Encode(dto), isPhoneBR).Ok? ==> Validate(Encode(dto), isPhoneBR).value == dto
  {
  }

  /** A CPF or plate of the wrong length is refused, and the field is named. */
  lemma RejectsBadLengths(body: RequestBody, isPhoneBR: string -> bool)
    requires !IsStringOfLength(body.cpf, 11) || !IsStringOfLength(body.carLicensePlate, 7)
    ensures Validate(body, isPhoneBR).Err?
    ensures !IsStringOfLength(body.cpf, 11) ==> Cpf in Validate(body, isPhoneBR).error
    ensures !IsStringOfLength(body.carLicensePlate, 7) ==> CarLicensePlate in Validate(body, isPhoneBR).error
  {
  }

  /** A body carrying only a name fails on every other field. */
  lemma RejectsNameOnlyBody(n: string, isPhoneBR: string -> bool)
    ensures Validate(RequestBody(Some(JString(n)), None, None, None, None, None), isPhoneBR)
         == Err([Phone, Cpf, CarModel, CarLicensePlate, DateTimeField])
  {
    var body := RequestBody(Some(JString(n)), None, None, None, None, None);
    assert FailedFields(body, isPhoneBR)
        == [] + [Phone] + [Cpf] + [CarModel] + [CarLicensePlate] + [DateTimeField];
    assert [] + [Phone] + [Cpf] + [CarModel] + [CarLicensePlate] + [DateTimeField]
        == [Phone, Cpf, CarModel, CarLicensePlate, DateTimeField];
  }
}
