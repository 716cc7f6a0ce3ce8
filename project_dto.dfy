/** The request body of `POST /projects` and `PATCH /projects/:id`, and its validation rules. */
module ProjectDto {
  import opened Common
  import opened Validation

  /** The DTO-level status enumeration; each member's value is its wire spelling. */
  datatype ProjectStatusEnum = Active | Completed | OnHold

  const EnumValues: seq<string> := ["active", "completed", "on-hold"]

  function EnumValue(e: ProjectStatusEnum): (s: string)
    ensures s in EnumValues
  {
    match e
    case Active => "active"
    case Completed => "completed"
    case OnHold => "on-hold"
  }

  /** The member whose value is `s`, if any: exactly the values `@IsEnum` accepts. */
  function ParseEnum(s: string): (r: Option<ProjectStatusEnum>)
    ensures r.Some? <==> s in EnumValues
    ensures r.Some? ==> EnumValue(r.value) == s
  {
    if s == "active" then Some(Active)
    else if s == "completed" then Some(Completed)
    else if s == "on-hold" then Some(OnHold)
    else None
  }

  /** A validated `CreateProjectDto`; `UpdateProjectDto` extends it without change. */
  datatype CreateProjectDto = CreateProjectDto(
    name: string,
    description: Field<string>,
    deadline: Field<string>,
    status: Field<ProjectStatusEnum>)

  type UpdateProjectDto = CreateProjectDto

  /** The properties the DTO declares; the whitelist drops every other one. */
  const Keys: set<string> := {"name", "description", "deadline", "status"}

  /** The decorators of `CreateProjectDto`, property by property. */
  predicate ValidBody(body: Body, isDateString: string -> bool)
  {
    && Required(body, "name", IsString)
    && Optional(body, "description", IsString)
    && Optional(body, "deadline", v => IsFormatted(v, isDateString))
    && Optional(body, "status", v => IsEnum(v, EnumValues))
  }

  /** The same rules stated on a typed DTO: what a validated DTO always satisfies. */
  predicate Valid(dto: CreateProjectDto, isDateString: string -> bool)
  {
    dto.deadline.Present? ==> isDateString(dto.deadline.value)
  }

  function EnumOf(v: Json): ProjectStatusEnum
  {
    match ParseEnum(StrOf(v))
    case Some(e) => e
    case None => Active
  }

  function EnumJson(e: ProjectStatusEnum): Json { JString(EnumValue(e)) }

  /** The JSON a client sends for property `key` of a DTO, if any. */
  function PropertyOf(dto: CreateProjectDto, key: string): Option<Json>
  {
    if key == "name" then Some(StrJson(dto.name))
    else if key == "description" then EncodeField(dto.description, StrJson)
    else if key == "deadline" then EncodeField(dto.deadline, StrJson)
    else if key == "status" then EncodeField(dto.status, EnumJson)
    else None
  }

  /** The body a client sends for a DTO. */
  function ToBody(dto: CreateProjectDto): Body
  {
    map k | k in Keys && PropertyOf(dto, k).Some? :: PropertyOf(dto, k).value
  }

  /** What plain-to-class transformation makes of a body (meaningful once it passed validation). */
  function Transform(body: Body): CreateProjectDto
  {
    CreateProjectDto(
      StrOf(Prop(body, "name")),
      OptionalField(body, "description", StrOf),
      OptionalField(body, "deadline", StrOf),
      OptionalField(body, "status", EnumOf))
  }

  /**
   * The ValidationPipe: a body passes exactly when every decorator holds
   * (otherwise the request fails with 400), and the DTO it produces
   * satisfies the typed rules and is what the client sent, minus the
   * properties the DTO does not declare.
   */
  function Validate(body: Body, isDateString: string -> bool): (r: Option<CreateProjectDto>)
    ensures r.Some? <==> ValidBody(body, isDateString)
    ensures r.Some? ==> Valid(r.value, isDateString)
    ensures r.Some? ==> ToBody(r.value) == Whitelist(body, Keys)
  {
    if ValidBody(body, isDateString) then
      WhitelistRoundTrip(body, isDateString);
      Some(Transform(body))
    else
      None
  }

  /** Transforming a valid body and encoding the result again gives back its whitelisted part. */
  lemma WhitelistRoundTrip(body: Body, isDateString: string -> bool)
    requires ValidBody(body, isDateString)
    ensures Valid(Transform(body), isDateString)
    ensures ToBody(Transform(body)) == Whitelist(body, Keys)
  {
    var dto := Transform(body);
    OptionalStringRoundTrip(body, "description");
    OptionalStringRoundTrip(body, "deadline");
    forall k | k in Keys
      ensures PropertyOf(dto, k) == Get(body, k)
    {
    }
    var b, w := ToBody(dto), Whitelist(body, Keys);
    forall k | k in Keys
      ensures (k in b <==> k in w) && (k in b ==> b[k] == w[k])
    {
      assert PropertyOf(dto, k) == Get(body, k);
    }
    assert b.Keys == w.Keys;
  }

  /** The body a client sends for a DTO holds exactly the DTO's encoded properties. */
  lemma ToBodyProperties(dto: CreateProjectDto)
    ensures forall k :: Get(ToBody(dto), k) == PropertyOf(dto, k)
  {
  }

  /** Validating what a client sends for a DTO gives that DTO back exactly when it obeys the rules. */
  lemma ValidateToBody(dto: CreateProjectDto, isDateString: string -> bool)
    ensures Validate(ToBody(dto), isDateString) == if Valid(dto, isDateString) then Some(dto) else None
  {
    var b := ToBody(dto);
    ToBodyProperties(dto);
    OptionalFieldOfEncoding(b, "description", dto.description, StrJson, StrOf);
    OptionalFieldOfEncoding(b, "deadline", dto.deadline, StrJson, StrOf);
    if dto.status.Present? {
      assert EnumOf(EnumJson(dto.status.value)) == dto.status.value;
    }
    OptionalFieldOfEncoding(b, "status", dto.status, EnumJson, EnumOf);
    assert Transform(b) == dto;
    assert ValidBody(b, isDateString) <==> Valid(dto, isDateString);
  }

  /** `UpdateProjectDto` keeps every rule of `CreateProjectDto`, so an update body without a name is rejected. */
  lemma UpdateNeedsName(body: Body, isDateString: string -> bool)
    requires "name" !in body
    ensures Validate(body, isDateString) == None
  {
  }
}
